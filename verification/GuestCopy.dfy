/** Copying between host buffers and guest virtual memory: the chunked routines against
byte-by-byte translation, over fixed tables.

Guest physical memory is a list of windows, the primary slab first; every extra
mapping and overflow segment is another. */
module GuestCopy {
  import opened Descriptors
  import opened PageTables
  import opened GuestTables
  import opened Walker
  import opened Slab

  /** Guest physical bytes [base, base + |bytes|), held in a host buffer. */
  datatype Window = Window(base: nat, bytes: array<byte>) {
    predicate Has(x: nat) {
      base <= x < base + bytes.Length
    }
  }

  /** What gva_translate_perm returns: an address, and how many bytes of its block or
      page are left from there. */
  datatype Found = Found(gpa: nat, chunk: nat)

  // ----- The reference: one byte at a time -----

  /** Where a byte's page table entry sends it, if that allows the access. */
  function Trans(m: Pool, gva: nat, need: Perms): Option<nat> {
    match P(m, gva / 0x20_0000, gva / 4096 % 512)
    case Some(leaf) => if !leaf.perms.el1 && leaf.perms.Allows(need) then Some(4096 * leaf.frame + gva % 4096) else None
    case None => None
  }

  predicate Backed(wins: seq<Window>, x: nat) {
    exists w :: 0 <= w < |wins| && wins[w].Has(x)
  }

  /** The guest physical address of a byte that may be accessed. */
  function ByteAt(m: Pool, wins: seq<Window>, gva: nat, need: Perms): Option<nat> {
    match Trans(m, gva, need)
    case Some(x) => if Backed(wins, x) then Some(x) else None
    case None => None
  }

  ghost predicate Run(m: Pool, gva: nat, need: Perms, gpa: nat, n: nat) {
    forall y: nat :: gva <= y < gva + n ==> Trans(m, y, need) == Some(gpa + (y - gva))
  }

  ghost predicate FullPages(m: Pool) {
    forall p :: 0 <= p < |m.pages| ==> |m.pages[p]| == 512
  }

  /** Nothing above 48 bits translates. */
  lemma HighFails(m: Pool, gva: nat, need: Perms)
    requires FullPages(m) && gva >= 0x1_0000_0000_0000
    ensures Trans(m, gva, need) == None
  {
    var blk := Blk(gva / 0x20_0000);
    assert blk.i0 >= 512;
    assert Entry(m, m.root, blk.i0) == ZERO;
  }

  /** A block descriptor sends its whole 2 MiB to one run of addresses. */
  lemma BlockRun(m: Pool, gva: nat, need: Perms)
    requires K(m, gva / 0x20_0000).Whole?
    ensures var k := K(m, gva / 0x20_0000); var x := 4096 * k.frame + gva % 0x20_0000;
      if !k.perms.el1 && k.perms.Allows(need) then Run(m, gva, need, x, 0x20_0000 - gva % 0x20_0000)
      else Trans(m, gva, need) == None
  {
    hide K, P;
    var b := gva / 0x20_0000;
    var k := K(m, b);
    forall y: nat | gva <= y < gva + (0x20_0000 - gva % 0x20_0000)
      ensures Trans(m, y, need)
        == if !k.perms.el1 && k.perms.Allows(need) then Some(4096 * k.frame + gva % 0x20_0000 + (y - gva)) else None
    {
      PartsAt(y, b, gva % 0x20_0000 + (y - gva));
      WholePages(m, b, y / 4096 % 512);
    }
    var here := Trans(m, gva, need);
  }

  /** So does a page, its 4 KiB. */
  lemma PageRun(m: Pool, gva: nat, need: Perms)
    ensures var p := P(m, gva / 0x20_0000, gva / 4096 % 512);
      if p.Some? && !p.value.perms.el1 && p.value.perms.Allows(need)
      then Run(m, gva, need, 4096 * p.value.frame + gva % 4096, 4096 - gva % 4096)
      else Trans(m, gva, need) == None
  {
    hide P;
    var p, v := P(m, gva / 0x20_0000, gva / 4096 % 512), gva / 4096;
    forall y: nat | gva <= y < gva + (4096 - gva % 4096)
      ensures y / 0x20_0000 == gva / 0x20_0000 && y / 4096 == v && y % 4096 == gva % 4096 + (y - gva)
    {
      SamePage(gva, y);
    }
  }

  lemma SamePage(gva: nat, y: nat)
    requires gva <= y < gva + (4096 - gva % 4096)
    ensures y / 4096 == gva / 4096 && y % 4096 == gva % 4096 + (y - gva) && y / 0x20_0000 == gva / 0x20_0000
  {
    assert y / 4096 == gva / 4096;
    assert y / 0x20_0000 == y / 4096 / 512 && gva / 0x20_0000 == gva / 4096 / 512;
  }

  /** And a cache line that says what the tables say. */
  lemma LineRun(m: Pool, c: Line, gva: nat, need: Perms)
    requires Denotes(m, c) && LineHas(c, gva / 0x20_0000, gva / 4096 % 512) && c.perms.Allows(need)
    ensures var start := 0x20_0000 * c.b + 4096 * c.first;
      && start <= gva < start + 4096 * c.count
      && Run(m, gva, need, 4096 * c.frame + (gva - start), start + 4096 * c.count - gva)
  {
    hide P;
    var start := 0x20_0000 * c.b + 4096 * c.first;
    assert P(m, c.b, c.first + c.count - 1).Some?;
    Parts(gva);
    forall y: nat | gva <= y < start + 4096 * c.count ensures Trans(m, y, need) == Some(4096 * c.frame + (y - start)) {
      var d := y - 0x20_0000 * c.b;
      PartsAt(y, c.b, d);
      assert P(m, c.b, d / 4096) == Some(LineLeaf(c, d / 4096));
    }
  }

  lemma Parts(gva: nat)
    ensures gva == 0x20_0000 * (gva / 0x20_0000) + 4096 * (gva / 4096 % 512) + gva % 4096
  {
  }

  lemma PartsAt(y: nat, b: nat, d: nat)
    requires y == 0x20_0000 * b + d && d < 0x20_0000
    ensures y / 0x20_0000 == b && y / 4096 % 512 == d / 4096 && y % 4096 == d % 4096
    ensures d == 4096 * (d / 4096) + d % 4096
  {
    var q, w := d / 4096, d % 4096;
    BlockPart(y, b, d);
    PagePart(y, 512 * b + q, w);
    assert q < 512;
    SlotPart(512 * b + q, b, q);
  }

  lemma BlockPart(y: nat, b: nat, d: nat)
    requires y == 0x20_0000 * b + d && d < 0x20_0000
    ensures y / 0x20_0000 == b
  {
  }

  lemma PagePart(y: nat, v: nat, w: nat)
    requires y == 4096 * v + w && w < 4096
    ensures y / 4096 == v && y % 4096 == w
  {
  }

  lemma SlotPart(v: nat, b: nat, q: nat)
    requires v == 512 * b + q && q < 512
    ensures v % 512 == q
  {
  }

  // ----- Windows -----

  /** No two windows share an address or a buffer. */
  ghost predicate Apart(wins: seq<Window>) {
    forall i, k :: 0 <= i < k < |wins| ==>
      wins[i].bytes != wins[k].bytes &&
      (wins[i].base + wins[i].bytes.Length <= wins[k].base || wins[k].base + wins[k].bytes.Length <= wins[i].base)
  }

  /** guest_find_mapping and guest_find_overflow, behind the primary slab. */
  method FindWindow(wins: seq<Window>, x: nat) returns (w: int)
    ensures -1 <= w < |wins|
    ensures if w >= 0 then wins[w].Has(x) else !Backed(wins, x)
  {
    for i := 0 to |wins|
      invariant forall k :: 0 <= k < i ==> !wins[k].Has(x)
    {
      if wins[i].Has(x) {
        return i;
      }
    }
    return -1;
  }

  ghost predicate AllBacked(wins: seq<Window>, gpa: nat, n: nat) {
    forall x: nat :: gpa <= x < gpa + n ==> Backed(wins, x)
  }

  lemma WindowBacks(wins: seq<Window>, w: nat, gpa: nat, n: nat)
    requires w < |wins| && wins[w].base <= gpa && gpa + n <= wins[w].base + wins[w].bytes.Length
    ensures AllBacked(wins, gpa, n)
  {
    forall x: nat | gpa <= x < gpa + n ensures Backed(wins, x) {
      assert wins[w].Has(x);
    }
  }

  /** gva_chunk_clamp. */
  function Clamp(chunk: nat, gpa: nat, end: nat, limit: nat, total: nat): (n: nat)
    requires chunk >= 1 && gpa < end && total < limit
    ensures 1 <= n <= chunk && gpa + n <= end && total + n <= limit
    ensures n == chunk || n == end - gpa || n == limit - total
  {
    var c := if chunk > end - gpa then end - gpa else chunk;
    if c > limit - total then limit - total else c
  }

  lemma RunJoins(m: Pool, gva: nat, need: Perms, gpa: nat, n: nat, k: nat)
    requires Run(m, gva, need, gpa, n) && Run(m, gva + n, need, gpa + n, k)
    ensures Run(m, gva, need, gpa, n + k)
  {
    hide Trans;
  }

  // ----- What a copy means -----

  /** The byte at a guest physical address. */
  ghost function Peek(wins: seq<Window>, x: nat): byte
    reads set w | w in wins :: w.bytes
  {
    if wins == [] then 0 else if wins[0].Has(x) then wins[0].bytes[x - wins[0].base] else Peek(wins[1..], x)
  }

  lemma {:induction false} PeekIs(wins: seq<Window>, w: nat, x: nat)
    requires Apart(wins) && w < |wins| && wins[w].Has(x)
    ensures Peek(wins, x) == wins[w].bytes[x - wins[w].base]
  {
    if w > 0 {
      assert !wins[0].Has(x);
      assert forall i :: 0 <= i < |wins| - 1 ==> wins[1..][i] == wins[i + 1];
      PeekIs(wins[1..], w - 1, x);
    }
  }

  /** Every byte of the span may be accessed. */
  ghost predicate AllBytes(m: Pool, wins: seq<Window>, gva: nat, n: nat, need: Perms) {
    forall y: nat :: gva <= y < gva + n ==> ByteAt(m, wins, y, need).Some?
  }

  /** The last of the first `n` bytes from `gva` that lands on address `x`, or -1: when
      two virtual pages share a frame, that is the one whose value stays. */
  ghost function LastTo(m: Pool, wins: seq<Window>, gva: nat, n: nat, need: Perms, x: nat): (k: int)
    ensures -1 <= k < n
  {
    if n == 0 then -1
    else if ByteAt(m, wins, gva + n - 1, need) == Some(x) then n - 1
    else LastTo(m, wins, gva, n - 1, need, x)
  }

  ghost predicate ByteRun(m: Pool, wins: seq<Window>, gva: nat, need: Perms, gpa: nat, n: nat) {
    forall y: nat :: gva <= y < gva + n ==> ByteAt(m, wins, y, need) == Some(gpa + (y - gva))
  }

  lemma PtrBytes(m: Pool, wins: seq<Window>, gva: nat, need: Perms, w: nat, off: nat, n: nat)
    requires w < |wins| && off + n <= wins[w].bytes.Length && Run(m, gva, need, wins[w].base + off, n)
    ensures ByteRun(m, wins, gva, need, wins[w].base + off, n)
  {
    hide Trans;
    forall y: nat | gva <= y < gva + n ensures ByteAt(m, wins, y, need) == Some(wins[w].base + off + (y - gva)) {
      assert wins[w].Has(wins[w].base + off + (y - gva));
    }
  }

  /** A chunk that lands on one run of addresses is the last writer of all of them. */
  lemma {:induction false} LastToChunk(m: Pool, wins: seq<Window>, gva: nat, n: nat, c: nat, need: Perms, gpa: nat,
                                       x: nat)
    requires ByteRun(m, wins, gva + n, need, gpa, c)
    ensures LastTo(m, wins, gva, n + c, need, x) ==
      if gpa <= x < gpa + c then n + (x - gpa) else LastTo(m, wins, gva, n, need, x)
  {
    hide ByteAt;
    if c > 0 {
      LastToChunk(m, wins, gva, n, c - 1, need, gpa, x);
      assert ByteAt(m, wins, gva + n + c - 1, need) == Some(gpa + c - 1);
    }
  }

  /** A run of accessible bytes towards `x` cannot go on at `gva`: this byte is not at
      `x`, or not accessible, or a window or the 64-bit space ends at `x`. */
  ghost predicate Stops(m: Pool, wins: seq<Window>, gva: nat, need: Perms, x: nat) {
    || ByteAt(m, wins, gva, need) != Some(x) || x > 0xFFFF_FFFF_FFFF_FFFF
    || exists w :: 0 <= w < |wins| && wins[w].base + wins[w].bytes.Length == x
  }

  lemma StopsUnbacked(m: Pool, wins: seq<Window>, gva: nat, need: Perms, x: nat)
    requires !Backed(wins, x)
    ensures Stops(m, wins, gva, need, x)
  {
    hide Trans;
  }

  lemma StopsAtEnd(m: Pool, wins: seq<Window>, gva: nat, need: Perms, x: nat, w: nat)
    requires w < |wins| && wins[w].base + wins[w].bytes.Length == x
    ensures Stops(m, wins, gva, need, x)
  {
  }

  lemma StopsHigh(m: Pool, wins: seq<Window>, gva: nat, need: Perms, x: nat)
    requires FullPages(m) && (gva > 0xFFFF_FFFF_FFFF_FFFF || x > 0xFFFF_FFFF_FFFF_FFFF)
    ensures Stops(m, wins, gva, need, x)
  {
    hide Trans;
    if gva > 0xFFFF_FFFF_FFFF_FFFF {
      HighFails(m, gva, need);
    }
  }

  lemma StopsRefused(m: Pool, wins: seq<Window>, gva: nat, need: Perms, x: nat)
    requires ByteAt(m, wins, gva, need) == None
    ensures Stops(m, wins, gva, need, x)
  {
  }

  lemma StopsElsewhere(m: Pool, wins: seq<Window>, gva: nat, need: Perms, x: nat)
    requires Trans(m, gva, need) != Some(x)
    ensures Stops(m, wins, gva, need, x)
  {
    hide Trans;
  }

  /** A run that stops inside a window stops because its next byte is elsewhere. */
  lemma StopsInside(m: Pool, wins: seq<Window>, gva: nat, need: Perms, gpa: nat, n: nat, w: nat)
    requires Apart(wins) && w < |wins| && wins[w].base <= gpa && gpa + n < wins[w].base + wins[w].bytes.Length && n > 0
    requires Stops(m, wins, gva + n, need, gpa + n)
    ensures ByteAt(m, wins, gva + n, need) != Some(gpa + n) || gpa + n > 0xFFFF_FFFF_FFFF_FFFF
  {
    hide ByteAt;
    forall v | 0 <= v < |wins|
      ensures wins[v].base + wins[v].bytes.Length != gpa + n || wins[v].bytes.Length == 0 || v == w
    {
    }
  }

  /** A buffer position in window `w`, and how many bytes may be touched from it. */
  datatype Ptr = Ptr(w: nat, off: nat, avail: nat)

  /** The bytes that may be touched go on to the limit, to the end of the window or of
      the 64-bit space, or to a byte that is not there. */
  ghost predicate Longest(m: Pool, wins: seq<Window>, gva: nat, need: Perms, limit: nat, p: Ptr)
    requires p.w < |wins|
  {
    var x := wins[p.w].base + p.off + p.avail;
    || p.avail >= limit || p.off + p.avail == wins[p.w].bytes.Length || x > 0xFFFF_FFFF_FFFF_FFFF
    || ByteAt(m, wins, gva + p.avail, need) != Some(x)
  }

  const READ := Perms(true, false, false, false)

  const WRITE := Perms(false, true, false, false)

  /** The line a walk to this byte leaves behind: its block or its page. */
  function LineOf(m: Pool, tag: nat, gva: nat): Option<Line> {
    var b, j := gva / 0x20_0000, gva / 4096 % 512;
    match K(m, b)
    case Whole(frame, perms) => Some(Line(tag, b, 0, 512, frame, perms))
    case _ =>
      match P(m, b, j)
      case Some(leaf) => Some(Line(tag, b, j, 1, leaf.frame, leaf.perms))
      case None => None
  }

  class GuestMemory {
    const pool: Pool
    const gen: nat
    const wins: seq<Window>
    /** The thread's one-entry cache. */
    var line: Option<Line>

    ghost predicate Valid()
      reads this
    {
      FullPages(pool) && Apart(wins) && (line.Some? && line.value.tag == gen ==> Denotes(pool, line.value))
    }

    constructor (pool: Pool, gen: nat, wins: seq<Window>)
      requires FullPages(pool) && Apart(wins)
      ensures Valid() && this.pool == pool && this.gen == gen && this.wins == wins && line == None
    {
      this.pool, this.gen, this.wins, line := pool, gen, wins, None;
    }

    /** The cache answers for this byte. */
    predicate Hit(l: Option<Line>, gva: nat, need: Perms) {
      && l.Some? && l.value.tag == gen && LineHas(l.value, gva / 0x20_0000, gva / 4096 % 512)
      && l.value.perms.Allows(need)
    }

    /** gva_translate_perm.  It refuses exactly a byte that may not be accessed and that
        the cache does not answer for: a hit does not look whether the address is backed. */
    method TranslatePerm(gva: nat, need: Perms) returns (r: Option<Found>)
      requires Valid()
      modifies this`line
      ensures Valid()
      ensures r.None? <==> !Hit(old(line), gva, need) && ByteAt(pool, wins, gva, need) == None
      ensures r.Some? ==> r.value.chunk >= 1 && Run(pool, gva, need, r.value.gpa, r.value.chunk)
      ensures r.Some? ==> line.Some? && line.value.tag == gen && LineHas(line.value, gva / 0x20_0000, gva / 4096 % 512)
      ensures line == if r.None? || Hit(old(line), gva, need) then old(line) else LineOf(pool, gen, gva)
    {
      hide P, K, Denotes, Run, Trans, Apart, FullPages;
      var b, j := gva / 0x20_0000, gva / 4096 % 512;
      if Hit(line, gva, need) {
        LineRun(pool, line.value, gva, need);
        var start := 0x20_0000 * line.value.b + 4096 * line.value.first;
        return Some(Found(4096 * line.value.frame + (gva - start), start + 4096 * line.value.count - gva));
      }
      var k := K(pool, b);
      if k.Whole? {
        BlockRun(pool, gva, need);
        if k.perms.el1 || !k.perms.Allows(need) {
          return None;
        }
        var gpa := 4096 * k.frame + gva % 0x20_0000;
        RunStarts(pool, gva, need, gpa, 0x20_0000 - gva % 0x20_0000);
        var w := FindWindow(wins, gpa);
        if w < 0 {
          return None;
        }
        BlockLine(pool, b, gen);
        line := Some(Line(gen, b, 0, 512, k.frame, k.perms));
        return Some(Found(gpa, 0x20_0000 - gva % 0x20_0000));
      }
      var p := P(pool, b, j);
      PageRun(pool, gva, need);
      if p.None? || p.value.perms.el1 || !p.value.perms.Allows(need) {
        return None;
      }
      var gpa := 4096 * p.value.frame + gva % 4096;
      RunStarts(pool, gva, need, gpa, 4096 - gva % 4096);
      var w := FindWindow(wins, gpa);
      if w < 0 {
        return None;
      }
      PageLine(pool, b, j, gen);
      line := Some(Line(gen, b, j, 1, p.value.frame, p.value.perms));
      return Some(Found(gpa, 4096 - gva % 4096));
    }

    /** gva_contiguous_avail. */
    method ContiguousAvail(gva: nat, need: Perms, first: Found, limit: nat) returns (total: nat)
      requires Valid() && first.chunk >= 1 && Run(pool, gva, need, first.gpa, first.chunk)
      modifies this`line
      ensures Valid() && total <= limit
      ensures Run(pool, gva, need, first.gpa, total) && AllBacked(wins, first.gpa, total)
      ensures limit > 0 && Backed(wins, first.gpa) ==> total >= 1
      ensures total < limit ==> Stops(pool, wins, gva + total, need, first.gpa + total)
    {
      hide P, K, Denotes, Run, Trans, Backed, Apart, FullPages, AllBacked, Stops, ByteAt;
      total := 0;
      RunEmpty(pool, gva, need, first.gpa, wins);
      if limit == 0 {
        return;
      }
      var cur := first;
      while true
        invariant Valid() && total < limit && cur.chunk >= 1 && cur.gpa == first.gpa + total
        invariant Run(pool, gva, need, first.gpa, total) && AllBacked(wins, first.gpa, total)
        invariant Run(pool, gva + total, need, cur.gpa, cur.chunk)
        invariant total == 0 ==> cur == first
        decreases limit - total
      {
        var w := FindWindow(wins, cur.gpa);
        if w < 0 {
          StopsUnbacked(pool, wins, gva + total, need, cur.gpa);
          break;
        }
        var end := wins[w].base + wins[w].bytes.Length;
        var chunk := Clamp(cur.chunk, cur.gpa, end, limit, total);
        RunShorter(pool, gva + total, need, cur.gpa, cur.chunk, chunk);
        RunJoins(pool, gva, need, first.gpa, total, chunk);
        WindowBacks(wins, w, cur.gpa, chunk);
        BackedJoins(wins, first.gpa, total, chunk);
        total := total + chunk;
        if total == limit {
          break;
        }
        if chunk < cur.chunk {
          StopsAtEnd(pool, wins, gva + total, need, first.gpa + total, w);
          break;
        }
        if gva + total > 0xFFFF_FFFF_FFFF_FFFF || first.gpa + total > 0xFFFF_FFFF_FFFF_FFFF {
          StopsHigh(pool, wins, gva + total, need, first.gpa + total);
          break;
        }
        var next := TranslatePerm(gva + total, need);
        if next.None? {
          StopsRefused(pool, wins, gva + total, need, first.gpa + total);
          break;
        }
        RunStarts(pool, gva + total, need, next.value.gpa, next.value.chunk);
        if next.value.gpa != first.gpa + total {
          StopsElsewhere(pool, wins, gva + total, need, first.gpa + total);
          break;
        }
        cur := next.value;
      }
    }

    /** gva_resolve_perm. */
    method Resolve(gva: nat, need: Perms, limit: nat) returns (r: Option<Ptr>)
      requires Valid()
      modifies this`line
      ensures Valid()
      ensures r.None? ==> ByteAt(pool, wins, gva, need) == None
      ensures r.Some? ==>
        && r.value.w < |wins| && r.value.off < wins[r.value.w].bytes.Length
        && r.value.off + r.value.avail <= wins[r.value.w].bytes.Length
        && r.value.avail <= limit && (limit > 0 ==> r.value.avail >= 1)
        && Run(pool, gva, need, wins[r.value.w].base + r.value.off, r.value.avail)
      ensures r.Some? ==> Longest(pool, wins, gva, need, limit, r.value)
    {
      hide P, K, Denotes, Run, Trans, Backed, Apart, FullPages, AllBacked, Stops;
      var first := TranslatePerm(gva, need);
      if first.None? {
        return None;
      }
      var gpa := first.value.gpa;
      RunStarts(pool, gva, need, gpa, first.value.chunk);
      var bytes := ContiguousAvail(gva, need, first.value, limit);
      var w := FindWindow(wins, gpa);
      if w < 0 {
        return None;
      }
      WindowBacks(wins, w, gpa, 1);
      BackedAt(wins, gpa);
      var cap := wins[w].base + wins[w].bytes.Length - gpa;
      var avail := if bytes < cap then bytes else cap;
      RunShorter(pool, gva, need, gpa, bytes, avail);
      if bytes < cap && bytes < limit {
        StopsInside(pool, wins, gva, need, gpa, bytes, w);
      }
      return Some(Ptr(w, gpa - wins[w].base, avail));
    }

    // ----- Reading -----

    ghost function Buffers(): set<object> {
      set w | w in wins :: w.bytes
    }

    /** Byte `k` from `gva` on, as the guest would read it. */
    ghost function ByteOf(gva: nat, k: nat): byte
      reads Buffers()
    {
      match ByteAt(pool, wins, gva + k, READ)
      case Some(x) => Peek(wins, x)
      case None => 0
    }

    lemma SeeAll()
      requires Apart(wins)
      ensures forall w: nat, x: nat :: w < |wins| && wins[w].Has(x) ==> Peek(wins, x) == wins[w].bytes[x - wins[w].base]
    {
      forall w: nat, x: nat | w < |wins| && wins[w].Has(x) ensures Peek(wins, x) == wins[w].bytes[x - wins[w].base] {
        PeekIs(wins, w, x);
      }
    }

    ghost predicate Private(dst: array<byte>) {
      forall w :: w in wins ==> w.bytes != dst
    }

    /** The loop of guest_copy, reading: the longest readable prefix. */
    method ReadLoop(gva: nat, dst: array<byte>, len: nat) returns (n: nat)
      requires Valid() && len <= dst.Length && Private(dst)
      modifies this`line, dst
      ensures Valid() && n <= len && AllBytes(pool, wins, gva, n, READ)
      ensures n < len ==> ByteAt(pool, wins, gva + n, READ) == None
      ensures forall k :: 0 <= k < n ==> dst[k] == old(ByteOf(gva, k))
      ensures forall k :: n <= k < dst.Length ==> dst[k] == old(dst[k])
    {
      hide Run, Peek, Apart, FullPages, Denotes, ByteAt, Longest;
      SeeAll();
      n := 0;
      while n < len
        invariant Valid() && n <= len && AllBytes(pool, wins, gva, n, READ)
        invariant forall k :: 0 <= k < n ==> dst[k] == old(ByteOf(gva, k))
        invariant forall k :: n <= k < dst.Length ==> dst[k] == old(dst[k])
      {
        var p := Resolve(gva + n, READ, len - n);
        if p.None? {
          return;
        }
        var w, off, chunk := p.value.w, p.value.off, p.value.avail;
        PtrBytes(pool, wins, gva + n, READ, w, off, chunk);
        assert wins[w] in wins;
        var data := wins[w].bytes[off..off + chunk];
        CopyIn(dst, n, data);
        forall k | n <= k < n + chunk
          ensures dst[k] == old(ByteOf(gva, k))
        {
          var x := wins[w].base + off + (k - n);
          assert ByteAt(pool, wins, gva + k, READ) == Some(x) && wins[w].Has(x);
          assert dst[k] == data[k - n] == old(wins[w].bytes[off + (k - n)]) == old(Peek(wins, x));
        }
        n := n + chunk;
      }
    }

    /** guest_read: all of the span or an error, and the error exactly when some byte of
        it may not be read. */
    method Read(gva: nat, dst: array<byte>, len: nat) returns (ok: bool)
      requires Valid() && len <= dst.Length && Private(dst)
      modifies this`line, dst
      ensures Valid() && (ok <==> AllBytes(pool, wins, gva, len, READ))
      ensures ok ==> forall k :: 0 <= k < len ==> dst[k] == old(ByteOf(gva, k))
      ensures forall k :: len <= k < dst.Length ==> dst[k] == old(dst[k])
    {
      hide Run, Peek, Apart, Denotes, Trans;
      if len == 0 {
        return true;
      }
      if gva + len > 0xFFFF_FFFF_FFFF_FFFF {
        HighFails(pool, gva + len - 1, READ);
        assert ByteAt(pool, wins, gva + len - 1, READ) == None;
        return false;
      }
      var n := ReadLoop(gva, dst, len);
      return n == len;
    }

    /** guest_read_small: the same, by one copy when the span lies together. */
    method ReadSmall(gva: nat, dst: array<byte>, len: nat) returns (ok: bool)
      requires Valid() && len <= dst.Length && Private(dst)
      modifies this`line, dst
      ensures Valid() && (ok <==> AllBytes(pool, wins, gva, len, READ))
      ensures ok ==> forall k :: 0 <= k < len ==> dst[k] == old(ByteOf(gva, k))
      ensures forall k :: len <= k < dst.Length ==> dst[k] == old(dst[k])
    {
      hide Run, Peek, Apart, FullPages, Denotes, ByteAt, Longest;
      SeeAll();
      var p := Resolve(gva, READ, len);
      if p.Some? && p.value.avail >= len {
        var w, off := p.value.w, p.value.off;
        PtrBytes(pool, wins, gva, READ, w, off, p.value.avail);
        assert wins[w] in wins;
        CopyIn(dst, 0, wins[w].bytes[off..off + len]);
        forall k | 0 <= k < len ensures dst[k] == old(ByteOf(gva, k)) {
          var x := wins[w].base + off + k;
          assert ByteAt(pool, wins, gva + k, READ) == Some(x) && wins[w].Has(x);
        }
        return true;
      }
      ok := Read(gva, dst, len);
    }

    // ----- Writing -----

    /** Which of the first `n` bytes written from `gva` on is the last to land on byte `i`
        of window `w`, or -1. */
    ghost function LastAt(gva: nat, n: nat, w: nat, i: nat): (k: int)
      requires w < |wins|
      ensures -1 <= k < n
    {
      LastTo(pool, wins, gva, n, WRITE, wins[w].base + i)
    }

    /** guest_write_partial, and the loop of guest_copy when writing: the longest
        writable prefix `n` is written, and nothing else. */
    method WritePartial(gva: nat, src: seq<byte>) returns (n: nat)
      requires Valid()
      modifies this`line, Buffers()
      ensures Valid() && n <= |src| && AllBytes(pool, wins, gva, n, WRITE)
      ensures n < |src| ==> ByteAt(pool, wins, gva + n, WRITE) == None
      ensures forall w, i :: 0 <= w < |wins| && 0 <= i < wins[w].bytes.Length ==>
        var k := LastAt(gva, n, w, i);
        wins[w].bytes[i] == if k >= 0 then src[k] else old(wins[w].bytes[i])
    {
      hide Run, FullPages, Denotes, ByteAt, LastTo, Longest;
      n := 0;
      LastToNone(pool, wins, gva, WRITE);
      while n < |src|
        invariant Valid() && n <= |src| && AllBytes(pool, wins, gva, n, WRITE)
        invariant forall w, i :: 0 <= w < |wins| && 0 <= i < wins[w].bytes.Length ==>
          var k := LastAt(gva, n, w, i);
          wins[w].bytes[i] == if k >= 0 then src[k] else old(wins[w].bytes[i])
      {
        var p := Resolve(gva + n, WRITE, |src| - n);
        if p.None? {
          return;
        }
        var w, off, chunk := p.value.w, p.value.off, p.value.avail;
        PtrBytes(pool, wins, gva + n, WRITE, w, off, chunk);
        assert wins[w] in wins;
        CopyIn(wins[w].bytes, off, src[n..n + chunk]);
        ghost var n' := n + chunk;
        forall v, i | 0 <= v < |wins| && 0 <= i < wins[v].bytes.Length
          ensures LastAt(gva, n', v, i) ==
            if v == w && off <= i < off + chunk then n + (i - off) else LastAt(gva, n, v, i)
        {
          LastToChunk(pool, wins, gva, n, chunk, WRITE, wins[w].base + off, wins[v].base + i);
        }
        n := n + chunk;
      }
    }

    /** guest_write: an error exactly when some byte of the span may not be written; `n`
        bytes were written even so. */
    method Write(gva: nat, src: seq<byte>) returns (ok: bool, ghost n: nat)
      requires Valid()
      modifies this`line, Buffers()
      ensures Valid() && (ok <==> AllBytes(pool, wins, gva, |src|, WRITE)) && n <= |src| && (ok ==> n == |src|)
      ensures forall w, i :: 0 <= w < |wins| && 0 <= i < wins[w].bytes.Length ==>
        var k := LastAt(gva, n, w, i);
        wins[w].bytes[i] == if k >= 0 then src[k] else old(wins[w].bytes[i])
    {
      hide Apart, Denotes, Trans, LastTo;
      n := 0;
      LastToNone(pool, wins, gva, WRITE);
      if |src| == 0 {
        return true, 0;
      }
      if gva + |src| > 0xFFFF_FFFF_FFFF_FFFF {
        HighFails(pool, gva + |src| - 1, WRITE);
        assert ByteAt(pool, wins, gva + |src| - 1, WRITE) == None;
        return false, 0;
      }
      var done := WritePartial(gva, src);
      return done == |src|, done;
    }

    /** guest_write_small. */
    method WriteSmall(gva: nat, src: seq<byte>) returns (ok: bool, ghost n: nat)
      requires Valid()
      modifies this`line, Buffers()
      ensures Valid() && (ok <==> AllBytes(pool, wins, gva, |src|, WRITE)) && n <= |src| && (ok ==> n == |src|)
      ensures forall w, i :: 0 <= w < |wins| && 0 <= i < wins[w].bytes.Length ==>
        var k := LastAt(gva, n, w, i);
        wins[w].bytes[i] == if k >= 0 then src[k] else old(wins[w].bytes[i])
    {
      hide Run, FullPages, Denotes, ByteAt, LastTo, Longest;
      var p := Resolve(gva, WRITE, |src|);
      if p.Some? && p.value.avail >= |src| {
        var w, off := p.value.w, p.value.off;
        PtrBytes(pool, wins, gva, WRITE, w, off, p.value.avail);
        assert wins[w] in wins;
        CopyIn(wins[w].bytes, off, src);
        n := |src|;
        LastToNone(pool, wins, gva, WRITE);
        forall v, i | 0 <= v < |wins| && 0 <= i < wins[v].bytes.Length
          ensures LastAt(gva, n, v, i) == if v == w && off <= i < off + n then i - off else -1
        {
          LastToChunk(pool, wins, gva, 0, n, WRITE, wins[w].base + off, wins[v].base + i);
        }
        return true, n;
      }
      ok, n := Write(gva, src);
    }

    // ----- Strings -----

    /** The first `n` bytes from `gva` on are readable and none of them ends a string. */
    ghost predicate Plain(gva: nat, n: nat)
      reads Buffers()
    {
      AllBytes(pool, wins, gva, n, READ) && forall k :: 0 <= k < n ==> ByteOf(gva, k) != 0
    }

    /** Copy `n` bytes that lie in one window. */
    method TakeChunk(gva: nat, dst: array<byte>, at: nat, w: nat, off: nat, n: nat)
      requires Apart(wins) && Private(dst) && at + n <= dst.Length && w < |wins| && off + n <= wins[w].bytes.Length
      requires ByteRun(pool, wins, gva + at, READ, wins[w].base + off, n)
      modifies dst
      ensures AllBytes(pool, wins, gva + at, n, READ)
      ensures forall k :: at <= k < at + n ==> dst[k] == old(ByteOf(gva, k)) == old(wins[w].bytes[off + (k - at)])
      ensures forall k :: 0 <= k < dst.Length && !(at <= k < at + n) ==> dst[k] == old(dst[k])
    {
      hide Peek, Apart, ByteAt;
      SeeAll();
      assert wins[w] in wins;
      forall k: nat | at <= k < at + n ensures ByteOf(gva, k) == wins[w].bytes[off + (k - at)] {
        var x := wins[w].base + off + (k - at);
        assert ByteAt(pool, wins, gva + k, READ) == Some(x) && wins[w].Has(x);
      }
      CopyIn(dst, at, wins[w].bytes[off..off + n]);
    }

    /** guest_read_str.  `c` is how far the string was followed: to its terminator, to
        the last byte the buffer has room for, or to a byte that cannot be read. */
    method ReadStr(gva: nat, dst: array<byte>, max: nat) returns (r: int, ghost c: nat)
      requires Valid() && max <= dst.Length && Private(dst)
      modifies this`line, dst
      ensures Valid() && (max == 0 ==> r == -1 && dst[..] == old(dst[..]))
      ensures max > 0 ==> c <= max - 1 && old(Plain(gva, c)) && forall k :: 0 <= k < c ==> dst[k] == old(ByteOf(gva, k))
      ensures max > 0 ==> dst[c] == 0 && forall k :: c < k < dst.Length ==> dst[k] == old(dst[k])
      ensures r >= 0 <==> max > 0 && c < max - 1 && ByteAt(pool, wins, gva + c, READ).Some? && old(ByteOf(gva, c)) == 0
      ensures r == if r >= 0 then c else -1
      ensures r < 0 && max > 0 && c < max - 1 ==> ByteAt(pool, wins, gva + c, READ) == None
    {
      hide Run, Peek, Apart, Denotes, ByteAt, Longest;
      c := 0;
      if max == 0 {
        return -1, c;
      }
      SeeAll();
      var copied, limit: nat := 0, max - 1;
      while copied < limit
        invariant Valid() && copied <= limit && AllBytes(pool, wins, gva, copied, READ)
        invariant forall k :: 0 <= k < copied ==> dst[k] == old(ByteOf(gva, k)) != 0
        invariant forall k :: copied <= k < dst.Length ==> dst[k] == old(dst[k])
      {
        if gva + copied > 0xFFFF_FFFF_FFFF_FFFF {
          HighByte(pool, wins, gva + copied, READ);
          break;
        }
        var p := Resolve(gva + copied, READ, limit - copied);
        if p.None? {
          break;
        }
        var w, off, chunk := p.value.w, p.value.off, p.value.avail;
        PtrBytes(pool, wins, gva + copied, READ, w, off, chunk);
        var nul := FindNul(wins[w].bytes, off, chunk);
        TakeChunk(gva, dst, copied, w, off, if nul >= 0 then nul + 1 else chunk);
        if nul >= 0 {
          c := copied + nul;
          return copied + nul, c;
        }
        copied := copied + chunk;
      }
      dst[copied] := 0;
      return -1, copied;
    }

    /** guest_read_str_small: the same answers, by one copy when the buffer's worth of
        bytes lies together and ends a string. */
    method ReadStrSmall(gva: nat, dst: array<byte>, max: nat) returns (r: int, ghost c: nat)
      requires Valid() && max <= dst.Length && Private(dst)
      modifies this`line, dst
      ensures Valid() && (max == 0 ==> r == -1 && dst[..] == old(dst[..]))
      ensures max > 0 ==> c <= max - 1 && old(Plain(gva, c)) && forall k :: 0 <= k < c ==> dst[k] == old(ByteOf(gva, k))
      ensures max > 0 ==> dst[c] == 0 && forall k :: c < k < dst.Length ==> dst[k] == old(dst[k])
      ensures r >= 0 <==> max > 0 && c < max - 1 && ByteAt(pool, wins, gva + c, READ).Some? && old(ByteOf(gva, c)) == 0
      ensures r == if r >= 0 then c else -1
      ensures r < 0 && max > 0 && c < max - 1 ==> ByteAt(pool, wins, gva + c, READ) == None
    {
      hide Run, Peek, Apart, FullPages, Denotes, ByteAt, Longest;
      c := 0;
      if max == 0 {
        return -1, c;
      }
      SeeAll();
      var limit := max - 1;
      var p := Resolve(gva, READ, limit);
      if p.Some? && p.value.avail >= limit {
        var w, off := p.value.w, p.value.off;
        PtrBytes(pool, wins, gva, READ, w, off, limit);
        assert wins[w] in wins;
        var nul := FindNul(wins[w].bytes, off, limit);
        if nul >= 0 {
          TakeChunk(gva, dst, 0, w, off, nul + 1);
          return nul, nul;
        }
      }
      assert forall k: nat :: ByteOf(gva, k) == old(ByteOf(gva, k));
      r, c := ReadStr(gva, dst, max);
    }
  }

  lemma HighByte(m: Pool, wins: seq<Window>, gva: nat, need: Perms)
    requires FullPages(m) && gva >= 0x1_0000_0000_0000
    ensures ByteAt(m, wins, gva, need) == None
  {
    hide Trans;
    HighFails(m, gva, need);
  }

  /** memchr for a terminator. */
  method FindNul(a: array<byte>, from: nat, n: nat) returns (k: int)
    requires from + n <= a.Length
    ensures -1 <= k < n
    ensures forall y :: from <= y < from + (if k < 0 then n else k) ==> a[y] != 0
    ensures k >= 0 ==> a[from + k] == 0
  {
    for i := 0 to n
      invariant forall y :: from <= y < from + i ==> a[y] != 0
    {
      if a[from + i] == 0 {
        return i;
      }
    }
    return -1;
  }

  lemma LastToNone(m: Pool, wins: seq<Window>, gva: nat, need: Perms)
    ensures forall x: nat :: LastTo(m, wins, gva, 0, need, x) == -1
  {
  }

  lemma RunEmpty(m: Pool, gva: nat, need: Perms, gpa: nat, wins: seq<Window>)
    ensures Run(m, gva, need, gpa, 0) && AllBacked(wins, gpa, 0)
  {
  }

  lemma RunStarts(m: Pool, gva: nat, need: Perms, gpa: nat, n: nat)
    requires Run(m, gva, need, gpa, n) && n >= 1
    ensures Trans(m, gva, need) == Some(gpa)
  {
    hide Trans;
  }

  lemma RunShorter(m: Pool, gva: nat, need: Perms, gpa: nat, n: nat, k: nat)
    requires Run(m, gva, need, gpa, n) && k <= n
    ensures Run(m, gva, need, gpa, k)
  {
    hide Trans;
  }

  lemma BackedJoins(wins: seq<Window>, gpa: nat, n: nat, k: nat)
    requires AllBacked(wins, gpa, n) && AllBacked(wins, gpa + n, k)
    ensures AllBacked(wins, gpa, n + k)
  {
    hide Backed;
  }

  lemma BackedAt(wins: seq<Window>, gpa: nat)
    requires AllBacked(wins, gpa, 1)
    ensures Backed(wins, gpa)
  {
  }

  lemma BlockLine(m: Pool, b: nat, tag: nat)
    requires K(m, b).Whole? && !K(m, b).perms.el1
    ensures Denotes(m, Line(tag, b, 0, 512, K(m, b).frame, K(m, b).perms))
  {
    hide Blk;
  }

  lemma PageLine(m: Pool, b: nat, j: nat, tag: nat)
    requires j < 512 && P(m, b, j).Some? && !P(m, b, j).value.perms.el1
    ensures Denotes(m, Line(tag, b, j, 1, P(m, b, j).value.frame, P(m, b, j).value.perms))
  {
    hide P;
  }

  // ----- A hit on a byte that is not there -----

  function Table(i: nat, d: Desc): seq<Desc> {
    seq(512, k => if k == i then d else ZERO)
  }

  /** Tables that map the second 2 MiB block to itself, and nothing else. */
  function OneBlock(): Pool {
    Pool(0, 0, 3, [Table(0, MakeTable(1)), Table(0, MakeTable(2)), Table(1, MakeBlock(512, WRITE))])
  }

  lemma OneBlockMaps()
    ensures FullPages(OneBlock()) && K(OneBlock(), 1) == Whole(512, Norm(WRITE))
  {
    var m := OneBlock();
    assert Blk(1) == Block(0, 0, 1);
    assert Entry(m, 0, 0) == MakeTable(1) && Entry(m, 1, 0) == MakeTable(2) && Entry(m, 2, 1) == MakeBlock(512, WRITE);
    assert L1At(m, 0) == Some(1);
    assert L2At(m, 0, 0) == Some(2);
  }

  lemma OneBlockSends()
    ensures Trans(OneBlock(), 0x20_0000, READ) == Some(0x20_0000)
    ensures Trans(OneBlock(), 0x30_0000, READ) == Some(0x30_0000)
  {
    hide K, P;
    OneBlockMaps();
    WholePages(OneBlock(), 1, 0);
    WholePages(OneBlock(), 1, 256);
  }

  lemma HalfBacked(wins: seq<Window>)
    requires |wins| == 2 && wins[0].base == 0 && wins[0].bytes.Length == 0x20_0000
    requires wins[1].base == 0x20_0000 && wins[1].bytes.Length == 0x10_0000
    ensures ByteAt(OneBlock(), wins, 0x20_0000, READ) != None && ByteAt(OneBlock(), wins, 0x30_0000, READ) == None
  {
    hide Trans;
    OneBlockSends();
    assert wins[1].Has(0x20_0000);
  }

  /** A 2 MiB block of which only the first half is backed by a mapping: once its first
      byte has been looked up, the cache answers for a byte of the other half, which may
      not be accessed. */
  method UnbackedHit() returns (mem: GuestMemory, r: Option<Found>)
    ensures mem.Valid() && r.Some? && ByteAt(mem.pool, mem.wins, 0x30_0000, READ) == None
  {
    hide K, P, ByteAt, OneBlock, FullPages, Denotes, Run;
    var slab, extra := new byte[0x20_0000], new byte[0x10_0000];
    var wins := [Window(0, slab), Window(0x20_0000, extra)];
    OneBlockMaps();
    HalfBacked(wins);
    mem := new GuestMemory(OneBlock(), 0, wins);
    r := mem.TranslatePerm(0x20_0000, READ);
    r := mem.TranslatePerm(0x30_0000, READ);
  }
}
