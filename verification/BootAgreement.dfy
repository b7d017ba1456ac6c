/** Booting an ELF image: the page tables and the region tracker, built from the same
segments by different code, agree on every page, the pages two segments share
included. */
module BootAgreement {
  import opened Descriptors
  import opened PageTables
  import opened GuestTables
  import opened ElfImage
  import ElfMapper
  import opened BootTables
  import opened RegionTracker
  import Regions
  import RegionInvariant

  /** elf_pf_to_prot: PF_X is bit 0, PF_W bit 1; always readable. */
  function ProtOf(flags: nat): Perms {
    Perms(true, flags / 2 % 2 == 1, flags % 2 == 1, false)
  }

  function BootRegion(s: Segment, base: nat): MemRegion {
    MemRegion(s.gpa + base, s.gpa + base + s.memsz, ProtOf(s.flags))
  }

  function BootRegions(ss: seq<Segment>, base: nat): seq<MemRegion> {
    seq(|ss|, i requires 0 <= i < |ss| => BootRegion(ss[i], base))
  }

  /** append_boot_region. */
  method AppendBootRegion(regions: array<MemRegion>, n: nat, r: MemRegion) returns (ok: bool, n': nat)
    requires n <= regions.Length == 40
    modifies regions
    ensures ok <==> n < 40
    ensures ok ==> n' == n + 1 && regions[..n'] == old(regions[..n]) + [r]
    ensures !ok ==> n' == n && regions[..] == old(regions[..])
  {
    if n >= 40 {
      return false, n;
    }
    regions[n] := r;
    return true, n + 1;
  }

  /** append_elf_segment_regions. */
  method AppendSegments(regions: array<MemRegion>, n: nat, ss: seq<Segment>, base: nat) returns (ok: bool, n': nat)
    requires n <= regions.Length == 40
    modifies regions
    ensures n' <= 40 && (ok <==> n + |ss| <= 40)
    ensures ok ==> n' == n + |ss| && regions[..n'] == old(regions[..n]) + BootRegions(ss, base)
  {
    n' := n;
    ghost var was := regions[..n];
    for i := 0 to |ss|
      invariant n' == n + i <= 40 && regions[..n'] == was + BootRegions(ss, base)[..i]
    {
      ok, n' := AppendBootRegion(regions, n', BootRegion(ss[i], base));
      if !ok {
        return;
      }
      assert BootRegions(ss, base)[..i + 1] == BootRegions(ss, base)[..i] + [BootRegion(ss[i], base)];
    }
    assert BootRegions(ss, base)[..|ss|] == BootRegions(ss, base);
    ok := true;
  }

  // ----- Who owns a page -----

  /** The last listed segment on page `v`, or -1. */
  function Owner(ss: seq<Segment>, base: nat, v: nat): (k: int)
    ensures -1 <= k < |ss|
  {
    if ss == [] then -1
    else if OnPage(BootRegion(ss[|ss| - 1], base), v) then |ss| - 1
    else Owner(ss[..|ss| - 1], base, v)
  }

  lemma {:induction false} OwnerIs(ss: seq<Segment>, base: nat, v: nat)
    ensures var k := Owner(ss, base, v);
      && (k >= 0 ==> OnPage(BootRegion(ss[k], base), v))
      && forall i :: k < i < |ss| ==> !OnPage(BootRegion(ss[i], base), v)
  {
    if ss != [] && !OnPage(BootRegion(ss[|ss| - 1], base), v) {
      OwnerIs(ss[..|ss| - 1], base, v);
    }
  }

  /** Rounding a nonempty range out to pages takes in exactly the pages it touches. */
  lemma RoundedPages(start: nat, end: nat, x: nat)
    requires start < end
    ensures start / 4096 * 4096 <= x < (end + 4095) / 4096 * 4096
        <==> start < 4096 * (x / 4096) + 4096 && 4096 * (x / 4096) < end
    ensures start / 4096 * 4096 < (end + 4095) / 4096 * 4096
  {
  }

  /** What the tracker is to say of address `x` once `ss` are registered over `was`. */
  ghost predicate RecordedAt(ss: seq<Segment>, base: nat, was: Option<Regions.Attr>, now: Option<Regions.Attr>,
                             x: nat) {
    var k := Owner(ss, base, x / 4096);
    if k < 0 then now == was
    else now.Some? && now.value.prot == ProtOf(ss[k].flags) && now.value.gpa == x
  }

  ghost predicate Recorded(ss: seq<Segment>, base: nat, was: nat -> Option<Regions.Attr>,
                           now: nat -> Option<Regions.Attr>) {
    forall x: nat :: RecordedAt(ss, base, was(x), now(x), x)
  }

  lemma RecordNext(ss: seq<Segment>, i: nat, base: nat, was: nat -> Option<Regions.Attr>,
                   mid: nat -> Option<Regions.Attr>,
                   r: Regions.Region, files: map<int, int>)
    requires i < |ss| && Recorded(ss[..i], base, was, mid) && ss[i].memsz > 0
    requires var start, end := ss[i].gpa + base, ss[i].gpa + base + ss[i].memsz;
      && r.start == start / 4096 * 4096 && r.end == (end + 4095) / 4096 * 4096 && r.gpa == start - start % 4096
      && r.prot == ProtOf(ss[i].flags)
    ensures Recorded(ss[..i + 1], base, was,
                     RegionInvariant.Covered(RegionInvariant.Cleared(mid, r.start, r.end), r, files))
  {
    hide Owner, ProtOf;
    var now := RegionInvariant.Covered(RegionInvariant.Cleared(mid, r.start, r.end), r, files);
    forall x: nat ensures RecordedAt(ss[..i + 1], base, was(x), now(x), x) {
      RoundedPages(ss[i].gpa + base, ss[i].gpa + base + ss[i].memsz, x);
      OwnerNext(ss, i, base, x / 4096);
      assert r.gpa == r.start;
      assert now(x) == if r.Has(x) then Some(Regions.AttrOf(r, files, x)) else mid(x);
      assert RecordedAt(ss[..i], base, was(x), mid(x), x);
    }
  }

  lemma OwnerNext(ss: seq<Segment>, i: nat, base: nat, v: nat)
    requires i < |ss|
    ensures Owner(ss[..i + 1], base, v) == if OnPage(BootRegion(ss[i], base), v) then i else Owner(ss[..i], base, v)
  {
    assert ss[..i + 1][..i] == ss[..i];
  }

  /** register_elf_segment_regions, on the native path where an image's virtual and
      physical bases agree.  `ok` says every segment was tracked; the original does not
      ask. */
  method RegisterSegments(t: Tracker, ss: seq<Segment>, base: nat, path: string) returns (ok: bool)
    requires t.Valid() && forall i :: 0 <= i < |ss| ==> ss[i].memsz > 0
    modifies t, t.regions
    ensures t.Valid() && t.lost == old(t.lost) && (old(t.stale) ==> t.stale)
    ensures ok ==> Recorded(ss, base, old(t.naive), t.naive)
    ensures old(t.n) + 2 * |ss| <= t.regions.Length && old(t.open) == map[] ==> ok && t.stale == old(t.stale)
  {
    hide RegionInvariant.Good, RegionInvariant.Covered, RegionInvariant.Cleared, Recorded;
    ok := true;
    RecordStart(base, t.naive);
    assert ss[..0] == [];
    for i := 0 to |ss|
      invariant t.Valid() && t.lost == old(t.lost) && (old(t.stale) ==> t.stale)
      invariant ok ==> Recorded(ss[..i], base, old(t.naive), t.naive)
      invariant old(t.n) + 2 * |ss| <= t.regions.Length && old(t.open) == map[] ==>
        ok && t.stale == old(t.stale) && t.n <= old(t.n) + 2 * i && t.open == map[]
    {
      var start := ss[i].gpa + base;
      var dup: int := *;
      if dup in t.open {
        dup := -1;
      }
      var added;
      ghost var r;
      ghost var mid := t.naive;
      added, r := t.AddElfSegment(start, start + ss[i].memsz, start, ProtOf(ss[i].flags), ss[i].offset, path, dup);
      if added && ok {
        RecordNext(ss, i, base, old(t.naive), mid, r, t.open);
      }
      ok := ok && added;
    }
    assert ss[..|ss|] == ss;
  }

  lemma RecordStart(base: nat, naive: nat -> Option<Regions.Attr>)
    ensures Recorded([], base, naive, naive)
  {
  }

  // ----- Agreement -----

  /** The regions on page `v` are those of segments. */
  ghost predicate OnlySegments(rs: seq<MemRegion>, ss: seq<Segment>, base: nat, v: nat) {
    && (forall i :: 0 <= i < |ss| ==> BootRegion(ss[i], base) in rs)
    && (forall q :: 0 <= q < |rs| && OnPage(rs[q], v) ==> exists i :: 0 <= i < |ss| && rs[q] == BootRegion(ss[i], base))
  }

  /** A shared page goes to the segment listed last, for the tracker; to the one that
      starts last, for the tables.  Sorted, these are the same. */
  lemma OwnerIsLast(rs: seq<MemRegion>, ss: seq<Segment>, base: nat, v: nat) returns (q: nat)
    requires Ascending(ss) && OnlySegments(rs, ss, base, v) && Owner(ss, base, v) >= 0
    ensures Last(rs, q, v) && rs[q] == BootRegion(ss[Owner(ss, base, v)], base)
  {
    hide OnPage, ProtOf, Owner;
    OwnerIs(ss, base, v);
    var k := Owner(ss, base, v);
    assert BootRegion(ss[k], base) in rs;
    q :| 0 <= q < |rs| && rs[q] == BootRegion(ss[k], base);
    forall p | 0 <= p < |rs| && OnPage(rs[p], v) ensures rs[p].start <= rs[q].start {
      var i :| 0 <= i < |ss| && rs[p] == BootRegion(ss[i], base);
      assert i <= k;
    }
  }

  lemma BuiltAs(m: Pool, rs: seq<MemRegion>, b: nat, j: nat, q: nat)
    requires PageBuilt(m, rs, b, j) && Last(rs, q, 512 * b + j) && rs[q].perms.r && !rs[q].perms.el1
    ensures P(m, b, j) == Some(Leaf(512 * b + j, rs[q].perms))
  {
    hide P, Uniform, Untouched, OnPage;
  }

  lemma BuiltNot(m: Pool, rs: seq<MemRegion>, b: nat, j: nat)
    requires PageBuilt(m, rs, b, j) && Untouched(rs, 512 * b + j)
    ensures P(m, b, j) == None
  {
    hide P, Uniform, OnPage, Last;
  }

  /** The tables give each page of the image the permission of its owner. */
  lemma TablesFollowOwner(m: Pool, rs: seq<MemRegion>, ss: seq<Segment>, base: nat, b: nat, j: nat)
    requires Ascending(ss) && OnlySegments(rs, ss, base, 512 * b + j) && PageBuilt(m, rs, b, j)
    ensures var k := Owner(ss, base, 512 * b + j);
      P(m, b, j) == if k < 0 then None else Some(Leaf(512 * b + j, ProtOf(ss[k].flags)))
  {
    hide OnPage, Owner, P, PageBuilt, Ascending;
    var v := 512 * b + j;
    OwnerIs(ss, base, v);
    if Owner(ss, base, v) < 0 {
      BuiltNot(m, rs, b, j);
    } else {
      var q := OwnerIsLast(rs, ss, base, v);
      BuiltAs(m, rs, b, j, q);
    }
  }

  /** Page table and tracker about one byte: mapped and tracked together, with the
      same permissions and the same backing address. */
  ghost predicate SameView(page: Option<Leaf>, attr: Option<Regions.Attr>, x: nat) {
    match page
    case None => attr == None
    case Some(leaf) => attr.Some? && attr.value.prot == leaf.perms && attr.value.gpa == x && leaf.frame == x / 4096
  }

  lemma ViewsAgree(m: Pool, rs: seq<MemRegion>, ss: seq<Segment>, base: nat, table: seq<Regions.Region>,
                   was: nat -> Option<Regions.Attr>, now: nat -> Option<Regions.Attr>, b: nat, j: nat, x: nat)
    requires j < 512 && x / 4096 == 512 * b + j && was(x) == None
    requires Ascending(ss) && OnlySegments(rs, ss, base, 512 * b + j) && PageBuilt(m, rs, b, j)
    requires Recorded(ss, base, was, now) && RegionInvariant.SaysNaiveButFiles(table, now)
    ensures SameView(P(m, b, j), Regions.At(table, map[], x), x)
  {
    hide Owner, P, ProtOf, PageBuilt, OnlySegments, Regions.At;
    TablesFollowOwner(m, rs, ss, base, b, j);
    assert RecordedAt(ss, base, was(x), now(x), x);
    assert Regions.At(table, map[], x) == RegionInvariant.NoFile(now(x));
  }

  lemma SegmentsOnly(ss: seq<Segment>, base: nat, v: nat)
    ensures OnlySegments(BootRegions(ss, base), ss, base, v)
  {
    var rs := BootRegions(ss, base);
    forall i | 0 <= i < |ss| ensures BootRegion(ss[i], base) in rs {
      assert rs[i] == BootRegion(ss[i], base);
    }
  }

  /** Segments that do not run together give regions that do not clash. */
  lemma SegmentsAgree(ss: seq<Segment>, base: nat)
    requires InLine(ss) && forall i :: 0 <= i < |ss| ==> ss[i].memsz > 0
    ensures Agree(BootRegions(ss, base)) && Nonempty(BootRegions(ss, base)) && Ascending(ss)
  {
    hide ProtOf;
    var rs := BootRegions(ss, base);
    forall i, k | 0 <= i < k < |ss| ensures ss[i].gpa + ss[i].memsz <= ss[k].gpa {
      InLineApart(ss, i, k);
    }
    forall i, k | 0 <= i < |rs| && 0 <= k < |rs| && rs[i].start < rs[k].end && rs[k].start < rs[i].end
      ensures rs[i].perms == rs[k].perms
    {
      assert i == k;
    }
  }

  /** Boot an image into empty tables and an empty tracker. */
  method BootImage(g: Guest, regs: seq<Regions.Region>, t: Tracker, ss: seq<Segment>, base: nat, path: string)
    returns (ok: bool)
    requires forall p :: 0 <= p < |g.pool.pages| ==> |g.pool.pages[p]| == 512
    requires g.pool.next <= |g.pool.pages| && g.pool.base + |g.pool.pages| <= 0x10_0000_0000
    requires (g.cap == 16 || g.cap == 64) && GuestTables.Tlbi.Sound(g.tlbi, g.cap)
    requires Regions.Sorted(regs) && Identity(regs)
    requires t.Valid() && t.n == 0 && t.open == map[] && !t.stale && t.regions.Length == 4096
    requires forall x: nat :: t.naive(x) == None
    requires InLine(ss) && |ss| <= 16
    requires forall i :: 0 <= i < |ss| ==> ss[i].memsz > 0 && base + ss[i].gpa + ss[i].memsz <= 0x1_0000_0000_0000
    modifies g, t, t.regions
    ensures ok ==> g.Valid() && t.Valid() && !t.stale
    ensures !ok ==> Excused(g.pool, BootRegions(ss, base))
    ensures ok ==>
      forall b: nat, j: nat, x: nat :: j < 512 && x / 4096 == 512 * b + j ==>
        SameView(P(g.pool, b, j), Regions.At(t.Contents(), map[], x), x)
  {
    hide P, PageBuilt, Recorded, OnlySegments, Agree, Nonempty, InLine, Ascending, RegionInvariant.Good, Regions.At,
         SameView, Identity, Tree, LegalLog, Replay, RegionInvariant.SaysNaiveButFiles, Excused;
    var regions := new MemRegion[40](_ => MemRegion(0, 0, NO_PERMS));
    var n;
    ok, n := AppendSegments(regions, 0, ss, base);
    var rs := regions[..n];
    assert rs == BootRegions(ss, base);
    SegmentsAgree(ss, base);
    ok := BuildPageTables(g, regs, rs);
    if !ok {
      return;
    }
    ghost var was := t.naive;
    ok := RegisterSegments(t, ss, base, path);
    Trusted(t.Now(), t.regions.Length);
    forall b: nat, j: nat, x: nat | j < 512 && x / 4096 == 512 * b + j
      ensures SameView(P(g.pool, b, j), Regions.At(t.Contents(), map[], x), x)
    {
      SegmentsOnly(ss, base, 512 * b + j);
      ViewsAgree(g.pool, rs, ss, base, t.Contents(), was, t.naive, b, j, x);
    }
  }

  /** Where an image loaded at `base` goes in a slab of `size` bytes. */
  function At(base: nat, size: nat, infraLo: nat, infraHi: nat): ElfMapper.Target {
    ElfMapper.Target(0, base, size, infraLo, infraHi)
  }

  /** A file from its program headers to a booted image: what the parse accepts and the
      slab has room for is loaded, and can be booted as it stands. */
  method BootFile(info: ElfInfo, phs: seq<Phdr>, phentsize: nat, phoff: nat, file: seq<byte>, slab: array<byte>,
                  infraLo: nat, infraHi: nat, base: nat, g: Guest, regs: seq<Regions.Region>, t: Tracker, path: string)
    returns (loaded: bool, ok: bool)
    requires info.segments.Length == 16 && Word(phoff) && Word(|file|) && forall ph :: ph in phs ==> ph.WellFormed()
    requires slab.Length <= 0x1_0000_0000_0000 && At(base, slab.Length, infraLo, infraHi).WellFormed()
    requires forall p :: 0 <= p < |g.pool.pages| ==> |g.pool.pages[p]| == 512
    requires g.pool.next <= |g.pool.pages| && g.pool.base + |g.pool.pages| <= 0x10_0000_0000
    requires (g.cap == 16 || g.cap == 64) && GuestTables.Tlbi.Sound(g.tlbi, g.cap)
    requires Regions.Sorted(regs) && Identity(regs)
    requires t.Valid() && t.n == 0 && t.open == map[] && !t.stale && t.regions.Length == 4096
    requires forall x: nat :: t.naive(x) == None
    modifies info, info.segments, slab, g, t, t.regions
    ensures loaded <==>
      && TableFits(|phs|, phentsize, phoff, |file|) && Acceptable(phs, |file|)
      && forall s :: s in InOrder(Loads(phs)) ==> ElfMapper.Fits(s, At(base, slab.Length, infraLo, infraHi))
    ensures if loaded then
        && (forall s :: s in InOrder(Loads(phs)) ==> ElfMapper.Readable(s, file))
        && ElfMapper.Loaded(InOrder(Loads(phs)), At(base, slab.Length, infraLo, infraHi), file, old(slab[..]), slab[..])
      else !ok && slab[..] == old(slab[..])
    ensures loaded && !ok ==> Excused(g.pool, BootRegions(InOrder(Loads(phs)), base))
    ensures ok ==> g.Valid() && t.Valid() && !t.stale
    ensures ok ==>
      forall b: nat, j: nat, x: nat :: j < 512 && x / 4096 == 512 * b + j ==>
        SameView(P(g.pool, b, j), Regions.At(t.Contents(), map[], x), x)
  {
    hide P, InLine, InOrder, Loads, RegionInvariant.Good, Regions.At, SameView, Identity, Excused, ElfMapper.Loaded,
         ElfMapper.Readable, ElfMapper.Fits, Acceptable, TableFits;
    var target := At(base, slab.Length, infraLo, infraHi);
    loaded := ElfMapper.LoadImage(info, phs, phentsize, phoff, file, target, slab);
    if !loaded {
      return loaded, false;
    }
    var ss := info.segments[..info.numSegments];
    AcceptedInLine(phs, |file|);
    FitsLow(ss, target);
    ok := BootImage(g, regs, t, ss, base, path);
  }

  lemma FitsLow(ss: seq<Segment>, t: ElfMapper.Target)
    requires t.vaBase == 0 && t.size <= 0x1_0000_0000_0000 && forall s :: s in ss ==> ElfMapper.Fits(s, t)
    ensures forall i :: 0 <= i < |ss| ==> t.targetBase + ss[i].gpa + ss[i].memsz <= 0x1_0000_0000_0000
  {
    forall i | 0 <= i < |ss| ensures t.targetBase + ss[i].gpa + ss[i].memsz <= 0x1_0000_0000_0000 {
      assert ss[i] in ss;
    }
  }

  lemma Trusted(st: RegionInvariant.State, cap: nat)
    requires RegionInvariant.Good(st, cap, -1) && !st.stale
    ensures RegionInvariant.SaysNaiveButFiles(st.rs, st.naive)
  {
  }
}
