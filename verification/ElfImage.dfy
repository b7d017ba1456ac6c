/** Parsing an ELF image: which PT_LOAD headers are recorded, that the recorded
segments end up sorted and claim no byte twice, and where the program headers are. */
module ElfImage {
  import opened Descriptors

  /** A program header; every field but the flags is a 64-bit word. */
  datatype Phdr = Phdr(ptype: nat, flags: nat, offset: nat, vaddr: nat, filesz: nat, memsz: nat) {
    predicate WellFormed() {
      Word(offset) && Word(vaddr) && Word(filesz) && Word(memsz)
    }
  }

  datatype Segment = Segment(gpa: nat, offset: nat, filesz: nat, memsz: nat, flags: nat) {
    predicate Claims(x: nat) {
      gpa <= x < gpa + memsz
    }
  }

  predicate Word(x: nat) {
    x < 0x1_0000_0000_0000_0000
  }

  /** elf_add_no_wrap. */
  function AddNoWrap(a: nat, b: nat): Option<nat>
    requires Word(a) && Word(b)
  {
    if a > 0xFFFF_FFFF_FFFF_FFFF - b then None else Some(a + b)
  }

  // ----- What a header table asks for -----

  /** A PT_LOAD that maps something. */
  predicate Maps(ph: Phdr) {
    ph.ptype == 1 && ph.memsz != 0
  }

  function SegmentOf(ph: Phdr): Segment {
    Segment(ph.vaddr, ph.offset, ph.filesz, ph.memsz, ph.flags)
  }

  /** Its file data fits its memory and the file, and its extent does not wrap. */
  predicate Loadable(ph: Phdr, fileSize: nat) {
    && ph.filesz <= ph.memsz
    && (ph.filesz != 0 ==> ph.offset + ph.filesz <= fileSize)
    && Word(ph.vaddr + ph.memsz)
  }

  /** The segments a table asks for, in table order. */
  function Loads(phs: seq<Phdr>): seq<Segment> {
    if phs == [] then []
    else
      var ph := phs[|phs| - 1];
      Loads(phs[..|phs| - 1]) + if Maps(ph) then [SegmentOf(ph)] else []
  }

  ghost predicate AllLoadable(phs: seq<Phdr>, fileSize: nat) {
    forall i :: 0 <= i < |phs| && Maps(phs[i]) ==> Loadable(phs[i], fileSize)
  }

  lemma {:induction false} LoadsIs(phs: seq<Phdr>, s: Segment)
    ensures s in Loads(phs) <==> exists i :: 0 <= i < |phs| && Maps(phs[i]) && SegmentOf(phs[i]) == s
  {
    if phs != [] {
      var k := |phs| - 1;
      LoadsIs(phs[..k], s);
      if Maps(phs[k]) && SegmentOf(phs[k]) == s {
        assert s in [SegmentOf(phs[k])];
      }
    }
  }

  /** How many segments claim address `x`. */
  function Claimed(ss: seq<Segment>, x: nat): nat {
    if ss == [] then 0 else (if ss[0].Claims(x) then 1 else 0) + Claimed(ss[1..], x)
  }

  ghost predicate ClaimedOnce(ss: seq<Segment>) {
    forall x: nat :: Claimed(ss, x) <= 1
  }

  // ----- Sorting -----

  ghost predicate Ascending(ss: seq<Segment>) {
    forall i, j :: 0 <= i < j < |ss| ==> ss[i].gpa <= ss[j].gpa
  }

  /** Put `s` among sorted segments, behind everything not above it. */
  function Placed(ss: seq<Segment>, s: Segment): seq<Segment> {
    if ss != [] && ss[|ss| - 1].gpa > s.gpa then Placed(ss[..|ss| - 1], s) + [ss[|ss| - 1]] else ss + [s]
  }

  function InOrder(ss: seq<Segment>): seq<Segment> {
    if ss == [] then [] else Placed(InOrder(ss[..|ss| - 1]), ss[|ss| - 1])
  }

  lemma {:induction false} ClaimedConcat(a: seq<Segment>, b: seq<Segment>, x: nat)
    ensures Claimed(a + b, x) == Claimed(a, x) + Claimed(b, x)
  {
    if a == [] {
      assert a + b == b;
    } else {
      assert (a + b)[1..] == a[1..] + b;
      ClaimedConcat(a[1..], b, x);
    }
  }

  lemma {:induction false} PlacedBag(ss: seq<Segment>, s: Segment)
    ensures multiset(Placed(ss, s)) == multiset(ss) + multiset{s}
  {
    if ss != [] && ss[|ss| - 1].gpa > s.gpa {
      PlacedBag(ss[..|ss| - 1], s);
      assert ss == ss[..|ss| - 1] + [ss[|ss| - 1]];
    }
  }

  lemma {:induction false} PlacedClaims(ss: seq<Segment>, s: Segment, x: nat)
    ensures Claimed(Placed(ss, s), x) == Claimed(ss, x) + Claimed([s], x)
  {
    if ss != [] && ss[|ss| - 1].gpa > s.gpa {
      var body, top := ss[..|ss| - 1], ss[|ss| - 1];
      assert ss == body + [top];
      PlacedClaims(body, s, x);
      ClaimedConcat(Placed(body, s), [top], x);
      ClaimedConcat(body, [top], x);
    } else {
      ClaimedConcat(ss, [s], x);
    }
  }

  lemma {:induction false} PlacedAscends(ss: seq<Segment>, s: Segment)
    requires Ascending(ss)
    ensures Ascending(Placed(ss, s))
  {
    if ss != [] && ss[|ss| - 1].gpa > s.gpa {
      var body, top := ss[..|ss| - 1], ss[|ss| - 1];
      PlacedAscends(body, s);
      PlacedBag(body, s);
      var ps := Placed(body, s);
      forall i | 0 <= i < |ps| ensures ps[i].gpa <= top.gpa {
        assert ps[i] in multiset(ps);
        if ps[i] != s {
          assert ps[i] in multiset(body);
          var k :| 0 <= k < |body| && body[k] == ps[i];
          assert ss[k] == ps[i];
        }
      }
    }
  }

  /** Sorting puts the segments in ascending order and loses and invents nothing. */
  lemma {:induction false} InOrderIs(ss: seq<Segment>)
    ensures Ascending(InOrder(ss)) && multiset(InOrder(ss)) == multiset(ss)
  {
    if ss != [] {
      var body, top := ss[..|ss| - 1], ss[|ss| - 1];
      assert ss == body + [top];
      InOrderIs(body);
      PlacedAscends(InOrder(body), top);
      PlacedBag(InOrder(body), top);
    }
  }

  lemma {:induction false} InOrderClaims(ss: seq<Segment>, x: nat)
    ensures Claimed(InOrder(ss), x) == Claimed(ss, x)
  {
    if ss != [] {
      var body, top := ss[..|ss| - 1], ss[|ss| - 1];
      assert ss == body + [top];
      InOrderClaims(body, x);
      PlacedClaims(InOrder(body), top, x);
      ClaimedConcat(body, [top], x);
    }
  }

  /** The inner loop of the insertion sort: sink slot `i` into the sorted slots below. */
  method SinkSegment(segs: array<Segment>, i: nat)
    requires i < segs.Length
    modifies segs
    ensures segs[..i + 1] == Placed(old(segs[..i]), old(segs[i])) && segs[i + 1..] == old(segs[i + 1..])
  {
    hide Placed;
    ghost var was := segs[..];
    var seg, j := segs[i], i;
    assert was[i..i] == [] && was[..i] == old(segs[..i]);
    while j > 0 && segs[j - 1].gpa > seg.gpa
      invariant 0 <= j <= i
      invariant forall k :: 0 <= k < j ==> segs[k] == was[k]
      invariant forall k :: j < k <= i ==> segs[k] == was[k - 1]
      invariant forall k :: i < k < segs.Length ==> segs[k] == was[k]
      invariant Placed(was[..i], seg) == Placed(was[..j], seg) + was[j..i]
    {
      segs[j] := segs[j - 1];
      j := j - 1;
      PlacedBefore(was, i, j, seg);
    }
    segs[j] := seg;
    PlacedHere(was, j, seg);
    Slotted(segs[..i + 1], was, i, j, seg);
  }

  lemma Slotted(now: seq<Segment>, was: seq<Segment>, i: nat, j: nat, seg: Segment)
    requires j <= i < |was| && |now| == i + 1 && now[j] == seg
    requires (forall k :: 0 <= k < j ==> now[k] == was[k]) && (forall k :: j < k <= i ==> now[k] == was[k - 1])
    ensures now == was[..j] + [seg] + was[j..i]
  {
  }

  lemma PlacedBefore(was: seq<Segment>, i: nat, j: nat, seg: Segment)
    requires j < i <= |was| && was[j].gpa > seg.gpa
    requires Placed(was[..i], seg) == Placed(was[..j + 1], seg) + was[j + 1..i]
    ensures Placed(was[..i], seg) == Placed(was[..j], seg) + was[j..i]
  {
    assert was[..j + 1][..j] == was[..j] && was[..j + 1][j] == was[j];
    assert [was[j]] + was[j + 1..i] == was[j..i];
    assert (Placed(was[..j], seg) + [was[j]]) + was[j + 1..i] == Placed(was[..j], seg) + ([was[j]] + was[j + 1..i]);
  }

  lemma PlacedHere(was: seq<Segment>, j: nat, seg: Segment)
    requires j <= |was| && (j > 0 ==> was[j - 1].gpa <= seg.gpa)
    ensures Placed(was[..j], seg) == was[..j] + [seg]
  {
  }

  /** elf_sort_segments: insertion sort of the first `n` slots, in place. */
  method SortSegments(segs: array<Segment>, n: nat)
    requires n <= segs.Length
    modifies segs
    ensures segs[..n] == InOrder(old(segs[..n])) && segs[n..] == old(segs[n..])
  {
    hide InOrder, Placed;
    ghost var was := segs[..];
    var i: nat := 1;
    InOrderStarts(was);
    while i < n
      invariant 1 <= i && (i <= n || (n == 0 && i == 1))
      invariant i <= segs.Length ==> segs[..i] == InOrder(was[..i]) && segs[i..] == was[i..]
      invariant n == 0 ==> segs[..] == was
    {
      InOrderNext(was, i);
      assert segs[i] == segs[i..][0] && segs[i + 1..] == segs[i..][1..];
      SinkSegment(segs, i);
      i := i + 1;
    }
    assert n == 0 ==> was[..n] == [];
    assert was[..n] == old(segs[..n]) && was[n..] == old(segs[n..]);
  }

  lemma InOrderStarts(ss: seq<Segment>)
    ensures InOrder([]) == [] && (|ss| > 0 ==> InOrder(ss[..1]) == ss[..1])
  {
    if |ss| > 0 {
      assert ss[..1][..0] == [] && ss[..1] == [ss[0]];
      assert InOrder([]) == [];
      assert Placed([], ss[0]) == [] + [ss[0]];
    }
  }

  lemma InOrderNext(ss: seq<Segment>, i: nat)
    requires i < |ss|
    ensures InOrder(ss[..i + 1]) == Placed(InOrder(ss[..i]), ss[i])
  {
    assert ss[..i + 1][..i] == ss[..i];
  }

  // ----- Overlap -----

  /** Nothing runs into its successor. */
  ghost predicate InLine(ss: seq<Segment>) {
    forall i :: 0 < i < |ss| ==> ss[i - 1].gpa + ss[i - 1].memsz <= ss[i].gpa
  }

  lemma {:induction false} TwiceClaimed(ss: seq<Segment>, i: nat, j: nat, x: nat)
    requires i < j < |ss| && ss[i].Claims(x) && ss[j].Claims(x)
    ensures Claimed(ss, x) >= 2
  {
    if i > 0 {
      TwiceClaimed(ss[1..], i - 1, j - 1, x);
    } else {
      ClaimedAt(ss[1..], j - 1, x);
    }
  }

  lemma {:induction false} ClaimedAt(ss: seq<Segment>, i: nat, x: nat)
    requires i < |ss| && ss[i].Claims(x)
    ensures Claimed(ss, x) >= 1
  {
    if i > 0 {
      ClaimedAt(ss[1..], i - 1, x);
    }
  }

  /** Sorted segments that claim no byte twice run one behind the other. */
  lemma OnceInLine(ss: seq<Segment>)
    requires Ascending(ss) && ClaimedOnce(ss) && forall i :: 0 <= i < |ss| ==> ss[i].memsz > 0
    ensures InLine(ss)
  {
    hide Claimed;
    forall i | 0 < i < |ss| ensures ss[i - 1].gpa + ss[i - 1].memsz <= ss[i].gpa {
      if ss[i - 1].gpa + ss[i - 1].memsz > ss[i].gpa {
        TwiceClaimed(ss, i - 1, i, ss[i].gpa);
      }
    }
  }

  lemma {:induction false} NotClaimed(ss: seq<Segment>, x: nat)
    requires forall i :: 0 <= i < |ss| ==> !ss[i].Claims(x)
    ensures Claimed(ss, x) == 0
  {
    if ss != [] {
      NotClaimed(ss[1..], x);
    }
  }

  lemma {:induction false} InLineApart(ss: seq<Segment>, i: nat, j: nat)
    requires InLine(ss) && i < j < |ss|
    ensures ss[i].gpa + ss[i].memsz <= ss[j].gpa
  {
    if i < j - 1 {
      InLineApart(ss, i, j - 1);
    }
  }

  lemma {:induction false} InLineClaims(ss: seq<Segment>, x: nat)
    requires InLine(ss)
    ensures Claimed(ss, x) <= 1
  {
    if ss != [] {
      var rest := ss[1..];
      assert forall i :: 0 <= i < |rest| ==> rest[i] == ss[i + 1];
      InLineClaims(rest, x);
      if ss[0].Claims(x) {
        forall i | 0 <= i < |rest| ensures !rest[i].Claims(x) {
          InLineApart(ss, 0, i + 1);
        }
        NotClaimed(rest, x);
      }
    }
  }

  lemma {:induction false} BothClaim(ss: seq<Segment>, i: nat, x: nat)
    requires 0 < i < |ss| && ss[i - 1].Claims(x) && ss[i].Claims(x)
    ensures Claimed(ss, x) >= 2
  {
    if i > 1 {
      BothClaim(ss[1..], i - 1, x);
    } else {
      assert ss[1..][0] == ss[1];
    }
  }

  /** elf_first_overlap: with sorted segments none of which is empty, a neighbouring
      pair runs together exactly when some byte is claimed twice. */
  method FirstOverlap(segs: array<Segment>, n: nat) returns (bad: int)
    requires n <= segs.Length && Ascending(segs[..n]) && forall i :: 0 <= i < n ==> segs[i].memsz > 0
    ensures -1 <= bad < n
    ensures bad < 0 <==> ClaimedOnce(segs[..n])
    ensures bad >= 0 ==> bad > 0 && segs[bad - 1].Claims(segs[bad].gpa) && segs[bad].Claims(segs[bad].gpa)
  {
    ghost var ss := segs[..n];
    var i := 1;
    while i < n
      invariant 1 <= i
      invariant forall k :: 0 < k < i && k < n ==> ss[k - 1].gpa + ss[k - 1].memsz <= ss[k].gpa
    {
      if segs[i].gpa < segs[i - 1].gpa + segs[i - 1].memsz {
        assert ss[i - 1] == segs[i - 1] && ss[i] == segs[i];
        BothClaim(ss, i, ss[i].gpa);
        return i;
      }
      assert ss[i - 1] == segs[i - 1] && ss[i] == segs[i];
      i := i + 1;
    }
    forall x: nat ensures Claimed(ss, x) <= 1 {
      InLineClaims(ss, x);
    }
    return -1;
  }

  // ----- The program headers -----

  /** The segment's file data holds the whole program header table. */
  predicate HoldsTable(s: Segment, phoff: nat, total: nat) {
    s.offset <= phoff && phoff + total <= s.offset + s.filesz
  }

  /** elf_phdr_gpa_in_segment. */
  function TableGpa(s: Segment, phoff: nat, total: nat): Option<nat>
    requires Word(s.gpa) && Word(phoff)
  {
    if phoff < s.offset then None
    else
      var rel := phoff - s.offset;
      if rel > s.filesz || s.filesz - rel < total then None else AddNoWrap(s.gpa, rel)
  }

  /** A recorded segment's addresses cannot wrap, so the table is found wherever it is. */
  lemma TableGpaIs(s: Segment, phoff: nat, total: nat)
    requires Word(s.gpa) && Word(phoff) && s.filesz <= s.memsz && Word(s.gpa + s.memsz)
    ensures TableGpa(s, phoff, total) == if HoldsTable(s, phoff, total) then Some(s.gpa + (phoff - s.offset)) else None
  {
  }

  /** elf_phdr_table_bytes, and the table lies in the file. */
  predicate TableFits(phnum: nat, phentsize: nat, phoff: nat, fileSize: nat) {
    phnum != 0 && phentsize >= 56 && phnum * phentsize <= 65536 && phoff + phnum * phentsize <= fileSize
  }

  /** `lo` and `hi` are the lowest start and the highest end. */
  ghost predicate Bounds(ss: seq<Segment>, lo: nat, hi: nat) {
    && (forall s :: s in ss ==> lo <= s.gpa && s.gpa + s.memsz <= hi)
    && (if ss == [] then lo == 0xFFFF_FFFF_FFFF_FFFF && hi == 0
        else (exists s :: s in ss && s.gpa == lo) && (exists s :: s in ss && s.gpa + s.memsz == hi))
  }

  lemma BoundsNext(ss: seq<Segment>, lo: nat, hi: nat, s: Segment)
    requires Bounds(ss, lo, hi) && Word(s.gpa)
    ensures Bounds(ss + [s], if s.gpa < lo then s.gpa else lo, if s.gpa + s.memsz > hi then s.gpa + s.memsz else hi)
  {
    var ts := ss + [s];
    assert s in ts && forall t :: t in ss ==> t in ts;
    if ss == [] {
      assert ts == [s];
    }
  }

  /** What the parse accepts: every mapping header is loadable, there are between 1 and
      16 of them, and no byte is claimed twice. */
  ghost predicate Acceptable(phs: seq<Phdr>, fileSize: nat) {
    AllLoadable(phs, fileSize) && 0 < |Loads(phs)| <= 16 && ClaimedOnce(Loads(phs))
  }

  class ElfInfo {
    const segments: array<Segment>
    var numSegments: nat
    var loadMin: nat
    var loadMax: nat
    var phdrGpa: nat
    var phdrValid: bool

    /** elf_record_load. */
    method RecordLoad(ph: Phdr, fileSize: nat, count: nat) returns (ok: bool, count': nat)
      requires segments.Length == 16 && count <= 16 && ph.WellFormed() && Word(fileSize)
      modifies this`loadMin, this`loadMax, segments
      ensures ok <==> ph.memsz == 0 || (Loadable(ph, fileSize) && count < 16)
      ensures !(ok && ph.memsz != 0) ==> loadMin == old(loadMin) && loadMax == old(loadMax)
      ensures ok && ph.memsz == 0 ==> count' == count && segments[..] == old(segments[..])
      ensures ok && ph.memsz != 0 ==>
        && count' == count + 1 && segments[..count'] == old(segments[..count]) + [SegmentOf(ph)]
        && loadMin == (if ph.vaddr < old(loadMin) then ph.vaddr else old(loadMin))
        && loadMax == if ph.vaddr + ph.memsz > old(loadMax) then ph.vaddr + ph.memsz else old(loadMax)
    {
      count' := count;
      if ph.memsz == 0 {
        return true, count;
      }
      if ph.filesz > ph.memsz {
        return false, count;
      }
      if ph.filesz != 0 {
        var fileEnd := AddNoWrap(ph.offset, ph.filesz);
        if fileEnd.None? || fileEnd.value > fileSize {
          return false, count;
        }
      }
      if count >= 16 {
        return false, count;
      }
      var segEnd := AddNoWrap(ph.vaddr, ph.memsz);
      if segEnd.None? {
        return false, count;
      }
      segments[count] := Segment(ph.vaddr, ph.offset, ph.filesz, ph.memsz, ph.flags);
      if ph.vaddr < loadMin {
        loadMin := ph.vaddr;
      }
      if segEnd.value > loadMax {
        loadMax := segEnd.value;
      }
      return true, count + 1;
    }

    /** The header loop of elf_load_fd. */
    method RecordAll(phs: seq<Phdr>, fileSize: nat) returns (ok: bool, count: nat)
      requires segments.Length == 16 && Word(fileSize) && forall ph :: ph in phs ==> ph.WellFormed()
      modifies this`loadMin, this`loadMax, segments
      ensures ok <==> AllLoadable(phs, fileSize) && |Loads(phs)| <= 16
      ensures ok ==> count == |Loads(phs)| && segments[..count] == Loads(phs) && Bounds(Loads(phs), loadMin, loadMax)
    {
      hide Bounds, Loads;
      loadMin, loadMax := 0xFFFF_FFFF_FFFF_FFFF, 0;
      count := 0;
      LoadsStart();
      assert phs[..0] == [];
      var i := 0;
      while i < |phs|
        invariant i <= |phs| && AllLoadable(phs[..i], fileSize)
        invariant count == |Loads(phs[..i])| <= 16 && segments[..count] == Loads(phs[..i])
        invariant Bounds(Loads(phs[..i]), loadMin, loadMax)
      {
        var ph := phs[i];
        LoadsNext(phs, i);
        assert ph in phs;
        if ph.ptype == 1 {
          BoundsNext(Loads(phs[..i]), loadMin, loadMax, SegmentOf(ph));
          ok, count := RecordLoad(ph, fileSize, count);
          if !ok {
            if Loadable(ph, fileSize) {
              LoadsGrow(phs, i + 1);
            }
            return;
          }
        }
        i := i + 1;
      }
      assert phs[..i] == phs;
      ok := true;
    }

    /** The last loop of elf_load_fd: the first segment that holds the table. */
    method FindTable(phoff: nat, total: nat)
      requires numSegments <= segments.Length && Word(phoff) && !phdrValid
      requires forall i :: 0 <= i < numSegments ==>
        Word(segments[i].gpa) && segments[i].filesz <= segments[i].memsz && Word(segments[i].gpa + segments[i].memsz)
      modifies this`phdrGpa, this`phdrValid
      ensures phdrValid <==> exists s :: s in segments[..numSegments] && HoldsTable(s, phoff, total)
      ensures phdrValid ==>
        exists s :: s in segments[..numSegments] && HoldsTable(s, phoff, total) && phdrGpa == s.gpa + (phoff - s.offset)
    {
      ghost var ss := segments[..numSegments];
      var i := 0;
      while i < numSegments
        invariant i <= numSegments && !phdrValid
        invariant forall k :: 0 <= k < i ==> !HoldsTable(ss[k], phoff, total)
      {
        assert segments[i] == ss[i];
        TableGpaIs(segments[i], phoff, total);
        var gpa := TableGpa(segments[i], phoff, total);
        if gpa.Some? {
          phdrGpa, phdrValid := gpa.value, true;
          assert ss[i] in ss;
          return;
        }
        i := i + 1;
      }
    }

    /** The part of elf_load_fd behind the ELF header: read the table, record, sort,
        refuse overlaps, find the program headers. */
    method Load(phs: seq<Phdr>, phentsize: nat, phoff: nat, fileSize: nat) returns (ok: bool)
      requires segments.Length == 16 && Word(phoff) && Word(fileSize) && forall ph :: ph in phs ==> ph.WellFormed()
      modifies this, segments
      ensures ok <==> TableFits(|phs|, phentsize, phoff, fileSize) && Acceptable(phs, fileSize)
      ensures !ok ==> numSegments == 0
      ensures ok ==>
        && numSegments == |Loads(phs)| && segments[..numSegments] == InOrder(Loads(phs))
        && Bounds(Loads(phs), loadMin, loadMax)
        && (phdrValid <==> exists s :: s in Loads(phs) && HoldsTable(s, phoff, |phs| * phentsize))
        && (phdrValid ==> exists s ::
              s in Loads(phs) && HoldsTable(s, phoff, |phs| * phentsize) && phdrGpa == s.gpa + (phoff - s.offset))
    {
      hide Bounds, Loads, InOrder, Claimed, ClaimedOnce, AllLoadable;
      numSegments, phdrGpa, phdrValid := 0, 0, false;
      var total := |phs| * phentsize;
      if |phs| == 0 || phentsize < 56 || total > 65536 || phoff + total > fileSize {
        return false;
      }
      var count;
      ok, count := RecordAll(phs, fileSize);
      if !ok {
        return false;
      }
      if count == 0 {
        return false;
      }
      SortSegments(segments, count);
      ghost var ss := segments[..count];
      SortedLoads(phs, fileSize, ss);
      assert forall i :: 0 <= i < count ==> segments[i] == ss[i];
      var bad := FirstOverlap(segments, count);
      if bad > 0 {
        return false;
      }
      numSegments := count;
      FindTable(phoff, total);
      return true;
    }
  }

  lemma LoadsStart()
    ensures Loads([]) == [] && Bounds([], 0xFFFF_FFFF_FFFF_FFFF, 0)
  {
  }

  lemma LoadsNext(phs: seq<Phdr>, i: nat)
    requires i < |phs|
    ensures Loads(phs[..i + 1]) == Loads(phs[..i]) + if Maps(phs[i]) then [SegmentOf(phs[i])] else []
    ensures phs[..i + 1] == phs[..i] + [phs[i]]
  {
    assert phs[..i + 1][..i] == phs[..i];
  }

  lemma {:induction false} LoadsGrow(phs: seq<Phdr>, i: nat)
    requires i <= |phs|
    ensures |Loads(phs[..i])| <= |Loads(phs)|
    decreases |phs| - i
  {
    if i < |phs| {
      LoadsNext(phs, i);
      LoadsGrow(phs, i + 1);
    } else {
      assert phs[..i] == phs;
    }
  }

  /** The sorted segments are the recorded ones, and claim what those claim. */
  lemma SortedLoads(phs: seq<Phdr>, fileSize: nat, ss: seq<Segment>)
    requires AllLoadable(phs, fileSize) && ss == InOrder(Loads(phs)) && forall ph :: ph in phs ==> ph.WellFormed()
    ensures Ascending(ss) && |ss| == |Loads(phs)| && (forall s :: s in ss <==> s in Loads(phs))
    ensures ClaimedOnce(ss) <==> ClaimedOnce(Loads(phs))
    ensures forall i :: 0 <= i < |ss| ==>
      var s := ss[i];
      && s.memsz > 0 && s.filesz <= s.memsz && (s.filesz != 0 ==> s.offset + s.filesz <= fileSize)
      && Word(s.gpa) && Word(s.gpa + s.memsz)
  {
    hide Claimed, InOrder;
    var ls := Loads(phs);
    InOrderIs(ls);
    forall s ensures s in ss <==> s in ls {
      assert s in multiset(ss) <==> s in multiset(ls);
    }
    assert |multiset(ss)| == |multiset(ls)|;
    forall x: nat ensures Claimed(ss, x) == Claimed(ls, x) {
      InOrderClaims(ls, x);
    }
    forall i | 0 <= i < |ss|
      ensures ss[i].memsz > 0 && ss[i].filesz <= ss[i].memsz
      ensures ss[i].filesz != 0 ==> ss[i].offset + ss[i].filesz <= fileSize
      ensures Word(ss[i].gpa) && Word(ss[i].gpa + ss[i].memsz)
    {
      assert ss[i] in ss;
      LoadsIs(phs, ss[i]);
    }
  }

  /** What the parse accepts and records is in line. */
  lemma AcceptedInLine(phs: seq<Phdr>, fileSize: nat)
    requires Acceptable(phs, fileSize) && forall ph :: ph in phs ==> ph.WellFormed()
    ensures var ss := InOrder(Loads(phs)); InLine(ss) && |ss| <= 16 && forall i :: 0 <= i < |ss| ==> ss[i].memsz > 0
  {
    hide Claimed, InOrder, Loads;
    var ss := InOrder(Loads(phs));
    SortedLoads(phs, fileSize, ss);
    OnceInLine(ss);
  }
}
