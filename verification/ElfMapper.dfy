/** Placing a parsed image in the guest slab and filling it: file bytes where a segment
has file data, zeros in the rest of every segment and up to the end of its last page,
everything else untouched. */
module ElfMapper {
  import opened Descriptors
  import opened ElfImage
  import opened Slab

  /** Where an image goes: p_vaddr lands at targetBase + (p_vaddr - vaBase), in a slab of
      `size` bytes, off the reserve [infraLo, infraHi). */
  datatype Target = Target(vaBase: nat, targetBase: nat, size: nat, infraLo: nat, infraHi: nat) {
    predicate WellFormed() {
      Word(vaBase) && Word(targetBase) && Word(size) && Word(infraLo) && Word(infraHi)
    }
  }

  /** The load address, and how far from it the loader may write. */
  datatype Place = Place(gpa: nat, zeroLen: nat)

  /** PAGE_ALIGN_UP in 64-bit arithmetic. */
  function AlignUp64(x: nat): nat {
    (x + 4095) % 0x1_0000_0000_0000_0000 / 4096 * 4096
  }

  /** elf_segment_extent. */
  function SegmentExtent(s: Segment, t: Target): Option<Place>
    requires t.WellFormed() && Word(s.gpa)
  {
    if s.gpa < t.vaBase then None
    else
      var gpa := AddNoWrap(t.targetBase, s.gpa - t.vaBase);
      if gpa.None? || s.filesz > s.memsz || s.memsz > t.size || gpa.value > t.size - s.memsz then None
      else
        var end := gpa.value + s.memsz;
        var aligned := AlignUp64(end);
        var stop := if aligned < end || aligned > t.size then t.size else aligned;
        Some(Place(gpa.value, stop - gpa.value))
  }

  /** elf_place_segment. */
  function PlaceSegment(s: Segment, t: Target): Option<Place>
    requires t.WellFormed() && Word(s.gpa)
  {
    var p := SegmentExtent(s, t);
    if p.Some? && t.infraLo < t.infraHi && p.value.gpa < t.infraHi && p.value.gpa + p.value.zeroLen > t.infraLo then
      None
    else p
  }

  /** The first page boundary at or after `x`. */
  function PageEnd(x: nat): nat {
    (x + 4095) / 4096 * 4096
  }

  function Home(s: Segment, t: Target): int {
    t.targetBase + (s.gpa - t.vaBase)
  }

  /** Where the loader stops writing: the end of the segment's last page or of the slab. */
  function Stop(s: Segment, t: Target): int {
    var end := Home(s, t) + s.memsz;
    if end < 0 then end else if PageEnd(end) > t.size then t.size else PageEnd(end)
  }

  /** The segment is inside the window and the slab, and what it may touch is off the
      reserve. */
  predicate Fits(s: Segment, t: Target) {
    && t.vaBase <= s.gpa && s.filesz <= s.memsz && Home(s, t) + s.memsz <= t.size
    && !(t.infraLo < t.infraHi && Home(s, t) < t.infraHi && Stop(s, t) > t.infraLo)
  }

  lemma AlignUpIs(x: nat)
    requires Word(x)
    ensures x <= PageEnd(x) < x + 4096
    ensures AlignUp64(x) == if Word(x + 4095) then PageEnd(x) else 0
  {
  }

  /** Placing does without wrap-around what exact arithmetic says. */
  lemma PlaceIs(s: Segment, t: Target)
    requires t.WellFormed() && Word(s.gpa)
    ensures PlaceSegment(s, t) == if Fits(s, t) then Some(Place(Home(s, t), Stop(s, t) - Home(s, t))) else None
    ensures Fits(s, t) ==> 0 <= Home(s, t) && s.filesz <= s.memsz && Home(s, t) + s.memsz <= Stop(s, t) <= t.size
  {
    if t.vaBase <= s.gpa && s.filesz <= s.memsz && Home(s, t) + s.memsz <= t.size {
      AlignUpIs(Home(s, t) + s.memsz);
    }
  }

  // ----- What loading means -----

  /** Segment `s` has file data at slab address `x`. */
  predicate InFile(s: Segment, t: Target, x: int) {
    Home(s, t) <= x < Home(s, t) + s.filesz
  }

  /** `x` is past the file data of `s` but not past what `s` clears. */
  predicate InTail(s: Segment, t: Target, x: int) {
    Home(s, t) + s.filesz <= x < Stop(s, t)
  }

  ghost predicate AnyFile(ss: seq<Segment>, t: Target, x: int) {
    exists s :: s in ss && InFile(s, t, x)
  }

  ghost predicate AnyTail(ss: seq<Segment>, t: Target, x: int) {
    exists s :: s in ss && InTail(s, t, x)
  }

  predicate Readable(s: Segment, file: seq<byte>) {
    s.filesz == 0 || s.offset + s.filesz <= |file|
  }

  /** The file byte segment `s` puts at `x`. */
  function FileByte(s: Segment, t: Target, file: seq<byte>, x: int): byte
    requires Readable(s, file) && InFile(s, t, x)
  {
    file[s.offset + (x - Home(s, t))]
  }

  /** `now` is `was` with the image loaded over it. */
  ghost predicate Loaded(ss: seq<Segment>, t: Target, file: seq<byte>, was: seq<byte>, now: seq<byte>)
    requires forall s :: s in ss ==> Readable(s, file)
  {
    && |now| == |was|
    && (forall s, x :: s in ss && 0 <= x < |now| && InFile(s, t, x) ==> now[x] == FileByte(s, t, file, x))
    && (forall x :: 0 <= x < |now| && !AnyFile(ss, t, x) ==> now[x] == if AnyTail(ss, t, x) then 0 else was[x])
  }

  /** The loaded slab depends on the set of segments only, not on their order. */
  lemma OrderIrrelevant(ss: seq<Segment>, ss': seq<Segment>, t: Target, file: seq<byte>, was: seq<byte>,
                        now: seq<byte>, now': seq<byte>)
    requires forall s :: s in ss ==> Readable(s, file)
    requires forall s :: s in ss <==> s in ss'
    requires Loaded(ss, t, file, was, now) && Loaded(ss', t, file, was, now')
    ensures now == now'
  {
    forall x | 0 <= x < |now| ensures now[x] == now'[x] {
      if AnyFile(ss, t, x) {
        var s :| s in ss && InFile(s, t, x);
      } else {
        assert !AnyFile(ss', t, x) && (AnyTail(ss, t, x) <==> AnyTail(ss', t, x));
      }
    }
  }

  /** Segment `k` is the last of the first `n` with file data at `x`. */
  ghost predicate LastIn(ss: seq<Segment>, n: nat, k: nat, t: Target, x: int) {
    k < n <= |ss| && InFile(ss[k], t, x) && forall j :: k < j < n ==> !InFile(ss[j], t, x)
  }

  /** `now` is `was` with the segments loaded over it one after the other: where file
      ranges share a byte, the last one counts. */
  ghost predicate Overlaid(ss: seq<Segment>, t: Target, file: seq<byte>, was: seq<byte>, now: seq<byte>)
    requires forall s :: s in ss ==> Readable(s, file)
  {
    && |now| == |was|
    && (forall k: nat, x: nat :: x < |now| && LastIn(ss, |ss|, k, t, x) ==> now[x] == FileByte(ss[k], t, file, x))
    && (forall x :: 0 <= x < |now| && !AnyFile(ss, t, x) ==> now[x] == if AnyTail(ss, t, x) then 0 else was[x])
  }

  /** Segments that share no byte are loaded whole. */
  lemma OverlaidApart(ss: seq<Segment>, t: Target, file: seq<byte>, was: seq<byte>, now: seq<byte>)
    requires (forall s :: s in ss ==> Readable(s, file)) && FilesApart(ss, t) && Overlaid(ss, t, file, was, now)
    ensures Loaded(ss, t, file, was, now)
  {
    hide Home;
    forall s, x | s in ss && 0 <= x < |now| && InFile(s, t, x) ensures now[x] == FileByte(s, t, file, x) {
      var k :| 0 <= k < |ss| && ss[k] == s;
      assert LastIn(ss, |ss|, k, t, x);
    }
  }

  /** What is claimed once stays claimed once wherever the image lands. */
  ghost predicate FilesApart(ss: seq<Segment>, t: Target) {
    forall i, j, x: int :: 0 <= i < j < |ss| ==> !(InFile(ss[i], t, x) && InFile(ss[j], t, x))
  }

  lemma ClaimedOnceApart(ss: seq<Segment>, t: Target)
    requires ClaimedOnce(ss) && forall i :: 0 <= i < |ss| ==> ss[i].filesz <= ss[i].memsz
    ensures FilesApart(ss, t)
  {
    hide Claimed;
    forall i, j, x: int | 0 <= i < j < |ss| ensures !(InFile(ss[i], t, x) && InFile(ss[j], t, x)) {
      if InFile(ss[i], t, x) && InFile(ss[j], t, x) {
        var v := x - t.targetBase + t.vaBase;
        TwiceClaimed(ss, i, j, v);
      }
    }
  }

  // ----- Loading -----

  /** elf_check_placement. */
  method CheckPlacement(ss: seq<Segment>, t: Target) returns (ok: bool)
    requires t.WellFormed() && forall s :: s in ss ==> Word(s.gpa)
    ensures ok <==> forall s :: s in ss ==> Fits(s, t)
  {
    for i := 0 to |ss|
      invariant forall k :: 0 <= k < i ==> Fits(ss[k], t)
    {
      PlaceIs(ss[i], t);
      if PlaceSegment(ss[i], t).None? {
        assert ss[i] in ss;
        return false;
      }
    }
    return true;
  }

  ghost predicate OffReserve(t: Target, was: seq<byte>, now: seq<byte>) {
    |now| == |was| && forall x :: 0 <= x < |now| && t.infraLo <= x < t.infraHi ==> now[x] == was[x]
  }

  /** The first pass: clear the tail of every segment. */
  method ClearTails(ss: seq<Segment>, t: Target, slab: array<byte>) returns (ok: bool)
    requires t.WellFormed() && t.size == slab.Length && forall s :: s in ss ==> Word(s.gpa)
    modifies slab
    ensures ok <==> forall s :: s in ss ==> Fits(s, t)
    ensures OffReserve(t, old(slab[..]), slab[..])
    ensures ok ==> forall x :: 0 <= x < slab.Length ==> slab[x] == if AnyTail(ss, t, x) then 0 else old(slab[x])
  {
    hide Fits, Home, Stop, PlaceSegment;
    ghost var was := slab[..];
    assert ss[..0] == [];
    for i := 0 to |ss|
      invariant forall k :: 0 <= k < i ==> Fits(ss[k], t)
      invariant forall x :: 0 <= x < slab.Length ==> slab[x] == if AnyTail(ss[..i], t, x) then 0 else was[x]
      invariant OffReserve(t, was, slab[..])
    {
      var s := ss[i];
      PlaceIs(s, t);
      var p := PlaceSegment(s, t);
      if p.None? {
        assert ss[i] in ss;
        return false;
      }
      PlaceOffReserve(s, t);
      var gpa, zeroLen := p.value.gpa, p.value.zeroLen;
      if zeroLen > s.filesz {
        ZeroBytes(slab, gpa + s.filesz, gpa + zeroLen);
      }
      AnyNext(ss, i, t);
    }
    assert ss[..|ss|] == ss;
    return true;
  }

  lemma AnyNext(ss: seq<Segment>, i: nat, t: Target)
    requires i < |ss|
    ensures forall x: int :: AnyTail(ss[..i + 1], t, x) <==> AnyTail(ss[..i], t, x) || InTail(ss[i], t, x)
    ensures forall x: int :: AnyFile(ss[..i + 1], t, x) <==> AnyFile(ss[..i], t, x) || InFile(ss[i], t, x)
  {
    assert ss[..i + 1] == ss[..i] + [ss[i]];
  }

  /** What a placed segment may touch is off the reserve. */
  lemma PlaceOffReserve(s: Segment, t: Target)
    requires Fits(s, t)
    ensures forall x: int :: InFile(s, t, x) || InTail(s, t, x) ==> !(t.infraLo <= x < t.infraHi)
  {
  }

  /** pread into the slab: the bytes there are; `ok` says there were enough. */
  method ReadInto(slab: array<byte>, gpa: nat, filesz: nat, offset: nat, file: seq<byte>) returns (ok: bool)
    requires gpa + filesz <= slab.Length
    modifies slab
    ensures ok <==> offset + filesz <= |file| || filesz == 0
    ensures forall x :: 0 <= x < slab.Length && !(gpa <= x < gpa + filesz) ==> slab[x] == old(slab[x])
    ensures ok ==> forall x :: gpa <= x < gpa + filesz ==> slab[x] == file[offset + (x - gpa)]
  {
    if filesz == 0 {
      return true;
    }
    var left := if offset > |file| then 0 else |file| - offset;
    var count := if filesz <= left then filesz else left;
    if count > 0 {
      CopyIn(slab, gpa, file[offset..offset + count]);
    }
    return count == filesz;
  }

  /** The file data of the first `i` segments has been read over `was`. */
  ghost predicate ReadSoFar(ss: seq<Segment>, i: nat, t: Target, file: seq<byte>, was: seq<byte>, now: seq<byte>) {
    && i <= |ss| && |now| == |was|
    && (forall k :: 0 <= k < i ==> Readable(ss[k], file))
    && (forall k: nat, x: nat :: x < |now| && LastIn(ss, i, k, t, x) ==> now[x] == FileByte(ss[k], t, file, x))
    && (forall x :: 0 <= x < |now| && !AnyFile(ss[..i], t, x) ==> now[x] == was[x])
    && OffReserve(t, was, now)
  }

  lemma ReadNext(ss: seq<Segment>, i: nat, t: Target, file: seq<byte>, was: seq<byte>, mid: seq<byte>, now: seq<byte>)
    requires i < |ss| && ReadSoFar(ss, i, t, file, was, mid) && Fits(ss[i], t) && |now| == |mid|
    requires forall x :: 0 <= x < |now| && !InFile(ss[i], t, x) ==> now[x] == mid[x]
    ensures OffReserve(t, was, now)
    ensures (Readable(ss[i], file)
             && forall x :: 0 <= x < |now| && InFile(ss[i], t, x) ==> now[x] == FileByte(ss[i], t, file, x)) ==>
      ReadSoFar(ss, i + 1, t, file, was, now)
  {
    hide Fits, Home, Stop;
    PlaceOffReserve(ss[i], t);
    AnyNext(ss, i, t);
    forall k: nat, x: nat | LastIn(ss, i + 1, k, t, x)
      ensures k == i || (LastIn(ss, i, k, t, x) && !InFile(ss[i], t, x))
    {
    }
  }

  /** The second pass: read the file data of every segment. */
  method ReadFiles(ss: seq<Segment>, t: Target, file: seq<byte>, slab: array<byte>) returns (ok: bool)
    requires t.WellFormed() && t.size == slab.Length
    requires forall s :: s in ss ==> Word(s.gpa) && Fits(s, t)
    modifies slab
    ensures ok <==> forall s :: s in ss ==> Readable(s, file)
    ensures OffReserve(t, old(slab[..]), slab[..])
    ensures ok ==> forall k: nat, x: nat :: x < slab.Length && LastIn(ss, |ss|, k, t, x) ==>
      slab[x] == FileByte(ss[k], t, file, x)
    ensures ok ==> forall x :: 0 <= x < slab.Length && !AnyFile(ss, t, x) ==> slab[x] == old(slab[x])
  {
    hide Fits, Stop, PlaceSegment, OffReserve, AnyFile, ReadSoFar, LastIn;
    ghost var was := slab[..];
    ReadStarts(ss, t, file, was);
    for i := 0 to |ss|
      invariant ReadSoFar(ss, i, t, file, was, slab[..])
    {
      var s := ss[i];
      assert s in ss;
      PlaceIs(s, t);
      var p := PlaceSegment(s, t);
      ghost var mid := slab[..];
      var done := ReadInto(slab, p.value.gpa, s.filesz, s.offset, file);
      ReadNext(ss, i, t, file, was, mid, slab[..]);
      if !done {
        return false;
      }
    }
    ReadEnds(ss, t, file, was, slab[..]);
    return true;
  }

  lemma ReadStarts(ss: seq<Segment>, t: Target, file: seq<byte>, was: seq<byte>)
    ensures ReadSoFar(ss, 0, t, file, was, was)
  {
  }

  lemma ReadEnds(ss: seq<Segment>, t: Target, file: seq<byte>, was: seq<byte>, now: seq<byte>)
    requires ReadSoFar(ss, |ss|, t, file, was, now)
    ensures (forall s :: s in ss ==> Readable(s, file)) && OffReserve(t, was, now) && |now| == |was|
    ensures forall k: nat, x: nat :: x < |now| && LastIn(ss, |ss|, k, t, x) ==> now[x] == FileByte(ss[k], t, file, x)
    ensures forall x :: 0 <= x < |now| && !AnyFile(ss, t, x) ==> now[x] == was[x]
  {
    assert ss[..|ss|] == ss;
  }

  /** elf_map_segments_fd.  It refuses exactly when a segment does not fit, or the file
      has become too short for one; whatever happens, the reserve is not written. */
  method MapSegments(ss: seq<Segment>, t: Target, file: seq<byte>, slab: array<byte>) returns (ok: bool)
    requires t.WellFormed() && t.size == slab.Length && forall s :: s in ss ==> Word(s.gpa)
    modifies slab
    ensures ok <==> forall s :: s in ss ==> Fits(s, t) && Readable(s, file)
    ensures OffReserve(t, old(slab[..]), slab[..])
    ensures ok ==> Overlaid(ss, t, file, old(slab[..]), slab[..])
    ensures ok && FilesApart(ss, t) ==> Loaded(ss, t, file, old(slab[..]), slab[..])
  {
    hide Fits, Readable, InFile, InTail, AnyFile, AnyTail, FilesApart, LastIn, Loaded;
    ok := ClearTails(ss, t, slab);
    if !ok {
      return;
    }
    ok := ReadFiles(ss, t, file, slab);
    if ok && FilesApart(ss, t) {
      OverlaidApart(ss, t, file, old(slab[..]), slab[..]);
    }
  }

  /** The program headers need no copy of their own: if the parse found them in a
      segment, loading the image leaves them at their relocated address. */
  lemma TableDelivered(ss: seq<Segment>, t: Target, file: seq<byte>, was: seq<byte>, now: seq<byte>, phoff: nat,
                       total: nat, phdrGpa: nat)
    requires t.WellFormed() && |was| == t.size && forall s :: s in ss ==> Word(s.gpa) && Fits(s, t) && Readable(s, file)
    requires Loaded(ss, t, file, was, now) && total > 0
    requires exists s :: s in ss && HoldsTable(s, phoff, total) && phdrGpa == s.gpa + (phoff - s.offset)
    ensures phoff + total <= |file|
    ensures var at := t.targetBase + (phdrGpa - t.vaBase);
      0 <= at && at + total <= |now| && now[at..at + total] == file[phoff..phoff + total]
  {
    var s :| s in ss && HoldsTable(s, phoff, total) && phdrGpa == s.gpa + (phoff - s.offset);
    PlaceIs(s, t);
    var at := t.targetBase + (phdrGpa - t.vaBase);
    forall x | at <= x < at + total ensures now[x] == file[phoff + (x - at)] {
      assert InFile(s, t, x);
      assert now[x] == FileByte(s, t, file, x);
    }
  }

  /** What the parse accepts is ready for the mapper: over the same file it can only be
      refused for where it lands, which elf_check_placement tells beforehand. */
  lemma ParsedIsReady(phs: seq<Phdr>, file: seq<byte>, ss: seq<Segment>, t: Target)
    requires Acceptable(phs, |file|) && ss == InOrder(Loads(phs)) && forall ph :: ph in phs ==> ph.WellFormed()
    ensures FilesApart(ss, t) && forall s :: s in ss ==> Word(s.gpa) && Readable(s, file)
  {
    hide Loads, InOrder;
    SortedLoads(phs, |file|, ss);
    ClaimedOnceApart(ss, t);
    forall s | s in ss ensures Word(s.gpa) && Readable(s, file) {
      var k :| 0 <= k < |ss| && ss[k] == s;
    }
  }

  /** Parse, check the placement, map: the check decides, so past it the mapper has
      nothing left to refuse, and the program headers arrive with the image. */
  method LoadImage(info: ElfInfo, phs: seq<Phdr>, phentsize: nat, phoff: nat, file: seq<byte>, t: Target,
                   slab: array<byte>)
    returns (ok: bool)
    requires info.segments.Length == 16 && Word(phoff) && Word(|file|) && t.WellFormed() && t.size == slab.Length
    requires forall ph :: ph in phs ==> ph.WellFormed()
    modifies info, info.segments, slab
    ensures ok <==>
      && TableFits(|phs|, phentsize, phoff, |file|) && Acceptable(phs, |file|)
      && forall s :: s in InOrder(Loads(phs)) ==> Fits(s, t)
    ensures !ok ==> slab[..] == old(slab[..])
    ensures OffReserve(t, old(slab[..]), slab[..])
    ensures ok ==> info.numSegments <= 16 && info.segments[..info.numSegments] == InOrder(Loads(phs))
    ensures ok ==>
      && (forall s :: s in InOrder(Loads(phs)) ==> Readable(s, file))
      && Loaded(InOrder(Loads(phs)), t, file, old(slab[..]), slab[..])
    ensures ok && info.phdrValid ==>
      var at, total := t.targetBase + (info.phdrGpa - t.vaBase), |phs| * phentsize;
      0 <= at && at + total <= slab.Length && slab[at..at + total] == file[phoff..phoff + total]
  {
    hide Loads, InOrder, Fits, Readable, Loaded, FilesApart, Bounds, HoldsTable, ClaimedOnce, AllLoadable;
    ok := info.Load(phs, phentsize, phoff, |file|);
    if !ok {
      return;
    }
    var ss := info.segments[..info.numSegments];
    ghost var ls := Loads(phs);
    ParsedIsReady(phs, file, ss, t);
    ok := CheckPlacement(ss, t);
    if !ok {
      return;
    }
    ghost var was := slab[..];
    ok := MapSegments(ss, t, file, slab);
    if info.phdrValid {
      SameSegments(ls);
      TableDelivered(ss, t, file, was, slab[..], phoff, |phs| * phentsize, info.phdrGpa);
      ghost var at, total := t.targetBase + (info.phdrGpa - t.vaBase), |phs| * phentsize;
      assert slab[..][at..at + total] == slab[at..at + total];
    }
  }

  lemma SameSegments(ls: seq<Segment>)
    ensures forall s :: s in InOrder(ls) <==> s in ls
  {
    hide InOrder;
    InOrderIs(ls);
    forall s ensures s in InOrder(ls) <==> s in ls {
      assert s in multiset(InOrder(ls)) <==> s in multiset(ls);
    }
  }
}
