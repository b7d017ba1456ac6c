/** The guest's intermediate physical address space: the primary slab at 0, explicitly
placed extra mappings, and 1 GiB overflow segments that hand out 2 MiB blocks. */
module IpaSpace {
  import opened Descriptors

  datatype Mapping = Mapping(gpa: nat, size: nat)

  /** Blocks below `next` have been handed out. */
  datatype Overflow = Overflow(start: nat, size: nat, next: nat)

  predicate Disjoint(a: nat, aEnd: nat, b: nat, bEnd: nat) {
    aEnd <= b || bEnd <= a
  }

  /** A candidate range is nonempty, does not wrap, and is clear of the slab and of
      everything placed so far. */
  ghost predicate Free(limit: nat, ms: seq<Mapping>, os: seq<Overflow>, gpa: nat, size: nat) {
    && size > 0 && gpa + size < 0x1_0000_0000_0000_0000 && limit <= gpa
    && (forall i :: 0 <= i < |ms| ==> Disjoint(gpa, gpa + size, ms[i].gpa, ms[i].gpa + ms[i].size))
    && (forall i :: 0 <= i < |os| ==> Disjoint(gpa, gpa + size, os[i].start, os[i].start + os[i].size))
  }

  /** The slab [0, limit), the mappings and the segments are pairwise disjoint. */
  ghost predicate AllDisjoint(limit: nat, ms: seq<Mapping>, os: seq<Overflow>) {
    && (forall i :: 0 <= i < |ms| ==> limit <= ms[i].gpa) && (forall i :: 0 <= i < |os| ==> limit <= os[i].start)
    && (forall i, k :: 0 <= i < k < |ms| ==>
      Disjoint(ms[i].gpa, ms[i].gpa + ms[i].size, ms[k].gpa, ms[k].gpa + ms[k].size))
    && (forall i, k :: 0 <= i < k < |os| ==>
      Disjoint(os[i].start, os[i].start + os[i].size, os[k].start, os[k].start + os[k].size))
    && (forall i, k :: 0 <= i < |ms| && 0 <= k < |os| ==>
          Disjoint(ms[i].gpa, ms[i].gpa + ms[i].size, os[k].start, os[k].start + os[k].size))
  }

  lemma AddKeepsDisjoint(limit: nat, ms: seq<Mapping>, os: seq<Overflow>, gpa: nat, size: nat, next: nat)
    requires AllDisjoint(limit, ms, os) && Free(limit, ms, os, gpa, size)
    ensures AllDisjoint(limit, ms + [Mapping(gpa, size)], os)
    ensures AllDisjoint(limit, ms, os + [Overflow(gpa, size, next)])
  {
  }

  // ----- Skipping over mappings -----

  /** The mappings a placement at `x` has not passed yet. */
  function Ahead(ms: seq<Mapping>, x: nat): nat {
    if ms == [] then 0 else (if x < ms[0].gpa + ms[0].size then 1 else 0) + Ahead(ms[1..], x)
  }

  lemma {:induction false} AheadShrinks(ms: seq<Mapping>, i: nat, x: nat, y: nat)
    requires x <= y && i < |ms| && x < ms[i].gpa + ms[i].size <= y
    ensures Ahead(ms, y) < Ahead(ms, x)
  {
    if i > 0 {
      AheadShrinks(ms[1..], i - 1, x, y);
    } else {
      AheadGrows(ms[1..], x, y);
    }
  }

  lemma {:induction false} AheadGrows(ms: seq<Mapping>, x: nat, y: nat)
    requires x <= y
    ensures Ahead(ms, y) <= Ahead(ms, x)
  {
    if ms != [] {
      AheadGrows(ms[1..], x, y);
    }
  }

  /** A mapping that overlaps [x, x + size), if any: the inner scan. */
  method FirstOverlap(ms: seq<Mapping>, x: nat, size: nat) returns (i: int)
    ensures -1 <= i < |ms|
    ensures i >= 0 ==> x < ms[i].gpa + ms[i].size && ms[i].gpa < x + size
    ensures i < 0 ==> forall k :: 0 <= k < |ms| ==> Disjoint(x, x + size, ms[k].gpa, ms[k].gpa + ms[k].size)
  {
    for k := 0 to |ms|
      invariant forall q :: 0 <= q < k ==> Disjoint(x, x + size, ms[q].gpa, ms[q].gpa + ms[q].size)
    {
      if x < ms[k].gpa + ms[k].size && ms[k].gpa < x + size {
        return k;
      }
    }
    return -1;
  }

  /** Reached from `from` by jumping to the ends of mappings. */
  ghost predicate Landing(ms: seq<Mapping>, from: nat, x: nat) {
    x == from || exists i :: 0 <= i < |ms| && x == ms[i].gpa + ms[i].size
  }

  ghost predicate ClearOf(ms: seq<Mapping>, x: nat, size: nat) {
    forall k :: 0 <= k < |ms| ==> Disjoint(x, x + size, ms[k].gpa, ms[k].gpa + ms[k].size)
  }

  /** The skip loop of guest_overflow_alloc: the lowest placement at or after `from`
      clear of every mapping, or None where there is none in the address space. */
  method SkipMappings(ms: seq<Mapping>, from: nat, size: nat) returns (r: Option<nat>)
    requires from + size < 0x1_0000_0000_0000_0000 && size > 0
    ensures r.Some? ==>
      && from <= r.value && r.value + size < 0x1_0000_0000_0000_0000
      && Landing(ms, from, r.value) && ClearOf(ms, r.value, size)
    ensures forall y: nat :: from <= y && y + size < 0x1_0000_0000_0000_0000 && ClearOf(ms, y, size) ==>
      r.Some? && r.value <= y
  {
    var x := from;
    while true
      invariant from <= x && x + size < 0x1_0000_0000_0000_0000 && Landing(ms, from, x)
      invariant forall y: nat :: from <= y && ClearOf(ms, y, size) ==> x <= y
      decreases Ahead(ms, x)
    {
      var i := FirstOverlap(ms, x, size);
      if i < 0 {
        return Some(x);
      }
      var end := ms[i].gpa + ms[i].size;
      AheadShrinks(ms, i, x, end);
      x := end;
      if x + size >= 0x1_0000_0000_0000_0000 {
        return None;
      }
    }
  }

  // ----- The allocator -----

  /** The blocks handed out of a segment. */
  ghost predicate BlockOf(o: Overflow, x: nat) {
    o.start <= x && x - o.start + 0x20_0000 <= o.next && (x - o.start) % 0x20_0000 == 0
  }

  ghost predicate Handed(os: seq<Overflow>, x: nat) {
    exists i :: 0 <= i < |os| && BlockOf(os[i], x)
  }

  predicate Roomy(o: Overflow) {
    o.next + 0x20_0000 <= o.size
  }

  /** Some segment has a block left. */
  ghost predicate HasRoom(os: seq<Overflow>) {
    exists k :: 0 <= k < |os| && Roomy(os[k])
  }

  /** Segment `i` is the first with a block left. */
  ghost predicate FirstWithRoom(os: seq<Overflow>, i: nat) {
    i < |os| && Roomy(os[i]) && forall k :: 0 <= k < i ==> !Roomy(os[k])
  }

  function Advance(o: Overflow): Overflow {
    o.(next := o.next + 0x20_0000)
  }

  /** The blocks of a segment are 2 MiB-aligned exactly when it is. */
  lemma BlockAligned(o: Overflow, x: nat)
    requires BlockOf(o, x)
    ensures x % 0x20_0000 == 0 <==> o.start % 0x20_0000 == 0
  {
  }

  ghost predicate Placement(limit: nat, ipaNext: nat, ms: seq<Mapping>, x: nat) {
    limit <= x && ipaNext <= x && x + 0x4000_0000 < 0x1_0000_0000_0000_0000 && ClearOf(ms, x, 0x4000_0000)
  }

  /** The lowest place for a new segment. */
  ghost predicate LowestPlacement(limit: nat, ipaNext: nat, ms: seq<Mapping>, x: nat) {
    Placement(limit, ipaNext, ms, x) && forall y: nat :: Placement(limit, ipaNext, ms, y) ==> x <= y
  }

  ghost predicate Sound(limit: nat, ms: seq<Mapping>, os: seq<Overflow>, ipaNext: nat) {
    && |ms| <= 8 && |os| <= 4 && AllDisjoint(limit, ms, os)
    && (forall i :: 0 <= i < |ms| ==> ms[i].size > 0 && ms[i].gpa + ms[i].size < 0x1_0000_0000_0000_0000)
    && (forall i :: 0 <= i < |os| ==>
          && os[i].size == 0x4000_0000 && os[i].start + os[i].size < 0x1_0000_0000_0000_0000
          && os[i].start + os[i].size <= ipaNext && os[i].next <= os[i].size && os[i].next % 0x20_0000 == 0)
  }

  class Space {
    /** The primary slab's size. */
    const limit: nat
    var mappings: seq<Mapping>
    var overflow: seq<Overflow>
    var ipaNext: nat
    /** The blocks handed out since overflow segments were last released. */
    ghost var handed: set<nat>

    ghost predicate Valid()
      reads this
    {
      && limit < 0x1_0000_0000_0000_0000 && ipaNext < 0x1_0000_0000_0000_0000
      && Sound(limit, mappings, overflow, ipaNext)
      && forall x :: x in handed <==> Handed(overflow, x)
    }

    constructor (size: nat)
      requires size < 0x1_0000_0000_0000_0000
      ensures Valid() && limit == ipaNext == size && mappings == [] && overflow == [] && handed == {}
    {
      limit, mappings, overflow, ipaNext, handed := size, [], [], size, {};
    }

    /** guest_mapping_overlaps. */
    method MappingOverlaps(gpa: nat, size: nat) returns (r: bool)
      requires Valid()
      ensures !r <==> Free(limit, mappings, overflow, gpa, size)
    {
      if size == 0 || gpa + size >= 0x1_0000_0000_0000_0000 || gpa < limit {
        return true;
      }
      for i := 0 to |mappings|
        invariant forall k :: 0 <= k < i ==>
          Disjoint(gpa, gpa + size, mappings[k].gpa, mappings[k].gpa + mappings[k].size)
      {
        if gpa < mappings[i].gpa + mappings[i].size && mappings[i].gpa < gpa + size {
          return true;
        }
      }
      for i := 0 to |overflow|
        invariant forall k :: 0 <= k < i ==>
          Disjoint(gpa, gpa + size, overflow[k].start, overflow[k].start + overflow[k].size)
      {
        if gpa < overflow[i].start + overflow[i].size && overflow[i].start < gpa + size {
          return true;
        }
      }
      return false;
    }

    /** guest_add_mapping; `host` says that the host side of it worked. */
    method AddMapping(gpa: nat, size: nat, host: bool) returns (ok: bool)
      requires Valid()
      modifies this`mappings
      ensures Valid()
      ensures ok <==>
        && gpa % 4096 == 0 && size % 4096 == 0 && old(|mappings|) < 8
        && Free(limit, old(mappings), overflow, gpa, size) && host
      ensures mappings == if ok then old(mappings) + [Mapping(gpa, size)] else old(mappings)
    {
      if size == 0 || gpa % 4096 != 0 || size % 4096 != 0 || |mappings| >= 8 {
        return false;
      }
      var clash := MappingOverlaps(gpa, size);
      if clash || !host {
        return false;
      }
      AddKeepsDisjoint(limit, mappings, overflow, gpa, size, 0);
      mappings := mappings + [Mapping(gpa, size)];
      return true;
    }

    /** Everything a block's alignment depends on is 2 MiB-aligned. */
    ghost predicate Aligned()
      reads this
    {
      && limit % 0x20_0000 == 0 && ipaNext % 0x20_0000 == 0
      && (forall i :: 0 <= i < |mappings| ==> (mappings[i].gpa + mappings[i].size) % 0x20_0000 == 0)
      && (forall i :: 0 <= i < |overflow| ==> overflow[i].start % 0x20_0000 == 0)
    }

    /** The first segment with a block left. */
    method FindRoom() returns (i: int)
      requires Valid()
      ensures -1 <= i < |overflow|
      ensures if i < 0 then !HasRoom(overflow) else FirstWithRoom(overflow, i)
    {
      for k := 0 to |overflow|
        invariant forall q :: 0 <= q < k ==> !Roomy(overflow[q])
      {
        if Roomy(overflow[k]) {
          return k;
        }
      }
      return -1;
    }

    /** Hand out the next block of segment `i`. */
    method TakeBlock(i: nat) returns (x: nat)
      requires Valid() && i < |overflow| && Roomy(overflow[i])
      modifies this`overflow, this`handed
      ensures Valid() && overflow == old(overflow)[i := Advance(old(overflow)[i])] && handed == old(handed) + {x}
      ensures BlockOf(overflow[i], x) && !BlockOf(old(overflow)[i], x) && (old(Aligned()) ==> Aligned())
      ensures forall y :: y in old(handed) ==> Disjoint(y, y + 0x20_0000, x, x + 0x20_0000)
    {
      hide Sound, Handed;
      x := overflow[i].start + overflow[i].next;
      NextBlock(limit, mappings, overflow, ipaNext, i);
      overflow := overflow[i := Advance(overflow[i])];
      handed := handed + {x};
    }

    /** Add a segment at `start` and hand out its first block. */
    method AddSegment(start: nat)
      requires Valid() && |overflow| < 4 && Free(limit, mappings, overflow, start, 0x4000_0000)
      requires ipaNext <= start
      modifies this`overflow, this`ipaNext, this`handed
      ensures Valid() && overflow == old(overflow) + [Overflow(start, 0x4000_0000, 0x20_0000)]
      ensures ipaNext == start + 0x4000_0000 && handed == old(handed) + {start}
      ensures old(Aligned()) && start % 0x20_0000 == 0 ==> Aligned()
      ensures forall y :: y in old(handed) ==> Disjoint(y, y + 0x20_0000, start, start + 0x20_0000)
    {
      FirstBlock(limit, mappings, overflow, ipaNext, start);
      overflow := overflow + [Overflow(start, 0x4000_0000, 0x20_0000)];
      ipaNext := start + 0x4000_0000;
      handed := handed + {start};
    }

    /** guest_overflow_alloc; `host` says that the host could provide a segment.  The
        block comes from segment `i`: the first with room, or a new one at the lowest
        place clear of the slab, the mappings and the segments. */
    method OverflowAlloc(host: bool) returns (r: Option<nat>, ghost i: nat)
      requires Valid()
      modifies this`overflow, this`ipaNext, this`handed
      ensures Valid()
      ensures r.None? <==>
        && !HasRoom(old(overflow))
        && (|old(overflow)| == 4 || !host || forall y: nat :: !Placement(limit, old(ipaNext), mappings, y))
      ensures r.None? ==> overflow == old(overflow) && ipaNext == old(ipaNext) && handed == old(handed)
      ensures r.Some? ==>
        && handed == old(handed) + {r.value}
        && (forall y :: y in old(handed) ==> Disjoint(y, y + 0x20_0000, r.value, r.value + 0x20_0000))
        && i < |overflow| && BlockOf(overflow[i], r.value)
        && (r.value % 0x20_0000 == 0 <==> overflow[i].start % 0x20_0000 == 0)
      ensures HasRoom(old(overflow)) ==>
        && FirstWithRoom(old(overflow), i) && overflow == old(overflow)[i := Advance(old(overflow)[i])]
        && ipaNext == old(ipaNext)
      ensures r.Some? && !HasRoom(old(overflow)) ==>
        && i == |old(overflow)| && overflow == old(overflow) + [Overflow(r.value, 0x4000_0000, 0x20_0000)]
        && ipaNext == r.value + 0x4000_0000 && LowestPlacement(limit, old(ipaNext), mappings, r.value)
      ensures r.Some? && old(Aligned()) ==> Aligned() && r.value % 0x20_0000 == 0
    {
      hide Sound, AllDisjoint, Handed, Roomy;
      var k := FindRoom();
      if k >= 0 {
        var x := TakeBlock(k);
        BlockAligned(overflow[k], x);
        return Some(x), k;
      }
      Sizes(limit, mappings, overflow, ipaNext);
      i := |overflow|;
      if |overflow| >= 4 {
        return None, i;
      }
      var from := if ipaNext < limit then limit else ipaNext;
      if from + 0x4000_0000 >= 0x1_0000_0000_0000_0000 {
        return None, i;
      }
      var at := SkipMappings(mappings, from, 0x4000_0000);
      if at.None? {
        return None, i;
      }
      if !host {
        return None, i;
      }
      PastSegments(limit, mappings, overflow, ipaNext, at.value);
      assert Placement(limit, ipaNext, mappings, at.value);
      AddSegment(at.value);
      return at, i;
    }

    /** release_extra_mappings. */
    method ReleaseMappings()
      requires Valid()
      modifies this`mappings
      ensures Valid() && mappings == []
    {
      mappings := [];
    }

    /** release_overflow_segments. */
    method ReleaseOverflow(anchor: nat)
      requires Valid() && anchor < 0x1_0000_0000_0000_0000
      modifies this`overflow, this`ipaNext, this`handed
      ensures Valid() && overflow == [] && handed == {} && ipaNext == anchor
    {
      overflow, ipaNext, handed := [], anchor, {};
    }
  }

  lemma Sizes(limit: nat, ms: seq<Mapping>, os: seq<Overflow>, ipaNext: nat)
    requires Sound(limit, ms, os, ipaNext)
    ensures |ms| <= 8 && |os| <= 4
  {
  }

  /** Every segment ends below the mark, so a placement at or after it is clear of them. */
  lemma PastSegments(limit: nat, ms: seq<Mapping>, os: seq<Overflow>, ipaNext: nat, x: nat)
    requires Sound(limit, ms, os, ipaNext) && ipaNext <= x && limit <= x && ClearOf(ms, x, 0x4000_0000)
    requires x + 0x4000_0000 < 0x1_0000_0000_0000_0000
    ensures Free(limit, ms, os, x, 0x4000_0000)
  {
  }

  lemma NextSound(limit: nat, ms: seq<Mapping>, os: seq<Overflow>, ipaNext: nat, i: nat)
    requires Sound(limit, ms, os, ipaNext) && i < |os| && Roomy(os[i])
    ensures Sound(limit, ms, os[i := Advance(os[i])], ipaNext)
  {
    var os' := os[i := Advance(os[i])];
    assert forall k :: 0 <= k < |os| ==> os'[k].start == os[k].start && os'[k].size == os[k].size;
  }

  /** The next block of a segment is clear of every block handed out. */
  lemma NextClear(limit: nat, ms: seq<Mapping>, os: seq<Overflow>, ipaNext: nat, i: nat, y: nat)
    requires Sound(limit, ms, os, ipaNext) && i < |os| && Roomy(os[i]) && Handed(os, y)
    ensures var x := os[i].start + os[i].next; Disjoint(y, y + 0x20_0000, x, x + 0x20_0000)
  {
    var k :| 0 <= k < |os| && BlockOf(os[k], y);
    assert k < i ==> Disjoint(os[k].start, os[k].start + os[k].size, os[i].start, os[i].start + os[i].size);
    assert k > i ==> Disjoint(os[i].start, os[i].start + os[i].size, os[k].start, os[k].start + os[k].size);
  }

  lemma NextBlock(limit: nat, ms: seq<Mapping>, os: seq<Overflow>, ipaNext: nat, i: nat)
    requires Sound(limit, ms, os, ipaNext) && i < |os| && Roomy(os[i])
    ensures var os' := os[i := Advance(os[i])]; var x := os[i].start + os[i].next;
      && Sound(limit, ms, os', ipaNext) && BlockOf(os'[i], x)
      && (forall y: nat :: Handed(os', y) <==> Handed(os, y) || y == x)
      && (forall y: nat :: Handed(os, y) ==> Disjoint(y, y + 0x20_0000, x, x + 0x20_0000))
  {
    hide AllDisjoint, Handed, Disjoint;
    var x, o' := os[i].start + os[i].next, Advance(os[i]);
    var os' := os[i := o'];
    NextSound(limit, ms, os, ipaNext, i);
    forall y: nat ensures Handed(os', y) <==> Handed(os, y) || y == x {
      NewBlock(os[i], y);
      HandedNext(os, os', i, y, x);
    }
    forall y: nat | Handed(os, y) ensures Disjoint(y, y + 0x20_0000, x, x + 0x20_0000) {
      NextClear(limit, ms, os, ipaNext, i, y);
    }
  }

  lemma NewBlock(o: Overflow, y: nat)
    requires o.next % 0x20_0000 == 0
    ensures BlockOf(Advance(o), y) <==> BlockOf(o, y) || y == o.start + o.next
  {
  }

  lemma HandedNext(os: seq<Overflow>, os': seq<Overflow>, i: nat, y: nat, x: nat)
    requires |os'| == |os| && i < |os| && (forall k :: 0 <= k < |os| && k != i ==> os'[k] == os[k])
    requires BlockOf(os'[i], y) <==> BlockOf(os[i], y) || y == x
    ensures Handed(os', y) <==> Handed(os, y) || y == x
  {
    hide BlockOf;
    if Handed(os, y) {
      var k :| 0 <= k < |os| && BlockOf(os[k], y);
      assert BlockOf(os'[k], y);
    }
    if Handed(os', y) {
      var k :| 0 <= k < |os| && BlockOf(os'[k], y);
      assert k != i ==> BlockOf(os[k], y);
    }
  }

  lemma FirstBlock(limit: nat, ms: seq<Mapping>, os: seq<Overflow>, ipaNext: nat, x: nat)
    requires Sound(limit, ms, os, ipaNext) && |os| < 4 && Free(limit, ms, os, x, 0x4000_0000) && ipaNext <= x
    ensures var os' := os + [Overflow(x, 0x4000_0000, 0x20_0000)];
      && Sound(limit, ms, os', x + 0x4000_0000) && BlockOf(os'[|os|], x)
      && (forall y: nat :: Handed(os', y) <==> Handed(os, y) || y == x)
      && (forall y: nat :: Handed(os, y) ==> Disjoint(y, y + 0x20_0000, x, x + 0x20_0000))
  {
    var o := Overflow(x, 0x4000_0000, 0x20_0000);
    var os' := os + [o];
    AddKeepsDisjoint(limit, ms, os, x, 0x4000_0000, 0x20_0000);
    forall y: nat ensures Handed(os', y) <==> Handed(os, y) || y == x {
      if Handed(os, y) {
        var k :| 0 <= k < |os| && BlockOf(os[k], y);
        assert BlockOf(os'[k], y);
      }
      if y == x {
        assert BlockOf(os'[|os|], x);
      }
    }
    forall y: nat | Handed(os, y) ensures Disjoint(y, y + 0x20_0000, x, x + 0x20_0000) {
      var k :| 0 <= k < |os| && BlockOf(os[k], y);
    }
  }

  /** With one page mapped right behind a 2 MiB-aligned slab, the lowest place for a
      segment is behind that page. */
  lemma BehindPage(limit: nat)
    requires limit + 0x4000_1000 < 0x1_0000_0000_0000_0000
    ensures Free(limit, [], [], limit, 4096) && !HasRoom([])
    ensures var ms := [Mapping(limit, 4096)];
      && LowestPlacement(limit, limit, ms, limit + 4096) && Placement(limit, limit, ms, limit + 4096)
      && forall x: nat :: LowestPlacement(limit, limit, ms, x) ==> x == limit + 4096
  {
    var ms := [Mapping(limit, 4096)];
    forall y: nat | limit <= y < limit + 4096 ensures !ClearOf(ms, y, 0x4000_0000) {
      assert !Disjoint(y, y + 0x4000_0000, ms[0].gpa, ms[0].gpa + ms[0].size);
    }
  }

  /** A mapping need only be page-aligned, and a segment placed behind one starts at its
      end: the block handed out need not be 2 MiB-aligned. */
  method UnalignedBlock(limit: nat) returns (r: Option<nat>)
    requires limit % 0x20_0000 == 0 && limit + 0x4000_1000 < 0x1_0000_0000_0000_0000
    ensures r == Some(limit + 4096) && r.value % 0x20_0000 != 0
  {
    hide Sound, Handed, Free, HasRoom, LowestPlacement, Placement, BlockOf, FirstWithRoom;
    var space := new Space(limit);
    BehindPage(limit);
    var ok := space.AddMapping(limit, 4096, true);
    assert space.mappings == [Mapping(limit, 4096)];
    ghost var i;
    r, i := space.OverflowAlloc(true);
  }
}
