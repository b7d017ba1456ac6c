/** Tracked guest regions as a sorted sequence of intervals, the address map they
stand for, and the splitting and merging the tracker does on them. */
module Regions {
  import opened Descriptors

  /** LINUX_MAP_* flags; `rest` is every bit the tracker does not look at. */
  datatype Flags = Flags(anonymous: bool, shared: bool, noreserve: bool, rest: int)

  /** guest_region_t.  `fd` is the owned backing descriptor, or -1. */
  datatype Region = Region(
    start: nat, end: nat, gpa: nat, vma: nat, prot: Perms, flags: Flags, offset: nat, fd: int,
    noreserve: bool, backingRo: bool, inherited: bool, name: string)
  {
    predicate Has(x: nat) {
      start <= x < end
    }
  }

  /** What the tracker says about one address: the region's fields, with the
      backing address and file offset of that very byte.  An anonymous region's
      offset is meaningless and reads as 0. */
  datatype Attr = Attr(
    prot: Perms, flags: Flags, vma: nat, gpa: int, offset: int, file: Option<int>,
    noreserve: bool, backingRo: bool, inherited: bool, name: string)

  function FileOf(files: map<int, int>, fd: int): Option<int> {
    if fd in files then Some(files[fd]) else None
  }

  /** `files` gives the open file behind each descriptor. */
  function AttrOf(r: Region, files: map<int, int>, x: nat): Attr {
    Attr(r.prot, r.flags, r.vma, r.gpa + x - r.start,
         if r.flags.anonymous then 0 else r.offset + x - r.start,
         FileOf(files, r.fd),
         r.noreserve, r.backingRo, r.inherited, r.name)
  }

  /** Sorted by address, pairwise disjoint, none empty. */
  ghost predicate Sorted(rs: seq<Region>) {
    && (forall i :: 0 <= i < |rs| ==> rs[i].start < rs[i].end)
    && (forall i, j :: 0 <= i < j < |rs| ==> rs[i].end <= rs[j].start)
  }

  /** The region holding address `x`. */
  function Lookup(rs: seq<Region>, x: nat): (r: Option<Region>)
    ensures r.Some? ==> r.value in rs && r.value.Has(x)
  {
    if rs == [] then None else if rs[0].Has(x) then Some(rs[0]) else Lookup(rs[1..], x)
  }

  lemma {:induction false} LookupIs(rs: seq<Region>, i: nat, x: nat)
    requires Sorted(rs) && i < |rs| && rs[i].Has(x)
    ensures Lookup(rs, x) == Some(rs[i])
  {
    if i > 0 {
      assert rs[0].end <= rs[i].start;
      assert rs[1..][i - 1] == rs[i];
      LookupIs(rs[1..], i - 1, x);
    }
  }

  lemma {:induction false} LookupNone(rs: seq<Region>, x: nat)
    requires forall i :: 0 <= i < |rs| ==> !rs[i].Has(x)
    ensures Lookup(rs, x) == None
  {
    if rs != [] {
      LookupNone(rs[1..], x);
    }
  }

  /** guest_region_find: binary search of the sorted table. */
  method Find(rs: seq<Region>, x: nat) returns (r: Option<Region>)
    requires Sorted(rs)
    ensures r == Lookup(rs, x)
  {
    var lo, hi := 0, |rs| - 1;
    while lo <= hi
      invariant 0 <= lo <= |rs| && -1 <= hi < |rs|
      invariant forall i :: 0 <= i < |rs| && rs[i].Has(x) ==> lo <= i <= hi
      decreases hi - lo + 1
    {
      var mid := (lo + hi) / 2;
      if x < rs[mid].start {
        hi := mid - 1;
      } else if x >= rs[mid].end {
        lo := mid + 1;
      } else {
        LookupIs(rs, mid, x);
        return Some(rs[mid]);
      }
    }
    LookupNone(rs, x);
    return None;
  }

  /** The tracker's address map. */
  function At(rs: seq<Region>, files: map<int, int>, x: nat): Option<Attr> {
    match Lookup(rs, x)
    case None => None
    case Some(r) => Some(AttrOf(r, files, x))
  }

  /** A table is read left to right. */
  lemma {:induction false} AtConcat(a: seq<Region>, b: seq<Region>, files: map<int, int>, x: nat)
    ensures At(a + b, files, x) == if At(a, files, x).Some? then At(a, files, x) else At(b, files, x)
  {
    if a == [] {
      assert a + b == b;
    } else {
      assert (a + b)[1..] == a[1..] + b;
      AtConcat(a[1..], b, files, x);
    }
  }

  lemma AtCons(r: Region, rest: seq<Region>, files: map<int, int>, x: nat)
    ensures At([r] + rest, files, x) == if r.Has(x) then Some(AttrOf(r, files, x)) else At(rest, files, x)
  {
    assert ([r] + rest)[1..] == rest;
  }

  // ----- Owned descriptors -----

  ghost function FdOf(r: Region): multiset<int> {
    if r.fd >= 0 then multiset{r.fd} else multiset{}
  }

  /** The backing descriptors the table owns, each as often as it is owned. */
  ghost function FdBag(rs: seq<Region>): multiset<int> {
    if rs == [] then multiset{} else FdOf(rs[0]) + FdBag(rs[1..])
  }

  lemma {:induction false} FdBagConcat(a: seq<Region>, b: seq<Region>)
    ensures FdBag(a + b) == FdBag(a) + FdBag(b)
  {
    if a == [] {
      assert a + b == b;
    } else {
      assert (a + b)[1..] == a[1..] + b;
      FdBagConcat(a[1..], b);
    }
  }

  lemma FdBagCons(r: Region, rest: seq<Region>)
    ensures FdBag([r] + rest) == FdOf(r) + FdBag(rest)
  {
    assert ([r] + rest)[1..] == rest;
  }

  /** No descriptor is owned by two regions. */
  ghost predicate OwnedOnce(rs: seq<Region>) {
    forall fd :: FdBag(rs)[fd] <= 1
  }

  // ----- Merging -----

  predicate MergeableLayout(a: Region, b: Region) {
    && a.end == b.start && a.start <= a.end && a.gpa + (a.end - a.start) == b.gpa
    && a.prot == b.prot && a.flags == b.flags && a.fd == b.fd
    && a.noreserve == b.noreserve && a.backingRo == b.backingRo && a.inherited == b.inherited && a.name == b.name
    && ((a.flags.anonymous && b.flags.anonymous) || a.offset + (a.end - a.start) == b.offset)
  }

  predicate Mergeable(a: Region, b: Region) {
    a.vma == b.vma && MergeableLayout(a, b)
  }

  ghost predicate NoneMergeable(rs: seq<Region>) {
    forall i :: 0 <= i < |rs| - 1 ==> !Mergeable(rs[i], rs[i + 1])
  }

  /** Neighbours that could be merged meet only at these addresses. */
  ghost predicate QuietBut(rs: seq<Region>, at: set<nat>) {
    forall i :: 0 <= i < |rs| - 1 && Mergeable(rs[i], rs[i + 1]) ==> rs[i].end in at
  }

  /** try_merge_right at `i`, which is try_merge_left at `i + 1`. */
  function MergeAt(rs: seq<Region>, i: int): seq<Region> {
    if 0 <= i < |rs| - 1 && Mergeable(rs[i], rs[i + 1])
    then rs[..i] + [rs[i].(end := rs[i + 1].end)] + rs[i + 2..] else rs
  }

  /** Try to merge at `hi`, then at each smaller index down to `lo`. */
  function MergeDown(rs: seq<Region>, lo: int, hi: int): seq<Region>
    decreases hi - lo + 1
  {
    if hi < lo then rs else MergeDown(MergeAt(rs, hi), lo, hi - 1)
  }

  /** Where the regions of a merged table come from. */
  lemma MergedIndex(rs: seq<Region>, i: int, k: nat)
    requires 0 <= i < |rs| - 1 && Mergeable(rs[i], rs[i + 1]) && k < |rs| - 1
    ensures |MergeAt(rs, i)| == |rs| - 1
    ensures MergeAt(rs, i)[k] == if k < i then rs[k] else if k == i then rs[i].(end := rs[i + 1].end) else rs[k + 1]
  {
  }

  /** Merging writes slot `i` and closes the next one. */
  lemma MergedMoved(rs: seq<Region>, i: int)
    requires 0 <= i < |rs| - 1 && Mergeable(rs[i], rs[i + 1])
    ensures var ms := rs[i := rs[i].(end := rs[i + 1].end)]; MergeAt(rs, i) == ms[..i + 1] + ms[i + 2..]
  {
    hide Mergeable;
    var ms := rs[i := rs[i].(end := rs[i + 1].end)];
    assert ms[..i + 1] == rs[..i] + [ms[i]] && ms[i + 2..] == rs[i + 2..];
  }

  /** Where region `i` of a table merged at `hi` ended before. */
  function Before(hi: int, i: nat): nat {
    if i < hi then i else i + 1
  }

  lemma MergeKeepsOrder(rs: seq<Region>, i: int)
    requires Sorted(rs)
    ensures Sorted(MergeAt(rs, i)) && |MergeAt(rs, i)| <= |rs|
  {
    if 0 <= i < |rs| - 1 && Mergeable(rs[i], rs[i + 1]) {
      MergedSorted(rs, i);
    }
  }

  lemma MergedSorted(rs: seq<Region>, i: int)
    requires Sorted(rs) && 0 <= i < |rs| - 1 && Mergeable(rs[i], rs[i + 1])
    ensures Sorted(MergeAt(rs, i)) && |MergeAt(rs, i)| == |rs| - 1
  {
    hide MergeAt, Mergeable;
    var ms := MergeAt(rs, i);
    MergedIndex(rs, i, 0);
    forall k: nat | k < |ms|
      ensures ms[k].start == rs[if k <= i then k else k + 1].start && ms[k].end == rs[Before(i, k)].end
      ensures ms[k].start < ms[k].end
    {
      MergedIndex(rs, i, k);
      assert rs[i].start < rs[i].end <= rs[i + 1].start < rs[i + 1].end;
    }
    forall k, l | 0 <= k < l < |ms| ensures ms[k].end <= ms[l].start {
      assert rs[Before(i, k)].end <= rs[if l <= i then l else l + 1].start;
    }
  }

  /** A joined region says of each address what its halves said. */
  lemma JoinedSays(r: Region, r': Region, files: map<int, int>, x: nat)
    requires Mergeable(r, r') && r'.start < r'.end
    ensures var j := r.(end := r'.end);
            && (j.Has(x) <==> r.Has(x) || r'.Has(x))
            && (r.Has(x) ==> AttrOf(j, files, x) == AttrOf(r, files, x))
            && (r'.Has(x) ==> AttrOf(j, files, x) == AttrOf(r', files, x))
  {
  }

  lemma JoinKeepsMap(head: seq<Region>, r: Region, r': Region, rest: seq<Region>, files: map<int, int>, x: nat)
    requires Mergeable(r, r') && r'.start < r'.end
    ensures At(head + ([r.(end := r'.end)] + rest), files, x) == At(head + ([r] + ([r'] + rest)), files, x)
  {
    hide At, AttrOf, Mergeable;
    var j := r.(end := r'.end);
    AtConcat(head, [r] + ([r'] + rest), files, x);
    AtConcat(head, [j] + rest, files, x);
    AtCons(r, [r'] + rest, files, x);
    AtCons(r', rest, files, x);
    AtCons(j, rest, files, x);
    JoinedSays(r, r', files, x);
  }

  /** Merging never changes what any address says. */
  lemma MergeKeepsMap(rs: seq<Region>, i: int, files: map<int, int>, x: nat)
    requires Sorted(rs)
    ensures At(MergeAt(rs, i), files, x) == At(rs, files, x)
  {
    hide At, Mergeable;
    if 0 <= i < |rs| - 1 && Mergeable(rs[i], rs[i + 1]) {
      JoinKeepsMap(rs[..i], rs[i], rs[i + 1], rs[i + 2..], files, x);
      assert rs == rs[..i] + ([rs[i]] + ([rs[i + 1]] + rs[i + 2..]));
      assert MergeAt(rs, i) == rs[..i] + ([rs[i].(end := rs[i + 1].end)] + rs[i + 2..]);
    }
  }

  /** Only regions without a descriptor merge, so ownership does not move. */
  lemma MergeKeepsOwners(rs: seq<Region>, i: int)
    requires OwnedOnce(rs)
    ensures FdBag(MergeAt(rs, i)) == FdBag(rs)
  {
    hide Mergeable;
    if 0 <= i < |rs| - 1 && Mergeable(rs[i], rs[i + 1]) {
      var r, r', j, rest := rs[i], rs[i + 1], rs[i].(end := rs[i + 1].end), rs[i + 2..];
      assert rs == rs[..i] + ([r] + ([r'] + rest));
      assert MergeAt(rs, i) == rs[..i] + ([j] + rest);
      FdBagConcat(rs[..i], [r] + ([r'] + rest));
      FdBagConcat(rs[..i], [j] + rest);
      FdBagCons(r, [r'] + rest);
      FdBagCons(r', rest);
      FdBagCons(j, rest);
      assert r.fd == r'.fd by {
        SameFd(r, r');
      }
      assert FdBag(rs)[r.fd] <= 1;
    }
  }

  lemma SameFd(r: Region, r': Region)
    requires Mergeable(r, r')
    ensures r.fd == r'.fd
  {
  }

  /** Two tables that say the same of every address. */
  ghost predicate SaysSame(rs: seq<Region>, ms: seq<Region>) {
    forall files: map<int, int>, x: nat :: At(ms, files, x) == At(rs, files, x)
  }

  ghost predicate IdsBelow(rs: seq<Region>, bound: nat) {
    forall r :: r in rs ==> r.vma <= bound
  }

  lemma MergeKeepsIds(rs: seq<Region>, i: int, bound: nat)
    requires IdsBelow(rs, bound)
    ensures IdsBelow(MergeAt(rs, i), bound)
  {
  }

  /** A merging pass keeps order, owners, ids and the map. */
  lemma {:induction false} MergeDownKeeps(rs: seq<Region>, lo: int, hi: int, bound: nat)
    requires Sorted(rs) && OwnedOnce(rs) && IdsBelow(rs, bound)
    ensures var ms := MergeDown(rs, lo, hi);
            && Sorted(ms) && IdsBelow(ms, bound) && |ms| <= |rs|
            && FdBag(ms) == FdBag(rs) && SaysSame(rs, ms)
    decreases hi - lo + 1
  {
    hide Sorted, FdBag, At, MergeAt, IdsBelow;
    if hi >= lo {
      MergeKeepsOrder(rs, hi);
      MergeKeepsOwners(rs, hi);
      MergeKeepsIds(rs, hi, bound);
      MergeDownKeeps(MergeAt(rs, hi), lo, hi - 1, bound);
      forall files: map<int, int>, x: nat ensures At(MergeDown(rs, lo, hi), files, x) == At(rs, files, x) {
        MergeKeepsMap(rs, hi, files, x);
      }
    }
  }

  lemma {:induction false} MergeDownLength(rs: seq<Region>, lo: int, hi: int)
    ensures |MergeDown(rs, lo, hi)| <= |rs|
    decreases hi - lo + 1
  {
    if hi >= lo {
      MergeDownLength(MergeAt(rs, hi), lo, hi - 1);
    }
  }

  /** A joined region merges with a neighbour exactly when its outer half did. */
  lemma JoinedMerges(r: Region, r': Region, n: Region)
    requires Mergeable(r, r') && r'.start <= r'.end
    ensures Mergeable(r.(end := r'.end), n) <==> Mergeable(r', n)
    ensures Mergeable(n, r.(end := r'.end)) <==> Mergeable(n, r)
  {
  }

  /** Pairs outside [lo, hi] can merge only at these addresses. */
  ghost predicate QuietButIn(rs: seq<Region>, lo: int, hi: int, at: set<nat>) {
    forall i :: 0 <= i < |rs| - 1 && (i < lo || hi < i) && Mergeable(rs[i], rs[i + 1]) ==> rs[i].end in at
  }

  /** Pair `i` of the merged table merges as the pair it was did, and where that did. */
  ghost predicate PairKept(rs: seq<Region>, ms: seq<Region>, hi: int, i: nat)
    requires |ms| == |rs| - 1 && i < |ms| - 1
  {
    var k := Before(hi, i);
    (Mergeable(ms[i], ms[i + 1]) <==> Mergeable(rs[k], rs[k + 1])) && ms[i].end == rs[k].end
  }

  lemma MergedPair(rs: seq<Region>, hi: int, i: nat)
    requires Sorted(rs) && 0 <= hi < |rs| - 1 && Mergeable(rs[hi], rs[hi + 1]) && i < |rs| - 2
    ensures |MergeAt(rs, hi)| == |rs| - 1 && PairKept(rs, MergeAt(rs, hi), hi, i)
  {
    hide Mergeable, MergeAt, Sorted;
    var ms := MergeAt(rs, hi);
    MergedIndex(rs, hi, i);
    MergedIndex(rs, hi, i + 1);
    NoneEmpty(rs, hi + 1);
    if i == hi {
      JoinedMerges(rs[hi], rs[hi + 1], rs[hi + 2]);
    } else if i == hi - 1 {
      JoinedMerges(rs[hi], rs[hi + 1], rs[hi - 1]);
    }
  }

  lemma NoneEmpty(rs: seq<Region>, i: nat)
    requires Sorted(rs) && i < |rs|
    ensures rs[i].start < rs[i].end
  {
  }

  lemma MergeAtNarrows(rs: seq<Region>, lo: int, hi: int, at: set<nat>)
    requires Sorted(rs) && lo <= hi
    ensures QuietButIn(MergeAt(rs, hi), lo, hi - 1, at) <==> QuietButIn(rs, lo, hi, at)
  {
    if 0 <= hi < |rs| - 1 && Mergeable(rs[hi], rs[hi + 1]) {
      NarrowsMerged(rs, lo, hi, at);
    } else {
      hide Mergeable;
    }
  }

  lemma NarrowsMerged(rs: seq<Region>, lo: int, hi: int, at: set<nat>)
    requires Sorted(rs) && lo <= hi && 0 <= hi < |rs| - 1 && Mergeable(rs[hi], rs[hi + 1])
    ensures QuietButIn(MergeAt(rs, hi), lo, hi - 1, at) <==> QuietButIn(rs, lo, hi, at)
  {
    hide Mergeable, Sorted, MergeAt, PairKept, QuietButIn;
    var ms := MergeAt(rs, hi);
    MergedIndex(rs, hi, 0);
    forall i: nat | i < |ms| - 1 ensures PairKept(rs, ms, hi, i) {
      MergedPair(rs, hi, i);
    }
    NarrowsOver(rs, ms, lo, hi, at);
  }

  lemma NarrowsOver(rs: seq<Region>, ms: seq<Region>, lo: int, hi: int, at: set<nat>)
    requires lo <= hi && 0 <= hi < |rs| - 1 && |ms| == |rs| - 1
    requires forall i: nat :: i < |ms| - 1 ==> PairKept(rs, ms, hi, i)
    ensures QuietButIn(ms, lo, hi - 1, at) <==> QuietButIn(rs, lo, hi, at)
  {
    hide Mergeable;
    if QuietButIn(ms, lo, hi - 1, at) {
      forall k | 0 <= k < |rs| - 1 && (k < lo || hi < k) && Mergeable(rs[k], rs[k + 1]) ensures rs[k].end in at {
        var i: nat := if k < hi then k else k - 1;
        assert PairKept(rs, ms, hi, i);
      }
    }
    if QuietButIn(rs, lo, hi, at) {
      forall i: nat | i < |ms| - 1 && (i < lo || hi - 1 < i) && Mergeable(ms[i], ms[i + 1]) ensures ms[i].end in at {
        assert PairKept(rs, ms, hi, i);
      }
    }
  }

  /** After a merging pass, exactly the pairs outside its window can still merge. */
  lemma {:induction false} MergeDownSettles(rs: seq<Region>, lo: int, hi: int, at: set<nat>)
    requires Sorted(rs)
    ensures QuietBut(MergeDown(rs, lo, hi), at) <==> QuietButIn(rs, lo, hi, at)
    decreases hi - lo + 1
  {
    hide Mergeable, MergeAt, Sorted;
    if hi >= lo {
      MergeAtNarrows(rs, lo, hi, at);
      MergeKeepsOrder(rs, hi);
      MergeDownSettles(MergeAt(rs, hi), lo, hi - 1, at);
    }
  }

  // ----- Adding -----

  /** The id a new mapping takes over from a neighbour it could merge with. */
  function Adopted(rs: seq<Region>, i: nat, r: Region): nat
    requires i <= |rs|
  {
    if i > 0 && MergeableLayout(rs[i - 1], r) then rs[i - 1].vma
    else if i < |rs| && MergeableLayout(r, rs[i]) then rs[i].vma
    else r.vma
  }

  ghost predicate Apart(rs: seq<Region>, start: nat, end: nat) {
    forall k :: 0 <= k < |rs| ==> rs[k].end <= start || end <= rs[k].start
  }

  /** `i` is the first index whose region starts at or after `start`. */
  ghost predicate LowerBound(rs: seq<Region>, start: nat, i: nat) {
    && i <= |rs|
    && (forall k :: 0 <= k < i ==> rs[k].start < start) && (forall k :: i <= k < |rs| ==> start <= rs[k].start)
  }

  function Inserted(rs: seq<Region>, i: nat, r: Region): seq<Region>
    requires i <= |rs|
  {
    rs[..i] + ([r] + rs[i..])
  }

  lemma InsertKeepsOrder(rs: seq<Region>, i: nat, r: Region)
    requires Sorted(rs) && r.start < r.end && Apart(rs, r.start, r.end) && LowerBound(rs, r.start, i)
    ensures Sorted(Inserted(rs, i, r))
  {
    var ns := Inserted(rs, i, r);
    assert forall k :: 0 <= k < |ns| ==> ns[k] == if k < i then rs[k] else if k == i then r else rs[k - 1];
  }

  /** Exactly the new interval changes. */
  lemma InsertSays(rs: seq<Region>, i: nat, r: Region, files: map<int, int>, x: nat)
    requires Apart(rs, r.start, r.end) && i <= |rs| && Sorted(rs)
    ensures At(Inserted(rs, i, r), files, x) == if r.Has(x) then Some(AttrOf(r, files, x)) else At(rs, files, x)
  {
    hide At, AttrOf;
    AtConcat(rs[..i], [r] + rs[i..], files, x);
    AtCons(r, rs[i..], files, x);
    AtConcat(rs[..i], rs[i..], files, x);
    assert rs[..i] + rs[i..] == rs;
    if r.Has(x) {
      NoneAt(rs[..i], files, x);
    }
  }

  lemma NoneAt(rs: seq<Region>, files: map<int, int>, x: nat)
    requires forall k :: 0 <= k < |rs| ==> !rs[k].Has(x)
    ensures At(rs, files, x) == None
  {
    LookupNone(rs, x);
  }

  lemma InsertOwners(rs: seq<Region>, i: nat, r: Region)
    requires i <= |rs|
    ensures FdBag(Inserted(rs, i, r)) == FdBag(rs) + FdOf(r)
  {
    hide FdBag;
    FdBagConcat(rs[..i], [r] + rs[i..]);
    FdBagCons(r, rs[i..]);
    FdBagConcat(rs[..i], rs[i..]);
    assert rs[..i] + rs[i..] == rs;
  }

  lemma InsertMergeable(rs: seq<Region>, i: nat, r: Region, at: set<nat>)
    requires QuietBut(rs, at) && i <= |rs|
    ensures QuietButIn(Inserted(rs, i, r), i - 1, i, at)
  {
    hide Mergeable;
    var ns := Inserted(rs, i, r);
    forall k | 0 <= k < |ns| - 1 && (k < i - 1 || i < k) && Mergeable(ns[k], ns[k + 1]) ensures ns[k].end in at {
      if k > i {
        assert ns[k] == rs[k - 1] && ns[k + 1] == rs[k];
      } else {
        assert ns[k] == rs[k] && ns[k + 1] == rs[k + 1];
      }
    }
  }
}
