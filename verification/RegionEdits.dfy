/** What removing an address range and re-protecting one do to the region table,
as functions on the table, and what they do to the address map. */
module RegionEdits {
  import opened Descriptors
  import opened Regions

  /** Sorted, read from the left: every region starts at or after `lo`. */
  ghost predicate SortedFrom(rs: seq<Region>, lo: nat) {
    rs == [] || (lo <= rs[0].start < rs[0].end && SortedFrom(rs[1..], rs[0].end))
  }

  lemma {:induction false} SortedFromIndex(rs: seq<Region>, lo: nat)
    requires SortedFrom(rs, lo)
    ensures Sorted(rs) && forall k :: 0 <= k < |rs| ==> lo <= rs[k].start
  {
    if rs != [] {
      SortedFromIndex(rs[1..], rs[0].end);
      assert forall k :: 1 <= k < |rs| ==> rs[k] == rs[1..][k - 1];
    }
  }

  lemma {:induction false} SortedIsFrom(rs: seq<Region>, lo: nat)
    requires Sorted(rs) && (rs != [] ==> lo <= rs[0].start)
    ensures SortedFrom(rs, lo)
  {
    if rs != [] {
      assert forall k :: 1 <= k < |rs| ==> rs[k] == rs[1..][k - 1];
      SortedIsFrom(rs[1..], rs[0].end);
    }
  }

  function Head(r: Region, end: nat): Region {
    r.(end := end)
  }

  function Tail(r: Region, start: nat): Region
    requires r.start <= start
  {
    r.(start := start, offset := r.offset + (start - r.start), gpa := r.gpa + (start - r.start))
  }

  // ----- Removing -----

  /** What is left of one region when [s, e) goes.  With the table full, the tail of
      a region cut in the middle is dropped; otherwise it owns `fd`, a duplicate of
      the region's descriptor. */
  function Cut(r: Region, s: nat, e: nat, full: bool, fd: int): seq<Region> {
    if r.end <= s || e <= r.start then [r]
    else
      (if r.start < s then [Head(r, s)] else []) +
      (if r.end <= e || (r.start < s && full) then []
       else [Tail(r, e).(fd := if r.start < s && r.fd >= 0 then fd else r.fd)])
  }

  function Removed(rs: seq<Region>, s: nat, e: nat, full: bool, fd: int): seq<Region> {
    if rs == [] then [] else Cut(rs[0], s, e, full, fd) + Removed(rs[1..], s, e, full, fd)
  }

  /** A region cut in the middle. */
  predicate Straddles(r: Region, s: nat, e: nat) {
    r.start < s && e < r.end
  }

  /** A region that goes away altogether. */
  predicate Swallowed(r: Region, s: nat, e: nat) {
    s <= r.start && r.end <= e
  }

  lemma {:induction false} RemovedSorted(rs: seq<Region>, lo: nat, s: nat, e: nat, full: bool, fd: int)
    requires SortedFrom(rs, lo) && s < e
    ensures SortedFrom(Removed(rs, s, e, full, fd), lo)
  {
    if rs != [] {
      var rest := Removed(rs[1..], s, e, full, fd);
      RemovedSorted(rs[1..], rs[0].end, s, e, full, fd);
      CutSorted(rs[0], rest, lo, s, e, full, fd);
    }
  }

  lemma CutSorted(r: Region, rest: seq<Region>, lo: nat, s: nat, e: nat, full: bool, fd: int)
    requires lo <= r.start < r.end && SortedFrom(rest, r.end) && s < e
    ensures SortedFrom(Cut(r, s, e, full, fd) + rest, lo)
  {
    var c := Cut(r, s, e, full, fd);
    if |c| == 0 {
      assert c + rest == rest;
      Weaken(rest, r.end, lo);
    } else if |c| == 1 {
      assert (c + rest)[1..] == rest;
      Weaken(rest, r.end, c[0].end);
    } else {
      assert (c + rest)[1..] == [c[1]] + rest;
      assert ([c[1]] + rest)[1..] == rest;
    }
  }

  lemma Weaken(rs: seq<Region>, lo: nat, lo': nat)
    requires SortedFrom(rs, lo) && lo' <= lo
    ensures SortedFrom(rs, lo')
  {
  }

  /** Removing empties [s, e) and leaves every other address as it was. */
  lemma {:induction false} RemovedSays(rs: seq<Region>, s: nat, e: nat, full: bool, fd: int, files: map<int, int>,
                                       x: nat)
    requires s < e
    requires forall r :: r in rs && Straddles(r, s, e) ==>
      !full && (r.fd >= 0 ==> FileOf(files, fd) == FileOf(files, r.fd))
    ensures At(Removed(rs, s, e, full, fd), files, x) == if s <= x < e then None else At(rs, files, x)
  {
    if rs != [] {
      var c, rest := Cut(rs[0], s, e, full, fd), Removed(rs[1..], s, e, full, fd);
      RemovedSays(rs[1..], s, e, full, fd, files, x);
      AtConcat(c, rest, files, x);
      AtCons(rs[0], rs[1..], files, x);
      assert [rs[0]] + rs[1..] == rs;
      CutSays(rs[0], s, e, full, fd, files, x);
    }
  }

  lemma CutSays(r: Region, s: nat, e: nat, full: bool, fd: int, files: map<int, int>, x: nat)
    requires s < e
    requires Straddles(r, s, e) ==> !full && (r.fd >= 0 ==> FileOf(files, fd) == FileOf(files, r.fd))
    ensures At(Cut(r, s, e, full, fd), files, x)
         == if r.Has(x) && !(s <= x < e) then Some(AttrOf(r, files, x)) else None
  {
    hide At, AttrOf;
    if r.end <= s || e <= r.start {
      OneSays(r, files, x);
      return;
    }
    CutCases(r, s, e, full, fd);
    hide Cut;
    HeadSays(r, s, files, x);
    TailSays(r, e, r.fd, files, x);
    if Straddles(r, s, e) {
      var h, t := Head(r, s), Dup(Tail(r, e), fd);
      TailSays(r, e, t.fd, files, x);
      assert [h, t] == [h] + [t] && t == Tail(r, e).(fd := t.fd);
      AtConcat([h], [t], files, x);
    } else if Swallowed(r, s, e) {
      NoneAt([], files, x);
    }
  }

  lemma HeadSays(r: Region, s: nat, files: map<int, int>, x: nat)
    ensures Head(r, s).Has(x) <==> r.start <= x < s
    ensures At([Head(r, s)], files, x) == if r.start <= x < s then Some(AttrOf(r, files, x)) else None
  {
    OneSays(Head(r, s), files, x);
  }

  lemma TailSays(r: Region, e: nat, fd: int, files: map<int, int>, x: nat)
    requires r.start <= e && FileOf(files, fd) == FileOf(files, r.fd)
    ensures At([Tail(r, e).(fd := fd)], files, x) == if e <= x < r.end then Some(AttrOf(r, files, x)) else None
  {
    OneSays(Tail(r, e).(fd := fd), files, x);
  }

  lemma OneSays(r: Region, files: map<int, int>, x: nat)
    ensures At([r], files, x) == if r.Has(x) then Some(AttrOf(r, files, x)) else None
  {
  }

  /** Regions clear of [s, e) are not touched. */
  lemma {:induction false} RemovedClear(rs: seq<Region>, s: nat, e: nat, full: bool, fd: int)
    requires forall k :: 0 <= k < |rs| ==> rs[k].end <= s || e <= rs[k].start
    ensures Removed(rs, s, e, full, fd) == rs
  {
    if rs != [] {
      assert forall k :: 0 <= k < |rs| - 1 ==> rs[1..][k] == rs[k + 1];
      RemovedClear(rs[1..], s, e, full, fd);
    }
  }

  /** What is left is clear of [s, e). */
  lemma {:induction false} RemovedApart(rs: seq<Region>, s: nat, e: nat, full: bool, fd: int)
    requires s < e
    ensures Apart(Removed(rs, s, e, full, fd), s, e)
  {
    if rs != [] {
      RemovedApart(rs[1..], s, e, full, fd);
      var c, rest := Cut(rs[0], s, e, full, fd), Removed(rs[1..], s, e, full, fd);
      assert forall k :: 0 <= k < |c| ==> c[k].end <= s || e <= c[k].start;
      assert forall k :: |c| <= k < |c + rest| ==> (c + rest)[k] == rest[k - |c|];
    }
  }

  /** At most one region is cut in two. */
  lemma {:induction false} RemovedLength(rs: seq<Region>, lo: nat, s: nat, e: nat, full: bool, fd: int)
    requires SortedFrom(rs, lo) && s < e
    ensures |Removed(rs, s, e, full, fd)| <= |rs| + 1
  {
    if rs != [] {
      var rest := rs[1..];
      if Straddles(rs[0], s, e) {
        SortedFromIndex(rest, rs[0].end);
        RemovedClear(rest, s, e, full, fd);
      } else {
        RemovedLength(rest, rs[0].end, s, e, full, fd);
      }
    }
  }

  lemma {:induction false} RemovedConcat(a: seq<Region>, b: seq<Region>, s: nat, e: nat, full: bool, fd: int)
    ensures Removed(a + b, s, e, full, fd) == Removed(a, s, e, full, fd) + Removed(b, s, e, full, fd)
  {
    if a == [] {
      assert a + b == b;
    } else {
      assert (a + b)[1..] == a[1..] + b;
      RemovedConcat(a[1..], b, s, e, full, fd);
    }
  }

  lemma RemovedPrefix(rs: seq<Region>, k: nat, s: nat, e: nat, full: bool, fd: int)
    requires k <= |rs| && forall i :: 0 <= i < k ==> rs[i].end <= s
    ensures Removed(rs, s, e, full, fd) == rs[..k] + Removed(rs[k..], s, e, full, fd)
  {
    hide Removed, Cut;
    RemovedConcat(rs[..k], rs[k..], s, e, full, fd);
    RemovedClear(rs[..k], s, e, full, fd);
    assert rs[..k] + rs[k..] == rs;
  }

  /** Cut, by the two questions the loop asks of an overlapping region. */
  lemma CutCases(r: Region, s: nat, e: nat, full: bool, fd: int)
    requires s < r.end && r.start < e && s < e
    ensures Cut(r, s, e, full, fd) ==
      if r.start < s then
        if e < r.end && !full then [Head(r, s), Dup(Tail(r, e), fd)] else [Head(r, s)]
      else if e < r.end then [Tail(r, e)] else []
  {
  }

  lemma CutOwners(r: Region, s: nat, e: nat, full: bool, fd: int)
    requires s < r.end && r.start < e && s < e
    ensures FdBag(Cut(r, s, e, full, fd)) ==
      if Swallowed(r, s, e) then multiset{}
      else if Straddles(r, s, e) && !full then FdOf(r) + FdOf(Dup(Tail(r, e), fd))
      else FdOf(r)
  {
    CutCases(r, s, e, full, fd);
    var h, t := Head(r, s), Dup(Tail(r, e), fd);
    FdBagOne(h);
    FdBagOne(t);
    FdBagOne(Tail(r, e));
    assert [h, t] == [h] + [t];
    FdBagCons(h, [t]);
    hide Cut, FdBag;
    assert FdBag([]) == multiset{} by {
      FdBagNone();
    }
  }

  lemma FdBagOne(r: Region)
    ensures FdBag([r]) == FdOf(r)
  {
  }

  lemma FdBagNone()
    ensures FdBag([]) == multiset{}
  {
  }

  /** Some region is cut in the middle. */
  ghost predicate AnyStraddles(rs: seq<Region>, s: nat, e: nat) {
    exists r :: r in rs && Straddles(r, s, e)
  }

  ghost function Bag(fd: int): multiset<int> {
    if fd >= 0 then multiset{fd} else multiset{}
  }

  /** A removal in progress: `done` is finished, `rest` is still to be cut; `owned` is
      what is owned now, the reserved duplicate included. */
  ghost predicate Removing(was: seq<Region>, done: seq<Region>, rest: seq<Region>, owned: multiset<int>,
                           s: nat, e: nat, full: bool, fd: int) {
    && Removed(was, s, e, full, fd) == done + Removed(rest, s, e, full, fd)
    && owned == FdBag(done) + FdBag(rest) + Bag(fd)
    && Sorted(rest) && (forall r :: r in rest ==> s < r.end)
  }

  lemma SortedRest(r: Region, rest: seq<Region>)
    requires Sorted([r] + rest)
    ensures Sorted(rest) && forall k :: 0 <= k < |rest| ==> r.end <= rest[k].start
  {
    var rs := [r] + rest;
    assert rs[0] == r && forall k :: 0 <= k < |rest| ==> rest[k] == rs[k + 1];
  }

  lemma RemovedCons(r: Region, rest: seq<Region>, s: nat, e: nat, full: bool, fd: int)
    ensures Removed([r] + rest, s, e, full, fd) == Cut(r, s, e, full, fd) + Removed(rest, s, e, full, fd)
  {
    assert ([r] + rest)[1..] == rest;
  }

  lemma RemovingStart(was: seq<Region>, k: nat, s: nat, e: nat, full: bool, fd: int)
    requires Sorted(was) && k <= |was|
    requires (forall i :: 0 <= i < k ==> was[i].end <= s) && (forall i :: k <= i < |was| ==> s < was[i].end)
    ensures Removing(was, was[..k], was[k..], FdBag(was) + Bag(fd), s, e, full, fd)
  {
    hide Removed, Cut, FdBag, Sorted;
    RemovedPrefix(was, k, s, e, full, fd);
    assert was[..k] + was[k..] == was;
    FdBagConcat(was[..k], was[k..]);
    SortedSuffix(was, k);
  }

  lemma SortedSuffix(was: seq<Region>, k: nat)
    requires Sorted(was) && k <= |was|
    ensures Sorted(was[k..])
  {
    var rest := was[k..];
    assert forall i :: 0 <= i < |rest| ==> rest[i] == was[k + i];
  }

  lemma NoStraddlerBefore(was: seq<Region>, k: nat, s: nat, e: nat)
    requires s < e && k <= |was| && forall i :: 0 <= i < k ==> was[i].end <= s
    ensures AnyStraddles(was[k..], s, e) <==> AnyStraddles(was, s, e)
  {
    forall r | r in was && Straddles(r, s, e) ensures r in was[k..] {
      var i :| 0 <= i < |was| && was[i] == r;
      assert was[k..][i - k] == r;
    }
  }

  lemma RemovingStep(was: seq<Region>, done: seq<Region>, r: Region, rest: seq<Region>, owned: multiset<int>,
                     s: nat, e: nat, full: bool, fd: int)
    requires Removing(was, done, [r] + rest, owned, s, e, full, fd) && s < e && r.start < e
    requires !(Straddles(r, s, e) && !full)
    ensures Removing(was, done + Cut(r, s, e, full, fd), rest,
                     if Swallowed(r, s, e) && r.fd >= 0 then owned - multiset{r.fd} else owned, s, e, full, fd)
  {
    hide FdBag, Cut, Removed, Sorted, Straddles, Swallowed, Bag;
    assert r in [r] + rest && forall x :: x in rest ==> x in [r] + rest;
    StepOwners(done, r, rest, s, e, full, fd);
    SortedRest(r, rest);
    StepTable(done, r, rest, s, e, full, fd);
  }

  lemma StepTable(done: seq<Region>, r: Region, rest: seq<Region>, s: nat, e: nat, full: bool, fd: int)
    ensures done + Removed([r] + rest, s, e, full, fd) == done + Cut(r, s, e, full, fd) + Removed(rest, s, e, full, fd)
  {
    hide Cut, Removed;
    RemovedCons(r, rest, s, e, full, fd);
  }

  lemma StepOwners(done: seq<Region>, r: Region, rest: seq<Region>, s: nat, e: nat, full: bool, fd: int)
    requires s < e && s < r.end && r.start < e && !(Straddles(r, s, e) && !full)
    ensures var owned := FdBag(done) + FdBag([r] + rest) + Bag(fd);
      (if Swallowed(r, s, e) && r.fd >= 0 then owned - multiset{r.fd} else owned)
        == FdBag(done + Cut(r, s, e, full, fd)) + FdBag(rest) + Bag(fd)
  {
    hide FdBag, Cut, Straddles, Swallowed;
    FdBagCons(r, rest);
    FdBagConcat(done, Cut(r, s, e, full, fd));
    CutOwners(r, s, e, full, fd);
  }

  lemma RemovingHead(was: seq<Region>, done: seq<Region>, r: Region, rest: seq<Region>, owned: multiset<int>,
                     s: nat, e: nat, full: bool, fd: int)
    requires Removing(was, done, [r] + rest, owned, s, e, full, fd)
    ensures s < r.end && (r.fd >= 0 ==> r.fd in owned)
    ensures AnyStraddles([r] + rest, s, e) <==> Straddles(r, s, e) || AnyStraddles(rest, s, e)
  {
    assert r in [r] + rest;
    FdBagCons(r, rest);
  }

  /** Cutting a region in the middle finishes the removal. */
  lemma RemovingGrows(was: seq<Region>, done: seq<Region>, r: Region, rest: seq<Region>, owned: multiset<int>,
                      s: nat, e: nat, fd: int)
    requires Removing(was, done, [r] + rest, owned, s, e, false, fd) && s < e && Straddles(r, s, e)
    ensures Removed(was, s, e, false, fd) == done + Cut(r, s, e, false, fd) + rest
    ensures owned == if r.fd >= 0 then FdBag(done + Cut(r, s, e, false, fd) + rest)
                     else FdBag(done + Cut(r, s, e, false, fd) + rest) + Bag(fd)
  {
    hide FdBag, Cut, Removed, Sorted;
    var c := Cut(r, s, e, false, fd);
    assert r in [r] + rest;
    FdBagCons(r, rest);
    FdBagConcat(done, c);
    FdBagConcat(done + c, rest);
    CutOwners(r, s, e, false, fd);
    SortedRest(r, rest);
    RemovedCons(r, rest, s, e, false, fd);
    RemovedClear(rest, s, e, false, fd);
    assert done + (c + rest) == done + c + rest;
  }

  lemma RemovingEnds(was: seq<Region>, done: seq<Region>, rest: seq<Region>, owned: multiset<int>,
                     s: nat, e: nat, full: bool, fd: int)
    requires Removing(was, done, rest, owned, s, e, full, fd) && (rest != [] ==> e <= rest[0].start)
    requires s < e
    ensures Removed(was, s, e, full, fd) == done + rest && owned == FdBag(done + rest) + Bag(fd)
    ensures !AnyStraddles(rest, s, e)
  {
    RemovedClear(rest, s, e, full, fd);
    FdBagConcat(done, rest);
  }

  /** The leftmost survivor is the leftmost region, its head, or starts past `e`. */
  lemma {:induction false} RemovedFirst(rs: seq<Region>, lo: nat, s: nat, e: nat, full: bool, fd: int)
    requires SortedFrom(rs, lo) && s < e
    ensures var ms := Removed(rs, s, e, full, fd);
            ms != [] ==>
              && lo <= ms[0].start && rs != []
              && (e <= ms[0].start || (rs[0].start < s && (ms[0] == rs[0] || ms[0] == Head(rs[0], s))))
  {
    if rs != [] {
      RemovedFirst(rs[1..], rs[0].end, s, e, full, fd);
      var c, rest := Cut(rs[0], s, e, full, fd), Removed(rs[1..], s, e, full, fd);
      assert (c + rest) != [] ==> (c + rest)[0] == if c == [] then rest[0] else c[0];
    }
  }

  /** Removing brings no two mergeable regions together. */
  lemma {:induction false} RemovedQuiet(rs: seq<Region>, lo: nat, s: nat, e: nat, full: bool, fd: int, at: set<nat>)
    requires SortedFrom(rs, lo) && QuietBut(rs, at) && s < e
    requires forall r :: r in rs ==> r.fd != fd || fd < 0
    requires !full ==> forall r :: r in rs && Straddles(r, s, e) && r.fd >= 0 ==> fd >= 0
    ensures QuietBut(Removed(rs, s, e, full, fd), at)
  {
    hide Mergeable;
    if rs != [] {
      var r, rest := rs[0], rs[1..];
      var c, ms := Cut(r, s, e, full, fd), Removed(rest, s, e, full, fd);
      QuietRest(rs, at);
      RemovedQuiet(rest, r.end, s, e, full, fd, at);
      if c != [] && ms != [] {
        assert rest != [] ==> rest[0] in rs;
        JunctionQuiet(r, rest, lo, s, e, full, fd);
      }
      CutQuiet(r, s, e, full, fd, at);
      JoinQuiet(c, ms, at);
    }
  }

  lemma QuietRest(rs: seq<Region>, at: set<nat>)
    requires QuietBut(rs, at) && rs != []
    ensures QuietBut(rs[1..], at) && (|rs| > 1 && Mergeable(rs[0], rs[1]) ==> rs[0].end in at)
  {
    hide Mergeable;
    var rest := rs[1..];
    forall i | 0 <= i < |rest| - 1 && Mergeable(rest[i], rest[i + 1]) ensures rest[i].end in at {
      assert rest[i] == rs[i + 1] && rest[i + 1] == rs[i + 2];
    }
  }

  lemma CutQuiet(r: Region, s: nat, e: nat, full: bool, fd: int, at: set<nat>)
    requires s < e
    ensures QuietBut(Cut(r, s, e, full, fd), at)
  {
  }

  lemma JoinQuiet(a: seq<Region>, b: seq<Region>, at: set<nat>)
    requires QuietBut(a, at) && QuietBut(b, at)
    requires a != [] && b != [] && Mergeable(a[|a| - 1], b[0]) ==> a[|a| - 1].end in at
    ensures QuietBut(a + b, at)
  {
    hide Mergeable;
    var c := a + b;
    forall i | 0 <= i < |c| - 1 && Mergeable(c[i], c[i + 1]) ensures c[i].end in at {
      if i >= |a| {
        assert c[i] == b[i - |a|] && c[i + 1] == b[i - |a| + 1];
      }
    }
  }

  /** What meets where two regions met merges only if they did. */
  lemma JunctionQuiet(r: Region, rest: seq<Region>, lo: nat, s: nat, e: nat, full: bool, fd: int)
    requires SortedFrom(rest, r.end) && lo <= r.start < r.end && s < e
    requires rest != [] ==> rest[0].fd != fd || fd < 0
    requires !full && Straddles(r, s, e) && r.fd >= 0 ==> fd >= 0
    requires Cut(r, s, e, full, fd) != [] && Removed(rest, s, e, full, fd) != []
    ensures var c := Cut(r, s, e, full, fd); var last, first := c[|c| - 1], Removed(rest, s, e, full, fd)[0];
      rest != [] && (Mergeable(last, first) ==> Mergeable(r, rest[0]) && last.end == r.end)
  {
    RemovedFirst(rest, r.end, s, e, full, fd);
    if e < r.end {
      SortedFromIndex(rest, r.end);
      RemovedClear(rest, s, e, full, fd);
      hide Removed, SortedFrom;
      JunctionPast(r, rest[0], s, e, full, fd);
    } else {
      var first := Removed(rest, s, e, full, fd)[0];
      hide Removed, SortedFrom;
      JunctionBefore(r, first, s, e, full, fd);
      if first == Head(rest[0], s) {
        HeadMerges(r, rest[0], s);
      }
    }
  }

  /** A region that reaches past the range, and the one after it. */
  lemma JunctionPast(r: Region, next: Region, s: nat, e: nat, full: bool, fd: int)
    requires s < e < r.end <= next.start && (next.fd != fd || fd < 0)
    requires !full && Straddles(r, s, e) && r.fd >= 0 ==> fd >= 0
    requires Cut(r, s, e, full, fd) != []
    ensures var c := Cut(r, s, e, full, fd); var last := c[|c| - 1];
      Mergeable(last, next) ==> Mergeable(r, next) && last.end == r.end
  {
    if r.start < e {
      CutCases(r, s, e, full, fd);
      hide Cut;
      TailMerges(r, e, next);
    }
  }

  /** A region that ends in the range or before it, and what is left after it. */
  lemma JunctionBefore(r: Region, first: Region, s: nat, e: nat, full: bool, fd: int)
    requires r.start < r.end <= e && s < e && r.end <= first.start && Cut(r, s, e, full, fd) != []
    ensures var c := Cut(r, s, e, full, fd); var last := c[|c| - 1];
      Mergeable(last, first) ==> last == r && first.start < e
  {
    if s < r.end {
      CutCases(r, s, e, full, fd);
      hide Cut;
    }
  }

  // ----- Re-protecting -----

  /** A table, and whether a full table kept some address out of date. */
  datatype Edit = Edit(rs: seq<Region>, stale: bool)

  function Then(r: Region, rest: Edit): Edit {
    Edit([r] + rest.rs, rest.stale)
  }

  /** The split-off half of a file-backed region owns the duplicate `fd`, which is
      -1 when duplicating failed. */
  function Dup(r: Region, fd: int): Region {
    if r.fd >= 0 then r.(fd := fd) else r
  }

  /** guest_region_set_prot before merging: split at `s` and at `e` while the table
      has room, and give every region inside the new protection.  With no room the
      region crossing `s` is skipped, and the one crossing `e` is changed whole. */
  function Reprot(rs: seq<Region>, s: nat, e: nat, prot: Perms, room: nat, d1: int, d2: int): Edit
    requires s < e
    decreases |rs|, if rs != [] && rs[0].start < s then 1 else 0
  {
    if rs == [] then Edit([], false)
    else
      var r, rest := rs[0], rs[1..];
      if r.end <= s then Then(r, Reprot(rest, s, e, prot, room, d1, d2))
      else if e <= r.start then Edit(rs, false)
      else if r.start < s then
        if room == 0 then Then(r, Reprot(rest, s, e, prot, 0, d1, d2)).(stale := true)
        else Then(Head(r, s), Reprot([Dup(Tail(r, s), d1)] + rest, s, e, prot, room - 1, d1, d2))
      else if e < r.end then
        if room == 0 then Then(r.(prot := prot), Reprot(rest, s, e, prot, 0, d1, d2)).(stale := true)
        else Edit([Head(r, e).(prot := prot), Dup(Tail(r, e), d2)] + rest, false)
      else Then(r.(prot := prot), Reprot(rest, s, e, prot, room, d1, d2))
  }

  lemma {:induction false} ReprotSorted(rs: seq<Region>, lo: nat, s: nat, e: nat, prot: Perms, room: nat, d1: int,
                                        d2: int)
    requires SortedFrom(rs, lo) && s < e
    ensures SortedFrom(Reprot(rs, s, e, prot, room, d1, d2).rs, lo)
    ensures |Reprot(rs, s, e, prot, room, d1, d2).rs| <= |rs| + room
    decreases |rs|, if rs != [] && rs[0].start < s then 1 else 0
  {
    hide SortedFrom, Head, Tail, Dup;
    if rs == [] {
      SortedNone(lo);
    } else {
      var r, rest := rs[0], rs[1..];
      SortedUncons(rs, lo);
      if r.end <= s || (s <= r.start && r.end <= e) || (room == 0 && r.start < e) {
        ReprotSorted(rest, r.end, s, e, prot, room, d1, d2);
        SortedCons(r, Reprot(rest, s, e, prot, room, d1, d2).rs, lo);
        SortedCons(r.(prot := prot), Reprot(rest, s, e, prot, room, d1, d2).rs, lo);
      } else if r.start < e && r.start < s {
        var t := Dup(Tail(r, s), d1);
        HalvesMeet(r, s, d1);
        SortedCons(t, rest, s);
        ReprotSorted([t] + rest, s, s, e, prot, room - 1, d1, d2);
        SortedCons(Head(r, s), Reprot([t] + rest, s, e, prot, room - 1, d1, d2).rs, lo);
      } else if r.start < e {
        var h, t := Head(r, e).(prot := prot), Dup(Tail(r, e), d2);
        HalvesMeet(r, e, d2);
        assert [h, t] + rest == [h] + ([t] + rest);
        SortedCons(t, rest, e);
        SortedCons(h, [t] + rest, lo);
      } else {
        SortedCons(r, rest, lo);
      }
    }
  }

  lemma SortedNone(lo: nat)
    ensures SortedFrom([], lo)
  {
  }

  lemma SortedUncons(rs: seq<Region>, lo: nat)
    requires SortedFrom(rs, lo) && rs != []
    ensures lo <= rs[0].start < rs[0].end && SortedFrom(rs[1..], rs[0].end) && rs == [rs[0]] + rs[1..]
  {
  }

  lemma HalvesMeet(r: Region, m: nat, fd: int)
    requires r.start < m < r.end
    ensures Head(r, m).start == r.start && Head(r, m).end == m
    ensures var t := Dup(Tail(r, m), fd); t.start == m && t.end == r.end
  {
  }

  lemma SortedCons(r: Region, rest: seq<Region>, lo: nat)
    requires lo <= r.start < r.end && SortedFrom(rest, r.end)
    ensures SortedFrom([r] + rest, lo)
  {
    assert ([r] + rest)[1..] == rest;
  }

  function Reprotected(a: Option<Attr>, prot: Perms): Option<Attr> {
    match a case None => None case Some(attr) => Some(attr.(prot := prot))
  }

  /** A duplicate of the descriptor of any region crossing `x`. */
  ghost predicate DupFor(rs: seq<Region>, x: nat, fd: int, files: map<int, int>) {
    forall r :: r in rs && r.start < x < r.end && r.fd >= 0 ==> FileOf(files, fd) == FileOf(files, r.fd)
  }

  lemma {:induction false} NoneBelow(rs: seq<Region>, lo: nat, files: map<int, int>, x: nat)
    requires SortedFrom(rs, lo) && x < lo
    ensures At(rs, files, x) == None
  {
    SortedFromIndex(rs, lo);
    NoneAt(rs, files, x);
  }

  /** The two halves of a split region say what it said. */
  lemma HalvesSay(r: Region, m: nat, fd: int, files: map<int, int>, x: nat)
    requires r.start < m < r.end && (r.fd >= 0 ==> FileOf(files, fd) == FileOf(files, r.fd))
    ensures r.Has(x) <==> Head(r, m).Has(x) || Dup(Tail(r, m), fd).Has(x)
    ensures Head(r, m).Has(x) ==> AttrOf(Head(r, m), files, x) == AttrOf(r, files, x) && x < m
    ensures Dup(Tail(r, m), fd).Has(x) ==> AttrOf(Dup(Tail(r, m), fd), files, x) == AttrOf(r, files, x) && m <= x
  {
  }

  lemma ProtSays(r: Region, prot: Perms, files: map<int, int>, x: nat)
    ensures AttrOf(r.(prot := prot), files, x) == AttrOf(r, files, x).(prot := prot)
  {
  }

  /** Unless the table ran full, re-protecting changes the protection of tracked
      addresses in [s, e) and nothing else. */
  lemma {:induction false} ReprotSays(rs: seq<Region>, lo: nat, s: nat, e: nat, prot: Perms, room: nat, d1: int,
                                      d2: int, files: map<int, int>, x: nat)
    requires SortedFrom(rs, lo) && s < e && !Reprot(rs, s, e, prot, room, d1, d2).stale
    requires DupFor(rs, s, d1, files) && DupFor(rs, e, d2, files)
    ensures At(Reprot(rs, s, e, prot, room, d1, d2).rs, files, x)
         == if s <= x < e then Reprotected(At(rs, files, x), prot) else At(rs, files, x)
    decreases |rs|, if rs != [] && rs[0].start < s then 1 else 0
  {
    if rs == [] {
      return;
    }
    hide At, AttrOf, Dup, Tail, Head;
    var r, rest := rs[0], rs[1..];
    assert [r] + rest == rs;
    AtCons(r, rest, files, x);
    if r.end <= s {
      ReprotSays(rest, r.end, s, e, prot, room, d1, d2, files, x);
      AtCons(r, Reprot(rest, s, e, prot, room, d1, d2).rs, files, x);
    } else if e <= r.start {
      if x < e {
        NoneBelow(rs, r.start, files, x);
      }
    } else if r.start < s {
      ReprotSplitStart(rs, s, e, prot, room, d1, d2, files, x);
    } else if e < r.end {
      var h, t := Head(r, e), Dup(Tail(r, e), d2);
      HalvesSay(r, e, d2, files, x);
      assert [h.(prot := prot), t] + rest == [h.(prot := prot)] + ([t] + rest);
      AtCons(h.(prot := prot), [t] + rest, files, x);
      AtCons(t, rest, files, x);
      ProtSays(h, prot, files, x);
      if x < e {
        NoneBelow(rest, r.end, files, x);
      }
    } else {
      ReprotSays(rest, r.end, s, e, prot, room, d1, d2, files, x);
      AtCons(r.(prot := prot), Reprot(rest, s, e, prot, room, d1, d2).rs, files, x);
      ProtSays(r, prot, files, x);
    }
  }

  lemma {:induction false} ReprotSplitStart(rs: seq<Region>, s: nat, e: nat, prot: Perms, room: nat, d1: int, d2: int,
                                            files: map<int, int>, x: nat)
    requires rs != [] && SortedFrom(rs, rs[0].start) && s < e && rs[0].start < s < rs[0].end
    requires !Reprot(rs, s, e, prot, room, d1, d2).stale && DupFor(rs, s, d1, files) && DupFor(rs, e, d2, files)
    ensures At(Reprot(rs, s, e, prot, room, d1, d2).rs, files, x)
         == if s <= x < e then Reprotected(At(rs, files, x), prot) else At(rs, files, x)
    decreases |rs|, 1, 0
  {
    var r, rest := rs[0], rs[1..];
    var h, t := Head(r, s), Dup(Tail(r, s), d1);
    var rs' := [t] + rest;
    assert rs'[1..] == rest && [r] + rest == rs;
    ReprotSays(rs', s, s, e, prot, room - 1, d1, d2, files, x);
    hide At, AttrOf;
    AtCons(h, Reprot(rs', s, e, prot, room - 1, d1, d2).rs, files, x);
    AtCons(r, rest, files, x);
    AtCons(t, rest, files, x);
    HalvesSay(r, s, d1, files, x);
    if h.Has(x) {
      NoneBelow(rest, r.end, files, x);
    }
  }

  predicate Within(r: Region, s: nat, e: nat) {
    s <= r.start < e
  }

  lemma TailMerges(r: Region, m: nat, n: Region)
    requires r.start <= m <= r.end
    ensures Mergeable(Tail(r, m), n) <==> Mergeable(r, n)
  {
  }

  lemma HeadMerges(n: Region, r: Region, m: nat)
    ensures Mergeable(n, Head(r, m)) <==> Mergeable(n, r)
  {
  }

  lemma {:induction false} ReprotFirst(rs: seq<Region>, lo: nat, s: nat, e: nat, prot: Perms, room: nat, d1: int,
                                       d2: int)
    requires SortedFrom(rs, lo) && s < e
    ensures var ms := Reprot(rs, s, e, prot, room, d1, d2).rs;
            && (ms == [] <==> rs == [])
            && (ms != [] ==> ms[0].start == rs[0].start)
            && (ms != [] && !Within(ms[0], s, e) ==> ms[0] == rs[0] || ms[0] == Head(rs[0], s))
  {
  }

  /** Neighbours `i` and `i + 1` could be merged, and neither had its protection set. */
  predicate Pair(rs: seq<Region>, i: nat, s: nat, e: nat)
    requires i < |rs| - 1
  {
    !Within(rs[i], s, e) && !Within(rs[i + 1], s, e) && Mergeable(rs[i], rs[i + 1])
  }

  /** Neighbours whose protection was not set can be merged only at these addresses. */
  ghost predicate QuietOutside(rs: seq<Region>, s: nat, e: nat, at: set<nat>) {
    forall i: nat :: i < |rs| - 1 && Pair(rs, i, s, e) ==> rs[i].end in at
  }

  /** Putting a region in front adds one pair. */
  lemma QuietCons(r: Region, ms: seq<Region>, s: nat, e: nat, at: set<nat>)
    requires ms != [] && !Within(r, s, e) && !Within(ms[0], s, e) && Mergeable(r, ms[0]) ==> r.end in at
    ensures QuietOutside([r] + ms, s, e, at) <==> QuietOutside(ms, s, e, at)
  {
    var c := [r] + ms;
    forall i: nat | i < |ms| - 1 ensures Pair(c, i + 1, s, e) <==> Pair(ms, i, s, e) {
      hide Mergeable, Within;
    }
    assert ms != [] && Pair(c, 0, s, e) ==> r.end in at;
    hide Pair;
    if QuietOutside(ms, s, e, at) {
      forall i: nat | i < |c| - 1 && Pair(c, i, s, e) ensures c[i].end in at {
        assert i > 0 ==> Pair(ms, i - 1, s, e);
      }
    }
    if QuietOutside(c, s, e, at) {
      forall i: nat | i < |ms| - 1 && Pair(ms, i, s, e) ensures ms[i].end in at {
        assert Pair(c, i + 1, s, e);
      }
    }
  }

  /** Past the range nothing changes. */
  ghost predicate QuietPast(rs: seq<Region>, e: nat, at: set<nat>) {
    forall i :: 0 <= i < |rs| - 1 && e <= rs[i].start && Mergeable(rs[i], rs[i + 1]) ==> rs[i].end in at
  }

  lemma QuietPastRest(rs: seq<Region>, e: nat, at: set<nat>)
    requires QuietPast(rs, e, at) && rs != []
    ensures QuietPast(rs[1..], e, at)
  {
    hide Mergeable;
    var rest := rs[1..];
    forall i | 0 <= i < |rest| - 1 && e <= rest[i].start && Mergeable(rest[i], rest[i + 1]) ensures rest[i].end in at {
      assert rest[i] == rs[i + 1] && rest[i + 1] == rs[i + 2];
    }
  }

  lemma PastIsOutside(rs: seq<Region>, lo: nat, s: nat, e: nat, at: set<nat>)
    requires SortedFrom(rs, lo) && e <= lo
    ensures QuietOutside(rs, s, e, at) <==> QuietPast(rs, e, at)
  {
    SortedFromIndex(rs, lo);
  }

  /** The tail a region crossing `e` sheds, and whether region `i` sheds one the next
      region could be merged with: `spare` slots are left by then. */
  ghost predicate Sheds(rs: seq<Region>, e: nat, spare: nat, d2: int, i: nat) {
    && i < |rs| - 1 && rs[i].start < e < rs[i].end && spare > 0
    && Mergeable(Dup(Tail(rs[i], e), d2), rs[i + 1])
  }

  ghost predicate ShedsAt(rs: seq<Region>, e: nat, spare: nat, d2: int, at: set<nat>) {
    forall i: nat :: Sheds(rs, e, spare, d2, i) ==> rs[i].end in at
  }

  lemma ShedsRest(rs: seq<Region>, e: nat, spare: nat, d2: int, at: set<nat>)
    requires rs != [] && !Sheds(rs, e, spare, d2, 0)
    ensures ShedsAt(rs, e, spare, d2, at) <==> ShedsAt(rs[1..], e, spare, d2, at)
  {
    hide Mergeable, Dup, Tail;
    var rest := rs[1..];
    forall i: nat ensures Sheds(rest, e, spare, d2, i) <==> Sheds(rs, e, spare, d2, i + 1) {
    }
    if ShedsAt(rest, e, spare, d2, at) {
      forall i: nat | Sheds(rs, e, spare, d2, i) ensures rs[i].end in at {
        assert i > 0 && Sheds(rest, e, spare, d2, i - 1) && rest[i - 1] == rs[i];
      }
    }
  }

  /** Re-protecting a table that starts inside the range leaves, outside it, exactly the
      mergeable pair a shed tail makes. */
  lemma {:induction false} ReprotInner(rs: seq<Region>, lo: nat, s: nat, e: nat, prot: Perms, room: nat, d1: int,
                                       d2: int, at: set<nat>)
    requires SortedFrom(rs, lo) && s <= lo && s < e && QuietPast(rs, e, at)
    ensures QuietOutside(Reprot(rs, s, e, prot, room, d1, d2).rs, s, e, at) <==> ShedsAt(rs, e, room, d2, at)
    decreases |rs|
  {
    hide Mergeable, QuietOutside, ShedsAt, QuietPast;
    if rs == [] {
      EmptyQuiet(s, e, room, d2, at);
      return;
    }
    var r, rest := rs[0], rs[1..];
    if e <= r.start {
      PastSheds(rs, r.start, e, room, d2, at);
      PastIsOutside(rs, r.start, s, e, at);
      return;
    }
    QuietPastRest(rs, e, at);
    if r.end <= e || room == 0 {
      ReprotInner(rest, r.end, s, e, prot, room, d1, d2, at);
      ShedsRest(rs, e, room, d2, at);
      QuietCons(r.(prot := prot), Reprot(rest, s, e, prot, room, d1, d2).rs, s, e, at);
    } else {
      ReprotEnd(rs, lo, s, e, prot, room, d1, d2, at);
    }
  }

  lemma EmptyQuiet(s: nat, e: nat, spare: nat, d2: int, at: set<nat>)
    ensures QuietOutside([], s, e, at) && ShedsAt([], e, spare, d2, at)
  {
  }

  lemma PastSheds(rs: seq<Region>, lo: nat, e: nat, spare: nat, d2: int, at: set<nat>)
    requires SortedFrom(rs, lo) && e <= lo
    ensures ShedsAt(rs, e, spare, d2, at)
  {
    SortedFromIndex(rs, lo);
  }

  /** The region crossing the end of the range. */
  lemma ReprotEnd(rs: seq<Region>, lo: nat, s: nat, e: nat, prot: Perms, room: nat, d1: int, d2: int, at: set<nat>)
    requires SortedFrom(rs, lo) && s <= lo && s < e && QuietPast(rs, e, at)
    requires rs != [] && rs[0].start < e < rs[0].end && room > 0
    ensures QuietOutside(Reprot(rs, s, e, prot, room, d1, d2).rs, s, e, at) <==> ShedsAt(rs, e, room, d2, at)
  {
    hide Mergeable, QuietOutside, QuietPast;
    var r, rest := rs[0], rs[1..];
    var h, t := Head(r, e).(prot := prot), Dup(Tail(r, e), d2);
    assert Reprot(rs, s, e, prot, room, d1, d2).rs == [h] + ([t] + rest) by {
      assert [h, t] + rest == [h] + ([t] + rest);
    }
    hide Reprot, Head;
    QuietPastRest(rs, e, at);
    PastIsOutside(rest, r.end, s, e, at);
    PastSheds(rest, r.end, e, room, d2, at);
    QuietCons(h, [t] + rest, s, e, at);
    TailPair(r, rest, t, s, e, at);
    if rest != [] {
      assert Sheds(rs, e, room, d2, 0) <==> Mergeable(t, rest[0]);
    }
    ShedsFirst(rs, e, room, d2, at);
  }

  lemma ShedsFirst(rs: seq<Region>, e: nat, spare: nat, d2: int, at: set<nat>)
    requires rs != [] && ShedsAt(rs[1..], e, spare, d2, at)
    ensures ShedsAt(rs, e, spare, d2, at) <==> (Sheds(rs, e, spare, d2, 0) ==> rs[0].end in at)
  {
    hide Mergeable, Dup, Tail;
    var rest := rs[1..];
    if Sheds(rs, e, spare, d2, 0) ==> rs[0].end in at {
      forall i: nat | Sheds(rs, e, spare, d2, i) ensures rs[i].end in at {
        if i > 0 {
          assert Sheds(rest, e, spare, d2, i - 1) && rest[i - 1] == rs[i];
        }
      }
    }
  }

  lemma TailPair(r: Region, rest: seq<Region>, t: Region, s: nat, e: nat, at: set<nat>)
    requires SortedFrom(rest, r.end) && e < r.end && t.start == e && t.end == r.end && QuietOutside(rest, s, e, at)
    ensures QuietOutside([t] + rest, s, e, at) <==> (rest != [] && Mergeable(t, rest[0]) ==> r.end in at)
  {
    hide Mergeable;
    if rest != [] && Mergeable(t, rest[0]) && r.end !in at {
      var c := [t] + rest;
      assert c[0] == t && c[1] == rest[0] && !Within(c[0], s, e) && !Within(c[1], s, e);
    } else {
      QuietCons(t, rest, s, e, at);
    }
  }

  ghost predicate Crossing(rs: seq<Region>, x: nat) {
    exists i :: 0 <= i < |rs| && rs[i].start < x < rs[i].end
  }

  lemma CrossingRest(rs: seq<Region>, x: nat)
    requires rs != [] && !(rs[0].start < x < rs[0].end)
    ensures Crossing(rs, x) <==> Crossing(rs[1..], x)
  {
    var rest := rs[1..];
    if Crossing(rest, x) {
      var i :| 0 <= i < |rest| && rest[i].start < x < rest[i].end;
      assert rs[i + 1] == rest[i];
    }
    if Crossing(rs, x) {
      var i :| 0 <= i < |rs| && rs[i].start < x < rs[i].end;
      assert rest[i - 1] == rs[i];
    }
  }

  lemma CrossingNone(rs: seq<Region>, lo: nat, x: nat)
    requires SortedFrom(rs, lo) && x <= lo
    ensures !Crossing(rs, x)
  {
    SortedFromIndex(rs, lo);
  }

  lemma CrossingFirst(rs: seq<Region>, x: nat)
    requires rs != [] && rs[0].start < x < rs[0].end
    ensures Crossing(rs, x)
  {
  }

  /** What a region crossing the end of the range leaves past it. */
  function EndTail(r: Region, s: nat, e: nat, d1: int, d2: int): Region
    requires r.start <= e && s <= e
  {
    Dup(Tail(if r.start < s then Dup(Tail(r, s), d1) else r, e), d2)
  }

  /** The slots left once the region crossing the start was split. */
  ghost function Spare(rs: seq<Region>, s: nat, room: nat): nat {
    if Crossing(rs, s) && room > 0 then room - 1 else room
  }

  /** Region `i` leaves past the range a tail the next region could be merged with. */
  ghost predicate Loosens(rs: seq<Region>, i: nat, s: nat, e: nat, room: nat, d1: int, d2: int)
    requires s < e
  {
    && i < |rs| - 1 && rs[i].start < e < rs[i].end && Spare(rs, s, room) > 0
    && Mergeable(EndTail(rs[i], s, e, d1, d2), rs[i + 1])
  }

  ghost predicate LoosensAt(rs: seq<Region>, s: nat, e: nat, room: nat, d1: int, d2: int, at: set<nat>)
    requires s < e
  {
    forall i: nat :: Loosens(rs, i, s, e, room, d1, d2) ==> rs[i].end in at
  }

  /** A region wholly before the range. */
  lemma LoosensRest(rs: seq<Region>, s: nat, e: nat, room: nat, d1: int, d2: int, at: set<nat>)
    requires s < e && rs != [] && rs[0].end <= s
    ensures LoosensAt(rs, s, e, room, d1, d2, at) <==> LoosensAt(rs[1..], s, e, room, d1, d2, at)
  {
    hide Mergeable, EndTail;
    var rest := rs[1..];
    CrossingRest(rs, s);
    hide Crossing;
    forall i: nat ensures Loosens(rest, i, s, e, room, d1, d2) <==> Loosens(rs, i + 1, s, e, room, d1, d2) {
    }
    if LoosensAt(rest, s, e, room, d1, d2, at) {
      forall i: nat | Loosens(rs, i, s, e, room, d1, d2) ensures rs[i].end in at {
        assert Loosens(rest, i - 1, s, e, room, d1, d2) && rest[i - 1] == rs[i];
      }
    }
  }

  /** A table that starts inside the range. */
  lemma LoosensInside(rs: seq<Region>, lo: nat, s: nat, e: nat, room: nat, d1: int, d2: int, at: set<nat>)
    requires SortedFrom(rs, lo) && s <= lo && s < e
    ensures LoosensAt(rs, s, e, room, d1, d2, at) <==> ShedsAt(rs, e, room, d2, at)
  {
    hide Mergeable, Dup, Tail;
    SortedFromIndex(rs, lo);
    assert !Crossing(rs, s);
    forall i: nat ensures Loosens(rs, i, s, e, room, d1, d2) <==> Sheds(rs, e, room, d2, i) {
    }
  }

  /** A table whose first region crosses the start. */
  lemma LoosensSplit(rs: seq<Region>, lo: nat, s: nat, e: nat, room: nat, d1: int, d2: int, at: set<nat>)
    requires SortedFrom(rs, lo) && s < e && rs != [] && rs[0].start < s < rs[0].end && room > 0
    ensures LoosensAt(rs, s, e, room, d1, d2, at) <==>
      ShedsAt([Dup(Tail(rs[0], s), d1)] + rs[1..], e, room - 1, d2, at)
  {
    var t := Dup(Tail(rs[0], s), d1);
    var ts := [t] + rs[1..];
    assert t.start == s && t.end == rs[0].end;
    SortedFromIndex(rs, lo);
    CrossingFirst(rs, s);
    forall i: nat
      ensures Loosens(rs, i, s, e, room, d1, d2) <==> Sheds(ts, e, room - 1, d2, i)
      ensures i < |rs| ==> ts[i].end == rs[i].end
    {
      LoosensSplitAt(rs, ts, i, s, e, room, d1, d2);
    }
    hide Loosens, Sheds;
  }

  lemma LoosensSplitAt(rs: seq<Region>, ts: seq<Region>, i: nat, s: nat, e: nat, room: nat, d1: int, d2: int)
    requires Sorted(rs) && s < e && rs != [] && rs[0].start < s < rs[0].end && room > 0 && Crossing(rs, s)
    requires ts == [Dup(Tail(rs[0], s), d1)] + rs[1..]
    ensures Loosens(rs, i, s, e, room, d1, d2) <==> Sheds(ts, e, room - 1, d2, i)
    ensures i < |rs| ==> ts[i].end == rs[i].end
  {
    hide Mergeable, Crossing;
    assert 0 < i < |rs| ==> ts[i] == rs[i] && s <= rs[i].start;
    assert i < |rs| - 1 ==> ts[i + 1] == rs[i + 1];
  }

  lemma QuietSplit(rs: seq<Region>, t: Region, s: nat, e: nat, at: set<nat>)
    requires QuietBut(rs, at) && rs != [] && t.start < e
    ensures QuietPast([t] + rs[1..], e, at)
  {
    hide Mergeable;
    var ts := [t] + rs[1..];
    forall i | 0 <= i < |ts| - 1 && e <= ts[i].start && Mergeable(ts[i], ts[i + 1]) ensures ts[i].end in at {
      assert ts[i] == rs[i] && ts[i + 1] == rs[i + 1];
    }
  }

  /** The region before re-protected ones. */
  lemma BeforeReprot(r: Region, rest: seq<Region>, s: nat, e: nat, prot: Perms, room: nat, d1: int, d2: int,
                     at: set<nat>)
    requires s < e && SortedFrom([r] + rest, r.start) && QuietBut([r] + rest, at) && r.start < s
    ensures var ms := Reprot(rest, s, e, prot, room, d1, d2).rs;
      QuietOutside([r] + ms, s, e, at) <==> QuietOutside(ms, s, e, at)
  {
    var rs, ms := [r] + rest, Reprot(rest, s, e, prot, room, d1, d2).rs;
    assert rs[1..] == rest;
    ReprotFirst(rest, r.end, s, e, prot, room, d1, d2);
    hide Reprot, SortedFrom, QuietOutside, MergeableLayout;
    if ms != [] && !Within(ms[0], s, e) && Mergeable(r, ms[0]) {
      HeadMerges(r, rest[0], s);
      assert rs[0] == r && rs[1] == rest[0] && Mergeable(rs[0], rs[1]);
    }
    QuietCons(r, ms, s, e, at);
  }

  /** Outside the range a re-protection of a table with nothing to merge but at `at`
      leaves nothing more to merge exactly when it sheds no loose tail elsewhere. */
  lemma {:induction false} ReprotQuiet(rs: seq<Region>, lo: nat, s: nat, e: nat, prot: Perms, room: nat, d1: int,
                                       d2: int, at: set<nat>)
    requires SortedFrom(rs, lo) && s < e && QuietBut(rs, at)
    ensures QuietOutside(Reprot(rs, s, e, prot, room, d1, d2).rs, s, e, at) <==> LoosensAt(rs, s, e, room, d1, d2, at)
    decreases |rs|
  {
    hide Mergeable, QuietOutside, ShedsAt, LoosensAt, QuietPast, QuietBut;
    if rs == [] {
      NothingLoose(rs, lo, s, e, room, d1, d2, at);
      return;
    }
    var r, rest := rs[0], rs[1..];
    assert rs == [r] + rest;
    QuietRest(rs, at);
    if r.end <= s {
      ReprotQuiet(rest, r.end, s, e, prot, room, d1, d2, at);
      LoosensRest(rs, s, e, room, d1, d2, at);
      BeforeReprot(r, rest, s, e, prot, room, d1, d2, at);
    } else if e <= r.start {
      NothingLoose(rs, r.start, s, e, room, d1, d2, at);
    } else if s <= r.start {
      QuietWhole(rs, e, at);
      LoosensInside(rs, r.start, s, e, room, d1, d2, at);
      ReprotInner(rs, r.start, s, e, prot, room, d1, d2, at);
    } else if room == 0 {
      QuietWhole(rest, e, at);
      ReprotInner(rest, r.end, s, e, prot, 0, d1, d2, at);
      BeforeReprot(r, rest, s, e, prot, 0, d1, d2, at);
      NoRoom(rs, rest, s, e, d1, d2, at);
    } else {
      ReprotCrosses(rs, lo, s, e, prot, room, d1, d2, at);
    }
  }

  lemma NothingLoose(rs: seq<Region>, lo: nat, s: nat, e: nat, room: nat, d1: int, d2: int, at: set<nat>)
    requires SortedFrom(rs, lo) && s < e && QuietBut(rs, at) && (rs != [] ==> e <= rs[0].start)
    ensures QuietOutside(rs, s, e, at) && LoosensAt(rs, s, e, room, d1, d2, at)
  {
    hide Mergeable;
    SortedFromIndex(rs, lo);
  }

  lemma QuietWhole(rs: seq<Region>, e: nat, at: set<nat>)
    requires QuietBut(rs, at)
    ensures QuietPast(rs, e, at)
  {
    hide Mergeable;
  }

  lemma NoRoom(rs: seq<Region>, rest: seq<Region>, s: nat, e: nat, d1: int, d2: int, at: set<nat>)
    requires s < e
    ensures LoosensAt(rs, s, e, 0, d1, d2, at) && ShedsAt(rest, e, 0, d2, at)
  {
  }

  lemma ReprotCrosses(rs: seq<Region>, lo: nat, s: nat, e: nat, prot: Perms, room: nat, d1: int, d2: int, at: set<nat>)
    requires SortedFrom(rs, lo) && s < e && QuietBut(rs, at)
    requires rs != [] && rs[0].start < s < rs[0].end && room > 0
    ensures QuietOutside(Reprot(rs, s, e, prot, room, d1, d2).rs, s, e, at) <==> LoosensAt(rs, s, e, room, d1, d2, at)
  {
    var r, rest := rs[0], rs[1..];
    var h, t := Head(r, s), Dup(Tail(r, s), d1);
    var ts := [t] + rest;
    assert ts[1..] == rest && SortedFrom(ts, s);
    QuietSplit(rs, t, s, e, at);
    ReprotInner(ts, s, s, e, prot, room - 1, d1, d2, at);
    LoosensSplit(rs, lo, s, e, room, d1, d2, at);
    var ms := Reprot(ts, s, e, prot, room - 1, d1, d2).rs;
    assert Reprot(rs, s, e, prot, room, d1, d2).rs == [h] + ms;
    ReprotFirst(ts, s, s, e, prot, room - 1, d1, d2);
    hide Reprot, Mergeable, QuietOutside, LoosensAt, ShedsAt;
    QuietCons(h, ms, s, e, at);
  }

  /** A re-protection leaves the table out of date exactly when it has no room for a
      split it needs. */
  lemma {:induction false} ReprotStale(rs: seq<Region>, lo: nat, s: nat, e: nat, prot: Perms, room: nat, d1: int,
                                       d2: int)
    requires SortedFrom(rs, lo) && s < e
    ensures Reprot(rs, s, e, prot, room, d1, d2).stale <==>
      (Crossing(rs, s) && room == 0) || (Crossing(rs, e) && Spare(rs, s, room) == 0)
    decreases |rs|, if rs != [] && rs[0].start < s then 1 else 0
  {
    hide Crossing;
    if rs == [] {
      CrossingNone(rs, e, s);
      CrossingNone(rs, e, e);
      return;
    }
    var r, rest := rs[0], rs[1..];
    if r.start < s < r.end {
      CrossingFirst(rs, s);
      if room > 0 {
        var t := Dup(Tail(r, s), d1);
        var ts := [t] + rest;
        assert ts[1..] == rest && ts[0] == t && t.start == s && t.end == r.end;
        ReprotStale(ts, s, s, e, prot, room - 1, d1, d2);
        CrossingNone(ts, s, s);
        CrossingSame(rs, ts, e);
      }
    } else if e <= r.start {
      CrossingNone(rs, r.start, s);
      CrossingNone(rs, r.start, e);
    } else {
      CrossingRest(rs, s);
      if e < r.end {
        CrossingFirst(rs, e);
        CrossingNone(rest, r.end, s);
      } else {
        CrossingRest(rs, e);
        ReprotStale(rest, r.end, s, e, prot, room, d1, d2);
      }
    }
  }

  lemma CrossingSame(rs: seq<Region>, ts: seq<Region>, x: nat)
    requires rs != [] && ts != [] && ts[1..] == rs[1..]
    requires rs[0].start < x < rs[0].end <==> ts[0].start < x < ts[0].end
    ensures Crossing(rs, x) <==> Crossing(ts, x)
  {
    hide Crossing;
    if rs[0].start < x < rs[0].end {
      CrossingFirst(rs, x);
      CrossingFirst(ts, x);
    } else {
      CrossingRest(rs, x);
      CrossingRest(ts, x);
    }
  }

  /** An empty range [s, e) that some region surrounds. */
  ghost predicate Surrounded(rs: seq<Region>, s: nat, e: nat) {
    exists i :: 0 <= i < |rs| && rs[i].start < e <= s < rs[i].end
  }

  /** Splitting that region at `s` and what is left at `e`, as guest_region_set_prot
      would, leaves a table that is not sorted. */
  lemma SurroundedDamages(done: seq<Region>, r: Region, rest: seq<Region>, s: nat, e: nat, tail: Region)
    requires r.start < e <= s < r.end
    ensures !Sorted(done + [Head(r, s), Head(Tail(r, s), e), tail] + rest)
  {
    var rs := done + [Head(r, s), Head(Tail(r, s), e), tail] + rest;
    assert rs[|done| + 1] == Head(Tail(r, s), e);
  }

  // ----- A re-protection in progress -----

  lemma ReprotSkip(rs: seq<Region>, s: nat, e: nat, prot: Perms, room: nat, d1: int, d2: int)
    requires s < e && rs != [] && rs[0].end <= s
    ensures Reprot(rs, s, e, prot, room, d1, d2) == Then(rs[0], Reprot(rs[1..], s, e, prot, room, d1, d2))
  {
  }

  lemma {:induction false} ReprotPrefix(rs: seq<Region>, k: nat, s: nat, e: nat, prot: Perms, room: nat, d1: int,
                                        d2: int)
    requires s < e && k <= |rs| && forall i :: 0 <= i < k ==> rs[i].end <= s
    ensures var all, rest := Reprot(rs, s, e, prot, room, d1, d2), Reprot(rs[k..], s, e, prot, room, d1, d2);
            all.rs == rs[..k] + rest.rs && all.stale == rest.stale
    decreases k
  {
    hide Reprot;
    if k == 0 {
      assert rs[k..] == rs;
    } else {
      var tail := rs[1..];
      assert forall i :: 0 <= i < k - 1 ==> tail[i] == rs[i + 1];
      ReprotSkip(rs, s, e, prot, room, d1, d2);
      ReprotPrefix(tail, k - 1, s, e, prot, room, d1, d2);
      assert tail[k - 1..] == rs[k..] && [rs[0]] + tail[..k - 1] == rs[..k];
    }
  }

  /** `done` is finished and `rest` is still to be re-protected, with `room` free
      slots; `out` is the table wanted in the end. */
  ghost predicate Reprotecting(out: Edit, done: seq<Region>, rest: seq<Region>, stale: bool,
                               s: nat, e: nat, prot: Perms, room: nat, d1: int, d2: int) {
    && s < e
    && out.rs == done + Reprot(rest, s, e, prot, room, d1, d2).rs
    && out.stale == (stale || Reprot(rest, s, e, prot, room, d1, d2).stale)
  }

  /** Each way one region is handled. */
  lemma ReprotectStep(out: Edit, done: seq<Region>, r: Region, rest: seq<Region>, stale: bool,
                      s: nat, e: nat, prot: Perms, room: nat, d1: int, d2: int)
    requires Reprotecting(out, done, [r] + rest, stale, s, e, prot, room, d1, d2) && s < r.end && r.start < e
    ensures r.start < s && room == 0 ==> Reprotecting(out, done + [r], rest, true, s, e, prot, 0, d1, d2)
    ensures r.start < s && room > 0 ==>
      Reprotecting(out, done + [Head(r, s)], [Dup(Tail(r, s), d1)] + rest, stale, s, e, prot, room - 1, d1, d2)
    ensures s <= r.start && e < r.end && room == 0 ==>
      Reprotecting(out, done + [r.(prot := prot)], rest, true, s, e, prot, 0, d1, d2)
    ensures s <= r.start && e < r.end && room > 0 ==>
      out == Edit(done + ([Head(r, e).(prot := prot), Dup(Tail(r, e), d2)] + rest), stale)
    ensures s <= r.start && r.end <= e ==>
      Reprotecting(out, done + [r.(prot := prot)], rest, stale, s, e, prot, room, d1, d2)
  {
    assert ([r] + rest)[1..] == rest;
    var all := Reprot([r] + rest, s, e, prot, room, d1, d2);
    hide Dup, Head, Tail;
    var first := all.rs[0];
    assert !(s <= r.start && e < r.end && room > 0) ==> all.rs == [first] + all.rs[1..];
    assert done + ([first] + all.rs[1..]) == (done + [first]) + all.rs[1..];
  }

  lemma ReprotectEnds(out: Edit, done: seq<Region>, rest: seq<Region>, stale: bool,
                      s: nat, e: nat, prot: Perms, room: nat, d1: int, d2: int)
    requires Reprotecting(out, done, rest, stale, s, e, prot, room, d1, d2)
    requires rest != [] ==> e <= rest[0].start && s < rest[0].end
    ensures out == Edit(done + rest, stale)
  {
  }

  // ----- The window that is merged afterwards -----

  /** How many leading regions start below `x`. */
  function Below(rs: seq<Region>, x: nat): nat {
    if rs == [] || x <= rs[0].start then 0 else 1 + Below(rs[1..], x)
  }

  lemma {:induction false} BelowIndex(rs: seq<Region>, x: nat)
    requires Sorted(rs)
    ensures Below(rs, x) <= |rs|
    ensures forall k :: 0 <= k < |rs| ==> (k < Below(rs, x) <==> rs[k].start < x)
  {
    if rs != [] && rs[0].start < x {
      assert forall k :: 1 <= k < |rs| ==> rs[k] == rs[1..][k - 1];
      BelowIndex(rs[1..], x);
    }
  }

  lemma BelowIs(rs: seq<Region>, x: nat, n: nat)
    requires Sorted(rs) && n <= |rs|
    requires forall k :: 0 <= k < |rs| ==> (k < n <==> rs[k].start < x)
    ensures Below(rs, x) == n
  {
    BelowIndex(rs, x);
    var b := Below(rs, x);
    assert b < |rs| ==> x <= rs[b].start;
    assert n < |rs| ==> x <= rs[n].start;
  }

  /** Merge around the regions whose protection was set: those starting in [s, e). */
  function Settle(rs: seq<Region>, s: nat, e: nat): seq<Region> {
    var first, last := Below(rs, s), Below(rs, e) - 1;
    if last < first then rs else MergeDown(rs, first - 1, last)
  }

  lemma SettleKeeps(rs: seq<Region>, s: nat, e: nat, bound: nat)
    requires Sorted(rs) && OwnedOnce(rs) && IdsBelow(rs, bound)
    ensures var ms := Settle(rs, s, e);
            && Sorted(ms) && IdsBelow(ms, bound) && |ms| <= |rs| && FdBag(ms) == FdBag(rs) && SaysSame(rs, ms)
  {
    hide At;
    MergeDownKeeps(rs, Below(rs, s) - 1, Below(rs, e) - 1, bound);
  }

  /** After the merging, exactly the pairs whose protections were not set can still be
      merged. */
  lemma SettleQuiet(rs: seq<Region>, s: nat, e: nat, at: set<nat>)
    requires Sorted(rs) && s < e
    ensures QuietBut(Settle(rs, s, e), at) <==> QuietOutside(rs, s, e, at)
  {
    hide Mergeable, Below, MergeDown;
    var first: int, last: int := Below(rs, s), Below(rs, e) - 1;
    BelowIndex(rs, s);
    BelowIndex(rs, e);
    forall i | 0 <= i < |rs| - 1
      ensures !Within(rs[i], s, e) && !Within(rs[i + 1], s, e) <==> last < first || i < first - 1 || last < i
    {
    }
    MergeDownSettles(rs, first - 1, last, at);
  }

  // ----- Loose tails -----

  /** The descriptor a file-backed region crossing the end leaves with its tail. */
  function TailFd(r: Region, s: nat, d1: int, d2: int): int {
    if r.start < s && d1 < 0 then d1 else d2
  }

  /** A file-backed region that crosses the end of the range, whose tail will be split
      off without a descriptor and be just what the next region continues. */
  ghost predicate LooseTail(rs: seq<Region>, i: nat, s: nat, e: nat, room: nat, d1: int, d2: int) {
    && i < |rs| - 1 && rs[i].start < e < rs[i].end && Spare(rs, s, room) > 0
    && rs[i].fd >= 0 && TailFd(rs[i], s, d1, d2) < 0
    && Mergeable(Tail(rs[i], e).(fd := TailFd(rs[i], s, d1, d2)), rs[i + 1])
  }

  ghost predicate NoLooseTail(rs: seq<Region>, s: nat, e: nat, room: nat, d1: int, d2: int) {
    forall i: nat :: !LooseTail(rs, i, s, e, room, d1, d2)
  }

  /** Where the loose tails end. */
  ghost function Shed(rs: seq<Region>, s: nat, e: nat, room: nat, d1: int, d2: int): set<nat> {
    set i: nat | i < |rs| && LooseTail(rs, i, s, e, room, d1, d2) :: rs[i].end
  }

  ghost predicate Unused(rs: seq<Region>, fd: int) {
    fd < 0 || forall r :: r in rs ==> r.fd != fd
  }

  lemma LooseTailIs(rs: seq<Region>, i: nat, s: nat, e: nat, room: nat, d1: int, d2: int, at: set<nat>)
    requires s < e && QuietBut(rs, at) && Unused(rs, d2)
    ensures LooseTail(rs, i, s, e, room, d1, d2) ==> Loosens(rs, i, s, e, room, d1, d2)
    ensures Loosens(rs, i, s, e, room, d1, d2) ==>
      i < |rs| && (LooseTail(rs, i, s, e, room, d1, d2) || rs[i].end in at)
  {
    hide Spare;
    if i < |rs| - 1 && rs[i].start < e < rs[i].end {
      var r, next := rs[i], rs[i + 1];
      assert next in rs;
      if r.fd >= 0 {
        assert EndTail(r, s, e, d1, d2) == Tail(r, e).(fd := TailFd(r, s, d1, d2));
      } else {
        assert EndTail(r, s, e, d1, d2) == Tail(r, e);
        TailMerges(r, e, next);
      }
    }
  }

  /** Where the merging leaves something to merge, exactly: a re-protection adds the
      ends of the loose tails. */
  lemma SettledExactly(rs: seq<Region>, s: nat, e: nat, prot: Perms, room: nat, d1: int, d2: int, at: set<nat>)
    requires Sorted(rs) && s < e && QuietBut(rs, at) && Unused(rs, d2)
    ensures QuietBut(Settle(Reprot(rs, s, e, prot, room, d1, d2).rs, s, e), at) <==> Shed(rs, s, e, room, d1, d2) <= at
  {
    hide Mergeable, QuietBut, Reprot, Sorted, SortedFrom, LooseTail, Loosens, Settle, QuietOutside, Unused;
    var ms := Reprot(rs, s, e, prot, room, d1, d2).rs;
    SortedIsFrom(rs, 0);
    ReprotSorted(rs, 0, s, e, prot, room, d1, d2);
    SortedFromIndex(ms, 0);
    ReprotQuiet(rs, 0, s, e, prot, room, d1, d2, at);
    SettleQuiet(ms, s, e, at);
    ShedIs(rs, s, e, room, d1, d2, at);
  }

  lemma ShedIs(rs: seq<Region>, s: nat, e: nat, room: nat, d1: int, d2: int, at: set<nat>)
    requires s < e && QuietBut(rs, at) && Unused(rs, d2)
    ensures LoosensAt(rs, s, e, room, d1, d2, at) <==> Shed(rs, s, e, room, d1, d2) <= at
  {
    hide Mergeable, QuietBut, Unused, Loosens;
    forall i: nat
      ensures LooseTail(rs, i, s, e, room, d1, d2) ==> i < |rs| && Loosens(rs, i, s, e, room, d1, d2)
      ensures Loosens(rs, i, s, e, room, d1, d2) ==>
        i < |rs| && (LooseTail(rs, i, s, e, room, d1, d2) || rs[i].end in at)
    {
      LooseTailIs(rs, i, s, e, room, d1, d2, at);
    }
    hide LooseTail;
    if LoosensAt(rs, s, e, room, d1, d2, at) {
      forall x | x in Shed(rs, s, e, room, d1, d2) ensures x in at {
        var i: nat :| i < |rs| && LooseTail(rs, i, s, e, room, d1, d2) && rs[i].end == x;
        assert Loosens(rs, i, s, e, room, d1, d2);
      }
    }
    if Shed(rs, s, e, room, d1, d2) <= at {
      forall i: nat | Loosens(rs, i, s, e, room, d1, d2) ensures rs[i].end in at {
        assert LooseTail(rs, i, s, e, room, d1, d2) ==> rs[i].end in Shed(rs, s, e, room, d1, d2);
      }
    }
  }

  /** A re-protection of a table with nothing to merge leaves something to merge exactly
      when it sheds a loose tail. */
  lemma UnmergedExactly(rs: seq<Region>, s: nat, e: nat, prot: Perms, room: nat, d1: int, d2: int)
    requires Sorted(rs) && s < e && NoneMergeable(rs) && Unused(rs, d2)
    ensures NoneMergeable(Settle(Reprot(rs, s, e, prot, room, d1, d2).rs, s, e)) <==>
      NoLooseTail(rs, s, e, room, d1, d2)
  {
    hide Mergeable, Reprot, Settle, Unused;
    var ms := Settle(Reprot(rs, s, e, prot, room, d1, d2).rs, s, e);
    assert QuietBut(rs, {});
    SettledExactly(rs, s, e, prot, room, d1, d2, {});
    assert NoneMergeable(ms) <==> QuietBut(ms, {});
    hide NoneMergeable, QuietBut;
    forall i: nat ensures LooseTail(rs, i, s, e, room, d1, d2) ==> rs[i].end in Shed(rs, s, e, room, d1, d2) {
    }
  }
}
