/** What every run of the region tracker keeps: a sorted table within capacity that
owns each open descriptor once, bounds every mapping id, has nothing left to
merge but where a re-protection shed a tail without its descriptor, and says of
every address what a naive interval map says. */
module RegionInvariant {
  import opened Descriptors
  import opened Regions
  import opened RegionEdits

  /** The tracker's table beside the naive map.  `lost` says that duplicating a
      descriptor failed in some re-protection, so a region has lost its backing, and
      `loose` is where the tails ended that this left mergeable. */
  datatype State = State(
    rs: seq<Region>, nextVma: nat, stale: bool, lost: bool, loose: set<nat>, open: map<int, int>,
    naive: nat -> Option<Attr>)

  function NoFile(a: Option<Attr>): Option<Attr> {
    match a case None => None case Some(attr) => Some(attr.(file := None))
  }

  ghost predicate SaysNaive(rs: seq<Region>, files: map<int, int>, naive: nat -> Option<Attr>) {
    forall x: nat :: At(rs, files, x) == naive(x)
  }

  ghost predicate SaysNaiveButFiles(rs: seq<Region>, naive: nat -> Option<Attr>) {
    forall x: nat :: At(rs, map[], x) == NoFile(naive(x))
  }

  /** `extra` is an open descriptor about to be handed to the table, or -1. */
  ghost predicate Good(st: State, cap: nat, extra: int) {
    && |st.rs| <= cap && Sorted(st.rs) && IdsBelow(st.rs, st.nextVma)
    && multiset(st.open.Keys) == FdBag(st.rs) + Bag(extra)
    && QuietBut(st.rs, st.loose) && (!st.lost ==> st.loose == {})
    && (!st.stale ==> SaysNaiveButFiles(st.rs, st.naive))
    && (!st.stale && !st.lost ==> SaysNaive(st.rs, st.open, st.naive))
  }

  // ----- The naive map -----

  ghost function Covered(naive: nat -> Option<Attr>, r: Region, files: map<int, int>): nat -> Option<Attr> {
    (x: nat) => if r.Has(x) then Some(AttrOf(r, files, x)) else naive(x)
  }

  ghost function Cleared(naive: nat -> Option<Attr>, s: nat, e: nat): nat -> Option<Attr> {
    (x: nat) => if s <= x < e then None else naive(x)
  }

  ghost function Protected(naive: nat -> Option<Attr>, s: nat, e: nat, prot: Perms): nat -> Option<Attr> {
    (x: nat) => if s <= x < e then Reprotected(naive(x), prot) else naive(x)
  }

  // ----- Descriptors -----

  lemma {:induction false} FdBagMember(rs: seq<Region>, r: Region)
    requires r in rs && r.fd >= 0
    ensures r.fd in FdBag(rs)
  {
    if rs[0] != r {
      FdBagMember(rs[1..], r);
    }
  }

  lemma {:induction false} FdBagNonNegative(rs: seq<Region>, fd: int)
    requires fd in FdBag(rs)
    ensures fd >= 0
  {
    if fd !in FdOf(rs[0]) {
      FdBagNonNegative(rs[1..], fd);
    }
  }

  /** The extra descriptor is not a region's, and no descriptor is owned twice. */
  lemma Owners(st: State, cap: nat, extra: int)
    requires Good(st, cap, extra)
    ensures OwnedOnce(st.rs)
    ensures forall r :: r in st.rs && r.fd >= 0 ==> r.fd in st.open && r.fd != extra
    ensures forall fd :: fd in st.open ==> fd >= 0
  {
    hide Sorted, QuietBut, SaysNaive, SaysNaiveButFiles, IdsBelow, FdBag;
    var keys := multiset(st.open.Keys);
    forall fd ensures FdBag(st.rs)[fd] <= 1 {
      assert keys[fd] <= 1;
    }
    forall r | r in st.rs && r.fd >= 0 ensures r.fd in st.open && r.fd != extra {
      FdBagMember(st.rs, r);
      assert keys[r.fd] <= 1;
    }
    forall fd | fd in st.open ensures fd >= 0 {
      assert fd in keys;
      if fd in FdBag(st.rs) {
        FdBagNonNegative(st.rs, fd);
      }
    }
  }

  /** Only the files behind the table's own descriptors matter. */
  lemma AtFiles(rs: seq<Region>, files: map<int, int>, files': map<int, int>, x: nat)
    requires forall r :: r in rs ==> FileOf(files, r.fd) == FileOf(files', r.fd)
    ensures At(rs, files, x) == At(rs, files', x)
  {
  }

  lemma AttrNoFile(r: Region, files: map<int, int>, x: nat)
    ensures AttrOf(r, map[], x) == AttrOf(r, files, x).(file := None)
  {
    assert FileOf(map[], r.fd) == None;
  }

  lemma QuietMore(rs: seq<Region>, at: set<nat>, at': set<nat>)
    requires QuietBut(rs, at) && at <= at'
    ensures QuietBut(rs, at')
  {
    hide Mergeable;
  }

  lemma QuietNone(rs: seq<Region>)
    ensures NoneMergeable(rs) <==> QuietBut(rs, {})
  {
    hide Mergeable;
  }

  lemma Holding(st: State, cap: nat, extra: int)
    requires Good(st, cap, extra)
    ensures |st.rs| <= cap && Sorted(st.rs) && multiset(st.open.Keys) == FdBag(st.rs) + Bag(extra)
  {
  }

  /** A descriptor that was never used can be closed. */
  lemma HandedOver(st: State, cap: nat, extra: int, open: map<int, int>)
    requires Good(st, cap, extra) && multiset(open.Keys) == FdBag(st.rs)
    requires forall k :: k in open ==> k in st.open && open[k] == st.open[k]
    ensures Good(st.(open := open), cap, -1)
  {
    hide At, Sorted, FdBag, IdsBelow, QuietBut;
    Owners(st, cap, extra);
    FilesKept(st.rs, st.open, open);
    forall x: nat ensures At(st.rs, open, x) == At(st.rs, st.open, x) {
      AtFiles(st.rs, open, st.open, x);
    }
  }

  /** A descriptor has been opened for the table. */
  lemma OpenGood(st: State, cap: nat, fd: int, file: int)
    requires Good(st, cap, -1) && fd >= 0 && fd !in st.open
    ensures Good(st.(open := st.open[fd := file]), cap, fd)
  {
    hide At, Sorted, FdBag, IdsBelow, QuietBut;
    var open := st.open[fd := file];
    Owners(st, cap, -1);
    assert open.Keys == st.open.Keys + {fd};
    assert multiset(st.open.Keys + {fd}) == multiset(st.open.Keys) + multiset{fd};
    forall x: nat ensures At(st.rs, open, x) == At(st.rs, st.open, x) {
      AtFiles(st.rs, open, st.open, x);
    }
  }

  // ----- Adding -----

  lemma AddIds(rs: seq<Region>, i: nat, r: Region, bound: nat, bound': nat)
    requires IdsBelow(rs, bound) && bound <= bound' && r.vma <= bound' && i <= |rs|
    ensures IdsBelow(Inserted(rs, i, r), bound')
  {
  }

  lemma InsertNaive(rs: seq<Region>, i: nat, r: Region, files: map<int, int>, naive: nat -> Option<Attr>)
    requires Apart(rs, r.start, r.end) && i <= |rs| && Sorted(rs) && SaysNaive(rs, files, naive)
    ensures SaysNaive(Inserted(rs, i, r), files, Covered(naive, r, files))
  {
    hide At, AttrOf, Inserted;
    forall x: nat ensures At(Inserted(rs, i, r), files, x) == Covered(naive, r, files)(x) {
      InsertSays(rs, i, r, files, x);
    }
  }

  lemma InsertNaiveButFiles(rs: seq<Region>, i: nat, r: Region, files: map<int, int>, naive: nat -> Option<Attr>)
    requires Apart(rs, r.start, r.end) && i <= |rs| && Sorted(rs) && SaysNaiveButFiles(rs, naive)
    ensures SaysNaiveButFiles(Inserted(rs, i, r), Covered(naive, r, files))
  {
    hide At, AttrOf, Inserted;
    forall x: nat ensures At(Inserted(rs, i, r), map[], x) == NoFile(Covered(naive, r, files)(x)) {
      InsertSays(rs, i, r, map[], x);
      AttrNoFile(r, files, x);
    }
  }

  lemma SameNaive(rs: seq<Region>, ms: seq<Region>, files: map<int, int>, naive: nat -> Option<Attr>)
    requires SaysSame(rs, ms)
    ensures SaysNaive(rs, files, naive) ==> SaysNaive(ms, files, naive)
    ensures SaysNaiveButFiles(rs, naive) ==> SaysNaiveButFiles(ms, naive)
  {
    hide At;
  }

  /** Adding a region clear of the others, under any id the mark allows. */
  lemma AddGood(st: State, cap: nat, i: nat, r: Region, nextVma: nat)
    requires Good(st, cap, r.fd) && |st.rs| < cap && st.nextVma <= nextVma && r.vma <= nextVma
    requires r.start < r.end && Apart(st.rs, r.start, r.end) && LowerBound(st.rs, r.start, i)
    ensures Good(State(MergeDown(Inserted(st.rs, i, r), i - 1, i), nextVma, st.stale, st.lost, st.loose, st.open,
                       Covered(st.naive, r, st.open)), cap, -1)
  {
    hide At, Sorted, FdBag, Mergeable, IdsBelow, LowerBound, Apart, SaysSame, SaysNaive, SaysNaiveButFiles, Inserted,
         MergeDown, QuietBut, QuietButIn, Covered;
    var rs := st.rs;
    AddFits(rs, i, r);
    var ns := Inserted(rs, i, r);
    InsertKeepsOrder(rs, i, r);
    InsertOwners(rs, i, r);
    AddIds(rs, i, r, st.nextVma, nextVma);
    assert OwnedOnce(ns) by {
      assert FdBag(ns) == multiset(st.open.Keys);
    }
    MergeDownKeeps(ns, i - 1, i, nextVma);
    InsertMergeable(rs, i, r, st.loose);
    MergeDownSettles(ns, i - 1, i, st.loose);
    if !st.stale {
      InsertNaiveButFiles(rs, i, r, st.open, st.naive);
      if !st.lost {
        InsertNaive(rs, i, r, st.open, st.naive);
      }
    }
    SameNaive(ns, MergeDown(ns, i - 1, i), st.open, Covered(st.naive, r, st.open));
  }

  /** Adding leaves nothing to merge where there was nothing. */
  lemma AddQuiet(rs: seq<Region>, i: nat, r: Region)
    requires Sorted(rs) && NoneMergeable(rs) && r.start < r.end && Apart(rs, r.start, r.end) &&
      LowerBound(rs, r.start, i)
    ensures i <= |rs| && NoneMergeable(MergeDown(Inserted(rs, i, r), i - 1, i))
  {
    hide Mergeable, Sorted, Apart, LowerBound, QuietBut, QuietButIn, NoneMergeable, Inserted, MergeDown;
    AddFits(rs, i, r);
    QuietNone(rs);
    InsertKeepsOrder(rs, i, r);
    InsertMergeable(rs, i, r, {});
    MergeDownSettles(Inserted(rs, i, r), i - 1, i, {});
    QuietNone(MergeDown(Inserted(rs, i, r), i - 1, i));
  }

  /** The id an added mapping gets: the one it came with, or that of a live neighbour
      it could merge with.  A new id, one above the mark, belongs to no live region. */
  lemma AdoptedId(st: State, cap: nat, extra: int, i: nat, r: Region)
    requires Good(st, cap, extra) && LowerBound(st.rs, r.start, i)
    ensures i <= |st.rs|
    ensures var id := Adopted(st.rs, i, r);
      || id == r.vma
      || (id <= st.nextVma
          && exists q :: q in st.rs && q.vma == id && (MergeableLayout(q, r) || MergeableLayout(r, q)))
    ensures forall q :: q in st.rs ==> q.vma < st.nextVma + 1
  {
    hide MergeableLayout, Sorted, FdBag, QuietBut, SaysNaive, SaysNaiveButFiles;
  }

  lemma NotOwned(st: State, cap: nat, extra: int, open: map<int, int>)
    requires Good(st, cap, extra) && multiset(open.Keys) == FdBag(st.rs)
    ensures extra !in open
  {
    var keys := multiset(st.open.Keys);
    assert keys[extra] <= 1;
    if extra in open {
      assert extra in multiset(open.Keys);
      FdBagNonNegative(st.rs, extra);
    }
  }

  lemma AddFits(rs: seq<Region>, i: nat, r: Region)
    requires LowerBound(rs, r.start, i)
    ensures i <= |rs| && |Inserted(rs, i, r)| == |rs| + 1
  {
  }

  // ----- Removing -----

  lemma FilesKept(rs: seq<Region>, files: map<int, int>, files': map<int, int>)
    requires multiset(files'.Keys) == FdBag(rs)
    requires forall fd :: fd in files' ==> fd in files && files'[fd] == files[fd]
    requires forall fd :: fd in files ==> fd >= 0
    ensures forall r :: r in rs ==> FileOf(files, r.fd) == FileOf(files', r.fd)
  {
    hide FdBag;
    forall r | r in rs ensures FileOf(files, r.fd) == FileOf(files', r.fd) {
      if r.fd >= 0 {
        FdBagMember(rs, r);
        assert r.fd in multiset(files'.Keys);
      }
    }
  }

  lemma {:induction false} RemovedIds(rs: seq<Region>, s: nat, e: nat, full: bool, fd: int, bound: nat)
    requires IdsBelow(rs, bound)
    ensures IdsBelow(Removed(rs, s, e, full, fd), bound)
  {
    if rs != [] {
      RemovedIds(rs[1..], s, e, full, fd, bound);
      assert rs[0] in rs;
      forall r | r in Removed(rs, s, e, full, fd) ensures r.vma <= bound {
        assert r in Cut(rs[0], s, e, full, fd) || r in Removed(rs[1..], s, e, full, fd);
      }
    }
  }

  lemma RemovedNaive(rs: seq<Region>, s: nat, e: nat, full: bool, fd: int, files: map<int, int>, files': map<int, int>,
                     naive: nat -> Option<Attr>)
    requires s < e && SaysNaive(rs, files, naive)
    requires forall r :: r in rs && Straddles(r, s, e) ==>
      !full && (r.fd >= 0 ==> FileOf(files, fd) == FileOf(files, r.fd))
    requires forall r :: r in Removed(rs, s, e, full, fd) ==> FileOf(files, r.fd) == FileOf(files', r.fd)
    ensures SaysNaive(Removed(rs, s, e, full, fd), files', Cleared(naive, s, e))
  {
    hide At, Removed, Straddles;
    var ms := Removed(rs, s, e, full, fd);
    forall x: nat ensures At(ms, files', x) == Cleared(naive, s, e)(x) {
      RemovedSays(rs, s, e, full, fd, files, x);
      AtFiles(ms, files, files', x);
    }
  }

  lemma RemovedNaiveButFiles(rs: seq<Region>, s: nat, e: nat, full: bool, fd: int, naive: nat -> Option<Attr>)
    requires s < e && SaysNaiveButFiles(rs, naive) && !(full && AnyStraddles(rs, s, e))
    ensures SaysNaiveButFiles(Removed(rs, s, e, full, fd), Cleared(naive, s, e))
  {
    hide At, Removed;
    forall x: nat ensures At(Removed(rs, s, e, full, fd), map[], x) == NoFile(Cleared(naive, s, e)(x)) {
      RemovedSays(rs, s, e, full, fd, map[], x);
    }
  }

  /** `fd` is a duplicate of the descriptor of the region [s, e) cuts in the middle,
      unless the table has no room for its tail. */
  ghost predicate Reserved(rs: seq<Region>, s: nat, e: nat, full: bool, fd: int, files: map<int, int>) {
    forall r :: r in rs && Straddles(r, s, e) && r.fd >= 0 && !full ==>
      fd >= 0 && FileOf(files, fd) == FileOf(files, r.fd)
  }

  /** At most one region is cut in the middle. */
  lemma OneStraddles(rs: seq<Region>, i: nat, s: nat, e: nat)
    requires Sorted(rs) && i < |rs| && Straddles(rs[i], s, e) && s < e
    ensures forall r :: r in rs && Straddles(r, s, e) ==> r == rs[i]
  {
    forall r | r in rs && Straddles(r, s, e) ensures r == rs[i] {
      var k :| 0 <= k < |rs| && rs[k] == r;
      assert k == i;
    }
  }

  lemma NoneStraddles(rs: seq<Region>, i: nat, s: nat, e: nat)
    requires Sorted(rs) && i <= |rs| && (i < |rs| ==> e <= rs[i].start)
    requires forall k :: 0 <= k < i ==> !Straddles(rs[k], s, e)
    requires s < e
    ensures forall r :: r in rs ==> !Straddles(r, s, e)
  {
  }

  /** A removal needs a second descriptor: one region is file-backed and cut in the
      middle. */
  ghost predicate NeedsDup(rs: seq<Region>, s: nat, e: nat) {
    exists r :: r in rs && Straddles(r, s, e) && r.fd >= 0
  }

  lemma {:induction false} RemovedSpare(rs: seq<Region>, s: nat, e: nat, full: bool, fd: int, fd': int)
    requires full || !NeedsDup(rs, s, e)
    ensures Removed(rs, s, e, full, fd) == Removed(rs, s, e, full, fd')
  {
    if rs != [] {
      assert rs[0] in rs && forall r :: r in rs[1..] ==> r in rs;
      assert Cut(rs[0], s, e, full, fd) == Cut(rs[0], s, e, full, fd');
      RemovedSpare(rs[1..], s, e, full, fd, fd');
    }
  }

  /** A table that owns nothing needs no duplicate. */
  lemma NothingToDup(st: State, cap: nat, s: nat, e: nat)
    requires Good(st, cap, -1) && st.open == map[]
    ensures !NeedsDup(st.rs, s, e)
  {
    hide Good;
    Owners(st, cap, -1);
  }

  lemma NoKeys(open: map<int, int>)
    requires forall fd :: fd !in open
    ensures open == map[]
  {
    var keys := open.Keys;
    assert forall fd :: fd in keys <==> fd in {};
    assert keys == {};
  }

  lemma RemovedFits(st: State, cap: nat, s: nat, e: nat, fd: int)
    requires Good(st, cap, -1) && s < e
    ensures |Removed(st.rs, s, e, |st.rs| >= cap, fd)| <= |st.rs| + 1
  {
    hide Good, Removed, SortedFrom, Sorted;
    Holding(st, cap, -1);
    SortedIsFrom(st.rs, 0);
    RemovedLength(st.rs, 0, s, e, |st.rs| >= cap, fd);
  }

  lemma RemoveGood(st: State, cap: nat, s: nat, e: nat, fd: int, open: map<int, int>)
    requires Good(st, cap, fd) && s < e && Reserved(st.rs, s, e, |st.rs| >= cap, fd, st.open)
    requires |Removed(st.rs, s, e, |st.rs| >= cap, fd)| <= cap
    requires multiset(open.Keys) == FdBag(Removed(st.rs, s, e, |st.rs| >= cap, fd))
    requires forall k :: k in open ==> k in st.open && open[k] == st.open[k]
    ensures Good(State(Removed(st.rs, s, e, |st.rs| >= cap, fd), st.nextVma,
                       st.stale || (|st.rs| >= cap && AnyStraddles(st.rs, s, e)), st.lost, st.loose, open,
                       Cleared(st.naive, s, e)), cap, -1)
    ensures NoneMergeable(st.rs) ==> NoneMergeable(Removed(st.rs, s, e, |st.rs| >= cap, fd))
  {
    hide At, Sorted, SortedFrom, FdBag, IdsBelow, SaysNaive, SaysNaiveButFiles, Removed, Cleared, Straddles, QuietBut,
         NoneMergeable;
    var rs, full := st.rs, |st.rs| >= cap;
    SortedIsFrom(rs, 0) by {
      assert rs != [] ==> 0 <= rs[0].start;
    }
    RemovedSorted(rs, 0, s, e, full, fd);
    SortedFromIndex(Removed(rs, s, e, full, fd), 0);
    RemovedIds(rs, s, e, full, fd, st.nextVma);
    Owners(st, cap, fd);
    FilesKept(Removed(rs, s, e, full, fd), st.open, open);
    RemovedQuiet(rs, 0, s, e, full, fd, st.loose);
    if NoneMergeable(rs) {
      QuietNone(rs);
      RemovedQuiet(rs, 0, s, e, full, fd, {});
      QuietNone(Removed(rs, s, e, full, fd));
    }
    if !(st.stale || (full && AnyStraddles(rs, s, e))) {
      RemovedNaiveButFiles(rs, s, e, full, fd, st.naive);
      if !st.lost {
        RemovedNaive(rs, s, e, full, fd, st.open, open, st.naive);
      }
    }
  }

  // ----- Re-protecting -----

  /** A file-backed region crosses `x`. */
  ghost predicate Crossed(rs: seq<Region>, x: nat) {
    exists r :: r in rs && r.start < x < r.end && r.fd >= 0
  }

  lemma {:induction false} ReprotIds(rs: seq<Region>, s: nat, e: nat, prot: Perms, room: nat, d1: int, d2: int,
                                     bound: nat)
    requires s < e && IdsBelow(rs, bound)
    ensures IdsBelow(Reprot(rs, s, e, prot, room, d1, d2).rs, bound)
    decreases |rs|, if rs != [] && rs[0].start < s then 1 else 0
  {
    if rs != [] {
      var r, rest := rs[0], rs[1..];
      assert r in rs;
      if r.end <= s || (s <= r.start && r.end <= e) || (room == 0 && r.start < e) {
        ReprotIds(rest, s, e, prot, room, d1, d2, bound);
      } else if r.start < e && r.start < s {
        ReprotIds([Dup(Tail(r, s), d1)] + rest, s, e, prot, room - 1, d1, d2, bound);
      }
    }
  }

  lemma ReprotNaive(rs: seq<Region>, s: nat, e: nat, prot: Perms, room: nat, d1: int, d2: int,
                    files: map<int, int>, files': map<int, int>, naive: nat -> Option<Attr>)
    requires s < e && SortedFrom(rs, 0) && !Reprot(rs, s, e, prot, room, d1, d2).stale && SaysNaive(rs, files, naive)
    requires DupFor(rs, s, d1, files') && DupFor(rs, e, d2, files')
    requires forall r :: r in rs ==> FileOf(files, r.fd) == FileOf(files', r.fd)
    ensures SaysNaive(Reprot(rs, s, e, prot, room, d1, d2).rs, files', Protected(naive, s, e, prot))
  {
    hide At, Reprot, SortedFrom, DupFor;
    var ms := Reprot(rs, s, e, prot, room, d1, d2).rs;
    forall x: nat ensures At(ms, files', x) == Protected(naive, s, e, prot)(x) {
      ReprotSays(rs, 0, s, e, prot, room, d1, d2, files', x);
      AtFiles(rs, files, files', x);
    }
  }

  lemma ReprotNaiveButFiles(rs: seq<Region>, s: nat, e: nat, prot: Perms, room: nat, d1: int, d2: int,
                            naive: nat -> Option<Attr>)
    requires s < e && SortedFrom(rs, 0) && !Reprot(rs, s, e, prot, room, d1, d2).stale && SaysNaiveButFiles(rs, naive)
    ensures SaysNaiveButFiles(Reprot(rs, s, e, prot, room, d1, d2).rs, Protected(naive, s, e, prot))
  {
    hide At, Reprot, SortedFrom;
    var ms := Reprot(rs, s, e, prot, room, d1, d2).rs;
    forall x: nat ensures At(ms, map[], x) == NoFile(Protected(naive, s, e, prot)(x)) {
      ReprotSays(rs, 0, s, e, prot, room, d1, d2, map[], x);
    }
  }

  /** A duplicate is asked for and cannot be had. */
  ghost predicate LosesFile(rs: seq<Region>, s: nat, e: nat, room: nat, d1: int, d2: int) {
    || (Crossed(rs, s) && room > 0 && d1 < 0)
    || (Crossed(rs, e) && Spare(rs, s, room) > 0 && d2 < 0)
  }

  lemma CrossedIs(rs: seq<Region>, x: nat)
    requires Crossed(rs, x)
    ensures Crossing(rs, x)
  {
    var r :| r in rs && r.start < x < r.end && r.fd >= 0;
    var i :| 0 <= i < |rs| && rs[i] == r;
    assert rs[i].start < x < rs[i].end;
  }

  /** Only a lost duplicate leaves a loose tail. */
  lemma ShedLoses(rs: seq<Region>, s: nat, e: nat, room: nat, d1: int, d2: int)
    requires s < e && !LosesFile(rs, s, e, room, d1, d2)
    ensures Shed(rs, s, e, room, d1, d2) == {}
  {
    hide Mergeable, Crossing;
    forall i: nat | i < |rs| ensures !LooseTail(rs, i, s, e, room, d1, d2) {
      assert rs[i] in rs;
    }
  }

  /** While the table had room, a duplicate asked for at each file-backed crossing. */
  lemma RoomServes(rs: seq<Region>, s: nat, e: nat, prot: Perms, room: nat, d1: int, d2: int)
    requires SortedFrom(rs, 0) && s < e && !Reprot(rs, s, e, prot, room, d1, d2).stale
    requires !LosesFile(rs, s, e, room, d1, d2)
    ensures (Crossed(rs, s) ==> d1 >= 0) && (Crossed(rs, e) ==> d2 >= 0)
  {
    hide Reprot, SortedFrom, Crossed, Crossing;
    ReprotStale(rs, 0, s, e, prot, room, d1, d2);
    if Crossed(rs, s) {
      CrossedIs(rs, s);
    }
    if Crossed(rs, e) {
      CrossedIs(rs, e);
    }
  }

  lemma ReprotLoose(rs: seq<Region>, s: nat, e: nat, prot: Perms, room: nat, d1: int, d2: int, loose: set<nat>,
                    lost: bool)
    requires Sorted(rs) && s < e && QuietBut(rs, loose) && Unused(rs, d2) && (!lost ==> loose == {})
    ensures var loose' := loose + Shed(rs, s, e, room, d1, d2);
      && QuietBut(Settle(Reprot(rs, s, e, prot, room, d1, d2).rs, s, e), loose')
      && (!(lost || LosesFile(rs, s, e, room, d1, d2)) ==> loose' == {})
  {
    hide QuietBut, Settle, Reprot, Shed, LosesFile, Sorted, Unused;
    var loose' := loose + Shed(rs, s, e, room, d1, d2);
    QuietMore(rs, loose, loose');
    SettledExactly(rs, s, e, prot, room, d1, d2, loose');
    if !LosesFile(rs, s, e, room, d1, d2) {
      ShedLoses(rs, s, e, room, d1, d2);
    }
  }

  lemma ReprotGood(st: State, cap: nat, s: nat, e: nat, prot: Perms, d1: int, d2: int, open: map<int, int>)
    requires Good(st, cap, -1) && s < e
    requires (d1 < 0 || d1 !in st.open) && (d2 < 0 || d2 !in st.open) && (d1 < 0 || d1 != d2)
    requires var out := Reprot(st.rs, s, e, prot, cap - |st.rs|, d1, d2);
      && multiset(open.Keys) == FdBag(out.rs)
      && (forall k :: k in st.open ==> k in open && open[k] == st.open[k])
      && (!st.stale && !out.stale && (Crossed(st.rs, s) ==> d1 >= 0) && (Crossed(st.rs, e) ==> d2 >= 0) ==>
            DupFor(st.rs, s, d1, open) && DupFor(st.rs, e, d2, open))
    ensures var room := cap - |st.rs|;
      var out := Reprot(st.rs, s, e, prot, room, d1, d2);
      Good(State(Settle(out.rs, s, e), st.nextVma, st.stale || out.stale,
                 st.lost || LosesFile(st.rs, s, e, room, d1, d2),
                 st.loose + Shed(st.rs, s, e, room, d1, d2), open, Protected(st.naive, s, e, prot)), cap, -1)
  {
    hide At, Sorted, SortedFrom, FdBag, IdsBelow, SaysNaive, SaysNaiveButFiles, Reprot, Protected, QuietBut,
         Settle, SaysSame, DupFor, Crossed, LosesFile, Shed, Unused;
    var rs, room := st.rs, cap - |st.rs|;
    var out := Reprot(rs, s, e, prot, room, d1, d2);
    var ms := Settle(out.rs, s, e);
    SortedIsFrom(rs, 0);
    ReprotSorted(rs, 0, s, e, prot, room, d1, d2);
    SortedFromIndex(out.rs, 0);
    ReprotIds(rs, s, e, prot, room, d1, d2, st.nextVma);
    Owners(st, cap, -1);
    ReprotFiles(rs, out.rs, st.open, open);
    SettleKeeps(out.rs, s, e, st.nextVma);
    assert Unused(rs, d2) by {
      NotInUse(rs, st.open, d2);
    }
    ReprotLoose(rs, s, e, prot, room, d1, d2, st.loose, st.lost);
    if !st.stale && !out.stale {
      ReprotNaiveButFiles(rs, s, e, prot, room, d1, d2, st.naive);
      if !st.lost && !LosesFile(rs, s, e, room, d1, d2) {
        RoomServes(rs, s, e, prot, room, d1, d2);
        ReprotNaive(rs, s, e, prot, room, d1, d2, st.open, open, st.naive);
      }
    }
    SameNaive(out.rs, ms, open, Protected(st.naive, s, e, prot));
  }

  lemma NotInUse(rs: seq<Region>, open: map<int, int>, fd: int)
    requires (forall r :: r in rs && r.fd >= 0 ==> r.fd in open) && (fd < 0 || fd !in open)
    ensures Unused(rs, fd)
  {
  }

  lemma ReprotFiles(rs: seq<Region>, ms: seq<Region>, files: map<int, int>, files': map<int, int>)
    requires multiset(files'.Keys) == FdBag(ms)
    requires forall k :: k in files ==> k in files' && files'[k] == files[k]
    requires forall r :: r in rs && r.fd >= 0 ==> r.fd in files
    ensures OwnedOnce(ms)
    ensures forall r :: r in rs ==> FileOf(files, r.fd) == FileOf(files', r.fd)
  {
    hide FdBag;
    var keys := multiset(files'.Keys);
    forall fd ensures FdBag(ms)[fd] <= 1 {
      assert keys[fd] <= 1;
    }
    forall r | r in rs ensures FileOf(files, r.fd) == FileOf(files', r.fd) {
      if r.fd in files' && r.fd < 0 {
        FdBagNonNegative(ms, r.fd);
      }
    }
  }

  // ----- A re-protection in progress -----

  function DupOpen(open: map<int, int>, fd: int, dup: int): map<int, int> {
    if fd >= 0 && fd in open && dup >= 0 then open[dup := open[fd]] else open
  }

  /** Splitting a region hands the right half a duplicate. */
  lemma SplitOwners(done: seq<Region>, r: Region, m: nat, rest: seq<Region>, open: map<int, int>, dup: int)
    requires r.start <= m && multiset(open.Keys) == FdBag(done) + FdBag([r] + rest) && (dup < 0 || dup !in open)
    ensures r.fd >= 0 ==> r.fd in open
    ensures multiset(DupOpen(open, r.fd, dup).Keys) == FdBag(done + [Head(r, m)]) + FdBag([Dup(Tail(r, m), dup)] + rest)
  {
    hide FdBag;
    var h, t := Head(r, m), Dup(Tail(r, m), dup);
    FdBagConcat(done, [h]);
    FdBagCons(h, []) by {
      assert [h] + [] == [h];
    }
    FdBagCons(r, rest);
    FdBagCons(t, rest);
    FdBagNone();
    assert [h] + [] == [h];
    if r.fd >= 0 {
      assert r.fd in multiset(open.Keys);
      if dup >= 0 {
        assert open[dup := open[r.fd]].Keys == open.Keys + {dup};
        assert multiset(open.Keys + {dup}) == multiset(open.Keys) + multiset{dup};
      }
    }
  }

  /** Setting a protection moves no descriptor. */
  lemma CoverOwners(done: seq<Region>, r: Region, prot: Perms, rest: seq<Region>)
    ensures FdBag(done) + FdBag([r] + rest) == FdBag(done + [r.(prot := prot)]) + FdBag(rest)
    ensures FdBag(done) + FdBag([r] + rest) == FdBag(done + [r]) + FdBag(rest)
  {
    var q := r.(prot := prot);
    FdBagConcat(done, [q]);
    FdBagConcat(done, [r]);
    FdBagCons(r, rest);
    assert [q] == [q] + [] && [r] == [r] + [];
    FdBagCons(q, []);
    FdBagCons(r, []);
  }

  /** `first` to `last` are the indices whose protection was set so far, or both are
      -1. */
  ghost predicate Marks(done: seq<Region>, first: int, last: int, s: nat, e: nat) {
    && (first >= 0 ==> first <= last == |done| - 1)
    && forall k :: 0 <= k < |done| ==> (Within(done[k], s, e) <==> 0 <= first <= k)
  }

  lemma MarksNext(done: seq<Region>, first: int, last: int, r: Region, s: nat, e: nat)
    requires Marks(done, first, last, s, e)
    ensures first < 0 && !Within(r, s, e) ==> Marks(done + [r], first, last, s, e)
    ensures Within(r, s, e) ==> Marks(done + [r], if first < 0 then |done| else first, |done|, s, e)
  {
  }

  lemma WindowStart(rs: seq<Region>, m: nat, first: nat, s: nat, e: nat)
    requires Sorted(rs) && first < m <= |rs| && s < e
    requires forall k :: 0 <= k < m ==> (Within(rs[k], s, e) <==> first <= k)
    requires forall k :: m <= k < |rs| ==> e <= rs[k].start
    ensures Below(rs, s) == first && Below(rs, e) == m
  {
    forall k | 0 <= k < |rs| ensures (k < first <==> rs[k].start < s) && (k < m <==> rs[k].start < e) {
      if k < first {
        assert rs[k].start < rs[k].end <= rs[first].start && Within(rs[first], s, e) && !Within(rs[k], s, e);
      } else if k < m {
        assert Within(rs[k], s, e);
      }
    }
    BelowIs(rs, s, first);
    BelowIs(rs, e, m);
  }

  lemma WindowEmpty(rs: seq<Region>, s: nat, e: nat)
    requires Sorted(rs) && forall k :: 0 <= k < |rs| ==> !Within(rs[k], s, e)
    ensures Below(rs, e) <= Below(rs, s)
  {
    BelowIndex(rs, s);
    BelowIndex(rs, e);
    var a := Below(rs, s);
    assert a < |rs| ==> !Within(rs[a], s, e);
  }

  lemma AllWithin(done: seq<Region>, rest: seq<Region>, first: int, last: int, s: nat, e: nat)
    requires Marks(done, first, last, s, e) && s < e
    requires forall k :: 0 <= k < |rest| ==> e <= rest[k].start
    ensures var rs := done + rest;
      && (forall k :: 0 <= k < |done| ==> (Within(rs[k], s, e) <==> 0 <= first <= k))
      && (forall k :: |done| <= k < |rs| ==> e <= rs[k].start && !Within(rs[k], s, e))
  {
  }

  /** The merging window found by the loop is the one Settle uses. */
  lemma MarksWindow(done: seq<Region>, rest: seq<Region>, first: int, last: int, s: nat, e: nat)
    requires Sorted(done + rest) && Marks(done, first, last, s, e) && s < e
    requires forall k :: 0 <= k < |rest| ==> e <= rest[k].start
    ensures var rs := done + rest;
      if first < 0 then Below(rs, e) <= Below(rs, s)
      else first <= last && Below(rs, s) == first && Below(rs, e) == last + 1
  {
    hide Below, Sorted, Within;
    var rs := done + rest;
    AllWithin(done, rest, first, last, s, e);
    if first >= 0 {
      WindowStart(rs, |done|, first, s, e);
    } else {
      WindowEmpty(rs, s, e);
    }
  }

  /** Only region `j` crosses `x`. */
  lemma CrossOnly(rs: seq<Region>, j: nat, x: nat, fd: int, files: map<int, int>)
    requires Sorted(rs) && j < |rs| && rs[j].start < x < rs[j].end
    requires rs[j].fd >= 0 ==> FileOf(files, fd) == FileOf(files, rs[j].fd)
    ensures DupFor(rs, x, fd, files)
  {
    forall r | r in rs && r.start < x < r.end ensures r == rs[j] {
      var k :| 0 <= k < |rs| && rs[k] == r;
      assert k == j;
    }
  }

  lemma CrossNone(rs: seq<Region>, j: nat, x: nat, fd: int, files: map<int, int>)
    requires j <= |rs|
    requires (forall k :: 0 <= k < j ==> rs[k].end <= x) && (forall k :: j <= k < |rs| ==> x <= rs[k].start)
    ensures DupFor(rs, x, fd, files)
  {
  }

  /** The arguments of a re-protection. */
  datatype Ask = Ask(s: nat, e: nat, prot: Perms, d1: int, d2: int)

  /** A re-protection between two slots: `done` is finished, `todo` is to come, and
      `goal` is the table wanted in the end. */
  ghost predicate Midway(goal: Edit, done: seq<Region>, todo: seq<Region>, open: map<int, int>, stale: bool, room: nat,
                         first: int, last: int, a: Ask) {
    && Reprotecting(goal, done, todo, stale, a.s, a.e, a.prot, room, a.d1, a.d2)
    && multiset(open.Keys) == FdBag(done) + FdBag(todo)
    && Marks(done, first, last, a.s, a.e)
  }

  lemma MidwayStarts(was: seq<Region>, k: nat, open: map<int, int>, stale: bool, room: nat, a: Ask)
    requires k <= |was| && a.s < a.e && (forall i :: 0 <= i < k ==> was[i].end <= a.s && was[i].start < was[i].end)
    requires multiset(open.Keys) == FdBag(was)
    ensures var out := Reprot(was, a.s, a.e, a.prot, room, a.d1, a.d2);
      Midway(Edit(out.rs, stale || out.stale), was[..k], was[k..], open, stale, room, -1, -1, a)
  {
    hide Reprot, FdBag;
    ReprotPrefix(was, k, a.s, a.e, a.prot, room, a.d1, a.d2);
    assert was[..k] + was[k..] == was;
    FdBagConcat(was[..k], was[k..]);
  }

  /** The region crossing the start, in a full table, is skipped. */
  lemma MidwaySkips(goal: Edit, done: seq<Region>, r: Region, rest: seq<Region>, open: map<int, int>, stale: bool,
                    last: int, a: Ask)
    requires Midway(goal, done, [r] + rest, open, stale, 0, -1, last, a) && r.start < a.s < r.end && a.s < a.e
    ensures Midway(goal, done + [r], rest, open, true, 0, -1, last, a)
  {
    hide Reprotecting, FdBag, Marks;
    ReprotectStep(goal, done, r, rest, stale, a.s, a.e, a.prot, 0, a.d1, a.d2);
    CoverOwners(done, r, r.prot, rest);
    MarksNext(done, -1, last, r, a.s, a.e);
  }

  lemma MidwaySplits(goal: Edit, done: seq<Region>, r: Region, rest: seq<Region>, open: map<int, int>, stale: bool,
                     room: nat, last: int, a: Ask)
    requires Midway(goal, done, [r] + rest, open, stale, room, -1, last, a)
    requires r.start < a.s < r.end && room > 0 && a.s < a.e
    requires a.d1 < 0 || a.d1 !in open
    ensures r.fd >= 0 ==> r.fd in open
    ensures Midway(goal, done + [Head(r, a.s)], [Dup(Tail(r, a.s), a.d1)] + rest, DupOpen(open, r.fd, a.d1), stale,
                   room - 1, -1, last, a)
  {
    hide Reprotecting, FdBag, Marks, DupOpen, Dup;
    ReprotectStep(goal, done, r, rest, stale, a.s, a.e, a.prot, room, a.d1, a.d2);
    SplitOwners(done, r, a.s, rest, open, a.d1);
    MarksNext(done, -1, last, Head(r, a.s), a.s, a.e);
  }

  lemma MidwayCovers(goal: Edit, done: seq<Region>, r: Region, rest: seq<Region>, open: map<int, int>, stale: bool,
                     room: nat, first: int, last: int, a: Ask)
    requires Midway(goal, done, [r] + rest, open, stale, room, first, last, a)
    requires a.s <= r.start < a.e && r.start < r.end
    requires r.end <= a.e || room == 0
    ensures Midway(goal, done + [r.(prot := a.prot)], rest, open, stale || a.e < r.end, room,
                   if first < 0 then |done| else first, |done|, a)
  {
    hide Reprotecting, FdBag, Marks;
    ReprotectStep(goal, done, r, rest, stale, a.s, a.e, a.prot, room, a.d1, a.d2);
    CoverOwners(done, r, a.prot, rest);
    MarksNext(done, first, last, r.(prot := a.prot), a.s, a.e);
  }

  /** Splitting at the range's end finishes the re-protection. */
  lemma MidwayEnds(goal: Edit, done: seq<Region>, r: Region, rest: seq<Region>, open: map<int, int>, stale: bool,
                   room: nat, first: int, last: int, a: Ask)
    requires Midway(goal, done, [r] + rest, open, stale, room, first, last, a)
    requires a.s <= r.start < a.e < r.end && room > 0
    requires a.d2 < 0 || a.d2 !in open
    ensures r.fd >= 0 ==> r.fd in open
    ensures var done', rest' := done + [Head(r, a.e).(prot := a.prot)], [Dup(Tail(r, a.e), a.d2)] + rest;
      && goal == Edit(done' + rest', stale)
      && multiset(DupOpen(open, r.fd, a.d2).Keys) == FdBag(done' + rest')
      && Marks(done', if first < 0 then |done| else first, |done|, a.s, a.e)
  {
    hide Reprotecting, FdBag, Marks, DupOpen, Dup;
    ReprotectStep(goal, done, r, rest, stale, a.s, a.e, a.prot, room, a.d1, a.d2);
    SplitOwners(done, r, a.e, rest, open, a.d2);
    var h, t := Head(r, a.e), Dup(Tail(r, a.e), a.d2);
    MarksNext(done, first, last, h.(prot := a.prot), a.s, a.e);
    CoverOwners(done, h, a.prot, [t] + rest);
    FdBagConcat(done + [h.(prot := a.prot)], [t] + rest);
    assert done + ([h.(prot := a.prot), t] + rest) == (done + [h.(prot := a.prot)]) + ([t] + rest);
  }

  lemma MidwayStops(goal: Edit, done: seq<Region>, rest: seq<Region>, open: map<int, int>, stale: bool, room: nat,
                    first: int, last: int, a: Ask)
    requires Midway(goal, done, rest, open, stale, room, first, last, a)
    requires rest != [] ==> a.e <= rest[0].start < rest[0].end
    ensures goal == Edit(done + rest, stale) && multiset(open.Keys) == FdBag(done + rest)
    ensures Marks(done, first, last, a.s, a.e)
  {
    hide FdBag, Marks;
    ReprotectEnds(goal, done, rest, stale, a.s, a.e, a.prot, room, a.d1, a.d2);
    FdBagConcat(done, rest);
  }

  /** Every duplicate the re-protection may need was to be had. */
  ghost predicate Fair(rs: seq<Region>, a: Ask) {
    (Crossed(rs, a.s) ==> a.d1 >= 0) && (Crossed(rs, a.e) ==> a.d2 >= 0)
  }

  /** `open` has grown by duplicates only. */
  ghost predicate Grown(open: map<int, int>, open': map<int, int>) {
    forall k :: k in open ==> k in open' && open'[k] == open[k]
  }

  lemma GrownSame(open: map<int, int>)
    ensures Grown(open, open)
  {
  }

  lemma GrownLess(open: map<int, int>, fd: int, open': map<int, int>)
    requires Grown(open, open')
    ensures Grown(open - {fd}, open')
  {
  }

  /** The region crossing the start gave its tail a duplicate. */
  lemma SplitServes(was: seq<Region>, j: nat, open: map<int, int>, a: Ask)
    requires Sorted(was) && j < |was| && was[j].start < a.s < was[j].end && (a.d1 < 0 || a.d1 !in open)
    requires was[j].fd >= 0 ==> was[j].fd in open
    ensures Grown(open, DupOpen(open, was[j].fd, a.d1))
    ensures Fair(was, a) ==> DupFor(was, a.s, a.d1, DupOpen(open, was[j].fd, a.d1))
    ensures Fair(was, a) && was[j].fd >= 0 ==> FileOf(DupOpen(open, was[j].fd, a.d1), a.d1) == FileOf(open, was[j].fd)
  {
    var open' := DupOpen(open, was[j].fd, a.d1);
    if Fair(was, a) {
      assert was[j] in was;
      assert was[j].fd >= 0 ==> a.d1 >= 0;
      CrossOnly(was, j, a.s, a.d1, open');
    }
  }

  lemma EndServes(was: seq<Region>, j: nat, r: Region, open: map<int, int>, a: Ask)
    requires Sorted(was) && j < |was| && was[j].start < a.e < was[j].end && (a.d2 < 0 || a.d2 !in open)
    requires was[j].fd >= 0 ==> was[j].fd in open
    requires r.fd >= 0 ==> r.fd in open
    requires Fair(was, a) ==> (r.fd >= 0 <==> was[j].fd >= 0) && FileOf(open, r.fd) == FileOf(open, was[j].fd)
    ensures Grown(open, DupOpen(open, r.fd, a.d2))
    ensures Fair(was, a) ==> DupFor(was, a.e, a.d2, DupOpen(open, r.fd, a.d2))
  {
    if Fair(was, a) {
      assert was[j] in was;
      assert was[j].fd >= 0 ==> a.d2 >= 0;
      CrossOnly(was, j, a.e, a.d2, DupOpen(open, r.fd, a.d2));
    }
  }

  lemma DupGrows(was: seq<Region>, x: nat, fd: int, open: map<int, int>, open': map<int, int>)
    requires DupFor(was, x, fd, open) && Grown(open, open') && forall r :: r in was && r.fd >= 0 ==> r.fd in open
    ensures DupFor(was, x, fd, open')
  {
    forall r | r in was && r.start < x < r.end && r.fd >= 0 ensures FileOf(open', fd) == FileOf(open', r.fd) {
      assert r.fd in open;
    }
  }

  /** A re-protection of `was`, which owned `open0`, before slot `j` of `was`. */
  ghost predicate Going(was: seq<Region>, open0: map<int, int>, start: nat, j: nat, goal: Edit, a: Ask,
                        done: seq<Region>, open: map<int, int>, stale: bool, room: nat, first: int, last: int) {
    && start <= j <= |was| && Owning(was, open0, start, a)
    && Midway(goal, done, was[j..], open, stale, room, first, last, a)
    && (first >= 0 ==> j > start)
    && Grown(open0, open) && (forall k :: k in open ==> k in open0 || k == a.d1) && (j == start ==> open == open0)
    && (j > start && !stale && Fair(was, a) ==> DupFor(was, a.s, a.d1, open))
    && (!stale ==> forall k :: 0 <= k < j ==> was[k].end <= a.e)
  }

  ghost predicate Owning(was: seq<Region>, open0: map<int, int>, start: nat, a: Ask) {
    && Sorted(was) && a.s < a.e && start <= |was|
    && (forall k :: 0 <= k < start ==> was[k].end <= a.s) && (forall k :: start <= k < |was| ==> a.s < was[k].end)
    && (forall r :: r in was && r.fd >= 0 ==> r.fd in open0)
    && (a.d1 < 0 || a.d1 !in open0) && (a.d2 < 0 || a.d2 !in open0) && (a.d1 < 0 || a.d1 != a.d2)
  }

  /** The same, before a region `r` that starts inside the range: slot `j`, or the half
      of it past the range's start. */
  ghost predicate Facing(was: seq<Region>, open0: map<int, int>, start: nat, j: nat, goal: Edit, a: Ask,
                         done: seq<Region>, r: Region, open: map<int, int>, stale: bool, room: nat, first: int,
                         last: int) {
    && start <= j < |was| && Owning(was, open0, start, a)
    && a.s <= r.start < a.e && was[j].start <= r.start < r.end == was[j].end
    && Midway(goal, done, [r] + was[j + 1..], open, stale, room, first, last, a)
    && Grown(open0, open) && (forall k :: k in open ==> k in open0 || k == a.d1)
    && (!stale && Fair(was, a) ==> DupFor(was, a.s, a.d1, open))
    && (!stale ==> forall k :: 0 <= k < j ==> was[k].end <= a.e)
    && (Fair(was, a) ==> (r.fd >= 0 <==> was[j].fd >= 0) && FileOf(open, r.fd) == FileOf(open, was[j].fd))
  }

  /** The re-protection is over, but for the merging. */
  ghost predicate Finished(was: seq<Region>, open0: map<int, int>, goal: Edit, a: Ask,
                           rs: seq<Region>, open: map<int, int>, stale: bool, first: int, last: int) {
    && Edit(rs, stale) == goal && multiset(open.Keys) == FdBag(rs) && Grown(open0, open)
    && (!stale && Fair(was, a) ==> DupFor(was, a.s, a.d1, open) && DupFor(was, a.e, a.d2, open))
    && (Sorted(rs) ==> if first < 0 then Below(rs, a.e) <= Below(rs, a.s)
                      else first <= last && Below(rs, a.s) == first && Below(rs, a.e) == last + 1)
  }

  lemma GoingSkips(was: seq<Region>, open0: map<int, int>, start: nat, j: nat, goal: Edit, a: Ask,
                   done: seq<Region>, open: map<int, int>, stale: bool, first: int, last: int)
    requires Going(was, open0, start, j, goal, a, done, open, stale, 0, first, last) && j < |was| && was[j].start < a.s
    ensures Going(was, open0, start, j + 1, goal, a, done + [was[j]], open, true, 0, first, last)
  {
    hide Midway, DupFor, Fair;
    assert j == start by {
      CrossesFirst(was, open0, start, j, a);
    }
    assert was[j..] == [was[j]] + was[j + 1..];
    assert first < 0;
    SameMarks(goal, done, was[j..], open, stale, 0, first, last, a);
    MidwaySkips(goal, done, was[j], was[j + 1..], open, stale, last, a);
    SameMarks(goal, done + [was[j]], was[j + 1..], open, true, 0, first, last, a);
  }

  lemma CrossesFirst(was: seq<Region>, open0: map<int, int>, start: nat, j: nat, a: Ask)
    requires Owning(was, open0, start, a) && start <= j < |was| && was[j].start < a.s
    ensures j == start
  {
    assert a.s < was[start].end;
  }

  /** With nothing marked yet, any negative number will do. */
  lemma SameMarks(goal: Edit, done: seq<Region>, todo: seq<Region>, open: map<int, int>, stale: bool, room: nat,
                  first: int, last: int, a: Ask)
    requires first < 0
    ensures Midway(goal, done, todo, open, stale, room, first, last, a) <==>
      Midway(goal, done, todo, open, stale, room, -1, last, a)
  {
  }

  lemma GoingSplits(was: seq<Region>, open0: map<int, int>, start: nat, j: nat, goal: Edit, a: Ask,
                    done: seq<Region>, open: map<int, int>, stale: bool, room: nat, first: int, last: int)
    requires Going(was, open0, start, j, goal, a, done, open, stale, room, first, last)
    requires j < |was| && was[j].start < a.s && room > 0
    ensures was[j].fd >= 0 ==> was[j].fd in open
    ensures Facing(was, open0, start, j, goal, a, done + [Head(was[j], a.s)], Dup(Tail(was[j], a.s), a.d1),
                   DupOpen(open, was[j].fd, a.d1), stale, room - 1, first, last)
  {
    hide Midway, DupFor, Fair;
    CrossesFirst(was, open0, start, j, a);
    assert was[j..] == [was[j]] + was[j + 1..];
    SameMarks(goal, done, was[j..], open, stale, room, first, last, a);
    MidwaySplits(goal, done, was[j], was[j + 1..], open, stale, room, last, a);
    SplitServes(was, j, open, a);
    SameMarks(goal, done + [Head(was[j], a.s)], [Dup(Tail(was[j], a.s), a.d1)] + was[j + 1..],
              DupOpen(open, was[j].fd, a.d1), stale, room - 1, first, last, a);
    SplitFile(was, j, open, a);
  }

  lemma SplitFile(was: seq<Region>, j: nat, open: map<int, int>, a: Ask)
    requires j < |was| && was[j].start < a.s < was[j].end && (a.d1 < 0 || a.d1 !in open)
    requires was[j].fd >= 0 ==> was[j].fd in open
    ensures var t, open' := Dup(Tail(was[j], a.s), a.d1), DupOpen(open, was[j].fd, a.d1);
      Fair(was, a) ==> (t.fd >= 0 <==> was[j].fd >= 0) && FileOf(open', t.fd) == FileOf(open', was[j].fd)
  {
    assert was[j] in was;
    assert Fair(was, a) && was[j].fd >= 0 ==> a.d1 >= 0;
  }

  lemma GoingFaces(was: seq<Region>, open0: map<int, int>, start: nat, j: nat, goal: Edit, a: Ask,
                   done: seq<Region>, open: map<int, int>, stale: bool, room: nat, first: int, last: int)
    requires Going(was, open0, start, j, goal, a, done, open, stale, room, first, last)
    requires j < |was| && a.s <= was[j].start < a.e
    ensures Facing(was, open0, start, j, goal, a, done, was[j], open, stale, room, first, last)
  {
    hide Midway, DupFor, Fair;
    assert was[j..] == [was[j]] + was[j + 1..];
    if j == start {
      AfterStart(was, j, a.s);
      CrossNone(was, j, a.s, a.d1, open);
    }
  }

  lemma AfterStart(was: seq<Region>, j: nat, x: nat)
    requires Sorted(was) && j < |was| && x <= was[j].start
    ensures forall k :: j <= k < |was| ==> x <= was[k].start
  {
    forall k | j < k < |was| ensures x <= was[k].start {
      assert was[j].end <= was[k].start;
    }
  }

  lemma FacingCovers(was: seq<Region>, open0: map<int, int>, start: nat, j: nat, goal: Edit, a: Ask,
                     done: seq<Region>, r: Region, open: map<int, int>, stale: bool, room: nat, first: int, last: int)
    requires Facing(was, open0, start, j, goal, a, done, r, open, stale, room, first, last)
    requires r.end <= a.e || room == 0
    ensures Going(was, open0, start, j + 1, goal, a, done + [r.(prot := a.prot)], open, stale || a.e < r.end, room,
                  if first < 0 then |done| else first, |done|)
  {
    hide Midway, DupFor, Fair, Owning;
    MidwayCovers(goal, done, r, was[j + 1..], open, stale, room, first, last, a);
  }

  lemma FacingEnds(was: seq<Region>, open0: map<int, int>, start: nat, j: nat, goal: Edit, a: Ask,
                   done: seq<Region>, r: Region, open: map<int, int>, stale: bool, room: nat, first: int, last: int)
    requires Facing(was, open0, start, j, goal, a, done, r, open, stale, room, first, last) && a.e < r.end && room > 0
    ensures r.fd >= 0 ==> r.fd in open
    ensures Finished(was, open0, goal, a,
                     (done + [Head(r, a.e).(prot := a.prot)]) + ([Dup(Tail(r, a.e), a.d2)] + was[j + 1..]),
                     DupOpen(open, r.fd, a.d2), stale, if first < 0 then |done| else first, |done|)
  {
    hide Midway, DupFor, Fair, Marks, Below, FdBag, DupOpen, Dup, Head, Sorted;
    var h, t := Head(r, a.e).(prot := a.prot), Dup(Tail(r, a.e), a.d2);
    var rest := [t] + was[j + 1..];
    MidwayEnds(goal, done, r, was[j + 1..], open, stale, room, first, last, a);
    assert was[j] in was;
    EndServes(was, j, r, open, a);
    if !stale && Fair(was, a) {
      DupGrows(was, a.s, a.d1, open, DupOpen(open, r.fd, a.d2));
    }
    if Sorted((done + [h]) + rest) {
      TailsPast(was, j, r, a);
      MarksWindow(done + [h], rest, if first < 0 then |done| else first, |done|, a.s, a.e);
    }
  }

  lemma TailsPast(was: seq<Region>, j: nat, r: Region, a: Ask)
    requires Sorted(was) && j < |was| && r.end == was[j].end && r.start <= a.e < r.end
    ensures var rest := [Dup(Tail(r, a.e), a.d2)] + was[j + 1..];
      forall k :: 0 <= k < |rest| ==> a.e <= rest[k].start
  {
    forall k | j < k < |was| ensures was[j].end <= was[k].start {
    }
  }

  lemma GoingStops(was: seq<Region>, open0: map<int, int>, start: nat, j: nat, goal: Edit, a: Ask,
                   done: seq<Region>, open: map<int, int>, stale: bool, room: nat, first: int, last: int)
    requires Going(was, open0, start, j, goal, a, done, open, stale, room, first, last)
    requires j < |was| ==> a.e <= was[j].start
    ensures Finished(was, open0, goal, a, done + was[j..], open, stale, first, last)
  {
    hide Midway, DupFor, Fair, Marks, Below, FdBag, Sorted;
    if j < |was| {
      AfterStart(was, j, a.e);
      NoneEmpty(was, j);
    }
    MidwayStops(goal, done, was[j..], open, stale, room, first, last, a);
    if !stale {
      CrossNone(was, j, a.e, a.d2, open);
    }
    if j == start {
      CrossNone(was, j, a.s, a.d1, open);
    }
    if Sorted(done + was[j..]) {
      MarksWindow(done, was[j..], first, last, a.s, a.e);
    }
  }

  ghost predicate Ready(was: seq<Region>, open: map<int, int>, a: Ask) {
    && a.s < a.e && multiset(open.Keys) == FdBag(was) && (forall r :: r in was && r.fd >= 0 ==> r.fd in open)
    && (a.d1 < 0 || a.d1 !in open) && (a.d2 < 0 || a.d2 !in open) && (a.d1 < 0 || a.d1 != a.d2)
  }

  lemma GoingStarts(was: seq<Region>, open: map<int, int>, start: nat, a: Ask, stale: bool, room: nat)
    requires Sorted(was) && Ready(was, open, a) && start <= |was|
    requires (forall k :: 0 <= k < start ==> was[k].end <= a.s) && (forall k :: start <= k < |was| ==> a.s < was[k].end)
    ensures var out := Reprot(was, a.s, a.e, a.prot, room, a.d1, a.d2);
      Going(was, open, start, start, Edit(out.rs, stale || out.stale), a, was[..start], open, stale, room, -1, -1)
  {
    hide Reprot, FdBag, Midway, DupFor, Fair;
    MidwayStarts(was, start, open, stale, room, a);
  }

  lemma FacingOwns(was: seq<Region>, open0: map<int, int>, start: nat, j: nat, goal: Edit, a: Ask,
                   done: seq<Region>, r: Region, open: map<int, int>, stale: bool, room: nat, first: int, last: int)
    requires Facing(was, open0, start, j, goal, a, done, r, open, stale, room, first, last)
    ensures a.s <= r.start < a.e && (r.fd >= 0 ==> r.fd in open)
  {
    hide FdBag, Reprotecting, Marks, DupFor, Fair;
    FdBagCons(r, was[j + 1..]);
    assert r.fd >= 0 ==> r.fd in multiset(open.Keys);
  }

  lemma GetReady(st: State, cap: nat, a: Ask)
    requires Good(st, cap, -1) && a.s < a.e
    requires (a.d1 < 0 || a.d1 !in st.open) && (a.d2 < 0 || a.d2 !in st.open) && (a.d1 < 0 || a.d1 != a.d2)
    ensures Ready(st.rs, st.open, a)
  {
    hide Sorted, FdBag, IdsBelow, QuietBut, SaysNaive, SaysNaiveButFiles;
    Owners(st, cap, -1);
  }

  /** The state a re-protection leaves, given the descriptors it opened. */
  ghost function Reprotection(st: State, cap: nat, a: Ask, open: map<int, int>): State
    requires |st.rs| <= cap && a.s < a.e
  {
    var room := cap - |st.rs|;
    var out := Reprot(st.rs, a.s, a.e, a.prot, room, a.d1, a.d2);
    State(Settle(out.rs, a.s, a.e), st.nextVma, st.stale || out.stale,
          st.lost || LosesFile(st.rs, a.s, a.e, room, a.d1, a.d2),
          st.loose + Shed(st.rs, a.s, a.e, room, a.d1, a.d2), open, Protected(st.naive, a.s, a.e, a.prot))
  }

  /** Merging what the loop marked gives the table the run invariant wants. */
  lemma FinishedSettles(st: State, cap: nat, a: Ask, out: Edit, rs: seq<Region>, open: map<int, int>, stale: bool,
                        first: int, last: int)
    requires Good(st, cap, -1) && Ready(st.rs, st.open, a)
    requires out == Reprot(st.rs, a.s, a.e, a.prot, cap - |st.rs|, a.d1, a.d2)
    requires Finished(st.rs, st.open, Edit(out.rs, st.stale || out.stale), a, rs, open, stale, first, last)
    ensures rs == out.rs && stale == (st.stale || out.stale) && Grown(st.open, open)
    ensures Settle(rs, a.s, a.e) == if first < 0 then rs else MergeDown(rs, first - 1, last)
    ensures |st.rs| <= cap && Good(Reprotection(st, cap, a, open), cap, -1)
    ensures NoneMergeable(st.rs) ==>
      (NoneMergeable(Settle(rs, a.s, a.e)) <==> NoLooseTail(st.rs, a.s, a.e, cap - |st.rs|, a.d1, a.d2))
  {
    hide Reprot, SortedFrom, FdBag, Crossed, Protected, MergeDown, Below, DupFor, NoneMergeable, SaysNaive,
         SaysNaiveButFiles, IdsBelow, LosesFile, Shed, NoLooseTail, Unused, Good, Settle, Sorted, Fair;
    Holding(st, cap, -1);
    SortedIsFrom(st.rs, 0);
    ReprotSorted(st.rs, 0, a.s, a.e, a.prot, cap - |st.rs|, a.d1, a.d2);
    SortedFromIndex(out.rs, 0);
    SettleIs(rs, a.s, a.e, first, last);
    assert (Crossed(st.rs, a.s) ==> a.d1 >= 0) && (Crossed(st.rs, a.e) ==> a.d2 >= 0) ==> Fair(st.rs, a) by {
      FairIs(st.rs, a);
    }
    ReprotGood(st, cap, a.s, a.e, a.prot, a.d1, a.d2, open);
    if NoneMergeable(st.rs) {
      NotInUse(st.rs, st.open, a.d2);
      UnmergedExactly(st.rs, a.s, a.e, a.prot, cap - |st.rs|, a.d1, a.d2);
    }
  }

  lemma FairIs(rs: seq<Region>, a: Ask)
    ensures Fair(rs, a) <==> (Crossed(rs, a.s) ==> a.d1 >= 0) && (Crossed(rs, a.e) ==> a.d2 >= 0)
  {
  }

  lemma SettleIs(rs: seq<Region>, s: nat, e: nat, first: int, last: int)
    requires if first < 0 then Below(rs, e) <= Below(rs, s)
      else first <= last && Below(rs, s) == first && Below(rs, e) == last + 1
    ensures Settle(rs, s, e) == if first < 0 then rs else MergeDown(rs, first - 1, last)
  {
    hide Below, MergeDown;
  }

  // ----- Clearing -----

  lemma CloseFirst(r: Region, rest: seq<Region>, open: map<int, int>)
    requires multiset(open.Keys) == FdBag([r] + rest)
    ensures multiset((if r.fd >= 0 then open - {r.fd} else open).Keys) == FdBag(rest)
  {
    hide FdBag;
    FdBagCons(r, rest);
    if r.fd >= 0 {
      assert r.fd in multiset(open.Keys);
      assert (open - {r.fd}).Keys == open.Keys - {r.fd};
      assert multiset(open.Keys - {r.fd}) == multiset(open.Keys) - multiset{r.fd};
    }
  }

  lemma AllClosed(open: map<int, int>, nextVma: nat, naive: nat -> Option<Attr>, cap: nat)
    requires multiset(open.Keys) == FdBag([]) && forall x: nat :: naive(x) == None
    ensures open == map[] && Good(State([], nextVma, false, false, {}, open, naive), cap, -1)
  {
    var keys := multiset(open.Keys);
    forall k ensures k !in open {
      assert keys[k] == 0;
    }
  }
}
