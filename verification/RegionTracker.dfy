/** guest_t's region table: a sorted array of regions edited in place, with the
backing descriptors it owns. */
module RegionTracker {
  import opened Descriptors
  import opened Regions
  import opened RegionEdits
  import opened RegionInvariant

  lemma Spliced(a: seq<Region>, was: seq<Region>, out: nat, i: nat, left: Region, right: Region)
    requires out <= i < |was| && |a| == out + 1 + |was| - i && a[out] == left && a[out + 1] == right
    requires forall k :: 0 <= k < out ==> a[k] == was[k]
    requires forall k :: out + 2 <= k < |a| ==> a[k] == was[k - out - 1 + i]
    ensures a == was[..out] + [left, right] + was[i + 1..]
  {
  }

  class Tracker {
    const regions: array<Region>
    var n: nat
    var nextVma: nat
    var stale: bool
    /** The descriptors the table owns, and the open file behind each. */
    var open: map<int, int>
    /** The naive interval map, whether duplicating a descriptor failed, and where the
        tails ended that this left mergeable. */
    ghost var naive: nat -> Option<Attr>
    ghost var lost: bool
    ghost var loose: set<nat>

    ghost function Contents(): seq<Region>
      reads this, regions
      requires n <= regions.Length
    {
      regions[..n]
    }

    ghost function Now(): State
      reads this, regions
      requires n <= regions.Length
    {
      State(Contents(), nextVma, stale, lost, loose, open, naive)
    }

    /** The run invariant, while descriptor `extra` is being handed over. */
    ghost predicate Holds(extra: int)
      reads this, regions
    {
      n <= regions.Length && Good(Now(), regions.Length, extra)
    }

    ghost predicate Valid()
      reads this, regions
    {
      Holds(-1)
    }

    constructor (capacity: nat)
      ensures Valid() && fresh(regions) && regions.Length == capacity
      ensures Contents() == [] && open == map[] && !stale && !lost && loose == {}
    {
      regions := new Region[capacity](_ =>
        Region(0, 0, 0, 0, NO_PERMS, Flags(false, false, false, 0), 0, -1, false, false, false, ""));
      n, nextVma, stale, open, lost, loose := 0, 0, false, map[], false, {};
      naive := _ => None;
    }

    // ----- Searching -----

    /** region_lower_bound_start. */
    method LowerBoundStart(start: nat) returns (lo: nat)
      requires n <= regions.Length && Sorted(Contents())
      ensures LowerBound(Contents(), start, lo)
    {
      lo := 0;
      var hi := n;
      while lo < hi
        invariant 0 <= lo <= hi <= n
        invariant forall k :: 0 <= k < lo ==> regions[k].start < start
        invariant forall k :: hi <= k < n ==> start <= regions[k].start
      {
        var mid := lo + (hi - lo) / 2;
        Ordered(mid);
        if regions[mid].start < start {
          lo := mid + 1;
        } else {
          hi := mid;
        }
      }
    }

    /** guest_region_first_end_above. */
    method FirstEndAbove(addr: nat) returns (lo: nat)
      requires n <= regions.Length && Sorted(Contents())
      ensures lo <= n
      ensures forall k :: 0 <= k < lo ==> regions[k].end <= addr
      ensures forall k :: lo <= k < n ==> addr < regions[k].end
    {
      lo := 0;
      var hi := n;
      while lo < hi
        invariant 0 <= lo <= hi <= n
        invariant forall k :: 0 <= k < lo ==> regions[k].end <= addr
        invariant forall k :: hi <= k < n ==> addr < regions[k].end
      {
        var mid := lo + (hi - lo) / 2;
        Ordered(mid);
        if regions[mid].end <= addr {
          lo := mid + 1;
        } else {
          hi := mid;
        }
      }
    }

    lemma Ordered(mid: nat)
      requires n <= regions.Length && Sorted(Contents()) && mid < n
      ensures forall k :: 0 <= k < mid ==> regions[k].start < regions[mid].start && regions[k].end < regions[mid].end
      ensures forall k :: mid < k < n ==> regions[mid].start < regions[k].start && regions[mid].end < regions[k].end
    {
      forall k | 0 <= k < n && k != mid
        ensures regions[k].start < regions[k].end && regions[mid].start < regions[mid].end
        ensures if k < mid then regions[k].end <= regions[mid].start else regions[mid].end <= regions[k].start
      {
        assert Contents()[k] == regions[k] && Contents()[mid] == regions[mid];
      }
    }

    // ----- Moving entries -----

    /** try_merge_right at `i`, and try_merge_left at `i + 1`. */
    method TryMerge(i: int)
      requires n <= regions.Length
      modifies this`n, regions
      ensures n <= regions.Length && Contents() == MergeAt(old(Contents()), i)
    {
      hide Mergeable;
      ghost var was := Contents();
      if 0 <= i < n - 1 && Mergeable(regions[i], regions[i + 1]) {
        assert was[i] == regions[i] && was[i + 1] == regions[i + 1];
        MergedMoved(was, i);
        regions[i] := regions[i].(end := regions[i + 1].end);
        assert Contents() == was[i := was[i].(end := was[i + 1].end)];
        MoveDown(i + 1, i + 2);
      }
    }

    /** Merge at `hi`, then downwards to `lo`. */
    method MergeRange(lo: int, hi: int)
      requires n <= regions.Length
      modifies this`n, regions
      ensures n <= regions.Length && Contents() == MergeDown(old(Contents()), lo, hi)
    {
      hide MergeAt;
      var i := hi;
      while i >= lo
        invariant n <= regions.Length
        invariant MergeDown(Contents(), lo, i) == MergeDown(old(Contents()), lo, hi)
        decreases i - lo + 1
      {
        TryMerge(i);
        i := i - 1;
      }
    }

    /** Open a slot at `i` by shifting the rest right, and fill it. */
    method InsertSlot(i: nat, r: Region)
      requires i <= n < regions.Length
      modifies this`n, regions
      ensures n == old(n) + 1 <= regions.Length && Contents() == Inserted(old(Contents()), i, r)
    {
      forall k | i < k <= n {
        regions[k] := regions[k - 1];
      }
      regions[i] := r;
      n := n + 1;
    }

    /** Replace slot `i` by two entries at `out` and `out + 1`, the suffix following. */
    method SplitSlot(out: nat, i: nat, left: Region, right: Region)
      requires out <= i < n < regions.Length
      modifies this`n, regions
      ensures n == out + 1 + old(n) - i <= regions.Length
      ensures Contents() == old(Contents())[..out] + [left, right] + old(Contents())[i + 1..]
    {
      ghost var was := Contents();
      var count := n - i - 1;
      forall k | out + 2 <= k < out + 2 + count {
        regions[k] := regions[k - out - 1 + i];
      }
      regions[out] := left;
      regions[out + 1] := right;
      n := out + 2 + count;
      Spliced(regions[..n], was, out, i, left, right);
    }

    /** Close the hole [out, i). */
    method MoveDown(out: nat, i: nat)
      requires out <= i <= n <= regions.Length
      modifies this`n, regions
      ensures n == out + old(n) - i <= regions.Length && Contents() == old(Contents())[..out] + old(Contents())[i..]
    {
      var tail := n - i;
      forall k | out <= k < out + tail {
        regions[k] := regions[k - out + i];
      }
      n := out + tail;
    }

    // ----- Removing -----

    /** Write slot `out`, behind `done`; the slots from `j` on stay as they are. */
    method PutSlot(out: nat, r: Region, ghost done: seq<Region>, ghost j: nat, ghost rest: seq<Region>)
      requires out < j <= n <= regions.Length && regions[..out] == done && regions[j..n] == rest
      modifies regions
      ensures regions[..out + 1] == done + [r] && regions[j..n] == rest
    {
      regions[out] := r;
      assert regions[..out] == done;
    }

    /** A region cut in the middle: the tail takes over the reserved descriptor. */
    method CutMiddle(out: nat, i: nat, s: nat, e: nat, reserved: int, ghost done: seq<Region>, ghost r: Region,
                     ghost rest: seq<Region>)
      returns (out': nat)
      requires out <= i < n < regions.Length && r.start < s < e < r.end
      requires regions[..out] == done && regions[i..n] == [r] + rest
      modifies this`n, regions
      ensures n <= regions.Length && Contents() == done + [Head(r, s), Dup(Tail(r, e), reserved)] + rest
    {
      hide Head, Tail, Dup;
      var c := regions[i];
      ghost var now := Contents();
      assert c == regions[i..n][0] && now[..out] == done && now[i + 1..] == regions[i..n][1..] == rest;
      SplitSlot(out, i, Head(c, s), Dup(Tail(c, e), reserved));
      return out;
    }

    /** A region that keeps its head or its tail, or neither. */
    method CutEdge(out: nat, i: nat, s: nat, e: nat, ghost done: seq<Region>, ghost r: Region, ghost rest: seq<Region>)
      returns (out': nat)
      requires out <= i < n <= regions.Length && s < e && s < r.end && r.start < e
      requires regions[..out] == done && regions[i..n] == [r] + rest
      modifies this`open, regions
      ensures open == if Swallowed(r, s, e) && r.fd >= 0 then old(open) - {r.fd} else old(open)
      ensures out <= out' <= i + 1 && regions[i + 1..n] == rest
      ensures regions[..out'] == done + if r.start < s then [Head(r, s)] else if e < r.end then [Tail(r, e)] else []
    {
      hide Head, Tail;
      var c := regions[i];
      assert c == regions[i..n][0] && regions[i + 1..n] == regions[i..n][1..] == rest;
      if s <= c.start && c.end <= e {
        if c.fd >= 0 {
          open := open - {c.fd};
        }
        assert done + [] == done;
        return out;
      }
      PutSlot(out, if c.start < s then Head(c, s) else Tail(c, e), done, i + 1, rest);
      return out + 1;
    }

    /** One region of the compaction: the one in slot `i`, which overlaps [s, e).
        `grown` says it was cut in the middle, which ends the loop. */
    method CutSlot(out: nat, i: nat, s: nat, e: nat, reserved: int, ghost done: seq<Region>, ghost r: Region,
                   ghost rest: seq<Region>)
      returns (out': nat, grown: bool)
      requires out <= i < n <= regions.Length && s < e && s < r.end && r.start < e
      requires regions[..out] == done && regions[i..n] == [r] + rest
      modifies this, regions
      ensures nextVma == old(nextVma) && naive == old(naive) && lost == old(lost) && loose == old(loose)
      ensures n <= regions.Length
      ensures grown <==> Straddles(r, s, e) && old(n) < regions.Length
      ensures stale == (old(stale) || (Straddles(r, s, e) && old(n) >= regions.Length))
      ensures open == if Swallowed(r, s, e) && r.fd >= 0 then old(open) - {r.fd} else old(open)
      ensures !grown ==>
        && n == old(n) && out <= out' <= i + 1
        && regions[..out'] == done + Cut(r, s, e, old(n) >= regions.Length, reserved) && regions[i + 1..n] == rest
      ensures grown ==> open == old(open) && Contents() == done + Cut(r, s, e, false, reserved) + rest
    {
      var c := regions[i];
      assert c == regions[i..n][0] == r;
      CutCases(r, s, e, n >= regions.Length, reserved);
      hide Cut, Head, Tail, Dup;
      if c.start < s && e < c.end {
        if n < regions.Length {
          out' := CutMiddle(out, i, s, e, reserved, done, r, rest);
          return out', true;
        }
        stale := true;
      }
      out' := CutEdge(out, i, s, e, done, r, rest);
      return out', false;
    }

    /** The compaction loop of guest_region_remove_reserved: `out` is the next slot to
        write and `i` the next to read.  `used` says a region cut in the middle took
        over the reserved descriptor. */
    method Compact(s: nat, e: nat, reserved: int) returns (out: nat, i: nat, grown: bool, used: bool)
      requires n <= regions.Length && Sorted(Contents()) && s < e
      requires multiset(open.Keys) == FdBag(Contents()) + Bag(reserved)
      modifies this, regions
      ensures n <= regions.Length && nextVma == old(nextVma)
      ensures naive == old(naive) && lost == old(lost) && loose == old(loose)
      ensures Grown(open, old(open))
      ensures stale == (old(stale) || (old(n) >= regions.Length && AnyStraddles(old(Contents()), s, e)))
      ensures grown ==>
        && Contents() == Removed(old(Contents()), s, e, old(n) >= regions.Length, reserved)
        && multiset(open.Keys) == if used then FdBag(Contents()) else FdBag(Contents()) + Bag(reserved)
      ensures !grown ==>
        && out <= i <= n == old(n)
        && Removed(old(Contents()), s, e, old(n) >= regions.Length, reserved) == regions[..out] + regions[i..n]
        && multiset(open.Keys) == FdBag(regions[..out] + regions[i..n]) + Bag(reserved)
    {
      hide FdBag, Cut, Removed, Sorted, Removing, AnyStraddles, Straddles, Swallowed, Bag, Grown;
      GrownSame(open);
      ghost var was, full := Contents(), n >= regions.Length;
      out := FirstEndAbove(s);
      i, grown, used := out, false, false;
      ghost var done, rest := was[..i], was[i..];
      RemovingStart(was, i, s, e, full, reserved);
      NoStraddlerBefore(was, i, s, e);
      while i < n
        invariant out <= i <= n == old(n) && nextVma == old(nextVma) && !grown
        invariant naive == old(naive) && lost == old(lost) && loose == old(loose)
        invariant regions[..out] == done && regions[i..n] == rest
        invariant Removing(was, done, rest, multiset(open.Keys), s, e, full, reserved)
        invariant Grown(open, old(open))
        invariant (stale || (full && AnyStraddles(rest, s, e))) == (old(stale) || (full && AnyStraddles(was, s, e)))
      {
        ghost var r, after := rest[0], rest[1..];
        assert rest == [r] + after && regions[i] == r;
        if regions[i].start >= e {
          break;
        }
        used := regions[i].fd >= 0;
        RemovingHead(was, done, r, after, multiset(open.Keys), s, e, full, reserved);
        ghost var keys := open.Keys;
        GrownLess(open, r.fd, old(open));
        assert r.fd in keys ==> multiset(keys - {r.fd}) == multiset(keys) - multiset{r.fd};
        out, grown := CutSlot(out, i, s, e, reserved, done, r, after);
        if grown {
          RemovingGrows(was, done, r, after, multiset(open.Keys), s, e, reserved);
          return;
        }
        RemovingStep(was, done, r, after, multiset(keys), s, e, full, reserved);
        i, done, rest := i + 1, done + Cut(r, s, e, full, reserved), after;
      }
      RemovingEnds(was, done, rest, multiset(open.Keys), s, e, full, reserved);
    }

    /** The compaction, then the unread suffix, then the reserved descriptor. */
    method RemoveOverlaps(s: nat, e: nat, reserved: int)
      requires n <= regions.Length && Sorted(Contents()) && s < e
      requires multiset(open.Keys) == FdBag(Contents()) + Bag(reserved)
      modifies this, regions
      ensures n <= regions.Length && nextVma == old(nextVma)
      ensures naive == old(naive) && lost == old(lost) && loose == old(loose)
      ensures Contents() == Removed(old(Contents()), s, e, old(n) >= regions.Length, reserved)
      ensures multiset(open.Keys) == FdBag(Contents())
      ensures stale == (old(stale) || (old(n) >= regions.Length && AnyStraddles(old(Contents()), s, e)))
      ensures forall fd :: fd in open ==> fd in old(open) && open[fd] == old(open)[fd]
    {
      hide FdBag, Removed, AnyStraddles, Bag;
      var out, i, grown, used := Compact(s, e, reserved);
      if !grown {
        assert regions[..n][..out] == regions[..out] && regions[..n][i..] == regions[i..n];
        MoveDown(out, i);
      }
      if !(grown && used) {
        CloseExtra(reserved);
      }
    }

    /** guest_region_remove_reserved: the caller hands over `reserved`, which ends up
        with the tail of a region cut in the middle, or closed. */
    method RemoveReserved(s: nat, e: nat, reserved: int)
      requires Holds(reserved)
      requires s < e ==> Reserved(Contents(), s, e, n >= regions.Length, reserved, open)
      modifies this, regions
      ensures Valid() && nextVma == old(nextVma) && lost == old(lost) && loose == old(loose)
      ensures e <= s ==> Contents() == old(Contents()) && naive == old(naive) && stale == old(stale)
      ensures s < e ==>
        && Contents() == Removed(old(Contents()), s, e, old(n) >= regions.Length, reserved)
        && stale == (old(stale) || (old(n) >= regions.Length && AnyStraddles(old(Contents()), s, e)))
        && naive == Cleared(old(naive), s, e)
      ensures forall fd :: fd in open ==> fd in old(open) && open[fd] == old(open)[fd]
      ensures NoneMergeable(old(Contents())) ==> NoneMergeable(Contents())
    {
      hide Good, FdBag, Removed, AnyStraddles, Reserved, Bag, NoneMergeable;
      ghost var was := Now();
      Holding(was, regions.Length, reserved);
      if e <= s {
        CloseExtra(reserved);
        HandedOver(was, regions.Length, reserved, open);
      } else {
        RemoveOverlaps(s, e, reserved);
        naive := Cleared(naive, s, e);
        RemoveGood(was, regions.Length, s, e, reserved, open);
      }
    }

    /** Close a descriptor the table did not take. */
    method CloseExtra(fd: int)
      requires n <= regions.Length && multiset(open.Keys) == FdBag(Contents()) + Bag(fd)
      modifies this`open
      ensures multiset(open.Keys) == FdBag(Contents())
      ensures forall k :: k in open ==> k in old(open) && open[k] == old(open)[k]
    {
      hide FdBag;
      if fd >= 0 {
        ghost var keys := open.Keys;
        assert fd in multiset(keys);
        open := open - {fd};
        assert multiset(keys - {fd}) == multiset(keys) - multiset{fd};
        assert open.Keys == keys - {fd};
      }
    }

    /** guest_region_remove_prepare: duplicate the descriptor the removal will need.
        `dup` is what duplicating gives. */
    method RemovePrepare(s: nat, e: nat, dup: int) returns (ok: bool, reserved: int)
      requires Valid() && (dup < 0 || dup !in open)
      modifies this`open
      ensures ok <==> !(s < e && n < regions.Length && NeedsDup(Contents(), s, e) && dup < 0)
      ensures ok ==> Holds(reserved) && (s < e ==> Reserved(Contents(), s, e, n >= regions.Length, reserved, open))
      ensures !ok ==> Valid()
      ensures reserved < 0 ==> open == old(open) && (ok && s < e && NeedsDup(Contents(), s, e) ==> n >= regions.Length)
      ensures reserved >= 0 ==> s < e && NeedsDup(Contents(), s, e)
      ensures reserved >= 0 ==> reserved == dup && dup in open && open.Keys == old(open).Keys + {dup}
      ensures forall fd :: fd in old(open) ==> fd in open && open[fd] == old(open)[fd]
    {
      hide Good, FdBag;
      ghost var was := Now();
      Holding(was, regions.Length, -1);
      ok, reserved := true, -1;
      if e <= s {
        return;
      }
      var i: nat := FirstEndAbove(s);
      while i < n
        invariant i <= n
        invariant forall k :: 0 <= k < i ==> !Straddles(Contents()[k], s, e)
        invariant forall k :: i <= k < n ==> s < regions[k].end
      {
        if regions[i].start >= e {
          break;
        }
        if regions[i].start < s && regions[i].end > e {
          OneStraddles(Contents(), i, s, e);
          assert regions[i] == Contents()[i];
          if n < regions.Length && regions[i].fd >= 0 {
            reserved := dup;
            ok := reserved >= 0;
            if ok {
              Owners(was, regions.Length, -1);
              open := open[dup := open[regions[i].fd]];
              OpenGood(was, regions.Length, dup, was.open[regions[i].fd]);
            }
          }
          return;
        }
        i := i + 1;
      }
      NoneStraddles(Contents(), i, s, e);
    }

    /** guest_region_remove: either nothing changes, because the one duplicate that was
        needed could not be had, or exactly [s, e) is forgotten. */
    method Remove(s: nat, e: nat, dup: int) returns (ok: bool)
      requires Valid() && (dup < 0 || dup !in open)
      modifies this, regions
      ensures Valid() && nextVma == old(nextVma) && lost == old(lost) && loose == old(loose)
      ensures ok <==> !(s < e && old(n) < regions.Length && NeedsDup(old(Contents()), s, e) && dup < 0)
      ensures !ok || e <= s ==> Contents() == old(Contents()) && naive == old(naive) && stale == old(stale)
      ensures !ok ==> open == old(open)
      ensures ok && s < e ==>
        && Contents() == Removed(old(Contents()), s, e, old(n) >= regions.Length, dup)
        && stale == (old(stale) || (old(n) >= regions.Length && AnyStraddles(old(Contents()), s, e)))
        && naive == Cleared(old(naive), s, e)
      ensures forall fd :: fd in open && fd in old(open) ==> open[fd] == old(open)[fd]
      ensures !NeedsDup(old(Contents()), s, e) ==> forall fd :: fd in open ==> fd in old(open)
      ensures NoneMergeable(old(Contents())) ==> NoneMergeable(Contents())
    {
      hide Good, FdBag, Removed, AnyStraddles, Reserved, NeedsDup, NoneMergeable;
      var reserved;
      ok, reserved := RemovePrepare(s, e, dup);
      if ok {
        if reserved < 0 && s < e {
          RemovedSpare(Contents(), s, e, n >= regions.Length, reserved, dup);
        }
        RemoveReserved(s, e, reserved);
      }
    }

    // ----- Adding -----

    method AllocateId(vma: nat) returns (id: nat)
      modifies this`nextVma
      ensures id == (if vma == 0 then old(nextVma) + 1 else vma) && id <= nextVma
      ensures nextVma == if id > old(nextVma) then id else old(nextVma)
    {
      if vma == 0 {
        nextVma := nextVma + 1;
        return nextVma;
      } else if vma > nextVma {
        nextVma := vma;
      }
      return vma;
    }

    /** Insert `r` where it belongs, under a neighbour's id if it is to have a new one
        and the two could merge, and merge. */
    method Insert(r: Region, newId: bool) returns (id: nat, ghost i: nat)
      requires n < regions.Length && Sorted(Contents())
      modifies this`n, regions
      ensures n <= regions.Length && n <= old(n) + 1 && LowerBound(old(Contents()), r.start, i)
      ensures id == if newId then Adopted(old(Contents()), i, r) else r.vma
      ensures Contents() == MergeDown(Inserted(old(Contents()), i, r.(vma := id)), i - 1, i)
    {
      hide Sorted, MergeDown, Inserted, MergeableLayout;
      var at: nat := LowerBoundStart(r.start);
      i, id := at, r.vma;
      if newId {
        if at > 0 && MergeableLayout(regions[at - 1], r) {
          id := regions[at - 1].vma;
        } else if at < n && MergeableLayout(r, regions[at]) {
          id := regions[at].vma;
        }
      }
      InsertSlot(at, r.(vma := id));
      MergeDownLength(Contents(), at - 1, at);
      MergeRange(at - 1, at);
    }

    /** Insert `r`, whose id is within the mark. */
    method Track(r: Region, newId: bool, ghost mark: nat) returns (id: nat, ghost i: nat)
      requires n < regions.Length && mark <= nextVma && r.vma <= nextVma && r.start < r.end
      requires Good(Now().(nextVma := mark), regions.Length, r.fd) && Apart(Contents(), r.start, r.end)
      modifies this`n, this`naive, regions
      ensures Valid() && n <= old(n) + 1 && LowerBound(old(Contents()), r.start, i)
      ensures id == if newId then Adopted(old(Contents()), i, r) else r.vma
      ensures Contents() == MergeDown(Inserted(old(Contents()), i, r.(vma := id)), i - 1, i)
      ensures naive == Covered(old(naive), r.(vma := id), open)
      ensures NoneMergeable(old(Contents())) ==> NoneMergeable(Contents())
    {
      hide Good, FdBag, LowerBound, Apart, MergeDown, Inserted, Adopted, Covered, Sorted, Bag, NoneMergeable;
      ghost var was := Now().(nextVma := mark);
      Holding(was, regions.Length, r.fd);
      id, i := Insert(r, newId);
      naive := Covered(naive, r.(vma := id), open);
      AdoptedId(was, regions.Length, r.fd, i, r);
      AddGood(was, regions.Length, i, r.(vma := id), nextVma);
      if NoneMergeable(was.rs) {
        AddQuiet(was.rs, i, r.(vma := id));
      }
    }

    /** With the table full, the descriptor that came with a mapping is closed. */
    method Refuse(fd: int)
      requires Holds(fd)
      modifies this`open
      ensures Valid() && fd !in open
    {
      hide Good, FdBag, Bag;
      ghost var was := Now();
      Holding(was, regions.Length, fd);
      CloseExtra(fd);
      HandedOver(was, regions.Length, fd, open);
      NotOwned(was, regions.Length, fd, open);
    }

    /** guest_region_add_ex_owned_gpa: track a new mapping, clear of the others, that
        takes over descriptor `fd`.  `vma` 0 asks for a new id. */
    method Add(start: nat, end: nat, gpa: nat, prot: Perms, flags: Flags, offset: nat, name: string, fd: int,
               inherited: bool, vma: nat)
      returns (ok: bool, id: nat, ghost i: nat)
      requires Holds(fd) && start < end && Apart(Contents(), start, end)
      modifies this, regions
      ensures Valid() && stale == old(stale) && lost == old(lost) && loose == old(loose) && n <= old(n) + 1
      ensures ok <==> old(n) < regions.Length
      ensures !ok ==> Contents() == old(Contents()) && naive == old(naive) && nextVma == old(nextVma) && fd !in open
      ensures ok ==>
        var wanted := if vma == 0 then old(nextVma) + 1 else vma;
        var r := Region(start, end, gpa, wanted, prot, flags, offset, fd, flags.noreserve, false, inherited, name);
        && LowerBound(old(Contents()), start, i)
        && id == (if vma == 0 then Adopted(old(Contents()), i, r) else vma)
        && nextVma == (if wanted > old(nextVma) then wanted else old(nextVma))
        && Contents() == MergeDown(Inserted(old(Contents()), i, r.(vma := id)), i - 1, i)
        && naive == Covered(old(naive), r.(vma := id), open) && open == old(open)
      ensures NoneMergeable(old(Contents())) ==> NoneMergeable(Contents())
    {
      hide Good, FdBag, LowerBound, Apart, MergeDown, Inserted, Adopted, Covered, Sorted, Bag, NoneMergeable;
      id, i := vma, 0;
      if n >= regions.Length {
        Refuse(fd);
        return false, id, i;
      }
      var wanted := AllocateId(vma);
      var r := Region(start, end, gpa, wanted, prot, flags, offset, fd, flags.noreserve, false, inherited, name);
      id, i := Track(r, vma == 0, old(nextVma));
      ok := true;
    }

    /** guest_region_add_elf_segment: the segment's whole pages, taken over from
        whatever was there.  Returns the region as recorded. */
    method AddElfSegment(start: nat, end: nat, gpa: nat, prot: Perms, offset: nat, name: string, dup: int)
      returns (ok: bool, ghost r: Region)
      requires Valid() && start < end && start % 4096 <= gpa && (dup < 0 || dup !in open)
      modifies this, regions
      ensures Valid() && lost == old(lost) && loose == old(loose) && (old(stale) ==> stale)
      ensures r.start == start / 4096 * 4096 && r.end == (end + 4095) / 4096 * 4096 && r.gpa == gpa - start % 4096
      ensures r.prot == prot && r.fd == -1 && r.offset == if offset >= start % 4096 then offset - start % 4096 else 0
      ensures ok ==> naive == Covered(Cleared(old(naive), r.start, r.end), r, open)
      ensures old(n) + 2 <= regions.Length && old(open) == map[] ==>
        ok && n <= old(n) + 2 && open == map[] && stale == old(stale)
    {
      hide Good, FdBag, Removed, AnyStraddles, NeedsDup, Covered, Cleared, MergeDown, Inserted, Adopted, LowerBound,
           Apart;
      var lead := start % 4096;
      var s, e := start - lead, (end + 4095) / 4096 * 4096;
      var flags := Flags(false, false, false, 2);
      var at := if offset >= lead then offset - lead else 0;
      r := Region(s, e, gpa - lead, 0, prot, flags, at, -1, false, false, false, name);
      ghost var bare := open == map[];
      if bare {
        NothingToDup(Now(), regions.Length, s, e);
        assert !NeedsDup(Contents(), s, e);
      }
      RemovedFits(Now(), regions.Length, s, e, dup);
      ok := Remove(s, e, dup);
      if !ok {
        return;
      }
      RemovedApart(old(Contents()), s, e, old(n) >= regions.Length, dup);
      if bare {
        NoKeys(open);
      }
      var id;
      ghost var i;
      ok, id, i := Add(s, e, gpa - lead, prot, flags, at, name, -1, false, 0);
      r := r.(vma := id);
    }

    // ----- Re-protecting -----

    /** Split slot `i` at `m`; `dup` is what duplicating its descriptor gives. */
    method SplitAt(i: nat, m: nat, dup: int, ghost done: seq<Region>, ghost r: Region, ghost rest: seq<Region>)
      requires i < n < regions.Length && r.start <= m && regions[..i] == done && regions[i..n] == [r] + rest
      requires r.fd >= 0 ==> r.fd in open
      modifies this`n, this`open, regions
      ensures n == old(n) + 1 <= regions.Length && open == DupOpen(old(open), r.fd, dup)
      ensures regions[..i + 1] == done + [Head(r, m)] && regions[i + 1..n] == [Dup(Tail(r, m), dup)] + rest
    {
      hide Head, Tail;
      var c := regions[i];
      assert c == regions[i..n][0];
      ghost var now := Contents();
      assert now[..i] == done && now[i + 1..] == regions[i..n][1..] == rest;
      SplitSlot(i, i, Head(c, m), Dup(Tail(c, m), dup));
      if c.fd >= 0 && dup >= 0 {
        open := open[dup := open[c.fd]];
      }
      assert Contents() == done + [Head(r, m)] + ([Dup(Tail(r, m), dup)] + rest);
      assert regions[..i + 1] == Contents()[..i + 1] && regions[i + 1..n] == Contents()[i + 1..];
    }

    /** Re-protect slot `i`, which starts inside the range.  `ended` says it was split
        at the range's end. */
    method Cover(i: nat, e: nat, prot: Perms, dup: int, ghost done: seq<Region>, ghost r: Region,
                 ghost rest: seq<Region>)
      returns (ended: bool)
      requires i < n <= regions.Length && r.start < e && regions[..i] == done && regions[i..n] == [r] + rest
      requires r.fd >= 0 ==> r.fd in open
      modifies this`n, this`open, this`stale, regions
      ensures n <= regions.Length
      ensures ended <==> e < r.end && old(n) < regions.Length
      ensures stale == (old(stale) || (e < r.end && old(n) >= regions.Length))
      ensures !ended ==>
        && n == old(n) && open == old(open)
        && regions[..i + 1] == done + [r.(prot := prot)] && regions[i + 1..n] == rest
      ensures ended ==>
        && n == old(n) + 1 && open == DupOpen(old(open), r.fd, dup)
        && regions[..i + 1] == done + [Head(r, e).(prot := prot)] && regions[i + 1..n] == [Dup(Tail(r, e), dup)] + rest
    {
      hide Head, Tail, Dup, DupOpen;
      var c := regions[i];
      assert c == regions[i..n][0] && regions[i + 1..n] == regions[i..n][1..] == rest;
      if e < c.end {
        if n >= regions.Length {
          stale := true;
        } else {
          SplitAt(i, e, dup, done, r, rest);
          c := regions[i];
          assert c == regions[..i + 1][i] && regions[..i] == regions[..i + 1][..i] == done;
          PutSlot(i, c.(prot := prot), done, i + 1, [Dup(Tail(r, e), dup)] + rest);
          return true;
        }
      }
      PutSlot(i, c.(prot := prot), done, i + 1, rest);
      return false;
    }

    method CoverSlot(i: nat, ghost was: seq<Region>, ghost open0: map<int, int>, ghost start: nat, ghost j: nat,
                     ghost goal: Edit, e: nat, prot: Perms, d2: int, ghost a: Ask, ghost done: seq<Region>,
                     ghost r: Region, first: int, ghost last: int)
      returns (ended: bool, first': int)
      requires i < n <= regions.Length && j < |was| && regions[..i] == done && regions[i..n] == [r] + was[j + 1..]
      requires a.e == e && a.prot == prot && a.d2 == d2
      requires Facing(was, open0, start, j, goal, a, done, r, open, stale, regions.Length - n, first, last)
      modifies this`n, this`open, this`stale, regions
      ensures n <= regions.Length && first' == if first < 0 then i else first
      ensures ended ==> Finished(was, open0, goal, a, Contents(), open, stale, first', i)
      ensures !ended ==>
        && n == old(n) && regions[i + 1..n] == was[j + 1..]
        && Going(was, open0, start, j + 1, goal, a, regions[..i + 1], open, stale, regions.Length - n, first', i)
    {
      hide Facing, Going, Finished, Head, Tail, Dup, DupOpen;
      FacingOwns(was, open0, start, j, goal, a, done, r, open, stale, regions.Length - n, first, last);
      ghost var room, own, late, rest := regions.Length - n, open, stale, was[j + 1..];
      ended := Cover(i, e, prot, d2, done, r, rest);
      first' := if first < 0 then i else first;
      if ended {
        FacingEnds(was, open0, start, j, goal, a, done, r, own, late, room, first, last);
        assert Contents() == regions[..i + 1] + regions[i + 1..n];
      } else {
        FacingCovers(was, open0, start, j, goal, a, done, r, own, late, room, first, last);
      }
    }

    /** One round of the loop in guest_region_set_prot: slot `i` overlaps the range.
        `i'` is the last slot it wrote. */
    method StepSlot(i: nat, ghost was: seq<Region>, ghost open0: map<int, int>, ghost start: nat, ghost j: nat,
                    ghost goal: Edit, s: nat, e: nat, prot: Perms, d1: int, d2: int, ghost done: seq<Region>,
                    first: int, last: int)
      returns (i': nat, ended: bool, first': int, last': int)
      requires i < n <= regions.Length && j < |was| && regions[..i] == done && regions[i..n] == [was[j]] + was[j + 1..]
      requires was[j].start < e
      requires Going(was, open0, start, j, goal, Ask(s, e, prot, d1, d2), done, open, stale, regions.Length - n,
                     first, last)
      modifies this`n, this`open, this`stale, regions
      ensures n <= regions.Length
      ensures ended ==> Finished(was, open0, goal, Ask(s, e, prot, d1, d2), Contents(), open, stale, first', last')
      ensures !ended ==>
        && i' < n && n - i' == old(n) - i && regions[i' + 1..n] == was[j + 1..]
        && Going(was, open0, start, j + 1, goal, Ask(s, e, prot, d1, d2), regions[..i' + 1], open, stale,
                 regions.Length - n, first', last')
    {
      hide Going, Facing, Finished, Head, Tail, Dup, DupOpen;
      ghost var r, rest, a := was[j], was[j + 1..], Ask(s, e, prot, d1, d2);
      assert regions[i] == regions[i..n][0] == r;
      i', first', last' := i, first, last;
      if regions[i].start < s {
        if n >= regions.Length {
          GoingSkips(was, open0, start, j, goal, a, done, open, stale, first, last);
          assert regions[i + 1..n] == regions[i..n][1..] == rest;
          stale := true;
          assert regions[..i + 1] == done + [r];
          return i, false, first, last;
        }
        GoingSplits(was, open0, start, j, goal, a, done, open, stale, regions.Length - n, first, last);
        SplitAt(i, s, d1, done, r, rest);
        ended, first' := CoverSlot(i + 1, was, open0, start, j, goal, e, prot, d2, a, done + [Head(r, s)],
                                   Dup(Tail(r, s), d1), first, last);
        return i + 1, ended, first', i + 1;
      }
      GoingFaces(was, open0, start, j, goal, a, done, open, stale, regions.Length - n, first, last);
      ended, first' := CoverSlot(i, was, open0, start, j, goal, e, prot, d2, a, done, r, first, last);
      last' := i;
    }

    /** The loop of guest_region_set_prot, from slot `from`.  `first` and `last` bound
        the slots whose protection was set. */
    method ReprotectFrom(from: nat, ghost was: seq<Region>, ghost open0: map<int, int>, ghost goal: Edit,
                         s: nat, e: nat, prot: Perms, d1: int, d2: int)
      returns (first: int, last: int)
      requires from <= n == |was| <= regions.Length && regions[from..n] == was[from..]
      requires Going(was, open0, from, from, goal, Ask(s, e, prot, d1, d2), regions[..from], open, stale,
                     regions.Length - n, -1, -1)
      modifies this`n, this`open, this`stale, regions
      ensures n <= regions.Length
      ensures Finished(was, open0, goal, Ask(s, e, prot, d1, d2), Contents(), open, stale, first, last)
    {
      hide Going, Finished;
      var i: nat := from;
      ghost var j: nat, a := from, Ask(s, e, prot, d1, d2);
      first, last := -1, -1;
      while i < n
        invariant j <= |was| && i <= n <= regions.Length && n - i == |was| - j
        invariant regions[i..n] == was[j..]
        invariant Going(was, open0, from, j, goal, a, regions[..i], open, stale, regions.Length - n, first, last)
        decreases |was| - j
      {
        assert was[j..] == [was[j]] + was[j + 1..] && regions[i] == regions[i..n][0] == was[j];
        if regions[i].start >= e {
          break;
        }
        var ended;
        i, ended, first, last := StepSlot(i, was, open0, from, j, goal, s, e, prot, d1, d2, regions[..i], first, last);
        if ended {
          return;
        }
        i, j := i + 1, j + 1;
      }
      GoingStops(was, open0, from, j, goal, a, regions[..i], open, stale, regions.Length - n, first, last);
      assert Contents() == regions[..i] + regions[i..n];
    }

    method Reprotect(s: nat, e: nat, prot: Perms, d1: int, d2: int) returns (first: int, last: int)
      requires n <= regions.Length && Sorted(Contents()) && s < e && Ready(Contents(), open, Ask(s, e, prot, d1, d2))
      modifies this`n, this`open, this`stale, regions
      ensures n <= regions.Length
      ensures var out := Reprot(old(Contents()), s, e, prot, regions.Length - old(n), d1, d2);
        Finished(old(Contents()), old(open), Edit(out.rs, old(stale) || out.stale), Ask(s, e, prot, d1, d2),
                 Contents(), open, stale, first, last)
    {
      hide Reprot, Going, Finished, Sorted, Ready;
      ghost var was := Contents();
      ghost var out := Reprot(was, s, e, prot, regions.Length - n, d1, d2);
      var i: nat := FirstEndAbove(s);
      assert regions[..i] == was[..i] && regions[i..n] == was[i..];
      GoingStarts(was, open, i, Ask(s, e, prot, d1, d2), stale, regions.Length - n);
      first, last := ReprotectFrom(i, was, open, Edit(out.rs, stale || out.stale), s, e, prot, d1, d2);
    }

    /** The loop, then the merging of what it marked. */
    method ReprotectAndMerge(s: nat, e: nat, prot: Perms, d1: int, d2: int)
      requires Valid() && s < e
      requires (d1 < 0 || d1 !in open) && (d2 < 0 || d2 !in open) && (d1 < 0 || d1 != d2)
      modifies this`n, this`open, this`stale, regions
      ensures n <= regions.Length && Grown(old(open), open)
      ensures var st := Reprotection(old(Now()), regions.Length, Ask(s, e, prot, d1, d2), open);
        && Contents() == st.rs && stale == st.stale && Good(st, regions.Length, -1)
        && (NoneMergeable(old(Contents())) ==>
              (NoneMergeable(st.rs) <==> NoLooseTail(old(Contents()), s, e, regions.Length - old(n), d1, d2)))
    {
      hide Good, Reprot, Finished, Sorted, Ready, LosesFile, Shed, NoLooseTail, Protected, Settle, MergeDown, Below,
           FdBag, Grown, NoneMergeable;
      ghost var was, a := Now(), Ask(s, e, prot, d1, d2);
      Holding(was, regions.Length, -1);
      GetReady(was, regions.Length, a);
      var first, last := Reprotect(s, e, prot, d1, d2);
      ghost var room := regions.Length - |was.rs|;
      FinishedSettles(was, regions.Length, a, Reprot(was.rs, s, e, prot, room, d1, d2), Contents(), open, stale, first,
                      last);
      if first >= 0 {
        MergeRange(first - 1, last);
      }
    }

    /** guest_region_set_prot: `d1` and `d2` are what duplicating the descriptor of the
        region crossing `s`, and of the one crossing `e`, gives. */
    method SetProt(s: nat, e: nat, prot: Perms, d1: int, d2: int)
      requires Valid() && (s < e || !Surrounded(Contents(), s, e))
      requires (d1 < 0 || d1 !in open) && (d2 < 0 || d2 !in open) && (d1 < 0 || d1 != d2)
      modifies this, regions
      ensures Valid() && Grown(old(open), open)
      ensures Now() ==
        if s < e then Reprotection(old(Now()), regions.Length, Ask(s, e, prot, d1, d2), open) else old(Now())
      ensures s < e && NoneMergeable(old(Contents())) ==>
        (NoneMergeable(Contents()) <==> NoLooseTail(old(Contents()), s, e, regions.Length - old(n), d1, d2))
    {
      hide Good, Reprot, LosesFile, Shed, NoLooseTail, Protected, Settle, Grown, NoneMergeable;
      if e <= s {
        // The loop looks at the first region ending above `s` only to stop at it.
        Holding(Now(), regions.Length, -1);
        var i := FirstEndAbove(s);
        assert i < n ==> Contents()[i] == regions[i] && regions[i].start >= e;
        GrownSame(open);
        return;
      }
      ghost var was := Now();
      ReprotectAndMerge(s, e, prot, d1, d2);
      ghost var room := regions.Length - |was.rs|;
      naive := Protected(naive, s, e, prot);
      lost, loose := lost || LosesFile(was.rs, s, e, room, d1, d2), loose + Shed(was.rs, s, e, room, d1, d2);
    }

    method CloseAll()
      requires n <= regions.Length && multiset(open.Keys) == FdBag(Contents())
      modifies this`open
      ensures multiset(open.Keys) == FdBag([])
    {
      hide FdBag;
      ghost var rs := Contents();
      var i := 0;
      while i < n
        invariant 0 <= i <= n && multiset(open.Keys) == FdBag(rs[i..])
      {
        var fd := regions[i].fd;
        assert rs[i..] == [rs[i]] + rs[i + 1..];
        CloseFirst(rs[i], rs[i + 1..], open);
        if fd >= 0 {
          open := open - {fd};
        }
        i := i + 1;
      }
      assert rs[i..] == [];
    }

    /** guest_region_clear. */
    method Clear()
      requires Valid()
      modifies this
      ensures Valid() && Contents() == [] && open == map[] && !stale && !lost && loose == {} && nextVma == old(nextVma)
      ensures forall x: nat :: naive(x) == None
    {
      hide Good, FdBag;
      Holding(Now(), regions.Length, -1);
      CloseAll();
      n, stale, lost, loose := 0, false, false, {};
      naive := _ => None;
      AllClosed(open, nextVma, naive, regions.Length);
    }
  }

  // ----- A run that leaves neighbours to merge -----

  /** Pages [first, last) of a private file mapping. */
  function Pages(first: nat, last: nat, prot: Perms, fd: int, id: nat): Region
    requires first <= last
  {
    Region(first * 4096, last * 4096, first * 4096, id, prot, Flags(false, false, false, 2), first * 4096, fd,
           false, false, false, "")
  }

  /** A mapping of eight pages, once its third has been re-protected and restored with
      no descriptor to spare: the third page and those after it have lost the file. */
  function Halved(prot: Perms, id: nat): seq<Region> {
    [Pages(0, 2, prot, 5, id), Pages(2, 8, prot, -1, id)]
  }

  function Thirds(read: Perms, write: Perms, id: nat): seq<Region> {
    [Pages(0, 2, read, 5, id), Pages(2, 3, write, -1, id), Pages(3, 8, read, -1, id)]
  }

  lemma ThirdsReprot(read: Perms, write: Perms, id: nat, room: nat)
    requires room >= 2
    ensures Reprot([Pages(0, 8, read, 5, id)], 8192, 12288, write, room, -1, -1).rs == Thirds(read, write, id)
  {
    var all, t := Pages(0, 8, read, 5, id), Pages(2, 8, read, -1, id);
    var ms := Thirds(read, write, id);
    assert [all][1..] == [] && Dup(Tail(all, 8192), -1) == t && ([t] + [])[1..] == [];
    assert Reprot([t] + [], 8192, 12288, write, room - 1, -1, -1).rs == [ms[1], ms[2]] + [];
    assert [ms[0]] + ([ms[1], ms[2]] + []) == ms;
  }

  /** The window that is merged after re-protecting the third page. */
  lemma ThirdPage(a: Region, b: Region, c: Region)
    requires a.start < a.end <= b.start && b.start == 8192 && b.end == 12288 <= c.start < c.end
    ensures Settle([a, b, c], 8192, 12288) == MergeDown([a, b, c], 0, 1)
  {
    hide MergeDown;
    BelowIs([a, b, c], 8192, 1);
    BelowIs([a, b, c], 12288, 2);
  }

  lemma MergeTwo(rs: seq<Region>, ms: seq<Region>)
    requires MergeAt(rs, 1) == ms && MergeAt(ms, 0) == ms
    ensures MergeDown(rs, 0, 1) == ms
  {
    hide MergeAt;
    assert MergeDown(rs, 0, 1) == MergeDown(ms, 0, 0) == MergeDown(ms, 0, -1) == ms;
  }

  lemma ThirdsFrom(read: Perms, write: Perms, id: nat, room: nat)
    requires read != write && room >= 2
    ensures Settle(Reprot([Pages(0, 8, read, 5, id)], 8192, 12288, write, room, -1, -1).rs, 8192, 12288)
         == Thirds(read, write, id)
  {
    hide Reprot, Settle, MergeDown;
    var ms := Thirds(read, write, id);
    ThirdsReprot(read, write, id, room);
    ThirdPage(ms[0], ms[1], ms[2]);
    assert MergeAt(ms, 1) == ms && MergeAt(ms, 0) == ms;
    MergeTwo(ms, ms);
  }

  lemma HalvedReprot(read: Perms, write: Perms, id: nat, room: nat)
    ensures Reprot(Thirds(read, write, id), 8192, 12288, read, room, -1, -1).rs
         == [Pages(0, 2, read, 5, id), Pages(2, 3, read, -1, id), Pages(3, 8, read, -1, id)]
  {
    var was := Thirds(read, write, id);
    var a, b, c := was[0], was[1].(prot := read), was[2];
    assert was[1..] == [was[1], c] && was[1..][1..] == [c];
    assert Reprot([c], 8192, 12288, read, room, -1, -1).rs == [c];
    assert Reprot(was[1..], 8192, 12288, read, room, -1, -1).rs == [b] + [c];
    assert [a] + ([b] + [c]) == [a, b, c];
  }

  lemma HalvedFrom(read: Perms, write: Perms, id: nat, room: nat)
    requires read != write
    ensures Settle(Reprot(Thirds(read, write, id), 8192, 12288, read, room, -1, -1).rs, 8192, 12288) == Halved(read, id)
  {
    hide Reprot, Settle, MergeDown;
    var hs := Halved(read, id);
    var a, b, c := Pages(0, 2, read, 5, id), Pages(2, 3, read, -1, id), Pages(3, 8, read, -1, id);
    HalvedReprot(read, write, id, room);
    ThirdPage(a, b, c);
    assert MergeAt([a, b, c], 1) == hs && MergeAt(hs, 0) == hs;
    MergeTwo([a, b, c], hs);
  }

  /** Re-protecting the first page of the two halves sheds a loose tail. */
  lemma HalvedSheds(prot: Perms, id: nat, room: nat)
    requires room > 0
    ensures Sorted(Halved(prot, id)) && NoneMergeable(Halved(prot, id))
    ensures !NoLooseTail(Halved(prot, id), 0, 4096, room, -1, -1)
  {
    var hs := Halved(prot, id);
    assert !Mergeable(hs[0], hs[1]);
    assert !Crossing(hs, 0);
    assert LooseTail(hs, 0, 0, 4096, room, -1, -1);
  }

  lemma FirstAdded(i: nat, r: Region)
    requires LowerBound([], r.start, i)
    ensures i == 0 && MergeDown(Inserted([], i, r), i - 1, i) == [r]
  {
    assert Inserted([], 0, r) == [r] && MergeAt([r], 0) == [r] && MergeAt([r], -1) == [r];
    hide MergeAt;
    assert MergeDown([r], -1, 0) == MergeDown([r], -1, -1) == MergeDown([r], -1, -2);
  }

  /** Map a file of eight pages. */
  method MapFile(capacity: nat, prot: Perms) returns (t: Tracker, id: nat)
    requires capacity > 0
    ensures fresh(t) && fresh(t.regions) && t.Valid() && !t.stale && t.regions.Length == capacity && t.open.Keys == {5}
    ensures t.Contents() == [Pages(0, 8, prot, 5, id)]
  {
    hide Good, MergeDown, Inserted, Adopted, LowerBound, Covered, Apart;
    t := new Tracker(capacity);
    OpenGood(t.Now(), capacity, 5, 1);
    t.open := map[5 := 1];
    assert t.Holds(5) && Apart([], 0, 32768) by {
      NothingApart(0, 32768);
    }
    var ok;
    ghost var i;
    ok, id, i := t.Add(0, 32768, 0, prot, Flags(false, false, false, 2), 0, "", 5, false, 0);
    FirstAdded(i, Pages(0, 8, prot, 5, id));
  }

  lemma NothingApart(s: nat, e: nat)
    ensures Apart([], s, e)
  {
  }

  /** Three re-protections of a mapped file, for want of a descriptor, leave two
      neighbours that could be merged. */
  method LooseRun(capacity: nat, read: Perms, write: Perms) returns (t: Tracker)
    requires capacity >= 3 && read != write
    ensures t.Valid() && !NoneMergeable(t.Contents())
  {
    hide Good, Reprot, Settle, LosesFile, Shed, NoLooseTail, Protected, NoneMergeable, Halved, Thirds, Pages;
    var id;
    t, id := MapFile(capacity, read);
    t.SetProt(8192, 12288, write, -1, -1);
    ThirdsFrom(read, write, id, capacity - 1);
    assert t.Contents() == Thirds(read, write, id);
    t.SetProt(8192, 12288, read, -1, -1);
    ThreeAndTwo(read, write, id);
    HalvedFrom(read, write, id, capacity - 3);
    assert t.Contents() == Halved(read, id);
    t.SetProt(0, 4096, write, -1, -1);
    HalvedSheds(read, id, capacity - 2);
  }

  lemma ThreeAndTwo(read: Perms, write: Perms, id: nat)
    ensures |Thirds(read, write, id)| == 3 && |Halved(read, id)| == 2
  {
  }
}
