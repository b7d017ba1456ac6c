/** The boot-time table builder: guest_build_page_tables and finalize_block_perms
for identity-mapped regions.

Regions are byte ranges.  A page shared by two regions goes to the one that starts
last; a 2 MiB block descriptor survives only where every byte of the block is
covered with one permission. */
module BootTables {
  import opened Descriptors
  import opened PageTables
  import opened GuestTables
  import Regions

  /** mem_region_t with va_base 0. */
  datatype MemRegion = MemRegion(start: nat, end: nat, perms: Perms)

  predicate OnPage(r: MemRegion, v: nat) {
    r.start < 4096 * v + 4096 && 4096 * v < r.end
  }

  predicate OnBlock(r: MemRegion, b: nat) {
    r.start < 0x20_0000 * b + 0x20_0000 && 0x20_0000 * b < r.end
  }

  /** Regions that claim the same byte agree on its permissions. */
  ghost predicate Agree(rs: seq<MemRegion>) {
    forall i, k :: 0 <= i < |rs| && 0 <= k < |rs| && rs[i].start < rs[k].end && rs[k].start < rs[i].end
      ==> rs[i].perms == rs[k].perms
  }

  ghost predicate Nonempty(rs: seq<MemRegion>) {
    forall i :: 0 <= i < |rs| ==> rs[i].start < rs[i].end
  }

  /** Region `i` is the last to start among those touching page `v`. */
  ghost predicate Last(rs: seq<MemRegion>, i: nat, v: nat) {
    && i < |rs| && OnPage(rs[i], v)
    && forall k :: 0 <= k < |rs| && OnPage(rs[k], v) ==> rs[k].start <= rs[i].start
  }

  ghost predicate Untouched(rs: seq<MemRegion>, v: nat) {
    forall k :: 0 <= k < |rs| ==> !OnPage(rs[k], v)
  }

  ghost predicate SamePerms(rs: seq<MemRegion>, b: nat) {
    forall i, k :: 0 <= i < |rs| && 0 <= k < |rs| && OnBlock(rs[i], b) && OnBlock(rs[k], b) ==>
      rs[i].perms == rs[k].perms
  }

  ghost predicate Claimed(rs: seq<MemRegion>, x: nat) {
    exists k :: 0 <= k < |rs| && rs[k].start <= x < rs[k].end
  }

  /** Every byte of the block is covered. */
  ghost predicate FullyCovered(rs: seq<MemRegion>, b: nat) {
    forall x :: 0x20_0000 * b <= x < 0x20_0000 * b + 0x20_0000 ==> Claimed(rs, x)
  }

  /** One permission over the whole block: its block descriptor may stay. */
  ghost predicate Uniform(rs: seq<MemRegion>, b: nat) {
    SamePerms(rs, b) && FullyCovered(rs, b)
  }

  // ----- The regions touching a block -----

  ghost predicate Collected(rs: seq<MemRegion>, n: nat, b: nat, idx: seq<nat>) {
    && n <= |rs|
    && (forall x :: 0 <= x < |idx| ==> idx[x] < n && OnBlock(rs[idx[x]], b))
    && (forall i :: 0 <= i < n && OnBlock(rs[i], b) ==> i in idx)
    && (forall x, y :: 0 <= x < y < |idx| ==> rs[idx[x]].start <= rs[idx[y]].start)
  }

  /** Gather the regions touching block `b`, sorted by start, and whether they all
      carry the same permissions. */
  method Collect(rs: seq<MemRegion>, b: nat) returns (idx: seq<nat>, same: bool)
    ensures Collected(rs, |rs|, b, idx)
    ensures same <==> SamePerms(rs, b)
  {
    idx, same := [], true;
    var first := None;
    for s := 0 to |rs|
      invariant Collected(rs, s, b, idx)
      invariant first.None? ==> idx == [] && same
      invariant first.Some? ==> exists i :: 0 <= i < s && OnBlock(rs[i], b) && rs[i].perms == first.value
      invariant same ==> forall i :: 0 <= i < s && OnBlock(rs[i], b) ==> Some(rs[i].perms) == first
      invariant !same ==> !SamePerms(rs, b)
    {
      if OnBlock(rs[s], b) {
        if first.None? {
          first := Some(rs[s].perms);
        } else if rs[s].perms != first.value {
          same := false;
        }
        idx := Insert(rs, s, b, idx);
      }
    }
  }

  ghost predicate InsertedAt(idx: seq<nat>, pos: nat, s: nat, r: seq<nat>) {
    && pos <= |idx| && |r| == |idx| + 1 && r[pos] == s
    && (forall x :: 0 <= x < pos ==> r[x] == idx[x])
    && (forall x :: pos < x < |r| ==> r[x] == idx[x - 1])
  }

  lemma ConcatInserts(idx: seq<nat>, pos: nat, s: nat)
    requires pos <= |idx|
    ensures InsertedAt(idx, pos, s, idx[..pos] + [s] + idx[pos..])
  {
  }

  lemma InsertSorts(rs: seq<MemRegion>, s: nat, b: nat, idx: seq<nat>, pos: nat, r: seq<nat>, x: nat, y: nat)
    requires Collected(rs, s, b, idx) && s < |rs| && InsertedAt(idx, pos, s, r) && x < y < |r|
    requires pos > 0 ==> rs[idx[pos - 1]].start <= rs[s].start
    requires pos < |idx| ==> rs[idx[pos]].start > rs[s].start
    ensures r[x] < |rs| && r[y] < |rs| && rs[r[x]].start <= rs[r[y]].start
  {
    hide OnBlock;
    var before := if x < pos then x else x - 1;
    var after := if y < pos then y else y - 1;
    assert x < pos && x < pos - 1 ==> rs[idx[x]].start <= rs[idx[pos - 1]].start;
    assert y > pos && after > pos ==> rs[idx[pos]].start <= rs[idx[after]].start;
  }

  lemma InsertHas(rs: seq<MemRegion>, s: nat, b: nat, idx: seq<nat>, pos: nat, r: seq<nat>, i: nat)
    requires Collected(rs, s, b, idx) && s < |rs| && InsertedAt(idx, pos, s, r) && i <= s && OnBlock(rs[i], b)
    ensures i in r
  {
    hide OnBlock;
    if i < s {
      assert i in idx;
      var x :| 0 <= x < |idx| && idx[x] == i;
      assert r[if x < pos then x else x + 1] == i;
    } else {
      assert r[pos] == i;
    }
  }

  lemma InsertFrom(rs: seq<MemRegion>, s: nat, b: nat, idx: seq<nat>, pos: nat, r: seq<nat>, x: nat)
    requires Collected(rs, s, b, idx) && s < |rs| && OnBlock(rs[s], b) && InsertedAt(idx, pos, s, r) && x < |r|
    ensures r[x] < s + 1 && OnBlock(rs[r[x]], b)
  {
    hide OnBlock;
    assert x != pos ==> r[x] == idx[if x < pos then x else x - 1];
  }

  lemma InsertCollects(rs: seq<MemRegion>, s: nat, b: nat, idx: seq<nat>, pos: nat, r: seq<nat>)
    requires Collected(rs, s, b, idx) && s < |rs| && OnBlock(rs[s], b) && InsertedAt(idx, pos, s, r)
    requires pos > 0 ==> rs[idx[pos - 1]].start <= rs[s].start
    requires pos < |idx| ==> rs[idx[pos]].start > rs[s].start
    ensures Collected(rs, s + 1, b, r)
  {
    hide OnBlock, InsertedAt;
    forall x | 0 <= x < |r| ensures r[x] < s + 1 && OnBlock(rs[r[x]], b) {
      InsertFrom(rs, s, b, idx, pos, r, x);
    }
    forall i | 0 <= i < s + 1 && OnBlock(rs[i], b) ensures i in r {
      InsertHas(rs, s, b, idx, pos, r, i);
    }
    forall x, y | 0 <= x < y < |r| ensures rs[r[x]].start <= rs[r[y]].start {
      InsertSorts(rs, s, b, idx, pos, r, x, y);
    }
  }

  /** One insertion of the sort: shift larger starts right and drop `s` in. */
  method Insert(rs: seq<MemRegion>, s: nat, b: nat, idx: seq<nat>) returns (r: seq<nat>)
    requires Collected(rs, s, b, idx) && s < |rs| && OnBlock(rs[s], b)
    ensures Collected(rs, s + 1, b, r) && r != []
  {
    hide OnBlock, InsertedAt;
    var pos := |idx|;
    while pos > 0 && rs[idx[pos - 1]].start > rs[s].start
      invariant 0 <= pos <= |idx|
      invariant pos < |idx| ==> rs[idx[pos]].start > rs[s].start
    {
      pos := pos - 1;
    }
    r := idx[..pos] + [s] + idx[pos..];
    ConcatInserts(idx, pos, s);
    InsertCollects(rs, s, b, idx, pos, r);
  }

  /** The coverage sweep over the sorted regions. */
  method Sweep(rs: seq<MemRegion>, idx: seq<nat>, b: nat) returns (full: bool)
    requires Collected(rs, |rs|, b, idx)
    ensures full <==> FullyCovered(rs, b)
  {
    var covered := 0x20_0000 * b;
    for i := 0 to |idx|
      invariant 0x20_0000 * b <= covered
      invariant forall x :: 0x20_0000 * b <= x < covered ==> Claimed(rs, x)
      invariant forall x :: 0 <= x < i ==> rs[idx[x]].end <= covered
    {
      var r := rs[idx[i]];
      if r.start > covered {
        assert !Claimed(rs, covered) by {
          NotClaimed(rs, idx, b, covered, i);
        }
        return false;
      }
      if r.end > covered {
        forall x | covered <= x < r.end ensures Claimed(rs, x) {
          assert rs[idx[i]].start <= x < rs[idx[i]].end;
        }
        covered := r.end;
      }
    }
    if covered < 0x20_0000 * b + 0x20_0000 {
      NotClaimed(rs, idx, b, covered, |idx|);
      return false;
    }
    return true;
  }

  /** A byte past the ends of the regions swept and before the starts of the rest. */
  lemma NotClaimed(rs: seq<MemRegion>, idx: seq<nat>, b: nat, x: nat, i: nat)
    requires Collected(rs, |rs|, b, idx) && i <= |idx| && 0x20_0000 * b <= x < 0x20_0000 * b + 0x20_0000
    requires forall k :: 0 <= k < i ==> rs[idx[k]].end <= x
    requires i < |idx| ==> rs[idx[i]].start > x
    ensures !Claimed(rs, x)
  {
    forall k | 0 <= k < |rs| && OnBlock(rs[k], b) ensures rs[k].end <= x || x < rs[k].start {
      assert k in idx;
      var y :| 0 <= y < |idx| && idx[y] == k;
      assert y > i ==> rs[idx[i]].start <= rs[idx[y]].start;
    }
  }

  // ----- Which regions a page's permissions come from -----

  function PageUp(x: nat): nat {
    (x + 4095) / 4096 * 4096
  }

  /** Another region starts on the page this one ends on, after its end. */
  ghost predicate Yields(rs: seq<MemRegion>, i: nat)
    requires i < |rs|
  {
    exists k :: 0 <= k < |rs| && rs[i].end <= rs[k].start < PageUp(rs[i].end)
  }

  /** Region `i` contributes to page `v`. */
  ghost predicate Applies(rs: seq<MemRegion>, i: nat, v: nat) {
    i < |rs| && OnPage(rs[i], v) && !(v == rs[i].end / 4096 && Yields(rs, i))
  }

  lemma LastApplies(rs: seq<MemRegion>, i: nat, v: nat)
    requires Nonempty(rs) && Last(rs, i, v)
    ensures Applies(rs, i, v)
  {
  }

  /** Whatever contributes to a page carries the last region's permissions. */
  lemma AppliersAgree(rs: seq<MemRegion>, k: nat, i: nat, v: nat)
    requires Agree(rs) && Nonempty(rs) && Applies(rs, k, v) && Last(rs, i, v)
    ensures rs[k].perms == rs[i].perms
  {
  }

  /** The pages of block `b` that region `i` contributes to are [lo, hi). */
  method ApplyRange(rs: seq<MemRegion>, idx: seq<nat>, b: nat, i: nat) returns (lo: nat, hi: nat)
    requires Collected(rs, |rs|, b, idx) && Nonempty(rs) && i < |rs| && OnBlock(rs[i], b)
    ensures 512 * b <= lo && hi <= 512 * b + 512
    ensures forall v: nat :: 512 * b <= v < 512 * b + 512 ==> (lo <= v < hi <==> Applies(rs, i, v))
  {
    var r := rs[i];
    lo := if r.start > 0x20_0000 * b then r.start / 4096 else 512 * b;
    var top := Top(r, b);
    hi := top;
    for j := 0 to |idx|
      invariant hi == top || (hi == r.end / 4096 < top && Yields(rs, i))
      invariant hi == top ==>
        forall x :: 0 <= x < j && r.end <= rs[idx[x]].start < PageUp(r.end) ==> top <= r.end / 4096
    {
      var next := rs[idx[j]].start;
      if next >= r.end && next < PageUp(r.end) && hi > r.end / 4096 {
        hi := r.end / 4096;
      }
    }
    forall v: nat | 512 * b <= v < 512 * b + 512 ensures lo <= v < hi <==> Applies(rs, i, v) {
      ApplyRangeExact(rs, idx, b, i, v, hi);
    }
  }

  /** The page after the last one a region touches in block `b`. */
  function Top(r: MemRegion, b: nat): nat {
    if r.end < 0x20_0000 * b + 0x20_0000 then PageUp(r.end) / 4096 else 512 * b + 512
  }

  lemma PageUpIs(x: nat)
    ensures PageUp(x) / 4096 == (x + 4095) / 4096 && x <= PageUp(x) < x + 4096
  {
  }

  lemma TouchedPages(r: MemRegion, b: nat, v: nat)
    requires OnBlock(r, b) && 512 * b <= v < 512 * b + 512
    ensures OnPage(r, v) <==> (r.start > 0x20_0000 * b ==> r.start / 4096 <= v) && v < Top(r, b)
    ensures OnPage(r, v) ==> v <= r.end / 4096
  {
    PageUpIs(r.end);
    hide PageUp;
  }

  lemma YieldsInBlock(rs: seq<MemRegion>, idx: seq<nat>, b: nat, i: nat, v: nat) returns (x: nat)
    requires Collected(rs, |rs|, b, idx) && Nonempty(rs) && i < |rs| && Yields(rs, i)
    requires 512 * b <= v < 512 * b + 512 && v == rs[i].end / 4096 && OnPage(rs[i], v)
    ensures x < |idx| && rs[i].end <= rs[idx[x]].start < PageUp(rs[i].end)
  {
    var k :| 0 <= k < |rs| && rs[i].end <= rs[k].start < PageUp(rs[i].end);
    PageUpIs(rs[i].end);
    assert PageUp(rs[i].end) <= 4096 * v + 4096;
    hide PageUp;
    assert OnBlock(rs[k], b);
    assert k in idx;
    x :| 0 <= x < |idx| && idx[x] == k;
  }

  lemma ApplyRangeExact(rs: seq<MemRegion>, idx: seq<nat>, b: nat, i: nat, v: nat, hi: nat)
    requires Collected(rs, |rs|, b, idx) && Nonempty(rs) && i < |rs| && OnBlock(rs[i], b)
    requires 512 * b <= v < 512 * b + 512
    requires hi == Top(rs[i], b) || (hi == rs[i].end / 4096 < Top(rs[i], b) && Yields(rs, i))
    requires hi == Top(rs[i], b) ==>
      forall x :: 0 <= x < |idx| && rs[i].end <= rs[idx[x]].start < PageUp(rs[i].end) ==> hi <= rs[i].end / 4096
    ensures (rs[i].start > 0x20_0000 * b ==> rs[i].start / 4096 <= v) && v < hi <==> Applies(rs, i, v)
  {
    hide Top, PageUp, OnPage, Yields, Collected, Nonempty, OnBlock;
    TouchedPages(rs[i], b, v);
    if v == rs[i].end / 4096 && Yields(rs, i) && OnPage(rs[i], v) {
      var x := YieldsInBlock(rs, idx, b, i, v);
    }
  }

  ghost predicate AppliedBy(rs: seq<MemRegion>, idx: seq<nat>, n: nat, v: nat)
    requires n <= |idx|
  {
    exists x :: 0 <= x < n && Applies(rs, idx[x], v)
  }

  predicate InBlock(v: nat, b: nat) {
    512 * b <= v < 512 * b + 512
  }

  /** What the first `n` collected regions have left in the page permissions. */
  ghost predicate PermsSoFar(rs: seq<MemRegion>, idx: seq<nat>, n: nat, b: nat, pp: seq<Perms>)
    requires n <= |idx|
  {
    && |pp| == 512
    && (forall v: nat :: InBlock(v, b) && !AppliedBy(rs, idx, n, v) ==> pp[v - 512 * b] == NO_PERMS)
    && (forall v: nat, i: nat :: InBlock(v, b) && AppliedBy(rs, idx, n, v) && Last(rs, i, v)
          ==> pp[v - 512 * b] == rs[i].perms)
  }

  lemma PermsStep(rs: seq<MemRegion>, idx: seq<nat>, n: nat, b: nat, pp: seq<Perms>, pp': seq<Perms>)
    requires Agree(rs) && Nonempty(rs) && n < |idx| && idx[n] < |rs| && PermsSoFar(rs, idx, n, b, pp) && |pp'| == 512
    requires forall v: nat :: InBlock(v, b) ==>
      pp'[v - 512 * b] == if Applies(rs, idx[n], v) then pp[v - 512 * b].Or(rs[idx[n]].perms) else pp[v - 512 * b]
    ensures PermsSoFar(rs, idx, n + 1, b, pp')
  {
    hide Applies, Agree, Nonempty, OnPage;
    forall v: nat
      ensures AppliedBy(rs, idx, n + 1, v) <==> AppliedBy(rs, idx, n, v) || Applies(rs, idx[n], v)
    {
    }
    forall v: nat, i: nat | Applies(rs, idx[n], v) && Last(rs, i, v)
      ensures rs[idx[n]].perms == rs[i].perms
    {
      AppliersAgree(rs, idx[n], i, v);
    }
  }

  lemma PermsDone(rs: seq<MemRegion>, idx: seq<nat>, b: nat)
    requires Collected(rs, |rs|, b, idx) && Nonempty(rs)
    ensures forall v: nat :: InBlock(v, b) && Untouched(rs, v) ==> !AppliedBy(rs, idx, |idx|, v)
    ensures forall v: nat, i: nat :: InBlock(v, b) && Last(rs, i, v) ==> AppliedBy(rs, idx, |idx|, v)
  {
    forall v: nat, i: nat | InBlock(v, b) && Last(rs, i, v) ensures AppliedBy(rs, idx, |idx|, v) {
      LastApplies(rs, i, v);
      assert OnBlock(rs[i], b);
      assert i in idx;
      var x :| 0 <= x < |idx| && idx[x] == i;
      assert Applies(rs, idx[x], v);
    }
  }

  /** The per-page permission table of a mixed or partly covered block: empty where
      no region touches, the last region's permissions elsewhere. */
  method PagePerms(rs: seq<MemRegion>, idx: seq<nat>, b: nat) returns (pp: seq<Perms>)
    requires Collected(rs, |rs|, b, idx) && Agree(rs) && Nonempty(rs)
    ensures |pp| == 512
    ensures forall v: nat :: InBlock(v, b) && Untouched(rs, v) ==> pp[v - 512 * b] == NO_PERMS
    ensures forall v: nat, i: nat :: InBlock(v, b) && Last(rs, i, v) ==> pp[v - 512 * b] == rs[i].perms
  {
    hide OnBlock, Applies, Agree, Nonempty;
    pp := seq(512, _ => NO_PERMS);
    for n := 0 to |idx|
      invariant PermsSoFar(rs, idx, n, b, pp)
    {
      var lo, hi := ApplyRange(rs, idx, b, idx[n]);
      ghost var pp0 := pp;
      var v := lo;
      while v < hi
        invariant |pp| == 512 && lo <= v && (v <= hi || v == lo)
        invariant forall j: nat :: j < 512 ==>
          pp[j] == if lo <= 512 * b + j < v then pp0[j].Or(rs[idx[n]].perms) else pp0[j]
      {
        var j := v - 512 * b;
        pp := pp[j := pp[j].Or(rs[idx[n]].perms)];
        v := v + 1;
      }
      forall u: nat | InBlock(u, b)
        ensures pp[u - 512 * b] ==
          if Applies(rs, idx[n], u) then pp0[u - 512 * b].Or(rs[idx[n]].perms) else pp0[u - 512 * b]
      {
        assert lo <= u < v <==> Applies(rs, idx[n], u);
      }
      PermsStep(rs, idx, n, b, pp0, pp);
    }
    PermsDone(rs, idx, b);
  }

  // ----- One block -----

  /** Nothing outside block `b` moved. */
  ghost predicate OnlyBlock(m: Pool, m': Pool, b: nat) {
    && (forall c: nat :: c != b ==> K(m', c) == K(m, c))
    && (forall c: nat, j: nat :: c != b && j < 512 ==> P(m', c, j) == P(m, c, j))
  }

  /** An identity leaf with these permissions; no permissions mean no leaf. */
  function RunLeaf(perms: Perms, v: nat): Option<Leaf> {
    if perms == NO_PERMS then None else Some(Leaf(v, Norm(perms)))
  }

  /** Where no tracked region says otherwise, an invalid page is its own home. */
  ghost predicate Identity(regs: seq<Regions.Region>) {
    forall v: nat :: Home(regs, v) == v
  }

  /** Re-permissioning a run of unmapped pages of a split block maps just them. */
  lemma UpdateRun(m: Pool, m': Pool, b: nat, lo: nat, hi: nat, perms: Perms, regs: seq<Regions.Region>)
    requires Updated(m, m', 512 * b + lo, 512 * b + hi, perms, regs) && lo < hi <= 512 && b < 0x800_0000
    requires K(m, b).Split? && (forall j: nat :: lo <= j < hi ==> P(m, b, j) == None) && Identity(regs)
    ensures OnlyBlock(m, m', b) && K(m', b).Split?
    ensures forall j: nat :: j < 512 ==>
      P(m', b, j) == if lo <= j < hi then Some(Leaf(512 * b + j, Norm(perms))) else P(m, b, j)
  {
    hide K, P, Home, Norm;
  }

  /** A run of pages of a split block cuts no whole one, so it is served to its end. */
  lemma RunServed(m: Pool, b: nat, lo: nat, hi: nat, keep: Option<Perms>, upto: nat)
    requires K(m, b).Split? && 512 * b <= lo < hi <= 512 * b + 512 && StopsCutting(m, lo, hi, keep, upto)
    ensures upto == hi
  {
    hide K, CutFits;
  }

  lemma RunBytes(b: nat, from: nat, to: nat)
    ensures (0x20_0000 * b + 4096 * from) / 4096 == 512 * b + from
    ensures (0x20_0000 * b + 4096 * to + 4095) / 4096 == 512 * b + to
  {
  }

  /** Rebuild a cleared block from its page permissions, one run at a time. */
  method ApplyRuns(g: Guest, regs: seq<Regions.Region>, b: nat, pp: seq<Perms>) returns (ok: bool)
    requires g.Valid() && Regions.Sorted(regs) && Identity(regs) && b < 0x800_0000 && |pp| == 512
    requires K(g.pool, b).Split? && forall j: nat :: j < 512 ==> P(g.pool, b, j) == None
    modifies g
    ensures g.Valid() && old(g.log) <= g.log && g.start == old(g.start)
    ensures FlushCovers(old(g.pool), g.pool, old(g.tlbi), g.tlbi)
    ensures !ok ==> b >= 0x7FF_FF80 && exists j :: 0 <= j < 512 && pp[j].x
    ensures ok ==>
      && OnlyBlock(old(g.pool), g.pool, b) && K(g.pool, b).Split?
      && forall j: nat :: j < 512 ==> P(g.pool, b, j) == RunLeaf(pp[j], 512 * b + j)
  {
    hide K, P, Tree, LegalLog, Replay, Identity, Regions.Sorted, Norm, FlushCovers, StopsCutting, CutFits, Updated;
    FlushNothing(g.pool, g.tlbi);
    var i := 0;
    while i < 512
      invariant g.Valid() && old(g.log) <= g.log && g.start == old(g.start) && i <= 512
      invariant FlushCovers(old(g.pool), g.pool, old(g.tlbi), g.tlbi)
      invariant OnlyBlock(old(g.pool), g.pool, b) && K(g.pool, b).Split?
      invariant forall j: nat :: j < 512 ==> P(g.pool, b, j) == if j < i then RunLeaf(pp[j], 512 * b + j) else None
    {
      var perms, from := pp[i], i;
      while i < 512 && pp[i] == perms
        invariant from <= i <= 512
        invariant forall j :: from <= j < i ==> pp[j] == perms
        invariant i == from ==> pp[i] == perms
      {
        i := i + 1;
      }
      if perms != NO_PERMS {
        ghost var m1, t1 := g.pool, g.tlbi;
        var done;
        ghost var upto;
        RunBytes(b, from, i);
        done, upto := g.UpdatePerms(regs, 0x20_0000 * b + 4096 * from, 0x20_0000 * b + 4096 * i, perms);
        FlushTwice(old(g.pool), m1, g.pool, old(g.tlbi), t1, g.tlbi);
        if !done {
          assert perms.x && KbufPages(512 * b + from, 512 * b + i) by {
            if !(perms.x && KbufPages(512 * b + from, 512 * b + i)) {
              RunServed(m1, b, 512 * b + from, 512 * b + i, Some(perms), upto);
            }
          }
          assert pp[from].x;
          return false;
        }
        UpdateRun(m1, g.pool, b, from, i, perms, regs);
      }
    }
    return true;
  }

  /** The pages of block `b` are exactly what the regions ask for. */
  ghost predicate PagesRight(m: Pool, rs: seq<MemRegion>, b: nat) {
    && (forall v: nat :: InBlock(v, b) && Untouched(rs, v) ==> P(m, b, v - 512 * b) == None)
    && (forall v: nat, i: nat :: InBlock(v, b) && Last(rs, i, v) ==> P(m, b, v - 512 * b) == RunLeaf(rs[i].perms, v))
  }

  /** Executable regions in the kbuf window, the top 256 MiB, are refused. */
  ghost predicate KbufCode(rs: seq<MemRegion>) {
    exists i :: 0 <= i < |rs| && rs[i].perms.x && rs[i].end > 0xFFFF_F000_0000
  }

  /** Why a build fails: no page left in the pool, or code in the kbuf window. */
  ghost predicate Excused(m: Pool, rs: seq<MemRegion>) {
    m.next >= |m.pages| || KbufCode(rs)
  }

  /** Keep a block the regions cover uniformly; split and rebuild any other. */
  method FinalizeBlock(g: Guest, regs: seq<Regions.Region>, rs: seq<MemRegion>, b: nat) returns (ok: bool)
    requires g.Valid() && Regions.Sorted(regs) && Identity(regs) && Agree(rs) && Nonempty(rs) && b < 0x800_0000
    requires !K(g.pool, b).Absent?
    modifies g
    ensures g.Valid() && (!ok ==> Excused(g.pool, rs))
    ensures ok ==> OnlyBlock(old(g.pool), g.pool, b)
    ensures ok && Uniform(rs, b) ==> g.pool == old(g.pool)
    ensures ok && !Uniform(rs, b) ==> K(g.pool, b).Split? && PagesRight(g.pool, rs, b)
  {
    hide K, P, Tree, LegalLog, Replay, Identity, Regions.Sorted, Norm, Collected, SamePerms, FullyCovered, Last,
         Untouched, FlushCovers, StopsCutting, CutFits;
    var idx, same := Collect(rs, b);
    var full := Sweep(rs, idx, b);
    if same && full {
      return true;
    }
    ok := g.SplitBlock(b);
    if !ok {
      return false;
    }
    ghost var split := g.pool;
    var cleared;
    ghost var upto;
    RunBytes(b, 0, 512);
    cleared, upto := g.InvalidatePtes(0x20_0000 * b, 0x20_0000 * b + 0x20_0000);
    assert cleared by {
      RunServed(split, b, 512 * b, 512 * b + 512, None, upto);
    }
    assert OnlyBlock(split, g.pool, b);
    var pp := PagePerms(rs, idx, b);
    ok := ApplyRuns(g, regs, b, pp);
    if !ok {
      CodeExcused(rs, b, pp);
    }
  }

  lemma CodeExcused(rs: seq<MemRegion>, b: nat, pp: seq<Perms>)
    requires |pp| == 512 && b >= 0x7FF_FF80 && exists j :: 0 <= j < 512 && pp[j].x
    requires forall v: nat :: InBlock(v, b) && Untouched(rs, v) ==> pp[v - 512 * b] == NO_PERMS
    requires forall v: nat, i: nat :: InBlock(v, b) && Last(rs, i, v) ==> pp[v - 512 * b] == rs[i].perms
    ensures KbufCode(rs)
  {
    var j :| 0 <= j < 512 && pp[j].x;
    var v := 512 * b + j;
    assert InBlock(v, b);
    var i := LastExists(rs, |rs|, v);
    assert Last(rs, i, v);
  }

  // ----- The block-emit loop -----

  /** The permissions guest_build_page_tables emits for a block it has seen `k` of. */
  function Merged(k: Kind, perms: Perms): Perms {
    if k.Whole? then Norm(perms.Or(Perms(true, k.perms.w && !k.perms.el1, k.perms.x, false))) else Norm(perms)
  }

  lemma MergeSame(perms: Perms, frame: nat)
    ensures Merged(Whole(frame, Norm(perms)), perms) == Norm(perms)
  {
  }

  method EmitBlock(g: Guest, b: nat, perms: Perms) returns (ok: bool)
    requires g.Valid() && !K(g.pool, b).Split? && b < 0x800_0000
    modifies g
    ensures g.Valid() && OnlyBlock(old(g.pool), g.pool, b)
    ensures ok ==> K(g.pool, b) == Whole(512 * b, Merged(K(old(g.pool), b), perms))
    ensures !ok ==> K(g.pool, b) == K(old(g.pool), b) && g.pool.next == |g.pool.pages|
  {
    hide Blk, KindAt, PageAt, Tree, LegalLog, Replay, L2At;
    var p := g.EnsureL2(b);
    if p.None? {
      L0Range(b);
      return false;
    }
    g.FoundL2(b);
    var d := g.pool.pages[p.value][Blk(b).i2];
    var emit := perms;
    if d.valid {
      emit := perms.Or(Perms(true, d.ap.RwEl0?, !d.uxn, false));
    }
    g.StoreBlock(p.value, b, MakeBlock(512 * b, emit));
    return true;
  }

  /** The region-block pairs the emit loop has handled: regions before `r`, and
      region `r` on blocks before `c`. */
  predicate Handled(rs: seq<MemRegion>, r: nat, c: nat, i: nat, b: nat) {
    i < |rs| && OnBlock(rs[i], b) && (i < r || (i == r && b < c))
  }

  ghost predicate Seen(rs: seq<MemRegion>, r: nat, c: nat, b: nat) {
    exists i: nat :: Handled(rs, r, c, i, b)
  }

  /** A block as emitted: absent until seen, then one identity descriptor, whose
      permissions are the regions' when those agree. */
  ghost predicate Emitted(k: Kind, rs: seq<MemRegion>, r: nat, c: nat, b: nat) {
    && !k.Split? && (k.Absent? <==> !Seen(rs, r, c, b))
    && (k.Whole? ==> k.frame == 512 * b)
    && (k.Whole? ==> forall i: nat ::
          Handled(rs, r, c, i, b) && (forall n: nat :: Handled(rs, r, c, n, b) ==> rs[n].perms == rs[i].perms)
          ==> k.perms == Norm(rs[i].perms))
  }

  lemma EmitStep(k: Kind, rs: seq<MemRegion>, r: nat, c: nat)
    requires r < |rs| && OnBlock(rs[r], c) && Emitted(k, rs, r, c, c)
    ensures Emitted(Whole(512 * c, Merged(k, rs[r].perms)), rs, r, c + 1, c)
  {
    hide OnBlock, Norm, Merged;
    assert Handled(rs, r, c + 1, r, c);
    assert forall n: nat :: Handled(rs, r, c, n, c) ==> Handled(rs, r, c + 1, n, c);
    if k.Whole? {
      var i: nat :| Handled(rs, r, c, i, c);
      if forall n: nat :: Handled(rs, r, c + 1, n, c) ==> rs[n].perms == rs[r].perms {
        assert rs[i].perms == rs[r].perms;
        MergeSame(rs[r].perms, 512 * c);
      }
    } else {
      assert Merged(k, rs[r].perms) == Norm(rs[r].perms) by {
        Unmerged(k, rs[r].perms);
      }
    }
  }

  lemma Unmerged(k: Kind, perms: Perms)
    requires !k.Whole?
    ensures Merged(k, perms) == Norm(perms)
  {
  }

  /** A block whose handled regions are the same is emitted the same. */
  lemma EmittedMoves(k: Kind, rs: seq<MemRegion>, r: nat, c: nat, r': nat, c': nat, b: nat)
    requires Emitted(k, rs, r, c, b)
    requires forall i: nat :: Handled(rs, r', c', i, b) <==> Handled(rs, r, c, i, b)
    ensures Emitted(k, rs, r', c', b)
  {
    hide Handled;
  }

  ghost predicate AllEmitted(m: Pool, rs: seq<MemRegion>, r: nat, c: nat) {
    forall b: nat :: Emitted(K(m, b), rs, r, c, b)
  }

  lemma AllEmittedMoves(m: Pool, rs: seq<MemRegion>, r: nat, c: nat, r': nat, c': nat)
    requires AllEmitted(m, rs, r, c)
    requires forall i: nat, b: nat :: Handled(rs, r', c', i, b) <==> Handled(rs, r, c, i, b)
    ensures AllEmitted(m, rs, r', c')
  {
    hide K, Emitted, Handled;
    forall b: nat ensures Emitted(K(m, b), rs, r', c', b) {
      EmittedMoves(K(m, b), rs, r, c, r', c', b);
    }
  }

  /** The first loop of guest_build_page_tables: one descriptor per touched block. */
  method EmitBlocks(g: Guest, rs: seq<MemRegion>) returns (ok: bool)
    requires g.Valid() && Nonempty(rs) && (forall i :: 0 <= i < |rs| ==> rs[i].end <= 0x1_0000_0000_0000)
    requires forall b: nat :: K(g.pool, b) == Absent
    modifies g
    ensures g.Valid() && (ok ==> AllEmitted(g.pool, rs, |rs|, 0)) && (!ok ==> g.pool.next == |g.pool.pages|)
  {
    hide K, P, Tree, LegalLog, Replay, Emitted, Merged;
    NothingEmitted(g.pool, rs);
    for r := 0 to |rs|
      invariant g.Valid() && AllEmitted(g.pool, rs, r, 0)
    {
      var c, hi := rs[r].start / 0x20_0000, (rs[r].end + 0x1F_FFFF) / 0x20_0000;
      AllEmittedMoves(g.pool, rs, r, 0, r, c);
      while c < hi
        invariant g.Valid() && AllEmitted(g.pool, rs, r, c) && rs[r].start / 0x20_0000 <= c <= hi
      {
        ghost var m := g.pool;
        assert OnBlock(rs[r], c) && c < 0x800_0000;
        assert !K(m, c).Split? by {
          EmittedKind(K(m, c), rs, r, c, c);
        }
        var done := EmitBlock(g, c, rs[r].perms);
        if !done {
          return false;
        }
        EmitStep(K(m, c), rs, r, c);
        forall b: nat ensures Emitted(K(g.pool, b), rs, r, c + 1, b) {
          if b != c {
            EmittedMoves(K(m, b), rs, r, c, r, c + 1, b);
          }
        }
        c := c + 1;
      }
      AllEmittedMoves(g.pool, rs, r, c, r + 1, 0);
    }
    return true;
  }

  lemma EmittedKind(k: Kind, rs: seq<MemRegion>, r: nat, c: nat, b: nat)
    requires Emitted(k, rs, r, c, b)
    ensures !k.Split?
  {
  }

  lemma NothingEmitted(m: Pool, rs: seq<MemRegion>)
    requires forall b: nat :: K(m, b) == Absent
    ensures AllEmitted(m, rs, 0, 0)
  {
    hide K;
  }

  // ----- The whole build -----

  /** A block between the two passes, or after the second has been over it. */
  ghost predicate Settled(m: Pool, rs: seq<MemRegion>, r: nat, c: nat, b: nat) {
    if Seen(rs, r, c, b) && !Uniform(rs, b) then K(m, b).Split? && PagesRight(m, rs, b)
    else Emitted(K(m, b), rs, |rs|, 0, b)
  }

  ghost predicate AllSettled(m: Pool, rs: seq<MemRegion>, r: nat, c: nat) {
    forall b: nat :: Settled(m, rs, r, c, b)
  }

  lemma SettledMoves(m: Pool, rs: seq<MemRegion>, r: nat, c: nat, r': nat, c': nat)
    requires AllSettled(m, rs, r, c)
    requires forall i: nat, b: nat :: Handled(rs, r', c', i, b) <==> Handled(rs, r, c, i, b)
    ensures AllSettled(m, rs, r', c')
  {
    hide K, P, Emitted, Handled, Uniform, PagesRight;
    forall b: nat ensures Settled(m, rs, r', c', b) {
      assert Settled(m, rs, r, c, b);
      assert Seen(rs, r', c', b) <==> Seen(rs, r, c, b);
    }
  }

  lemma SeenMoves(rs: seq<MemRegion>, r: nat, c: nat, r': nat, c': nat, b: nat)
    requires forall i: nat :: Handled(rs, r', c', i, b) <==> Handled(rs, r, c, i, b)
    ensures Seen(rs, r', c', b) <==> Seen(rs, r, c, b)
  {
    hide Handled;
  }

  lemma SettledStep(m: Pool, m': Pool, rs: seq<MemRegion>, r: nat, c: nat)
    requires r < |rs| && OnBlock(rs[r], c) && AllSettled(m, rs, r, c) && OnlyBlock(m, m', c)
    requires Uniform(rs, c) ==> m' == m
    requires !Uniform(rs, c) ==> K(m', c).Split? && PagesRight(m', rs, c)
    ensures AllSettled(m', rs, r, c + 1)
  {
    hide K, P, Emitted, Uniform, OnBlock, Last, Untouched;
    var c' := c + 1;
    forall b: nat ensures Settled(m', rs, r, c', b) {
      assert Settled(m, rs, r, c, b);
      if b == c {
        assert Handled(rs, r, c', r, c);
      } else {
        SeenMoves(rs, r, c, r, c', b);
        assert PagesRight(m, rs, b) ==> PagesRight(m', rs, b);
      }
    }
  }

  /** finalize_block_perms: every block touched by any region, as often as regions
      touch it. */
  method FinalizeBlockPerms(g: Guest, regs: seq<Regions.Region>, rs: seq<MemRegion>) returns (ok: bool)
    requires g.Valid() && Regions.Sorted(regs) && Identity(regs) && Agree(rs) && Nonempty(rs)
    requires forall i :: 0 <= i < |rs| ==> rs[i].end <= 0x1_0000_0000_0000
    requires AllEmitted(g.pool, rs, |rs|, 0)
    modifies g
    ensures g.Valid() && (!ok ==> Excused(g.pool, rs)) && (ok ==> AllSettled(g.pool, rs, |rs|, 0))
  {
    hide K, P, Tree, LegalLog, Replay, Emitted, Identity, Regions.Sorted, Uniform, PagesRight, OnlyBlock, Excused;
    assert forall b: nat :: !Seen(rs, 0, 0, b);
    for r := 0 to |rs|
      invariant g.Valid() && AllSettled(g.pool, rs, r, 0)
    {
      var c, hi := rs[r].start / 0x20_0000, (rs[r].end + 0x1F_FFFF) / 0x20_0000;
      SettledMoves(g.pool, rs, r, 0, r, c);
      while c < hi
        invariant g.Valid() && AllSettled(g.pool, rs, r, c) && rs[r].start / 0x20_0000 <= c <= hi
      {
        ghost var m := g.pool;
        assert OnBlock(rs[r], c) && c < 0x800_0000;
        assert !K(m, c).Absent? by {
          assert Settled(m, rs, r, c, c) && Handled(rs, |rs|, 0, r, c);
          SettledPresent(m, rs, r, c, c);
        }
        var done := FinalizeBlock(g, regs, rs, c);
        if !done {
          return false;
        }
        SettledStep(m, g.pool, rs, r, c);
        c := c + 1;
      }
      SettledMoves(g.pool, rs, r, c, r + 1, 0);
    }
    return true;
  }

  lemma SettledPresent(m: Pool, rs: seq<MemRegion>, r: nat, c: nat, b: nat)
    requires Settled(m, rs, r, c, b) && Seen(rs, |rs|, 0, b)
    ensures !K(m, b).Absent?
  {
  }

  /** What the builder promises for one page: unmapped where no region touches it,
      else mapped to itself with the permissions of the last region touching it.
      A region with no permission at all maps nothing, unless its block is covered
      whole by such regions. */
  ghost predicate PageBuilt(m: Pool, rs: seq<MemRegion>, b: nat, j: nat) {
    var v := 512 * b + j;
    && (Untouched(rs, v) ==> P(m, b, j) == None)
    && (forall i: nat :: Last(rs, i, v) ==>
          P(m, b, j) == if rs[i].perms == NO_PERMS && !Uniform(rs, b) then None else Some(Leaf(v, Norm(rs[i].perms))))
  }

  lemma SettledIsBuilt(m: Pool, rs: seq<MemRegion>, b: nat, j: nat)
    requires Settled(m, rs, |rs|, 0, b) && Nonempty(rs) && j < 512
    ensures PageBuilt(m, rs, b, j)
  {
    hide K, P, Norm, OnPage;
    var v := 512 * b + j;
    assert InBlock(v, b) && v - 512 * b == j;
    WholePages(m, b, j);
    if Seen(rs, |rs|, 0, b) {
      if Uniform(rs, b) {
        UniformBlock(rs, b, v);
      }
    } else {
      UnseenBlock(rs, b, v);
    }
  }

  /** A uniformly covered block has every page touched, always with one permission. */
  lemma UniformBlock(rs: seq<MemRegion>, b: nat, v: nat)
    requires Uniform(rs, b) && Nonempty(rs) && InBlock(v, b)
    ensures !Untouched(rs, v)
    ensures forall i: nat :: Last(rs, i, v) ==> Handled(rs, |rs|, 0, i, b)
    ensures forall i: nat, n: nat :: Last(rs, i, v) && Handled(rs, |rs|, 0, n, b) ==> rs[n].perms == rs[i].perms
  {
    assert Claimed(rs, 4096 * v);
    var k :| 0 <= k < |rs| && rs[k].start <= 4096 * v < rs[k].end;
    assert OnPage(rs[k], v);
    forall i: nat | Last(rs, i, v) ensures Handled(rs, |rs|, 0, i, b) {
      assert OnBlock(rs[i], b);
    }
  }

  lemma UnseenBlock(rs: seq<MemRegion>, b: nat, v: nat)
    requires !Seen(rs, |rs|, 0, b) && InBlock(v, b)
    ensures Untouched(rs, v)
  {
    forall k | 0 <= k < |rs| ensures !OnPage(rs[k], v) {
      assert !Handled(rs, |rs|, 0, k, b);
    }
  }

  /** guest_build_page_tables. */
  method BuildPageTables(g: Guest, regs: seq<Regions.Region>, rs: seq<MemRegion>) returns (ok: bool)
    requires forall p :: 0 <= p < |g.pool.pages| ==> |g.pool.pages[p]| == 512
    requires g.pool.next <= |g.pool.pages| && g.pool.base + |g.pool.pages| <= 0x10_0000_0000
    requires (g.cap == 16 || g.cap == 64) && GuestTables.Tlbi.Sound(g.tlbi, g.cap)
    requires Regions.Sorted(regs) && Identity(regs)
    requires Agree(rs) && Nonempty(rs) && forall i :: 0 <= i < |rs| ==> rs[i].end <= 0x1_0000_0000_0000
    modifies g
    ensures ok ==> g.Valid() && forall b: nat, j: nat :: j < 512 ==> PageBuilt(g.pool, rs, b, j)
    ensures !ok ==> Excused(g.pool, rs) && (old(g.pool.next) < old(|g.pool.pages|) ==> g.Valid())
  {
    hide K, P, Tree, LegalLog, Replay, Emitted, Identity, Regions.Sorted, PageBuilt, Settled, Agree, Nonempty,
         AllEmitted, KbufCode;
    ok := g.NewRoot();
    if !ok {
      return;
    }
    ok := EmitBlocks(g, rs);
    if !ok {
      return;
    }
    ok := FinalizeBlockPerms(g, regs, rs);
    if !ok {
      return;
    }
    forall b: nat, j: nat | j < 512 ensures PageBuilt(g.pool, rs, b, j) {
      SettledIsBuilt(g.pool, rs, b, j);
    }
    g.BumpGen();
  }

  // ----- Consequences -----

  lemma {:induction false} LastExists(rs: seq<MemRegion>, n: nat, v: nat) returns (i: nat)
    requires n <= |rs| && exists k :: 0 <= k < n && OnPage(rs[k], v)
    ensures i < n && OnPage(rs[i], v) && forall k :: 0 <= k < n && OnPage(rs[k], v) ==> rs[k].start <= rs[i].start
  {
    if exists k :: 0 <= k < n - 1 && OnPage(rs[k], v) {
      i := LastExists(rs, n - 1, v);
      if OnPage(rs[n - 1], v) && rs[n - 1].start > rs[i].start {
        i := n - 1;
      }
    } else {
      i := n - 1;
    }
  }

  /** A built page is mapped exactly when some region touches it and the last one
      asks for a permission, or the block is uniform. */
  lemma MappedExactly(m: Pool, rs: seq<MemRegion>, b: nat, j: nat)
    requires PageBuilt(m, rs, b, j)
    ensures P(m, b, j).Some? <==> exists i: nat ::
              Last(rs, i, 512 * b + j) && (rs[i].perms != NO_PERMS || Uniform(rs, b))
  {
    hide P, Norm, Uniform;
    if !Untouched(rs, 512 * b + j) {
      var i := LastExists(rs, |rs|, 512 * b + j);
      assert Last(rs, i, 512 * b + j);
    }
  }

  /** With a permission in every region, touched and mapped are the same thing. */
  lemma MappedIffTouched(m: Pool, rs: seq<MemRegion>, b: nat, j: nat)
    requires PageBuilt(m, rs, b, j) && forall i :: 0 <= i < |rs| ==> rs[i].perms != NO_PERMS
    ensures P(m, b, j).Some? <==> !Untouched(rs, 512 * b + j)
  {
    hide P, Norm, Uniform, OnPage;
    if !Untouched(rs, 512 * b + j) {
      var i := LastExists(rs, |rs|, 512 * b + j);
      assert Last(rs, i, 512 * b + j);
    }
  }

  /** Without one they are not: a lone region asking for nothing stays unmapped. */
  lemma SilentRegionUnmapped(m: Pool)
    requires PageBuilt(m, [MemRegion(0, 4096, NO_PERMS)], 0, 0)
    ensures OnPage(MemRegion(0, 4096, NO_PERMS), 0) && P(m, 0, 0) == None
  {
    var rs := [MemRegion(0, 4096, NO_PERMS)];
    assert Last(rs, 0, 0);
    assert !Claimed(rs, 4096);
  }

  /** No built page is writable and executable unless one region was. */
  lemma NoNewWritableCode(m: Pool, rs: seq<MemRegion>, b: nat, j: nat)
    requires PageBuilt(m, rs, b, j) && P(m, b, j).Some?
    requires P(m, b, j).value.perms.w && P(m, b, j).value.perms.x
    ensures exists i :: 0 <= i < |rs| && OnPage(rs[i], 512 * b + j) && rs[i].perms.w && rs[i].perms.x
  {
    hide P, Uniform;
    var i := LastExists(rs, |rs|, 512 * b + j);
    assert Last(rs, i, 512 * b + j);
  }
}
