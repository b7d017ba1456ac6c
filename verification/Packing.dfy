/** pack_targets of the mutation-test runner: longest-first packing of targets into
groups, and how far from the best packing it can be. */
module Packing {
  import opened Descriptors

  // ----- Sums -----

  function Sum(f: string -> nat, s: seq<string>): nat {
    if s == [] then 0 else f(s[0]) + Sum(f, s[1..])
  }

  lemma {:induction false} SumConcat(f: string -> nat, a: seq<string>, b: seq<string>)
    ensures Sum(f, a + b) == Sum(f, a) + Sum(f, b)
  {
    if a == [] {
      assert a + b == b;
    } else {
      assert (a + b)[1..] == a[1..] + b;
      SumConcat(f, a[1..], b);
    }
  }

  /** Where the first element of `a` is in a permutation `b` of it, and what is left. */
  lemma TakeOut<T>(a: seq<T>, b: seq<T>) returns (i: nat)
    requires a != [] && multiset(a) == multiset(b)
    ensures i < |b| && b == b[..i] + ([a[0]] + b[i + 1..]) && multiset(a[1..]) == multiset(b[..i] + b[i + 1..])
  {
    assert a[0] in multiset(b);
    i :| 0 <= i < |b| && b[i] == a[0];
    assert a == [a[0]] + a[1..] && b == b[..i] + ([a[0]] + b[i + 1..]);
    assert multiset(a) == multiset{a[0]} + multiset(a[1..]);
    assert multiset(b) == multiset(b[..i]) + (multiset{a[0]} + multiset(b[i + 1..]));
    var c := b[..i] + b[i + 1..];
    assert multiset(c) == multiset(b[..i]) + multiset(b[i + 1..]);
    forall x ensures multiset(a[1..])[x] == multiset(c)[x] {
      assert multiset(a)[x] == multiset(b)[x];
    }
  }

  lemma {:induction false} SumPermuted(f: string -> nat, a: seq<string>, b: seq<string>)
    requires multiset(a) == multiset(b)
    ensures Sum(f, a) == Sum(f, b)
  {
    if a == [] {
      assert b == [] by {
        assert |multiset(b)| == 0;
      }
    } else {
      var x := a[0];
      var i := TakeOut(a, b);
      SumPermuted(f, a[1..], b[..i] + b[i + 1..]);
      SumConcat(f, b[..i], [x] + b[i + 1..]);
      SumConcat(f, [x], b[i + 1..]);
      SumConcat(f, b[..i], b[i + 1..]);
    }
  }

  function Flat(ps: seq<seq<string>>): seq<string> {
    if ps == [] then [] else ps[0] + Flat(ps[1..])
  }

  lemma {:induction false} FlatConcat(a: seq<seq<string>>, b: seq<seq<string>>)
    ensures Flat(a + b) == Flat(a) + Flat(b)
  {
    if a == [] {
      assert a + b == b;
    } else {
      assert (a + b)[1..] == a[1..] + b;
      FlatConcat(a[1..], b);
    }
  }

  /** Groups may be listed in any order. */
  lemma {:induction false} FlatPermuted(a: seq<seq<string>>, b: seq<seq<string>>)
    requires multiset(a) == multiset(b)
    ensures multiset(Flat(a)) == multiset(Flat(b))
  {
    if a == [] {
      assert b == [] by {
        assert |multiset(b)| == 0;
      }
    } else {
      var x := a[0];
      var i := TakeOut(a, b);
      FlatPermuted(a[1..], b[..i] + b[i + 1..]);
      FlatConcat(b[..i], [x] + b[i + 1..]);
      FlatConcat([x], b[i + 1..]);
      FlatConcat(b[..i], b[i + 1..]);
      assert Flat([x]) == x;
    }
  }

  lemma MulNext(n: nat, x: nat)
    ensures (n + 1) * x == n * x + x
  {
  }

  /** If every group sums to at least `low`, so does the whole, times the groups. */
  lemma {:induction false} SumAtLeast(f: string -> nat, ps: seq<seq<string>>, low: nat)
    requires forall i :: 0 <= i < |ps| ==> low <= Sum(f, ps[i])
    ensures |ps| * low <= Sum(f, Flat(ps))
  {
    if ps != [] {
      var n := |ps[1..]|;
      SumAtLeast(f, ps[1..], low);
      SumConcat(f, ps[0], Flat(ps[1..]));
      MulNext(n, low);
    }
  }

  lemma {:induction false} SumAtMost(f: string -> nat, ps: seq<seq<string>>, high: nat)
    requires forall i :: 0 <= i < |ps| ==> Sum(f, ps[i]) <= high
    ensures Sum(f, Flat(ps)) <= |ps| * high
  {
    if ps != [] {
      var n := |ps[1..]|;
      SumAtMost(f, ps[1..], high);
      SumConcat(f, ps[0], Flat(ps[1..]));
      MulNext(n, high);
    }
  }

  lemma {:induction false} SumHas(f: string -> nat, s: seq<string>, i: nat)
    requires i < |s|
    ensures f(s[i]) <= Sum(f, s)
  {
    if i > 0 {
      SumHas(f, s[1..], i - 1);
    }
  }

  // ----- The greedy invariant -----

  /** Worth of a target to the counting argument: 0 below weight `p`, else 2 if it
      exceeds `k`, else 1. */
  ghost function Worth(cost: string -> nat, k: nat, p: nat): string -> nat {
    (t: string) => if cost(t) < p then 0 else if cost(t) > k then 2 else 1
  }

  /** Targets none lighter than `p` that together exceed `k` are worth at least 2. */
  lemma {:induction false} OverloadWorth(cost: string -> nat, k: nat, p: nat, b: seq<string>)
    requires Sum(cost, b) > k && forall i :: 0 <= i < |b| ==> cost(b[i]) >= p
    ensures Sum(Worth(cost, k, p), b) >= 2
  {
    if |b| == 1 {
      assert b[1..] == [];
    } else {
      assert b[1..][0] == b[1];
      assert Sum(Worth(cost, k, p), b) ==
        Worth(cost, k, p)(b[0]) + (Worth(cost, k, p)(b[1]) + Sum(Worth(cost, k, p), b[1..][1..]));
    }
  }

  /** The last target `x` of a group went to a group of least load: the others weighed
      no less than this one without `x`, and if it weighed more than some `k`, each
      group was worth at least 2. */
  ghost predicate Justified(cost: string -> nat, m: nat, prefix: seq<string>, b: seq<string>) {
    b != [] ==>
      var p := cost(b[|b| - 1]);
      var before := Sum(cost, b[..|b| - 1]);
      && m * before + p <= Sum(cost, prefix)
      && forall k: nat :: k < before ==> 2 * m + 1 <= Sum(Worth(cost, k, p), prefix)
  }

  ghost predicate Packed(cost: string -> nat, m: nat, prefix: seq<string>, ps: seq<seq<string>>) {
    && |ps| == m && multiset(Flat(ps)) == multiset(prefix)
    && forall i :: 0 <= i < |ps| ==> Justified(cost, m, prefix, ps[i])
  }

  lemma JustifiedStays(cost: string -> nat, m: nat, prefix: seq<string>, b: seq<string>, t: string)
    requires Justified(cost, m, prefix, b)
    ensures Justified(cost, m, prefix + [t], b)
  {
    SumConcat(cost, prefix, [t]);
    if b != [] {
      var p := cost(b[|b| - 1]);
      forall k: nat | k < Sum(cost, b[..|b| - 1]) ensures 2 * m + 1 <= Sum(Worth(cost, k, p), prefix + [t]) {
        SumConcat(Worth(cost, k, p), prefix, [t]);
      }
    }
  }

  /** A target no heavier than those before it, put in a least-loaded group. */
  lemma JustifiedNew(cost: string -> nat, m: nat, prefix: seq<string>, ps: seq<seq<string>>, t: string)
    requires Packed(cost, m, prefix, ps) && m > 0
    requires forall i :: 0 <= i < m ==> Sum(cost, ps[0]) <= Sum(cost, ps[i])
    requires forall i :: 0 <= i < |prefix| ==> cost(prefix[i]) >= cost(t)
    ensures Justified(cost, m, prefix + [t], ps[0] + [t])
  {
    var b, p, before := ps[0] + [t], cost(t), Sum(cost, ps[0]);
    assert b[..|b| - 1] == ps[0];
    SumAtLeast(cost, ps, before);
    SumPermuted(cost, Flat(ps), prefix);
    SumConcat(cost, prefix, [t]);
    assert Sum(cost, [t]) == cost(t);
    forall k: nat | k < before ensures 2 * m + 1 <= Sum(Worth(cost, k, p), prefix + [t]) {
      var w := Worth(cost, k, p);
      forall i | 0 <= i < m ensures 2 <= Sum(w, ps[i]) {
        NoneLighter(cost, prefix, ps, i, p);
        OverloadWorth(cost, k, p, ps[i]);
      }
      SumAtLeast(w, ps, 2);
      SumPermuted(w, Flat(ps), prefix);
      SumConcat(w, prefix, [t]);
      assert Sum(w, [t]) == w(t) >= 1;
    }
  }

  lemma NoneLighter(cost: string -> nat, prefix: seq<string>, ps: seq<seq<string>>, i: nat, p: nat)
    requires multiset(Flat(ps)) == multiset(prefix) && i < |ps|
    requires forall k :: 0 <= k < |prefix| ==> cost(prefix[k]) >= p
    ensures forall k :: 0 <= k < |ps[i]| ==> cost(ps[i][k]) >= p
  {
    forall k | 0 <= k < |ps[i]| ensures cost(ps[i][k]) >= p {
      FlatHas(ps, i, k);
      assert ps[i][k] in multiset(prefix);
    }
  }

  lemma {:induction false} FlatHas(ps: seq<seq<string>>, i: nat, k: nat)
    requires i < |ps| && k < |ps[i]|
    ensures ps[i][k] in Flat(ps)
  {
    if i > 0 {
      FlatHas(ps[1..], i - 1, k);
    }
  }

  lemma PackStep(cost: string -> nat, m: nat, prefix: seq<string>, ps: seq<seq<string>>, t: string)
    requires Packed(cost, m, prefix, ps) && m > 0
    requires forall i :: 0 <= i < m ==> Sum(cost, ps[0]) <= Sum(cost, ps[i])
    requires forall i :: 0 <= i < |prefix| ==> cost(prefix[i]) >= cost(t)
    ensures Packed(cost, m, prefix + [t], ps[0 := ps[0] + [t]])
  {
    hide Justified;
    var qs := ps[0 := ps[0] + [t]];
    JustifiedNew(cost, m, prefix, ps, t);
    forall i | 0 <= i < m ensures Justified(cost, m, prefix + [t], qs[i]) {
      if i > 0 {
        JustifiedStays(cost, m, prefix, ps[i], t);
      }
    }
    assert qs[1..] == ps[1..] && qs[0] == ps[0] + [t];
    assert multiset(Flat(qs)) == multiset(ps[0] + [t]) + multiset(Flat(ps[1..]));
    assert multiset(Flat(ps)) == multiset(ps[0]) + multiset(Flat(ps[1..]));
  }

  // ----- The bounds -----

  lemma MulGrows(a: nat, b: nat, x: nat)
    requires a <= b
    ensures a * x <= b * x && x * a <= x * b
  {
  }

  lemma MulSum(m: nat, a: nat, b: nat)
    ensures m * (a + b) == m * a + m * b
  {
  }

  lemma SplitLast(f: string -> nat, b: seq<string>)
    requires b != []
    ensures Sum(f, b) == Sum(f, b[..|b| - 1]) + f(b[|b| - 1])
  {
    var last := [b[|b| - 1]];
    assert b == b[..|b| - 1] + last && last[1..] == [];
    SumConcat(f, b[..|b| - 1], last);
  }

  /** No group outweighs the average by more than (m - 1) / m of the heaviest target. */
  lemma NearAverage(cost: string -> nat, m: nat, order: seq<string>, b: seq<string>, heaviest: nat)
    requires m > 0 && Justified(cost, m, order, b) && forall t :: t in b ==> cost(t) <= heaviest
    ensures m * Sum(cost, b) <= Sum(cost, order) + (m - 1) * heaviest
  {
    if b != [] {
      var p, before := cost(b[|b| - 1]), Sum(cost, b[..|b| - 1]);
      SplitLast(cost, b);
      assert b[|b| - 1] in b;
      AverageBound(m, before, p, Sum(cost, order), heaviest);
    }
  }

  lemma AverageBound(m: nat, before: nat, p: nat, total: nat, heaviest: nat)
    requires m > 0 && m * before + p <= total && p <= heaviest
    ensures m * (before + p) <= total + (m - 1) * heaviest
  {
    MulSum(m, before, p);
    MulNext(m - 1, p);
    MulGrows(p, heaviest, m - 1);
  }

  lemma {:induction false} LightWorthless(cost: string -> nat, k: nat, p: nat, s: seq<string>)
    requires Sum(cost, s) < p
    ensures Sum(Worth(cost, k, p), s) == 0
  {
    if s != [] {
      LightWorthless(cost, k, p, s[1..]);
    }
  }

  /** A group that stays within `limit` is worth at most 2, if three of weight `p`
      would not fit. */
  lemma GroupWorth(cost: string -> nat, p: nat, q: seq<string>, limit: nat)
    requires p <= limit < 3 * p && Sum(cost, q) <= limit
    ensures Sum(Worth(cost, limit - p, p), q) <= 2
  {
    var k, w := limit - p, Worth(cost, limit - p, p);
    if i :| 0 <= i < |q| && cost(q[i]) > k && cost(q[i]) >= p {
      var rest := q[..i] + q[i + 1..];
      assert q == q[..i] + ([q[i]] + q[i + 1..]);
      SumConcat(cost, q[..i], [q[i]] + q[i + 1..]);
      SumConcat(cost, [q[i]], q[i + 1..]);
      SumConcat(cost, q[..i], q[i + 1..]);
      SumConcat(w, q[..i], [q[i]] + q[i + 1..]);
      SumConcat(w, [q[i]], q[i + 1..]);
      SumConcat(w, q[..i], q[i + 1..]);
      LightWorthless(cost, k, p, rest);
    } else {
      SmallOrLight(cost, k, p, q);
      var n := Sum(w, q);
      MulGrows(if n >= 3 then 3 else n, n, p);
    }
  }

  lemma {:induction false} SmallOrLight(cost: string -> nat, k: nat, p: nat, s: seq<string>)
    requires forall i :: 0 <= i < |s| ==> cost(s[i]) <= k || cost(s[i]) < p
    ensures Sum(Worth(cost, k, p), s) * p <= Sum(cost, s)
  {
    if s != [] {
      SmallOrLight(cost, k, p, s[1..]);
      var w := Worth(cost, k, p);
      if w(s[0]) == 1 {
        MulNext(Sum(w, s[1..]), p);
      }
    }
  }

  lemma {:induction false} CostWithin(cost: string -> nat, qs: seq<seq<string>>, t: string, limit: nat)
    requires t in Flat(qs) && forall i :: 0 <= i < |qs| ==> Sum(cost, qs[i]) <= limit
    ensures cost(t) <= limit
  {
    if t in qs[0] {
      var i :| 0 <= i < |qs[0]| && qs[0][i] == t;
      SumHas(cost, qs[0], i);
    } else {
      CostWithin(cost, qs[1..], t, limit);
    }
  }

  /** `load` is at most 4/3 - 1/(3m) times `limit`. */
  predicate Graham(m: nat, load: nat, limit: nat) {
    3 * m * load <= (4 * m - 1) * limit
  }

  /** A target heavier than a third of `limit` went where it still fitted. */
  lemma HeavyFits(cost: string -> nat, m: nat, order: seq<string>, qs: seq<seq<string>>, limit: nat, b: seq<string>)
    requires |qs| <= m && multiset(Flat(qs)) == multiset(order)
    requires forall i :: 0 <= i < |qs| ==> Sum(cost, qs[i]) <= limit
    requires Justified(cost, m, order, b) && b != [] && cost(b[|b| - 1]) <= limit < 3 * cost(b[|b| - 1])
    ensures Sum(cost, b[..|b| - 1]) + cost(b[|b| - 1]) <= limit
  {
    hide Flat, Worth, Sum;
    var p, before := cost(b[|b| - 1]), Sum(cost, b[..|b| - 1]);
    if before + p > limit {
      var w := Worth(cost, limit - p, p);
      forall i | 0 <= i < |qs| ensures Sum(w, qs[i]) <= 2 {
        GroupWorth(cost, p, qs[i], limit);
      }
      SumAtMost(w, qs, 2);
      SumPermuted(w, Flat(qs), order);
    }
  }

  lemma TotalWithin(cost: string -> nat, m: nat, order: seq<string>, qs: seq<seq<string>>, limit: nat)
    requires |qs| <= m && multiset(Flat(qs)) == multiset(order)
    requires forall i :: 0 <= i < |qs| ==> Sum(cost, qs[i]) <= limit
    ensures Sum(cost, order) <= m * limit
  {
    hide Flat, Sum;
    SumAtMost(cost, qs, limit);
    SumPermuted(cost, Flat(qs), order);
    MulGrows(|qs|, m, limit);
  }

  lemma OneWithin(cost: string -> nat, order: seq<string>, qs: seq<seq<string>>, limit: nat, t: string)
    requires multiset(Flat(qs)) == multiset(order) && t in order
    requires forall i :: 0 <= i < |qs| ==> Sum(cost, qs[i]) <= limit
    ensures cost(t) <= limit
  {
    hide Flat, Sum;
    assert t in multiset(Flat(qs));
    CostWithin(cost, qs, t, limit);
  }

  /** Graham's bound: no group outweighs 4/3 - 1/(3m) of the heaviest group of any
      packing into `m` groups. */
  lemma FourThirds(cost: string -> nat, m: nat, order: seq<string>, b: seq<string>, qs: seq<seq<string>>, limit: nat)
    requires m > 0 && Justified(cost, m, order, b) && forall t :: t in b ==> t in order
    requires |qs| <= m && multiset(Flat(qs)) == multiset(order)
    requires forall i :: 0 <= i < |qs| ==> Sum(cost, qs[i]) <= limit
    ensures Graham(m, Sum(cost, b), limit)
  {
    hide Flat, Sum, Graham, Justified;
    if b == [] {
      SumEmpty(cost);
      LooseBound(m, 0, limit);
      return;
    }
    var p, before := cost(b[|b| - 1]), Sum(cost, b[..|b| - 1]);
    SplitLast(cost, b);
    OneWithin(cost, order, qs, limit, b[|b| - 1]);
    if 3 * p <= limit {
      TotalWithin(cost, m, order, qs, limit);
      LastLight(cost, m, order, b, limit);
    } else {
      HeavyFits(cost, m, order, qs, limit, b);
      LooseBound(m, before + p, limit);
    }
  }

  lemma LastLight(cost: string -> nat, m: nat, order: seq<string>, b: seq<string>, limit: nat)
    requires m > 0 && Justified(cost, m, order, b) && b != []
    requires 3 * cost(b[|b| - 1]) <= limit && Sum(cost, order) <= m * limit
    ensures Graham(m, Sum(cost, b[..|b| - 1]) + cost(b[|b| - 1]), limit)
  {
    hide Sum, Graham, Worth;
    TightBound(m, Sum(cost, b[..|b| - 1]), cost(b[|b| - 1]), limit);
  }

  lemma SumEmpty(f: string -> nat)
    ensures Sum(f, []) == 0
  {
  }

  lemma TightBound(m: nat, before: nat, p: nat, limit: nat)
    requires m > 0 && m * before + p <= m * limit && 3 * p <= limit
    ensures Graham(m, before + p, limit)
  {
    AverageBound(m, before, p, m * limit, p);
    MulGrows(3 * p, limit, m - 1);
    Triple(m, before + p);
    Triple(m - 1, p);
    FourLessOne(m, limit);
  }

  lemma Triple(a: nat, x: nat)
    ensures 3 * a * x == 3 * (a * x) && a * (3 * x) == 3 * (a * x)
  {
  }

  lemma FourLessOne(m: nat, x: nat)
    requires m > 0
    ensures (4 * m - 1) * x == 3 * (m * x) + (m - 1) * x
  {
  }

  lemma LooseBound(m: nat, load: nat, limit: nat)
    requires m > 0 && load <= limit
    ensures Graham(m, load, limit)
  {
    MulGrows(load, limit, 3 * m);
    MulGrows(3 * m, 4 * m - 1, limit);
  }

  // ----- Groups that are used -----

  function Used(qs: seq<seq<string>>): seq<seq<string>> {
    if qs == [] then [] else (if qs[0] == [] then [] else [qs[0]]) + Used(qs[1..])
  }

  lemma {:induction false} UsedIs(qs: seq<seq<string>>)
    ensures Flat(Used(qs)) == Flat(qs) && |Used(qs)| <= |qs| && |Used(qs)| <= |Flat(qs)|
    ensures forall q :: q in Used(qs) <==> q in qs && q != []
  {
    if qs != [] {
      UsedIs(qs[1..]);
      FlatConcat(if qs[0] == [] then [] else [qs[0]], Used(qs[1..]));
      assert qs[0] != [] ==> Flat([qs[0]]) == qs[0];
    }
  }

  // ----- Stable sorting -----

  /** Put `x` behind everything that does not belong above it. */
  function Sink<T>(s: seq<T>, x: T, above: (T, T) -> bool): seq<T> {
    if s != [] && above(s[|s| - 1], x) then Sink(s[..|s| - 1], x, above) + [s[|s| - 1]] else s + [x]
  }

  function SortBy<T>(s: seq<T>, above: (T, T) -> bool): seq<T> {
    if s == [] then [] else Sink(SortBy(s[..|s| - 1], above), s[|s| - 1], above)
  }

  ghost predicate IsOrder<T(!new)>(above: (T, T) -> bool) {
    && (forall a: T, b: T :: above(a, b) ==> !above(b, a))
    && (forall a: T, b: T, c: T :: !above(a, b) && !above(b, c) ==> !above(a, c))
  }

  ghost predicate Ordered<T>(s: seq<T>, above: (T, T) -> bool) {
    forall i, j :: 0 <= i < j < |s| ==> !above(s[i], s[j])
  }

  lemma {:induction false} SinkBag<T>(s: seq<T>, x: T, above: (T, T) -> bool)
    ensures multiset(Sink(s, x, above)) == multiset(s) + multiset{x}
  {
    if s != [] && above(s[|s| - 1], x) {
      SinkBag(s[..|s| - 1], x, above);
      assert s == s[..|s| - 1] + [s[|s| - 1]];
    }
  }

  lemma {:induction false} SinkOrders<T(!new)>(s: seq<T>, x: T, above: (T, T) -> bool)
    requires Ordered(s, above) && IsOrder(above)
    ensures Ordered(Sink(s, x, above), above)
  {
    if s != [] {
      var body, top := s[..|s| - 1], s[|s| - 1];
      if above(top, x) {
        SinkOrders(body, x, above);
        SinkBag(body, x, above);
        var r := Sink(body, x, above);
        forall i | 0 <= i < |r| ensures !above(r[i], top) {
          assert r[i] in multiset(r);
          if r[i] != x {
            assert r[i] in multiset(body);
            var k :| 0 <= k < |body| && body[k] == r[i];
            assert s[k] == r[i];
          }
        }
      } else {
        forall i | 0 <= i < |s| ensures !above(s[i], x) {
          assert i < |s| - 1 ==> !above(s[i], top);
        }
      }
    }
  }

  /** The elements of `s` that rank with `x`, in order. */
  ghost function Tied<T>(s: seq<T>, x: T, above: (T, T) -> bool): seq<T> {
    if s == [] then []
    else Tied(s[..|s| - 1], x, above) + if Ties(s[|s| - 1], x, above) then [s[|s| - 1]] else []
  }

  predicate Ties<T>(a: T, b: T, above: (T, T) -> bool) {
    !above(a, b) && !above(b, a)
  }

  lemma {:induction false} SinkStable<T(!new)>(s: seq<T>, x: T, above: (T, T) -> bool, k: T)
    requires IsOrder(above)
    ensures Tied(Sink(s, x, above), k, above) == Tied(s, k, above) + if Ties(x, k, above) then [x] else []
  {
    hide IsOrder, Ties;
    if s != [] && above(s[|s| - 1], x) {
      var body, top := s[..|s| - 1], s[|s| - 1];
      SinkStable(body, x, above, k);
      TiedAppend(Sink(body, x, above), top, above, k);
      TieOne(top, x, above, k);
    } else {
      TiedAppend(s, x, above, k);
    }
  }

  lemma TieOne<T(!new)>(a: T, b: T, above: (T, T) -> bool, k: T)
    requires IsOrder(above) && above(a, b)
    ensures !(Ties(a, k, above) && Ties(b, k, above))
  {
  }

  lemma TiedAppend<T>(s: seq<T>, x: T, above: (T, T) -> bool, k: T)
    ensures Tied(s + [x], k, above) == Tied(s, k, above) + if Ties(x, k, above) then [x] else []
  {
    assert (s + [x])[..|s|] == s;
  }

  /** The sort is stable: elements that rank alike keep their order. */
  lemma {:induction false} SortByStable<T(!new)>(s: seq<T>, above: (T, T) -> bool, k: T)
    requires IsOrder(above)
    ensures Tied(SortBy(s, above), k, above) == Tied(s, k, above)
  {
    if s != [] {
      SortByStable(s[..|s| - 1], above, k);
      SinkStable(SortBy(s[..|s| - 1], above), s[|s| - 1], above, k);
    }
  }

  lemma {:induction false} SortByIs<T(!new)>(s: seq<T>, above: (T, T) -> bool)
    requires IsOrder(above)
    ensures multiset(SortBy(s, above)) == multiset(s) && Ordered(SortBy(s, above), above) && |SortBy(s, above)| == |s|
  {
    if s != [] {
      var body, top := s[..|s| - 1], s[|s| - 1];
      assert s == body + [top];
      SortByIs(body, above);
      SinkBag(SortBy(body, above), top, above);
      SinkOrders(SortBy(body, above), top, above);
    }
    assert |multiset(SortBy(s, above))| == |multiset(s)|;
  }

  /** Python's string order. */
  predicate Less(a: string, b: string) {
    b != [] && (a == [] || a[0] < b[0] || (a[0] == b[0] && Less(a[1..], b[1..])))
  }

  lemma {:induction false} LessOrders(a: string, b: string, c: string)
    ensures Less(a, b) ==> !Less(b, a)
    ensures !Less(b, a) && !Less(c, b) ==> !Less(c, a)
    ensures !Less(a, b) && !Less(b, a) ==> a == b
  {
    if a != [] && b != [] {
      if c != [] {
        LessOrders(a[1..], b[1..], c[1..]);
      } else {
        LessOrders(a[1..], b[1..], c);
      }
      if a[0] == b[0] && a[1..] == b[1..] {
        assert a == [a[0]] + a[1..] && b == [b[0]] + b[1..];
      }
    }
  }

  function ByName(): (string, string) -> bool {
    (a, b) => Less(b, a)
  }

  /** The key (-count, name). */
  function ByKey(cost: string -> nat): (string, string) -> bool {
    (a, b) => cost(a) < cost(b) || (cost(a) == cost(b) && Less(b, a))
  }

  function ByLoad(cost: string -> nat): (seq<string>, seq<string>) -> bool {
    (a, b) => Sum(cost, a) > Sum(cost, b)
  }

  lemma KeysOrder(cost: string -> nat)
    ensures IsOrder(ByName()) && IsOrder(ByKey(cost)) && IsOrder(ByLoad(cost))
  {
    forall a, b ensures Less(a, b) ==> !Less(b, a) {
      LessOrders(a, b, a);
    }
    forall a, b, c ensures !Less(b, a) && !Less(c, b) ==> !Less(c, a) {
      LessOrders(a, b, c);
    }
  }

  // ----- pack_targets -----

  /** counts.get(t, 0). */
  function Cost(counts: map<string, nat>): string -> nat {
    (t: string) => if t in counts then counts[t] else 0
  }

  /** Each group in name order. */
  function Named(ps: seq<seq<string>>): seq<seq<string>> {
    if ps == [] then [] else [SortBy(ps[0], ByName())] + Named(ps[1..])
  }

  lemma {:induction false} NamedIs(ps: seq<seq<string>>)
    ensures |Named(ps)| == |ps| && multiset(Flat(Named(ps))) == multiset(Flat(ps))
    ensures forall i :: 0 <= i < |ps| ==> Named(ps)[i] == SortBy(ps[i], ByName())
  {
    if ps != [] {
      NamedIs(ps[1..]);
      KeysOrder(_ => 0);
      SortByIs(ps[0], ByName());
      assert Named(ps)[1..] == Named(ps[1..]);
    }
  }

  /** Every target is in exactly one group, as often as it was given, and no group is
      empty; there are at most `buckets`. */
  ghost predicate Partition(targets: seq<string>, buckets: int, ps: seq<seq<string>>) {
    && multiset(Flat(ps)) == multiset(targets) && (ps == [] || |ps| <= buckets)
    && forall b :: b in ps ==> b != [] && Ordered(b, ByName())
  }

  /** A packing into at most `buckets` groups none of which outweighs `limit`. */
  ghost predicate Packs(cost: string -> nat, targets: seq<string>, buckets: int, limit: nat, qs: seq<seq<string>>) {
    && |qs| <= buckets && multiset(Flat(qs)) == multiset(targets)
    && forall i :: 0 <= i < |qs| ==> Sum(cost, qs[i]) <= limit
  }

  ghost predicate NoneHeavier(cost: string -> nat, targets: seq<string>, heaviest: nat) {
    forall t :: t in targets ==> cost(t) <= heaviest
  }

  /** No group outweighs the average plus (m - 1) / m of the heaviest target, nor
      4/3 - 1/(3m) of what any packing needs. */
  ghost predicate Balanced(cost: string -> nat, targets: seq<string>, buckets: nat, b: seq<string>) {
    var m := if buckets <= |targets| then buckets else |targets|;
    && (forall heaviest: nat :: NoneHeavier(cost, targets, heaviest) ==>
          m * Sum(cost, b) <= Sum(cost, targets) + (m - 1) * heaviest)
    && (forall qs, limit: nat :: Packs(cost, targets, buckets, limit, qs) ==> Graham(m, Sum(cost, b), limit))
  }

  function NoGroups(m: nat): seq<seq<string>> {
    seq(m, _ => [])
  }

  lemma StartPacked(cost: string -> nat, m: nat)
    ensures Packed(cost, m, [], NoGroups(m))
  {
    EmptyFlat(m);
  }

  lemma {:induction false} EmptyFlat(m: nat)
    ensures Flat(NoGroups(m)) == []
  {
    if m > 0 {
      EmptyFlat(m - 1);
      assert NoGroups(m)[1..] == NoGroups(m - 1);
    }
  }

  lemma SortPacked(cost: string -> nat, m: nat, prefix: seq<string>, ps: seq<seq<string>>)
    requires Packed(cost, m, prefix, ps)
    ensures var qs := SortBy(ps, ByLoad(cost));
      Packed(cost, m, prefix, qs) && forall i :: 0 <= i < m ==> Sum(cost, qs[0]) <= Sum(cost, qs[i])
  {
    hide Justified, SortBy, Sum, Flat;
    KeysOrder(cost);
    SortByIs(ps, ByLoad(cost));
    var qs := SortBy(ps, ByLoad(cost));
    FlatPermuted(ps, qs);
    forall i | 0 <= i < |qs| ensures Justified(cost, m, prefix, qs[i]) {
      assert qs[i] in multiset(ps);
    }
    forall i | 0 <= i < m ensures Sum(cost, qs[0]) <= Sum(cost, qs[i]) {
      assert i > 0 ==> !ByLoad(cost)(qs[0], qs[i]);
    }
  }

  /** What the finished groups are worth against every other packing. */
  lemma PackedBalanced(cost: string -> nat, targets: seq<string>, order: seq<string>, buckets: nat,
                       ps: seq<seq<string>>, b: seq<string>, c: seq<string>)
    requires multiset(order) == multiset(targets) && |order| == |targets| > 0 && buckets > 0
    requires Packed(cost, if buckets <= |order| then buckets else |order|, order, ps)
    requires b in ps && multiset(c) == multiset(b)
    ensures Balanced(cost, targets, buckets, c)
  {
    hide Justified, Sum, Flat, Packs, Graham;
    var m := if buckets <= |order| then buckets else |order|;
    SumPermuted(cost, c, b);
    SumPermuted(cost, order, targets);
    var j :| 0 <= j < |ps| && ps[j] == b;
    forall t | t in b ensures t in order && t in targets {
      var k :| 0 <= k < |b| && b[k] == t;
      FlatHas(ps, j, k);
      assert t in multiset(order) && t in multiset(targets);
    }
    forall heaviest: nat | NoneHeavier(cost, targets, heaviest)
      ensures m * Sum(cost, c) <= Sum(cost, targets) + (m - 1) * heaviest
    {
      NearAverage(cost, m, order, b, heaviest);
    }
    forall qs, limit: nat | Packs(cost, targets, buckets, limit, qs) ensures Graham(m, Sum(cost, c), limit) {
      UsedPacks(cost, targets, buckets, limit, qs);
      FourThirds(cost, m, order, b, Used(qs), limit);
    }
  }

  lemma UsedPacks(cost: string -> nat, targets: seq<string>, buckets: nat, limit: nat, qs: seq<seq<string>>)
    requires Packs(cost, targets, buckets, limit, qs)
    ensures |Used(qs)| <= buckets && |Used(qs)| <= |targets| && multiset(Flat(Used(qs))) == multiset(targets)
    ensures forall i :: 0 <= i < |Used(qs)| ==> Sum(cost, Used(qs)[i]) <= limit
  {
    UsedIs(qs);
    assert |multiset(Flat(qs))| == |multiset(targets)|;
    forall i | 0 <= i < |Used(qs)| ensures Sum(cost, Used(qs)[i]) <= limit {
      assert Used(qs)[i] in Used(qs);
    }
  }

  /** pack_targets.  Without a bucket to put the first target in it raises, which is
      the result None. */
  method PackTargets(targets: seq<string>, counts: map<string, nat>, buckets: int) returns (r: Option<seq<seq<string>>>)
    ensures r.None? <==> targets != [] && buckets <= 0
    ensures r.Some? ==> Partition(targets, buckets, r.value)
    ensures r.Some? ==> forall b :: b in r.value ==> Balanced(Cost(counts), targets, buckets, b)
  {
    hide SortBy, Sum, Flat, Cost, Balanced, Packed, Ordered, Used, Named;
    var cost := Cost(counts);
    var order := SortBy(targets, ByKey(cost));
    KeysOrder(cost);
    SortByIs(targets, ByKey(cost));
    if order == [] {
      EmptyPartition(buckets);
      assert targets == [];
      return Some([]);
    }
    var m := if buckets <= |order| then buckets else |order|;
    if m <= 0 {
      return None;
    }
    var packed := NoGroups(m);
    StartPacked(cost, m);
    assert order[..0] == [];
    for i := 0 to |order|
      invariant Packed(cost, m, order[..i], packed)
    {
      SortPacked(cost, m, order[..i], packed);
      packed := SortBy(packed, ByLoad(cost));
      Descending(cost, order, i);
      PackStep(cost, m, order[..i], packed, order[i]);
      PackedSize(cost, m, order[..i], packed);
      packed := packed[0 := packed[0] + [order[i]]];
      assert order[..i + 1] == order[..i] + [order[i]];
    }
    assert order[..|order|] == order;
    FinishPacked(cost, targets, order, buckets, packed);
    return Some(Named(Used(packed)));
  }

  lemma EmptyPartition(buckets: int)
    ensures Partition([], buckets, [])
  {
  }

  lemma PackedSize(cost: string -> nat, m: nat, prefix: seq<string>, ps: seq<seq<string>>)
    requires Packed(cost, m, prefix, ps)
    ensures |ps| == m
  {
  }

  lemma Descending(cost: string -> nat, order: seq<string>, i: nat)
    requires Ordered(order, ByKey(cost)) && i < |order|
    ensures forall k :: 0 <= k < |order[..i]| ==> cost(order[..i][k]) >= cost(order[i])
  {
    forall k | 0 <= k < i ensures cost(order[k]) >= cost(order[i]) {
      assert !ByKey(cost)(order[k], order[i]);
    }
  }

  lemma FinishPacked(cost: string -> nat, targets: seq<string>, order: seq<string>, buckets: nat, ps: seq<seq<string>>)
    requires multiset(order) == multiset(targets) && |order| == |targets| > 0 && buckets > 0
    requires Packed(cost, if buckets <= |order| then buckets else |order|, order, ps)
    ensures Partition(targets, buckets, Named(Used(ps)))
    ensures forall b :: b in Named(Used(ps)) ==> Balanced(cost, targets, buckets, b)
  {
    hide SortBy, Sum, Balanced, Flat, Used, Named, Justified, Ordered;
    var us := Used(ps);
    UsedIs(ps);
    NamedIs(us);
    forall c | c in Named(us) ensures Balanced(cost, targets, buckets, c) && c != [] && Ordered(c, ByName()) {
      var i :| 0 <= i < |us| && Named(us)[i] == c;
      assert us[i] in us;
      KeysOrder(cost);
      SortByIs(us[i], ByName());
      PackedBalanced(cost, targets, order, buckets, ps, us[i], c);
    }
  }
}
