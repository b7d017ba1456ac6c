/** The lock-free translation walk and its generation-tagged cache, interleaved
step by step with a page-table mutator.

Each host thread runs gva_translate_perm: it loads the generation counter, tries
its one-entry cache, and otherwise loads one descriptor per level.  Between any
two of its loads the mutator may take any number of legal steps. */
module Walker {
  import opened Descriptors
  import opened PageTables
  import opened GuestTables

  /** A cache line: `count` pages of block `b` from page `first`, tagged with the
      generation the filling walk started in. */
  datatype Line = Line(tag: nat, b: nat, first: nat, count: nat, frame: nat, perms: Perms)

  predicate LineHas(c: Line, b: nat, j: nat) {
    b == c.b && c.first <= j < c.first + c.count
  }

  function LineLeaf(c: Line, j: nat): Leaf
    requires c.first <= j
  {
    Leaf(c.frame + (j - c.first), c.perms)
  }

  /** A request to translate page `j` of block `b` with permissions `need`. */
  datatype Ask = Ask(b: nat, j: nat, need: Perms)

  datatype Walk =
    | Idle
    | AtRoot(ask: Ask, tag: nat)
    | AtTable(ask: Ask, tag: nat, level: nat, page: int)
    | Done(ask: Ask, result: Option<Leaf>)

  datatype Thread = Thread(walk: Walk, line: Option<Line>)

  /** `limit` is the primary buffer in frames; `extra` is every frame of an extra
      mapping or overflow segment. */
  datatype World = World(snap: Snap, threads: seq<Thread>, limit: nat, extra: set<nat>)

  datatype Step = Mutate(e: Event) | Begin(t: nat, ask: Ask) | Load(t: nat)

  // ----- What a translation should answer -----

  predicate Usable(w: World, leaf: Leaf, need: Perms) {
    && !leaf.perms.el1 && leaf.perms.Allows(need)
    && (leaf.frame < w.limit || leaf.frame in w.extra)
  }

  /** The answer the tables of one instant denote. */
  function Answer(w: World, ask: Ask): Option<Leaf> {
    match P(w.snap.pool, ask.b, ask.j)
    case Some(leaf) => if Usable(w, leaf, ask.need) then Some(leaf) else None
    case None => None
  }

  // ----- Walker steps -----

  /** gva_pt_table_offset with ipa_base 0: the whole table must lie in the slab. */
  predicate TableInSlab(w: World, d: Desc) {
    d.frame < w.limit
  }

  function Finish(w: World, ask: Ask, tag: nat, leaf: Leaf, fill: Line, kept: Option<Line>): Thread {
    if Usable(w, leaf, ask.need) then Thread(Done(ask, Some(leaf)), Some(fill))
    else Thread(Done(ask, None), kept)
  }

  /** One acquire-load of a descriptor, decoded from that one value. */
  function LoadStep(w: World, th: Thread): Thread {
    match th.walk
    case AtRoot(ask, tag) =>
      if Blk(ask.b).i0 >= 512 then th.(walk := Done(ask, None))
      else
        var d := Entry(w.snap.pool, w.snap.pool.root, Blk(ask.b).i0);
        if !d.valid || !TableInSlab(w, d) then th.(walk := Done(ask, None))
        else th.(walk := AtTable(ask, tag, 1, d.frame - w.snap.pool.base))
    case AtTable(ask, tag, level, page) =>
      var i := if level == 1 then Blk(ask.b).i1 else if level == 2 then Blk(ask.b).i2 else ask.j;
      var d := Entry(w.snap.pool, page, i);
      if !d.valid then th.(walk := Done(ask, None))
      else if level == 1 || (level == 2 && d.table) then
        if !TableInSlab(w, d) then th.(walk := Done(ask, None))
        else th.(walk := AtTable(ask, tag, level + 1, d.frame - w.snap.pool.base))
      else if level == 2 then
        Finish(w, ask, tag, Leaf(d.frame + ask.j, DescToPerms(d)),
               Line(tag, ask.b, 0, 512, d.frame, DescToPerms(d)), th.line)
      else
        Finish(w, ask, tag, Leaf(d.frame, DescToPerms(d)), Line(tag, ask.b, ask.j, 1, d.frame, DescToPerms(d)), th.line)
    case _ => th
  }

  predicate Hits(th: Thread, ask: Ask, gen: nat) {
    && th.line.Some? && th.line.value.tag == gen && LineHas(th.line.value, ask.b, ask.j)
    && th.line.value.perms.Allows(ask.need)
  }

  /** The generation load and the cache test. */
  function BeginStep(w: World, th: Thread, ask: Ask): Thread {
    if Hits(th, ask, w.snap.gen) then th.(walk := Done(ask, Some(LineLeaf(th.line.value, ask.j))))
    else th.(walk := AtRoot(ask, w.snap.gen))
  }

  // ----- Runs -----

  ghost predicate Enabled(w: World, s: Step) {
    match s
    case Mutate(e) => Legal(w.snap, e)
    case Begin(t, ask) => t < |w.threads| && (w.threads[t].walk.Idle? || w.threads[t].walk.Done?) && ask.j < 512
    case Load(t) => t < |w.threads| && (w.threads[t].walk.AtRoot? || w.threads[t].walk.AtTable?)
  }

  ghost function Take(w: World, s: Step): World
    requires Enabled(w, s)
  {
    match s
    case Mutate(e) => w.(snap := Apply(w.snap, e))
    case Begin(t, ask) => w.(threads := w.threads[t := BeginStep(w, w.threads[t], ask)])
    case Load(t) => w.(threads := w.threads[t := LoadStep(w, w.threads[t])])
  }

  ghost predicate Init(w: World) {
    && Tree(w.snap.pool, w.snap.roles)
    && w.snap.pool.base + |w.snap.pool.pages| <= w.limit
    && forall t :: 0 <= t < |w.threads| ==> w.threads[t] == Thread(Idle, None)
  }

  /** Any interleaving: `trace[i + 1]` is what `steps[i]` makes of `trace[i]`. */
  ghost predicate IsRun(trace: seq<World>, steps: seq<Step>) {
    && |trace| == |steps| + 1 && Init(trace[0])
    && forall i :: 0 <= i < |steps| ==> Enabled(trace[i], steps[i]) && trace[i + 1] == Take(trace[i], steps[i])
  }

  // ----- A walker only ever holds published tables -----

  function TableRole(ask: Ask, level: nat): Role {
    if level == 1 then L1(Blk(ask.b).i0) else if level == 2 then L2(Blk(ask.b).i0, Blk(ask.b).i1) else L3(Blk(ask.b))
  }

  ghost predicate Holds(s: Snap, th: Thread) {
    match th.walk
    case AtRoot(ask, tag) => ask.j < 512 && tag <= s.gen
    case AtTable(ask, tag, level, page) =>
      ask.j < 512 && tag <= s.gen && 1 <= level <= 3 && Owns(s.roles, page, TableRole(ask, level))
    case _ => true
  }

  ghost predicate Good(w: World) {
    && Tree(w.snap.pool, w.snap.roles)
    && w.snap.pool.base + |w.snap.pool.pages| <= w.limit
    && forall t :: 0 <= t < |w.threads| ==> Holds(w.snap, w.threads[t])
  }

  /** Mutator steps never take a table away from a walker that holds it. */
  lemma MutateKeepsHolds(s: Snap, e: Event, th: Thread)
    requires Tree(s.pool, s.roles) && Legal(s, e) && Holds(s, th)
    ensures Holds(Apply(s, e), th)
  {
    hide Tree;
  }

  /** One load moves a walker to a published table, or ends it with exactly the
      answer the tables denote at that instant. */
  lemma LoadIsExact(w: World, th: Thread)
    requires Good(w) && Holds(w.snap, th) && (th.walk.AtRoot? || th.walk.AtTable?)
    ensures Holds(w.snap, LoadStep(w, th))
    ensures LoadStep(w, th).walk.Done? ==> LoadStep(w, th).walk.result == Answer(w, th.walk.ask)
  {
    var m, roles, ask := w.snap.pool, w.snap.roles, th.walk.ask;
    hide Blk;
    WalkRoles(m, roles, Blk(ask.b));
    if th.walk.AtTable? {
      assert Reached(m, th.walk.page, roles[th.walk.page]);
    }
  }

  lemma {:induction false} RunIsGood(trace: seq<World>, steps: seq<Step>, i: nat)
    requires IsRun(trace, steps) && i <= |steps|
    ensures Good(trace[i])
  {
    hide Tree, LoadStep, BeginStep, Hits;
    if i > 0 {
      RunIsGood(trace, steps, i - 1);
      var w, w' := trace[i - 1], trace[i];
      assert w' == Take(w, steps[i - 1]);
      match steps[i - 1]
      case Mutate(e) =>
        StepKeepsTree(w.snap, e);
        forall t | 0 <= t < |w'.threads| ensures Holds(w'.snap, w'.threads[t]) {
          MutateKeepsHolds(w.snap, e, w.threads[t]);
        }
      case Begin(t, ask) => BeginHolds(w, w.threads[t], ask);
      case Load(t) => LoadIsExact(w, w.threads[t]);
    }
  }

  lemma BeginHolds(w: World, th: Thread, ask: Ask)
    requires ask.j < 512
    ensures Holds(w.snap, BeginStep(w, th, ask))
  {
  }

  // ----- Main results on walks -----

  /** A table a walker may read: named by the tables, and every word of it an empty
      entry, a leaf, or a pointer to the table its slot stands for. */
  ghost predicate Published(s: Snap, p: int) {
    && 0 <= p < |s.roles| == |s.pool.pages| && s.roles[p] != Free && |s.pool.pages[p]| == 512
    && forall j :: 0 <= j < 512 ==> SlotOk(s.pool.base, s.roles, s.roles[p], j, s.pool.pages[p][j])
  }

  function TableRead(w: World, walk: Walk): int {
    if walk.AtTable? then walk.page else w.snap.pool.root
  }

  /** In every interleaving, a walker's load reads a published table, never one
      still being filled. */
  lemma LoadsReadPublishedTables(trace: seq<World>, steps: seq<Step>, i: nat)
    requires IsRun(trace, steps) && i < |steps| && steps[i].Load?
    ensures Published(trace[i].snap, TableRead(trace[i], trace[i].threads[steps[i].t].walk))
  {
    RunIsGood(trace, steps, i);
  }

  /** In every interleaving, a walk that ends returns exactly the translation the
      tables denote at the instant of its last load. */
  lemma WalksAreExact(trace: seq<World>, steps: seq<Step>, i: nat)
    requires IsRun(trace, steps) && i < |steps| && steps[i].Load?
    ensures trace[i + 1].snap == trace[i].snap
    ensures var walk := trace[i + 1].threads[steps[i].t].walk;
            walk.Done? ==>
              walk.ask == trace[i].threads[steps[i].t].walk.ask && walk.result == Answer(trace[i], walk.ask)
  {
    hide Tree;
    RunIsGood(trace, steps, i);
    LoadIsExact(trace[i], trace[i].threads[steps[i].t]);
    assert trace[i + 1] == Take(trace[i], steps[i]);
  }

  /** Everything a split does before and when it flips the L2 entry, and every
      allocation of an upper table, leaves every answer as it was. */
  lemma SplitIsInvisible(w: World, e: Event, ask: Ask)
    requires Good(w) && Legal(w.snap, e) && (e.Grab? || e.Fill? || e.Publish?) && ask.j < 512
    ensures Answer(Take(w, Mutate(e)), ask) == Answer(w, ask)
  {
    hide Tree, PageAt, KindAt, Blk;
    match e
    case Grab => GrabEffect(w.snap);
    case Fill(p, j, d) => FillEffect(w.snap, p, j, d);
    case Publish(p, j, q) =>
      if w.snap.roles[p].L2? { PublishSplitEffect(w.snap, p, j, q); } else { PublishEmptyEffect(w.snap, p, j, q); }
  }

  // ----- Main results on the cache -----

  /** The line says what these tables say, for every page it covers. */
  ghost predicate Denotes(m: Pool, c: Line) {
    && !c.perms.el1
    && forall j: nat :: c.first <= j < c.first + c.count ==> j < 512 && P(m, c.b, j) == Some(LineLeaf(c, j))
  }

  lemma LoadFillsLine(w: World, th: Thread)
    requires Good(w) && Holds(w.snap, th) && (th.walk.AtRoot? || th.walk.AtTable?)
    ensures LoadStep(w, th).line == th.line ||
            (LoadStep(w, th).line.Some? && LoadStep(w, th).line.value.tag == th.walk.tag &&
             Denotes(w.snap.pool, LoadStep(w, th).line.value))
  {
    var m, roles, ask := w.snap.pool, w.snap.roles, th.walk.ask;
    hide Blk;
    WalkRoles(m, roles, Blk(ask.b));
    if th.walk.AtTable? {
      assert Reached(m, th.walk.page, roles[th.walk.page]);
    }
  }

  lemma {:induction false} GenerationsGrow(trace: seq<World>, steps: seq<Step>, i: nat, k: nat)
    requires IsRun(trace, steps) && i <= k <= |steps|
    ensures trace[i].snap.gen <= trace[k].snap.gen
    decreases k
  {
    hide Init, LoadStep, BeginStep;
    if i < k {
      GenerationsGrow(trace, steps, i, k - 1);
      assert trace[k] == Take(trace[k - 1], steps[k - 1]);
    }
  }

  /** Every cache line was exact at some instant no older than its tag. */
  lemma {:induction false} LinesWereExact(trace: seq<World>, steps: seq<Step>, i: nat, t: nat) returns (k: nat)
    requires IsRun(trace, steps) && i <= |steps| && t < |trace[i].threads| && trace[i].threads[t].line.Some?
    ensures k <= i && Denotes(trace[k].snap.pool, trace[i].threads[t].line.value)
    ensures trace[i].threads[t].line.value.tag <= trace[k].snap.gen
    decreases i
  {
    hide Tree, LoadStep, Denotes, Legal;
    assert i > 0;
    var w, w' := trace[i - 1], trace[i];
    assert w' == Take(w, steps[i - 1]);
    assert |w.threads| == |w'.threads|;
    if w'.threads[t].line == w.threads[t].line {
      k := LinesWereExact(trace, steps, i - 1, t);
    } else {
      RunIsGood(trace, steps, i - 1);
      assert steps[i - 1].Load? && steps[i - 1].t == t;
      LoadFillsLine(w, w.threads[t]);
      k := i - 1;
    }
  }

  /** In every interleaving, a cache hit returns what the tables denoted at some
      instant of the current generation. */
  lemma HitsAreCurrent(trace: seq<World>, steps: seq<Step>, i: nat) returns (k: nat)
    requires IsRun(trace, steps) && i < |steps| && steps[i].Begin?
    requires Hits(trace[i].threads[steps[i].t], steps[i].ask, trace[i].snap.gen)
    ensures k <= i && trace[k].snap.gen == trace[i].snap.gen
    ensures var walk := trace[i + 1].threads[steps[i].t].walk; var ask := steps[i].ask;
            && walk.Done? && walk.ask == ask && walk.result.Some?
            && P(trace[k].snap.pool, ask.b, ask.j) == walk.result
            && walk.result.value.perms.Allows(ask.need) && !walk.result.value.perms.el1
  {
    hide Tree, LoadStep, P;
    var t := steps[i].t;
    assert Enabled(trace[i], steps[i]) && trace[i + 1] == Take(trace[i], steps[i]);
    k := LinesWereExact(trace, steps, i, t);
    GenerationsGrow(trace, steps, k, i);
  }

  /** So a hit never predates a completed mutation: whatever descriptor was
      overwritten before the bump at step `u`, the answer is younger than `u`. */
  lemma HitsPostdateTheBump(trace: seq<World>, steps: seq<Step>, i: nat, u: nat) returns (k: nat)
    requires IsRun(trace, steps) && u < i < |steps| && steps[u] == Mutate(Bump) && steps[i].Begin?
    requires Hits(trace[i].threads[steps[i].t], steps[i].ask, trace[i].snap.gen)
    ensures u < k <= i
    ensures P(trace[k].snap.pool, steps[i].ask.b, steps[i].ask.j) == trace[i + 1].threads[steps[i].t].walk.result
  {
    hide Tree, LoadStep, P;
    k := HitsAreCurrent(trace, steps, i);
    if k <= u {
      GenerationsGrow(trace, steps, k, u);
      assert trace[u + 1] == Take(trace[u], steps[u]);
      GenerationsGrow(trace, steps, u + 1, i);
      assert false;
    }
  }

  // ----- The mutator of a run is a mutator's log -----

  function Mutations(steps: seq<Step>): seq<Event> {
    if steps == [] then []
    else
      var rest := Mutations(steps[..|steps| - 1]);
      if steps[|steps| - 1].Mutate? then rest + [steps[|steps| - 1].e] else rest
  }

  /** Walkers do not disturb a mutator: after any prefix, the tables are those its
      own steps made, and its next logged step is still legal. */
  lemma {:induction false} MutatorRunsAlone(trace: seq<World>, steps: seq<Step>, i: nat, log: seq<Event>)
    requires IsRun(trace, steps) && i <= |steps| && LegalLog(trace[0].snap, log)
    requires Mutations(steps[..i]) <= log
    ensures trace[i].snap == Replay(trace[0].snap, Mutations(steps[..i]))
    ensures |Mutations(steps[..i])| < |log| ==> Enabled(trace[i], Mutate(log[|Mutations(steps[..i])|]))
  {
    hide Init, LoadStep, BeginStep;
    if i > 0 {
      assert steps[..i][..i - 1] == steps[..i - 1];
      var before, now := Mutations(steps[..i - 1]), Mutations(steps[..i]);
      assert before <= now;
      MutatorRunsAlone(trace, steps, i - 1, log);
      assert Enabled(trace[i - 1], steps[i - 1]) && trace[i] == Take(trace[i - 1], steps[i - 1]);
      if steps[i - 1].Mutate? {
        assert now[..|now| - 1] == before;
      }
    }
    var n := |Mutations(steps[..i])|;
    assert log[..n] == Mutations(steps[..i]);
  }
}
