/** The guest's stage-1 tables as words in a bump-allocated pool, the address map
they denote, and the atomic steps a runtime mutator takes on them.

Pool page `p` sits at frame `base + p`.  A 2 MiB block of the address space is
named by its root, L1 and L2 indices.  Every page of the pool carries a ghost
role: the part of the address space its 512 entries describe. */
module PageTables {
  import opened Descriptors

  /** `pages[..next]` has been handed out; the rest still holds whatever was there. */
  datatype Pool = Pool(base: nat, root: nat, next: nat, pages: seq<seq<Desc>>)

  /** Root, L1 and L2 index of a 2 MiB block. */
  datatype Block = Block(i0: nat, i1: nat, i2: nat)

  datatype Role = Free | Root | L1(i0: nat) | L2(i0: nat, i1: nat) | L3(block: Block)

  /** What a virtual page translates to: output frame and permissions. */
  datatype Leaf = Leaf(frame: nat, perms: Perms)

  /** The shape of a 2 MiB block: no L2 entry, one block descriptor, an L3 table. */
  datatype Kind = Absent | Whole(frame: nat, perms: Perms) | Split

  // ----- The walk -----

  function Entry(m: Pool, p: int, j: int): Desc {
    if 0 <= p < |m.pages| && 0 <= j < |m.pages[p]| then m.pages[p][j] else ZERO
  }

  function Target(m: Pool, d: Desc): Option<int> {
    if d.valid then Some(d.frame - m.base) else None
  }

  function L1At(m: Pool, i0: nat): Option<int> {
    Target(m, Entry(m, m.root, i0))
  }

  function L2At(m: Pool, i0: nat, i1: nat): Option<int> {
    match L1At(m, i0)
    case None => None
    case Some(p) => Target(m, Entry(m, p, i1))
  }

  function L2Desc(m: Pool, b: Block): Desc {
    match L2At(m, b.i0, b.i1)
    case None => ZERO
    case Some(p) => Entry(m, p, b.i2)
  }

  function KindOf(d: Desc): Kind {
    if !d.valid then Absent else if d.table then Split else Whole(d.frame, DescToPerms(d))
  }

  function LeafOf(d: Desc): Option<Leaf> {
    if d.valid then Some(Leaf(d.frame, DescToPerms(d))) else None
  }

  /** The shape of block `b`. */
  function KindAt(m: Pool, b: Block): Kind {
    KindOf(L2Desc(m, b))
  }

  /** The translation of page `j` of the block whose L2 entry is `d`. */
  function PageIn(m: Pool, d: Desc, j: nat): Option<Leaf> {
    if !d.valid then None
    else if d.table then LeafOf(Entry(m, d.frame - m.base, j))
    else Some(Leaf(d.frame + j, DescToPerms(d)))
  }

  /** The translation of page `j` of block `b`. */
  function PageAt(m: Pool, b: Block, j: nat): Option<Leaf> {
    PageIn(m, L2Desc(m, b), j)
  }

  // ----- The tree invariant -----

  ghost predicate Owns(roles: seq<Role>, p: int, r: Role) {
    0 <= p < |roles| && roles[p] == r
  }

  function ChildRole(r: Role, j: nat): Role {
    match r
    case Root => L1(j)
    case L1(i0) => L2(i0, j)
    case L2(i0, i1) => L3(Block(i0, i1, j))
    case _ => Free
  }

  predicate IsBlockLeaf(d: Desc) {
    d.valid && !d.table && d.frame % 512 == 0 && d.frame + 512 <= 0x10_0000_0000 && (d.ap.RwEl1? ==> d.uxn)
  }

  predicate IsPageLeaf(d: Desc) {
    d.valid && d.table && d.frame < 0x10_0000_0000
  }

  /** Entry `j` of a table with role `r` is empty, a leaf, or names the one table
      whose role is entry `j`'s part of the address space. */
  ghost predicate SlotOk(base: nat, roles: seq<Role>, r: Role, j: nat, d: Desc) {
    || d == ZERO
    || (r.L3? && IsPageLeaf(d))
    || (r.L2? && IsBlockLeaf(d))
    || (!r.L3? && d.valid && d.table && Owns(roles, d.frame - base, ChildRole(r, j)))
  }

  /** A table with a role is the one the walk reaches for that role. */
  ghost predicate Reached(m: Pool, p: nat, r: Role) {
    match r
    case Free => true
    case Root => p == m.root
    case L1(i0) => L1At(m, i0) == Some(p)
    case L2(i0, i1) => L2At(m, i0, i1) == Some(p)
    case L3(b) => L2Desc(m, b).valid && L2Desc(m, b).table && L2Desc(m, b).frame == m.base + p
  }

  ghost predicate Shaped(m: Pool, roles: seq<Role>) {
    && |roles| == |m.pages| && m.next <= |m.pages|
    && m.base + |m.pages| <= 0x10_0000_0000
    && m.root < |roles| && roles[m.root] == Root
    && (forall p :: m.next <= p < |roles| ==> roles[p] == Free)
    && (forall p :: 0 <= p < |m.pages| ==> |m.pages[p]| == 512)
  }

  ghost predicate SlotsOk(m: Pool, roles: seq<Role>)
    requires Shaped(m, roles)
  {
    forall p, j :: 0 <= p < |roles| && 0 <= j < 512 && roles[p] != Free
      ==> SlotOk(m.base, roles, roles[p], j, m.pages[p][j])
  }

  ghost predicate AllReached(m: Pool, roles: seq<Role>) {
    forall p :: 0 <= p < |roles| ==> Reached(m, p, roles[p])
  }

  /** Reachable tables form a tree of distinct pages inside the pool. */
  ghost predicate Tree(m: Pool, roles: seq<Role>) {
    Shaped(m, roles) && SlotsOk(m, roles) && AllReached(m, roles)
  }

  /** The walk for a block only visits tables whose role is its prefix. */
  lemma WalkRoles(m: Pool, roles: seq<Role>, b: Block)
    requires Tree(m, roles)
    ensures L1At(m, b.i0).Some? ==> Owns(roles, L1At(m, b.i0).value, L1(b.i0))
    ensures L2At(m, b.i0, b.i1).Some? ==> Owns(roles, L2At(m, b.i0, b.i1).value, L2(b.i0, b.i1))
    ensures SlotOk(m.base, roles, L2(b.i0, b.i1), b.i2, L2Desc(m, b))
    ensures var d := L2Desc(m, b); d.valid && d.table ==> Owns(roles, d.frame - m.base, L3(b))
  {
    assert b.i0 < 512 ==> SlotOk(m.base, roles, Root, b.i0, m.pages[m.root][b.i0]);
    if L1At(m, b.i0).Some? {
      var p1 := L1At(m, b.i0).value;
      assert b.i1 < 512 ==> SlotOk(m.base, roles, L1(b.i0), b.i1, m.pages[p1][b.i1]);
      if L2At(m, b.i0, b.i1).Some? {
        var p2 := L2At(m, b.i0, b.i1).value;
        assert b.i2 < 512 ==> SlotOk(m.base, roles, L2(b.i0, b.i1), b.i2, m.pages[p2][b.i2]);
      }
    }
  }

  // ----- Atomic steps -----

  /** One atomic step of a runtime mutator on the tables.  `Grab` is the bump of
      the pool pointer; `Fill` is
      a plain store to a page no table names yet; `Publish` and `Store` are the
      release-stores of a table pointer and of a leaf descriptor (or zero); `Bump`
      advances the generation counter. */
  datatype Event =
    | Grab
    | Fill(page: nat, idx: nat, desc: Desc)
    | Publish(page: nat, idx: nat, child: nat)
    | Store(page: nat, idx: nat, desc: Desc)
    | Bump

  datatype Snap = Snap(pool: Pool, roles: seq<Role>, gen: nat)

  function Write(m: Pool, p: nat, j: nat, d: Desc): Pool
    requires p < |m.pages| && j < |m.pages[p]|
  {
    m.(pages := m.pages[p := m.pages[p][j := d]])
  }

  ghost predicate InPool(s: Snap, p: nat, j: nat) {
    p < |s.pool.pages| == |s.roles| && j < |s.pool.pages[p]| == 512
  }

  /** A split table repeats the block it replaces, page by page. */
  ghost predicate Repeats(table: seq<Desc>, block: Desc) {
    |table| == 512 && forall i :: 0 <= i < 512 ==> table[i] == MakePage(block.frame + i, DescToPerms(block))
  }

  ghost predicate AllZero(table: seq<Desc>) {
    |table| == 512 && forall i :: 0 <= i < 512 ==> table[i] == ZERO
  }

  /** What a mutator is allowed to do in one step. */
  ghost predicate Legal(s: Snap, e: Event) {
    match e
    case Grab => s.pool.next < |s.pool.pages|
    case Fill(p, j, _) => InPool(s, p, j) && p < s.pool.next && s.roles[p] == Free
    case Publish(p, j, q) =>
      && InPool(s, p, j) && InPool(s, q, 0) && q < s.pool.next && s.roles[q] == Free
      && (match s.roles[p]
          case Root => s.pool.pages[p][j] == ZERO && AllZero(s.pool.pages[q])
          case L1(_) => s.pool.pages[p][j] == ZERO && AllZero(s.pool.pages[q])
          case L2(_, _) => IsBlockLeaf(s.pool.pages[p][j]) && Repeats(s.pool.pages[q], s.pool.pages[p][j])
          case _ => false)
    case Store(p, j, d) =>
      && InPool(s, p, j)
      && (match s.roles[p]
          case L2(_, _) => !s.pool.pages[p][j].table && (d == ZERO || IsBlockLeaf(d))
          case L3(_) => d == ZERO || IsPageLeaf(d)
          case _ => false)
    case Bump => true
  }

  ghost function Apply(s: Snap, e: Event): Snap
    requires Legal(s, e)
  {
    match e
    case Grab => s.(pool := s.pool.(next := s.pool.next + 1))
    case Fill(p, j, d) => s.(pool := Write(s.pool, p, j, d))
    case Publish(p, j, q) =>
      s.(pool := Write(s.pool, p, j, MakeTable(s.pool.base + q)), roles := s.roles[q := ChildRole(s.roles[p], j)])
    case Store(p, j, d) => s.(pool := Write(s.pool, p, j, d))
    case Bump => s.(gen := s.gen + 1)
  }

  // ----- What each step does to the address map -----

  ghost predicate SameMap(m: Pool, m': Pool) {
    && (forall b :: KindAt(m', b) == KindAt(m, b))
    && (forall b, j: nat :: j < 512 ==> PageAt(m', b, j) == PageAt(m, b, j))
  }

  /** A store outside the root and L1 tables leaves the upper levels alone. */
  lemma UpperUnchanged(m: Pool, roles: seq<Role>, p: nat, j: nat, d: Desc)
    requires Tree(m, roles) && p < |roles| && j < 512
    requires roles[p].Free? || roles[p].L2? || roles[p].L3?
    ensures forall i0: nat :: L1At(Write(m, p, j, d), i0) == L1At(m, i0)
    ensures forall i0: nat, i1: nat :: L2At(Write(m, p, j, d), i0, i1) == L2At(m, i0, i1)
  {
    var m' := Write(m, p, j, d);
    assert p != m.root;
    forall i0: nat, i1: nat ensures L2At(m', i0, i1) == L2At(m, i0, i1) {
      WalkRoles(m, roles, Block(i0, i1, 0));
      assert L1At(m', i0) == L1At(m, i0);
    }
  }

  /** A store below L2 leaves every L2 entry alone. */
  lemma BlocksUnchanged(m: Pool, roles: seq<Role>, p: nat, j: nat, d: Desc)
    requires Tree(m, roles) && p < |roles| && j < 512
    requires roles[p].Free? || roles[p].L3?
    ensures forall b :: L2Desc(Write(m, p, j, d), b) == L2Desc(m, b)
  {
    UpperUnchanged(m, roles, p, j, d);
    forall b ensures L2Desc(Write(m, p, j, d), b) == L2Desc(m, b) {
      WalkRoles(m, roles, b);
    }
  }

  /** A store keeps the slots in order when its own slot is. */
  lemma SlotsAfterStore(m: Pool, roles: seq<Role>, p: nat, j: nat, d: Desc)
    requires Shaped(m, roles) && SlotsOk(m, roles) && p < |roles| && j < 512
    requires roles[p] != Free ==> SlotOk(m.base, roles, roles[p], j, d)
    ensures Shaped(Write(m, p, j, d), roles) && SlotsOk(Write(m, p, j, d), roles)
  {
  }

  /** Tables stay reached while no table pointer on the way to them changes. */
  lemma StillReached(m: Pool, m': Pool, roles: seq<Role>)
    requires AllReached(m, roles) && m'.root == m.root && m'.base == m.base
    requires forall i0: nat :: L1At(m, i0).Some? ==> L1At(m', i0) == L1At(m, i0)
    requires forall i0: nat, i1: nat :: L2At(m, i0, i1).Some? ==> L2At(m', i0, i1) == L2At(m, i0, i1)
    requires forall b :: L2Desc(m, b).table ==> L2Desc(m', b) == L2Desc(m, b)
    ensures AllReached(m', roles)
  {
    forall p | 0 <= p < |roles| ensures Reached(m', p, roles[p]) {
      assert Reached(m, p, roles[p]);
    }
  }

  /** Filling a page that no table names yet is invisible. */
  lemma FillEffect(s: Snap, p: nat, j: nat, d: Desc)
    requires Tree(s.pool, s.roles) && Legal(s, Fill(p, j, d))
    ensures var s' := Apply(s, Fill(p, j, d)); Tree(s'.pool, s'.roles) && SameMap(s.pool, s'.pool)
  {
    hide L1At, L2At, L2Desc, SlotsOk, AllReached;
    var m, m' := s.pool, Write(s.pool, p, j, d);
    UpperUnchanged(m, s.roles, p, j, d);
    BlocksUnchanged(m, s.roles, p, j, d);
    SlotsAfterStore(m, s.roles, p, j, d);
    StillReached(m, m', s.roles);
    forall b, k: nat ensures PageAt(m', b, k) == PageAt(m, b, k) {
      WalkRoles(m, s.roles, b);
      PageInAfterStore(m, p, j, d, L2Desc(m, b), k);
    }
  }

  lemma GrabWalk(m: Pool, m': Pool, b: Block)
    requires m' == m.(next := m'.next)
    ensures L1At(m', b.i0) == L1At(m, b.i0) && L2At(m', b.i0, b.i1) == L2At(m, b.i0, b.i1)
    ensures L2Desc(m', b) == L2Desc(m, b)
    ensures forall j: nat :: PageAt(m', b, j) == PageAt(m, b, j)
  {
  }

  /** Taking a page from the pool is invisible, whatever bytes it holds. */
  lemma GrabEffect(s: Snap)
    requires Tree(s.pool, s.roles) && Legal(s, Grab)
    ensures var s' := Apply(s, Grab); Tree(s'.pool, s'.roles) && SameMap(s.pool, s'.pool)
  {
    var m' := Apply(s, Grab).pool;
    forall b ensures L2Desc(m', b) == L2Desc(s.pool, b)
             ensures forall j: nat :: PageAt(m', b, j) == PageAt(s.pool, b, j) {
      GrabWalk(s.pool, m', b);
    }
    forall i0: nat, i1: nat ensures L1At(m', i0) == L1At(s.pool, i0)
                            ensures L2At(m', i0, i1) == L2At(s.pool, i0, i1) {
      GrabWalk(s.pool, m', Block(i0, i1, 0));
    }
    StillReached(s.pool, m', s.roles);
  }

  /** Under one L2 entry, a store into pool page `p` shows through only when `p`
      is the L3 table the entry names. */
  lemma PageInAfterStore(m: Pool, p: nat, j: nat, d: Desc, e: Desc, k: nat)
    requires p < |m.pages| && j < |m.pages[p]|
    ensures PageIn(Write(m, p, j, d), e, k)
         == if e.valid && e.table && e.frame == m.base + p && k == j then LeafOf(d) else PageIn(m, e, k)
  {
  }

  /** The pages of a block after a store into its L3 table, or someone else's. */
  lemma StorePageWalk(m: Pool, roles: seq<Role>, p: nat, j: nat, d: Desc, b: Block, k: nat)
    requires Tree(m, roles) && p < |roles| && j < 512 && roles[p].L3?
    ensures PageAt(Write(m, p, j, d), b, k)
         == if b == roles[p].block && k == j then LeafOf(d) else PageAt(m, b, k)
  {
    hide L2Desc, SlotsOk;
    var e := L2Desc(m, b);
    assert L2Desc(Write(m, p, j, d), b) == e by {
      BlocksUnchanged(m, roles, p, j, d);
    }
    assert e.valid && e.table ==> Owns(roles, e.frame - m.base, L3(b)) by {
      WalkRoles(m, roles, b);
    }
    assert Reached(m, p, roles[p]);
    PageInAfterStore(m, p, j, d, e, k);
  }

  /** Storing an L3 descriptor changes exactly one page. */
  lemma StorePageEffect(s: Snap, p: nat, j: nat, d: Desc)
    requires Tree(s.pool, s.roles) && Legal(s, Store(p, j, d)) && s.roles[p].L3?
    ensures var s' := Apply(s, Store(p, j, d));
            var b0 := s.roles[p].block;
            && Tree(s'.pool, s'.roles)
            && (forall b :: KindAt(s'.pool, b) == KindAt(s.pool, b))
            && (forall b, k: nat :: PageAt(s'.pool, b, k) ==
                  if b == b0 && k == j then LeafOf(d) else PageAt(s.pool, b, k))
  {
    var m, m' := s.pool, Write(s.pool, p, j, d);
    UpperUnchanged(m, s.roles, p, j, d);
    BlocksUnchanged(m, s.roles, p, j, d);
    SlotsAfterStore(m, s.roles, p, j, d);
    StillReached(m, m', s.roles);
    forall b, k: nat
      ensures PageAt(m', b, k) == if b == s.roles[p].block && k == j then LeafOf(d) else PageAt(m, b, k)
    {
      StorePageWalk(m, s.roles, p, j, d, b, k);
    }
  }

  /** Storing into an L2 table changes exactly one L2 entry. */
  lemma StoreBlockWalk(m: Pool, roles: seq<Role>, p: nat, j: nat, d: Desc)
    requires Tree(m, roles) && p < |roles| && j < 512 && roles[p].L2?
    ensures L2Desc(m, Block(roles[p].i0, roles[p].i1, j)) == m.pages[p][j]
    ensures forall b :: L2Desc(Write(m, p, j, d), b)
                     == if b == Block(roles[p].i0, roles[p].i1, j) then d else L2Desc(m, b)
  {
    UpperUnchanged(m, roles, p, j, d);
    assert Reached(m, p, roles[p]);
    forall b ensures L2Desc(Write(m, p, j, d), b)
                  == if b == Block(roles[p].i0, roles[p].i1, j) then d else L2Desc(m, b)
    {
      WalkRoles(m, roles, b);
    }
  }

  /** Outside the block it names, an L2 store leaves every page's translation. */
  lemma StoreBlockPages(m: Pool, roles: seq<Role>, p: nat, j: nat, d: Desc, b: Block, k: nat)
    requires Tree(m, roles) && p < |roles| && j < 512 && roles[p].L2?
    ensures b != Block(roles[p].i0, roles[p].i1, j) ==> PageAt(Write(m, p, j, d), b, k) == PageAt(m, b, k)
  {
    hide L2Desc, SlotsOk, AllReached;
    var e := L2Desc(m, b);
    assert b != Block(roles[p].i0, roles[p].i1, j) ==> L2Desc(Write(m, p, j, d), b) == e by {
      StoreBlockWalk(m, roles, p, j, d);
    }
    assert e.valid && e.table ==> Owns(roles, e.frame - m.base, L3(b)) by {
      WalkRoles(m, roles, b);
    }
    PageInAfterStore(m, p, j, d, e, k);
  }

  /** Storing an L2 leaf descriptor changes exactly one 2 MiB block. */
  lemma StoreBlockEffect(s: Snap, p: nat, j: nat, d: Desc)
    requires Tree(s.pool, s.roles) && Legal(s, Store(p, j, d)) && s.roles[p].L2?
    ensures var s' := Apply(s, Store(p, j, d));
            var b0 := Block(s.roles[p].i0, s.roles[p].i1, j);
            && Tree(s'.pool, s'.roles)
            && (forall b :: KindAt(s'.pool, b) == if b == b0 then KindOf(d) else KindAt(s.pool, b))
            && (forall b, k: nat :: PageAt(s'.pool, b, k) ==
                  if b == b0 then PageIn(s.pool, d, k) else PageAt(s.pool, b, k))
  {
    var m, m' := s.pool, Write(s.pool, p, j, d);
    UpperUnchanged(m, s.roles, p, j, d);
    StoreBlockWalk(m, s.roles, p, j, d);
    SlotsAfterStore(m, s.roles, p, j, d);
    StillReached(m, m', s.roles);
    forall b, k: nat
      ensures b != Block(s.roles[p].i0, s.roles[p].i1, j) ==> PageAt(m', b, k) == PageAt(m, b, k)
    {
      StoreBlockPages(m, s.roles, p, j, d, b, k);
    }
  }

  /** The slots after a table pointer is stored. */
  lemma SlotsAfterPublish(s: Snap, p: nat, j: nat, q: nat)
    requires Tree(s.pool, s.roles) && Legal(s, Publish(p, j, q))
    ensures var s' := Apply(s, Publish(p, j, q)); Shaped(s'.pool, s'.roles) && SlotsOk(s'.pool, s'.roles)
  {
    hide AllReached;
    var s' := Apply(s, Publish(p, j, q));
    var m, m' := s.pool, s'.pool;
    assert q != p && s.roles[p] != Free;
    forall t, i | 0 <= t < |s'.roles| && 0 <= i < 512 && s'.roles[t] != Free
      ensures SlotOk(m'.base, s'.roles, s'.roles[t], i, m'.pages[t][i])
    {
      if t == p && i == j {
        assert Owns(s'.roles, m'.pages[t][i].frame - m'.base, ChildRole(s'.roles[t], i));
      } else if t != q {
        assert SlotOk(m.base, s.roles, s.roles[t], i, m.pages[t][i]);
      } else {
        assert m'.pages[t] == m.pages[q];
      }
    }
  }

  /** Publishing an empty L1 or L2 table changes one table pointer and no L2 entry. */
  lemma PublishEmptyWalk(s: Snap, p: nat, j: nat, q: nat, b: Block)
    requires Tree(s.pool, s.roles) && Legal(s, Publish(p, j, q)) && !s.roles[p].L2?
    ensures var m, m', r := s.pool, Apply(s, Publish(p, j, q)).pool, ChildRole(s.roles[p], j);
            && L1At(m', b.i0) == (if r == L1(b.i0) then Some(q) else L1At(m, b.i0))
            && L2At(m', b.i0, b.i1) == (if r == L2(b.i0, b.i1) then Some(q) else L2At(m, b.i0, b.i1))
            && (r == L1(b.i0) ==> L1At(m, b.i0) == None)
            && (r == L2(b.i0, b.i1) ==> L2At(m, b.i0, b.i1) == None)
            && L2Desc(m', b) == L2Desc(m, b)
  {
    var m, m' := s.pool, Apply(s, Publish(p, j, q)).pool;
    assert Reached(m, p, s.roles[p]);
    assert forall k :: Entry(m', q, k) == ZERO;
    WalkRoles(m, s.roles, b);
  }

  /** The one table an empty publication adds. */
  lemma PublishEmptyUpper(s: Snap, p: nat, j: nat, q: nat)
    requires Tree(s.pool, s.roles) && Legal(s, Publish(p, j, q)) && !s.roles[p].L2?
    ensures var m, m', r := s.pool, Apply(s, Publish(p, j, q)).pool, ChildRole(s.roles[p], j);
      && (forall i0: nat :: L1At(m', i0).Some? <==> L1At(m, i0).Some? || r == L1(i0))
      && (forall i0: nat, i1: nat :: L2At(m', i0, i1).Some? <==> L2At(m, i0, i1).Some? || r == L2(i0, i1))
  {
    hide L1At, L2At, L2Desc, SlotsOk, AllReached;
    var m, m', r := s.pool, Apply(s, Publish(p, j, q)).pool, ChildRole(s.roles[p], j);
    forall i0: nat ensures L1At(m', i0).Some? <==> L1At(m, i0).Some? || r == L1(i0) {
      PublishEmptyWalk(s, p, j, q, Block(i0, 0, 0));
    }
    forall i0: nat, i1: nat ensures L2At(m', i0, i1).Some? <==> L2At(m, i0, i1).Some? || r == L2(i0, i1) {
      PublishEmptyWalk(s, p, j, q, Block(i0, i1, 0));
    }
  }

  lemma PublishEmptyPages(s: Snap, p: nat, j: nat, q: nat, b: Block, k: nat)
    requires Tree(s.pool, s.roles) && Legal(s, Publish(p, j, q)) && !s.roles[p].L2?
    ensures PageAt(Apply(s, Publish(p, j, q)).pool, b, k) == PageAt(s.pool, b, k)
  {
    hide L2Desc, SlotsOk, AllReached, Repeats, AllZero;
    var m, d, e := s.pool, MakeTable(s.pool.base + q), L2Desc(s.pool, b);
    assert L2Desc(Write(m, p, j, d), b) == e by {
      PublishEmptyWalk(s, p, j, q, b);
    }
    assert e.valid && e.table ==> Owns(s.roles, e.frame - m.base, L3(b)) by {
      WalkRoles(m, s.roles, b);
    }
    PageInAfterStore(m, p, j, d, e, k);
  }

  /** Publishing an empty table maps nothing. */
  lemma PublishEmptyEffect(s: Snap, p: nat, j: nat, q: nat)
    requires Tree(s.pool, s.roles) && Legal(s, Publish(p, j, q)) && !s.roles[p].L2?
    ensures var s' := Apply(s, Publish(p, j, q)); Tree(s'.pool, s'.roles) && SameMap(s.pool, s'.pool)
  {
    var s' := Apply(s, Publish(p, j, q));
    SlotsAfterPublish(s, p, j, q);
    forall i0: nat, i1: nat
      ensures L1At(s.pool, i0).Some? ==> L1At(s'.pool, i0) == L1At(s.pool, i0)
      ensures L2At(s.pool, i0, i1).Some? ==> L2At(s'.pool, i0, i1) == L2At(s.pool, i0, i1)
    {
      PublishEmptyWalk(s, p, j, q, Block(i0, i1, 0));
    }
    forall b ensures L2Desc(s'.pool, b) == L2Desc(s.pool, b) {
      PublishEmptyWalk(s, p, j, q, b);
    }
    StillReached(s.pool, s'.pool, s.roles);
    var r := ChildRole(s.roles[p], j);
    PublishEmptyWalk(s, p, j, q, if r.L1? then Block(r.i0, 0, 0) else Block(r.i0, r.i1, 0));
    forall b, k: nat | k < 512 ensures PageAt(s'.pool, b, k) == PageAt(s.pool, b, k) {
      PublishEmptyPages(s, p, j, q, b, k);
    }
  }

  /** A table that repeats a block translates as the block does. */
  lemma RepeatsTranslates(table: seq<Desc>, block: Desc, k: nat)
    requires IsBlockLeaf(block) && Repeats(table, block) && k < 512
    ensures LeafOf(table[k]) == Some(Leaf(block.frame + k, DescToPerms(block)))
  {
    assert table[k] == MakePage(block.frame + k, DescToPerms(block));
  }

  lemma PublishSplitPages(s: Snap, p: nat, j: nat, q: nat, b: Block, k: nat)
    requires Tree(s.pool, s.roles) && Legal(s, Publish(p, j, q)) && s.roles[p].L2? && k < 512
    ensures PageAt(Apply(s, Publish(p, j, q)).pool, b, k) == PageAt(s.pool, b, k)
  {
    hide L2Desc, SlotsOk, AllReached, Repeats;
    var m, d := s.pool, MakeTable(s.pool.base + q);
    if b == Block(s.roles[p].i0, s.roles[p].i1, j) {
      assert L2Desc(m, b) == m.pages[p][j] && L2Desc(Write(m, p, j, d), b) == d by {
        StoreBlockWalk(m, s.roles, p, j, d);
      }
      RepeatsTranslates(m.pages[q], m.pages[p][j], k);
      assert Entry(Write(m, p, j, d), q, k) == m.pages[q][k];
    } else {
      StoreBlockPages(m, s.roles, p, j, d, b, k);
    }
  }

  /** Flipping a block descriptor to the table that repeats it is invisible: only
      the shape of the block changes, never a translation. */
  lemma PublishSplitEffect(s: Snap, p: nat, j: nat, q: nat)
    requires Tree(s.pool, s.roles) && Legal(s, Publish(p, j, q)) && s.roles[p].L2?
    ensures var s' := Apply(s, Publish(p, j, q));
            var b0 := Block(s.roles[p].i0, s.roles[p].i1, j);
            && Tree(s'.pool, s'.roles)
            && (forall b :: KindAt(s'.pool, b) == if b == b0 then Split else KindAt(s.pool, b))
            && (forall b, k: nat :: k < 512 ==> PageAt(s'.pool, b, k) == PageAt(s.pool, b, k))
  {
    hide PageAt, Repeats, SlotsOk;
    var s' := Apply(s, Publish(p, j, q));
    var m, m', d := s.pool, s'.pool, MakeTable(s.pool.base + q);
    UpperUnchanged(m, s.roles, p, j, d);
    StoreBlockWalk(m, s.roles, p, j, d);
    SlotsAfterPublish(s, p, j, q);
    StillReached(m, m', s.roles);
    forall b, k: nat | k < 512 ensures PageAt(m', b, k) == PageAt(m, b, k) {
      PublishSplitPages(s, p, j, q, b, k);
    }
  }

  // ----- Logs of steps -----

  /** Every legal step keeps the tree. */
  lemma StepKeepsTree(s: Snap, e: Event)
    requires Tree(s.pool, s.roles) && Legal(s, e)
    ensures Tree(Apply(s, e).pool, Apply(s, e).roles)
  {
    match e
    case Grab => GrabEffect(s);
    case Fill(p, j, d) => FillEffect(s, p, j, d);
    case Publish(p, j, q) =>
      if s.roles[p].L2? { PublishSplitEffect(s, p, j, q); } else { PublishEmptyEffect(s, p, j, q); }
    case Store(p, j, d) => if s.roles[p].L2? { StoreBlockEffect(s, p, j, d); } else { StorePageEffect(s, p, j, d); }
    case Bump =>
  }

  ghost function Replay(start: Snap, log: seq<Event>): Snap {
    if log == [] then start
    else
      var s := Replay(start, log[..|log| - 1]);
      var e := log[|log| - 1];
      if Legal(s, e) then Apply(s, e) else s
  }

  ghost predicate LegalLog(start: Snap, log: seq<Event>) {
    forall i :: 0 <= i < |log| ==> Legal(Replay(start, log[..i]), log[i])
  }

  lemma LogStep(start: Snap, log: seq<Event>, e: Event)
    requires LegalLog(start, log) && Legal(Replay(start, log), e)
    ensures LegalLog(start, log + [e])
    ensures Replay(start, log + [e]) == Apply(Replay(start, log), e)
  {
    var log' := log + [e];
    assert log'[..|log|] == log;
    forall i | 0 <= i < |log'| ensures Legal(Replay(start, log'[..i]), log'[i]) {
      assert i < |log| ==> log'[..i] == log[..i];
    }
  }
}
