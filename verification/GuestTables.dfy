/** The runtime page-table mutators of guest_t, over the pool of `PageTables`.

Virtual addresses are counted in 4 KiB pages once an operation has rounded its
byte range; page `j` of 2 MiB block `b` is virtual page `512 * b + j`.  Every
store is recorded in a ghost log of atomic steps. */
module GuestTables {
  import opened Descriptors
  import opened PageTables
  import Tlbi
  import Regions

  /** The walk indices of 2 MiB block number `b`. */
  function Blk(b: nat): Block {
    Block(b / 0x4_0000, b / 512 % 512, b % 512)
  }

  lemma BlkInjective(b: nat)
    ensures forall c: nat :: Blk(c) == Blk(b) ==> c == b
  {
    forall c: nat | Blk(c) == Blk(b) ensures c == b {
      assert c / 512 == c / 0x4_0000 * 512 + c / 512 % 512;
      assert b / 512 == b / 0x4_0000 * 512 + b / 512 % 512;
    }
  }

  lemma L0Range(b: nat)
    ensures Blk(b).i0 >= 512 <==> b >= 0x800_0000
  {
  }

  /** The shape of block number `b`. */
  function K(m: Pool, b: nat): Kind {
    KindAt(m, Blk(b))
  }

  /** The translation of page `j` of block number `b`. */
  function P(m: Pool, b: nat, j: nat): Option<Leaf> {
    PageAt(m, Blk(b), j)
  }

  ghost predicate SameAddresses(m: Pool, m': Pool) {
    && (forall b: nat :: K(m', b) == K(m, b))
    && (forall b: nat, j: nat :: j < 512 ==> P(m', b, j) == P(m, b, j))
  }

  /** Every L1 and L2 table is still found where it was. */
  ghost predicate SameUpper(m: Pool, m': Pool) {
    && (forall i0: nat :: L1At(m', i0) == L1At(m, i0))
    && (forall i0: nat, i1: nat :: L2At(m', i0, i1) == L2At(m, i0, i1))
  }

  lemma GrabUpper(m: Pool, next: nat)
    ensures SameUpper(m, m.(next := next))
  {
    hide L1At, L2At;
    var m' := m.(next := next);
    forall i0: nat ensures L1At(m', i0) == L1At(m, i0) {
      GrabWalk(m, m', Block(i0, 0, 0));
    }
    forall i0: nat, i1: nat ensures L2At(m', i0, i1) == L2At(m, i0, i1) {
      GrabWalk(m, m', Block(i0, i1, 0));
    }
  }

  // ----- Room for upper tables -----

  predicate HasL1(m: Pool, b: nat) {
    L1At(m, Blk(b).i0).Some?
  }

  predicate HasL2(m: Pool, b: nat) {
    L2At(m, Blk(b).i0, Blk(b).i1).Some?
  }

  /** How many tables the walk to block `b` lacks above its L2 entry. */
  function Missing(m: Pool, b: nat): nat {
    (if HasL1(m, b) then 0 else 1) + (if HasL2(m, b) then 0 else 1)
  }

  /** The tables on the way to block `b`, and no others, were added. */
  ghost predicate Reaches(m: Pool, m': Pool, b: nat) {
    && m'.next == m.next + Missing(m, b) && |m'.pages| == |m.pages|
    && (forall c: nat :: HasL1(m', c) <==> HasL1(m, c) || c / 0x4_0000 == b / 0x4_0000)
    && (forall c: nat :: HasL2(m', c) <==> HasL2(m, c) || c / 512 == b / 512)
  }

  /** The walk's two upper indices, as quotients. */
  lemma UpperIndices(b: nat, c: nat)
    ensures Blk(c).i0 == Blk(b).i0 <==> c / 0x4_0000 == b / 0x4_0000
    ensures Blk(c).i0 == Blk(b).i0 && Blk(c).i1 == Blk(b).i1 <==> c / 512 == b / 512
  {
    assert b / 512 == b / 0x4_0000 * 512 + b / 512 % 512 && c / 512 == c / 0x4_0000 * 512 + c / 512 % 512;
  }

  lemma ReachesIs(m: Pool, m': Pool, b: nat)
    requires m'.next == m.next + Missing(m, b) && |m'.pages| == |m.pages|
    requires forall i0: nat :: L1At(m', i0).Some? <==> L1At(m, i0).Some? || i0 == Blk(b).i0
    requires forall i0: nat, i1: nat ::
      L2At(m', i0, i1).Some? <==> L2At(m, i0, i1).Some? || (i0 == Blk(b).i0 && i1 == Blk(b).i1)
    ensures Reaches(m, m', b)
  {
    hide L1At, L2At, Blk;
    forall c: nat
      ensures HasL1(m', c) <==> HasL1(m, c) || c / 0x4_0000 == b / 0x4_0000
      ensures HasL2(m', c) <==> HasL2(m, c) || c / 512 == b / 512
    {
      UpperIndices(b, c);
    }
  }

  lemma ReachesStill(m: Pool, m1: Pool, m2: Pool, b: nat)
    requires Reaches(m, m1, b) && SameUpper(m1, m2) && m2.next == m1.next && |m2.pages| == |m1.pages|
    ensures Reaches(m, m2, b)
  {
    hide L1At, L2At, Blk, Missing;
    assert forall c: nat :: HasL1(m2, c) == HasL1(m1, c) && HasL2(m2, c) == HasL2(m1, c);
  }

  /** How many tables block `b` still lacks once blocks [blo, b) have theirs. */
  function Extra(m: Pool, blo: nat, b: nat): nat {
    (if HasL1(m, b) || (blo < b && b % 0x4_0000 != 0) then 0 else 1) +
    (if HasL2(m, b) || (blo < b && b % 512 != 0) then 0 else 1)
  }

  /** How many tables blocks [blo, bhi) lack. */
  function Need(m: Pool, blo: nat, bhi: nat): nat {
    if bhi <= blo then 0 else Need(m, blo, bhi - 1) + Extra(m, blo, bhi - 1)
  }

  /** The pool has a page for every table that blocks [blo, b] lack. */
  predicate Fits(m: Pool, blo: nat, b: nat) {
    b < 0x800_0000 && m.next + Need(m, blo, b + 1) <= |m.pages|
  }

  lemma {:induction false} NeedGrows(m: Pool, blo: nat, b: nat, c: nat)
    requires b <= c
    ensures Need(m, blo, b) <= Need(m, blo, c)
    decreases c - b
  {
    if b < c {
      NeedGrows(m, blo, b, c - 1);
    }
  }

  /** What fits is a prefix. */
  lemma FitsBefore(m: Pool, blo: nat, b: nat, c: nat)
    requires Fits(m, blo, c) && b <= c
    ensures Fits(m, blo, b)
  {
    NeedGrows(m, blo, b + 1, c + 1);
  }

  ghost predicate Extended(m: Pool, m': Pool, blo: nat, b: nat) {
    && m'.next == m.next + Need(m, blo, b) && |m'.pages| == |m.pages|
    && (forall c: nat :: HasL1(m', c) <==>
      HasL1(m, c) || (blo < b && blo / 0x4_0000 <= c / 0x4_0000 <= (b - 1) / 0x4_0000))
    && (forall c: nat :: HasL2(m', c) <==> HasL2(m, c) || (blo < b && blo / 512 <= c / 512 <= (b - 1) / 512))
  }

  lemma ExtraLeft(m: Pool, m': Pool, blo: nat, b: nat)
    requires blo <= b && Extended(m, m', blo, b)
    ensures Missing(m', b) == Extra(m, blo, b)
  {
    hide HasL1, HasL2;
    if blo < b {
      assert blo / 0x4_0000 <= b / 0x4_0000 && blo / 512 <= b / 512;
      assert b / 0x4_0000 <= (b - 1) / 0x4_0000 <==> b % 0x4_0000 != 0;
      assert b / 512 <= (b - 1) / 512 <==> b % 512 != 0;
    }
  }

  lemma ExtendOne(m: Pool, m1: Pool, m2: Pool, blo: nat, b: nat)
    requires blo <= b && Extended(m, m1, blo, b) && Reaches(m1, m2, b)
    ensures Extended(m, m2, blo, b + 1)
  {
    hide HasL1, HasL2;
    ExtraLeft(m, m1, blo, b);
    forall c: nat
      ensures HasL1(m2, c) <==> HasL1(m, c) || (blo / 0x4_0000 <= c / 0x4_0000 <= b / 0x4_0000)
      ensures HasL2(m2, c) <==> HasL2(m, c) || (blo / 512 <= c / 512 <= b / 512)
    {
      ReachL1(blo, b, c);
      ReachL2(blo, b, c);
    }
  }

  lemma ReachL1(blo: nat, b: nat, c: nat)
    requires blo <= b
    ensures blo / 0x4_0000 <= c / 0x4_0000 <= b / 0x4_0000 <==>
      (blo < b && blo / 0x4_0000 <= c / 0x4_0000 <= (b - 1) / 0x4_0000) || c / 0x4_0000 == b / 0x4_0000
  {
  }

  lemma ReachL2(blo: nat, b: nat, c: nat)
    requires blo <= b
    ensures blo / 512 <= c / 512 <= b / 512 <==>
      (blo < b && blo / 512 <= c / 512 <= (b - 1) / 512) || c / 512 == b / 512
  {
  }

  // ----- The top of the 64-bit space -----

  /** Rounding a higher address up to a page would wrap. */
  const LAST_PAGE: nat := 0xFFFF_FFFF_FFFF_F000

  /** A range that ends in the last 2 MiB of the 64-bit space. */
  predicate Runaway(from: nat, to: nat) {
    from / 4096 < (to + 4095) / 4096 && 0xFFFF_FFFF_FFE0_0000 < to <= LAST_PAGE
  }

  /** The next block, in 64 bits. */
  function SkipBlock(addr: nat): nat {
    (addr / 0x20_0000 * 0x20_0000 + 0x20_0000) % 0x1_0000_0000_0000_0000
  }

  /** On such a range the loops of guest_invalidate_ptes and guest_update_perms never
      see their counter reach the end: no block from 2^48 up has an L2 entry, and what
      skipping a block leads to is below the end again. */
  lemma RunawaySkips(m: Pool, roles: seq<Role>, from: nat, to: nat, addr: nat)
    requires Tree(m, roles) && Runaway(from, to) && addr < to
    ensures SkipBlock(addr) < to
    ensures addr >= 0x1_0000_0000_0000 ==> L2At(m, Blk(addr / 0x20_0000).i0, Blk(addr / 0x20_0000).i1) == None
  {
    hide SlotsOk, AllReached;
    var blocks := addr / 0x20_0000;
    assert blocks <= 0x7FF_FFFF_FFFF;
    assert SkipBlock(addr) <= 0x20_0000 * 0x7FF_FFFF_FFFF;
    assert addr >= 0x1_0000_0000_0000 ==> Blk(blocks).i0 >= 512;
  }

  // ----- What the mutators promise, page by page -----

  /** A block that an operation on pages [lo, hi) touches, or touches whole. */
  predicate Touches(b: nat, lo: nat, hi: nat) {
    lo < hi && lo < 512 * b + 512 && 512 * b < hi
  }

  predicate Spans(b: nat, lo: nat, hi: nat) {
    lo <= 512 * b && 512 * b + 512 <= hi
  }

  /** Pages of the window [2^48 - 256 MiB, 2^48). */
  predicate KbufPages(lo: nat, hi: nat) {
    hi > 0xF_FFFF_0000 && lo < 0x10_0000_0000
  }

  /** Block `b`, mapped whole, has to be split for pages [lo, hi); for new permissions
      `keep` only if it has others. */
  predicate Cut(m: Pool, b: nat, lo: nat, hi: nat, keep: Option<Perms>) {
    K(m, b).Whole? && Touches(b, lo, hi) && !Spans(b, lo, hi) && (keep.Some? ==> K(m, b).perms != keep.value)
  }

  /** How many blocks of the range below `b` have to be split. */
  function Cuts(m: Pool, lo: nat, hi: nat, keep: Option<Perms>, b: nat): nat {
    if b <= lo / 512 then 0 else Cuts(m, lo, hi, keep, b - 1) + if Cut(m, b - 1, lo, hi, keep) then 1 else 0
  }

  /** The pool has a page for every block up to `b` that has to be split. */
  predicate CutFits(m: Pool, lo: nat, hi: nat, keep: Option<Perms>, b: nat) {
    m.next + Cuts(m, lo, hi, keep, b + 1) <= |m.pages|
  }

  /** Going through the range stops at the first block that cannot be split. */
  ghost predicate StopsCutting(m: Pool, lo: nat, hi: nat, keep: Option<Perms>, upto: nat) {
    && lo <= upto <= hi && (lo < upto ==> CutFits(m, lo, hi, keep, (upto - 1) / 512))
    && (upto < hi ==> (upto == lo || upto % 512 == 0) && Cut(m, upto / 512, lo, hi, keep)
                      && !CutFits(m, lo, hi, keep, upto / 512))
  }

  lemma {:induction false} CutsGrow(m: Pool, lo: nat, hi: nat, keep: Option<Perms>, b: nat, c: nat)
    requires b <= c
    ensures Cuts(m, lo, hi, keep, b) <= Cuts(m, lo, hi, keep, c)
    decreases c - b
  {
    hide Cut;
    if b < c {
      CutsGrow(m, lo, hi, keep, b, c - 1);
    }
  }

  /** So it gets to the end exactly when the pool has a page for every split. */
  lemma CuttingIff(m: Pool, lo: nat, hi: nat, keep: Option<Perms>, upto: nat)
    requires lo < hi && StopsCutting(m, lo, hi, keep, upto)
    ensures upto == hi <==> CutFits(m, lo, hi, keep, (hi - 1) / 512)
  {
    hide Cut, Cuts;
    if upto < hi {
      CutsGrow(m, lo, hi, keep, upto / 512 + 1, (hi - 1) / 512 + 1);
    }
  }

  /** The next block to look at, once pages [lo, addr) are done. */
  function NextBlock(lo: nat, addr: nat): nat {
    if addr <= lo then lo / 512 else (addr - 1) / 512 + 1
  }

  /** Where the pool stands once pages [lo, addr) are done. */
  ghost predicate CutTo(m: Pool, m': Pool, lo: nat, hi: nat, keep: Option<Perms>, addr: nat) {
    && lo <= addr <= hi && (addr == lo || addr % 512 == 0 || addr == hi)
    && m'.next == m.next + Cuts(m, lo, hi, keep, NextBlock(lo, addr)) && |m'.pages| == |m.pages|
    && (lo < addr ==> CutFits(m, lo, hi, keep, (addr - 1) / 512))
  }

  lemma CutStarts(m: Pool, lo: nat, hi: nat, keep: Option<Perms>)
    requires lo <= hi
    ensures CutTo(m, m, lo, hi, keep, lo)
  {
  }

  /** The end of the block that page `addr` is in, or of the range. */
  function BlockEnd(addr: nat, hi: nat): nat {
    var end := addr / 512 * 512 + 512;
    if hi < end then hi else end
  }

  /** One block: it has to be split exactly when the split it meets needs a page. */
  lemma CutNext(m: Pool, m1: Pool, lo: nat, hi: nat, keep: Option<Perms>, addr: nat)
    requires CutTo(m, m1, lo, hi, keep, addr) && addr < hi
    ensures var b, end := addr / 512, BlockEnd(addr, hi);
      && addr < end && 512 * b <= addr < 512 * b + 512 && end <= 512 * b + 512
      && (Cut(m, b, lo, hi, keep) <==> K(m, b).Whole? && !(addr == 512 * b && end == 512 * b + 512)
                                       && (keep.Some? ==> K(m, b).perms != keep.value))
      && (CutFits(m, lo, hi, keep, b) <==>
            m1.next + (if Cut(m, b, lo, hi, keep) then 1 else 0) <= |m1.pages|)
  {
    hide K;
    assert NextBlock(lo, addr) == addr / 512;
  }

  lemma CutStep(m: Pool, m1: Pool, m2: Pool, lo: nat, hi: nat, keep: Option<Perms>, addr: nat)
    requires CutTo(m, m1, lo, hi, keep, addr) && addr < hi && CutFits(m, lo, hi, keep, addr / 512)
    requires m2.next == m1.next + (if Cut(m, addr / 512, lo, hi, keep) then 1 else 0) && |m2.pages| == |m1.pages|
    ensures CutTo(m, m2, lo, hi, keep, BlockEnd(addr, hi))
  {
    hide K, Cut;
    var b, end := addr / 512, BlockEnd(addr, hi);
    assert NextBlock(lo, addr) == b && (end - 1) / 512 == b && NextBlock(lo, end) == b + 1;
  }

  lemma CutStops(m: Pool, m1: Pool, lo: nat, hi: nat, keep: Option<Perms>, addr: nat)
    requires CutTo(m, m1, lo, hi, keep, addr)
    requires addr < hi ==> Cut(m, addr / 512, lo, hi, keep) && !CutFits(m, lo, hi, keep, addr / 512)
    ensures StopsCutting(m, lo, hi, keep, addr)
  {
    hide K, Cut, Cuts;
  }

  function InvalidKind(k: Kind, b: nat, lo: nat, hi: nat): Kind {
    if !k.Whole? || !Touches(b, lo, hi) then k else if Spans(b, lo, hi) then Absent else Split
  }

  /** Pages [lo, hi) translate nowhere, every other page as before. */
  ghost predicate Invalidated(m: Pool, m': Pool, lo: nat, hi: nat) {
    && (forall b: nat :: K(m', b) == InvalidKind(K(m, b), b, lo, hi))
    && (forall b: nat, j: nat :: j < 512 ==> P(m', b, j) == if lo <= 512 * b + j < hi then None else P(m, b, j))
  }

  lemma InvalidateTwice(m: Pool, m1: Pool, m2: Pool, lo: nat, mid: nat, hi: nat)
    requires Invalidated(m, m1, lo, mid) && Invalidated(m1, m2, mid, hi)
    requires lo <= mid <= hi && (mid == lo || mid % 512 == 0)
    ensures Invalidated(m, m2, lo, hi)
  {
    hide K, P;
  }

  /** The frame an invalid page of an L3 table is revived with: its tracked
      region's backing frame, or its own number. */
  function Home(regs: seq<Regions.Region>, v: nat): nat {
    match Regions.Lookup(regs, 4096 * v)
    case None => v
    case Some(r) => (r.gpa + (4096 * v - r.start)) / 4096
  }

  function UpdatedKind(k: Kind, b: nat, lo: nat, hi: nat, perms: Perms): Kind {
    if !k.Whole? || !Touches(b, lo, hi) then k
    else if Spans(b, lo, hi) then Whole(k.frame, Norm(perms))
    else if k.perms == perms then k else Split
  }

  function UpdatedPage(k: Kind, page: Option<Leaf>, home: nat, perms: Perms): Option<Leaf> {
    if k.Absent? then page
    else Some(Leaf(if page.Some? then page.value.frame else home % 0x10_0000_0000, Norm(perms)))
  }

  /** In every block that has an L2 entry, pages [lo, hi) carry the permissions:
      mapped pages keep their frame, unmapped ones are revived at home. */
  ghost predicate Updated(m: Pool, m': Pool, lo: nat, hi: nat, perms: Perms, regs: seq<Regions.Region>) {
    && (forall b: nat :: K(m', b) == UpdatedKind(K(m, b), b, lo, hi, perms))
    && (forall b: nat, j: nat :: j < 512 ==>
          P(m', b, j) == if lo <= 512 * b + j < hi
                         then UpdatedPage(K(m, b), P(m, b, j), Home(regs, 512 * b + j), perms)
                         else P(m, b, j))
  }

  lemma UpdateTwice(m: Pool, m1: Pool, m2: Pool, lo: nat, mid: nat, hi: nat, perms: Perms, regs: seq<Regions.Region>)
    requires Updated(m, m1, lo, mid, perms, regs) && Updated(m1, m2, mid, hi, perms, regs)
    requires lo <= mid <= hi && (mid == lo || mid % 512 == 0)
    ensures Updated(m, m2, lo, hi, perms, regs)
  {
    hide K, P, Home;
  }

  lemma UpdateUntouched(m: Pool, m': Pool, lo: nat, hi: nat, perms: Perms, regs: seq<Regions.Region>, b: nat)
    requires Updated(m, m', lo, hi, perms, regs) && !Touches(b, lo, hi)
    ensures K(m', b) == K(m, b)
  {
    hide K, P;
  }

  /** A whole block translates each of its pages through the one descriptor. */
  lemma WholePages(m: Pool, b: nat, j: nat)
    ensures K(m, b).Whole? ==> P(m, b, j) == Some(Leaf(K(m, b).frame + j, K(m, b).perms))
    ensures K(m, b).Absent? ==> P(m, b, j) == None
  {
  }

  lemma UpdateNothing(m: Pool, lo: nat, hi: nat, perms: Perms, regs: seq<Regions.Region>)
    requires hi <= lo
    ensures Updated(m, m, lo, hi, perms, regs)
  {
  }

  /** A block with no entry is left alone. */
  lemma UpdateAbsent(m: Pool, b: nat, jlo: nat, jhi: nat, perms: Perms, regs: seq<Regions.Region>)
    requires K(m, b).Absent? && jlo < jhi <= 512
    ensures Updated(m, m, 512 * b + jlo, 512 * b + jhi, perms, regs)
  {
    hide K, P, Home, Norm;
  }

  /** So is one that has the permissions already. */
  lemma UpdateSame(m: Pool, b: nat, jlo: nat, jhi: nat, perms: Perms, regs: seq<Regions.Region>)
    requires K(m, b).Whole? && K(m, b).perms == perms == Norm(perms) && jlo < jhi <= 512 && !(jlo == 0 && jhi == 512)
    ensures Updated(m, m, 512 * b + jlo, 512 * b + jhi, perms, regs)
  {
    hide K, P, Home, Norm;
    forall j: nat ensures P(m, b, j) == Some(Leaf(K(m, b).frame + j, perms)) {
      WholePages(m, b, j);
    }
  }

  /** Any other is a table by now, and its pages are rewritten. */
  lemma UpdateSplit(m: Pool, m1: Pool, m2: Pool, b: nat, jlo: nat, jhi: nat, perms: Perms, regs: seq<Regions.Region>)
    requires jlo < jhi <= 512 && !K(m, b).Absent?
    requires K(m, b).Whole? ==> K(m, b).perms != perms && !(jlo == 0 && jhi == 512)
    requires forall c: nat :: K(m2, c) == K(m1, c) == if c == b then Split else K(m, c)
    requires forall c: nat, k: nat :: k < 512 ==> P(m1, c, k) == P(m, c, k)
    requires forall c: nat, k: nat :: k < 512 ==>
      P(m2, c, k) == if c == b && jlo <= k < jhi then UpdatedPage(Split, P(m1, b, k), Home(regs, 512 * b + k), perms)
                     else P(m1, c, k)
    ensures Updated(m, m2, 512 * b + jlo, 512 * b + jhi, perms, regs)
  {
    hide K, P, Home, Norm;
  }

  /** Rewriting a block descriptor keeps its frame and sets its permissions. */
  lemma Reblocked(m: Pool, d: Desc, perms: Perms)
    requires IsBlockLeaf(d)
    ensures IsBlockLeaf(MakeBlock(d.frame, perms))
    ensures KindOf(MakeBlock(d.frame, perms)) == Whole(d.frame, Norm(perms))
    ensures forall k: nat :: PageIn(m, MakeBlock(d.frame, perms), k) == Some(Leaf(d.frame + k, Norm(perms)))
    ensures forall k: nat :: PageIn(m, d, k) == Some(Leaf(d.frame + k, DescToPerms(d)))
    ensures Norm(DescToPerms(d)) == DescToPerms(d)
  {
  }

  /** The frame a block descriptor can hold. */
  function BlockFrame(frame: nat): nat {
    frame % 0x10_0000_0000 / 512 * 512
  }

  /** Blocks [blo, bhi) that had no L2 entry are mapped whole, onto consecutive
      blocks from `frame`; blocks that had one are left exactly as they were. */
  ghost predicate MappedWhole(m: Pool, m': Pool, blo: nat, bhi: nat, frame: nat, perms: Perms) {
    && (forall b: nat :: K(m', b) ==
          if blo <= b < bhi && K(m, b).Absent? then Whole(BlockFrame(frame + 512 * (b - blo)), Norm(perms))
          else K(m, b))
    && (forall b: nat, j: nat :: j < 512 ==>
          P(m', b, j) == if blo <= b < bhi && K(m, b).Absent?
                         then Some(Leaf(BlockFrame(frame + 512 * (b - blo)) + j, Norm(perms)))
                         else P(m, b, j))
  }

  /** Mapping stops at the first block the pool has no tables for. */
  ghost predicate StopsAt(m: Pool, blo: nat, bhi: nat, upto: nat) {
    && blo <= upto && (upto <= bhi || upto == blo)
    && (blo < upto ==> Fits(m, blo, upto - 1)) && (upto < bhi ==> !Fits(m, blo, upto))
  }

  /** So it gets to the end exactly when the pool has tables for the last block. */
  lemma StopsIff(m: Pool, blo: nat, bhi: nat, upto: nat)
    requires StopsAt(m, blo, bhi, upto)
    ensures bhi <= upto <==> bhi <= blo || Fits(m, blo, bhi - 1)
  {
    hide Fits;
    if blo < bhi && Fits(m, blo, bhi - 1) && upto < bhi {
      FitsBefore(m, blo, upto, bhi - 1);
    }
  }

  lemma ExtendNothing(m: Pool, blo: nat)
    ensures Extended(m, m, blo, blo)
  {
  }

  lemma AllNeeded(m: Pool, m': Pool, blo: nat, b: nat, bhi: nat)
    requires Extended(m, m', blo, b) && bhi <= b && (b <= bhi || b == blo)
    ensures |m'.pages| == |m.pages| && m'.next == m.next + Need(m, blo, bhi)
  {
  }

  lemma FitsNext(m: Pool, m': Pool, blo: nat, b: nat)
    requires blo <= b && Extended(m, m', blo, b)
    ensures Fits(m, blo, b) <==> b < 0x800_0000 && m'.next + Missing(m', b) <= |m'.pages|
  {
    hide HasL1, HasL2;
    ExtraLeft(m, m', blo, b);
  }

  lemma MapStopped(m: Pool, m1: Pool, m2: Pool, blo: nat, b: nat, frame: nat, perms: Perms)
    requires MappedWhole(m, m1, blo, b, frame, perms) && SameAddresses(m1, m2)
    ensures MappedWhole(m, m2, blo, b, frame, perms)
  {
    hide K, P, BlockFrame, Norm;
  }

  lemma MapTwice(m: Pool, m1: Pool, m2: Pool, blo: nat, mid: nat, frame: nat, perms: Perms)
    requires blo <= mid && MappedWhole(m, m1, blo, mid, frame, perms)
    requires MappedWhole(m1, m2, mid, mid + 1, frame + 512 * (mid - blo), perms)
    ensures MappedWhole(m, m2, blo, mid + 1, frame, perms)
  {
    hide K, P, BlockFrame, Norm;
  }

  /** Pages [v, v + n) are mapped onto consecutive frames from `frame`. */
  ghost predicate Installed(m: Pool, m': Pool, v: nat, n: nat, frame: nat, perms: Perms) {
    && (forall b: nat :: K(m', b) == if Touches(b, v, v + n) && K(m, b).Whole? then Split else K(m, b))
    && (forall b: nat, j: nat :: j < 512 ==>
          P(m', b, j) == if v <= 512 * b + j < v + n
                         then Some(Leaf((frame + (512 * b + j - v)) % 0x10_0000_0000, Norm(perms)))
                         else P(m, b, j))
  }

  /** Ranges guest_install_va_pages refuses: empty, misaligned, wrapping, or an
      executable alias of the kbuf window. */
  predicate NoInstall(va: nat, length: nat, gpa: nat, perms: Perms) {
    || length == 0 || va % 4096 != 0 || length % 4096 != 0 || gpa % 4096 != 0
    || va + length > 0xFFFF_FFFF_FFFF_FFFF || gpa + length > 0xFFFF_FFFF_FFFF_FFFF
    || (perms.x && KbufPages(va / 4096, va / 4096 + length / 4096))
  }

  lemma InstallNothing(m: Pool, v: nat, frame: nat, perms: Perms)
    ensures Installed(m, m, v, 0, frame, perms) && Splits(m, v, 0) == 0
  {
  }

  lemma InstallTwice(m: Pool, m1: Pool, m2: Pool, v: nat, n: nat, frame: nat, perms: Perms)
    requires Installed(m, m1, v, n, frame, perms) && Installed(m1, m2, v + n, 1, frame + n, perms)
    ensures Installed(m, m2, v, n + 1, frame, perms)
  {
    hide K, P, Norm;
  }

  /** How many blocks installing `n` pages from `v` has to split. */
  function Splits(m: Pool, v: nat, n: nat): nat {
    if n == 0 then 0
    else Splits(m, v, n - 1) + if K(m, (v + n - 1) / 512).Whole? && (n == 1 || (v + n - 1) % 512 == 0) then 1 else 0
  }

  /** Page `v + i` has an L2 entry, and the pool a page for each block split by then. */
  predicate Installable(m: Pool, v: nat, i: nat) {
    !K(m, (v + i) / 512).Absent? && m.next + Splits(m, v, i + 1) <= |m.pages|
  }

  /** Installing stops at the first page that cannot be. */
  ghost predicate StopsInstalling(m: Pool, v: nat, n: nat, upto: nat) {
    && upto <= n && (forall i: nat :: i < upto ==> Installable(m, v, i)) && (upto < n ==> !Installable(m, v, upto))
  }

  lemma InstallNext(m: Pool, m': Pool, v: nat, i: nat, frame: nat, perms: Perms)
    requires Installed(m, m', v, i, frame, perms) && m'.next == m.next + Splits(m, v, i) && |m'.pages| == |m.pages|
    ensures var k := K(m', (v + i) / 512);
      && (Installable(m, v, i) <==> !k.Absent? && (k.Whole? ==> m'.next < |m'.pages|) && m'.next <= |m'.pages|)
      && Splits(m, v, i + 1) == Splits(m, v, i) + (if k.Whole? then 1 else 0)
  {
    hide K, P, Norm;
    var b := (v + i) / 512;
    assert Touches(b, v, v + i) <==> i > 0 && (v + i) % 512 != 0;
  }

  ghost predicate OnlyWithin(m: Pool, m': Pool, lo: nat, hi: nat) {
    forall b: nat, j: nat :: j < 512 && !(lo <= 512 * b + j < hi) ==> P(m', b, j) == P(m, b, j)
  }

  lemma InstalledWithin(m: Pool, m': Pool, v: nat, n: nat, frame: nat, perms: Perms)
    requires Installed(m, m', v, n, frame, perms)
    ensures OnlyWithin(m, m', v, v + n)
  {
    hide K, P, Norm;
  }

  /** The pending request still covers what it covered, and every page whose
      translation differs between the two tables; an instruction cache flush that was
      promised stays promised. */
  ghost predicate FlushCovers(m: Pool, m': Pool, t: Tlbi.Request, t': Tlbi.Request) {
    && (t.icache ==> t'.icache)
    && (forall v: nat :: Tlbi.Covers(t, v) ==> Tlbi.Covers(t', v))
    && (forall b: nat, j: nat :: j < 512 && P(m', b, j) != P(m, b, j) ==> Tlbi.Covers(t', 512 * b + j))
  }

  /** A request for the bounding range of what changed covers it. */
  lemma FlushRange(m: Pool, m': Pool, t0: Tlbi.Request, t: Tlbi.Request, lo: nat, hi: nat, cap: nat)
    requires (cap == 16 || cap == 64) && Tlbi.Sound(t, cap) && (t == t0 || t == Tlbi.MarkIcache(t0))
    requires forall b: nat, j: nat :: j < 512 && P(m', b, j) != P(m, b, j) && !t.kind.Broadcast? ==>
      lo <= 512 * b + j < hi
    ensures FlushCovers(m, m', t0, if !t.kind.Broadcast? && hi > lo then Tlbi.RequestRange(t, lo, hi, cap) else t)
    ensures Tlbi.Sound(if !t.kind.Broadcast? && hi > lo then Tlbi.RequestRange(t, lo, hi, cap) else t, cap)
  {
    hide P;
  }

  /** The same, when whole blocks were mapped. */
  lemma FlushBlocks(m: Pool, m': Pool, blo: nat, bhi: nat, frame: nat, perms: Perms, bcast: bool, lo: nat, hi: nat)
    requires MappedWhole(m, m', blo, bhi, frame, perms)
    requires forall c: nat :: blo <= c < bhi && K(m, c).Absent? && !bcast ==> lo <= 512 * c && 512 * c + 512 <= hi
    ensures forall b: nat, j: nat :: j < 512 && P(m', b, j) != P(m, b, j) && !bcast ==> lo <= 512 * b + j < hi
  {
    hide P, K, BlockFrame, Norm;
  }

  // ----- A mapping that stops for want of tables -----

  /** A mapping that stopped has changed something exactly when an absent block came
      before the stop. */
  lemma LeftBehind(m: Pool, m': Pool, blo: nat, upto: nat, frame: nat, perms: Perms)
    requires MappedWhole(m, m', blo, upto, frame, perms)
    ensures SameAddresses(m, m') <==> forall b: nat :: blo <= b < upto ==> !K(m, b).Absent?
  {
    hide K, P, BlockFrame, Norm;
    if b: nat :| blo <= b < upto && K(m, b).Absent? {
      assert K(m', b) != K(m, b);
    }
  }

  ghost predicate BlockCovered(t: Tlbi.Request, b: nat) {
    forall v: nat :: 512 * b <= v < 512 * b + 512 ==> Tlbi.Covers(t, v)
  }

  /** As it asks for no flush, what it changed is covered by the pending request exactly
      when that request covered every absent block before the stop already. */
  lemma LeftUnflushed(m: Pool, m': Pool, t: Tlbi.Request, t': Tlbi.Request, blo: nat, upto: nat, frame: nat,
                      perms: Perms)
    requires MappedWhole(m, m', blo, upto, frame, perms) && (t' == t || t' == Tlbi.MarkIcache(t))
    ensures FlushCovers(m, m', t, t') <==> forall b: nat :: blo <= b < upto && K(m, b).Absent? ==> BlockCovered(t, b)
  {
    hide K, P, BlockFrame, Norm, Tlbi.Covers;
    forall b: nat, j: nat | j < 512 ensures P(m', b, j) != P(m, b, j) <==> blo <= b < upto && K(m, b).Absent? {
      if K(m, b).Absent? {
        WholePages(m, b, j);
      }
    }
    forall v: nat ensures Tlbi.Covers(t', v) == Tlbi.Covers(t, v) {
      MarkCovers(t, v);
    }
    if FlushCovers(m, m', t, t') {
      forall b: nat, v: nat | blo <= b < upto && K(m, b).Absent? && 512 * b <= v < 512 * b + 512
        ensures Tlbi.Covers(t, v)
      {
        assert P(m', b, v - 512 * b) != P(m, b, v - 512 * b);
      }
    }
  }

  /** Page `j` of block `b` is among pages [v, v + upto) and does not go where installing
      them from `frame` sends it. */
  predicate NotYet(m: Pool, v: nat, upto: nat, frame: nat, perms: Perms, b: nat, j: nat) {
    && v <= 512 * b + j < v + upto
    && P(m, b, j) != Some(Leaf((frame + (512 * b + j - v)) % 0x10_0000_0000, Norm(perms)))
  }

  /** An installation that stopped has changed a translation exactly where the page
      before the stop was not already what it installs. */
  lemma InstallLeftBehind(m: Pool, m': Pool, v: nat, upto: nat, frame: nat, perms: Perms, b: nat, j: nat)
    requires Installed(m, m', v, upto, frame, perms) && j < 512
    ensures P(m', b, j) != P(m, b, j) <==> NotYet(m, v, upto, frame, perms, b, j)
  {
    hide K, P, Norm;
  }

  /** It asks for no flush either, so the pending request covers those pages exactly when
      it covered them already. */
  lemma InstallLeftUnflushed(m: Pool, m': Pool, t: Tlbi.Request, t': Tlbi.Request, v: nat, upto: nat, frame: nat,
                             perms: Perms)
    requires Installed(m, m', v, upto, frame, perms) && (t' == t || t' == Tlbi.MarkIcache(t))
    ensures FlushCovers(m, m', t, t') <==>
      forall b: nat, j: nat :: j < 512 && NotYet(m, v, upto, frame, perms, b, j) ==> Tlbi.Covers(t, 512 * b + j)
  {
    hide K, P, Installed, NotYet, Tlbi.Covers;
    forall b: nat, j: nat | j < 512 ensures P(m', b, j) != P(m, b, j) <==> NotYet(m, v, upto, frame, perms, b, j) {
      InstallLeftBehind(m, m', v, upto, frame, perms, b, j);
    }
    forall w: nat ensures Tlbi.Covers(t', w) == Tlbi.Covers(t, w) {
      MarkCovers(t, w);
    }
  }

  lemma MarkCovers(t: Tlbi.Request, v: nat)
    ensures Tlbi.Covers(Tlbi.MarkIcache(t), v) == Tlbi.Covers(t, v)
  {
  }

  lemma NoL1NoL2(m: Pool, b: nat)
    requires !HasL1(m, b)
    ensures !HasL2(m, b) && K(m, b).Absent? && Missing(m, b) == 2
  {
  }

  /** Two pages serve one gigabyte that has no table yet. */
  lemma TwoPagesLeft(m: Pool)
    requires !HasL1(m, 511) && m.next + 2 == |m.pages|
    ensures Fits(m, 511, 511) && !Fits(m, 511, 512)
  {
    assert Blk(511).i0 == Blk(512).i0 == 0;
    NoL1NoL2(m, 511);
    NoL1NoL2(m, 512);
    hide HasL1, HasL2;
    assert Need(m, 511, 512) == 2 && Need(m, 511, 513) == 3;
  }

  /** Two blocks in different gigabytes, no table above them, and two pages left: the
      first block is mapped, the second is not, and nothing asks for a flush. */
  lemma SecondBlockStuck(m: Pool, m': Pool, t: Tlbi.Request, t': Tlbi.Request, upto: nat, frame: nat, perms: Perms)
    requires !HasL1(m, 511) && m.next + 2 == |m.pages| && !Tlbi.Covers(t, 512 * 511)
    requires StopsAt(m, 511, 513, upto) && MappedWhole(m, m', 511, upto, frame, perms)
    requires t' == t || t' == Tlbi.MarkIcache(t)
    ensures upto == 512 && !SameAddresses(m, m') && !FlushCovers(m, m', t, t')
  {
    hide BlockFrame, Norm, MappedWhole, SameAddresses, FlushCovers, Tlbi.Covers;
    TwoPagesLeft(m);
    NoL1NoL2(m, 511);
    LeftBehind(m, m', 511, upto, frame, perms);
    LeftUnflushed(m, m', t, t', 511, upto, frame, perms);
    assert !BlockCovered(t, 511);
  }

  lemma FlushNothing(m: Pool, t: Tlbi.Request)
    ensures FlushCovers(m, m, t, t)
  {
    hide P;
  }

  /** A step that changes no translation needs no flush. */
  lemma FlushSplit(m: Pool, m1: Pool, m2: Pool, t: Tlbi.Request, t': Tlbi.Request)
    requires (forall c: nat, k: nat :: k < 512 ==> P(m1, c, k) == P(m, c, k)) && FlushCovers(m1, m2, t, t')
    ensures FlushCovers(m, m2, t, t')
  {
    hide P;
  }

  lemma FlushMarked(m: Pool, t: Tlbi.Request)
    ensures FlushCovers(m, m, t, Tlbi.MarkIcache(t))
  {
    hide P;
  }

  lemma FlushKeepsIcache(m: Pool, m': Pool, t: Tlbi.Request, t': Tlbi.Request)
    requires FlushCovers(m, m', t, t')
    ensures t.icache ==> t'.icache
  {
    hide P;
  }

  lemma FlushTwice(m: Pool, m1: Pool, m2: Pool, t: Tlbi.Request, t1: Tlbi.Request, t2: Tlbi.Request)
    requires FlushCovers(m, m1, t, t1) && FlushCovers(m1, m2, t1, t2)
    ensures FlushCovers(m, m2, t, t2)
  {
    hide K, P;
  }

  class Guest {
    var pool: Pool
    var gen: nat
    var tlbi: Tlbi.Request
    const cap: nat
    const guestSize: nat
    ghost var roles: seq<Role>
    ghost var start: Snap
    ghost var log: seq<Event>

    /** The tables are a tree, and they are what the logged steps make of `start`. */
    ghost predicate Valid()
      reads this
    {
      && Tree(pool, roles)
      && LegalLog(start, log) && Replay(start, log) == Snap(pool, roles, gen)
      && (cap == 16 || cap == 64) && Tlbi.Sound(tlbi, cap)
    }

    /** A pool of `count` cleared pages, no root yet, nothing to flush. */
    constructor (cap: nat, guestSize: nat, base: nat, count: nat)
      ensures this.cap == cap && this.guestSize == guestSize && pool.base == base && pool.next == 0
      ensures |pool.pages| == count && (forall p :: 0 <= p < count ==> |pool.pages[p]| == 512) && tlbi == Tlbi.NONE
    {
      this.cap, this.guestSize := cap, guestSize;
      pool := Pool(base, 0, 0, seq(count, _ => seq(512, _ => ZERO)));
      gen, tlbi, roles, log := 0, Tlbi.NONE, [], [];
      start := Snap(Pool(base, 0, 0, []), [], 0);
    }

    ghost function Now(): Snap
      reads this
    {
      Snap(pool, roles, gen)
    }

    /** find_l2_entry: the L2 table covering block `b`, if the walk gets there. */
    function FindL2(b: nat): Option<int>
      reads this
    {
      L2At(pool, Blk(b).i0, Blk(b).i1)
    }

    /** The L2 entry found is the one the walk decodes. */
    lemma FoundL2(b: nat)
      requires Valid()
      ensures FindL2(b).None? ==> K(pool, b) == Absent && forall j: nat :: P(pool, b, j) == None
      ensures FindL2(b).Some? ==>
        var p, i := FindL2(b).value, Blk(b).i2;
        && 0 <= p < |pool.pages| && |pool.pages[p]| == 512 && i < 512
        && Owns(roles, p, L2(Blk(b).i0, Blk(b).i1))
        && K(pool, b) == KindOf(pool.pages[p][i])
        && (forall j: nat :: P(pool, b, j) == PageIn(pool, pool.pages[p][i], j))
        && SlotOk(pool.base, roles, roles[p], i, pool.pages[p][i])
    {
      hide LegalLog, Replay;
      WalkRoles(pool, roles, Blk(b));
    }

    lemma InPool()
      requires Valid()
      ensures pool.next <= |pool.pages|
    {
      hide LegalLog, Replay, SlotsOk, AllReached;
    }

    // ----- Single steps -----

    method StorePage(p: nat, j: nat, d: Desc, ghost b: nat)
      requires Valid() && j < 512 && Owns(roles, p, L3(Blk(b))) && (d == ZERO || IsPageLeaf(d))
      modifies this`pool, this`log
      ensures Valid() && log == old(log) + [Store(p, j, d)]
      ensures pool == Write(old(pool), p, j, d)
      ensures forall c: nat :: K(pool, c) == K(old(pool), c)
      ensures forall c: nat, k: nat :: P(pool, c, k) == if c == b && k == j then LeafOf(d) else P(old(pool), c, k)
    {
      hide Blk, PageAt, KindAt, SlotsOk, AllReached, LegalLog, Replay;
      StorePageEffect(Now(), p, j, d);
      LogStep(start, log, Store(p, j, d));
      BlkInjective(b);
      pool := Write(pool, p, j, d);
      log := log + [Store(p, j, d)];
    }

    method StoreBlock(p: nat, b: nat, d: Desc)
      requires Valid() && FindL2(b) == Some(p) && !K(pool, b).Split? && (d == ZERO || IsBlockLeaf(d))
      modifies this`pool, this`log
      ensures Valid() && log == old(log) + [Store(p, Blk(b).i2, d)] && pool.next == old(pool.next)
      ensures |pool.pages| == |old(pool.pages)| && SameUpper(old(pool), pool)
      ensures forall c: nat :: K(pool, c) == if c == b then KindOf(d) else K(old(pool), c)
      ensures forall c: nat, k: nat :: P(pool, c, k) == if c == b then PageIn(old(pool), d, k) else P(old(pool), c, k)
    {
      hide Blk, PageAt, KindAt, SlotsOk, AllReached, LegalLog, Replay, L1At, L2At;
      FoundL2(b);
      UpperUnchanged(pool, roles, p, Blk(b).i2, d);
      StoreBlockEffect(Now(), p, Blk(b).i2, d);
      LogStep(start, log, Store(p, Blk(b).i2, d));
      BlkInjective(b);
      pool := Write(pool, p, Blk(b).i2, d);
      log := log + [Store(p, Blk(b).i2, d)];
    }

    method FillSlot(p: nat, j: nat, d: Desc)
      requires Valid() && j < 512 && p < pool.next && Owns(roles, p, Free)
      modifies this`pool, this`log
      ensures Valid() && log == old(log) + [Fill(p, j, d)]
      ensures |old(pool.pages)[p]| == 512 && pool == Write(old(pool), p, j, d)
      ensures SameAddresses(old(pool), pool) && SameUpper(old(pool), pool)
    {
      hide Blk, PageAt, KindAt, SlotsOk, AllReached, LegalLog, Replay, L1At, L2At;
      UpperUnchanged(pool, roles, p, j, d);
      FillEffect(Now(), p, j, d);
      LogStep(start, log, Fill(p, j, d));
      pool := Write(pool, p, j, d);
      log := log + [Fill(p, j, d)];
    }

    /** Publish an empty table in an empty root or L1 entry. */
    method LinkTable(p: nat, j: nat, q: nat)
      requires Valid() && Legal(Now(), Publish(p, j, q)) && !roles[p].L2?
      modifies this`pool, this`roles, this`log
      ensures Valid() && log == old(log) + [Publish(p, j, q)]
      ensures pool == Write(old(pool), p, j, MakeTable(pool.base + q))
      ensures roles == old(roles)[q := ChildRole(old(roles[p]), j)]
      ensures SameAddresses(old(pool), pool)
      ensures var r := ChildRole(old(roles[p]), j);
        && (forall i0: nat :: L1At(pool, i0).Some? <==> L1At(old(pool), i0).Some? || r == L1(i0))
        && (forall i0: nat, i1: nat :: L2At(pool, i0, i1).Some? <==> L2At(old(pool), i0, i1).Some? || r == L2(i0, i1))
    {
      hide Blk, PageAt, KindAt, SlotsOk, AllReached, LegalLog, Replay, L1At, L2At, L2Desc;
      PublishEmptyEffect(Now(), p, j, q);
      PublishEmptyUpper(Now(), p, j, q);
      LogStep(start, log, Publish(p, j, q));
      log := log + [Publish(p, j, q)];
      pool := Write(pool, p, j, MakeTable(pool.base + q));
      roles := roles[q := ChildRole(roles[p], j)];
    }

    /** Flip block `b` to the table `q` that repeats it. */
    method FlipToTable(p: nat, b: nat, q: nat)
      requires Valid() && FindL2(b) == Some(p) && Legal(Now(), Publish(p, Blk(b).i2, q))
      modifies this`pool, this`roles, this`log
      ensures Valid() && log == old(log) + [Publish(p, Blk(b).i2, q)] && pool.next == old(pool.next)
      ensures |pool.pages| == |old(pool.pages)|
      ensures forall c: nat :: K(pool, c) == if c == b then Split else K(old(pool), c)
      ensures forall c: nat, k: nat :: k < 512 ==> P(pool, c, k) == P(old(pool), c, k)
    {
      hide Blk, PageAt, KindAt, SlotsOk, AllReached, LegalLog, Replay, L2At;
      FoundL2(b);
      PublishSplitEffect(Now(), p, Blk(b).i2, q);
      LogStep(start, log, Publish(p, Blk(b).i2, q));
      BlkInjective(b);
      log := log + [Publish(p, Blk(b).i2, q)];
      pool := Write(pool, p, Blk(b).i2, MakeTable(pool.base + q));
      roles := roles[q := ChildRole(roles[p], Blk(b).i2)];
    }

    method BumpGen()
      requires Valid()
      modifies this`gen, this`log
      ensures Valid() && log == old(log) + [Bump] && gen == old(gen) + 1
    {
      hide LegalLog, Replay, SlotsOk, AllReached;
      LogStep(start, log, Bump);
      gen := gen + 1;
      log := log + [Bump];
    }

    /** tlbi_request_emit_to_vcpu: the pending request goes out on the way back to the
        guest, and nothing is pending. */
    method EmitRequest() returns (req: Tlbi.Request)
      requires Valid()
      modifies this`tlbi
      ensures Valid() && req == old(tlbi) && tlbi == Tlbi.NONE
    {
      req := tlbi;
      tlbi := Tlbi.NONE;
    }

    // ----- Allocation -----

    /** pt_alloc_page: bump the pool pointer and clear the page word by word. */
    method PtAllocPage() returns (q: Option<nat>)
      requires Valid()
      modifies this`pool, this`log
      ensures Valid() && old(log) <= log && SameAddresses(old(pool), pool) && SameUpper(old(pool), pool)
      ensures q.None? <==> old(pool.next) == |old(pool.pages)|
      ensures q.None? ==> pool == old(pool)
      ensures q.Some? ==>
        && q.value == old(pool.next) < |pool.pages| == |old(pool.pages)| && AllZero(pool.pages[q.value])
        && pool == old(pool).(next := q.value + 1, pages := old(pool.pages)[q.value := pool.pages[q.value]])
        && Owns(roles, q.value, Free)
    {
      hide Blk, PageAt, KindAt, SlotsOk, AllReached, LegalLog, Replay, L1At, L2At;
      if pool.next + 1 > |pool.pages| {
        return None;
      }
      var p := pool.next;
      GrabEffect(Now());
      GrabUpper(pool, p + 1);
      LogStep(start, log, Grab);
      pool := pool.(next := p + 1);
      log := log + [Grab];
      for i := 0 to 512
        invariant Valid() && old(log) <= log && SameAddresses(old(pool), pool) && SameUpper(old(pool), pool)
        invariant p < |pool.pages| == |old(pool.pages)| && |pool.pages[p]| == 512
        invariant pool == old(pool).(next := p + 1, pages := old(pool.pages)[p := pool.pages[p]])
        invariant forall k :: 0 <= k < i ==> pool.pages[p][k] == ZERO
      {
        FillSlot(p, i, ZERO);
      }
      return Some(p);
    }

    /** A fresh, empty L0 table becomes the root; tables of an earlier root are
        forgotten.  Done with no walker running, so the log restarts here. */
    method NewRoot() returns (ok: bool)
      requires forall p :: 0 <= p < |pool.pages| ==> |pool.pages[p]| == 512
      requires pool.next <= |pool.pages| && pool.base + |pool.pages| <= 0x10_0000_0000
      requires (cap == 16 || cap == 64) && Tlbi.Sound(tlbi, cap)
      modifies this
      ensures ok <==> old(pool.next) < |old(pool.pages)|
      ensures gen == old(gen) && tlbi == old(tlbi)
      ensures !ok ==> pool == old(pool)
      ensures ok ==> Valid() && log == [] && start == Now()
      ensures ok ==> forall b: nat :: K(pool, b) == Absent && forall j: nat :: P(pool, b, j) == None
      ensures ok ==> pool.next == old(pool.next) + 1 && |pool.pages| == |old(pool.pages)|
      ensures ok ==> forall b: nat :: !HasL1(pool, b)
    {
      if pool.next + 1 > |pool.pages| {
        return false;
      }
      var p := pool.next;
      pool := pool.(root := p, next := p + 1, pages := pool.pages[p := seq(512, _ => ZERO)]);
      roles := seq(|pool.pages|, i => if i == p then Root else Free);
      start := Snap(pool, roles, gen);
      log := [];
      forall b: nat ensures K(pool, b) == Absent && forall j: nat :: P(pool, b, j) == None {
        assert L1At(pool, Blk(b).i0) == None;
      }
      return true;
    }

    /** Empty entries on the way to block `b` hold the zero word. */
    lemma FoundL1(b: nat)
      requires Valid() && Blk(b).i0 < 512
      ensures var i0, i1 := Blk(b).i0, Blk(b).i1;
        && Owns(roles, pool.root, Root) && |pool.pages[pool.root]| == 512 && i1 < 512
        && (L1At(pool, i0).None? ==> pool.pages[pool.root][i0] == ZERO && FindL2(b) == None)
        && (L1At(pool, i0).Some? ==>
              var p := L1At(pool, i0).value;
              && Owns(roles, p, L1(i0)) && |pool.pages[p]| == 512
              && FindL2(b) == Target(pool, pool.pages[p][i1])
              && (FindL2(b).None? ==> pool.pages[p][i1] == ZERO))
    {
      hide LegalLog, Replay;
      WalkRoles(pool, roles, Blk(b));
    }

    method EnsureL1(b: nat) returns (p: Option<nat>)
      requires Valid() && Blk(b).i0 < 512
      modifies this`pool, this`roles, this`log
      ensures Valid() && old(log) <= log && SameAddresses(old(pool), pool)
      ensures |pool.pages| == |old(pool.pages)| && pool.root == old(pool.root) && pool.base == old(pool.base)
      ensures p.Some? ==>
        L1At(pool, Blk(b).i0) == p && pool.next == old(pool.next) + if HasL1(old(pool), b) then 0 else 1
      ensures p.Some? ==> forall i0: nat :: L1At(pool, i0).Some? <==> L1At(old(pool), i0).Some? || i0 == Blk(b).i0
      ensures p.Some? ==> forall i0: nat, i1: nat :: L2At(pool, i0, i1).Some? <==> L2At(old(pool), i0, i1).Some?
      ensures p.None? ==> pool == old(pool) && pool.next == |pool.pages| && !HasL1(pool, b)
    {
      hide Blk, PageAt, KindAt, SlotsOk, AllReached, LegalLog, Replay, L2At;
      var i0 := Blk(b).i0;
      FoundL1(b);
      if L1At(pool, i0).None? {
        var q := PtAllocPage();
        if q.None? {
          return None;
        }
        LinkTable(pool.root, i0, q.value);
        FoundL1(b);
      }
      p := Some(L1At(pool, i0).value);
    }

    /** The walk-and-allocate prologue shared by the builder, the extender and the
        VA mapper: make sure an L2 table covers block `b`. */
    method EnsureL2(b: nat) returns (p: Option<nat>)
      requires Valid()
      modifies this`pool, this`roles, this`log
      ensures Valid() && old(log) <= log && SameAddresses(old(pool), pool)
      ensures |pool.pages| == |old(pool.pages)| && pool.root == old(pool.root) && pool.base == old(pool.base)
      ensures p.Some? ==> FindL2(b) == p && Reaches(old(pool), pool, b)
      ensures p.Some? <==> b < 0x800_0000 && old(pool.next) + Missing(old(pool), b) <= |pool.pages|
      ensures p.None? ==> Blk(b).i0 >= 512 || pool.next == |pool.pages|
    {
      hide Blk, PageAt, KindAt, SlotsOk, AllReached, LegalLog, Replay, L1At, L2At;
      L0Range(b);
      if Blk(b).i0 >= 512 {
        return None;
      }
      var p1 := EnsureL1(b);
      if p1.None? {
        return None;
      }
      FoundL1(b);
      if FindL2(b).None? {
        var q := PtAllocPage();
        if q.None? {
          return None;
        }
        LinkTable(p1.value, Blk(b).i1, q.value);
        assert FindL2(b) == Some(q.value) by {
          LinkedL2(b, p1.value, q.value);
        }
      }
      FoundL2(b);
      p := Some(FindL2(b).value);
      ReachesIs(old(pool), pool, b);
    }

    /** An L1 entry just linked is where the walk for its blocks now goes. */
    lemma LinkedL2(b: nat, p: nat, q: nat)
      requires Valid() && Owns(roles, p, L1(Blk(b).i0)) && Blk(b).i1 < |pool.pages[p]|
      requires pool.pages[p][Blk(b).i1] == MakeTable(pool.base + q)
      ensures FindL2(b) == Some(q)
    {
      hide LegalLog, Replay, Blk, SlotsOk;
      assert Reached(pool, p, roles[p]);
    }

    // ----- Mutators -----

    /** guest_split_block: turn a 2 MiB block descriptor into 512 page descriptors
        that translate exactly as it did. */
    method SplitBlock(b: nat) returns (ok: bool)
      requires Valid()
      modifies this`pool, this`roles, this`log
      ensures Valid() && old(log) <= log
      ensures |pool.pages| == |old(pool.pages)|
      ensures ok <==> K(old(pool), b).Split? || (K(old(pool), b).Whole? && old(pool.next) < |old(pool.pages)|)
      ensures !ok ==> pool == old(pool)
      ensures ok ==> pool.next == old(pool.next) + if K(old(pool), b).Whole? then 1 else 0
      ensures forall c: nat :: K(pool, c) == if ok && c == b then Split else K(old(pool), c)
      ensures forall c: nat, k: nat :: k < 512 ==> P(pool, c, k) == P(old(pool), c, k)
    {
      hide Blk, PageAt, KindAt, SlotsOk, AllReached, LegalLog, Replay, L1At, L2At;
      var found := FindL2(b);
      FoundL2(b);
      if found.None? {
        return false;
      }
      var p, i2 := found.value, Blk(b).i2;
      var d := pool.pages[p][i2];
      if d.valid && d.table {
        return true;
      }
      if !d.valid {
        return false;
      }
      var perms := DescToPerms(d);
      var l3 := PtAllocPage();
      if l3.None? {
        return false;
      }
      var q := l3.value;
      ghost var zeroed := pool;
      for i := 0 to 512
        invariant Valid() && old(log) <= log && SameAddresses(old(pool), pool) && SameUpper(old(pool), pool)
        invariant roles == old(roles)
        invariant q < pool.next <= |pool.pages| == |zeroed.pages| && |pool.pages[q]| == 512
        invariant pool == zeroed.(pages := zeroed.pages[q := pool.pages[q]])
        invariant forall k :: 0 <= k < i ==> pool.pages[q][k] == MakePage(d.frame + k, perms)
      {
        FillSlot(q, i, MakePage(d.frame + i, perms));
      }
      FlipToTable(p, b, q);
      return true;
    }

    /** The L3 table of a split block. */
    function FindL3(b: nat): int
      reads this
    {
      L2Desc(pool, Blk(b)).frame - pool.base
    }

    lemma FoundL3(b: nat)
      requires Valid() && K(pool, b).Split?
      ensures Owns(roles, FindL3(b), L3(Blk(b))) && |roles| == |pool.pages| && |pool.pages[FindL3(b)]| == 512
      ensures forall j: nat :: j < 512 ==> P(pool, b, j) == LeafOf(pool.pages[FindL3(b)][j])
      ensures forall j :: 0 <= j < 512 ==> pool.pages[FindL3(b)][j] == ZERO || IsPageLeaf(pool.pages[FindL3(b)][j])
    {
      hide LegalLog, Replay, Blk;
      WalkRoles(pool, roles, Blk(b));
      forall j | 0 <= j < 512 ensures pool.pages[FindL3(b)][j] == ZERO || IsPageLeaf(pool.pages[FindL3(b)][j]) {
        assert SlotOk(pool.base, roles, roles[FindL3(b)], j, pool.pages[FindL3(b)][j]);
      }
    }

    /** Clear the descriptors of pages [jlo, jhi) of a split block, tracking the
        smallest range that changed. */
    method ClearPages(b: nat, jlo: nat, jhi: nat)
      requires Valid() && K(pool, b).Split? && jlo <= jhi <= 512 && b < 0x800_0000_0000
      modifies this`pool, this`log, this`tlbi
      ensures Valid() && old(log) <= log && |pool.pages| == |old(pool.pages)| && pool.next == old(pool.next)
      ensures forall c: nat :: K(pool, c) == K(old(pool), c)
      ensures forall c: nat, k: nat :: k < 512 ==>
        P(pool, c, k) == if c == b && jlo <= k < jhi then None else P(old(pool), c, k)
      ensures FlushCovers(old(pool), pool, old(tlbi), tlbi)
    {
      hide Blk, PageAt, KindAt, Tree, LegalLog, Replay, L2Desc;
      var q := FindL3(b);
      FoundL3(b);
      var bcast := tlbi.kind.Broadcast?;
      var lo: nat, hi: nat := 0x10_0000_0000_0000, 0;
      for j := jlo to jhi
        invariant Valid() && old(log) <= log && Owns(roles, q, L3(Blk(b))) && tlbi == old(tlbi)
        invariant |pool.pages| == |old(pool.pages)| == |roles| && |pool.pages[q]| == 512 && pool.next == old(pool.next)
        invariant forall k: nat :: k < 512 ==> P(pool, b, k) == LeafOf(pool.pages[q][k])
        invariant forall c: nat :: K(pool, c) == K(old(pool), c)
        invariant forall c: nat, k: nat :: k < 512 ==>
          P(pool, c, k) == if c == b && jlo <= k < j then None else P(old(pool), c, k)
        invariant forall k: nat :: k < 512 && P(pool, b, k) != P(old(pool), b, k) && !bcast ==> lo <= 512 * b + k < hi
      {
        if pool.pages[q][j] != ZERO {
          StorePage(q, j, ZERO, b);
          if !bcast {
            lo := if 512 * b + j < lo then 512 * b + j else lo;
            hi := if 512 * b + j + 1 > hi then 512 * b + j + 1 else hi;
          }
        }
      }
      if !bcast && hi > lo {
        tlbi := Tlbi.RequestRange(tlbi, lo, hi, cap);
      }
    }

    /** One 2 MiB block of guest_invalidate_ptes: pages [jlo, jhi) of block `b`. */
    method InvalidateInBlock(b: nat, jlo: nat, jhi: nat) returns (ok: bool)
      requires Valid() && jlo < jhi <= 512 && b < 0x800_0000_0000
      modifies this`pool, this`roles, this`log, this`tlbi
      ensures Valid() && old(log) <= log && FlushCovers(old(pool), pool, old(tlbi), tlbi)
      ensures ok ==> Invalidated(old(pool), pool, 512 * b + jlo, 512 * b + jhi)
      ensures |pool.pages| == |old(pool.pages)| && (!ok ==> pool == old(pool) && pool.next >= |pool.pages|)
      ensures var cut := K(old(pool), b).Whole? && !(jlo == 0 && jhi == 512);
        && (ok <==> !cut || old(pool.next) < |old(pool.pages)|)
        && (ok ==> pool.next == old(pool.next) + if cut then 1 else 0)
    {
      hide Blk, PageAt, KindAt, Tree, LegalLog, Replay, L2At;
      var found := FindL2(b);
      FoundL2(b);
      if found.None? {
        return true;
      }
      var d := pool.pages[found.value][Blk(b).i2];
      if !d.valid {
        return true;
      }
      if !d.table {
        if jlo == 0 && jhi == 512 {
          StoreBlock(found.value, b, ZERO);
          tlbi := Tlbi.RequestRange(tlbi, 512 * b, 512 * b + 512, cap);
          return true;
        }
        var split := SplitBlock(b);
        if !split {
          return false;
        }
      }
      ClearPages(b, jlo, jhi);
      return true;
    }

    /** The block loop of guest_invalidate_ptes, over pages [lo, hi).  `upto` is the page
        it stopped at. */
    method InvalidatePages(lo: nat, hi: nat) returns (ok: bool, ghost upto: nat)
      requires Valid() && lo < hi <= 0xF_FFFF_FFFF_FE00
      modifies this`pool, this`roles, this`log, this`tlbi
      ensures Valid() && old(log) <= log
      ensures OnlyWithin(old(pool), pool, lo, hi) && FlushCovers(old(pool), pool, old(tlbi), tlbi)
      ensures StopsCutting(old(pool), lo, hi, None, upto) && Invalidated(old(pool), pool, lo, upto)
      ensures (ok <==> upto == hi) && (ok <==> CutFits(old(pool), lo, hi, None, (hi - 1) / 512))
      ensures !ok ==> pool.next >= |pool.pages|
    {
      hide K, P, Tree, LegalLog, Replay, FlushCovers, CutTo, StopsCutting, CutFits, Cut;
      FlushNothing(pool, tlbi);
      CutStarts(pool, lo, hi, None);
      var addr := lo;
      while addr < hi
        invariant Valid() && old(log) <= log
        invariant lo <= addr <= hi && (addr == lo || addr % 512 == 0 || addr == hi)
        invariant Invalidated(old(pool), pool, lo, addr) && CutTo(old(pool), pool, lo, hi, None, addr)
        invariant FlushCovers(old(pool), pool, old(tlbi), tlbi)
      {
        var b, end := addr / 512, BlockEnd(addr, hi);
        ghost var m1, t1 := pool, tlbi;
        InPool();
        CutNext(old(pool), m1, lo, hi, None, addr);
        assert K(m1, b) == K(old(pool), b);
        var done := InvalidateInBlock(b, addr - 512 * b, end - 512 * b);
        FlushTwice(old(pool), m1, pool, old(tlbi), t1, tlbi);
        if !done {
          CutStops(old(pool), m1, lo, hi, None, addr);
          CuttingIff(old(pool), lo, hi, None, addr);
          return false, addr;
        }
        CutStep(old(pool), m1, pool, lo, hi, None, addr);
        InvalidateTwice(old(pool), m1, pool, lo, addr, end);
        addr := end;
      }
      CutStops(old(pool), pool, lo, hi, None, addr);
      CuttingIff(old(pool), lo, hi, None, addr);
      return true, addr;
    }

    /** guest_invalidate_ptes over bytes [from, to). */
    method InvalidatePtes(from: nat, to: nat) returns (ok: bool, ghost upto: nat)
      requires Valid() && to <= 0xFFFF_FFFF_FFFF_FFFF && !Runaway(from, to)
      modifies this
      ensures Valid() && old(log) <= log && start == old(start)
      ensures var lo, hi := from / 4096, (to + 4095) / 4096;
        && OnlyWithin(old(pool), pool, lo, hi) && FlushCovers(old(pool), pool, old(tlbi), tlbi)
        && Invalidated(old(pool), pool, lo, upto) && gen == (if ok && lo < hi then old(gen) + 1 else old(gen))
        && (ok ==> Invalidated(old(pool), pool, lo, hi))
        && (to > LAST_PAGE ==> !ok && pool == old(pool) && tlbi == old(tlbi))
        && (to <= LAST_PAGE && hi <= lo ==> ok && pool == old(pool) && tlbi == old(tlbi))
        && (to <= LAST_PAGE && lo < hi ==>
              && StopsCutting(old(pool), lo, hi, None, upto) && (ok <==> upto == hi)
              && (ok <==> CutFits(old(pool), lo, hi, None, (hi - 1) / 512)) && (!ok ==> pool.next >= |pool.pages|))
    {
      hide K, P, Tree, LegalLog, Replay, FlushCovers, StopsCutting, CutFits;
      FlushNothing(pool, tlbi);
      var lo, hi := from / 4096, (to + 4095) / 4096;
      if to > 0xFFFF_FFFF_FFFF_F000 {
        return false, lo;
      }
      if hi <= lo {
        return true, lo;
      }
      ok, upto := InvalidatePages(lo, hi);
      if ok {
        BumpGen();
      }
    }

    /** The descriptor guest_update_perms wants at page `v`, given the one there. */
    method Revived(regs: seq<Regions.Region>, d: Desc, v: nat, perms: Perms) returns (desc: Desc)
      requires Regions.Sorted(regs) && (d == ZERO || IsPageLeaf(d))
      ensures IsPageLeaf(desc)
      ensures LeafOf(desc) == UpdatedPage(Split, LeafOf(d), Home(regs, v), perms)
    {
      var frame := d.frame;
      if !d.valid {
        var r := Regions.Find(regs, 4096 * v);
        frame := if r.Some? then (r.value.gpa + (4096 * v - r.value.start)) / 4096 else v;
      }
      desc := MakePage(frame, perms);
    }

    /** Rewrite the descriptors of pages [jlo, jhi) of a split block with new
        permissions, reviving invalid ones. */
    method RepermPages(regs: seq<Regions.Region>, b: nat, jlo: nat, jhi: nat, perms: Perms)
      requires Valid() && K(pool, b).Split? && jlo <= jhi <= 512 && b < 0x800_0000_0000 && Regions.Sorted(regs)
      modifies this`pool, this`log, this`tlbi
      ensures Valid() && old(log) <= log && |pool.pages| == |old(pool.pages)| && pool.next == old(pool.next)
      ensures forall c: nat :: K(pool, c) == K(old(pool), c)
      ensures forall c: nat, k: nat :: k < 512 ==>
        P(pool, c, k) == if c == b && jlo <= k < jhi
                         then UpdatedPage(Split, P(old(pool), b, k), Home(regs, 512 * b + k), perms)
                         else P(old(pool), c, k)
      ensures FlushCovers(old(pool), pool, old(tlbi), tlbi)
    {
      hide Blk, PageAt, KindAt, Tree, LegalLog, Replay, L2Desc, Regions.Sorted, Home, UpdatedPage, LeafOf, IsPageLeaf;
      var q := FindL3(b);
      FoundL3(b);
      var bcast := tlbi.kind.Broadcast?;
      var lo: nat, hi: nat := 0x10_0000_0000_0000, 0;
      for j := jlo to jhi
        invariant Valid() && old(log) <= log && Owns(roles, q, L3(Blk(b))) && tlbi == old(tlbi)
        invariant |pool.pages| == |old(pool.pages)| == |roles| && |pool.pages[q]| == 512 && pool.next == old(pool.next)
        invariant forall k: nat :: k < 512 ==> P(pool, b, k) == LeafOf(pool.pages[q][k])
        invariant forall k :: 0 <= k < 512 ==> pool.pages[q][k] == ZERO || IsPageLeaf(pool.pages[q][k])
        invariant forall c: nat :: K(pool, c) == K(old(pool), c)
        invariant forall c: nat, k: nat :: k < 512 ==>
          P(pool, c, k) == if c == b && jlo <= k < j
                           then UpdatedPage(Split, P(old(pool), b, k), Home(regs, 512 * b + k), perms)
                           else P(old(pool), c, k)
        invariant forall k: nat :: k < 512 && P(pool, b, k) != P(old(pool), b, k) && !bcast ==> lo <= 512 * b + k < hi
      {
        var v := 512 * b + j;
        var desc := Revived(regs, pool.pages[q][j], v, perms);
        if pool.pages[q][j] != desc {
          StorePage(q, j, desc, b);
          if !bcast {
            lo := if v < lo then v else lo;
            hi := if v + 1 > hi then v + 1 else hi;
          }
        }
      }
      if !bcast && hi > lo {
        tlbi := Tlbi.RequestRange(tlbi, lo, hi, cap);
      }
    }

    /** One 2 MiB block of guest_update_perms: pages [jlo, jhi) of block `b`. */
    method UpdateInBlock(regs: seq<Regions.Region>, b: nat, jlo: nat, jhi: nat, perms: Perms) returns (ok: bool)
      requires Valid() && jlo < jhi <= 512 && b < 0x800_0000_0000 && Regions.Sorted(regs)
      modifies this`pool, this`roles, this`log, this`tlbi
      ensures Valid() && old(log) <= log && FlushCovers(old(pool), pool, old(tlbi), tlbi)
      ensures ok ==> Updated(old(pool), pool, 512 * b + jlo, 512 * b + jhi, perms, regs)
      ensures |pool.pages| == |old(pool.pages)| && (!ok ==> pool == old(pool) && pool.next >= |pool.pages|)
      ensures var k := K(old(pool), b); var cut := k.Whole? && !(jlo == 0 && jhi == 512) && k.perms != perms;
        && (ok <==> !cut || old(pool.next) < |old(pool.pages)|)
        && (ok ==> pool.next == old(pool.next) + if cut then 1 else 0)
    {
      hide Blk, P, K, Tree, LegalLog, Replay, L2At, Regions.Sorted, Home, UpdatedPage, Norm, FlushCovers;
      FlushNothing(pool, tlbi);
      var k := KindNow(b);
      if k.Absent? {
        UpdateAbsent(pool, b, jlo, jhi, perms, regs);
        return true;
      }
      if k.Whole? {
        if jlo == 0 && jhi == 512 {
          RepermBlock(regs, b, k, perms);
          return true;
        }
        if k.perms == perms {
          WholeNormal(b);
          UpdateSame(pool, b, jlo, jhi, perms, regs);
          return true;
        }
        var split := SplitBlock(b);
        if !split {
          return false;
        }
      }
      ghost var m1 := pool;
      RepermPages(regs, b, jlo, jhi, perms);
      FlushSplit(old(pool), m1, pool, old(tlbi), tlbi);
      UpdateSplit(old(pool), m1, pool, b, jlo, jhi, perms, regs);
      return true;
    }

    /** A block descriptor holds only permissions it can express. */
    lemma WholeNormal(b: nat)
      requires Valid() && K(pool, b).Whole?
      ensures Norm(K(pool, b).perms) == K(pool, b).perms
    {
      hide Blk, P, K, Tree, LegalLog, Replay, L2At;
      FoundL2(b);
      Reblocked(pool, pool.pages[FindL2(b).value][Blk(b).i2], NO_PERMS);
    }

    /** The shape of block `b`, as its L2 entry says. */
    method KindNow(b: nat) returns (k: Kind)
      requires Valid()
      ensures k == K(pool, b)
    {
      hide Blk, P, K, Tree, LegalLog, Replay, L2At;
      var found := FindL2(b);
      FoundL2(b);
      if found.None? {
        return Absent;
      }
      return KindOf(pool.pages[found.value][Blk(b).i2]);
    }

    /** New permissions for a whole block rewrite its one descriptor. */
    method RepermBlock(regs: seq<Regions.Region>, b: nat, k: Kind, perms: Perms)
      requires Valid() && k == K(pool, b) && k.Whole? && b < 0x800_0000_0000
      modifies this`pool, this`log, this`tlbi
      ensures Valid() && old(log) <= log && |pool.pages| == |old(pool.pages)| && pool.next == old(pool.next)
      ensures FlushCovers(old(pool), pool, old(tlbi), tlbi)
      ensures Updated(old(pool), pool, 512 * b, 512 * b + 512, perms, regs)
    {
      hide Blk, PageAt, KindAt, Tree, LegalLog, Replay, L2At, Home, MakeBlock, Norm, DescToPerms;
      var found := FindL2(b);
      FoundL2(b);
      var d := pool.pages[found.value][Blk(b).i2];
      Reblocked(pool, d, perms);
      if k.perms != perms {
        StoreBlock(found.value, b, MakeBlock(d.frame, perms));
        tlbi := Tlbi.RequestRange(tlbi, 512 * b, 512 * b + 512, cap);
      }
    }

    /** The block loop of guest_update_perms, over pages [lo, hi).  `upto` is the page it
        stopped at. */
    method UpdatePages(regs: seq<Regions.Region>, lo: nat, hi: nat, perms: Perms) returns (ok: bool, ghost upto: nat)
      requires Valid() && lo < hi <= 0xF_FFFF_FFFF_FE00 && Regions.Sorted(regs)
      modifies this`pool, this`roles, this`log, this`tlbi
      ensures Valid() && old(log) <= log
      ensures OnlyWithin(old(pool), pool, lo, hi) && FlushCovers(old(pool), pool, old(tlbi), tlbi)
      ensures StopsCutting(old(pool), lo, hi, Some(perms), upto) && Updated(old(pool), pool, lo, upto, perms, regs)
      ensures (ok <==> upto == hi) && (ok <==> CutFits(old(pool), lo, hi, Some(perms), (hi - 1) / 512))
      ensures !ok ==> pool.next >= |pool.pages|
    {
      hide K, P, Tree, LegalLog, Replay, Regions.Sorted, Home, UpdatedKind, UpdatedPage, FlushCovers, CutTo,
           StopsCutting, CutFits, Cut;
      FlushNothing(pool, tlbi);
      UpdateNothing(pool, lo, lo, perms, regs);
      CutStarts(pool, lo, hi, Some(perms));
      var addr := lo;
      while addr < hi
        invariant Valid() && old(log) <= log
        invariant lo <= addr <= hi && (addr == lo || addr % 512 == 0 || addr == hi)
        invariant Updated(old(pool), pool, lo, addr, perms, regs) && CutTo(old(pool), pool, lo, hi, Some(perms), addr)
        invariant FlushCovers(old(pool), pool, old(tlbi), tlbi)
      {
        var b, end := addr / 512, BlockEnd(addr, hi);
        ghost var m1, t1 := pool, tlbi;
        InPool();
        CutNext(old(pool), m1, lo, hi, Some(perms), addr);
        UpdateUntouched(old(pool), m1, lo, addr, perms, regs, b);
        var done := UpdateInBlock(regs, b, addr - 512 * b, end - 512 * b, perms);
        FlushTwice(old(pool), m1, pool, old(tlbi), t1, tlbi);
        if !done {
          CutStops(old(pool), m1, lo, hi, Some(perms), addr);
          CuttingIff(old(pool), lo, hi, Some(perms), addr);
          return false, addr;
        }
        CutStep(old(pool), m1, pool, lo, hi, Some(perms), addr);
        UpdateTwice(old(pool), m1, pool, lo, addr, end, perms, regs);
        addr := end;
      }
      CutStops(old(pool), pool, lo, hi, Some(perms), addr);
      CuttingIff(old(pool), lo, hi, Some(perms), addr);
      return true, addr;
    }

    /** guest_update_perms over bytes [from, to).  An executable alias of the kbuf
        window [2^48 - 256 MiB, 2^48) is refused. */
    method UpdatePerms(regs: seq<Regions.Region>, from: nat, to: nat, perms: Perms) returns (ok: bool, ghost upto: nat)
      requires Valid() && to <= 0xFFFF_FFFF_FFFF_FFFF && !Runaway(from, to) && Regions.Sorted(regs)
      modifies this
      ensures Valid() && old(log) <= log && start == old(start)
      ensures var lo, hi := from / 4096, (to + 4095) / 4096;
        && OnlyWithin(old(pool), pool, lo, hi) && FlushCovers(old(pool), pool, old(tlbi), tlbi)
        && Updated(old(pool), pool, lo, upto, perms, regs) && (ok ==> Updated(old(pool), pool, lo, hi, perms, regs))
        && gen == (if ok && lo < hi then old(gen) + 1 else old(gen))
        && (to > LAST_PAGE ==> !ok && pool == old(pool) && tlbi == old(tlbi))
        && (to <= LAST_PAGE && hi <= lo ==> ok && pool == old(pool) && tlbi == old(tlbi))
        && (lo < hi && to <= LAST_PAGE && perms.x ==> tlbi.icache)
        && (lo < hi && perms.x && KbufPages(lo, hi) ==> !ok && pool == old(pool))
        && (lo < hi && to <= LAST_PAGE && !(perms.x && KbufPages(lo, hi)) ==>
              && StopsCutting(old(pool), lo, hi, Some(perms), upto) && (ok <==> upto == hi)
              && (ok <==> CutFits(old(pool), lo, hi, Some(perms), (hi - 1) / 512))
              && (!ok ==> pool.next >= |pool.pages|))
    {
      hide K, P, Tree, LegalLog, Replay, Regions.Sorted, Home, UpdatedKind, UpdatedPage, FlushCovers,
           StopsCutting, CutFits;
      FlushNothing(pool, tlbi);
      var lo, hi := from / 4096, (to + 4095) / 4096;
      UpdateNothing(pool, lo, lo, perms, regs);
      if to > 0xFFFF_FFFF_FFFF_F000 {
        return false, lo;
      }
      if hi <= lo {
        UpdateNothing(pool, lo, hi, perms, regs);
        return true, lo;
      }
      ghost var t := tlbi;
      if perms.x {
        tlbi := Tlbi.MarkIcache(tlbi);
        FlushMarked(pool, t);
        if KbufPages(lo, hi) {
          return false, lo;
        }
      }
      ghost var m1, t1 := pool, tlbi;
      ok, upto := UpdatePages(regs, lo, hi, perms);
      FlushTwice(m1, m1, pool, t, t1, tlbi);
      assert perms.x ==> tlbi.icache by {
        FlushKeepsIcache(m1, pool, t1, tlbi);
      }
      if ok {
        BumpGen();
      }
    }

    /** Map block `b` onto `frame` unless it already has an L2 entry. */
    method MapBlock(b: nat, frame: nat, perms: Perms) returns (ok: bool, changed: bool)
      requires Valid()
      modifies this`pool, this`roles, this`log
      ensures Valid() && old(log) <= log
      ensures ok ==> MappedWhole(old(pool), pool, b, b + 1, frame, perms) && changed == K(old(pool), b).Absent?
      ensures ok ==> Reaches(old(pool), pool, b)
      ensures ok <==> b < 0x800_0000 && old(pool.next) + Missing(old(pool), b) <= |old(pool.pages)|
      ensures !ok ==> SameAddresses(old(pool), pool) && (b >= 0x800_0000 || pool.next == |pool.pages|)
    {
      hide Blk, PageAt, KindAt, Tree, LegalLog, Replay, L1At, L2At, Missing, Reaches;
      var p := EnsureL2(b);
      if p.None? {
        L0Range(b);
        return false, false;
      }
      FoundL2(b);
      changed := !pool.pages[p.value][Blk(b).i2].valid;
      if changed {
        ghost var m1 := pool;
        StoreBlock(p.value, b, MakeBlock(frame, perms));
        ReachesStill(old(pool), m1, pool, b);
      }
      return true, changed;
    }

    /** The block loop of guest_extend_page_tables and guest_map_va_range.  `upto` is
        the block it stopped at. */
    method MapBlocks(blo: nat, bhi: nat, frame: nat, perms: Perms) returns (ok: bool, ghost upto: nat)
      requires Valid() && bhi < 0x800_0000_0000
      modifies this
      ensures Valid() && old(log) <= log && start == old(start)
      ensures OnlyWithin(old(pool), pool, 512 * blo, 512 * bhi)
      ensures StopsAt(old(pool), blo, bhi, upto) && (ok <==> bhi <= blo || Fits(old(pool), blo, bhi - 1))
      ensures ok <==> bhi <= upto
      ensures MappedWhole(old(pool), pool, blo, upto, frame, perms)
      ensures ok ==> |pool.pages| == |old(pool.pages)| && pool.next == old(pool.next) + Need(old(pool), blo, bhi)
      ensures ok ==> FlushCovers(old(pool), pool, old(tlbi), tlbi) && gen == old(gen) + 1 && (perms.x ==> tlbi.icache)
      ensures !ok ==> gen == old(gen) && tlbi == (if perms.x then Tlbi.MarkIcache(old(tlbi)) else old(tlbi))
      ensures !ok ==> bhi > 0x800_0000 || pool.next == |pool.pages|
    {
      hide K, P, Tree, LegalLog, Replay, BlockFrame, Norm, FlushCovers, HasL1, HasL2, Missing, Reaches, Extended, Need,
           Extra;
      if perms.x {
        tlbi := Tlbi.MarkIcache(tlbi);
      }
      ExtendNothing(pool, blo);
      var bcast := tlbi.kind.Broadcast?;
      var lo: nat, hi: nat := 0x10_0000_0000_0000, 0;
      var b := blo;
      while b < bhi
        invariant Valid() && old(log) <= log && start == old(start) && gen == old(gen)
        invariant tlbi == if perms.x then Tlbi.MarkIcache(old(tlbi)) else old(tlbi)
        invariant blo <= b && (b <= bhi || b == blo)
        invariant MappedWhole(old(pool), pool, blo, b, frame, perms) && Extended(old(pool), pool, blo, b)
        invariant b == blo || Fits(old(pool), blo, b - 1)
        invariant forall c: nat :: blo <= c < b && K(old(pool), c).Absent? && !bcast ==>
          lo <= 512 * c && 512 * c + 512 <= hi
      {
        ghost var m1 := pool;
        var done, changed := MapBlock(b, frame + 512 * (b - blo), perms);
        FitsNext(old(pool), m1, blo, b);
        if !done {
          MapStopped(old(pool), m1, pool, blo, b, frame, perms);
          StopsIff(old(pool), blo, bhi, b);
          return false, b;
        }
        ExtendOne(old(pool), m1, pool, blo, b);
        MapTwice(old(pool), m1, pool, blo, b, frame, perms);
        if changed && !bcast {
          lo := if 512 * b < lo then 512 * b else lo;
          hi := if 512 * b + 512 > hi then 512 * b + 512 else hi;
        }
        b := b + 1;
      }
      AllNeeded(old(pool), pool, blo, b, bhi);
      StopsIff(old(pool), blo, bhi, b);
      FlushBlocks(old(pool), pool, blo, b, frame, perms, bcast, lo, hi);
      FlushRange(old(pool), pool, old(tlbi), tlbi, lo, hi, cap);
      if !bcast && hi > lo {
        tlbi := Tlbi.RequestRange(tlbi, lo, hi, cap);
      }
      BumpGen();
      return true, b;
    }

    /** guest_extend_page_tables: identity-map the 2 MiB blocks under bytes
        [from, to), inside the primary buffer only. */
    method ExtendPageTables(from: nat, to: nat, perms: Perms) returns (ok: bool, ghost upto: nat)
      requires Valid() && guestSize <= 0x1_0000_0000_0000
      modifies this
      ensures Valid() && old(log) <= log && start == old(start)
      ensures var blo, bhi := from / 0x20_0000, (to + 0x1F_FFFF) / 0x20_0000;
        && MappedWhole(old(pool), pool, blo, upto, 512 * blo, perms)
        && (from >= guestSize || to > guestSize ==> !ok && upto == blo && tlbi == old(tlbi))
        && (from < guestSize && to <= guestSize ==>
              && StopsAt(old(pool), blo, bhi, upto) && (ok <==> bhi <= upto)
              && (ok <==> bhi <= blo || Fits(old(pool), blo, bhi - 1)))
        && OnlyWithin(old(pool), pool, 512 * blo, 512 * bhi)
        && (ok ==> |pool.pages| == |old(pool.pages)| && pool.next == old(pool.next) + Need(old(pool), blo, bhi))
        && (ok ==> FlushCovers(old(pool), pool, old(tlbi), tlbi) && gen == old(gen) + 1 && (perms.x ==> tlbi.icache))
        && (!ok ==> gen == old(gen) && (tlbi == old(tlbi) || (perms.x && tlbi == Tlbi.MarkIcache(old(tlbi)))))
        && (!ok ==> from >= guestSize || to > guestSize || pool.next == |pool.pages|)
    {
      var blo := from / 0x20_0000;
      if from >= guestSize || to > guestSize {
        return false, blo;
      }
      ok, upto := MapBlocks(blo, (to + 0x1F_FFFF) / 0x20_0000, 512 * blo, perms);
    }

    /** guest_map_va_range: map 2 MiB-aligned virtual bytes [vaBase, vaLimit) onto
        2 MiB-aligned guest bytes from `gpa`, skipping blocks already mapped. */
    method MapVaRange(vaBase: nat, vaLimit: nat, gpa: nat, perms: Perms) returns (ok: bool, ghost upto: nat)
      requires Valid() && vaLimit <= 0xFFFF_FFFF_FFFF_FFFF
      modifies this
      ensures Valid() && old(log) <= log && start == old(start)
      ensures OnlyWithin(old(pool), pool, vaBase / 4096, vaLimit / 4096)
      ensures var blo, bhi := vaBase / 0x20_0000, vaLimit / 0x20_0000;
        && MappedWhole(old(pool), pool, blo, upto, gpa / 4096, perms)
        && (vaLimit <= vaBase || vaBase % 0x20_0000 != 0 || vaLimit % 0x20_0000 != 0 || gpa % 0x20_0000 != 0 ==>
              !ok && upto == blo && tlbi == old(tlbi))
        && (vaBase < vaLimit && vaBase % 0x20_0000 == 0 && vaLimit % 0x20_0000 == 0 && gpa % 0x20_0000 == 0 ==>
              StopsAt(old(pool), blo, bhi, upto) && (ok <==> bhi <= upto) && (ok <==> Fits(old(pool), blo, bhi - 1)))
      ensures ok ==> FlushCovers(old(pool), pool, old(tlbi), tlbi) && gen == old(gen) + 1 && (perms.x ==> tlbi.icache)
      ensures !ok ==> gen == old(gen) && (tlbi == old(tlbi) || (perms.x && tlbi == Tlbi.MarkIcache(old(tlbi))))
      ensures !ok ==>
        || vaLimit <= vaBase || vaBase % 0x20_0000 != 0 || vaLimit % 0x20_0000 != 0 || gpa % 0x20_0000 != 0
        || vaLimit > 0x1_0000_0000_0000 || pool.next == |pool.pages|
    {
      var blo := vaBase / 0x20_0000;
      if vaLimit <= vaBase {
        return false, blo;
      }
      if vaBase % 0x20_0000 != 0 || vaLimit % 0x20_0000 != 0 || gpa % 0x20_0000 != 0 {
        return false, blo;
      }
      ok, upto := MapBlocks(blo, vaLimit / 0x20_0000, gpa / 4096, perms);
    }

    /** Point page `j` of block `b` at `frame`, splitting the block if it is whole. */
    method InstallPage(b: nat, j: nat, frame: nat, perms: Perms) returns (ok: bool, changed: bool)
      requires Valid() && j < 512
      modifies this`pool, this`roles, this`log
      ensures Valid() && old(log) <= log
      ensures ok ==> Installed(old(pool), pool, 512 * b + j, 1, frame, perms) && !K(old(pool), b).Absent?
      ensures ok && !changed ==> P(pool, b, j) == P(old(pool), b, j)
      ensures |pool.pages| == |old(pool.pages)|
      ensures ok ==> pool.next == old(pool.next) + if K(old(pool), b).Whole? then 1 else 0
      ensures ok <==> !K(old(pool), b).Absent? && (K(old(pool), b).Whole? ==> old(pool.next) < |old(pool.pages)|)
      ensures !ok ==> pool == old(pool)
    {
      hide Blk, PageAt, KindAt, Tree, LegalLog, Replay, L2At;
      var found := FindL2(b);
      FoundL2(b);
      if found.None? {
        return false, false;
      }
      var d := pool.pages[found.value][Blk(b).i2];
      if !d.valid {
        return false, false;
      }
      if !d.table {
        var split := SplitBlock(b);
        if !split {
          return false, false;
        }
      }
      FoundL3(b);
      var q := FindL3(b);
      var desc := MakePage(frame, perms);
      changed := pool.pages[q][j] != desc;
      if changed {
        StorePage(q, j, desc, b);
      }
      return true, changed;
    }

    /** The page loop: `n` pages from `v`.  [lo, hi) bounds what changed, unless the
        pending request is a broadcast. */
    method InstallPages(v: nat, n: nat, frame: nat, perms: Perms, bcast: bool)
      returns (ok: bool, lo: nat, hi: nat, ghost upto: nat)
      requires Valid()
      modifies this`pool, this`roles, this`log
      ensures Valid() && old(log) <= log && OnlyWithin(old(pool), pool, v, v + n)
      ensures Installed(old(pool), pool, v, upto, frame, perms)
      ensures StopsInstalling(old(pool), v, n, upto) && (ok <==> upto == n)
      ensures forall b: nat, j: nat :: j < 512 && P(pool, b, j) != P(old(pool), b, j) && !bcast ==>
        lo <= 512 * b + j < hi
    {
      hide K, P, Tree, LegalLog, Replay, Norm, Installed, Splits, Installable;
      lo, hi := 0x10_0000_0000_0000, 0;
      InstallNothing(pool, v, frame, perms);
      for i := 0 to n
        invariant Valid() && old(log) <= log
        invariant Installed(old(pool), pool, v, i, frame, perms)
        invariant pool.next == old(pool.next) + Splits(old(pool), v, i) && |pool.pages| == |old(pool.pages)|
        invariant forall k: nat :: k < i ==> Installable(old(pool), v, k)
        invariant forall b: nat, j: nat :: j < 512 && P(pool, b, j) != P(old(pool), b, j) && !bcast ==>
          lo <= 512 * b + j < hi
      {
        ghost var m1 := pool;
        InPool();
        InstallNext(old(pool), m1, v, i, frame, perms);
        var done, changed := InstallPage((v + i) / 512, (v + i) % 512, frame + i, perms);
        if !done {
          InstalledWithin(old(pool), m1, v, i, frame, perms);
          return false, lo, hi, i;
        }
        InstalledWithin(m1, pool, v + i, 1, frame + i, perms);
        InstallTwice(old(pool), m1, pool, v, i, frame, perms);
        if changed && !bcast {
          lo := if v + i < lo then v + i else lo;
          hi := if v + i + 1 > hi then v + i + 1 else hi;
        }
      }
      InstalledWithin(old(pool), pool, v, n, frame, perms);
      return true, lo, hi, n;
    }

    /** guest_install_va_pages: map page-aligned virtual bytes [va, va + length) onto
        guest bytes from `gpa`, one page at a time. */
    method InstallVaPages(va: nat, length: nat, gpa: nat, perms: Perms) returns (ok: bool, ghost upto: nat)
      requires Valid() && va <= 0xFFFF_FFFF_FFFF_FFFF
      modifies this
      ensures Valid() && old(log) <= log && start == old(start)
      ensures OnlyWithin(old(pool), pool, va / 4096, va / 4096 + length / 4096)
      ensures Installed(old(pool), pool, va / 4096, upto, gpa / 4096, perms)
      ensures ok ==> FlushCovers(old(pool), pool, old(tlbi), tlbi) && gen == old(gen) + 1 && (perms.x ==> tlbi.icache)
      ensures !ok ==> gen == old(gen)
      ensures if NoInstall(va, length, gpa, perms) then !ok && upto == 0 && tlbi == old(tlbi)
        else
          && StopsInstalling(old(pool), va / 4096, length / 4096, upto) && (ok <==> upto == length / 4096)
          && (!ok ==> tlbi == if perms.x then Tlbi.MarkIcache(old(tlbi)) else old(tlbi))
    {
      hide K, P, Tree, LegalLog, Replay, Norm, Installed, FlushCovers, Splits, Installable;
      if length == 0 || va % 4096 != 0 || length % 4096 != 0 || gpa % 4096 != 0 {
        InstallNothing(pool, va / 4096, gpa / 4096, perms);
        return false, 0;
      }
      var v, frame, n := va / 4096, gpa / 4096, length / 4096;
      InstallNothing(pool, v, frame, perms);
      if va > 0xFFFF_FFFF_FFFF_FFFF - length || gpa > 0xFFFF_FFFF_FFFF_FFFF - length {
        return false, 0;
      }
      if perms.x && KbufPages(v, v + n) {
        return false, 0;
      }
      var bcast := tlbi.kind.Broadcast?;
      if perms.x {
        tlbi := Tlbi.MarkIcache(tlbi);
      }
      var lo, hi;
      ok, lo, hi, upto := InstallPages(v, n, frame, perms, bcast);
      if ok {
        FlushRange(old(pool), pool, old(tlbi), tlbi, lo, hi, cap);
        if !bcast && hi > lo {
          tlbi := Tlbi.RequestRange(tlbi, lo, hi, cap);
        }
        BumpGen();
      }
    }
  }

  // ----- Runs that leave a change unflushed -----

  const RW := Perms(true, true, false, false)

  /** A pool of three pages: extending a fresh guest by two blocks in different gigabytes
      maps the first one, fails, and asks for no flush. */
  method StuckExtend() returns (g: Guest, ok: bool, ghost was: Pool)
    ensures g.Valid() && !ok && !SameAddresses(was, g.pool) && !FlushCovers(was, g.pool, Tlbi.NONE, g.tlbi)
  {
    hide Tree, LegalLog, Replay, MappedWhole, SameAddresses, FlushCovers, HasL1, OnlyWithin;
    g := new Guest(16, 0x8000_0000, 0, 3);
    var rooted := g.NewRoot();
    was := g.pool;
    ghost var upto;
    TwoPagesLeft(was);
    ok, upto := g.ExtendPageTables(511 * 0x20_0000, 513 * 0x20_0000, RW);
    SecondBlockStuck(was, g.pool, Tlbi.NONE, g.tlbi, upto, 512 * 511, RW);
  }

  lemma OnePageOnly(m: Pool)
    requires K(m, 0).Whole? && K(m, 1).Absent? && m.next < |m.pages|
    ensures Installable(m, 511, 0) && !Installable(m, 511, 1)
  {
    hide K;
    assert Splits(m, 511, 1) == Splits(m, 511, 0) + 1 == 1;
  }

  /** A block that is mapped whole, no entry behind it, and a page to split it with. */
  lemma SecondPageStuck(m: Pool, m': Pool, t: Tlbi.Request, t': Tlbi.Request, upto: nat)
    requires K(m, 0) == Whole(0, RW) && K(m, 1).Absent? && m.next < |m.pages| && !Tlbi.Covers(t, 511)
    requires StopsInstalling(m, 511, 2, upto) && Installed(m, m', 511, upto, 0, RW)
    requires t' == t || t' == Tlbi.MarkIcache(t)
    ensures upto == 1 && !FlushCovers(m, m', t, t')
  {
    hide K, Installed, FlushCovers, Tlbi.Covers;
    OnePageOnly(m);
    WholePages(m, 0, 511);
    assert NotYet(m, 511, upto, 0, RW, 0, 511);
    InstallLeftUnflushed(m, m', t, t', 511, upto, 0, RW);
  }

  /** The same for installing two pages, the second of which is in a block with no entry:
      the first is remapped, and once more nothing asks for a flush. */
  method StuckInstall() returns (g: Guest, ok: bool, ghost was: Pool)
    ensures g.Valid() && !ok && !FlushCovers(was, g.pool, Tlbi.NONE, g.tlbi)
  {
    hide Tree, LegalLog, Replay, SameAddresses, FlushCovers, HasL1, OnlyWithin, Installed, K, P;
    g := new Guest(16, 0x8000_0000, 0, 4);
    var rooted := g.NewRoot();
    ghost var empty := g.pool;
    ghost var upto;
    NoL1NoL2(empty, 0);
    assert Need(empty, 0, 1) == Need(empty, 0, 0) + Extra(empty, 0, 0) == 2;
    ok, upto := g.ExtendPageTables(0, 0x20_0000, RW);
    var req := g.EmitRequest();
    was := g.pool;
    OnePageOnly(was);
    ok, upto := g.InstallVaPages(511 * 4096, 2 * 4096, 0, RW);
    SecondPageStuck(was, g.pool, Tlbi.NONE, g.tlbi, upto);
  }
}
