/** Lazy materialization of MAP_NORESERVE memory (guest_materialize_lazy). */
module LazyFault {
  import opened Descriptors
  import opened PageTables
  import opened GuestTables
  import Regions
  import opened Slab

  /** Page-table permissions for a region's protection; at least readable. */
  function LazyPerms(prot: Perms): Perms {
    if prot.r || prot.w || prot.x then Perms(prot.r, prot.w, prot.x, false) else Perms(true, false, false, false)
  }

  /** Where page `j` of block `b` goes: where it went, else to itself if the block had no
      entry, else where its region is. */
  function LazyFrame(m: Pool, b: nat, j: nat, regs: seq<Regions.Region>): nat {
    if P(m, b, j).Some? then P(m, b, j).value.frame
    else if K(m, b).Absent? then 512 * b + j
    else Home(regs, 512 * b + j) % 0x10_0000_0000
  }

  /** Pages [lo, hi) of block `b` are mapped with these permissions; no other page moves. */
  ghost predicate Materialized(m: Pool, m': Pool, b: nat, lo: nat, hi: nat, perms: Perms, regs: seq<Regions.Region>) {
    forall c: nat, j: nat :: j < 512 ==>
      P(m', c, j) == if c == b && lo <= 512 * b + j < hi then Some(Leaf(LazyFrame(m, b, j, regs), Norm(perms)))
                     else P(m, c, j)
  }

  /** In an identity-mapped region a page that went nowhere goes to itself, whether or
      not its block had an entry. */
  lemma IdentityRegion(m: Pool, b: nat, j: nat, regs: seq<Regions.Region>, r: Regions.Region)
    requires b < 0x800_0000 && j < 512 && P(m, b, j).None?
    requires Regions.Sorted(regs) && r in regs && r.gpa == r.start && r.Has(4096 * (512 * b + j))
    ensures LazyFrame(m, b, j, regs) == 512 * b + j
  {
    hide P, K;
    var i :| 0 <= i < |regs| && regs[i] == r;
    Regions.LookupIs(regs, i, 4096 * (512 * b + j));
  }

  /** So for an identity-mapped region materializing leaves every page of the range where
      it was mapped, or mapped to itself. */
  lemma IdentityMaterialized(m: Pool, m': Pool, b: nat, lo: nat, hi: nat, perms: Perms, regs: seq<Regions.Region>,
                             r: Regions.Region)
    requires b < 0x800_0000 && Materialized(m, m', b, lo, hi, perms, regs)
    requires Regions.Sorted(regs) && r in regs && r.gpa == r.start && r.start <= 4096 * lo && 4096 * hi <= r.end
    ensures forall j: nat :: j < 512 && lo <= 512 * b + j < hi ==>
      P(m', b, j) == Some(Leaf(if P(m, b, j).Some? then P(m, b, j).value.frame else 512 * b + j, Norm(perms)))
  {
    hide P, K, Norm, Regions.Sorted, Home;
    forall j: nat | j < 512 && lo <= 512 * b + j < hi
      ensures P(m', b, j) == Some(Leaf(if P(m, b, j).Some? then P(m, b, j).value.frame else 512 * b + j, Norm(perms)))
    {
      if P(m, b, j).None? {
        IdentityRegion(m, b, j, regs, r);
      }
    }
  }

  /** The block already had an entry: only the final re-permissioning shows. */
  lemma FromMapped(m: Pool, m1: Pool, m2: Pool, b: nat, lo: nat, hi: nat, perms: Perms, regs: seq<Regions.Region>)
    requires b < 0x800_0000 && 512 * b <= lo < hi <= 512 * b + 512
    requires !K(m, b).Absent? && !K(m1, b).Absent? && forall c: nat, j: nat :: j < 512 ==> P(m1, c, j) == P(m, c, j)
    requires Updated(m1, m2, lo, hi, perms, regs)
    ensures Materialized(m, m2, b, lo, hi, perms, regs)
  {
    hide K, P, Home, Norm;
  }

  /** The block had none, so nothing of it was mapped: what stays mapped is what the
      extension mapped and no invalidation took back. */
  lemma FromAbsent(m: Pool, m1: Pool, m2: Pool, b: nat, lo: nat, hi: nat, perms: Perms, regs: seq<Regions.Region>)
    requires b < 0x800_0000 && 512 * b <= lo < hi <= 512 * b + 512
    requires K(m, b).Absent? && !K(m1, b).Absent? && forall j: nat :: j < 512 ==> P(m, b, j) == None
    requires forall c: nat, j: nat :: j < 512 && c != b ==> P(m1, c, j) == P(m, c, j)
    requires forall j: nat :: j < 512 ==>
      P(m1, b, j) == if lo <= 512 * b + j < hi then Some(Leaf(512 * b + j, Norm(perms))) else None
    requires Updated(m1, m2, lo, hi, perms, regs)
    ensures Materialized(m, m2, b, lo, hi, perms, regs)
  {
    hide K, P, Home, Norm;
  }

  /** A fresh whole block, split, with both flanks invalidated. */
  lemma Trimmed(m: Pool, m1: Pool, m2: Pool, m3: Pool, m4: Pool, b: nat, lo: nat, hi: nat, perms: Perms)
    requires b < 0x800_0000 && 512 * b <= lo < hi <= 512 * b + 512 && K(m, b).Absent?
    requires MappedWhole(m, m1, b, b + 1, 512 * b, perms)
    requires K(m2, b).Split? && (forall c: nat, j: nat :: j < 512 ==> P(m2, c, j) == P(m1, c, j))
    requires Invalidated(m2, m3, 512 * b, lo) && Invalidated(m3, m4, hi, 512 * b + 512)
    ensures K(m4, b).Split?
    ensures forall c: nat, j: nat :: j < 512 && c != b ==> P(m4, c, j) == P(m, c, j)
    ensures forall j: nat :: j < 512 ==>
      P(m4, b, j) == if lo <= 512 * b + j < hi then Some(Leaf(512 * b + j, Norm(perms))) else None
  {
    hide K, P, Norm;
  }

  lemma PageBytes(lo: nat, hi: nat)
    ensures 4096 * lo / 4096 == lo && (4096 * hi + 4095) / 4096 == hi
  {
  }

  /** Invalidating pages [lo, hi) of a split block cannot fail. */
  method TrimSide(g: Guest, b: nat, lo: nat, hi: nat)
    requires g.Valid() && K(g.pool, b).Split? && b < 0x800_0000 && 512 * b <= lo < hi <= 512 * b + 512
    modifies g
    ensures g.Valid() && old(g.log) <= g.log && g.start == old(g.start)
    ensures FlushCovers(old(g.pool), g.pool, old(g.tlbi), g.tlbi) && Invalidated(old(g.pool), g.pool, lo, hi)
  {
    hide K, P, Tree, LegalLog, Replay, FlushCovers, Invalidated;
    PageBytes(lo, hi);
    var done;
    ghost var upto;
    done, upto := g.InvalidatePtes(4096 * lo, 4096 * hi);
    assert done by {
      OneBlock(b, lo, hi);
    }
  }

  /** Invalidate the flanks [512b, lo) and [hi, 512b + 512) of a split block. */
  method TrimFlanks(g: Guest, b: nat, lo: nat, hi: nat) returns (ghost mid: Pool)
    requires g.Valid() && K(g.pool, b).Split? && b < 0x800_0000 && 512 * b <= lo < hi <= 512 * b + 512
    modifies g
    ensures g.Valid() && old(g.log) <= g.log && g.start == old(g.start)
    ensures FlushCovers(old(g.pool), g.pool, old(g.tlbi), g.tlbi)
    ensures Invalidated(old(g.pool), mid, 512 * b, lo) && Invalidated(mid, g.pool, hi, 512 * b + 512)
  {
    hide K, P, Tree, LegalLog, Replay, FlushCovers;
    FlushNothing(g.pool, g.tlbi);
    if 512 * b < lo {
      TrimSide(g, b, 512 * b, lo);
    }
    mid := g.pool;
    ghost var t := g.tlbi;
    if hi < 512 * b + 512 {
      TrimSide(g, b, hi, 512 * b + 512);
      FlushTwice(old(g.pool), mid, g.pool, old(g.tlbi), t, g.tlbi);
    }
  }

  lemma OneBlock(b: nat, lo: nat, hi: nat)
    requires 512 * b <= lo && hi <= 512 * b + 512
    ensures forall c: nat :: Touches(c, lo, hi) ==> c == b
  {
  }

  lemma FlushSame(m: Pool, m1: Pool, m2: Pool, t: GuestTables.Tlbi.Request, t1: GuestTables.Tlbi.Request)
    requires FlushCovers(m, m1, t, t1) && forall c: nat, j: nat :: j < 512 ==> P(m2, c, j) == P(m1, c, j)
    ensures FlushCovers(m, m2, t, t1)
  {
    hide P;
  }

  /** Does the block have an L2 entry? */
  method HasEntry(g: Guest, b: nat) returns (had: bool)
    requires g.Valid()
    ensures had <==> !K(g.pool, b).Absent?
  {
    hide P, Tree, LegalLog, Replay, L2At;
    var found := g.FindL2(b);
    g.FoundL2(b);
    had := found.Some? && g.pool.pages[found.value][Blk(b).i2].valid;
  }

  /** How many tables pages [lo, hi) of block `b` lack: upper ones, and an L3 table
      where only part of the block is wanted. */
  function LazyNeed(m: Pool, b: nat, lo: nat, hi: nat): nat {
    Missing(m, b) + if Spans(b, lo, hi) || K(m, b).Split? then 0 else 1
  }

  lemma OneBlockFits(m: Pool, b: nat)
    requires b < 0x800_0000
    ensures Need(m, b, b + 1) == Missing(m, b)
    ensures Fits(m, b, b) <==> m.next + Missing(m, b) <= |m.pages|
  {
    hide HasL1, HasL2;
  }

  /** Extend the tables by block `b`. */
  method ExtendBlock(g: Guest, b: nat, perms: Perms) returns (ok: bool)
    requires g.Valid() && g.guestSize <= 0x100_0000_0000 && 0x20_0000 * b + 0x20_0000 <= g.guestSize
    modifies g
    ensures g.Valid() && old(g.log) <= g.log && g.start == old(g.start)
    ensures ok <==> old(g.pool.next) + Missing(old(g.pool), b) <= |old(g.pool.pages)|
    ensures ok ==>
      && |g.pool.pages| == |old(g.pool.pages)| && g.pool.next == old(g.pool.next) + Missing(old(g.pool), b)
      && MappedWhole(old(g.pool), g.pool, b, b + 1, 512 * b, perms)
      && FlushCovers(old(g.pool), g.pool, old(g.tlbi), g.tlbi)
  {
    hide Tree, LegalLog, Replay, FlushCovers, Missing, Need, Fits, MappedWhole;
    OneBlockFits(g.pool, b);
    ghost var upto;
    ok, upto := g.ExtendPageTables(0x20_0000 * b, 0x20_0000 * b + 0x20_0000, perms);
  }

  /** Everything before the final re-permissioning: extend, and for a region that
      covers only part of the block, split and trim what the extension added. */
  method Prepare(g: Guest, b: nat, lo: nat, hi: nat, perms: Perms) returns (ok: bool)
    requires g.Valid() && g.guestSize <= 0x100_0000_0000
    requires 512 * b <= lo < hi <= 512 * b + 512 && 0x20_0000 * b + 0x20_0000 <= g.guestSize
    modifies g
    ensures g.Valid() && old(g.log) <= g.log && g.start == old(g.start)
    ensures ok <==> old(g.pool.next) + LazyNeed(old(g.pool), b, lo, hi) <= |old(g.pool.pages)|
    ensures ok ==> FlushCovers(old(g.pool), g.pool, old(g.tlbi), g.tlbi)
    ensures ok ==> !K(g.pool, b).Absent? && (Spans(b, lo, hi) || K(g.pool, b).Split?)
    ensures ok && !K(old(g.pool), b).Absent? ==>
      forall c: nat, j: nat :: j < 512 ==> P(g.pool, c, j) == P(old(g.pool), c, j)
    ensures ok && K(old(g.pool), b).Absent? ==>
      && (forall c: nat, j: nat :: j < 512 && c != b ==> P(g.pool, c, j) == P(old(g.pool), c, j))
      && (forall j: nat :: j < 512 ==>
            P(g.pool, b, j) == if lo <= 512 * b + j < hi then Some(Leaf(512 * b + j, Norm(perms))) else None)
  {
    hide K, P, Tree, LegalLog, Replay, Norm, Invalidated, FlushCovers, Missing;
    ghost var m, t := g.pool, g.tlbi;
    var had := HasEntry(g, b);
    ok := ExtendBlock(g, b, perms);
    if !ok {
      return;
    }
    ghost var m1, t1 := g.pool, g.tlbi;
    if 512 * b < lo || hi < 512 * b + 512 {
      ok := g.SplitBlock(b);
      if !ok {
        return;
      }
      ghost var m2 := g.pool;
      FlushSame(m, m1, m2, t, t1);
      if !had {
        ghost var m3 := TrimFlanks(g, b, lo, hi);
        Trimmed(m, m1, m2, m3, g.pool, b, lo, hi, perms);
        FlushTwice(m, m2, g.pool, t, t1, g.tlbi);
      }
    }
  }

  predicate PageAligned(r: Option<Regions.Region>) {
    r.Some? ==> r.value.start % 4096 == 0 && r.value.end % 4096 == 0
  }

  /** The part of 2 MiB block `b` that region `r` covers, in bytes. */
  function LazyFrom(r: Regions.Region, b: nat): nat {
    if 0x20_0000 * b > r.start then 0x20_0000 * b else r.start
  }

  function LazyTo(r: Regions.Region, b: nat): nat {
    if 0x20_0000 * b + 0x20_0000 < r.end then 0x20_0000 * b + 0x20_0000 else r.end
  }

  /** Map pages [lo, hi) of block `b`. */
  method MapLazy(g: Guest, regs: seq<Regions.Region>, b: nat, lo: nat, hi: nat, perms: Perms)
    returns (ok: bool)
    requires g.Valid() && Regions.Sorted(regs) && g.guestSize <= 0x100_0000_0000
    requires 512 * b <= lo < hi <= 512 * b + 512 && 0x20_0000 * b + 0x20_0000 <= g.guestSize
    modifies g
    ensures g.Valid() && old(g.log) <= g.log && g.start == old(g.start)
    ensures ok <==> old(g.pool.next) + LazyNeed(old(g.pool), b, lo, hi) <= |old(g.pool.pages)|
    ensures ok ==> Materialized(old(g.pool), g.pool, b, lo, hi, perms, regs)
    ensures ok ==> FlushCovers(old(g.pool), g.pool, old(g.tlbi), g.tlbi)
  {
    hide K, P, Tree, LegalLog, Replay, Norm, Materialized, Updated, FlushCovers, Regions.Sorted, LazyNeed;
    ghost var m, t := g.pool, g.tlbi;
    ok := Prepare(g, b, lo, hi, perms);
    if !ok {
      return;
    }
    ghost var m1, t1 := g.pool, g.tlbi;
    var updated;
    ghost var upto;
    updated, upto := g.UpdatePerms(regs, 4096 * lo, 4096 * hi, perms);
    assert updated by {
      OneBlock(b, lo, hi);
    }
    FlushTwice(m, m1, g.pool, t, t1, g.tlbi);
    if K(m, b).Absent? {
      assert forall j: nat :: j < 512 ==> P(m, b, j) == None by {
        forall j: nat | j < 512 ensures P(m, b, j) == None {
          WholePages(m, b, j);
        }
      }
      FromAbsent(m, m1, g.pool, b, lo, hi, perms, regs);
    } else {
      FromMapped(m, m1, g.pool, b, lo, hi, perms, regs);
    }
  }

  /** The faulting address is in a MAP_NORESERVE region and inside the guest. */
  predicate Lazy(regs: seq<Regions.Region>, fault: nat, guestSize: nat) {
    Regions.Lookup(regs, fault).Some? && Regions.Lookup(regs, fault).value.noreserve && fault < guestSize
  }

  /** guest_materialize_lazy.  The result of the last
      guest_update_perms is not looked at, and need not be: it cannot fail here. */
  method MaterializeLazy(g: Guest, regs: seq<Regions.Region>, slab: array<byte>, fault: nat) returns (ok: bool)
    requires g.Valid() && Regions.Sorted(regs) && PageAligned(Regions.Lookup(regs, fault))
    requires g.guestSize % 0x20_0000 == 0 && g.guestSize <= 0x100_0000_0000 && slab.Length == g.guestSize
    modifies g, slab
    ensures g.Valid() && old(g.log) <= g.log && g.start == old(g.start)
    ensures !Lazy(regs, fault, g.guestSize) ==> !ok && g.pool == old(g.pool)
    ensures !ok ==> slab[..] == old(slab[..])
    ensures Lazy(regs, fault, g.guestSize) ==>
      var r, b := Regions.Lookup(regs, fault).value, fault / 0x20_0000;
      var need := LazyNeed(old(g.pool), b, LazyFrom(r, b) / 4096, LazyTo(r, b) / 4096);
      ok <==> old(g.pool.next) + need <= |old(g.pool.pages)|
    ensures ok ==>
      var r, b := Regions.Lookup(regs, fault).value, fault / 0x20_0000;
      var from, to := LazyFrom(r, b), LazyTo(r, b);
      && Materialized(old(g.pool), g.pool, b, from / 4096, to / 4096, LazyPerms(r.prot), regs)
      && FlushCovers(old(g.pool), g.pool, old(g.tlbi), g.tlbi)
      && forall x :: 0 <= x < slab.Length ==> slab[x] == if from <= x < to then 0 else old(slab[x])
  {
    hide K, P, Tree, LegalLog, Replay, Norm, Materialized, FlushCovers, Regions.Sorted, Regions.Lookup,
         LazyPerms, LazyNeed;
    var found := Regions.Find(regs, fault);
    if found.None? || !found.value.noreserve {
      return false;
    }
    var r, b := found.value, fault / 0x20_0000;
    var perms := LazyPerms(r.prot);
    if fault >= g.guestSize {
      return false;
    }
    var from, to := LazyFrom(r, b), LazyTo(r, b);
    var lo, hi := from / 4096, to / 4096;
    ok := MapLazy(g, regs, b, lo, hi, perms);
    if !ok {
      return;
    }
    ZeroBytes(slab, from, to);
  }
}
