/** The per-vCPU pending TLB invalidation request (tlbi_request_t), in 4 KiB
virtual page numbers. */
module Tlbi {

  datatype Kind = Nothing | Broadcast | Range | RangeLarge

  datatype Request = Request(kind: Kind, start: nat, pages: nat, icache: bool)

  const NONE := Request(Nothing, 0, 0, false)

  /** Some page or every page: what the shim will flush before returning to EL0. */
  predicate Covers(req: Request, v: nat) {
    match req.kind
    case Nothing => false
    case Broadcast => true
    case _ => req.start <= v < req.start + req.pages
  }

  /** A range never exceeds the cap its kind is encoded for. */
  predicate Sound(req: Request, cap: nat) {
    && (req.kind.Range? ==> req.pages <= 16)
    && (req.kind.RangeLarge? ==> 16 < req.pages <= cap)
  }

  function MarkIcache(req: Request): Request {
    req.(icache := true)
  }

  function SizedKind(pages: nat): Kind {
    if pages > 16 then RangeLarge else Range
  }

  /** tlbi_request_range: fold [lo, hi) into the pending request.  `cap` is 64
      pages with FEAT_TLBIRANGE and 16 without. */
  function RequestRange(req: Request, lo: nat, hi: nat, cap: nat): (r: Request)
    requires cap == 16 || cap == 64
    requires Sound(req, cap)
    ensures Sound(r, cap) && r.icache == req.icache
    ensures forall v: nat :: Covers(req, v) || lo <= v < hi ==> Covers(r, v)
    ensures !r.kind.Broadcast? && hi > lo && !req.kind.Nothing? ==>
      r.start == (if lo < req.start then lo else req.start) &&
      r.start + r.pages == (if hi > req.start + req.pages then hi else req.start + req.pages)
    ensures r.kind.Broadcast? && !req.kind.Broadcast? ==>
      hi - lo > cap || (!req.kind.Nothing? && (hi - req.start > cap || req.start + req.pages - lo > cap))
  {
    if req.kind.Broadcast? || hi <= lo then req
    else if hi - lo > cap then req.(kind := Broadcast)
    else if req.kind.Nothing? then req.(kind := SizedKind(hi - lo), start := lo, pages := hi - lo)
    else
      var s := if lo < req.start then lo else req.start;
      var e := if hi > req.start + req.pages then hi else req.start + req.pages;
      if e - s > cap then req.(kind := Broadcast)
      else req.(start := s, pages := e - s, kind := if e - s > 16 then RangeLarge else req.kind)
  }

  /** tlbi_rvae1is_operand, SCALE=0: NUM is (pages + 1) / 2 - 1 capped at 31, and
      the instruction flushes 2 * (NUM + 1) pages from the base. */
  function RangeOperandPages(pages: nat): nat {
    var n := (if pages < 2 then 2 else pages) + 1;
    var num := n / 2 - 1;
    2 * ((if num > 31 then 31 else num) + 1)
  }

  /** The single-instruction encoding reaches every page of a large range and at
      most one page past it. */
  lemma LargeRangeEncoded(req: Request, cap: nat)
    requires cap == 16 || cap == 64
    requires Sound(req, cap) && req.kind.RangeLarge?
    ensures req.pages <= RangeOperandPages(req.pages) <= req.pages + 1
  {
  }
}
