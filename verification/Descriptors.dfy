/** VMSAv8-64 stage-1 descriptors for the 4 KiB granule.

A descriptor word is decoded into the record `Desc`: bit 0, bit 1, the output
frame (bits 47:12), UXN and AP[2:1].  Every other bit of the words the runtime
writes is a constant of the descriptor kind.  Addresses are counted in 4 KiB
frames, so the 48-bit output field holds a frame below `0x10_0000_0000`. */
module Descriptors {

  type byte = x: int | 0 <= x < 256

  datatype Option<+T> = None | Some(value: T)

  /** MEM_PERM_R / W / X / EL1_ONLY. */
  datatype Perms = Perms(r: bool, w: bool, x: bool, el1: bool) {
    predicate Allows(req: Perms) {
      (req.r ==> r) && (req.w ==> w) && (req.x ==> x) && (req.el1 ==> el1)
    }
    function Or(o: Perms): Perms {
      Perms(r || o.r, w || o.w, x || o.x, el1 || o.el1)
    }
  }

  const NO_PERMS := Perms(false, false, false, false)

  /** AP[2:1]: 00, 01, 10, 11. */
  datatype AccessBits = RwEl1 | RwEl0 | RoEl1 | RoAll

  datatype Desc = Desc(valid: bool, table: bool, frame: nat, uxn: bool, ap: AccessBits)

  const ZERO := Desc(false, false, 0, false, RwEl1)

  function ApOf(perms: Perms): AccessBits {
    if perms.el1 then RwEl1 else if perms.w then RwEl0 else RoAll
  }

  /** make_block_desc: the address field keeps bits 47:21. */
  function MakeBlock(frame: nat, perms: Perms): Desc {
    Desc(true, false, frame % 0x10_0000_0000 / 512 * 512, !perms.x || perms.el1, ApOf(perms))
  }

  /** make_page_desc: the address field keeps bits 47:12. */
  function MakePage(frame: nat, perms: Perms): Desc {
    Desc(true, true, frame % 0x10_0000_0000, !perms.x || perms.el1, ApOf(perms))
  }

  function MakeTable(frame: nat): Desc {
    Desc(true, true, frame, false, RwEl1)
  }

  function DescToPerms(d: Desc): Perms {
    Perms(true, d.ap.RwEl0? || d.ap.RwEl1?, !d.uxn, d.ap.RwEl1?)
  }

  /** The permissions a descriptor can express: read is always granted, and an
      EL1-only leaf is writable and never executable. */
  function Norm(perms: Perms): Perms {
    if perms.el1 then Perms(true, true, false, true) else Perms(true, perms.w, perms.x, false)
  }

  lemma LeafPerms(frame: nat, perms: Perms)
    ensures DescToPerms(MakeBlock(frame, perms)) == Norm(perms)
    ensures DescToPerms(MakePage(frame, perms)) == Norm(perms)
    ensures Norm(Norm(perms)) == Norm(perms)
  {
  }

  // ----- The 64-bit words -----

  /** The fields of a descriptor word; `addr` is the output address, bits 47:12. */
  datatype Fields = Fields(valid: bool, table: bool, addr: bv64, uxn: bool, ap: AccessBits)

  function Decode(w: bv64): Fields {
    Fields(w & 1 != 0, w & 2 != 0, w & 0xFFFF_FFFF_F000, w & 0x40_0000_0000_0000 != 0,
           if w & 0xC0 == 0 then RwEl1 else if w & 0xC0 == 0x40 then RwEl0
           else if w & 0xC0 == 0x80 then RoEl1 else RoAll)
  }

  /** UXN | PXN and AP[2:1] for the given permissions. */
  function PermWord(perms: Perms): bv64 {
    (if !perms.x then 0x60_0000_0000_0000 else 0) |
    (if perms.el1 then 0x60_0000_0000_0000 else if perms.w then 0x40 else 0xC0)
  }

  // An address, the low bits and the permission bits do not disturb each other.

  lemma AddressKept(addr: bv64, low: bv64, perm: bv64)
    requires addr & 0xFFFF_0000_0000_0FFF == 0
    requires low == 0x725 || low == 0x727
    requires perm & 0xFF9F_FFFF_FFFF_FF3F == 0
    ensures (addr | low | perm) & 0xFFFF_FFFF_F000 == addr
  {
  }

  lemma ValidKept(addr: bv64, low: bv64, perm: bv64)
    requires addr & 0xFFFF_0000_0000_0FFF == 0
    requires low == 0x725 || low == 0x727
    requires perm & 0xFF9F_FFFF_FFFF_FF3F == 0
    ensures (addr | low | perm) & 1 == 1
  {
  }

  lemma KindKept(addr: bv64, low: bv64, perm: bv64)
    requires addr & 0xFFFF_0000_0000_0FFF == 0
    requires low == 0x725 || low == 0x727
    requires perm & 0xFF9F_FFFF_FFFF_FF3F == 0
    ensures (addr | low | perm) & 2 == low & 2
  {
  }

  lemma AccessKept(addr: bv64, low: bv64, perm: bv64)
    requires addr & 0xFFFF_0000_0000_0FFF == 0
    requires low == 0x725 || low == 0x727
    requires perm & 0xFF9F_FFFF_FFFF_FF3F == 0
    ensures (addr | low | perm) & 0xC0 == perm & 0xC0
  {
  }

  lemma UxnKept(addr: bv64, low: bv64, perm: bv64)
    requires addr & 0xFFFF_0000_0000_0FFF == 0
    requires low == 0x725 || low == 0x727
    requires perm & 0xFF9F_FFFF_FFFF_FF3F == 0
    ensures (addr | low | perm) & 0x40_0000_0000_0000 == perm & 0x40_0000_0000_0000
  {
  }

  function ApBits(ap: AccessBits): bv64 {
    match ap case RwEl1 => 0 case RwEl0 => 0x40 case RoEl1 => 0x80 case RoAll => 0xC0
  }

  /** The permission word carries exactly the UXN and AP fields of the model's
      `MakeBlock` and `MakePage`, and nothing outside them. */
  lemma PermBits(perms: Perms)
    ensures PermWord(perms) & 0xFF9F_FFFF_FFFF_FF3F == 0
    ensures (PermWord(perms) & 0x40_0000_0000_0000 != 0) == MakePage(0, perms).uxn == MakeBlock(0, perms).uxn
    ensures PermWord(perms) & 0xC0 == ApBits(MakePage(0, perms).ap) == ApBits(MakeBlock(0, perms).ap)
  {
  }

  /** A leaf word is an address, the constant bits (AF, SH=11, NS, AttrIndx=1,
      valid: 0x725; 0x727 for a page) and a permission word.  It decodes to just
      those parts: no permission bit reaches the address or the type bits. */
  lemma LeafDecodes(addr: bv64, low: bv64, perm: bv64, uxn: bool, ap: AccessBits)
    requires addr & 0xFFFF_0000_0000_0FFF == 0
    requires low == 0x725 || low == 0x727
    requires perm & 0xFF9F_FFFF_FFFF_FF3F == 0
    requires (perm & 0x40_0000_0000_0000 != 0) == uxn
    requires perm & 0xC0 == ApBits(ap)
    ensures Decode(addr | low | perm) == Fields(true, low == 0x727, addr, uxn, ap)
  {
    AddressKept(addr, low, perm);
    ValidKept(addr, low, perm);
    KindKept(addr, low, perm);
    AccessKept(addr, low, perm);
    UxnKept(addr, low, perm);
  }

  predicate IsAddress(addr: bv64) {
    addr & 0xFFFF_0000_0000_0FFF == 0
  }

  function BlockWord(addr: bv64, perms: Perms): bv64 {
    addr | 0x725 | PermWord(perms)
  }

  function PageWord(addr: bv64, perms: Perms): bv64 {
    addr | 0x727 | PermWord(perms)
  }

  lemma BlockDecodes(addr: bv64, perms: Perms)
    requires IsAddress(addr)
    ensures Decode(BlockWord(addr, perms)) == Fields(true, false, addr, !perms.x || perms.el1, ApOf(perms))
  {
    hide Decode, PermWord;
    PermBits(perms);
    LeafDecodes(addr, 0x725, PermWord(perms), !perms.x || perms.el1, ApOf(perms));
  }

  lemma PageDecodes(addr: bv64, perms: Perms)
    requires IsAddress(addr)
    ensures Decode(PageWord(addr, perms)) == Fields(true, true, addr, !perms.x || perms.el1, ApOf(perms))
  {
    hide Decode, PermWord;
    PermBits(perms);
    LeafDecodes(addr, 0x727, PermWord(perms), !perms.x || perms.el1, ApOf(perms));
  }

  function TableWord(addr: bv64): bv64 {
    addr | 3
  }

  lemma TableDecodes(addr: bv64)
    requires IsAddress(addr)
    ensures Decode(TableWord(addr)) == Fields(true, true, addr, false, RwEl1)
  {
  }

  function FieldPerms(f: Fields): Perms {
    DescToPerms(Desc(f.valid, f.table, 0, f.uxn, f.ap))
  }

  /** What is written is what is read: a leaf word for any address and permissions
      decodes to that address, its kind and the permissions it can express, a table word
      to its address. */
  lemma WordsRead(addr: bv64, perms: Perms)
    requires IsAddress(addr)
    ensures var f := Decode(BlockWord(addr, perms));
      f.valid && !f.table && f.addr == addr && FieldPerms(f) == Norm(perms)
    ensures var f := Decode(PageWord(addr, perms));
      f.valid && f.table && f.addr == addr && FieldPerms(f) == Norm(perms)
    ensures Decode(TableWord(addr)) == Fields(true, true, addr, false, RwEl1)
  {
    hide Decode, BlockWord, PageWord, TableWord, IsAddress;
    TableDecodes(addr);
    BlockDecodes(addr, perms);
    PageDecodes(addr, perms);
    LeafPerms(0, perms);
  }
}
