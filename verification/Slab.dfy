/** Writing to the guest's memory slab. */
module Slab {
  import opened Descriptors

  /** memset: clear bytes [from, to). */
  method ZeroBytes(slab: array<byte>, from: nat, to: nat)
    requires from <= to <= slab.Length
    modifies slab
    ensures forall x :: 0 <= x < slab.Length ==> slab[x] == if from <= x < to then 0 else old(slab[x])
  {
    for i := from to to
      invariant forall x :: 0 <= x < slab.Length ==> slab[x] == if from <= x < i then 0 else old(slab[x])
    {
      slab[i] := 0;
    }
  }

  /** memcpy: put `data` at `at`. */
  method CopyIn(slab: array<byte>, at: nat, data: seq<byte>)
    requires at + |data| <= slab.Length
    modifies slab
    ensures forall x :: 0 <= x < slab.Length ==> slab[x] == if at <= x < at + |data| then data[x - at] else old(slab[x])
  {
    for i := 0 to |data|
      invariant forall x :: 0 <= x < slab.Length ==> slab[x] == if at <= x < at + i then data[x - at] else old(slab[x])
    {
      slab[at + i] := data[i];
    }
  }
}
