/** Byte comparison without data-dependent branches. */
module MemEq {
  /** The arithmetic right shift of a 32-bit word by eight. */
  function SarByte(w: bv32): bv32 {
    (w >> 8) | (if w & 0x8000_0000 != 0 then 0xFF00_0000 else 0)
  }

  /** The closing arithmetic: 1 for an accumulator of 0, and 0 for one in 1..255. */
  function Decide(acc: bv32): bv32 {
    1 & SarByte(acc - 1)
  }

  lemma DecideIs(acc: bv32)
    requires acc <= 255
    ensures Decide(acc) == if acc == 0 then 1 else 0
  {}

  function Widen(b: bv8): bv32 {
    b as bv32
  }

  lemma OrXor(acc: bv32, a: bv8, b: bv8)
    requires acc <= 255
    ensures acc | Widen(a ^ b) <= 255
    ensures acc | Widen(a ^ b) == 0 <==> acc == 0 && a == b
  {}

  method ConsttimeMemequal(p1: seq<bv8>, p2: seq<bv8>) returns (r: bv32)
    requires |p1| == |p2|
    ensures r == if p1 == p2 then 1 else 0
  {
    hide Decide, Widen;
    var res: bv32 := 0;
    var len: nat := |p1|;
    while len > 0
      invariant len <= |p1| && res <= 255
      invariant res == 0 <==> p1[len..] == p2[len..]
    {
      len := len - 1;
      OrXor(res, p1[len], p2[len]);
      assert p1[len..] == [p1[len]] + p1[len + 1..];
      assert p2[len..] == [p2[len]] + p2[len + 1..];
      res := res | Widen(p1[len] ^ p2[len]);
    }
    assert p1[0..] == p1 && p2[0..] == p2;
    DecideIs(res);
    r := Decide(res);
  }

  /** Slices of elements that are `size` bytes each; `samePtr` says that both start at one address. */
  method SliceMemeq(a: seq<bv8>, b: seq<bv8>, size: nat, samePtr: bool) returns (eq: bool)
    requires size > 0 && |a| % size == 0 && |b| % size == 0
    requires samePtr ==> a <= b || b <= a
    ensures eq <==> a == b
  {
    if |a| / size != |b| / size {
      return false;
    }
    assert |a| == |b|;
    if samePtr {
      return true;
    }
    var r := ConsttimeMemequal(a, b);
    return r != 0;
  }

  /** Single values of one size; an empty representation is equal to itself. */
  method ValueMemeq(a: seq<bv8>, b: seq<bv8>) returns (eq: bool)
    requires |a| == |b|
    ensures eq <==> a == b
  {
    if |a| == 0 {
      return true;
    }
    var r := ConsttimeMemequal(a, b);
    return r != 0;
  }
}
