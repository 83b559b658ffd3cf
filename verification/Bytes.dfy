/** Byte strings, and little-endian machine words in them. */
module Bytes {
  import opened Arithmetic

  type Byte = x: int | 0 <= x < 256

  function Zeros(n: nat): (s: seq<Byte>)
    ensures |s| == n && forall i | 0 <= i < n :: s[i] == 0
  {
    seq(n, _ => 0)
  }

  /** s with `data` written over it from position i. */
  function Overwrite(s: seq<Byte>, i: nat, data: seq<Byte>): (t: seq<Byte>)
    requires i + |data| <= |s|
    ensures |t| == |s|
    ensures forall k | 0 <= k < |s| :: t[k] == if i <= k < i + |data| then data[k - i] else s[k]
  {
    s[..i] + data + s[i + |data|..]
  }

  lemma Overwritten(s: seq<Byte>, i: nat, data: seq<Byte>)
    requires i + |data| <= |s|
    ensures Overwrite(s, i, data)[i..i + |data|] == data
  {}

  /** What lies beyond the bytes written is kept. */
  lemma KeptBeyond(s: seq<Byte>, i: nat, data: seq<Byte>, j: nat, k: nat)
    requires i + |data| <= j <= k <= |s|
    ensures Overwrite(s, i, data)[j..k] == s[j..k]
  {}

  function Pow256(n: nat): nat {
    if n == 0 then 1 else 256 * Pow256(n - 1)
  }

  function Encode(v: nat, n: nat): (s: seq<Byte>)
    ensures |s| == n
  {
    if n == 0 then [] else [v % 256] + Encode(v / 256, n - 1)
  }

  function Decode(s: seq<Byte>): nat {
    if s == [] then 0 else s[0] + 256 * Decode(s[1..])
  }

  /** The encoding is little-endian: byte i is the digit of weight 256 to the i. */
  lemma {:induction false} EncodeDigits(v: nat, n: nat, i: nat)
    requires i < n
    ensures Pow256(i) > 0 && Encode(v, n)[i] == v / Pow256(i) % 256
  {
    if i > 0 {
      hide Pow256;
      Pow256Step(i);
      EncodeDigits(v / 256, n - 1, i - 1);
      DivideTwice(v, Pow256(i - 1));
    }
  }

  lemma Pow256Step(i: nat)
    requires i > 0
    ensures Pow256(i) == 256 * Pow256(i - 1)
  {}

  lemma DivideTwice(v: nat, p: nat)
    requires p > 0
    ensures v / 256 / p == v / (256 * p)
  {
    var q, r := v / 256, v % 256;
    var a, b := q / p, q % p;
    assert v == 256 * (p * a + b) + r == (256 * p) * a + (256 * b + r);
    ModIs(v, 256 * p, a, 256 * b + r);
  }

  lemma {:induction false} DecodeEncode(v: nat, n: nat)
    requires v < Pow256(n)
    ensures Decode(Encode(v, n)) == v
  {
    if n != 0 {
      DecodeEncode(v / 256, n - 1);
      assert Encode(v, n)[1..] == Encode(v / 256, n - 1);
    }
  }

  lemma {:induction false} EncodeDecode(s: seq<Byte>)
    ensures Decode(s) < Pow256(|s|)
    ensures Encode(Decode(s), |s|) == s
  {
    if s != [] {
      EncodeDecode(s[1..]);
      assert s == [s[0]] + s[1..];
      assert Decode(s) / 256 == Decode(s[1..]) && Decode(s) % 256 == s[0];
    }
  }

  lemma WordBounds()
    ensures Pow256(4) == 0x1_0000_0000 && Pow256(8) == 0x1_0000_0000_0000_0000
  {
    assert Pow256(2) == 0x1_0000;
    assert Pow256(6) == 0x1_0000_0000_0000;
  }
}
