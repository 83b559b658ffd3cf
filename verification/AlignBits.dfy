/**
 * The word tricks that find the least pad: a bitmap of requested cache-line offsets, rotated against the forbidden
 * ones, masked to multiples of the alignment, and searched by its leading zeros.
 */
module AlignBits {
  import opened Arithmetic
  import opened Words

  const USIZE_MAX: nat := 0xFFFF_FFFF_FFFF_FFFF
  const WORD_BITS: nat := 64

  datatype AlignReq = AlignReq(offset: nat, len: nat)

  function Rol(v: bv64, c: nat): bv64 {
    Or(Shl(v, c % WORD_BITS), Shr(v, (USIZE_MAX + 1 - c % WORD_BITS) % WORD_BITS))
  }

  function Ror(v: bv64, c: nat): bv64
    requires c <= USIZE_MAX
  {
    Rol(v, (USIZE_MAX + 1 - c) % (USIZE_MAX + 1))
  }

  function GenAlignMask(al: nat, a: nat, m: bv64): bv64
    decreases a
  {
    if a > al then GenAlignMask(al, a / 2, Or(m, Shr(m, a / 2))) else m
  }

  function CountLeadingZeros(bmp: bv64): int
    decreases Not(bmp)
  {
    if bmp == 0 then -1
    else if Negative(bmp) then 0
    else
      TwiceGrows(bmp);
      CountLeadingZeros(Twice(bmp)) + 1
  }

  lemma TwiceGrows(w: bv64)
    requires w != 0 && !Negative(w)
    ensures Not(Twice(w)) < Not(w)
    ensures Twice(w) != 0
  {}

  function CalcLspc(al: nat, bmp: bv64): int {
    if !IsPowerOfTwo(al) then -2
    else CountLeadingZeros(LspcWord(al, bmp))
  }

  function LspcWord(al: nat, bmp: bv64): bv64 {
    And(Not(ClashWord(bmp)), GenAlignMask(al, WORD_BITS, TOP_BIT))
  }

  function ClashWord(bmp: bv64): bv64 {
    Or(Ror(Or(Or(Or(bmp, Ror(bmp, 1)), Ror(bmp, 2)), Ror(bmp, 3)), 5), Ror(bmp, 1))
  }

  predicate Clashes(bmp: bv64, i: nat) {
    Bit(bmp, (i + 1) % 64) || Bit(bmp, (i + 5) % 64) || Bit(bmp, (i + 6) % 64)
    || Bit(bmp, (i + 7) % 64) || Bit(bmp, (i + 8) % 64)
  }

  lemma RunBits(bmp: bv64, j: nat)
    requires j < 64
    ensures Bit(Or(Or(Or(bmp, Ror(bmp, 1)), Ror(bmp, 2)), Ror(bmp, 3)), j) <==>
            Bit(bmp, j) || Bit(bmp, (j + 1) % 64) || Bit(bmp, (j + 2) % 64) || Bit(bmp, (j + 3) % 64)
  {
    hide Or, Ror, Bit;
    var a := Or(bmp, Ror(bmp, 1));
    var b := Or(a, Ror(bmp, 2));
    BitOr(b, Ror(bmp, 3), j);
    BitRor(bmp, 3, j);
    BitOr(a, Ror(bmp, 2), j);
    BitRor(bmp, 2, j);
    BitOr(bmp, Ror(bmp, 1), j);
    BitRor(bmp, 1, j);
  }

  lemma WrapTwice(i: nat, n: nat)
    requires i < 64 && n < 64
    ensures ((i + 5) % 64 + n) % 64 == (i + 5 + n) % 64
  {
    SumOfMultiples((i + 5) / 64 * 64, (i + 5) % 64 + n, 64);
  }

  lemma ClashBits(bmp: bv64, i: nat)
    requires i < 64
    ensures Bit(ClashWord(bmp), i) <==> Clashes(bmp, i)
  {
    hide Or, Ror, Bit;
    WrapTwice(i, 1);
    WrapTwice(i, 2);
    WrapTwice(i, 3);
    var run := Or(Or(Or(bmp, Ror(bmp, 1)), Ror(bmp, 2)), Ror(bmp, 3));
    BitOr(Ror(run, 5), Ror(bmp, 1), i);
    BitRor(run, 5, i);
    BitRor(bmp, 1, i);
    RunBits(bmp, (i + 5) % 64);
  }

  lemma StartMask()
    ensures forall j | 0 <= j < 64 :: Bit(TOP_BIT, j) <==> (63 - j) % 64 == 0
  {
    forall j | 0 <= j < 64
      ensures Bit(TOP_BIT, j) <==> j == 63
    {
      NegativeIsTopBit(TOP_BIT);
      if j < 63 {
        TopBitOnly(j);
      }
    }
  }

  lemma BitRol(v: bv64, c: nat, i: nat)
    requires i < 64
    ensures Bit(Rol(v, c), i) <==> Bit(v, (i + 64 - c % 64) % 64)
  {
    hide Or, Shl, Shr, Bit;
    var n := c % 64;
    var m := (64 - n) % 64;
    assert (USIZE_MAX + 1 - n) % 64 == m;
    BitOr(Shl(v, n), Shr(v, m), i);
    BitShl(v, n, i);
    BitShr(v, m, i);
    if m + i >= 64 { NoHighBits(v, m + i); }
  }

  lemma BitRor(v: bv64, c: nat, i: nat)
    requires i < 64 && c < 64
    ensures Bit(Ror(v, c), i) <==> Bit(v, (i + c) % 64)
  {
    hide Rol, Bit;
    RorCount(c);
    BitRol(v, (USIZE_MAX + 1 - c) % (USIZE_MAX + 1), i);
  }

  lemma RorCount(c: nat)
    requires c < 64
    ensures (USIZE_MAX + 1 - c) % (USIZE_MAX + 1) % 64 == if c == 0 then 0 else 64 - c
  {
    if c > 0 { ModIs(USIZE_MAX + 1 - c, 64, USIZE_MAX / 64, 64 - c); }
  }

  lemma {:induction false} MaskBits(al: nat, a: nat, m: bv64, i: nat)
    requires IsPowerOfTwo(al) && IsPowerOfTwo(a) && a <= 64 && i < 64
    requires forall j | 0 <= j < 64 :: Bit(m, j) <==> (63 - j) % a == 0
    ensures Bit(GenAlignMask(al, a, m), i) <==> (63 - i) % (if a > al then al else a) == 0
    decreases a
  {
    if a > al {
      var m' := Or(m, Shr(m, a / 2));
      forall j | 0 <= j < 64
        ensures Bit(m', j) <==> (63 - j) % (a / 2) == 0
      {
        MaskStep(a, m, j);
      }
      PowersOrder(al, a);
      MaskBits(al, a / 2, m', i);
    }
  }

  lemma MaskStep(a: nat, m: bv64, j: nat)
    requires IsPowerOfTwo(a) && 2 <= a <= 64 && j < 64
    requires forall j | 0 <= j < 64 :: Bit(m, j) <==> (63 - j) % a == 0
    ensures Bit(Or(m, Shr(m, a / 2)), j) <==> (63 - j) % (a / 2) == 0
  {
    hide Or, Shr, Bit, IsPowerOfTwo;
    var h := a / 2;
    EvenPower(a);
    MaskStepBits(m, h, j);
    HalveMultiples(63 - j, h);
    if h + j < 64 {
      assert Bit(m, h + j) <==> (63 - (h + j)) % (2 * h) == 0;
    }
  }

  lemma EvenPower(a: nat)
    requires IsPowerOfTwo(a) && 2 <= a
    ensures a == 2 * (a / 2)
  {}

  lemma MaskStepBits(m: bv64, h: nat, j: nat)
    requires j < 64
    ensures Bit(Or(m, Shr(m, h)), j) <==> Bit(m, j) || (h + j < 64 && Bit(m, h + j))
  {
    hide Or, Shr, Bit;
    BitOr(m, Shr(m, h), j);
    BitShr(m, h, j);
    if h + j >= 64 { NoHighBits(m, h + j); }
  }

  lemma {:induction false} LeadingZeros(w: bv64, k: int)
    requires k == CountLeadingZeros(w)
    ensures -1 <= k < 64
    ensures k == -1 ==> w == 0
    ensures k >= 0 ==> Bit(w, 63 - k)
    ensures k >= 0 ==> forall j | 63 - k < j < 64 :: !Bit(w, j)
    decreases Not(w)
  {
    NegativeIsTopBit(w);
    if w != 0 && !Negative(w) {
      TwiceGrows(w);
      LeadingZeros(Twice(w), k - 1);
      BitTwice(w, 64 - k);
      forall j | 63 - k < j < 63
        ensures !Bit(w, j)
      {
        BitTwice(w, j + 1);
      }
    }
  }

  ghost predicate Covers(r: AlignReq, x: nat) {
    r.offset <= x < r.offset + r.len
  }

  ghost predicate Requested(reqs: seq<AlignReq>, x: nat) {
    exists i | 0 <= i < |reqs| :: Covers(reqs[i], x)
  }

  /** Cache-line offsets on which no requested byte may land. */
  predicate Forbidden(a: nat) {
    var r := a % 64;
    r == 0 || 4 <= r <= 7
  }

  /** At pad k, a multiple of the alignment within one line, every requested byte keeps off the forbidden offsets. */
  ghost predicate Fits(al: nat, reqs: seq<AlignReq>, k: nat)
    requires al > 0
  {
    k < 64 && k % al == 0 && forall x | Requested(reqs, x) :: !Forbidden(k + x)
  }

  ghost predicate ResidueRequested(reqs: seq<AlignReq>, i: nat) {
    exists x: nat | x % 64 == i :: Requested(reqs, x)
  }

  ghost predicate Represents(bmp: bv64, reqs: seq<AlignReq>) {
    forall i | 0 <= i < 64 :: Bit(bmp, i) <==> ResidueRequested(reqs, i)
  }

  /** `make_bitmap`: bit i is set exactly when some requested byte has offset i modulo 64. */
  method MakeBitmap(reqs: seq<AlignReq>) returns (bmp: bv64)
    ensures Represents(bmp, reqs)
  {
    bmp := 0;
    assert Represents(bmp, reqs[..0]) by {
      forall i | 0 <= i < 64 ensures !Bit(bmp, i) { ShrZero(i); }
    }
    for n := 0 to |reqs|
      invariant Represents(bmp, reqs[..n])
    {
      if reqs[n].len > 63 {
        LongRequest(reqs, n);
        return ALL_ONES;
      } else {
        AddRequest(bmp, reqs, n);
        bmp := Or(bmp, Rol(Dec(Shl(1, reqs[n].len)), reqs[n].offset));
      }
    }
    assert reqs[..|reqs|] == reqs;
  }

  function FirstAt(r: AlignReq, i: nat): (x: nat)
    requires i < 64
    ensures x % 64 == i && r.offset <= x < r.offset + 64
    ensures x - r.offset == (i + 64 - r.offset % 64) % 64
  {
    r.offset + (i + 64 - r.offset % 64) % 64
  }

  lemma LongRequest(reqs: seq<AlignReq>, n: nat)
    requires n < |reqs| && reqs[n].len > 63
    ensures Represents(ALL_ONES, reqs)
  {
    forall i | 0 <= i < 64
      ensures Bit(ALL_ONES, i) && ResidueRequested(reqs, i)
    {
      BitAllOnes(i);
      assert Covers(reqs[n], FirstAt(reqs[n], i));
      assert Requested(reqs, FirstAt(reqs[n], i));
    }
  }

  lemma BitOfRequest(r: AlignReq, i: nat)
    requires r.len <= 63 && i < 64
    ensures Bit(Rol(Dec(Shl(1, r.len)), r.offset), i) <==> FirstAt(r, i) < r.offset + r.len
  {
    BitRol(Dec(Shl(1, r.len)), r.offset, i);
    BitOnes(r.len, (i + 64 - r.offset % 64) % 64);
  }

  lemma ShortRequest(r: AlignReq, x: nat)
    requires Covers(r, x)
    ensures FirstAt(r, x % 64) <= x
  {
    var y := FirstAt(r, x % 64);
    assert y - x == 64 * (y / 64 - x / 64);
  }

  lemma RequestedPrefix(reqs: seq<AlignReq>, n: nat, x: nat)
    requires n < |reqs|
    ensures Requested(reqs[..n + 1], x) <==> Requested(reqs[..n], x) || Covers(reqs[n], x)
  {
    assert reqs[..n + 1] == reqs[..n] + [reqs[n]];
    if Requested(reqs[..n], x) {
      var i :| 0 <= i < n && Covers(reqs[..n][i], x);
      assert Covers(reqs[..n + 1][i], x);
    }
    if Covers(reqs[n], x) {
      assert Covers(reqs[..n + 1][n], x);
    }
  }

  lemma AddRequest(bmp: bv64, reqs: seq<AlignReq>, n: nat)
    requires n < |reqs| && reqs[n].len <= 63
    requires Represents(bmp, reqs[..n])
    ensures Represents(Or(bmp, Rol(Dec(Shl(1, reqs[n].len)), reqs[n].offset)), reqs[..n + 1])
  {
    hide Rol, Dec, Shl, Or, Bit;
    var r := reqs[n];
    var w := Rol(Dec(Shl(1, r.len)), r.offset);
    forall i | 0 <= i < 64
      ensures Bit(Or(bmp, w), i) <==> ResidueRequested(reqs[..n + 1], i)
    {
      BitOr(bmp, w, i);
      BitOfRequest(r, i);
      if ResidueRequested(reqs[..n], i) {
        var x: nat :| x % 64 == i && Requested(reqs[..n], x);
        RequestedPrefix(reqs, n, x);
      }
      if Bit(w, i) {
        RequestedPrefix(reqs, n, FirstAt(r, i));
      }
      if ResidueRequested(reqs[..n + 1], i) {
        var x: nat :| x % 64 == i && Requested(reqs[..n + 1], x);
        RequestedPrefix(reqs, n, x);
        if Covers(r, x) { ShortRequest(r, x); }
      }
    }
  }

  ghost predicate LeastFit(al: nat, reqs: seq<AlignReq>, k: nat)
    requires al > 0
  {
    Fits(al, reqs, k) && forall j: nat | j < k :: !Fits(al, reqs, j)
  }

  lemma ClashMeansForbidden(bmp: bv64, reqs: seq<AlignReq>, k: nat)
    requires Represents(bmp, reqs) && k < 64
    ensures Clashes(bmp, 63 - k) <==> exists x | Requested(reqs, x) :: Forbidden(k + x)
  {
    hide Bit;
    if x: nat :| Requested(reqs, x) && Forbidden(k + x) {
      assert ResidueRequested(reqs, x % 64);
      ClashResidue(k, x);
    }
    forall i | 0 <= i < 64 && Bit(bmp, i)
      ensures exists x :: Requested(reqs, x) && (ClashOffset(k, i) ==> Forbidden(k + x))
    {
      var x: nat :| x % 64 == i && Requested(reqs, x);
      ClashResidue(k, x);
    }
    assert Clashes(bmp, 63 - k) ==> exists i | 0 <= i < 64 :: Bit(bmp, i) && ClashOffset(k, i);
  }

  predicate ClashOffset(k: nat, i: nat)
    requires k < 64
  {
    i == (64 - k) % 64 || i == (68 - k) % 64 || i == (69 - k) % 64 || i == (70 - k) % 64 || i == (71 - k) % 64
  }

  lemma ClashResidue(k: nat, x: nat)
    requires k < 64
    ensures Forbidden(k + x) <==> ClashOffset(k, x % 64)
  {
    var i := x % 64;
    ModIs(k + x, 64, if k + i < 64 then x / 64 else x / 64 + 1, if k + i < 64 then k + i else k + i - 64);
    WrapOnce(64 - k);
    WrapOnce(68 - k);
    WrapOnce(69 - k);
    WrapOnce(70 - k);
    WrapOnce(71 - k);
  }

  lemma WrapOnce(y: nat)
    requires y < 128
    ensures y % 64 == if y < 64 then y else y - 64
  {
    ModIs(y, 64, if y < 64 then 0 else 1, if y < 64 then y else y - 64);
  }

  lemma AlignMaskBits(al: nat, i: nat)
    requires IsPowerOfTwo(al) && i < 64
    ensures Bit(GenAlignMask(al, WORD_BITS, TOP_BIT), i) <==> (63 - i) % al == 0
  {
    hide Bit, GenAlignMask, IsPowerOfTwo;
    StartMask();
    CacheLineIsPower();
    MaskBits(al, 64, TOP_BIT, i);
    if al >= 64 {
      BelowModulus(63 - i, 64);
      BelowModulus(63 - i, al);
    }
  }

  /** The word whose leading zeros `CalcLspc` counts has bit 63 - k set exactly when k fits. */
  lemma FitBit(al: nat, bmp: bv64, reqs: seq<AlignReq>, k: nat)
    requires IsPowerOfTwo(al) && Represents(bmp, reqs) && k < 64
    ensures Bit(LspcWord(al, bmp), 63 - k) <==> Fits(al, reqs, k)
  {
    hide Bit, And, Not, ClashWord, GenAlignMask, Clashes, Forbidden, Represents;
    var i := 63 - k;
    ClashMeansForbidden(bmp, reqs, k);
    ClashBits(bmp, i);
    BitNot(ClashWord(bmp), i);
    BitAnd(Not(ClashWord(bmp)), GenAlignMask(al, WORD_BITS, TOP_BIT), i);
    AlignMaskBits(al, i);
  }

  /** The rotate-and-mask search finds the least pad that fits, and says -1 when there is none. */
  lemma CalcLspcIsLeastFit(al: nat, bmp: bv64, reqs: seq<AlignReq>)
    requires IsPowerOfTwo(al) && Represents(bmp, reqs)
    ensures -1 <= CalcLspc(al, bmp) < 64
    ensures CalcLspc(al, bmp) >= 0 ==> LeastFit(al, reqs, CalcLspc(al, bmp))
    ensures CalcLspc(al, bmp) == -1 <==> forall k: nat :: !Fits(al, reqs, k)
  {
    hide Bit, LspcWord, Fits, Represents, CountLeadingZeros;
    var w := LspcWord(al, bmp);
    var r := CalcLspc(al, bmp);
    LeadingZeros(w, r);
    forall k: nat | k < 64
      ensures Fits(al, reqs, k) <==> Bit(w, 63 - k)
    {
      FitBit(al, bmp, reqs, k);
    }
    forall k: nat | Fits(al, reqs, k)
      ensures 0 <= r <= k
    {
      FitsIsBounded(al, reqs, k);
      ShrZero(63 - k);
    }
  }

  lemma FitsIsBounded(al: nat, reqs: seq<AlignReq>, k: nat)
    requires al > 0 && Fits(al, reqs, k)
    ensures k < 64 && k % al == 0 && (al >= 64 ==> k == 0)
  {}
}
