/** What an accepted layout means for the address of the object, its alignment, and its header word. */
module Placement {
  import opened AlignBits
  import opened AlignLayout
  import opened Arithmetic
  import opened LibcHeap
  import opened Words

  function MakeAlignedPtr(raw: nat, a: nat, offset: nat): nat
    requires a > 0
  {
    RoundUp(raw, a) + offset
  }

  /** On machine words, rounding down to a power of two is the mask `& !(a - 1)`. */
  lemma {:induction false} RoundDownIsMask(x: nat, a: nat)
    requires IsPowerOfTwo(a)
    ensures And(Word(x), Not(Dec(Word(a)))) == Word(RoundDown(x, a))
  {
    hide And, Or, Twice, Not, Dec, LowBit, RoundDown;
    if a == 1 {
      WordOfOne();
      MaskOfOne(Word(x));
      RoundDownByOne(x);
    } else {
      var m, y := Word(a / 2), RoundDown(x / 2, a / 2);
      RoundDownIsMask(x / 2, a / 2);
      RoundDownHalves(x, a);
      WordDouble(a / 2);
      WordDouble(y);
      WordStep(x);
      MaskStepWord(Word(x / 2), LowBit(x), m);
    }
  }

  lemma RoundDownByOne(x: nat)
    ensures RoundDown(x, 1) == x
  {}

  lemma WordOfOne()
    ensures Word(1) == 1
  {}

  lemma MaskOfOne(w: bv64)
    ensures And(w, Not(Dec(1))) == w
  {
    hide Word;
  }

  lemma WordStep(n: nat)
    ensures Word(n) == Or(Twice(Word(n / 2)), LowBit(n))
  {}

  lemma WordDouble(n: nat)
    ensures Word(2 * n) == Twice(Word(n))
  {
    OrZero(Twice(Word(n)));
  }

  lemma OrZero(w: bv64)
    ensures Or(w, 0) == w
    ensures Twice(0) == 0
  {}

  lemma MaskStepWord(a: bv64, b: bv64, m: bv64)
    requires b <= 1
    ensures And(Or(Twice(a), b), Not(Dec(Twice(m)))) == Twice(And(a, Not(Dec(m))))
  {
    hide And, Or, Twice, Not, Dec;
    TwiceNegated(m);
    TwiceAnd(a, b, Not(Dec(m)));
  }

  function Negated(w: bv64): bv64 { 0 - w }

  lemma NegatedIs(w: bv64)
    ensures Not(Dec(w)) == Negated(w)
  {}

  lemma NegatedTwice(w: bv64)
    ensures Negated(Twice(w)) == Twice(Negated(w))
  {}

  lemma TwiceNegated(m: bv64)
    ensures Not(Dec(Twice(m))) == Twice(Not(Dec(m)))
  {
    hide Not, Dec, Twice, Negated;
    NegatedIs(m);
    NegatedIs(Twice(m));
    NegatedTwice(m);
  }

  lemma TwiceAnd(a: bv64, b: bv64, c: bv64)
    requires b <= 1
    ensures And(Or(Twice(a), b), Twice(c)) == Twice(And(a, c))
  {}

  function ObjectAt(raw: nat, l: Layout, p: Layout): nat
    requires p.align > 0 && p.size >= p.align + l.size
  {
    MakeAlignedPtr(raw, p.align, PadOf(l, p))
  }

  lemma AcceptedIs(l: Layout, reqs: seq<AlignReq>, p: Layout) returns (k: nat)
    requires Accepted(l, reqs, p)
    ensures l.Valid() && l.size > 0 && l.align > 0
    ensures p == Padded(l, k) && LeastFit(l.align, reqs, k)
    ensures p.align > 0 && p.size >= p.align + l.size && k == PadOf(l, p)
    ensures ChosenAlign(p.align) && (p.align < 64 ==> l.size + k <= p.align)
  {
    PositiveAlign(l);
    hide LeastFit, CalcAlign, GoodRequests, ChosenAlign, PadAligned, IsPowerOfTwo;
    k := PadChosen(l, reqs, p);
    CalcAlignIsChosen(l.align, l.size + k);
  }

  lemma PositiveAlign(l: Layout)
    requires l.Valid()
    ensures l.align > 0
  {}

  lemma PadChosen(l: Layout, reqs: seq<AlignReq>, p: Layout) returns (k: nat)
    requires l.align > 0 && PadAligned(l, reqs, p)
    ensures p == Padded(l, k) && LeastFit(l.align, reqs, k)
  {
    hide LeastFit, Padded, Layout.Valid;
    k :| LeastFit(l.align, reqs, k) && p == Padded(l, k);
  }

  lemma LandsInside(l: Layout, reqs: seq<AlignReq>, k: nat, x: nat)
    requires l.align > 0 && GoodRequests(l.size, reqs) && LeastFit(l.align, reqs, k) && Requested(reqs, x)
    ensures x < l.size && !Forbidden(k + x)
  {}

  /** Wherever malloc puts the block, no requested byte lands on a forbidden cache-line offset. */
  lemma NoRequestedByteForbidden(l: Layout, reqs: seq<AlignReq>, p: Layout, raw: nat, x: nat)
    requires Accepted(l, reqs, p) && Requested(reqs, x)
    ensures p.size >= p.align + l.size && p.align > 0
    ensures !Forbidden(ObjectAt(raw, l, p) + x)
  {
    hide LeastFit, GoodRequests, PadAligned, RoundUp, CalcAlign, ChosenAlign, IsPowerOfTwo, Requested, Forbidden;
    var k := AcceptedIs(l, reqs, p);
    LandsInside(l, reqs, k, x);
    AlignKeepsOffset(RoundUp(raw, p.align), p.align, k + x);
  }

  lemma AlignKeepsOffset(base: nat, a: nat, y: nat)
    requires ChosenAlign(a) && base % a == 0 && !Forbidden(y) && (a < 64 ==> y < a)
    ensures !Forbidden(base + y)
  {
    if a >= 64 {
      LargeAlignKeepsOffset(base, a, y);
    } else {
      SmallAlignKeepsOffset(base, a, y);
    }
  }

  lemma LargeAlignKeepsOffset(base: nat, a: nat, y: nat)
    requires a > 0 && a % 64 == 0 && base % a == 0 && !Forbidden(y)
    ensures !Forbidden(base + y)
  {
    MultipleOfMultiple(base, a, 64);
    SumOfMultiples(base, y, 64);
  }

  /** Below cache-line alignment the object fits in one aligned block, so only offset 0 of a line could clash. */
  lemma SmallAlignKeepsOffset(base: nat, a: nat, y: nat)
    requires a in {8, 16, 32} && base % a == 0 && y < a && !Forbidden(y)
    ensures !Forbidden(base + y)
  {
    hide Forbidden;
    var t, b := base / 64, base % 64;
    LineOffset(t, b, a);
    ModIs(base + y, 64, t, b + y);
    ForbiddenIs(base + y, b + y);
    ForbiddenIs(y, y);
  }

  lemma ForbiddenIs(x: nat, r: nat)
    requires x % 64 == r
    ensures Forbidden(x) <==> r == 0 || 4 <= r <= 7
  {}

  lemma LineOffset(t: nat, b: nat, a: nat)
    requires a in {8, 16, 32} && b < 64 && (64 * t + b) % a == 0
    ensures b == 0 || a <= b
    ensures b + a <= 64
  {
    assert 64 % a == 0;
    ModIs(64 * t, 64, t, 0);
    MultipleOfMultiple(64 * t, 64, a);
    SumOfMultiples(64 * t, b, a);
    MultiplesApart(b, 64, a);
    if b > 0 { MultiplesApart(0, b, a); }
  }

  /** The pad the allocator recovers is below a cache line, and a multiple of the requested alignment. */
  lemma PadIsMultiple(l: Layout, reqs: seq<AlignReq>, p: Layout)
    requires Accepted(l, reqs, p)
    ensures p.size >= p.align + l.size && PadOf(l, p) < 64 && PadOf(l, p) % l.align == 0
  {
    var k := AcceptedIs(l, reqs, p);
    FitsIsBounded(l.align, reqs, k);
  }

  /** The guard under which the object keeps the alignment it was asked for. */
  predicate KeepsAlign(l: Layout, pad: nat) {
    pad > 0 || l.align <= 16 || l.align > 64 || 2 * l.size > l.align
  }

  lemma ChosenAlignCovers(l: Layout, k: nat)
    requires l.Valid() && l.size > 0 && k < 64 && k % l.align == 0
    ensures l.align > CalcAlign(l.align, l.size + k) ==> k == 0
    ensures KeepsAlign(l, k) <==>
            l.align <= CalcAlign(l.align, l.size + k) || (l.align == 16 && CalcAlign(l.align, l.size + k) == 8)
    ensures !KeepsAlign(l, k) ==> l.align in {32, 64} && CalcAlign(l.align, l.size + k) in {8, 16, 32}
  {
    CalcAlignIs(l.align, l.size + k);
    if l.align <= 64 {
      SmallPowers(l.align);
      if k > 0 { MultiplesApart(0, k, l.align); }
    }
  }

  /**
   * `calc_algn` never looks at a requested alignment of 64 or less, so the object can lose it:
   * it is kept at every address malloc may return exactly when `KeepsAlign` holds.
   */
  lemma AlignmentKeptIff(l: Layout, reqs: seq<AlignReq>, p: Layout)
    requires Accepted(l, reqs, p)
    ensures p.size >= p.align + l.size && p.align > 0
    ensures KeepsAlign(l, PadOf(l, p)) <==> forall raw: nat | MallocAddress(raw) :: ObjectAt(raw, l, p) % l.align == 0
  {
    hide Accepted, RoundUp, CalcAlign, LeastFit, RoundDown, IsPowerOfTwo;
    var k := AcceptedIs(l, reqs, p);
    PadIsMultiple(l, reqs, p);
    ChosenAlignCovers(l, k);
    hide KeepsAlign;
    if l.align <= p.align {
      PowersDivide(l.align, p.align);
      forall raw: nat
        ensures ObjectAt(raw, l, p) % l.align == 0
      {
        MultipleOfMultiple(RoundUp(raw, p.align), p.align, l.align);
        SumOfMultiples(RoundUp(raw, p.align), k, l.align);
      }
    } else if KeepsAlign(l, k) {
      forall raw: nat | MallocAddress(raw)
        ensures ObjectAt(raw, l, p) % l.align == 0
      {
        StaysPut(raw, 8);
      }
    } else {
      var raw := if p.align == 32 then 32 else 16;
      StaysPut(raw, p.align);
      assert ObjectAt(raw, l, p) == raw;
      assert raw % l.align != 0;
    }
  }

  lemma StaysPut(raw: nat, a: nat)
    requires raw % 16 == 0 && (a in {8, 16} || (a == 32 && raw == 32))
    ensures RoundUp(raw, a) == raw
  {
    if a == 8 { MultipleOfMultiple(raw, 16, 8); }
    RoundUpFixed(raw, a);
  }

  /** The word before the object, where the raw address is kept, starts inside the malloc block. */
  predicate HeaderInside(raw: nat, l: Layout, p: Layout)
    requires p.align > 0 && p.size >= p.align + l.size
  {
    raw + PTR_SIZE <= ObjectAt(raw, l, p)
  }

  /**
   * The header lies inside the block when the pad leaves room for it or malloc's address was not already aligned;
   * so it does at every address malloc may return exactly when the pad is at least an address long.
   */
  lemma HeaderInsideIff(l: Layout, reqs: seq<AlignReq>, p: Layout)
    requires Accepted(l, reqs, p)
    ensures p.size >= p.align + l.size && p.align > 0
    ensures forall raw: nat | MallocAddress(raw) ::
              HeaderInside(raw, l, p) <==> PadOf(l, p) >= PTR_SIZE || raw % p.align != 0
    ensures (forall raw: nat | MallocAddress(raw) :: HeaderInside(raw, l, p)) <==> PadOf(l, p) >= PTR_SIZE
  {
    hide Accepted, CalcAlign, LeastFit, IsPowerOfTwo;
    var k := AcceptedIs(l, reqs, p);
    hide RoundUp;
    forall raw: nat | MallocAddress(raw)
      ensures HeaderInside(raw, l, p) <==> k >= PTR_SIZE || raw % p.align != 0
    {
      RoundUpGap(raw, p.align);
    }
    var raw := 16 * p.align;
    ModIs(raw, p.align, 16, 0);
    ModIs(raw, 16, p.align, 0);
    assert HeaderInside(raw, l, p) <==> k >= PTR_SIZE;
  }

  lemma RoundUpGap(raw: nat, a: nat)
    requires a > 0 && a % 8 == 0 && raw % 16 == 0
    ensures if raw % a == 0 then RoundUp(raw, a) == raw else RoundUp(raw, a) >= raw + 8
  {
    if raw % a == 0 {
      RoundUpFixed(raw, a);
    } else {
      MultipleOfMultiple(RoundUp(raw, a), a, 8);
      MultipleOfMultiple(raw, 16, 8);
      MultiplesApart(raw, RoundUp(raw, a), 8);
    }
  }

  // ---- The whole-object request ----

  function WholeRequest(l: Layout): seq<AlignReq> {
    [AlignReq(0, l.size)]
  }

  lemma WholeRequested(l: Layout, x: nat)
    ensures Requested(WholeRequest(l), x) <==> x < l.size
  {
    assert Covers(WholeRequest(l)[0], x) <==> x < l.size;
  }

  /** The two windows of a cache line that a whole object may occupy: bytes 1 to 3, and bytes 8 to 63. */
  predicate WindowOpen(k: nat, s: nat) {
    (8 <= k && k + s <= 64) || (1 <= k && k + s <= 4)
  }

  lemma WholeFits(l: Layout, k: nat)
    requires l.align > 0 && l.size >= 1
    ensures Fits(l.align, WholeRequest(l), k) <==> k < 64 && k % l.align == 0 && WindowOpen(k, l.size)
  {
    hide Forbidden, Requested, WholeRequest;
    if k < 64 && k % l.align == 0 {
      var s := l.size;
      if WindowOpen(k, s) {
        forall x: nat | Requested(WholeRequest(l), x)
          ensures !Forbidden(k + x)
        {
          WholeRequested(l, x);
          ForbiddenIs(k + x, k + x);
        }
      } else {
        var clash := if k >= 8 then 64 - k else if k == 0 || k >= 4 then 0 else 4 - k;
        WholeRequested(l, clash);
        ForbiddenIs(k + clash, if k >= 8 then 0 else k + clash);
        assert Forbidden(k + clash);
      }
    }
  }

  function WholePad(l: Layout): nat {
    if l.size + l.align <= 4 then l.align else if l.align <= 8 then 8 else l.align
  }

  /** A whole object can be placed exactly when it and its pad share one line, and the least pad is then known. */
  lemma WholeObjectPad(l: Layout)
    requires l.Valid() && l.size >= 1
    ensures (exists k: nat :: Fits(l.align, WholeRequest(l), k)) <==>
            l.size + (if l.align <= 8 then 8 else l.align) <= 64
    ensures l.size + (if l.align <= 8 then 8 else l.align) <= 64 ==>
              LeastFit(l.align, WholeRequest(l), WholePad(l))
  {
    hide Fits;
    forall k: nat
      ensures Fits(l.align, WholeRequest(l), k) <==> k < 64 && k % l.align == 0 && WindowOpen(k, l.size)
    {
      WholeFits(l, k);
    }
    if l.align <= 64 {
      SmallPowers(l.align);
      ModIs(l.align, l.align, 1, 0);
    }
    assert l.size + (if l.align <= 8 then 8 else l.align) <= 64 ==> Fits(l.align, WholeRequest(l), WholePad(l));
    forall k: nat | k < 64 && k % l.align == 0 && WindowOpen(k, l.size)
      ensures l.align <= 32 && WholePad(l) <= k && l.size + (if l.align <= 8 then 8 else l.align) <= 64
    {
      MultiplesApart(0, k, l.align);
    }
  }

  lemma WholeRequestIsGood(l: Layout)
    ensures GoodRequests(l.size, WholeRequest(l))
  {}

  lemma WholePadIsValid(l: Layout)
    requires l.Valid() && 1 <= l.size && l.size + (if l.align <= 8 then 8 else l.align) <= 64
    ensures CheckLayout(l) && WholePad(l) < 64 && Padded(l, WholePad(l)).Valid()
  {
    CalcAlignIs(l.align, l.size + WholePad(l));
    CalcAlignIsChosen(l.align, l.size + WholePad(l));
  }

  /** A whole object can be placed exactly when it, and the larger of 8 and its alignment, fit one cache line. */
  lemma WholePlaceableIff(l: Layout)
    ensures Placeable(l, WholeRequest(l)) <==>
            l.Valid() && l.size >= 1 && l.size + (if l.align <= 8 then 8 else l.align) <= 64
  {
    hide GoodRequests, LeastFit, Fits, CalcAlign, IsPowerOfTwo;
    if l.Valid() && l.size >= 1 {
      ValidFacts(l);
      WholeObjectPad(l);
      if l.size + (if l.align <= 8 then 8 else l.align) <= 64 {
        WholePadIsValid(l);
        WholeRequestIsGood(l);
        OnlyAnswer(l, WholeRequest(l), WholePad(l));
      } else {
        NoWholeFit(l);
      }
    }
  }

  lemma NoWholeFit(l: Layout)
    requires l.align > 0 && !exists k: nat :: Fits(l.align, WholeRequest(l), k)
    ensures !Placeable(l, WholeRequest(l))
  {
    NoPadNoAnswer(l, WholeRequest(l));
  }

  lemma WholePadIs(l: Layout, p: Layout)
    requires Accepted(l, WholeRequest(l), p)
    ensures p.align > 0 && p.size >= p.align + l.size && PadOf(l, p) == WholePad(l)
  {
    var k := AcceptedIs(l, WholeRequest(l), p);
    WholeObjectPad(l);
    assert Fits(l.align, WholeRequest(l), k);
  }

  /**
   * For a whole object the header lies inside the block, wherever malloc puts it, exactly when its size and alignment
   * add up to more than 4; for the smallest objects it does not.
   */
  lemma WholeHeaderInsideIff(l: Layout, p: Layout)
    requires Accepted(l, WholeRequest(l), p)
    ensures p.align > 0 && p.size >= p.align + l.size
    ensures (forall raw: nat | MallocAddress(raw) :: HeaderInside(raw, l, p)) <==> l.size + l.align > 4
  {
    hide Accepted, HeaderInside;
    WholePadIs(l, p);
    HeaderInsideIff(l, WholeRequest(l), p);
  }

  // ---- Two inputs on the wrong side of the conditions ----

  /** Three bytes asked for at alignment 32, of which the last two matter, stay where a 16-byte malloc puts them. */
  lemma AlignmentLostExample()
    ensures Accepted(Layout(3, 32), [AlignReq(1, 2)], Layout(11, 8))
    ensures !KeepsAlign(Layout(3, 32), PadOf(Layout(3, 32), Layout(11, 8)))
    ensures MallocAddress(16) && ObjectAt(16, Layout(3, 32), Layout(11, 8)) == 16
  {
    hide LeastFit, Fits, Requested, Forbidden, RoundUp, CalcAlign, PadAligned;
    var l, reqs := Layout(3, 32), [AlignReq(1, 2)];
    ExampleValid();
    ExampleFits();
    CalcAlignIs(32, 3);
    PadAlignedIs(l, reqs, 0, Layout(11, 8));
    StaysPut(16, 8);
  }

  lemma ExampleValid()
    ensures Layout(3, 32).Valid() && Layout(11, 8).Valid()
  {
    assert IsPowerOfTwo(4) && IsPowerOfTwo(16);
  }

  lemma ExampleFits()
    ensures LeastFit(32, [AlignReq(1, 2)], 0)
  {
    var reqs := [AlignReq(1, 2)];
    forall x: nat | Requested(reqs, x)
      ensures !Forbidden(0 + x)
    {
      assert Covers(reqs[0], x);
    }
  }

  /** A single byte is placed right after malloc's address, and its header before it. */
  lemma HeaderOutsideExample()
    ensures Accepted(Layout(1, 1), WholeRequest(Layout(1, 1)), Layout(10, 8))
    ensures MallocAddress(16) && !HeaderInside(16, Layout(1, 1), Layout(10, 8))
  {
    var l := Layout(1, 1);
    WholeObjectPad(l);
    WholeRequestIsGood(l);
    WholePadIsValid(l);
    CalcAlignIs(1, 2);
    OnlyAnswer(l, WholeRequest(l), 1);
    RoundUpFixed(16, 8);
  }

  // ---- Sizes ----

  /** None of the usize sums of `pad_align_to` and of the allocation that follows can wrap. */
  lemma SumsDoNotWrap(l: Layout, k: nat)
    requires l.Valid() && l.size > 0 && k < 64
    ensures Padded(l, k).size + PTR_SIZE <= USIZE_MAX
  {
    CalcAlignIs(l.align, l.size + k);
  }

  lemma BigAlignHasNoPad(l: Layout, reqs: seq<AlignReq>, p: Layout)
    requires Accepted(l, reqs, p) && l.align > 64
    ensures l.align >= 128 && p == Layout(l.align + l.size, l.align)
  {
    var k := AcceptedIs(l, reqs, p);
    FitsIsBounded(l.align, reqs, k);
    assert IsPowerOfTwo(64) by { assert IsPowerOfTwo(8); }
    PowersOrder(64, l.align);
  }

  /** The alignment chosen within a cache line. */
  function LineAlign(n: nat): nat {
    if n <= 8 then 8 else if n <= 16 then 16 else if n <= 32 then 32 else 64
  }

  lemma SameTotal(m: nat, n: nat)
    requires m + LineAlign(m) == n + LineAlign(n)
    ensures m == n
  {}

  lemma AcceptedShape(l: Layout, reqs: seq<AlignReq>, p: Layout) returns (k: nat)
    requires Accepted(l, reqs, p)
    ensures k < 64 && p.size == k + p.align + l.size
    ensures p.align >= 128 ==> k == 0
    ensures p.align < 128 ==> p.align == LineAlign(l.size + k) <= 64
  {
    hide Accepted, CalcAlign, LeastFit, IsPowerOfTwo;
    k := AcceptedIs(l, reqs, p);
    PadIsMultiple(l, reqs, p);
    CalcAlignIs(l.align, l.size + k);
    if l.align > 64 { BigAlignHasNoPad(l, reqs, p); }
  }

  /** For one object size the total size determines the alignment and the pad, whatever the requests were. */
  lemma TotalSizeDetermines(l: Layout, reqs: seq<AlignReq>, p: Layout, l': Layout, reqs': seq<AlignReq>, p': Layout)
    requires Accepted(l, reqs, p) && Accepted(l', reqs', p')
    requires l.size == l'.size && p.size == p'.size
    ensures p == p'
  {
    hide Accepted, LineAlign;
    var k := AcceptedShape(l, reqs, p);
    var k' := AcceptedShape(l', reqs', p');
    if p.align < 128 && p'.align < 128 {
      SameTotal(l.size + k, l'.size + k');
    }
  }
}
