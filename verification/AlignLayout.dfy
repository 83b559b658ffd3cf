/** Layouts, the check of a request list, and `pad_align_to`. */
module AlignLayout {
  import opened AlignBits
  import opened Arithmetic
  import opened LibcHeap
  import opened Wrappers

  const ISIZE_MAX: nat := 0x7FFF_FFFF_FFFF_FFFF
  const PTR_SIZE: nat := 8

  datatype Layout = Layout(size: nat, align: nat) {
    /** What `core::alloc::Layout` guarantees of every value. */
    predicate Valid() {
      IsPowerOfTwo(align) && size <= ISIZE_MAX - (align - 1)
    }
  }

  function FromSizeAlign(size: nat, align: nat): Option<Layout> {
    var l := Layout(size, align);
    if l.Valid() then Some(l) else None
  }

  predicate CheckLayout(l: Layout) {
    !(l.size == 0 || !IsPowerOfTwo(l.align) || l.size > USIZE_MAX - (l.align - 1))
  }

  /** Of the layouts that exist, `check_layout` turns down the empty ones only. */
  lemma CheckLayoutIs(l: Layout)
    requires l.Valid()
    ensures CheckLayout(l) <==> l.size > 0
  {}

  /** `is_power_of_two` holds of the powers of two and of nothing else. */
  lemma {:induction false} PowerOfTwoIs(n: nat)
    ensures IsPowerOfTwo(n) <==> exists k: nat :: n == Power2(k)
  {
    if IsPowerOfTwo(n) && n != 1 {
      PowerOfTwoIs(n / 2);
      var k: nat :| n / 2 == Power2(k);
      assert n == Power2(k + 1);
    } else if n == 1 {
      assert n == Power2(0);
    }
    forall k: nat
      ensures IsPowerOfTwo(Power2(k))
    {
      PowerIsPower(k);
    }
  }

  /** `Layout::from_size_align` takes the powers of two for alignments, and sizes that round up within isize::MAX. */
  lemma FromSizeAlignIs(size: nat, align: nat)
    ensures FromSizeAlign(size, align).Some? <==>
            (exists k: nat :: align == Power2(k)) && size + align - 1 <= 0x7FFF_FFFF_FFFF_FFFF
    ensures FromSizeAlign(size, align).Some? ==> FromSizeAlign(size, align).value == Layout(size, align)
  {
    PowerOfTwoIs(align);
    forall k: nat ensures Power2(k) > 0 { PowerIsPower(k); }
  }

  function Power2(k: nat): nat {
    if k == 0 then 1 else 2 * Power2(k - 1)
  }

  lemma DoubleIsPower(p: nat)
    requires p > 0 && IsPowerOfTwo(p)
    ensures IsPowerOfTwo(2 * p)
  {
    ModIs(2 * p, 2, p, 0);
  }

  lemma {:induction false} PowerIsPower(k: nat)
    ensures Power2(k) > 0 && IsPowerOfTwo(Power2(k))
  {
    if k > 0 {
      PowerIsPower(k - 1);
      DoubleIsPower(Power2(k - 1));
    }
  }

  // ---- Request lists ----

  ghost predicate Disjoint(reqs: seq<AlignReq>) {
    forall i, j, x: nat | 0 <= i < j < |reqs| && Covers(reqs[i], x) :: !Covers(reqs[j], x)
  }

  ghost predicate Inside(size: nat, reqs: seq<AlignReq>) {
    forall i | 0 <= i < |reqs| :: reqs[i].offset + reqs[i].len <= size
  }

  ghost predicate GoodRequests(size: nat, reqs: seq<AlignReq>) {
    reqs != [] && Inside(size, reqs) && Disjoint(reqs)
  }

  function ByteMask(k: nat): bv8
    requires k < 8
  {
    if k == 0 then 1 else ByteMask(k - 1) << 1
  }

  lemma ByteMaskIs(k: nat)
    requires k < 8
    ensures ByteMask(k) == [1, 2, 4, 8, 16, 32, 64, 128][k]
  {
    assert ByteMask(3) == 8;
    assert ByteMask(6) == 64;
  }

  predicate Has(b: bv8, k: nat)
    requires k < 8
  {
    b & ByteMask(k) != 0
  }

  function With(b: bv8, k: nat): bv8
    requires k < 8
  {
    b | ByteMask(k)
  }

  lemma WithHas(b: bv8, i: nat, j: nat)
    requires i < 8 && j < 8
    ensures Has(With(b, i), j) <==> i == j || Has(b, j)
  {
    hide ByteMask;
    MasksDiffer(i, j);
    SetMask(b, ByteMask(i), ByteMask(j));
  }

  lemma NoneMarked(k: nat)
    requires k < 8
    ensures !Has(0, k)
  {}

  lemma MasksDiffer(i: nat, j: nat)
    requires i < 8 && j < 8
    ensures ByteMask(i) != 0
    ensures i != j ==> ByteMask(i) & ByteMask(j) == 0
  {
    ByteMaskIs(i);
    ByteMaskIs(j);
  }

  lemma SetMask(b: bv8, m: bv8, p: bv8)
    requires m != 0
    ensures (b | m) & m != 0
    ensures m & p == 0 ==> (b | m) & p == b & p
  {}

  /** Byte x of the object is marked in the packed bitmap. */
  predicate Marked(bmp: seq<bv8>, x: nat)
    requires x / 8 < |bmp|
  {
    Has(bmp[x / 8], x % 8)
  }

  lemma MarkOne(bmp: seq<bv8>, x: nat, y: nat)
    requires x / 8 < |bmp| && y / 8 < |bmp|
    ensures Marked(bmp[x / 8 := With(bmp[x / 8], x % 8)], y) <==> x == y || Marked(bmp, y)
  {
    hide Has, With;
    assert x == y <==> x / 8 == y / 8 && x % 8 == y % 8;
    WithHas(bmp[x / 8], x % 8, y % 8);
  }

  /** Byte x is marked exactly when it is named by the requests done, or by the first i bytes of the one under way. */
  ghost predicate RightAt(bmp: seq<bv8>, reqs: seq<AlignReq>, req: AlignReq, i: nat, x: nat)
    requires x / 8 < |bmp|
  {
    && (Marked(bmp, x) <==> Requested(reqs, x) || req.offset <= x < req.offset + i)
    && (req.offset <= x < req.offset + i ==> !Requested(reqs, x))
  }

  ghost predicate MarksPart(bmp: seq<bv8>, size: nat, reqs: seq<AlignReq>, req: AlignReq, i: nat)
    requires size <= 8 * |bmp|
  {
    forall x: nat | x < size :: RightAt(bmp, reqs, req, i, x)
  }

  /** The packed bitmap marks exactly the bytes of the object that some request names. */
  ghost predicate Marks(bmp: seq<bv8>, size: nat, reqs: seq<AlignReq>)
    requires size <= 8 * |bmp|
  {
    MarksPart(bmp, size, reqs, AlignReq(0, 0), 0)
  }

  lemma NothingMarked(bmp: seq<bv8>, size: nat, reqs: seq<AlignReq>)
    requires size <= 8 * |bmp| && reqs == [] && forall i | 0 <= i < |bmp| :: bmp[i] == 0
    ensures Marks(bmp, size, reqs)
  {
    hide Has;
    forall k | 0 <= k < 8 ensures !Has(0, k) { NoneMarked(k); }
  }

  lemma PartStarts(bmp: seq<bv8>, size: nat, reqs: seq<AlignReq>, req: AlignReq)
    requires size <= 8 * |bmp| && Marks(bmp, size, reqs)
    ensures MarksPart(bmp, size, reqs, req, 0)
  {
    hide Marked, Requested;
    forall x: nat | x < size
      ensures RightAt(bmp, reqs, req, 0, x)
    {
      assert RightAt(bmp, reqs, AlignReq(0, 0), 0, x);
    }
  }

  lemma MarkNext(bmp: seq<bv8>, size: nat, reqs: seq<AlignReq>, req: AlignReq, i: nat)
    requires size <= 8 * |bmp| && req.offset + i < size
    requires MarksPart(bmp, size, reqs, req, i) && !Marked(bmp, req.offset + i)
    ensures var x := req.offset + i;
            MarksPart(bmp[x / 8 := With(bmp[x / 8], x % 8)], size, reqs, req, i + 1)
  {
    hide Has, With, Marked, Requested;
    var x := req.offset + i;
    var marked, more := bmp[x / 8 := With(bmp[x / 8], x % 8)], i + 1;
    assert RightAt(bmp, reqs, req, i, x);
    forall y: nat | y < size
      ensures RightAt(marked, reqs, req, more, y)
    {
      assert RightAt(bmp, reqs, req, i, y);
      MarkOne(bmp, x, y);
    }
  }

  lemma MarkedBefore(bmp: seq<bv8>, size: nat, reqs: seq<AlignReq>, req: AlignReq, i: nat)
    requires size <= 8 * |bmp| && req.offset + i < size
    requires MarksPart(bmp, size, reqs, req, i) && Marked(bmp, req.offset + i)
    ensures Requested(reqs, req.offset + i)
  {
    hide Marked, Requested;
    assert RightAt(bmp, reqs, req, i, req.offset + i);
  }

  lemma OneMoreMarked(bmp: seq<bv8>, size: nat, reqs: seq<AlignReq>, n: nat)
    requires size <= 8 * |bmp| && n < |reqs| && Disjoint(reqs[..n])
    requires MarksPart(bmp, size, reqs[..n], reqs[n], reqs[n].len)
    requires Inside(size, reqs[..n]) && reqs[n].offset + reqs[n].len <= size
    ensures Marks(bmp, size, reqs[..n + 1]) && Disjoint(reqs[..n + 1]) && Inside(size, reqs[..n + 1])
  {
    hide Marked, Requested, Disjoint, Inside;
    InsideStep(size, reqs, n);
    var done := reqs[..n + 1];
    forall x: nat | x < size
      ensures RightAt(bmp, done, AlignReq(0, 0), 0, x)
    {
      assert RightAt(bmp, reqs[..n], reqs[n], reqs[n].len, x);
      RequestedPrefix(reqs, n, x);
    }
    forall x: nat | Covers(reqs[n], x)
      ensures !Requested(reqs[..n], x)
    {
      assert RightAt(bmp, reqs[..n], reqs[n], reqs[n].len, x);
    }
    ExtendDisjoint(reqs, n);
  }

  lemma InsideStep(size: nat, reqs: seq<AlignReq>, n: nat)
    requires n < |reqs| && Inside(size, reqs[..n]) && reqs[n].offset + reqs[n].len <= size
    ensures Inside(size, reqs[..n + 1])
  {
    forall i | 0 <= i < n
      ensures reqs[i].offset + reqs[i].len <= size
    {
      assert reqs[..n][i] == reqs[i];
    }
  }

  lemma OneOutside(size: nat, reqs: seq<AlignReq>, n: nat)
    requires n < |reqs| && reqs[n].offset + reqs[n].len > size
    ensures !Inside(size, reqs)
  {}

  /** A byte that is found marked already is named twice. */
  lemma Overlap(size: nat, reqs: seq<AlignReq>, n: nat, x: nat)
    requires n < |reqs| && Covers(reqs[n], x) && Requested(reqs[..n], x)
    ensures !Disjoint(reqs)
  {
    var j :| 0 <= j < n && Covers(reqs[..n][j], x);
    assert Covers(reqs[j], x);
  }

  function ScratchLen(size: nat): nat {
    (size + 7) / 8
  }

  /** The bitmap has a bit for every byte of the object, and no byte to spare. */
  lemma ScratchLenIs(size: nat)
    ensures size <= 8 * ScratchLen(size) < size + 8
  {}

  /** The scratch bitmap of an accepted request list is never freed. */
  ghost predicate ScratchLeft(h: Blocks, h': Blocks, size: nat, scratch: Answer)
    requires scratch.Granted?
  {
    if size == 0 then h' == h else Extended(h, h', scratch.addr, ScratchLen(size))
  }

  /**
   * `check_align_req`. The bitmap's bytes, which nobody else reads, are kept in an array beside the heap; the block
   * that holds them is in the heap. Without a size the bitmap takes no memory.
   */
  method CheckAlignReq(libc: Libc, size: nat, reqs: seq<AlignReq>, scratch: Answer) returns (ok: bool)
    requires libc.Intact() && size <= USIZE_MAX
    requires size > 0 ==> MayAnswer(libc.blocks, ScratchLen(size), MALLOC_ALIGN, scratch)
    modifies libc`blocks
    ensures libc.Intact()
    ensures ok <==> scratch.Granted? && GoodRequests(size, reqs)
    ensures if ok then ScratchLeft(old(libc.blocks), libc.blocks, size, scratch) else libc.blocks == old(libc.blocks)
  {
    hide Has, With, Marks, MarksPart, Requested, Inside, Disjoint, WellFormed, MayAnswer, ScratchLeft;
    if reqs == [] {
      return false;
    }
    var len := ScratchLen(size);
    var raw := 0;
    if scratch.Refused? {
      return false;
    }
    if len > 0 {
      raw := libc.Allocate(len, MALLOC_ALIGN, scratch);
    }
    ScratchTaken(old(libc.blocks), libc.blocks, size, scratch);
    var bmp := new bv8[len](_ => 0);
    NothingMarked(bmp[..], size, reqs[..0]);
    NoneIsGood(size, reqs[..0]);
    ghost var taken := libc.blocks;
    for n := 0 to |reqs|
      invariant libc.Intact() && libc.blocks == taken
      invariant Inside(size, reqs[..n]) && Disjoint(reqs[..n]) && Marks(bmp[..], size, reqs[..n])
    {
      var req := reqs[n];
      if req.offset + req.len > USIZE_MAX || req.offset + req.len > size {
        OneOutside(size, reqs, n);
        FreeScratch(libc, len, raw);
        return false;
      }
      PartStarts(bmp[..], size, reqs[..n], req);
      for i := 0 to req.len
        invariant libc.Intact() && libc.blocks == taken
        invariant MarksPart(bmp[..], size, reqs[..n], req, i)
      {
        var offset := req.offset + i;
        if Has(bmp[offset / 8], offset % 8) {
          MarkedBefore(bmp[..], size, reqs[..n], req, i);
          Overlap(size, reqs, n, offset);
          FreeScratch(libc, len, raw);
          return false;
        }
        MarkNext(bmp[..], size, reqs[..n], req, i);
        ghost var before := bmp[..];
        bmp[offset / 8] := With(bmp[offset / 8], offset % 8);
        assert bmp[..] == before[offset / 8 := With(before[offset / 8], offset % 8)];
      }
      OneMoreMarked(bmp[..], size, reqs, n);
    }
    assert reqs[..|reqs|] == reqs;
    return true;
  }

  method FreeScratch(libc: Libc, len: nat, raw: nat)
    requires libc.Intact() && (len > 0 ==> raw in libc.blocks)
    modifies libc`blocks
    ensures libc.Intact() && libc.blocks == if len > 0 then old(libc.blocks) - {raw} else old(libc.blocks)
  {
    if len > 0 {
      libc.Free(raw);
    }
  }

  lemma ScratchTaken(h: Blocks, h': Blocks, size: nat, scratch: Answer)
    requires scratch.Granted? && (size > 0 ==> MayAnswer(h, ScratchLen(size), MALLOC_ALIGN, scratch))
    requires size > 0 ==> scratch.addr !in h && h' == h[scratch.addr := scratch.bytes]
    requires size == 0 ==> h' == h
    ensures ScratchLeft(h, h', size, scratch) && (size > 0 ==> h' - {scratch.addr} == h)
  {}

  lemma NoneIsGood(size: nat, reqs: seq<AlignReq>)
    requires reqs == []
    ensures Inside(size, reqs) && Disjoint(reqs)
  {}

  lemma ExtendDisjoint(reqs: seq<AlignReq>, n: nat)
    requires n < |reqs| && Disjoint(reqs[..n])
    requires forall x: nat | Covers(reqs[n], x) :: !Requested(reqs[..n], x)
    ensures Disjoint(reqs[..n + 1])
  {
    var longer := reqs[..n + 1];
    forall i, j, x: nat | 0 <= i < j < n + 1 && Covers(longer[i], x)
      ensures !Covers(longer[j], x)
    {
      assert Covers(reqs[..n][i], x);
    }
  }

  // ---- pad_align_to ----

  function ShrinkAlign(size: nat, a: nat): nat {
    if a > 8 && size <= a / 2 then ShrinkAlign(size, a / 2) else a
  }

  function CalcAlign(al: nat, size: nat): nat {
    if al > 64 then al else ShrinkAlign(size, 64)
  }

  lemma CalcAlignIs(al: nat, size: nat)
    ensures CalcAlign(al, size) ==
            if al > 64 then al else if size <= 8 then 8 else if size <= 16 then 16 else if size <= 32 then 32 else 64
  {
    assert ShrinkAlign(size, 16) == if size <= 8 then 8 else 16;
    assert ShrinkAlign(size, 32) == if size <= 16 then ShrinkAlign(size, 16) else 32;
  }

  /** The alignments `calc_algn` can choose. */
  predicate ChosenAlign(a: nat) {
    a > 0 && IsPowerOfTwo(a) && a % 8 == 0 && (if a < 64 then a in {8, 16, 32} else a % 64 == 0)
  }

  lemma CalcAlignIsChosen(al: nat, size: nat)
    requires IsPowerOfTwo(al)
    ensures ChosenAlign(CalcAlign(al, size))
    ensures CalcAlign(al, size) < 64 ==> size <= CalcAlign(al, size)
  {
    CalcAlignIs(al, size);
    assert IsPowerOfTwo(8) && IsPowerOfTwo(16) && IsPowerOfTwo(32) && IsPowerOfTwo(64) by {
      assert IsPowerOfTwo(4);
    }
    if al > 64 {
      PowersDivide(8, al);
      PowersDivide(64, al);
    }
  }

  function Padded(l: Layout, k: nat): Layout {
    var a := CalcAlign(l.align, l.size + k);
    Layout(k + a + l.size, a)
  }

  /** p is the layout that `pad_align_to` must answer: the least pad, and the alignment that goes with it. */
  ghost predicate PadAligned(l: Layout, reqs: seq<AlignReq>, p: Layout)
    requires l.align > 0
  {
    p.Valid() && exists k: nat :: LeastFit(l.align, reqs, k) && p == Padded(l, k)
  }

  /** The pad that the allocator recovers from the two layouts. */
  function PadOf(l: Layout, p: Layout): nat
    requires p.size >= p.align + l.size
  {
    p.size - p.align - l.size
  }

  /** `pad_align_to` answers p when its scratch bitmap is served: everything the placement theorems assume. */
  ghost predicate Accepted(l: Layout, reqs: seq<AlignReq>, p: Layout) {
    l.Valid() && CheckLayout(l) && GoodRequests(l.size, reqs) && PadAligned(l, reqs, p)
  }

  ghost predicate Placeable(l: Layout, reqs: seq<AlignReq>) {
    exists p :: Accepted(l, reqs, p)
  }

  lemma NoPadNoAnswer(l: Layout, reqs: seq<AlignReq>)
    requires l.align > 0 && forall k: nat :: !Fits(l.align, reqs, k)
    ensures !Placeable(l, reqs)
  {}

  lemma PadAlignedIs(l: Layout, reqs: seq<AlignReq>, k: nat, p: Layout)
    requires l.align > 0 && LeastFit(l.align, reqs, k)
    ensures PadAligned(l, reqs, p) <==> p == Padded(l, k) && p.Valid()
  {
    hide Padded, Fits, Layout.Valid;
    if PadAligned(l, reqs, p) {
      var j: nat :| LeastFit(l.align, reqs, j) && p == Padded(l, j);
      assert !(j < k) && !(k < j);
    }
  }

  /** Once the least pad is known there is one answer, or none when the padded layout would be too large. */
  lemma OnlyAnswer(l: Layout, reqs: seq<AlignReq>, k: nat)
    requires l.Valid() && CheckLayout(l) && GoodRequests(l.size, reqs)
    requires l.align > 0 && LeastFit(l.align, reqs, k)
    ensures Placeable(l, reqs) <==> Padded(l, k).Valid()
    ensures Placeable(l, reqs) ==> Accepted(l, reqs, Padded(l, k))
  {
    hide PadAligned, Padded, LeastFit, GoodRequests, IsPowerOfTwo, Layout.Valid;
    PadAlignedIs(l, reqs, k, Padded(l, k));
    assert Padded(l, k).Valid() ==> Accepted(l, reqs, Padded(l, k));
    forall p | Accepted(l, reqs, p)
      ensures p == Padded(l, k) && p.Valid()
    {
      PadAlignedIs(l, reqs, k, p);
    }
  }

  lemma NotPlaceable(l: Layout, reqs: seq<AlignReq>)
    requires !CheckLayout(l) || !GoodRequests(l.size, reqs)
    ensures !Placeable(l, reqs)
  {}

  /** There is a pad, and the layout with the least one is not too large. */
  ghost predicate HasPad(l: Layout, reqs: seq<AlignReq>) {
    l.align > 0 && exists k: nat :: LeastFit(l.align, reqs, k) && Padded(l, k).Valid()
  }

  /** The conditions on a request one by one: a non-empty layout, a good list, and a pad. */
  lemma PlaceableIff(l: Layout, reqs: seq<AlignReq>)
    requires l.Valid()
    ensures Placeable(l, reqs) <==> l.size > 0 && GoodRequests(l.size, reqs) && HasPad(l, reqs)
  {
    hide GoodRequests, LeastFit, Padded, CheckLayout, Layout.Valid;
    CheckLayoutIs(l);
    ValidFacts(l);
    if l.size > 0 && GoodRequests(l.size, reqs) && HasPad(l, reqs) {
      var k: nat :| LeastFit(l.align, reqs, k) && Padded(l, k).Valid();
      assert Accepted(l, reqs, Padded(l, k));
    }
  }

  lemma ValidFacts(l: Layout)
    requires l.Valid()
    ensures l.align > 0 && IsPowerOfTwo(l.align) && l.size <= USIZE_MAX
  {}

  /** What `pad_align_to` leaves in the heap, whether it answers or not: the bitmap of a request list that passed. */
  ghost predicate Checked(h: Blocks, h': Blocks, l: Layout, reqs: seq<AlignReq>, scratch: Answer) {
    if LeavesBitmap(l, reqs, scratch) then ScratchLeft(h, h', l.size, scratch) else h' == h
  }

  ghost predicate LeavesBitmap(l: Layout, reqs: seq<AlignReq>, scratch: Answer) {
    scratch.Granted? && CheckLayout(l) && GoodRequests(l.size, reqs)
  }

  ghost predicate MayCheck(h: Blocks, l: Layout, scratch: Answer) {
    l.size > 0 ==> MayAnswer(h, ScratchLen(l.size), MALLOC_ALIGN, scratch)
  }

  method PaddingNeededFor(libc: Libc, l: Layout, reqs: seq<AlignReq>, scratch: Answer) returns (r: Option<nat>)
    requires libc.Intact() && l.Valid() && l.align > 0 && MayCheck(libc.blocks, l, scratch)
    modifies libc`blocks
    ensures libc.Intact() && Checked(old(libc.blocks), libc.blocks, l, reqs, scratch)
    ensures r.Some? ==>
              scratch.Granted? && CheckLayout(l) && GoodRequests(l.size, reqs) && LeastFit(l.align, reqs, r.value)
    ensures r.None? ==> scratch.Refused? || !Placeable(l, reqs)
  {
    hide GoodRequests, Represents, LeastFit, Fits, CalcLspc, Placeable, CheckLayout, Layout.Valid, IsPowerOfTwo,
      WellFormed, MayAnswer, ScratchLeft;
    ValidFacts(l);
    if !CheckLayout(l) {
      NotPlaceable(l, reqs);
      return None;
    }
    var ok := CheckAlignReq(libc, l.size, reqs, scratch);
    if !ok {
      if scratch.Granted? { NotPlaceable(l, reqs); }
      return None;
    }
    var bmp := MakeBitmap(reqs);
    var offset := CalcLspc(l.align, bmp);
    CalcLspcIsLeastFit(l.align, bmp, reqs);
    if offset < 0 {
      NoPadNoAnswer(l, reqs);
      return None;
    }
    return Some(offset);
  }

  method PadAlignTo(libc: Libc, l: Layout, reqs: seq<AlignReq>, scratch: Answer) returns (r: Option<Layout>)
    requires libc.Intact() && l.Valid() && MayCheck(libc.blocks, l, scratch)
    modifies libc`blocks
    ensures libc.Intact() && Checked(old(libc.blocks), libc.blocks, l, reqs, scratch)
    ensures r.Some? <==> scratch.Granted? && Placeable(l, reqs)
    ensures r.Some? <==> scratch.Granted? && l.size > 0 && GoodRequests(l.size, reqs) && HasPad(l, reqs)
    ensures r.Some? ==> Accepted(l, reqs, r.value)
  {
    hide HasPad, GoodRequests, LeastFit, CalcAlign, Accepted, Placeable, CheckLayout, Layout.Valid, IsPowerOfTwo,
      WellFormed, Checked, MayCheck;
    ValidFacts(l);
    PlaceableIff(l, reqs);
    var pad := PaddingNeededFor(libc, l, reqs, scratch);
    match pad
    case None =>
      r := None;
    case Some(offset) =>
      var align := CalcAlign(l.align, l.size + offset);
      r := FromSizeAlign(offset + align + l.size, align);
      OnlyAnswer(l, reqs, offset);
  }
}
