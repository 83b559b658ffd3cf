/** The owning box: its two layouts, cloning, and reuse of a block by `clone_from`. */
module AlignBox {
  import opened AlignAlloc
  import opened AlignBits
  import opened AlignLayout
  import opened AlignRuns
  import opened Bytes
  import opened LibcHeap
  import opened Placement
  import opened Wrappers

  /** What `allocate_in` leaves in the heap besides the block: a bitmap per check, the second check only to allocate. */
  ghost predicate TwiceChecked(h: Blocks, h': Blocks, l: Layout, reqs: seq<AlignReq>, scratch: (Answer, Answer),
                               twice: bool)
  {
    if twice then exists once :: Checked(h, once, l, reqs, scratch.0) && Checked(once, h', l, reqs, scratch.1)
    else Checked(h, h', l, reqs, scratch.0)
  }

  /** `handle_alloc_error` does not return; the model gives it an outcome of its own. */
  datatype Outcome<+T> = Made(value: T) | NoLayout | Aborted

  class Box {
    var ptr: nat
    var alignLayout: Layout
    var originLayout: Layout
    ghost var obj: Object
    ghost var reqs: seq<AlignReq>

    /** The box's object lies where its two layouts say, for requests that `pad_align_to` accepted. */
    ghost predicate Placed()
      reads this
    {
      && Accepted(originLayout, reqs, alignLayout)
      && Sized(originLayout, alignLayout)
      && 0 < alignLayout.align
      && obj.ptr == ptr == ObjectAt(obj.raw, originLayout, alignLayout)
      && obj.size == originLayout.size
    }

    /** The box holds a live object placed where its two layouts say, for requests that `pad_align_to` accepted. */
    ghost predicate Owned(h: Blocks)
      reads this
    {
      Placed() && Holds(h, obj)
    }

    /** Every byte the box's requests name keeps off the forbidden cache-line offsets. */
    lemma Guarantee(h: Blocks)
      requires Owned(h)
      ensures forall x | Requested(reqs, x) :: !Forbidden(ptr + x)
    {
      forall x | Requested(reqs, x)
        ensures !Forbidden(ptr + x)
      {
        NoRequestedByteForbidden(originLayout, reqs, alignLayout, obj.raw, x);
      }
    }

    constructor (ptr: nat, align: Layout, origin: Layout, ghost obj: Object, ghost reqs: seq<AlignReq>)
      ensures this.ptr == ptr && alignLayout == align && originLayout == origin
      ensures this.obj == obj && this.reqs == reqs
    {
      this.ptr := ptr;
      alignLayout := align;
      originLayout := origin;
      this.obj := obj;
      this.reqs := reqs;
    }

    /**
     * `allocate_in`. The request list is checked twice, once to learn the padded layout and once on allocation, and
     * `checked` is the heap after both. The heap stays intact exactly when the header word lies inside the new block,
     * which for a whole object of more than the smallest sizes it does wherever malloc puts it.
     */
    static method AllocateIn(libc: Libc, size: nat, align: nat, reqs: seq<AlignReq>, scratch: (Answer, Answer),
                             ans: Answer)
        returns (r: Outcome<Box>, ghost checked: Blocks)
      requires libc.Intact()
      requires FromSizeAlign(size, align).Some? ==>
                 var l := Layout(size, align);
                 && MayCheck(libc.blocks, l, scratch.0)
                 && forall h | Checked(libc.blocks, h, l, reqs, scratch.0) ::
                      MayCheck(h, l, scratch.1) && MayServe(h, l, reqs, scratch.1, ans)
      modifies libc
      ensures r.NoLayout? <==>
                || size == 0 || FromSizeAlign(size, align).None?
                || scratch.0.Refused? || !Placeable(Layout(size, align), reqs)
      ensures r.Aborted? <==> !r.NoLayout? && (scratch.1.Refused? || ans.Refused?)
      ensures if size == 0 || FromSizeAlign(size, align).None? then checked == old(libc.blocks)
              else TwiceChecked(old(libc.blocks), checked, Layout(size, align), reqs, scratch, !r.NoLayout?)
      ensures !r.Made? ==> libc.Intact() && libc.blocks == checked
      ensures r.Made? ==>
                && fresh(r.value) && r.value.reqs == reqs && r.value.originLayout == Layout(size, align)
                && r.value.obj.raw == ans.addr && r.value.Placed()
                && (libc.Intact() <==> HeaderInside(ans.addr, Layout(size, align), r.value.alignLayout))
      ensures reqs == WholeRequest(Layout(size, align)) && size + align > 4 ==> libc.Intact()
      ensures r.Made? && libc.Intact() ==>
                && r.value.Owned(libc.blocks)
                && Extended(checked, libc.blocks, ans.addr, r.value.alignLayout.size + PTR_SIZE)
                && Contents(libc.blocks, r.value.obj) == Zeros(size)
    {
      hide Accepted, Placeable, MayServe, MayCheck, Checked, Holds, Contents, ObjectAt, WellFormed, Requested,
        Forbidden, CheckLayout, Zeros, HeaderInside, Extended, LeavesBitmap;
      checked := libc.blocks;
      if size == 0 {
        return NoLayout, checked;
      }
      var layout := FromSizeAlign(size, align);
      if layout.None? {
        return NoLayout, checked;
      }
      var l := layout.value;
      var padded := PadAlignTo(libc, l, reqs, scratch.0);
      ghost var once := libc.blocks;
      if padded.None? {
        return NoLayout, once;
      }
      NotEmpty(l, reqs);
      var ptr;
      ghost var p;
      ptr, p, checked := AllocWithReq(libc, true, l, reqs, scratch.1, ans);
      assert Checked(old(libc.blocks), once, l, reqs, scratch.0) && Checked(once, checked, l, reqs, scratch.1);
      if ptr == 0 {
        return Aborted, checked;
      }
      OneAnswer(l, reqs, p, padded.value);
      var box := new Box(ptr, padded.value, l, Object(ans.addr, ptr, size), reqs);
      return Made(box), checked;
    }

    /** The bytes of the boxed value. */
    method Bytes(libc: Libc) returns (data: seq<Byte>)
      requires libc.Intact() && Owned(libc.blocks)
      ensures data == Contents(libc.blocks, obj) && |data| == originLayout.size
    {
      data := libc.Load(ptr, originLayout.size, obj.raw);
    }

    /** `clone`: a new block for the same two layouts, holding the same bytes. */
    method Clone(libc: Libc, ans: Answer) returns (r: Outcome<Box>)
      requires libc.Intact() && Owned(libc.blocks)
      requires MayAnswer(libc.blocks, alignLayout.size + PTR_SIZE, MALLOC_ALIGN, ans)
      modifies libc
      ensures r.Aborted? <==> ans.Refused?
      ensures r.Made? <==> ans.Granted?
      ensures r.Aborted? ==> libc.Intact() && libc.blocks == old(libc.blocks)
      ensures r.Made? ==>
                && fresh(r.value) && r.value.reqs == reqs && r.value.Placed()
                && r.value.alignLayout == alignLayout && r.value.originLayout == originLayout
                && (libc.Intact() <==> HeaderInside(ans.addr, originLayout, alignLayout))
      ensures r.Made? && libc.Intact() ==>
                && r.value.Owned(libc.blocks)
                && Extended(old(libc.blocks), libc.blocks, ans.addr, alignLayout.size + PTR_SIZE)
                && r.value.obj.raw == ans.addr
                && Contents(libc.blocks, r.value.obj) == Contents(old(libc.blocks), obj)
    {
      hide Accepted, Contents, ObjectAt, WellFormed, MayAnswer, HeaderInside, Zeros, Written, Holds, Extended;
      AcceptedSized(originLayout, reqs, alignLayout);
      var data := Bytes(libc);
      var p := AllocCopy(libc, originLayout, alignLayout, data, ans);
      if p == 0 {
        return Aborted;
      }
      ghost var o := Object(ans.addr, p, originLayout.size);
      var box := new Box(p, alignLayout, originLayout, o, reqs);
      return Made(box);
    }

    /**
     * `clone_from`: reuses the block when the padded sizes agree, and replaces it when they do not. Reuse never
     * breaks the heap; replacement does exactly when the new block has no room for the header word.
     */
    method CloneFrom(source: Box, libc: Libc, ans: Answer) returns (done: bool)
      requires libc.Intact() && Owned(libc.blocks) && source.Owned(libc.blocks)
      requires this != source && obj.raw != source.obj.raw && originLayout.size == source.originLayout.size
      requires MayAnswer(libc.blocks, source.alignLayout.size + PTR_SIZE, MALLOC_ALIGN, ans)
      modifies this, libc
      ensures !done <==> ans.Refused? && source.alignLayout.size != old(alignLayout).size
      ensures !done ==> libc.Intact() && libc.blocks == old(libc.blocks) && Owned(libc.blocks) && obj == old(obj)
      ensures libc.Intact() <==>
                || !done || source.alignLayout.size == old(alignLayout).size
                || HeaderInside(ans.addr, source.originLayout, source.alignLayout)
      ensures done ==>
                && reqs == source.reqs && alignLayout == source.alignLayout && originLayout == source.originLayout
                && Placed()
      ensures libc.Intact() ==>
                && source.Owned(libc.blocks)
                && Contents(libc.blocks, source.obj) == Contents(old(libc.blocks), source.obj)
      ensures done && libc.Intact() ==>
                && Owned(libc.blocks)
                && Contents(libc.blocks, obj) == Contents(old(libc.blocks), source.obj)
                && libc.blocks.Keys == old(libc.blocks).Keys - {old(obj).raw} + {obj.raw}
                && obj.raw !in old(libc.blocks).Keys - {old(obj).raw}
      ensures libc.Intact() ==> forall b | b in old(libc.blocks) && b != old(obj).raw ::
                b in libc.blocks && libc.blocks[b] == old(libc.blocks)[b]
    {
      hide Accepted, Contents, ObjectAt, WellFormed, MayAnswer, HeaderInside, Zeros, Written, Header, Decode, PadOf,
        Extended, Holds;
      AcceptedSized(source.originLayout, source.reqs, source.alignLayout);
      HoldsInside(libc.blocks, obj);
      HoldsInside(libc.blocks, source.obj);
      var data := source.Bytes(libc);
      if source.alignLayout.size != alignLayout.size {
        var p := AllocCopy(libc, source.originLayout, source.alignLayout, data, ans);
        if p == 0 {
          return false;
        }
        ghost var o := Object(ans.addr, p, source.originLayout.size);
        ghost var filled := libc.blocks;
        if libc.Intact() {
          Replaced(old(libc.blocks), filled, source.alignLayout.size + PTR_SIZE, obj, source.obj, o);
        }
        DeallocBuffer(libc);
        ptr, obj := p, o;
      } else {
        CopyIn(libc, obj, ptr, data);
        TotalSizeDetermines(originLayout, reqs, alignLayout, source.originLayout, source.reqs, source.alignLayout);
        SameSpot(obj.raw, originLayout, source.originLayout, alignLayout);
        FrameHolds(old(libc.blocks), libc.blocks, source.obj);
      }
      alignLayout := source.alignLayout;
      originLayout := source.originLayout;
      reqs := source.reqs;
      return true;
    }

    /** Frees the block that the header names, which is the box's own. */
    method DeallocBuffer(libc: Libc)
      requires ptr >= PTR_SIZE && obj.ptr == ptr
      requires libc.broken || (WellFormed(libc.blocks) && Holds(libc.blocks, obj))
      modifies libc`blocks
      ensures !libc.broken ==> WellFormed(libc.blocks) && libc.blocks == old(libc.blocks) - {obj.raw}
    {
      hide WellFormed, Decode;
      Dealloc(libc, ptr, obj.raw);
      if !libc.broken { ReleaseFreesOwnBlock(old(libc.blocks), obj, libc.blocks); }
    }
  }

  /** `copy_nonoverlapping` of a whole value onto a live object of the same size. */
  method CopyIn(libc: Libc, ghost o: Object, ptr: nat, data: seq<Byte>)
    requires |data| > 0
    requires libc.broken ||
             (WellFormed(libc.blocks) && Holds(libc.blocks, o) && o.ptr == ptr && |data| == o.size)
    modifies libc
    ensures libc.broken == old(libc.broken)
    ensures !libc.broken ==>
              && WellFormed(libc.blocks) && Holds(libc.blocks, o) && Contents(libc.blocks, o) == data
              && libc.blocks.Keys == old(libc.blocks).Keys && |libc.blocks[o.raw]| == |old(libc.blocks)[o.raw]|
              && forall b | b in libc.blocks && b != o.raw :: libc.blocks[b] == old(libc.blocks)[b]
  {
    hide WellFormed, Written, Overwrite, Decode;
    libc.Store(ptr, data, o.raw);
    if !libc.broken { WriteInsideHolds(old(libc.blocks), libc.blocks, o, ptr, data); }
  }

  /** `alloc_with_pad_align_zeroed` followed by `copy_nonoverlapping`: a live copy of a whole value. */
  method AllocCopy(libc: Libc, l: Layout, p: Layout, data: seq<Byte>, ans: Answer) returns (ptr: nat)
    requires libc.Intact() && l.Valid() && p.Valid() && Sized(l, p) && |data| == l.size > 0
    requires MayAnswer(libc.blocks, p.size + PTR_SIZE, MALLOC_ALIGN, ans)
    modifies libc
    ensures ptr == 0 <==> ans.Refused?
    ensures ptr == 0 ==> libc.Intact() && libc.blocks == old(libc.blocks)
    ensures ptr != 0 ==> ptr == ObjectAt(ans.addr, l, p) >= PTR_SIZE
    ensures ptr != 0 ==> (libc.Intact() <==> HeaderInside(ans.addr, l, p)) && (libc.Intact() <==> !libc.broken)
    ensures ptr != 0 && libc.Intact() ==>
              var o := Object(ans.addr, ptr, l.size);
              && Extended(old(libc.blocks), libc.blocks, ans.addr, p.size + PTR_SIZE)
              && Holds(libc.blocks, o) && Contents(libc.blocks, o) == data
  {
    hide Contents, ObjectAt, WellFormed, MayAnswer, HeaderInside, Zeros, Written, Header, Holds;
    ObjectRange(libc.blocks, ans, l, p);
    ptr := AllocWithPadAlignIn(libc, true, l, p, ans);
    if ptr != 0 {
      CopyIn(libc, Object(ans.addr, ptr, l.size), ptr, data);
    }
  }

  /** The old block freed after the new one was filled: all other blocks stay, and so do the objects in them. */
  lemma Replaced(h: Blocks, filled: Blocks, n: nat, own: Object, theirs: Object, o: Object)
    requires Holds(h, own) && Holds(h, theirs) && own.raw != theirs.raw
    requires Extended(h, filled, o.raw, n) && Holds(filled, o)
    ensures Holds(filled, own)
    ensures var h' := filled - {own.raw};
            && Holds(h', theirs) && Contents(h', theirs) == Contents(h, theirs)
            && Holds(h', o) && Contents(h', o) == Contents(filled, o)
            && h'.Keys == h.Keys - {own.raw} + {o.raw} && o.raw !in h
            && forall b | b in h && b != own.raw :: b in h' && h'[b] == h[b]
  {
    hide Contents, Decode, Header;
    FrameHolds(h, filled, own);
    FrameHolds(h, filled - {own.raw}, theirs);
    FrameHolds(filled, filled - {own.raw}, o);
  }

  lemma HoldsInside(h: Blocks, o: Object)
    requires Holds(h, o)
    ensures o.raw in h && PTR_SIZE <= o.ptr
  {}

  lemma SameSpot(raw: nat, l: Layout, l': Layout, p: Layout)
    requires l.size == l'.size && 0 < p.align && l.size + p.align <= p.size
    ensures ObjectAt(raw, l, p) == ObjectAt(raw, l', p)
  {}

  lemma NotEmpty(l: Layout, reqs: seq<AlignReq>)
    requires Placeable(l, reqs)
    ensures reqs != [] && Effective(l, reqs) == reqs
  {}

  lemma OneAnswer(l: Layout, reqs: seq<AlignReq>, p: Layout, q: Layout)
    requires Accepted(l, reqs, p) && Accepted(l, reqs, q)
    ensures p == q && p.align > 0
  {
    var k := AcceptedIs(l, reqs, p);
    PadAlignedIs(l, reqs, k, q);
  }
}
