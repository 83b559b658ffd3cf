/** The aligned allocator over the C heap: allocation with a hidden header word, and deallocation through it. */
module AlignAlloc {
  import opened AlignBits
  import opened AlignLayout
  import opened Arithmetic
  import opened Bytes
  import opened LibcHeap
  import opened Placement
  import opened Wrappers

  /** A live allocation: where its malloc block starts, where the caller's bytes start, and how many there are. */
  datatype Object = Object(raw: nat, ptr: nat, size: nat)

  /** The object and the word before it lie inside the object's own block. */
  ghost predicate Placed(h: Blocks, o: Object) {
    o.raw in h && o.raw + PTR_SIZE <= o.ptr && 0 < o.size && o.ptr + o.size <= o.raw + |h[o.raw]|
  }

  ghost function Header(h: Blocks, o: Object): seq<Byte>
    requires Placed(h, o)
  {
    h[o.raw][o.ptr - PTR_SIZE - o.raw..o.ptr - o.raw]
  }

  ghost function Contents(h: Blocks, o: Object): seq<Byte>
    requires Placed(h, o)
  {
    h[o.raw][o.ptr - o.raw..o.ptr - o.raw + o.size]
  }

  ghost predicate Holds(h: Blocks, o: Object) {
    Placed(h, o) && Decode(Header(h, o)) == o.raw
  }

  /** h' is h with one fresh block, in which o is placed for the layouts l and p. */
  ghost predicate Allocated(h: Blocks, h': Blocks, zeroed: bool, l: Layout, p: Layout, o: Object)
    requires p.align > 0 && p.size >= p.align + l.size
  {
    && Extended(h, h', o.raw, p.size + PTR_SIZE)
    && o.ptr == ObjectAt(o.raw, l, p) && o.size == l.size
    && Holds(h', o)
    && (zeroed ==> Contents(h', o) == Zeros(o.size))
  }

  predicate Sized(l: Layout, p: Layout) {
    CheckLayout(l) && CheckLayout(p) && p.size >= l.size + p.align
  }

  /** The heap is left intact exactly when the header word lies inside the new block. */
  method AllocWithPadAlignIn(libc: Libc, zeroed: bool, l: Layout, p: Layout, ans: Answer) returns (ptr: nat)
    requires libc.Intact() && l.Valid() && p.Valid()
    requires Sized(l, p) ==> MayAnswer(libc.blocks, p.size + PTR_SIZE, MALLOC_ALIGN, ans)
    modifies libc
    ensures ptr == 0 <==> l.size == 0 || p.size < l.size + p.align || ans.Refused?
    ensures ptr == 0 ==> libc.Intact() && libc.blocks == old(libc.blocks)
    ensures ptr != 0 ==> ptr == ObjectAt(ans.addr, l, p)
    ensures ptr != 0 ==> (libc.Intact() <==> HeaderInside(ans.addr, l, p)) && (libc.Intact() <==> !libc.broken)
    ensures ptr != 0 && libc.Intact() ==>
              Allocated(old(libc.blocks), libc.blocks, zeroed, l, p, Object(ans.addr, ptr, l.size))
  {
    hide CheckLayout, IsPowerOfTwo, ObjectAt, Holds, Contents, Encode, Decode, Overwrite, WellFormed, RoundUp,
      Allocated, Zeros, Written, MayAnswer, HeaderInside;
    CheckLayoutIs(l);
    CheckLayoutIs(p);
    if !CheckLayout(l) {
      return 0;
    }
    if !CheckLayout(p) {
      return 0;
    }
    if p.size < l.size + p.align {
      return 0;
    }
    ObjectRange(libc.blocks, ans, l, p);
    var pad := p.size - p.align - l.size;
    var raw := libc.Allocate(p.size + PTR_SIZE, MALLOC_ALIGN, ans);
    if raw == 0 {
      return raw;
    }
    if zeroed {
      libc.Store(raw, Zeros(p.size), raw);
    }
    ghost var filled := libc.blocks[raw];
    ptr := MakeAlignedPtr(raw, p.align, pad);
    ObjectAtIs(raw, l, p);
    libc.Store(ptr - PTR_SIZE, Encode(raw, PTR_SIZE), raw);
    if libc.Intact() {
      BlockReady(old(libc.blocks), filled, libc.blocks, zeroed, l, p, ans);
    }
  }

  /** A granted block, filled as asked and given its header, is an allocation. */
  lemma BlockReady(h: Blocks, filled: seq<Byte>, h': Blocks, zeroed: bool, l: Layout, p: Layout, ans: Answer)
    requires p.align > 0 && p.size >= p.align + l.size && 0 < l.size && WellFormed(h)
    requires ans.Granted? && MayAnswer(h, p.size + PTR_SIZE, MALLOC_ALIGN, ans) && HeaderInside(ans.addr, l, p)
    requires ObjectAt(ans.addr, l, p) + l.size <= ans.addr + p.size
    requires |filled| == p.size + PTR_SIZE && (zeroed ==> filled == Overwrite(ans.bytes, 0, Zeros(p.size)))
    requires h' == h[ans.addr := Overwrite(filled, ObjectAt(ans.addr, l, p) - PTR_SIZE - ans.addr,
                                           Encode(ans.addr, PTR_SIZE))]
    ensures Allocated(h, h', zeroed, l, p, Object(ans.addr, ObjectAt(ans.addr, l, p), l.size))
  {
    hide ObjectAt, Holds, Contents, Encode, Decode, Overwrite;
    var o := Object(ans.addr, ObjectAt(ans.addr, l, p), l.size);
    HeaderWritten(h', o, filled);
    if zeroed { ZeroedContents(ans.bytes, p.size, o.ptr - o.raw, o.size); }
  }

  lemma ZeroedContents(b: seq<Byte>, n: nat, i: nat, k: nat)
    requires i + k <= n <= |b|
    ensures Overwrite(b, 0, Zeros(n))[i..i + k] == Zeros(k)
  {}

  lemma ObjectAtIs(raw: nat, l: Layout, p: Layout)
    requires p.align > 0 && p.size >= p.align + l.size
    ensures ObjectAt(raw, l, p) == MakeAlignedPtr(raw, p.align, p.size - p.align - l.size)
  {}

  lemma ObjectRange(h: Blocks, ans: Answer, l: Layout, p: Layout)
    requires l.Valid() && p.Valid() && Sized(l, p)
    requires MayAnswer(h, p.size + PTR_SIZE, MALLOC_ALIGN, ans)
    ensures 0 < p.align && 0 < l.size
    ensures ans.Granted? ==>
              && |ans.bytes| == p.size + PTR_SIZE && PTR_SIZE <= ans.addr <= ObjectAt(ans.addr, l, p)
              && ObjectAt(ans.addr, l, p) + l.size <= ans.addr + p.size
              && (InBlock(h[ans.addr := ans.bytes], ans.addr, ObjectAt(ans.addr, l, p) - PTR_SIZE, PTR_SIZE) <==>
                  HeaderInside(ans.addr, l, p))
  {}

  /** Writing the raw address before the object makes the object hold, and leaves its bytes alone. */
  lemma HeaderWritten(h: Blocks, o: Object, b: seq<Byte>)
    requires Placed(h, o) && o.raw < ADDRESS_SPACE && |b| == |h[o.raw]|
    requires h[o.raw] == Overwrite(b, o.ptr - PTR_SIZE - o.raw, Encode(o.raw, PTR_SIZE))
    ensures Holds(h, o)
    ensures Contents(h, o) == b[o.ptr - o.raw..o.ptr - o.raw + o.size]
  {
    hide Overwrite, Encode, Decode;
    var at, word := o.ptr - PTR_SIZE - o.raw, Encode(o.raw, PTR_SIZE);
    WordBounds();
    DecodeEncode(o.raw, PTR_SIZE);
    Overwritten(b, at, word);
    KeptBeyond(b, at, word, o.ptr - o.raw, o.ptr - o.raw + o.size);
    assert Header(h, o) == word;
  }

  /** What `dealloc(ptr)` does: read a word before ptr and free the block that word names. */
  ghost predicate Released(h: Blocks, h': Blocks, ptr: nat) {
    exists r :: HasHeader(h, ptr, r) && h' == h - {Named(h, ptr, r)}
  }

  /** The word before ptr lies in block r. */
  predicate HasHeader(h: Blocks, ptr: nat, r: nat) {
    ptr >= PTR_SIZE && InBlock(h, r, ptr - PTR_SIZE, PTR_SIZE)
  }

  /** The address that the word before ptr holds. */
  function Named(h: Blocks, ptr: nat, r: nat): nat
    requires HasHeader(h, ptr, r)
  {
    Decode(h[r][ptr - PTR_SIZE - r..ptr - r])
  }

  method Dealloc(libc: Libc, ptr: nat, ghost r: nat)
    requires ptr >= PTR_SIZE
    requires libc.broken ||
             (WellFormed(libc.blocks) && HasHeader(libc.blocks, ptr, r) && Named(libc.blocks, ptr, r) in libc.blocks)
    modifies libc`blocks
    ensures !libc.broken ==> WellFormed(libc.blocks) && Released(old(libc.blocks), libc.blocks, ptr)
  {
    hide Decode, WellFormed;
    var word := libc.Load(ptr - PTR_SIZE, PTR_SIZE, r);
    libc.Free(Decode(word));
  }

  lemma FrameHolds(h: Blocks, h': Blocks, o: Object)
    requires Holds(h, o) && o.raw in h' && h'[o.raw] == h[o.raw]
    ensures Holds(h', o) && Contents(h', o) == Contents(h, o)
  {}

  lemma WriteInsideHolds(h: Blocks, h': Blocks, o: Object, at: nat, data: seq<Byte>)
    requires Holds(h, o) && o.ptr <= at && at + |data| <= o.ptr + o.size
    requires h' == h[o.raw := Overwrite(h[o.raw], at - o.raw, data)]
    ensures Holds(h', o) && Contents(h', o) == Overwrite(Contents(h, o), at - o.ptr, data)
  {
    hide Decode;
    assert Header(h', o) == Header(h, o);
  }

  function Effective(l: Layout, reqs: seq<AlignReq>): seq<AlignReq> {
    if reqs == [] then WholeRequest(l) else reqs
  }

  /** An empty list stands for every byte of the object. */
  lemma EffectiveRequested(l: Layout, reqs: seq<AlignReq>, x: nat)
    ensures Requested(Effective(l, reqs), x) <==> Requested(reqs, x) || (reqs == [] && x < l.size)
  {
    if reqs == [] { WholeRequested(l, x); }
  }

  lemma AcceptedSized(l: Layout, reqs: seq<AlignReq>, p: Layout)
    requires Accepted(l, reqs, p)
    ensures l.Valid() && p.Valid() && Sized(l, p)
  {
    var k := AcceptedIs(l, reqs, p);
  }

  /** malloc's answer is one it may give once the request list has been checked. */
  ghost predicate MayServe(h: Blocks, l: Layout, reqs: seq<AlignReq>, scratch: Answer, ans: Answer) {
    forall h', p | Checked(h, h', l, reqs, scratch) && Accepted(l, reqs, p) ::
      MayAnswer(h', p.size + PTR_SIZE, MALLOC_ALIGN, ans)
  }

  lemma ServeWith(h: Blocks, h': Blocks, l: Layout, reqs: seq<AlignReq>, scratch: Answer, ans: Answer, p: Layout)
    requires MayServe(h, l, reqs, scratch, ans) && Checked(h, h', l, reqs, scratch) && Accepted(l, reqs, p)
    ensures p.Valid() && Sized(l, p) && MayAnswer(h', p.size + PTR_SIZE, MALLOC_ALIGN, ans)
  {
    hide Accepted, MayAnswer, Checked;
    AcceptedSized(l, reqs, p);
  }

  lemma WholeIsSafe(h: Blocks, l: Layout, p: Layout, ans: Answer)
    requires Accepted(l, WholeRequest(l), p) && p.size >= p.align + l.size && p.align > 0
    requires ans.Granted? && MayAnswer(h, p.size + PTR_SIZE, MALLOC_ALIGN, ans)
    ensures l.size + l.align > 4 ==> HeaderInside(ans.addr, l, p)
  {
    hide Accepted, HeaderInside;
    WholeHeaderInsideIff(l, p);
    assert MallocAddress(ans.addr);
  }

  /** The whole object and its pad share one cache line. */
  predicate WholeFitsLine(l: Layout) {
    l.size >= 1 && l.size + (if l.align <= 8 then 8 else l.align) <= 64
  }

  lemma WholePlaceable(l: Layout)
    requires l.Valid()
    ensures Placeable(l, Effective(l, [])) <==> WholeFitsLine(l)
  {
    hide Placeable, Layout.Valid;
    WholePlaceableIff(l);
  }

  lemma KeepsOff(l: Layout, reqs: seq<AlignReq>, p: Layout, raw: nat, ptr: nat)
    requires Accepted(l, Effective(l, reqs), p) && p.align > 0 && p.size >= p.align + l.size
    requires ptr == ObjectAt(raw, l, p)
    ensures forall x: nat | Requested(reqs, x) :: !Forbidden(ptr + x)
    ensures reqs == [] ==> forall a: nat | ptr <= a < ptr + l.size :: !Forbidden(a)
  {
    hide Accepted, Requested, Forbidden, ObjectAt, Effective;
    forall x: nat | Requested(reqs, x)
      ensures !Forbidden(ptr + x)
    {
      EffectiveRequested(l, reqs, x);
      NoRequestedByteForbidden(l, Effective(l, reqs), p, raw, x);
    }
    forall a: nat | reqs == [] && ptr <= a < ptr + l.size
      ensures !Forbidden(a)
    {
      EffectiveRequested(l, reqs, a - ptr);
      NoRequestedByteForbidden(l, Effective(l, reqs), p, raw, a - ptr);
    }
  }

  lemma UncheckedLeaves(h: Blocks, l: Layout, reqs: seq<AlignReq>, scratch: Answer)
    requires !CheckLayout(l)
    ensures Checked(h, h, l, reqs, scratch)
  {}

  /** `checked` is the heap between the check of the request list and the allocation itself. */
  method AllocWithReq(libc: Libc, zeroed: bool, l: Layout, reqs: seq<AlignReq>, scratch: Answer, ans: Answer)
      returns (ptr: nat, ghost p: Layout, ghost checked: Blocks)
    requires libc.Intact() && l.Valid() && MayCheck(libc.blocks, l, scratch)
    requires MayServe(libc.blocks, l, Effective(l, reqs), scratch, ans)
    modifies libc
    ensures reqs == [] ==> (ptr != 0 <==> scratch.Granted? && ans.Granted? && WholeFitsLine(l))
    ensures reqs != [] ==> (ptr != 0 <==> scratch.Granted? && ans.Granted? && Placeable(l, reqs))
    ensures Checked(old(libc.blocks), checked, l, Effective(l, reqs), scratch)
    ensures ptr == 0 ==> libc.Intact() && libc.blocks == checked
    ensures ptr != 0 ==> Accepted(l, Effective(l, reqs), p) && Sized(l, p) && ptr == ObjectAt(ans.addr, l, p)
    ensures ptr != 0 ==> (libc.Intact() <==> HeaderInside(ans.addr, l, p))
    ensures Effective(l, reqs) == WholeRequest(l) && l.size + l.align > 4 ==> libc.Intact()
    ensures ptr != 0 && libc.Intact() ==>
              Allocated(checked, libc.blocks, zeroed, l, p, Object(ans.addr, ptr, l.size))
    ensures ptr != 0 ==> forall x: nat | Requested(reqs, x) :: !Forbidden(ptr + x)
    ensures ptr != 0 && reqs == [] ==> forall a: nat | ptr <= a < ptr + l.size :: !Forbidden(a)
  {
    hide Accepted, Placeable, Allocated, MayServe, MayCheck, MayAnswer, HeaderInside, ObjectAt, WellFormed, Requested,
      Forbidden, Checked, CheckLayout, WholeFitsLine;
    ptr, p, checked := 0, l, libc.blocks;
    WholePlaceable(l);
    if !CheckLayout(l) {
      NotPlaceable(l, Effective(l, reqs));
      UncheckedLeaves(checked, l, Effective(l, reqs), scratch);
      return;
    }
    var r: Option<Layout>;
    if reqs == [] {
      r := PadAlignTo(libc, l, WholeRequest(l), scratch);
    } else {
      r := PadAlignTo(libc, l, reqs, scratch);
    }
    checked := libc.blocks;
    match r
    case None =>
    case Some(q) =>
      p := q;
      ServeWith(old(libc.blocks), checked, l, Effective(l, reqs), scratch, ans, p);
      ptr := AllocWithPadAlignIn(libc, zeroed, l, q, ans);
      if ptr != 0 && Effective(l, reqs) == WholeRequest(l) { WholeIsSafe(checked, l, p, ans); }
      if ptr != 0 { KeepsOff(l, reqs, p, ans.addr, ptr); }
  }
}
