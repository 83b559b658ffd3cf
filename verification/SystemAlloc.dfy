/** The system allocator: `GlobalAlloc` and `Allocator` over libc. */
module SystemAlloc {
  import opened AlignLayout
  import opened Arithmetic
  import opened Bytes
  import opened LibcHeap
  import opened Wrappers

  const MIN_ALIGN: nat := 16

  /** The layouts that malloc, calloc and realloc serve; the others go to memalign. */
  predicate Plain(align: nat, size: nat) {
    align <= MIN_ALIGN && align <= size
  }

  ghost predicate MayGive(h: Blocks, l: Layout, ans: Answer)
    requires l.align > 0
  {
    MayAnswer(h, l.size, if l.align <= 16 && l.align <= l.size then MALLOC_ALIGN else l.align, ans)
  }

  /** h' is h with one new block at p, fit for l. */
  ghost predicate NewBlock(h: Blocks, h': Blocks, l: Layout, p: nat)
    requires l.align > 0
  {
    && WellFormed(h') && p != 0 && p !in h && p in h' && h' == h[p := h'[p]]
    && |h'[p]| == l.size && p % l.align == 0
  }

  /** h' is h with the block p given up for one at q, fit for l; q may be p again. */
  ghost predicate Moved(h: Blocks, h': Blocks, p: nat, l: Layout, q: nat)
    requires l.align > 0
  {
    p in h && NewBlock(h - {p}, h', l, q)
  }

  lemma PlainAligned(l: Layout, p: nat)
    requires l.Valid() && Plain(l.align, l.size) && p % MALLOC_ALIGN == 0
    ensures p % l.align == 0
  {
    assert IsPowerOfTwo(16) by { assert IsPowerOfTwo(4); }
    PowersDivide(l.align, 16);
    MultipleOfMultiple(p, 16, l.align);
  }

  /** malloc, calloc and realloc align to 16 bytes, whatever was asked for. */
  ghost predicate WellAligned(l: Layout, p: nat) {
    l.align <= 16 && l.align <= l.size ==> p % 16 == 0
  }

  // ---- GlobalAlloc ----

  method Alloc(libc: Libc, l: Layout, ans: Answer) returns (p: nat)
    requires libc.Intact() && l.Valid() && l.align > 0 && l.size > 0 && MayGive(libc.blocks, l, ans)
    modifies libc
    ensures libc.Intact()
    ensures p == 0 <==> ans.Refused?
    ensures p == 0 ==> libc.blocks == old(libc.blocks)
    ensures p != 0 ==> NewBlock(old(libc.blocks), libc.blocks, l, p) && WellAligned(l, p)
  {
    hide Layout.Valid, IsPowerOfTwo;
    if Plain(l.align, l.size) {
      p := libc.Allocate(l.size, MALLOC_ALIGN, ans);
      if p != 0 { PlainAligned(l, p); }
    } else {
      p := libc.Allocate(l.size, l.align, ans);
    }
  }

  method AllocZeroed(libc: Libc, l: Layout, ans: Answer) returns (p: nat)
    requires libc.Intact() && l.Valid() && l.align > 0 && l.size > 0 && MayGive(libc.blocks, l, ans)
    modifies libc
    ensures libc.Intact()
    ensures p == 0 <==> ans.Refused?
    ensures p == 0 ==> libc.blocks == old(libc.blocks)
    ensures p != 0 ==> NewBlock(old(libc.blocks), libc.blocks, l, p) && libc.blocks[p] == Zeros(l.size)
    ensures p != 0 ==> WellAligned(l, p)
  {
    hide Layout.Valid, IsPowerOfTwo;
    if Plain(l.align, l.size) {
      p := libc.Calloc(l.size, ans);
      if p != 0 { PlainAligned(l, p); }
    } else {
      p := Alloc(libc, l, ans);
      if p != 0 {
        libc.Store(p, Zeros(l.size), p);
      }
    }
  }

  method Dealloc(libc: Libc, p: nat)
    requires libc.Intact() && p in libc.blocks
    modifies libc
    ensures libc.Intact() && libc.blocks == old(libc.blocks) - {p}
  {
    libc.Free(p);
  }

  /** `copy_nonoverlapping` of the first n bytes of one block onto another. */
  method Copy(libc: Libc, p: nat, q: nat, n: nat)
    requires libc.Intact() && p in libc.blocks && q in libc.blocks && p != q
    requires 0 < n <= |libc.blocks[p]| && n <= |libc.blocks[q]|
    modifies libc
    ensures libc.Intact()
    ensures libc.blocks == old(libc.blocks)[q := old(libc.blocks)[p][..n] + old(libc.blocks)[q][n..]]
  {
    hide WellFormed, Written, Overwrite;
    var data := libc.Load(p, n, p);
    libc.Store(q, data, q);
    assert Overwrite(old(libc.blocks)[q], 0, data) == data + old(libc.blocks)[q][n..];
  }

  function Min(a: nat, b: nat): nat {
    if a < b then a else b
  }

  /** Which answers libc may give when a block is resized in `GlobalAlloc::realloc`. */
  ghost predicate MayResize(h: Blocks, p: nat, old_l: Layout, size: nat, ans: Answer)
    requires p in h && old_l.align > 0
  {
    if old_l.align <= 16 && old_l.align <= size then MayReallocate(h, p, size, ans)
    else MayGive(h, Layout(size, old_l.align), ans)
  }

  /** The block p was resized into q: the bytes that fit are kept. */
  ghost predicate Resized(h: Blocks, h': Blocks, p: nat, l: Layout, q: nat)
    requires l.align > 0
  {
    Moved(h, h', p, l, q) && h'[q][..Min(|h[p]|, l.size)] == h[p][..Min(|h[p]|, l.size)]
  }

  method Realloc(libc: Libc, p: nat, old_l: Layout, size: nat, ans: Answer) returns (q: nat)
    requires libc.Intact() && p in libc.blocks && |libc.blocks[p]| == old_l.size
    requires old_l.Valid() && old_l.align > 0 && size > 0 && Layout(size, old_l.align).Valid()
    requires MayResize(libc.blocks, p, old_l, size, ans)
    modifies libc
    ensures libc.Intact()
    ensures q == 0 <==> ans.Refused?
    ensures q == 0 ==> libc.blocks == old(libc.blocks)
    ensures q != 0 ==> Resized(old(libc.blocks), libc.blocks, p, Layout(size, old_l.align), q)
    ensures q != 0 ==> WellAligned(Layout(size, old_l.align), q)
  {
    hide Layout.Valid, IsPowerOfTwo;
    if Plain(old_l.align, size) {
      q := libc.Realloc(p, size, ans);
      if q != 0 { PlainAligned(Layout(size, old_l.align), q); }
    } else {
      q := ReallocFallback(libc, p, old_l, size, ans);
    }
  }

  method ReallocFallback(libc: Libc, p: nat, old_l: Layout, size: nat, ans: Answer) returns (q: nat)
    requires libc.Intact() && p in libc.blocks && |libc.blocks[p]| == old_l.size
    requires old_l.align > 0 && size > 0 && Layout(size, old_l.align).Valid()
    requires MayGive(libc.blocks, Layout(size, old_l.align), ans)
    modifies libc
    ensures libc.Intact()
    ensures q == 0 <==> ans.Refused?
    ensures q == 0 ==> libc.blocks == old(libc.blocks)
    ensures q != 0 ==> Resized(old(libc.blocks), libc.blocks, p, Layout(size, old_l.align), q)
    ensures q != 0 ==> WellAligned(Layout(size, old_l.align), q)
  {
    hide Layout.Valid, IsPowerOfTwo;
    var l := Layout(size, old_l.align);
    q := Alloc(libc, l, ans);
    if q != 0 {
      CopyAndFree(libc, old(libc.blocks), p, l, q, Min(old_l.size, size));
    }
  }

  /** Moves the first n bytes of the old block into the new one and frees the old one. */
  method CopyAndFree(libc: Libc, ghost before: Blocks, p: nat, l: Layout, q: nat, n: nat)
    requires libc.Intact() && l.align > 0
    requires p in before && WellFormed(before) && NewBlock(before, libc.blocks, l, q)
    requires 0 < n <= |before[p]| && n <= l.size
    modifies libc
    ensures libc.Intact() && Moved(before, libc.blocks, p, l, q)
    ensures libc.blocks[q][..n] == before[p][..n] && libc.blocks[q][n..] == old(libc.blocks)[q][n..]
  {
    hide WellFormed;
    Copy(libc, p, q, n);
    assert libc.blocks[q] == before[p][..n] + old(libc.blocks)[q][n..];
    Dealloc(libc, p);
    assert libc.blocks == (before - {p})[q := libc.blocks[q]];
  }

  // ---- Allocator ----

  method AllocImpl(libc: Libc, l: Layout, zeroed: bool, ans: Answer) returns (r: Option<nat>)
    requires libc.Intact() && l.Valid() && l.align > 0 && (l.size > 0 ==> MayGive(libc.blocks, l, ans))
    modifies libc
    ensures libc.Intact() && Allocated(old(libc.blocks), libc.blocks, l, zeroed, r)
    ensures r.None? <==> l.size > 0 && ans.Refused?
    ensures r.Some? && l.size > 0 ==> WellAligned(l, r.value)
  {
    hide Layout.Valid, IsPowerOfTwo, MayGive, WellFormed;
    if l.size == 0 {
      ModIs(l.align, l.align, 1, 0);
      return Some(l.align);
    }
    var raw;
    if zeroed {
      raw := AllocZeroed(libc, l, ans);
    } else {
      raw := Alloc(libc, l, ans);
    }
    return if raw == 0 then None else Some(raw);
  }

  method Deallocate(libc: Libc, p: nat, l: Layout)
    requires libc.Intact() && (l.size != 0 ==> p in libc.blocks)
    modifies libc
    ensures libc.Intact() && Deallocated(old(libc.blocks), libc.blocks, p, l)
  {
    if l.size != 0 {
      Dealloc(libc, p);
    }
  }

  /** What `allocate` and `allocate_zeroed` promise; the address of an empty allocation is never used. */
  ghost predicate Allocated(h: Blocks, h': Blocks, l: Layout, zeroed: bool, r: Option<nat>)
    requires l.align > 0
  {
    match r
    case None => h' == h
    case Some(p) =>
      p % l.align == 0
      && if l.size == 0 then h' == h
         else NewBlock(h, h', l, p) && (zeroed ==> h'[p] == Zeros(l.size))
  }

  ghost predicate Deallocated(h: Blocks, h': Blocks, p: nat, l: Layout) {
    h' == if l.size == 0 then h else h - {p}
  }

  /** What `grow` and `grow_zeroed` promise: the old bytes are kept, and on failure the heap is untouched. */
  ghost predicate Grown(h: Blocks, h': Blocks, p: nat, l: Layout, l': Layout, zeroed: bool, r: Option<nat>)
    requires l'.align > 0
  {
    if l.size == 0 then Allocated(h, h', l', zeroed, r)
    else
      match r
      case None => h' == h
      case Some(q) =>
        && Moved(h, h', p, l', q) && l.size <= l'.size && |h[p]| == l.size
        && h'[q][..l.size] == h[p]
        && (zeroed ==> h'[q][l.size..] == Zeros(l'.size - l.size))
  }

  /** What `shrink` promises: the first bytes are kept, and on failure the heap is untouched. */
  ghost predicate Shrunk(h: Blocks, h': Blocks, p: nat, l: Layout, l': Layout, r: Option<nat>)
    requires l'.align > 0
  {
    if l'.size == 0 then r == Some(l'.align) && Deallocated(h, h', p, l)
    else
      match r
      case None => h' == h
      case Some(q) => Moved(h, h', p, l', q) && l'.size <= |h[p]| && h'[q] == h[p][..l'.size]
  }

  /** Which answers libc may give to the one request that `grow` or `shrink` makes. */
  ghost predicate MayAdjust(h: Blocks, p: nat, l: Layout, l': Layout, ans: Answer)
    requires l.align > 0 && l'.align > 0
  {
    if l.size > 0 && l.align == l'.align then p in h && MayResize(h, p, l, l'.size, ans) else MayGive(h, l', ans)
  }

  method GrowImpl(libc: Libc, p: nat, l: Layout, l': Layout, zeroed: bool, ans: Answer) returns (r: Option<nat>)
    requires libc.Intact() && l.Valid() && l'.Valid() && l.align > 0 && l'.align > 0
    requires l'.size >= l.size && (l.size > 0 ==> p in libc.blocks && |libc.blocks[p]| == l.size)
    requires l'.size > 0 ==> MayAdjust(libc.blocks, p, l, l', ans)
    modifies libc
    ensures libc.Intact() && Grown(old(libc.blocks), libc.blocks, p, l, l', zeroed, r)
    ensures r.None? <==> l'.size > 0 && ans.Refused?
    ensures r.Some? && l'.size > 0 ==> WellAligned(l', r.value)
  {
    hide Layout.Valid, IsPowerOfTwo, MayGive, WellFormed, MayResize, Zeros, Overwrite, Written, Moved, Resized;
    if l.size == 0 {
      r := AllocImpl(libc, l', zeroed, ans);
    } else if l.align == l'.align {
      var raw := Realloc(libc, p, l, l'.size, ans);
      if raw == 0 {
        return None;
      }
      ghost var resized := libc.blocks;
      ResizedBlock(old(libc.blocks), resized, p, l', raw);
      if zeroed && l.size < l'.size {
        libc.Store(raw + l.size, Zeros(l'.size - l.size), raw);
      }
      GrownInPlace(old(libc.blocks), resized, libc.blocks, p, l, l', zeroed, raw);
      r := Some(raw);
    } else {
      r := AllocImpl(libc, l', zeroed, ans);
      if r.None? {
        return;
      }
      ghost var taken := libc.blocks;
      CopyAndFree(libc, old(libc.blocks), p, l', r.value, l.size);
      GrownByCopy(old(libc.blocks), taken, libc.blocks, p, l, l', zeroed, r.value);
    }
  }

  lemma ResizedBlock(h: Blocks, h': Blocks, p: nat, l: Layout, q: nat)
    requires l.align > 0 && Resized(h, h', p, l, q)
    ensures q in h' && |h'[q]| == l.size
  {}

  lemma GrownInPlace(h: Blocks, h1: Blocks, h2: Blocks, p: nat, l: Layout, l': Layout, zeroed: bool, q: nat)
    requires l'.align > 0 && 0 < l.size <= l'.size && p in h && |h[p]| == l.size
    requires Resized(h, h1, p, l', q) && q in h1 && |h1[q]| == l'.size && WellFormed(h2)
    requires h2 == if zeroed && l.size < l'.size then h1[q := Overwrite(h1[q], l.size, Zeros(l'.size - l.size))] else h1
    ensures Grown(h, h2, p, l, l', zeroed, Some(q))
  {
    hide WellFormed, Overwrite, Zeros;
    if zeroed && l.size < l'.size {
      assert h2[q][..l.size] == h1[q][..l.size];
      assert h2[q][l.size..] == Zeros(l'.size - l.size);
    }
  }

  lemma GrownByCopy(h: Blocks, h1: Blocks, h2: Blocks, p: nat, l: Layout, l': Layout, zeroed: bool, q: nat)
    requires l'.align > 0 && 0 < l.size <= l'.size && p in h && |h[p]| == l.size
    requires q in h1 && |h1[q]| == l'.size && (zeroed ==> h1[q] == Zeros(l'.size))
    requires Moved(h, h2, p, l', q) && h2[q][..l.size] == h[p][..l.size] && h2[q][l.size..] == h1[q][l.size..]
    ensures Grown(h, h2, p, l, l', zeroed, Some(q))
  {
    hide WellFormed, Zeros;
    if zeroed {
      assert h1[q][l.size..] == Zeros(l'.size - l.size);
    }
  }

  method Shrink(libc: Libc, p: nat, l: Layout, l': Layout, ans: Answer) returns (r: Option<nat>)
    requires libc.Intact() && l.Valid() && l'.Valid() && l.align > 0 && l'.align > 0
    requires l'.size <= l.size && (l.size > 0 ==> p in libc.blocks && |libc.blocks[p]| == l.size)
    requires l'.size > 0 ==> MayAdjust(libc.blocks, p, l, l', ans)
    modifies libc
    ensures libc.Intact() && Shrunk(old(libc.blocks), libc.blocks, p, l, l', r)
    ensures r.None? <==> l'.size > 0 && ans.Refused?
    ensures r.Some? && l'.size > 0 ==> WellAligned(l', r.value)
  {
    hide Layout.Valid, IsPowerOfTwo, MayGive, WellFormed, MayResize;
    if l'.size == 0 {
      Deallocate(libc, p, l);
      return Some(l'.align);
    } else if l.align == l'.align {
      var raw := Realloc(libc, p, l, l'.size, ans);
      if raw == 0 {
        return None;
      }
      r := Some(raw);
    } else {
      r := AllocImpl(libc, l', false, ans);
      if r.None? {
        return;
      }
      CopyAndFree(libc, old(libc.blocks), p, l', r.value, l'.size);
    }
  }
}
