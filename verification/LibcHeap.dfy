/** The C heap under both allocators: live blocks by start address, with libc's choices as arguments. */
module LibcHeap {
  import opened Bytes

  const ADDRESS_SPACE: nat := 0x1_0000_0000_0000_0000
  const MALLOC_ALIGN: nat := 16

  /** An address that malloc may answer. */
  predicate MallocAddress(a: nat) {
    0 < a && a % MALLOC_ALIGN == 0
  }

  type Blocks = map<nat, seq<Byte>>

  /** Whether the n bytes at a lie inside the live block r. */
  predicate InBlock(h: Blocks, r: nat, a: nat, n: nat) {
    r in h && r <= a && a + n <= r + |h[r]|
  }

  predicate Apart(a: nat, n: nat, b: nat, m: nat) {
    a + n <= b || b + m <= a
  }

  ghost predicate WellFormed(h: Blocks) {
    && (forall r | r in h :: 0 < r && 0 < |h[r]| && r + |h[r]| <= ADDRESS_SPACE)
    && (forall r, s | r in h && s in h && r != s :: Apart(r, |h[r]|, s, |h[s]|))
  }

  lemma OwnerUnique(h: Blocks, r: nat, s: nat, a: nat, n: nat)
    requires WellFormed(h) && n > 0 && InBlock(h, r, a, n) && InBlock(h, s, a, n)
    ensures r == s
  {}

  /** libc's answer to a request for memory; a fresh block comes with whatever bytes were there. */
  datatype Answer = Refused | Granted(addr: nat, bytes: seq<Byte>)

  ghost predicate MayAnswer(h: Blocks, size: nat, align: nat, ans: Answer)
    requires align > 0
  {
    ans.Granted? ==>
      && 0 < ans.addr && ans.addr % align == 0
      && |ans.bytes| == size && ans.addr + size <= ADDRESS_SPACE
      && forall r | r in h :: Apart(ans.addr, size, r, |h[r]|)
  }

  /** realloc may answer from the heap without the old block, keeping the bytes that fit. */
  ghost predicate MayReallocate(h: Blocks, p: nat, size: nat, ans: Answer)
    requires p in h
  {
    MayAnswer(h - {p}, size, MALLOC_ALIGN, ans)
    && (ans.Granted? ==> var kept := if |h[p]| < size then |h[p]| else size; ans.bytes[..kept] == h[p][..kept])
  }

  lemma AddKeepsWellFormed(h: Blocks, size: nat, align: nat, ans: Answer)
    requires WellFormed(h) && size > 0 && align > 0 && ans.Granted? && MayAnswer(h, size, align, ans)
    ensures ans.addr !in h && WellFormed(h[ans.addr := ans.bytes])
  {}

  lemma OverwriteKeepsWellFormed(h: Blocks, r: nat, bytes: seq<Byte>)
    requires WellFormed(h) && r in h && |bytes| == |h[r]|
    ensures WellFormed(h[r := bytes])
  {}

  lemma RemoveKeepsWellFormed(h: Blocks, p: nat)
    requires WellFormed(h)
    ensures WellFormed(h - {p})
  {}

  /** A write at an absolute address, as the hardware performs it: in whichever block holds the address. */
  ghost predicate Written(h: Blocks, h': Blocks, at: nat, data: seq<Byte>) {
    exists r :: InBlock(h, r, at, |data|) && h' == h[r := Overwrite(h[r], at - r, data)]
  }

  /** h' is h with one fresh block of n bytes at a. */
  ghost predicate Extended(h: Blocks, h': Blocks, a: nat, n: nat) {
    && a !in h && h'.Keys == h.Keys + {a} && (forall r | r in h :: h'[r] == h[r])
    && 0 < a && |h'[a]| == n && a + n <= ADDRESS_SPACE
    && forall r | r in h :: Apart(a, n, r, |h[r]|)
  }

  lemma ExtendedKeepsWellFormed(h: Blocks, h': Blocks, a: nat, n: nat)
    requires WellFormed(h) && 0 < n && Extended(h, h', a, n)
    ensures WellFormed(h')
  {}

  /**
   * The heap as the program sees it. `broken` says that a store has gone outside the block its address came from:
   * from then on the behaviour is undefined, and nothing is known about the blocks.
   */
  class Libc {
    var blocks: Blocks
    ghost var broken: bool

    ghost predicate Intact()
      reads this
    {
      !broken && WellFormed(blocks)
    }

    constructor ()
      ensures Intact() && blocks == map[]
    {
      blocks, broken := map[], false;
    }

    /** malloc, calloc and memalign differ in the alignment libc promises and in the bytes it hands over. */
    method Allocate(size: nat, ghost align: nat, ans: Answer) returns (p: nat)
      requires Intact() && size > 0 && align > 0 && MayAnswer(blocks, size, align, ans)
      modifies `blocks
      ensures Intact()
      ensures ans.Refused? ==> p == 0 && blocks == old(blocks)
      ensures ans.Granted? ==> p == ans.addr != 0 && p !in old(blocks) && blocks == old(blocks)[p := ans.bytes]
    {
      match ans
      case Refused =>
        p := 0;
      case Granted(addr, bytes) =>
        AddKeepsWellFormed(blocks, size, align, ans);
        p := addr;
        blocks := blocks[addr := bytes];
    }

    /** calloc: a fresh block of zeros. */
    method Calloc(size: nat, ans: Answer) returns (p: nat)
      requires Intact() && size > 0 && MayAnswer(blocks, size, MALLOC_ALIGN, ans)
      modifies `blocks
      ensures Intact()
      ensures ans.Refused? ==> p == 0 && blocks == old(blocks)
      ensures ans.Granted? ==> p == ans.addr != 0 && p !in old(blocks) && blocks == old(blocks)[p := Zeros(size)]
    {
      match ans
      case Refused =>
        p := 0;
      case Granted(addr, bytes) =>
        p := Allocate(size, MALLOC_ALIGN, Granted(addr, Zeros(size)));
    }

    /** realloc: on success the old block gave way to one that starts with its bytes; on failure nothing changed. */
    method Realloc(p: nat, size: nat, ans: Answer) returns (q: nat)
      requires Intact() && p in blocks && size > 0 && MayReallocate(blocks, p, size, ans)
      modifies `blocks
      ensures Intact()
      ensures ans.Refused? ==> q == 0 && blocks == old(blocks)
      ensures ans.Granted? ==> q == ans.addr != 0 && q !in old(blocks) - {p}
      ensures ans.Granted? ==> blocks == (old(blocks) - {p})[q := ans.bytes]
    {
      match ans
      case Refused =>
        q := 0;
      case Granted(addr, bytes) =>
        Free(p);
        q := Allocate(size, MALLOC_ALIGN, ans);
    }

    method Free(p: nat)
      requires broken || (WellFormed(blocks) && p in blocks)
      modifies `blocks
      ensures !broken ==> WellFormed(blocks) && blocks == old(blocks) - {p}
    {
      blocks := blocks - {p};
    }

    /** A write of `data` at an absolute address that was computed from the start of block r. */
    method Store(a: nat, data: seq<Byte>, ghost r: nat)
      requires |data| > 0 && (broken || WellFormed(blocks))
      modifies this
      ensures broken == (old(broken) || !InBlock(old(blocks), r, a, |data|))
      ensures !broken ==> WellFormed(blocks) && Written(old(blocks), blocks, a, data)
      ensures !broken ==> blocks == old(blocks)[r := Overwrite(old(blocks)[r], a - r, data)]
    {
      ghost var inside := InBlock(blocks, r, a, |data|);
      if owner :| owner in blocks && owner <= a && a + |data| <= owner + |blocks[owner]| {
        if !broken && inside { OwnerUnique(blocks, r, owner, a, |data|); }
        blocks := blocks[owner := Overwrite(blocks[owner], a - owner, data)];
      }
      broken := broken || !inside;
    }

    /** A read of n bytes at an absolute address. */
    method Load(a: nat, n: nat, ghost r: nat) returns (data: seq<Byte>)
      requires broken || (WellFormed(blocks) && n > 0 && InBlock(blocks, r, a, n))
      ensures |data| == n
      ensures !broken ==> data == blocks[r][a - r..a - r + n]
    {
      data := Zeros(n);
      if owner :| owner in blocks && owner <= a && a + n <= owner + |blocks[owner]| {
        if !broken { OwnerUnique(blocks, r, owner, a, n); }
        data := blocks[owner][a - owner..a - owner + n];
      }
    }
  }
}
