/** Patching the instructions an enclave must not execute, over an abstract x86 decoder. */
module Simulate {
  import opened Bytes
  import opened Wrappers

  const MAX_LENGTH: nat := 15

  datatype Code = Cpuid | Syscall | Sysenter | IntImm8(imm: Byte) | Ud2 | Nop | Other

  datatype Instruction = Instruction(code: Code, len: nat)

  /** What the decoder makes of the bytes from its position to the end of the segment. */
  type Decoder = seq<Byte> -> Instruction

  predicate Prohibited(c: Code) {
    match c
    case Cpuid => true
    case Syscall => true
    case Sysenter => true
    case IntImm8(imm) => imm == 0x80
    case _ => false
  }

  /** The instructions that an enclave must not execute. */
  lemma ProhibitedIs(c: Code)
    ensures Prohibited(c) <==> c in {Cpuid, Syscall, Sysenter, IntImm8(0x80)}
  {}

  /** An instruction has a byte at least and fits in what is left; a prohibited one has two. */
  predicate GoodLength(decode: Decoder, s: seq<Byte>) {
    var i := decode(s);
    1 <= i.len <= |s| && i.len <= MAX_LENGTH && (Prohibited(i.code) ==> i.len >= 2)
  }

  predicate AgreeOn(n: nat, s: seq<Byte>, t: seq<Byte>) {
    |s| == |t| && n <= |s| && s[..n] == t[..n]
  }

  predicate IsUd2(s: seq<Byte>) {
    |s| >= 2 && s[0] == 0x0F && s[1] == 0x0B
  }

  predicate IsNop(s: seq<Byte>) {
    |s| >= 1 && s[0] == 0x90
  }

  /**
   * The facts about x86 decoding that the patcher relies on: lengths, that an instruction depends on its own bytes
   * only (what follows may change, but not how much of it there is), and the encodings of UD2 and NOP.
   */
  ghost predicate Sound(decode: Decoder) {
    && (forall s | s != [] :: GoodLength(decode, s))
    && (forall s, t | s != [] && AgreeOn(decode(s).len, s, t) :: decode(t) == decode(s))
    && (forall s | IsUd2(s) :: decode(s) == Instruction(Ud2, 2))
    && (forall s | IsNop(s) :: decode(s) == Instruction(Nop, 1))
  }

  lemma Lengths(decode: Decoder, s: seq<Byte>)
    requires Sound(decode) && s != []
    ensures 1 <= decode(s).len <= |s| && decode(s).len <= MAX_LENGTH
    ensures Prohibited(decode(s).code) ==> decode(s).len >= 2
  {
    assert GoodLength(decode, s);
  }

  /** The linear sweep: the instructions the decoder yields over a segment. */
  ghost function Disassemble(decode: Decoder, s: seq<Byte>): seq<Instruction>
    requires Sound(decode)
  {
    if s == [] then []
    else
      Lengths(decode, s);
      [decode(s)] + Disassemble(decode, s[decode(s).len..])
  }

  function Nops(n: nat): (s: seq<Byte>)
    ensures |s| == n && forall i | 0 <= i < n :: s[i] == 0x90
  {
    seq(n, _ => 0x90)
  }

  function Trap(len: nat): (s: seq<Byte>)
    requires len >= 2
    ensures |s| == len
  {
    [0x0F, 0x0B] + Nops(len - 2)
  }

  /** A segment with every prohibited instruction overwritten. */
  ghost function Patched(decode: Decoder, s: seq<Byte>): (t: seq<Byte>)
    requires Sound(decode)
    ensures |t| == |s|
  {
    if s == [] then []
    else
      Lengths(decode, s);
      var i := decode(s);
      (if Prohibited(i.code) then Trap(i.len) else s[..i.len]) + Patched(decode, s[i.len..])
  }

  /** The instructions that take the place of one. */
  function Replacement(i: Instruction): seq<Instruction> {
    if Prohibited(i.code) && i.len >= 2 then [Instruction(Ud2, 2)] + seq(i.len - 2, _ => Instruction(Nop, 1)) else [i]
  }

  function Replaced(code: seq<Instruction>): seq<Instruction> {
    if code == [] then [] else Replacement(code[0]) + Replaced(code[1..])
  }

  lemma DecodesNop(decode: Decoder, t: seq<Byte>)
    requires Sound(decode)
    ensures decode([0x90] + t) == Instruction(Nop, 1)
  {
    assert IsNop([0x90] + t);
  }

  lemma DecodesUd2(decode: Decoder, t: seq<Byte>)
    requires Sound(decode)
    ensures decode([0x0F, 0x0B] + t) == Instruction(Ud2, 2)
  {
    assert IsUd2([0x0F, 0x0B] + t);
  }

  /** Changing what follows an instruction, but not how much, leaves it alone. */
  lemma DecodesSame(decode: Decoder, s: seq<Byte>, t: seq<Byte>)
    requires Sound(decode) && s != [] && |t| == |s| - decode(s).len && decode(s).len <= |s|
    ensures decode(s[..decode(s).len] + t) == decode(s)
  {
    var p := s[..decode(s).len] + t;
    assert AgreeOn(decode(s).len, s, p);
  }

  lemma DisassembleStep(decode: Decoder, i: Instruction, bytes: seq<Byte>, t: seq<Byte>)
    requires Sound(decode) && |bytes| == i.len >= 1 && decode(bytes + t) == i
    ensures Disassemble(decode, bytes + t) == [i] + Disassemble(decode, t)
  {
    hide Sound;
    assert (bytes + t)[i.len..] == t;
  }

  lemma {:induction false} DisassembleNops(decode: Decoder, n: nat, t: seq<Byte>)
    requires Sound(decode)
    ensures Disassemble(decode, Nops(n) + t) == seq(n, _ => Instruction(Nop, 1)) + Disassemble(decode, t)
  {
    hide Sound, Disassemble;
    if n == 0 {
      assert Nops(0) + t == t;
    } else {
      var rest := Nops(n - 1) + t;
      assert Nops(n) + t == [0x90] + rest;
      DecodesNop(decode, rest);
      DisassembleStep(decode, Instruction(Nop, 1), [0x90], rest);
      DisassembleNops(decode, n - 1, t);
    }
  }

  lemma DisassembleTrap(decode: Decoder, i: Instruction, t: seq<Byte>)
    requires Sound(decode) && Prohibited(i.code) && i.len >= 2
    ensures Disassemble(decode, Trap(i.len) + t) == Replacement(i) + Disassemble(decode, t)
  {
    hide Sound, Disassemble;
    var rest := Nops(i.len - 2) + t;
    assert Trap(i.len) + t == [0x0F, 0x0B] + rest;
    DecodesUd2(decode, rest);
    DisassembleStep(decode, Instruction(Ud2, 2), [0x0F, 0x0B], rest);
    DisassembleNops(decode, i.len - 2, t);
  }

  /** Decoding the patched segment gives the original instructions with the prohibited ones replaced. */
  lemma {:induction false} PatchedMeans(decode: Decoder, s: seq<Byte>)
    requires Sound(decode)
    ensures Disassemble(decode, Patched(decode, s)) == Replaced(Disassemble(decode, s))
  {
    hide Sound;
    if s != [] {
      var i := decode(s);
      Lengths(decode, s);
      var rest := s[i.len..];
      var t := Patched(decode, rest);
      PatchedMeans(decode, rest);
      assert Disassemble(decode, s)[1..] == Disassemble(decode, rest);
      if Prohibited(i.code) {
        DisassembleTrap(decode, i, t);
      } else {
        DecodesSame(decode, s, t);
        DisassembleStep(decode, i, s[..i.len], t);
      }
    }
  }

  lemma {:induction false} ReplacedIsClean(code: seq<Instruction>)
    requires forall i | i in code && Prohibited(i.code) :: i.len >= 2
    ensures forall i | i in Replaced(code) :: !Prohibited(i.code)
  {
    if code != [] {
      ReplacedIsClean(code[1..]);
      assert forall i | i in Replacement(code[0]) :: !Prohibited(i.code);
    }
  }

  lemma {:induction false} DisassembledLengths(decode: Decoder, s: seq<Byte>)
    requires Sound(decode)
    ensures forall i | i in Disassemble(decode, s) && Prohibited(i.code) :: i.len >= 2
  {
    hide Sound;
    if s != [] {
      Lengths(decode, s);
      DisassembledLengths(decode, s[decode(s).len..]);
    }
  }

  /** No prohibited instruction is left in the patched segment. */
  lemma PatchedIsClean(decode: Decoder, s: seq<Byte>)
    requires Sound(decode)
    ensures forall i | i in Disassemble(decode, Patched(decode, s)) ::
              i.code !in {Cpuid, Syscall, Sysenter, IntImm8(0x80)}
  {
    PatchedMeans(decode, s);
    DisassembledLengths(decode, s);
    ReplacedIsClean(Disassemble(decode, s));
  }

  // ---- Where instructions lie ----

  /** Laid out from byte `from`, the list has the instruction i at byte `at`. */
  ghost predicate StartsAt(code: seq<Instruction>, from: nat, at: nat, i: Instruction)
    decreases |code|
  {
    code != [] && ((at == from && i == code[0]) || StartsAt(code[1..], from + code[0].len, at, i))
  }

  function TotalLength(code: seq<Instruction>): nat {
    if code == [] then 0 else code[0].len + TotalLength(code[1..])
  }

  lemma {:induction false} StartsConcat(a: seq<Instruction>, b: seq<Instruction>, from: nat, at: nat, i: Instruction)
    ensures StartsAt(a + b, from, at, i) <==> StartsAt(a, from, at, i) || StartsAt(b, from + TotalLength(a), at, i)
    decreases |a|
  {
    if a == [] {
      assert a + b == b;
    } else {
      assert (a + b)[1..] == a[1..] + b;
      StartsConcat(a[1..], b, from + a[0].len, at, i);
    }
  }

  lemma {:induction false} StartsNops(n: nat, from: nat, at: nat, i: Instruction)
    ensures var nops := seq(n, _ => Instruction(Nop, 1));
            && TotalLength(nops) == n
            && (StartsAt(nops, from, at, i) <==> from <= at < from + n && i == Instruction(Nop, 1))
  {
    if n > 0 {
      StartsNops(n - 1, from + 1, at, i);
      assert seq(n, _ => Instruction(Nop, 1))[1..] == seq(n - 1, _ => Instruction(Nop, 1));
    }
  }

  /** What stands over a prohibited instruction of the given length: UD2, and a NOP at each byte after its two. */
  ghost predicate InTrap(from: nat, len: nat, at: nat, i: Instruction) {
    (at == from && i == Instruction(Ud2, 2)) || (from + 2 <= at < from + len && i == Instruction(Nop, 1))
  }

  lemma StartsReplacement(j: Instruction, from: nat, at: nat, i: Instruction)
    requires Prohibited(j.code) ==> j.len >= 2
    ensures TotalLength(Replacement(j)) == j.len
    ensures StartsAt(Replacement(j), from, at, i) <==>
            if Prohibited(j.code) then InTrap(from, j.len, at, i) else at == from && i == j
  {
    if Prohibited(j.code) {
      var nops := seq(j.len - 2, _ => Instruction(Nop, 1));
      StartsNops(j.len - 2, from + 2, at, i);
      assert Replacement(j)[1..] == nops;
    } else {
      assert Replacement(j)[1..] == [];
    }
  }

  /** The instructions that are not prohibited, where they were, and traps where the others were. */
  ghost predicate KeptOrTrapped(code: seq<Instruction>, from: nat, at: nat, i: Instruction) {
    || (i.code !in {Cpuid, Syscall, Sysenter, IntImm8(0x80)} && StartsAt(code, from, at, i))
    || exists at', j :: StartsAt(code, from, at', j) && j.code in {Cpuid, Syscall, Sysenter, IntImm8(0x80)}
                        && InTrap(at', j.len, at, i)
  }

  lemma KeptOrTrappedStep(code: seq<Instruction>, from: nat, at: nat, i: Instruction)
    requires code != []
    ensures KeptOrTrapped(code, from, at, i) <==>
            || (if Prohibited(code[0].code) then InTrap(from, code[0].len, at, i) else at == from && i == code[0])
            || KeptOrTrapped(code[1..], from + code[0].len, at, i)
  {
    hide Prohibited, InTrap;
    ProhibitedIs(code[0].code);
    var rest, next := code[1..], from + code[0].len;
    forall at', j
      ensures StartsAt(code, from, at', j) <==> (at' == from && j == code[0]) || StartsAt(rest, next, at', j)
    {}
    hide StartsAt;
    assert StartsAt(code, from, from, code[0]);
  }

  lemma {:induction false} StartsReplaced(code: seq<Instruction>, from: nat, at: nat, i: Instruction)
    requires forall j | j in code && Prohibited(j.code) :: j.len >= 2
    ensures StartsAt(Replaced(code), from, at, i) <==> KeptOrTrapped(code, from, at, i)
    decreases |code|
  {
    hide Prohibited, InTrap, Replacement, KeptOrTrapped;
    if code == [] {
      NothingKept(from, at, i);
    } else {
      StartsReplaced(code[1..], from + code[0].len, at, i);
      StartsReplacement(code[0], from, at, i);
      StartsConcat(Replacement(code[0]), Replaced(code[1..]), from, at, i);
      KeptOrTrappedStep(code, from, at, i);
    }
  }

  lemma NothingKept(from: nat, at: nat, i: Instruction)
    ensures !KeptOrTrapped([], from, at, i)
  {}

  /**
   * Swept again, a patched segment has an instruction at a byte exactly when the original had it there and it is not
   * prohibited, or it belongs to the trap over a prohibited one.
   */
  lemma PatchedPlaces(decode: Decoder, s: seq<Byte>, at: nat, i: Instruction)
    requires Sound(decode)
    ensures StartsAt(Disassemble(decode, Patched(decode, s)), 0, at, i) <==>
            KeptOrTrapped(Disassemble(decode, s), 0, at, i)
  {
    hide Sound, KeptOrTrapped, StartsAt, Prohibited;
    PatchedMeans(decode, s);
    DisassembledLengths(decode, s);
    StartsReplaced(Disassemble(decode, s), 0, at, i);
  }

  /** Byte for byte: a prohibited instruction becomes 0F 0B and as many 90 as it takes; any other keeps its bytes. */
  lemma {:induction false} PatchedBytes(decode: Decoder, s: seq<Byte>, from: nat, at: nat, i: Instruction)
    requires Sound(decode) && StartsAt(Disassemble(decode, s), from, at, i)
    ensures from <= at && at - from + i.len <= |s|
    ensures i.code in {Cpuid, Syscall, Sysenter, IntImm8(0x80)} ==>
              i.len >= 2 && Patched(decode, s)[at - from..][..i.len] == [0x0F, 0x0B] + seq(i.len - 2, _ => 0x90)
    ensures i.code !in {Cpuid, Syscall, Sysenter, IntImm8(0x80)} ==>
              Patched(decode, s)[at - from..][..i.len] == s[at - from..][..i.len]
    decreases |s|
  {
    hide Sound, Prohibited, Patched, StartsAt, Disassemble;
    StartsHead(decode, s, from, at, i);
    if s != [] {
      PatchedHead(decode, s);
      var j := decode(s);
      var rest := s[j.len..];
      if !(at == from && i == j) {
        PatchedBytes(decode, rest, from + j.len, at, i);
        DropDrop(Patched(decode, s), Patched(decode, rest), j.len, at - from);
        DropDrop(s, rest, j.len, at - from);
      }
    }
  }

  lemma StartsHead(decode: Decoder, s: seq<Byte>, from: nat, at: nat, i: Instruction)
    requires Sound(decode) && StartsAt(Disassemble(decode, s), from, at, i)
    ensures s != [] && decode(s).len <= |s|
    ensures (at == from && i == decode(s))
            || StartsAt(Disassemble(decode, s[decode(s).len..]), from + decode(s).len, at, i)
  {
    hide Sound;
    if s != [] {
      Lengths(decode, s);
      assert Disassemble(decode, s)[1..] == Disassemble(decode, s[decode(s).len..]);
    }
  }

  lemma DropDrop(x: seq<Byte>, y: seq<Byte>, n: nat, a: nat)
    requires n <= a <= |x| && x[n..] == y
    ensures x[a..] == y[a - n..]
  {}

  lemma PatchedHead(decode: Decoder, s: seq<Byte>)
    requires Sound(decode) && s != []
    ensures var (j, t) := (decode(s), Patched(decode, s));
            && 1 <= j.len <= |s| == |t| && t[j.len..] == Patched(decode, s[j.len..])
            && (j.code in {Cpuid, Syscall, Sysenter, IntImm8(0x80)} ==>
                  j.len >= 2 && t[0..][..j.len] == [0x0F, 0x0B] + seq(j.len - 2, _ => 0x90))
            && (j.code !in {Cpuid, Syscall, Sysenter, IntImm8(0x80)} ==> t[0..][..j.len] == s[0..][..j.len])
  {
    hide Sound, Prohibited;
    Lengths(decode, s);
    ProhibitedIs(decode(s).code);
  }

  /** A segment in which the sweep finds nothing prohibited is left as it is. */
  lemma {:induction false} CleanIsUnchanged(decode: Decoder, s: seq<Byte>)
    requires Sound(decode) && forall i | i in Disassemble(decode, s) :: !Prohibited(i.code)
    ensures Patched(decode, s) == s
  {
    hide Sound;
    if s != [] {
      Lengths(decode, s);
      var rest := s[decode(s).len..];
      assert Disassemble(decode, s) == [decode(s)] + Disassemble(decode, rest);
      CleanIsUnchanged(decode, rest);
      assert s == s[..decode(s).len] + rest;
    }
  }

  lemma PatchTwice(decode: Decoder, s: seq<Byte>)
    requires Sound(decode)
    ensures Patched(decode, Patched(decode, s)) == Patched(decode, s)
  {
    PatchedIsClean(decode, s);
    CleanIsUnchanged(decode, Patched(decode, s));
  }

  /** A decoder with two-byte opcodes, to show that the assumed facts can hold together. */
  function ToyDecoder(s: seq<Byte>): Instruction {
    if |s| >= 2 && s[0] == 0x0F then
      Instruction(if s[1] == 0xA2 then Cpuid else if s[1] == 0x05 then Syscall
                  else if s[1] == 0x34 then Sysenter else if s[1] == 0x0B then Ud2 else Other, 2)
    else if |s| >= 2 && s[0] == 0xCD then Instruction(IntImm8(s[1]), 2)
    else Instruction(if |s| >= 1 && s[0] == 0x90 then Nop else Other, 1)
  }

  lemma ToyDecoderIsSound()
    ensures Sound(ToyDecoder)
  {
    forall s, t | s != [] && AgreeOn(ToyDecoder(s).len, s, t)
      ensures ToyDecoder(t) == ToyDecoder(s)
    {
      var n := ToyDecoder(s).len;
      assert s[..n][0] == s[0] && t[..n][0] == t[0];
      if n == 2 { assert s[..n][1] == s[1] && t[..n][1] == t[1]; }
    }
  }

  // ---- The whole file ----

  datatype Segment = Segment(executable: bool, offset: nat, size: nat)

  datatype Parsed = Unreadable | OtherFormat | Elf(segments: seq<Segment>)

  datatype Counts = Counts(total: nat, cpuid: nat, syscall: nat, sysenter: nat, int80: nat)

  function Counted(c: Counts, i: Instruction): Counts {
    if !Prohibited(i.code) then c
    else
      var d := c.(total := c.total + 1);
      match i.code
      case Cpuid => d.(cpuid := d.cpuid + 1)
      case Syscall => d.(syscall := d.syscall + 1)
      case Sysenter => d.(sysenter := d.sysenter + 1)
      case IntImm8(_) => d.(int80 := d.int80 + 1)
      case _ => d
  }

  function CountAll(c: Counts, code: seq<Instruction>): Counts
    decreases |code|
  {
    if code == [] then c else CountAll(Counted(c, code[0]), code[1..])
  }

  function Occurrences(code: seq<Instruction>, c: Code): nat {
    if code == [] then 0 else (if code[0].code == c then 1 else 0) + Occurrences(code[1..], c)
  }

  /** The counters by instruction: each kind apart, and the total of the four. */
  lemma {:induction false} CountAllIs(c: Counts, code: seq<Instruction>)
    ensures var d := CountAll(c, code);
            && d.cpuid == c.cpuid + Occurrences(code, Cpuid)
            && d.syscall == c.syscall + Occurrences(code, Syscall)
            && d.sysenter == c.sysenter + Occurrences(code, Sysenter)
            && d.int80 == c.int80 + Occurrences(code, IntImm8(0x80))
            && d.total - c.total == (d.cpuid - c.cpuid) + (d.syscall - c.syscall) + (d.sysenter - c.sysenter)
                                    + (d.int80 - c.int80)
    decreases |code|
  {
    if code != [] { CountAllIs(Counted(c, code[0]), code[1..]); }
  }

  function Slice(b: seq<Byte>, s: Segment): (r: seq<Byte>)
    requires s.offset + s.size <= |b|
    ensures |r| == s.size
  {
    b[s.offset..s.offset + s.size]
  }

  predicate Within(s: Segment, k: nat) {
    s.executable && s.offset <= k < s.offset + s.size
  }

  /** Executable segments lie inside the file, and no byte belongs to two of them. */
  ghost predicate GoodSegments(length: nat, segs: seq<Segment>) {
    && (forall j | 0 <= j < |segs| && segs[j].executable :: segs[j].offset + segs[j].size <= length)
    && (forall i, j, k: nat | 0 <= i < j < |segs| && Within(segs[i], k) :: !Within(segs[j], k))
  }

  /** `after` is `before` with every executable segment patched and every other byte kept. */
  ghost predicate IsPatch(decode: Decoder, segs: seq<Segment>, before: seq<Byte>, after: seq<Byte>)
    requires Sound(decode) && GoodSegments(|before|, segs)
  {
    && |after| == |before|
    && (forall j | 0 <= j < |segs| && segs[j].executable ::
          Slice(after, segs[j]) == Patched(decode, Slice(before, segs[j])))
    && (forall k: nat | k < |before| && (forall j | 0 <= j < |segs| :: !Within(segs[j], k)) :: after[k] == before[k])
  }

  /** A file with UD2 and NOPs over n of its bytes. */
  ghost function Trapped(b: seq<Byte>, at: nat, n: nat): seq<Byte>
    requires 2 <= n && at + n <= |b|
  {
    b[..at] + Trap(n) + b[at + n..]
  }

  lemma TrapStarts(b: seq<Byte>, at: nat)
    requires at + 2 <= |b|
    ensures b[at := 0x0F][at + 1 := 0x0B] == Trapped(b, at, 2)
  {}

  lemma TrapGrows(b: seq<Byte>, at: nat, n: nat)
    requires 2 <= n && at + n < |b|
    ensures Trapped(b, at, n)[at + n := 0x90] == Trapped(b, at, n + 1)
  {
    assert Trap(n + 1) == Trap(n) + [0x90];
  }

  /** Writes UD2 and as many NOPs as the overwritten instruction needs. */
  method WriteTrap(patched: array<Byte>, at: nat, len: nat)
    requires 2 <= len && at + len <= patched.Length
    modifies patched
    ensures patched[..] == Trapped(old(patched[..]), at, len)
    ensures patched[..] == old(patched[..])[..at] + ([0x0F, 0x0B] + Nops(len - 2)) + old(patched[..])[at + len..]
  {
    ghost var was := patched[..];
    patched[at] := 0x0F;
    patched[at + 1] := 0x0B;
    assert patched[..] == was[at := 0x0F][at + 1 := 0x0B];
    TrapStarts(was, at);
    for n := 2 to len
      invariant patched[..] == Trapped(was, at, n)
    {
      hide Trapped;
      patched[at + n] := 0x90;
      assert patched[..] == Trapped(was, at, n)[at + n := 0x90];
      TrapGrows(was, at, n);
    }
  }

  /** The decoding loop over one executable segment. */
  method PatchSegment(decode: Decoder, binary: seq<Byte>, s: Segment, patched: array<Byte>, counts: Counts)
      returns (counts': Counts)
    requires Sound(decode) && patched.Length == |binary| && s.offset + s.size <= |binary|
    requires Slice(patched[..], s) == Slice(binary, s)
    modifies patched
    ensures patched[..] ==
            old(patched[..s.offset]) + Patched(decode, Slice(binary, s)) + old(patched[s.offset + s.size..])
    ensures counts' == CountAll(counts, Disassemble(decode, Slice(binary, s)))
  {
    hide Sound, Trap, Trapped, Prohibited, Disassemble, CountAll, Counted, Patched, Piece, Swept, Slice;
    var data := Slice(binary, s);
    var pos := 0;
    counts' := counts;
    ghost var was := patched[..];
    SweepStarts(decode, was, s, counts);
    while pos < s.size
      invariant pos <= s.size
      invariant Swept(decode, was, s, pos, patched[..])
      invariant CountAll(counts', Disassemble(decode, data[pos..])) == CountAll(counts, Disassemble(decode, data))
    {
      var i := decode(data[pos..]);
      SweepStep(decode, was, s, pos, patched[..]);
      CountStep(decode, data, pos, counts');
      counts' := Counted(counts', i);
      var len := i.len % 256;
      if Prohibited(i.code) {
        WriteTrap(patched, s.offset + pos, len);
      }
      pos := pos + len;
    }
    SweepEnds(decode, was, s, patched[..], counts');
  }

  /** How the file looks when the sweep of a segment has reached `pos`. */
  ghost predicate Swept(decode: Decoder, was: seq<Byte>, s: Segment, pos: nat, now: seq<Byte>)
    requires Sound(decode) && s.offset + s.size <= |was|
  {
    && pos <= s.size && |now| == |was|
    && now[..s.offset] == was[..s.offset]
    && now[s.offset + pos..] == was[s.offset + pos..]
    && Patched(decode, Slice(was, s)) == now[s.offset..s.offset + pos] + Patched(decode, Slice(was, s)[pos..])
  }

  lemma SweepStarts(decode: Decoder, was: seq<Byte>, s: Segment, c: Counts)
    requires Sound(decode) && s.offset + s.size <= |was|
    ensures Swept(decode, was, s, 0, was) && Slice(was, s)[0..] == Slice(was, s)
  {
    hide Sound, Patched;
    assert Slice(was, s)[0..] == Slice(was, s);
    assert was[s.offset..s.offset + 0] == [];
  }

  lemma SweepEnds(decode: Decoder, was: seq<Byte>, s: Segment, now: seq<Byte>, c: Counts)
    requires Sound(decode) && s.offset + s.size <= |was|
    requires Swept(decode, was, s, s.size, now)
    ensures now == was[..s.offset] + Patched(decode, Slice(was, s)) + was[s.offset + s.size..]
    ensures Slice(was, s)[s.size..] == [] && CountAll(c, Disassemble(decode, [])) == c
  {
    hide Sound;
    assert Slice(was, s)[s.size..] == [];
    assert now == now[..s.offset] + now[s.offset..s.offset + s.size] + now[s.offset + s.size..];
  }

  /** One instruction on: keeping its bytes, or writing a trap over them when it is prohibited. */
  lemma SweepStep(decode: Decoder, was: seq<Byte>, s: Segment, pos: nat, now: seq<Byte>)
    requires Sound(decode) && s.offset + s.size <= |was| && pos < s.size
    requires Swept(decode, was, s, pos, now)
    ensures var i := decode(Slice(was, s)[pos..]);
            && 1 <= i.len <= s.size - pos && i.len <= MAX_LENGTH
            && (!Prohibited(i.code) ==> Swept(decode, was, s, pos + i.len, now))
            && (Prohibited(i.code) ==>
                  && i.len >= 2
                  && Swept(decode, was, s, pos + i.len,
                           Trapped(now, s.offset + pos, i.len)))
  {
    hide Sound, Trap, Prohibited, Patched, Swept;
    var rest := Slice(was, s)[pos..];
    PatchedAdvance(decode, Slice(was, s), pos);
    SweptSplice(decode, was, s, pos, now, Piece(decode, rest));
    if !Prohibited(decode(rest).code) {
      SweptKeeps(decode, was, s, pos, now, decode(rest).len);
    }
  }

  /** Writing the bytes that the rest of the segment starts with, when patched, moves the sweep past them. */
  lemma SweptSplice(decode: Decoder, was: seq<Byte>, s: Segment, pos: nat, now: seq<Byte>, piece: seq<Byte>)
    requires Sound(decode) && s.offset + s.size <= |was| && pos + |piece| <= s.size
    requires Swept(decode, was, s, pos, now)
    requires Patched(decode, Slice(was, s)[pos..]) == piece + Patched(decode, Slice(was, s)[pos + |piece|..])
    ensures Swept(decode, was, s, pos + |piece|, now[..s.offset + pos] + piece + now[s.offset + pos + |piece|..])
  {
    hide Sound, Patched;
    SplicedSlices(now, s.offset, pos, piece);
    assert now[s.offset + pos..][|piece|..] == was[s.offset + pos..][|piece|..] == was[s.offset + pos + |piece|..];
    var done, tail := now[s.offset..s.offset + pos], Patched(decode, Slice(was, s)[pos + |piece|..]);
    assert (done + piece) + tail == done + (piece + tail);
  }

  lemma SweptKeeps(decode: Decoder, was: seq<Byte>, s: Segment, pos: nat, now: seq<Byte>, len: nat)
    requires Sound(decode) && s.offset + s.size <= |was| && pos + len <= s.size && Swept(decode, was, s, pos, now)
    ensures now[..s.offset + pos] + Slice(was, s)[pos..][..len] + now[s.offset + pos + len..] == now
  {
    hide Sound, Patched;
    KeptBytes(was, now, s, pos, len);
  }

  lemma PatchedAdvance(decode: Decoder, data: seq<Byte>, pos: nat)
    requires Sound(decode) && pos < |data|
    ensures var i := decode(data[pos..]);
            && 1 <= i.len <= |data| - pos && i.len <= MAX_LENGTH && |Piece(decode, data[pos..])| == i.len
            && Piece(decode, data[pos..]) == (if Prohibited(i.code) then Trap(i.len) else data[pos..][..i.len])
            && (Prohibited(i.code) ==> i.len >= 2)
            && Patched(decode, data[pos..]) == Piece(decode, data[pos..]) + Patched(decode, data[pos + i.len..])
  {
    hide Sound, Prohibited;
    var s := data[pos..];
    Lengths(decode, s);
    assert s[decode(s).len..] == data[pos + decode(s).len..];
  }

  lemma SplicedSlices(now: seq<Byte>, off: nat, pos: nat, piece: seq<Byte>)
    requires off + pos + |piece| <= |now|
    ensures var next := now[..off + pos] + piece + now[off + pos + |piece|..];
            && |next| == |now| && next[..off] == now[..off]
            && next[off..off + pos + |piece|] == now[off..off + pos] + piece
            && next[off + pos + |piece|..] == now[off + pos..][|piece|..]
  {}

  lemma KeptBytes(was: seq<Byte>, now: seq<Byte>, s: Segment, pos: nat, len: nat)
    requires s.offset + s.size <= |was| && |now| == |was| && pos + len <= s.size
    requires now[s.offset + pos..] == was[s.offset + pos..]
    ensures Slice(was, s)[pos..][..len] == now[s.offset + pos..s.offset + pos + len]
  {
    assert now[s.offset + pos..s.offset + pos + len] == now[s.offset + pos..][..len];
    assert Slice(was, s)[pos..][..len] == was[s.offset + pos..][..len];
  }

  /** The bytes that one instruction becomes. */
  ghost function Piece(decode: Decoder, s: seq<Byte>): seq<Byte>
    requires Sound(decode) && s != []
  {
    Lengths(decode, s);
    var i := decode(s);
    if Prohibited(i.code) then Trap(i.len) else s[..i.len]
  }

  lemma CountStep(decode: Decoder, data: seq<Byte>, pos: nat, c: Counts)
    requires Sound(decode) && pos < |data|
    ensures var i := decode(data[pos..]);
            1 <= i.len <= |data| - pos
            && CountAll(Counted(c, i), Disassemble(decode, data[pos + i.len..])) ==
               CountAll(c, Disassemble(decode, data[pos..]))
  {
    hide Sound, Counted;
    var s := data[pos..];
    Lengths(decode, s);
    assert s[decode(s).len..] == data[pos + decode(s).len..];
    assert Disassemble(decode, s)[1..] == Disassemble(decode, s[decode(s).len..]);
  }

  /** What the first n segments add up to. */
  ghost function CountFile(decode: Decoder, binary: seq<Byte>, segs: seq<Segment>, n: nat): Counts
    requires Sound(decode) && GoodSegments(|binary|, segs) && n <= |segs|
  {
    if n == 0 then Counts(0, 0, 0, 0, 0)
    else
      var before, s := CountFile(decode, binary, segs, n - 1), segs[n - 1];
      if s.executable then CountAll(before, Disassemble(decode, Slice(binary, s))) else before
  }

  /** How often an instruction occurs in the executable ones of the first n segments. */
  ghost function OccurrencesIn(decode: Decoder, binary: seq<Byte>, segs: seq<Segment>, n: nat, c: Code): nat
    requires Sound(decode) && GoodSegments(|binary|, segs) && n <= |segs|
  {
    if n == 0 then 0
    else
      OccurrencesIn(decode, binary, segs, n - 1, c)
      + (if segs[n - 1].executable then Occurrences(Disassemble(decode, Slice(binary, segs[n - 1])), c) else 0)
  }

  lemma {:induction false} CountFileIs(decode: Decoder, binary: seq<Byte>, segs: seq<Segment>, n: nat)
    requires Sound(decode) && GoodSegments(|binary|, segs) && n <= |segs|
    ensures var d := CountFile(decode, binary, segs, n);
            && d.cpuid == OccurrencesIn(decode, binary, segs, n, Cpuid)
            && d.syscall == OccurrencesIn(decode, binary, segs, n, Syscall)
            && d.sysenter == OccurrencesIn(decode, binary, segs, n, Sysenter)
            && d.int80 == OccurrencesIn(decode, binary, segs, n, IntImm8(0x80))
            && d.total == d.cpuid + d.syscall + d.sysenter + d.int80
  {
    hide Sound, CountAll, Occurrences, Disassemble;
    if n > 0 {
      CountFileIs(decode, binary, segs, n - 1);
      if segs[n - 1].executable {
        CountAllIs(CountFile(decode, binary, segs, n - 1), Disassemble(decode, Slice(binary, segs[n - 1])));
      }
    }
  }

  /** The first n segments are done: patched when executable; every byte outside them is still the original. */
  ghost predicate DoneUpTo(decode: Decoder, segs: seq<Segment>, binary: seq<Byte>, now: seq<Byte>, n: nat)
    requires Sound(decode) && GoodSegments(|binary|, segs) && n <= |segs|
  {
    && |now| == |binary|
    && (forall j | 0 <= j < n && segs[j].executable ::
          Slice(now, segs[j]) == Patched(decode, Slice(binary, segs[j])))
    && (forall k: nat | k < |binary| && (forall j | 0 <= j < n :: !Within(segs[j], k)) :: now[k] == binary[k])
  }

  lemma StillOriginal(decode: Decoder, segs: seq<Segment>, binary: seq<Byte>, now: seq<Byte>, n: nat)
    requires Sound(decode) && GoodSegments(|binary|, segs) && n < |segs|
    requires DoneUpTo(decode, segs, binary, now, n) && segs[n].executable
    ensures Slice(now, segs[n]) == Slice(binary, segs[n])
  {
    hide Sound, Patched;
    forall k: nat | segs[n].offset <= k < segs[n].offset + segs[n].size
      ensures now[k] == binary[k]
    {
      assert Within(segs[n], k);
    }
  }

  lemma OneMoreDone(decode: Decoder, segs: seq<Segment>, binary: seq<Byte>, now: seq<Byte>, n: nat, next: seq<Byte>)
    requires Sound(decode) && GoodSegments(|binary|, segs) && n < |segs|
    requires DoneUpTo(decode, segs, binary, now, n) && segs[n].executable
    requires var s := segs[n];
             next == now[..s.offset] + Patched(decode, Slice(binary, s)) + now[s.offset + s.size..]
    ensures DoneUpTo(decode, segs, binary, next, n + 1)
  {
    hide Sound, Patched;
    var s := segs[n];
    assert forall k: nat | k < |binary| && !Within(s, k) :: next[k] == now[k];
    assert Slice(next, s) == Patched(decode, Slice(binary, s));
    forall j | 0 <= j < n && segs[j].executable
      ensures Slice(next, segs[j]) == Slice(now, segs[j])
    {
      forall k: nat | segs[j].offset <= k < segs[j].offset + segs[j].size
        ensures next[k] == now[k]
      {
        assert Within(segs[j], k);
      }
    }
  }

  datatype PatchError = ParseFailed | UnsupportedFormat

  method PatchEnclaveBinary(decode: Decoder, binary: seq<Byte>, parsed: Parsed)
      returns (r: Result<array<Byte>, PatchError>, counts: Counts)
    requires Sound(decode) && (parsed.Elf? ==> GoodSegments(|binary|, parsed.segments))
    ensures r.Ok? <==> parsed.Elf?
    ensures r.Err? ==> r.error == if parsed.Unreadable? then ParseFailed else UnsupportedFormat
    ensures r.Ok? ==> fresh(r.value) && IsPatch(decode, parsed.segments, binary, r.value[..])
    ensures r.Ok? ==>
              var (segs, n) := (parsed.segments, |parsed.segments|);
              && counts.cpuid == OccurrencesIn(decode, binary, segs, n, Cpuid)
              && counts.syscall == OccurrencesIn(decode, binary, segs, n, Syscall)
              && counts.sysenter == OccurrencesIn(decode, binary, segs, n, Sysenter)
              && counts.int80 == OccurrencesIn(decode, binary, segs, n, IntImm8(0x80))
              && counts.total == counts.cpuid + counts.syscall + counts.sysenter + counts.int80
  {
    hide Sound, Patched, Disassemble, CountAll, OccurrencesIn, DoneUpTo, GoodSegments, CountFile, IsPatch;
    var patched := new Byte[|binary|](i requires 0 <= i < |binary| => binary[i]);
    counts := Counts(0, 0, 0, 0, 0);
    if parsed.Unreadable? {
      return Err(ParseFailed), counts;
    }
    if !parsed.Elf? {
      return Err(UnsupportedFormat), counts;
    }
    var segs := parsed.segments;
    assert patched[..] == binary;
    NoneDone(decode, segs, binary);
    for n := 0 to |segs|
      invariant DoneUpTo(decode, segs, binary, patched[..], n)
      invariant counts == CountFile(decode, binary, segs, n)
    {
      CountFileStep(decode, binary, segs, n);
      var s := segs[n];
      if s.executable {
        StillOriginal(decode, segs, binary, patched[..], n);
        ghost var now := patched[..];
        counts := PatchSegment(decode, binary, s, patched, counts);
        OneMoreDone(decode, segs, binary, now, n, patched[..]);
      } else {
        SkipSegment(decode, segs, binary, patched[..], n);
      }
    }
    AllDone(decode, segs, binary, patched[..]);
    CountFileIs(decode, binary, segs, |segs|);
    return Ok(patched), counts;
  }

  lemma NoneDone(decode: Decoder, segs: seq<Segment>, binary: seq<Byte>)
    requires Sound(decode) && GoodSegments(|binary|, segs)
    ensures DoneUpTo(decode, segs, binary, binary, 0)
    ensures CountFile(decode, binary, segs, 0) == Counts(0, 0, 0, 0, 0)
  {
    hide Sound, Patched;
  }

  lemma AllDone(decode: Decoder, segs: seq<Segment>, binary: seq<Byte>, now: seq<Byte>)
    requires Sound(decode) && GoodSegments(|binary|, segs) && DoneUpTo(decode, segs, binary, now, |segs|)
    ensures IsPatch(decode, segs, binary, now)
  {
    hide Sound, Patched;
  }

  lemma CountFileStep(decode: Decoder, binary: seq<Byte>, segs: seq<Segment>, n: nat)
    requires Sound(decode) && GoodSegments(|binary|, segs) && n < |segs|
    ensures segs[n].executable ==> segs[n].offset + segs[n].size <= |binary|
    ensures CountFile(decode, binary, segs, n + 1) ==
            if segs[n].executable
            then CountAll(CountFile(decode, binary, segs, n), Disassemble(decode, Slice(binary, segs[n])))
            else CountFile(decode, binary, segs, n)
  {
    hide Sound, Disassemble, CountAll, Slice;
  }

  lemma SkipSegment(decode: Decoder, segs: seq<Segment>, binary: seq<Byte>, now: seq<Byte>, n: nat)
    requires Sound(decode) && GoodSegments(|binary|, segs) && n < |segs|
    requires DoneUpTo(decode, segs, binary, now, n) && !segs[n].executable
    ensures DoneUpTo(decode, segs, binary, now, n + 1)
  {
    hide Sound, Patched;
  }

  /**
   * What patching is for: swept again, every executable segment of the result decodes to the original instructions
   * with the prohibited ones replaced, and holds none of them.
   */
  lemma PatchedFileMeans(decode: Decoder, segs: seq<Segment>, before: seq<Byte>, after: seq<Byte>, j: nat)
    requires Sound(decode) && GoodSegments(|before|, segs) && IsPatch(decode, segs, before, after)
    requires j < |segs| && segs[j].executable
    ensures Disassemble(decode, Slice(after, segs[j])) == Replaced(Disassemble(decode, Slice(before, segs[j])))
    ensures forall i | i in Disassemble(decode, Slice(after, segs[j])) ::
              i.code !in {Cpuid, Syscall, Sysenter, IntImm8(0x80)}
  {
    hide Sound;
    PatchedMeans(decode, Slice(before, segs[j]));
    PatchedIsClean(decode, Slice(before, segs[j]));
  }

  /** Instruction by instruction: all others stay at their byte, and each prohibited one gives way to a trap. */
  lemma PatchedFilePlaces(decode: Decoder, segs: seq<Segment>, before: seq<Byte>, after: seq<Byte>, j: nat, at: nat,
                          i: Instruction)
    requires Sound(decode) && GoodSegments(|before|, segs) && IsPatch(decode, segs, before, after)
    requires j < |segs| && segs[j].executable
    ensures StartsAt(Disassemble(decode, Slice(after, segs[j])), 0, at, i) <==>
            KeptOrTrapped(Disassemble(decode, Slice(before, segs[j])), 0, at, i)
  {
    hide Sound, KeptOrTrapped, StartsAt;
    PatchedPlaces(decode, Slice(before, segs[j]), at, i);
  }

  /** Patching a patched file changes nothing. */
  lemma PatchFileTwice(decode: Decoder, segs: seq<Segment>, before: seq<Byte>, after: seq<Byte>, again: seq<Byte>)
    requires Sound(decode) && GoodSegments(|before|, segs)
    requires IsPatch(decode, segs, before, after) && IsPatch(decode, segs, after, again)
    ensures again == after
  {
    hide Sound, Patched;
    forall k: nat | k < |after|
      ensures again[k] == after[k]
    {
      if j :| 0 <= j < |segs| && Within(segs[j], k) {
        PatchTwice(decode, Slice(before, segs[j]));
        assert Slice(again, segs[j]) == Slice(after, segs[j]);
        assert Slice(again, segs[j])[k - segs[j].offset] == again[k];
      }
    }
  }
}
