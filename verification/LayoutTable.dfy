/** Counting TCS pages over the compressed layout table of the enclave metadata. */
module LayoutTable {
  import opened Arithmetic

  const PAGE_ATTR_EADD: bv16 := 1
  const PAGE_ATTR_EREMOVE: bv16 := 4
  const PAGE_ATTR_POST_ADD: bv16 := 8
  const SI_FLAGS_TCS: nat := 0x100
  const LAYOUT_ID_TCS_DYN: nat := 14

  /** An entry of the table, or a group that repeats the `entryCount` elements before it `loadTimes` more times. */
  datatype Layout =
    | Entry(id: nat, attributes: bv16, contentOffset: nat, siFlags: nat)
    | Group(entryCount: nat, loadTimes: nat)

  /** A group that is loaded again reaches back no further than the start of its span, which is well formed itself. */
  predicate GoodSpan(table: seq<Layout>, i: nat)
    requires i < |table|
    decreases |table|, 0
  {
    table[i].Group? && table[i].loadTimes > 0 ==>
      table[i].entryCount <= i && WellFormed(table[i - table[i].entryCount..i])
  }

  /** The tables that the traversal can walk; on any other it slices out of bounds and panics. */
  predicate WellFormed(table: seq<Layout>)
    decreases |table|, 1
  {
    forall i | 0 <= i < |table| :: GoodSpan(table, i)
  }

  function Repeat<T>(s: seq<T>, n: nat): seq<T> {
    if n == 0 then [] else Repeat(s, n - 1) + s
  }

  /** The entries that the table stands for, in loading order. */
  function Expand(table: seq<Layout>): seq<Layout>
    requires WellFormed(table)
    decreases |table|, 2
  {
    ExpandPrefix(table, |table|)
  }

  function ExpandPrefix(table: seq<Layout>, n: nat): seq<Layout>
    requires WellFormed(table) && n <= |table|
    decreases |table|, 1, n
  {
    if n == 0 then [] else ExpandPrefix(table, n - 1) + Unrolled(table, n - 1)
  }

  /** What one element of the table stands for. */
  function Unrolled(table: seq<Layout>, i: nat): seq<Layout>
    requires WellFormed(table) && i < |table|
    decreases |table|, 0
  {
    var l := table[i];
    if l.Entry? then [l]
    else if l.loadTimes == 0 then []
    else
      assert GoodSpan(table, i);
      Repeat(Expand(table[i - l.entryCount..i]), l.loadTimes)
  }

  // ---- What is counted ----

  predicate IsLoadedTcs(l: Layout) {
    l.Entry? && l.attributes & PAGE_ATTR_EADD != 0 && l.contentOffset != 0 && l.siFlags == SI_FLAGS_TCS
  }

  predicate IsStatic(l: Layout) {
    IsLoadedTcs(l) && l.attributes & PAGE_ATTR_EREMOVE == 0
  }

  predicate IsEremove(l: Layout) {
    IsLoadedTcs(l) && l.attributes & PAGE_ATTR_EREMOVE != 0
  }

  predicate IsDynamic(l: Layout) {
    l.Entry? && l.attributes & PAGE_ATTR_POST_ADD != 0 && l.id == LAYOUT_ID_TCS_DYN
  }

  function Count(p: Layout -> bool, s: seq<Layout>): nat {
    if s == [] then 0 else Count(p, s[..|s| - 1]) + (if p(s[|s| - 1]) then 1 else 0)
  }

  lemma {:induction false} CountConcat(p: Layout -> bool, s: seq<Layout>, t: seq<Layout>)
    ensures Count(p, s + t) == Count(p, s) + Count(p, t)
  {
    if t == [] {
      assert s + t == s;
    } else {
      CountConcat(p, s, t[..|t| - 1]);
      assert (s + t)[..|s + t| - 1] == s + t[..|t| - 1];
    }
  }

  /** A repeated span counts as often as it is loaded. */
  lemma {:induction false} CountRepeat(p: Layout -> bool, s: seq<Layout>, n: nat)
    ensures Count(p, Repeat(s, n)) == n * Count(p, s)
  {
    if n != 0 {
      CountRepeat(p, s, n - 1);
      CountConcat(p, Repeat(s, n - 1), s);
      assert n * Count(p, s) == (n - 1) * Count(p, s) + Count(p, s);
    }
  }

  /** The three u32 counts: static, eremove and dynamic. */
  datatype Tally = Tally(statics: nat, eremoves: nat, dynamics: nat)

  /** A tally with the entries of a flat layout added to it. */
  function Plus(t: Tally, flat: seq<Layout>): Tally {
    Tally(U32(t.statics + Count(IsStatic, flat)),
          U32(t.eremoves + Count(IsEremove, flat)),
          U32(t.dynamics + Count(IsDynamic, flat)))
  }

  lemma U32Add(a: nat, b: nat)
    ensures U32(U32(a) + b) == U32(a + b)
  {}

  lemma PlusConcat(t: Tally, a: seq<Layout>, b: seq<Layout>)
    ensures Plus(Plus(t, a), b) == Plus(t, a + b)
  {
    hide U32, Count;
    CountConcat(IsStatic, a, b);
    CountConcat(IsEremove, a, b);
    CountConcat(IsDynamic, a, b);
    U32Add(t.statics + Count(IsStatic, a), Count(IsStatic, b));
    U32Add(t.eremoves + Count(IsEremove, a), Count(IsEremove, b));
    U32Add(t.dynamics + Count(IsDynamic, a), Count(IsDynamic, b));
  }

  /** The counters that `traversal_layout` updates through its `&mut` parameters. */
  class Counters {
    var staticNum: nat
    var eremoveNum: nat
    var dynNum: nat

    function View(): Tally
      reads this
    {
      Tally(staticNum, eremoveNum, dynNum)
    }

    constructor ()
      ensures View() == Tally(0, 0, 0)
    {
      staticNum, eremoveNum, dynNum := 0, 0, 0;
    }

    method CountEntry(l: Layout)
      requires l.Entry? && staticNum < U32_RANGE && eremoveNum < U32_RANGE && dynNum < U32_RANGE
      modifies this
      ensures View() == Plus(old(View()), [l])
    {
      if l.attributes & PAGE_ATTR_EADD != 0 {
        if l.contentOffset != 0 && l.siFlags == SI_FLAGS_TCS {
          if l.attributes & PAGE_ATTR_EREMOVE == 0 {
            staticNum := (staticNum + 1) % U32_RANGE;
          } else {
            eremoveNum := (eremoveNum + 1) % U32_RANGE;
          }
        }
      }
      if l.attributes & PAGE_ATTR_POST_ADD != 0 {
        if l.id == LAYOUT_ID_TCS_DYN {
          dynNum := (dynNum + 1) % U32_RANGE;
        }
      }
      CountOne(IsStatic, l);
      CountOne(IsEremove, l);
      CountOne(IsDynamic, l);
    }

    method Traverse(table: seq<Layout>)
      requires WellFormed(table) && staticNum < U32_RANGE && eremoveNum < U32_RANGE && dynNum < U32_RANGE
      modifies this
      ensures View() == Plus(old(View()), Expand(table))
      decreases |table|
    {
      hide WellFormed, Plus, Count, Expand, ExpandPrefix, Unrolled, Repeat;
      ghost var before := View();
      PlusNothing(before);
      ExpandEnds(table);
      for i := 0 to |table|
        invariant staticNum < U32_RANGE && eremoveNum < U32_RANGE && dynNum < U32_RANGE
        invariant View() == Plus(before, ExpandPrefix(table, i))
      {
        var l := table[i];
        ghost var done := ExpandPrefix(table, i);
        ExpandStep(table, i);
        PlusIsU32(before, ExpandPrefix(table, i + 1));
        if l.Entry? {
          CountEntry(l);
          PlusConcat(before, done, [l]);
        } else {
          RepeatStep<Layout>([], 0);
          assert done + [] == done;
          for k := 0 to l.loadTimes
            invariant staticNum < U32_RANGE && eremoveNum < U32_RANGE && dynNum < U32_RANGE
            invariant k == 0 ==> View() == Plus(before, done)
            invariant k > 0 ==> View() == Plus(before, done + Repeat(SpanOf(table, i), k))
          {
            ghost var unit := SpanOf(table, i);
            Traverse(table[i - l.entryCount..i]);
            RepeatStep(unit, k);
            assert done + (Repeat(unit, k) + unit) == (done + Repeat(unit, k)) + unit;
            PlusConcat(before, done + Repeat(unit, k), unit);
            PlusIsU32(before, done + Repeat(unit, k + 1));
          }
        }
      }
    }
  }

  /** What one pass over the span of a group stands for. */
  ghost function SpanOf(table: seq<Layout>, i: nat): seq<Layout>
    requires WellFormed(table) && i < |table| && table[i].Group? && table[i].loadTimes > 0
    ensures table[i].entryCount <= i && WellFormed(table[i - table[i].entryCount..i])
  {
    assert GoodSpan(table, i);
    Expand(table[i - table[i].entryCount..i])
  }

  lemma ExpandEnds(table: seq<Layout>)
    requires WellFormed(table)
    ensures ExpandPrefix(table, 0) == [] && ExpandPrefix(table, |table|) == Expand(table)
  {}

  lemma ExpandStep(table: seq<Layout>, i: nat)
    requires WellFormed(table) && i < |table|
    ensures ExpandPrefix(table, i + 1) == ExpandPrefix(table, i) + Unrolled(table, i)
    ensures table[i].Entry? ==> Unrolled(table, i) == [table[i]]
    ensures table[i].Group? && table[i].loadTimes == 0 ==> Unrolled(table, i) == []
    ensures table[i].Group? && table[i].loadTimes > 0 ==>
              Unrolled(table, i) == Repeat(SpanOf(table, i), table[i].loadTimes)
  {
    hide WellFormed, Repeat, Expand;
  }

  lemma RepeatStep<T>(s: seq<T>, k: nat)
    ensures Repeat(s, 0) == [] && Repeat(s, k + 1) == Repeat(s, k) + s
  {}

  lemma CountOne(p: Layout -> bool, l: Layout)
    ensures Count(p, [l]) == if p(l) then 1 else 0
  {
    assert [l][..0] == [];
  }

  lemma PlusNothing(t: Tally)
    requires t.statics < U32_RANGE && t.eremoves < U32_RANGE && t.dynamics < U32_RANGE
    ensures Plus(t, []) == t
  {}

  lemma PlusIsU32(t: Tally, flat: seq<Layout>)
    ensures var u := Plus(t, flat);
            u.statics < U32_RANGE && u.eremoves < U32_RANGE && u.dynamics < U32_RANGE
  {}

  /** `rsgx_get_tcs_num`: the three counts of the expanded table. */
  method GetTcsNum(table: seq<Layout>) returns (statics: nat, eremoves: nat, dynamics: nat)
    requires WellFormed(table)
    ensures statics == Count(IsStatic, Expand(table)) % 0x1_0000_0000
    ensures eremoves == Count(IsEremove, Expand(table)) % 0x1_0000_0000
    ensures dynamics == Count(IsDynamic, Expand(table)) % 0x1_0000_0000
  {
    var c := new Counters();
    c.Traverse(table);
    return c.staticNum, c.eremoveNum, c.dynNum;
  }

  lemma SpanLocal(t: seq<Layout>, x: seq<Layout>, i: nat, j: nat)
    requires i <= j <= |t|
    ensures (t + x)[i..j] == t[i..j]
  {}

  lemma GoodSpanLocal(t: seq<Layout>, x: seq<Layout>, i: nat)
    requires i < |t|
    ensures (t + x)[i] == t[i]
    ensures GoodSpan(t + x, i) <==> GoodSpan(t, i)
  {
    hide WellFormed;
    if t[i].Group? && t[i].entryCount <= i {
      SpanLocal(t, x, i - t[i].entryCount, i);
    }
  }

  lemma ExtendedWellFormed(t: seq<Layout>, l: Layout)
    requires WellFormed(t) && GoodSpan(t + [l], |t|)
    ensures WellFormed(t + [l])
  {
    hide GoodSpan;
    forall i | 0 <= i < |t|
      ensures GoodSpan(t + [l], i)
    {
      GoodSpanLocal(t, [l], i);
    }
  }

  lemma UnrolledLocal(t: seq<Layout>, x: seq<Layout>, i: nat)
    requires WellFormed(t) && WellFormed(t + x) && i < |t|
    ensures Unrolled(t + x, i) == Unrolled(t, i)
  {
    hide WellFormed, Repeat, Expand;
    GoodSpanLocal(t, x, i);
    if t[i].Group? && t[i].loadTimes > 0 {
      SpanInside(t, i);
      SpanLocal(t, x, i - t[i].entryCount, i);
    }
  }

  lemma SpanInside(t: seq<Layout>, i: nat)
    requires WellFormed(t) && i < |t| && t[i].Group? && t[i].loadTimes > 0
    ensures t[i].entryCount <= i && WellFormed(t[i - t[i].entryCount..i])
  {
    assert GoodSpan(t, i);
  }

  lemma {:induction false} PrefixLocal(t: seq<Layout>, x: seq<Layout>, n: nat)
    requires WellFormed(t) && WellFormed(t + x) && n <= |t|
    ensures ExpandPrefix(t + x, n) == ExpandPrefix(t, n)
  {
    hide WellFormed, Unrolled;
    if n > 0 {
      PrefixLocal(t, x, n - 1);
      UnrolledLocal(t, x, n - 1);
    }
  }

  /** The group's span is the elements just before it, however many precede those. */
  lemma SpanBefore(a: seq<Layout>, b: seq<Layout>, n: nat)
    requires WellFormed(b)
    ensures var t, g := a + b, Group(|b|, n);
            (t + [g])[|t|] == g && (t + [g])[|t| - |b|..|t|] == b && GoodSpan(t + [g], |t|)
  {
    hide WellFormed;
    var t, g := a + b, Group(|b|, n);
    SpanLocal(t, [g], |a|, |t|);
    assert t[|a|..|t|] == b;
  }

  lemma GroupExpands(a: seq<Layout>, b: seq<Layout>, n: nat)
    requires WellFormed(a + b) && WellFormed(b)
    ensures WellFormed(a + b + [Group(|b|, n)])
    ensures Expand(a + b + [Group(|b|, n)]) == Expand(a + b) + Repeat(Expand(b), n)
  {
    hide WellFormed, Unrolled, ExpandPrefix, Expand, GoodSpan;
    var t, g := a + b, Group(|b|, n);
    var u := t + [g];
    SpanBefore(a, b, n);
    ExtendedWellFormed(t, g);
    ExpandEnds(t);
    ExpandEnds(u);
    PrefixLocal(t, [g], |t|);
    ExpandStep(u, |t|);
    RepeatStep(Expand(b), 0);
  }

  /** A group adds the counts of the elements just before it once more for each of its load times. */
  lemma GroupAdds(p: Layout -> bool, a: seq<Layout>, b: seq<Layout>, n: nat)
    requires WellFormed(a + b) && WellFormed(b)
    ensures WellFormed(a + b + [Group(|b|, n)])
    ensures Count(p, Expand(a + b + [Group(|b|, n)])) == Count(p, Expand(a + b)) + n * Count(p, Expand(b))
  {
    hide WellFormed, Expand, Repeat, Count;
    GroupExpands(a, b, n);
    CountConcat(p, Expand(a + b), Repeat(Expand(b), n));
    CountRepeat(p, Expand(b), n);
  }

  /**
   * A group over all that precedes it multiplies every count by its load times and one; so nested groups multiply.
   */
  lemma GroupMultiplies(p: Layout -> bool, t: seq<Layout>, n: nat)
    requires WellFormed(t)
    ensures WellFormed(t + [Group(|t|, n)])
    ensures Count(p, Expand(t + [Group(|t|, n)])) == (n + 1) * Count(p, Expand(t))
  {
    hide WellFormed, Expand, Repeat, Count;
    assert [] + t == t;
    GroupAdds(p, [], t, n);
    var c := Count(p, Expand(t));
    assert (n + 1) * c == n * c + c;
  }

  /** An entry adds itself. */
  lemma EntryAdds(p: Layout -> bool, t: seq<Layout>, l: Layout)
    requires WellFormed(t) && l.Entry?
    ensures WellFormed(t + [l])
    ensures Count(p, Expand(t + [l])) == Count(p, Expand(t)) + (if p(l) then 1 else 0)
  {
    hide WellFormed, Unrolled, ExpandPrefix, Expand, Count;
    var u := t + [l];
    assert u[|t|] == l && GoodSpan(u, |t|);
    ExtendedWellFormed(t, l);
    ExpandEnds(t);
    ExpandEnds(u);
    PrefixLocal(t, [l], |t|);
    ExpandStep(u, |t|);
    CountConcat(p, Expand(t), [l]);
    CountOne(p, l);
  }

  /** A group that is not loaded again adds nothing, however far back it reaches. */
  lemma IdleGroupAdds(p: Layout -> bool, t: seq<Layout>, k: nat)
    requires WellFormed(t)
    ensures WellFormed(t + [Group(k, 0)])
    ensures Count(p, Expand(t + [Group(k, 0)])) == Count(p, Expand(t))
  {
    hide WellFormed, Unrolled, ExpandPrefix, Expand, Count;
    var l := Group(k, 0);
    var u := t + [l];
    assert u[|t|] == l && GoodSpan(u, |t|);
    ExtendedWellFormed(t, l);
    ExpandEnds(t);
    ExpandEnds(u);
    PrefixLocal(t, [l], |t|);
    ExpandStep(u, |t|);
    assert Expand(t) + [] == Expand(t);
  }

  // ---- The three kinds by their bits ----

  /** A static TCS is added at load time and not removed afterwards: attribute bit 0 set and bit 2 clear. */
  lemma StaticIs(l: Layout)
    ensures IsStatic(l) <==>
            l.Entry? && l.attributes % 2 == 1 && l.attributes / 4 % 2 == 0 && l.contentOffset != 0 && l.siFlags == 0x100
  {}

  lemma EremoveIs(l: Layout)
    ensures IsEremove(l) <==>
            l.Entry? && l.attributes % 2 == 1 && l.attributes / 4 % 2 == 1 && l.contentOffset != 0 && l.siFlags == 0x100
  {}

  /** A dynamic TCS is added after load: attribute bit 3 set, under the dynamic layout id. */
  lemma DynamicIs(l: Layout)
    ensures IsDynamic(l) <==> l.Entry? && l.attributes / 8 % 2 == 1 && l.id == 14
  {}

  /** A heap before a thread group: the group repeats the thread and not the heap. */
  lemma ThreadGroupExample(heap: Layout, tcs: Layout)
    requires heap.Entry? && !IsStatic(heap) && IsStatic(tcs)
    ensures WellFormed([heap, tcs, Group(1, 3)])
    ensures Count(IsStatic, Expand([heap, tcs, Group(1, 3)])) == 4
  {
    hide Expand, Count, IsStatic, WellFormed;
    StaticIs(tcs);
    assert [] + [heap] == [heap] && [] + [tcs] == [tcs] && [heap] + [tcs] + [Group(1, 3)] == [heap, tcs, Group(1, 3)];
    EmptyTable();
    EntryAdds(IsStatic, [], heap);
    EntryAdds(IsStatic, [heap], tcs);
    EntryAdds(IsStatic, [], tcs);
    GroupAdds(IsStatic, [heap], [tcs], 3);
  }

  lemma EmptyTable()
    ensures WellFormed([]) && Count(IsStatic, Expand([])) == 0
  {}
}
