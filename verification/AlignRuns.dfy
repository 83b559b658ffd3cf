/** Every run of request checks, allocations, client writes and deallocations over one heap. */
module AlignRuns {
  import opened AlignAlloc
  import opened AlignBits
  import opened AlignLayout
  import opened Bytes
  import opened LibcHeap
  import opened Placement

  /**
   * The heap, the client's objects, the scratch bitmaps left behind, and whether a store has gone outside its block.
   */
  datatype State = State(heap: Blocks, live: set<Object>, bitmaps: set<nat>, broken: bool)

  /** A call of `alloc_with_req` is a check and, when the layout it yields is acceptable, an allocation. */
  datatype Event =
    | Check(l: Layout, reqs: seq<AlignReq>, scratch: Answer)
    | Allocate(zeroed: bool, l: Layout, p: Layout, o: Object)
    | Write(o: Object, at: nat, data: seq<Byte>)
    | Release(o: Object)

  ghost predicate Leaves(e: Event) {
    e.Check? && e.l.size > 0 && LeavesBitmap(e.l, e.reqs, e.scratch)
  }

  ghost predicate Next(s: State, e: Event, s': State) {
    if s.broken then s'.broken
    else
      match e
      case Check(l, reqs, scratch) =>
        Checked(s.heap, s'.heap, l, reqs, scratch)
        && s' == s.(heap := s'.heap, bitmaps := if Leaves(e) then s.bitmaps + {scratch.addr} else s.bitmaps)
      case Allocate(zeroed, l, p, o) =>
        && 0 < p.align && l.size + p.align <= p.size
        && (s'.broken <==> !HeaderInside(o.raw, l, p))
        && (!s'.broken ==>
              Allocated(s.heap, s'.heap, zeroed, l, p, o) && s' == s.(heap := s'.heap, live := s.live + {o}))
      case Write(o, at, data) =>
        o in s.live && 0 < |data| && o.ptr <= at && at + |data| <= o.ptr + o.size
        && Written(s.heap, s'.heap, at, data) && s' == s.(heap := s'.heap)
      case Release(o) =>
        o in s.live && Released(s.heap, s'.heap, o.ptr) && s' == s.(heap := s'.heap, live := s.live - {o})
  }

  /** Each live block is that of one live object or a bitmap left behind, and every header still names its block. */
  ghost predicate Inv(s: State) {
    && WellFormed(s.heap)
    && s.bitmaps <= s.heap.Keys
    && (forall o | o in s.live :: Holds(s.heap, o) && o.raw !in s.bitmaps)
    && (forall o, o' | o in s.live && o' in s.live && o.raw == o'.raw :: o == o')
    && (forall r | r in s.heap && r !in s.bitmaps :: exists o | o in s.live :: o.raw == r)
  }

  /** A write inside a live object changes its own bytes, as asked, and no other block. */
  lemma WriteStays(s: State, o: Object, at: nat, data: seq<Byte>, h': Blocks)
    requires Inv(s) && o in s.live && 0 < |data| && o.ptr <= at && at + |data| <= o.ptr + o.size
    requires Written(s.heap, h', at, data)
    ensures Holds(s.heap, o) && h' == s.heap[o.raw := Overwrite(s.heap[o.raw], at - o.raw, data)]
    ensures Holds(h', o) && Contents(h', o) == Overwrite(Contents(s.heap, o), at - o.ptr, data)
  {
    hide WellFormed, Decode, Overwrite;
    var r :| InBlock(s.heap, r, at, |data|) && h' == s.heap[r := Overwrite(s.heap[r], at - r, data)];
    OwnerUnique(s.heap, r, o.raw, at, |data|);
    WriteInsideHolds(s.heap, h', o, at, data);
  }

  /** dealloc frees exactly the block of the object it is given. */
  lemma ReleaseFreesOwnBlock(h: Blocks, o: Object, h': Blocks)
    requires WellFormed(h) && Holds(h, o) && Released(h, h', o.ptr)
    ensures h' == h - {o.raw}
  {
    hide WellFormed, Decode;
    var r :| HasHeader(h, o.ptr, r) && h' == h - {Named(h, o.ptr, r)};
    OwnerUnique(h, r, o.raw, o.ptr - PTR_SIZE, PTR_SIZE);
  }

  lemma CheckKeepsInv(s: State, e: Event, s': State)
    requires Inv(s) && !s.broken && Next(s, e, s') && e.Check?
    ensures Inv(s') && !s'.broken
  {
    hide Holds, Contents, WellFormed, GoodRequests, CheckLayout;
    if Leaves(e) {
      ExtendedKeepsWellFormed(s.heap, s'.heap, e.scratch.addr, ScratchLen(e.l.size));
      forall o | o in s.live
        ensures Holds(s'.heap, o) && o.raw != e.scratch.addr
      {
        HoldsStays(s.heap, s'.heap, e.scratch.addr, ScratchLen(e.l.size), o);
      }
    }
  }

  lemma HoldsStays(h: Blocks, h': Blocks, a: nat, n: nat, o: Object)
    requires Extended(h, h', a, n) && Holds(h, o)
    ensures Holds(h', o) && o.raw != a
  {
    hide Contents, Decode;
    FrameHolds(h, h', o);
  }

  lemma AllocateKeepsInv(s: State, e: Event, s': State)
    requires Inv(s) && !s.broken && Next(s, e, s') && e.Allocate? && !s'.broken
    ensures Inv(s')
  {
    hide Holds, Contents, ObjectAt, WellFormed, HeaderInside;
    ExtendedKeepsWellFormed(s.heap, s'.heap, e.o.raw, e.p.size + PTR_SIZE);
    forall o | o in s.live
      ensures Holds(s'.heap, o) && o.raw != e.o.raw
    {
      HoldsStays(s.heap, s'.heap, e.o.raw, e.p.size + PTR_SIZE, o);
    }
  }

  lemma WriteKeepsInv(s: State, e: Event, s': State)
    requires Inv(s) && !s.broken && Next(s, e, s') && e.Write?
    ensures Inv(s') && !s'.broken
  {
    hide Contents, Decode, Overwrite, WellFormed, Written, Header;
    WriteStays(s, e.o, e.at, e.data, s'.heap);
    OverwriteKeepsWellFormed(s.heap, e.o.raw, s'.heap[e.o.raw]);
    forall o | o in s.live
      ensures Holds(s'.heap, o)
    {
      if o != e.o { FrameHolds(s.heap, s'.heap, o); }
    }
  }

  lemma ReleaseKeepsInv(s: State, e: Event, s': State)
    requires Inv(s) && !s.broken && Next(s, e, s') && e.Release?
    ensures Inv(s') && !s'.broken
  {
    hide Contents, Decode, WellFormed, Released, Header;
    ReleaseFreesOwnBlock(s.heap, e.o, s'.heap);
    RemoveKeepsWellFormed(s.heap, e.o.raw);
    forall o | o in s'.live
      ensures Holds(s'.heap, o)
    {
      FrameHolds(s.heap, s'.heap, o);
    }
  }

  /** Undefined behaviour starts only with an allocation whose header word lies outside its block. */
  ghost predicate Strays(e: Event) {
    e.Allocate? && 0 < e.p.align && e.l.size + e.p.align <= e.p.size && !HeaderInside(e.o.raw, e.l, e.p)
  }

  lemma NextKeepsInv(s: State, e: Event, s': State)
    requires Next(s, e, s') && (s.broken || Inv(s))
    ensures s'.broken || Inv(s')
    ensures s'.broken <==> s.broken || Strays(e)
  {
    hide Inv, HeaderInside;
    if !s.broken {
      match e
      case Check(_, _, _) => CheckKeepsInv(s, e, s');
      case Allocate(_, _, _, _) => if !s'.broken { AllocateKeepsInv(s, e, s'); }
      case Write(_, _, _) => WriteKeepsInv(s, e, s');
      case Release(_) => ReleaseKeepsInv(s, e, s');
    }
  }

  ghost predicate IsRun(states: seq<State>, events: seq<Event>) {
    && |states| == |events| + 1
    && states[0] == State(map[], {}, {}, false)
    && forall i | 0 <= i < |events| :: Next(states[i], events[i], states[i + 1])
  }

  lemma StartInv()
    ensures Inv(State(map[], {}, {}, false))
  {}

  /** Over every run the invariant holds until, and behaviour is undefined from, the first header that strays. */
  lemma {:induction false} RunKeepsInv(states: seq<State>, events: seq<Event>, i: nat)
    requires IsRun(states, events) && i < |states|
    ensures states[i].broken <==> exists j | 0 <= j < i :: Strays(events[j])
    ensures !states[i].broken ==> Inv(states[i])
  {
    hide Inv, Next, Strays;
    if i == 0 {
      StartInv();
    } else {
      RunKeepsInv(states, events, i - 1);
      assert Next(states[i - 1], events[i - 1], states[i]);
      NextKeepsInv(states[i - 1], events[i - 1], states[i]);
    }
  }

  /** An event that a client of the allocator causes: layouts are accepted ones, and addresses are malloc's. */
  ghost predicate Proper(e: Event, reqs: seq<AlignReq>) {
    e.Allocate? ==> Accepted(e.l, reqs, e.p) && MallocAddress(e.o.raw)
  }

  /**
   * A run whose requests all leave a pad of 8 or more never goes wrong, wherever malloc puts the blocks; nor does one
   * whose objects are placed whole and are not among the smallest.
   */
  lemma SafeRuns(states: seq<State>, events: seq<Event>, reqs: seq<seq<AlignReq>>, i: nat)
    requires IsRun(states, events) && i < |states| && |reqs| == |events|
    requires forall j | 0 <= j < |events| :: Proper(events[j], reqs[j])
    requires forall j | 0 <= j < |events| && events[j].Allocate? :: Roomy(events[j].l, events[j].p, reqs[j])
    ensures !states[i].broken && Inv(states[i])
  {
    hide Inv, Next, Strays, Proper, Roomy;
    forall j | 0 <= j < i
      ensures !Strays(events[j])
    {
      assert Proper(events[j], reqs[j]);
      if events[j].Allocate? {
        assert Roomy(events[j].l, events[j].p, reqs[j]);
      }
      RoomyStaysInside(events[j], reqs[j]);
    }
    RunKeepsInv(states, events, i);
  }

  /** The layouts that leave room for the header word, by pad, or by size when the whole object is asked for. */
  ghost predicate Roomy(l: Layout, p: Layout, reqs: seq<AlignReq>) {
    (p.size >= p.align + l.size + PTR_SIZE) || (reqs == WholeRequest(l) && l.size + l.align > 4)
  }

  lemma RoomyStaysInside(e: Event, reqs: seq<AlignReq>)
    requires Proper(e, reqs) && (e.Allocate? ==> Roomy(e.l, e.p, reqs))
    ensures !Strays(e)
  {
    hide Accepted, HeaderInside;
    if e.Allocate? {
      HeaderInsideIff(e.l, reqs, e.p);
      if reqs == WholeRequest(e.l) { WholeHeaderInsideIff(e.l, e.p); }
    }
  }

  /** Header and bytes of two live objects never share an address, in any reachable state. */
  lemma LiveObjectsApart(states: seq<State>, events: seq<Event>, i: nat, o: Object, o': Object)
    requires IsRun(states, events) && i < |states| && !states[i].broken
    requires o in states[i].live && o' in states[i].live && o != o'
    ensures PTR_SIZE < o.ptr && PTR_SIZE < o'.ptr
    ensures Apart(o.ptr - PTR_SIZE, o.size + PTR_SIZE, o'.ptr - PTR_SIZE, o'.size + PTR_SIZE)
  {
    hide IsRun, Strays;
    RunKeepsInv(states, events, i);
    assert Holds(states[i].heap, o) && Holds(states[i].heap, o');
  }

  ghost function LeftBy(events: seq<Event>): nat {
    if events == [] then 0
    else LeftBy(events[..|events| - 1]) + (if Leaves(events[|events| - 1]) then 1 else 0)
  }

  lemma {:induction false} BitmapsCounted(states: seq<State>, events: seq<Event>, i: nat)
    requires IsRun(states, events) && i < |states| && !states[i].broken
    ensures |states[i].bitmaps| == LeftBy(events[..i])
  {
    hide Inv, Next, Strays, Leaves;
    if i > 0 {
      RunKeepsInv(states, events, i - 1);
      assert Next(states[i - 1], events[i - 1], states[i]);
      NextKeepsInv(states[i - 1], events[i - 1], states[i]);
      assert events[..i][..i - 1] == events[..i - 1];
      BitmapsCounted(states, events, i - 1);
      BitmapsStep(states[i - 1], events[i - 1], states[i]);
    }
  }

  lemma BitmapsStep(s: State, e: Event, s': State)
    requires Inv(s) && !s.broken && Next(s, e, s') && !s'.broken
    ensures |s'.bitmaps| == |s.bitmaps| + (if Leaves(e) then 1 else 0)
  {
    hide GoodRequests, WellFormed, Holds, Allocated, Written, Released, CheckLayout, HeaderInside;
    if Leaves(e) {
      assert e.scratch.addr !in s.bitmaps;
    }
  }

  /**
   * What leaks: when the last object has been released the heap holds the scratch bitmaps and nothing else, one for
   * every request list that passed its check.
   */
  lemma OnlyBitmapsRemain(states: seq<State>, events: seq<Event>, i: nat)
    requires IsRun(states, events) && i < |states| && !states[i].broken && states[i].live == {}
    ensures states[i].heap.Keys == states[i].bitmaps
    ensures |states[i].heap| == LeftBy(events[..i])
  {
    hide IsRun, Strays, LeftBy;
    RunKeepsInv(states, events, i);
    BitmapsCounted(states, events, i);
  }

  lemma StepFrames(s: State, e: Event, s': State, o: Object)
    requires Inv(s) && !s.broken && Next(s, e, s') && !s'.broken && o in s.live && (e.Check? || o != e.o)
    ensures Holds(s.heap, o) && o in s'.live && o.raw in s'.heap && s'.heap[o.raw] == s.heap[o.raw]
  {
    hide Contents, Decode, Overwrite, WellFormed, Written, Released, Header, ObjectAt, GoodRequests, HeaderInside;
    assert Holds(s.heap, o);
    match e
    case Check(_, _, _) =>
    case Allocate(_, _, _, _) =>
    case Write(p, at, data) => WriteStays(s, p, at, data, s'.heap);
    case Release(p) => ReleaseFreesOwnBlock(s.heap, p, s'.heap);
  }

  /** No step touches the bytes of an object other than its subject. */
  lemma OthersUntouched(states: seq<State>, events: seq<Event>, i: nat, o: Object)
    requires IsRun(states, events) && i < |events| && o in states[i].live && (events[i].Check? || o != events[i].o)
    requires !states[i + 1].broken
    ensures Placed(states[i].heap, o) && o in states[i + 1].live && Placed(states[i + 1].heap, o)
    ensures Contents(states[i + 1].heap, o) == Contents(states[i].heap, o)
  {
    hide Contents, Inv, Next, Strays;
    RunKeepsInv(states, events, i);
    RunKeepsInv(states, events, i + 1);
    assert Next(states[i], events[i], states[i + 1]);
    StepFrames(states[i], events[i], states[i + 1], o);
    FrameHolds(states[i].heap, states[i + 1].heap, o);
  }
}
