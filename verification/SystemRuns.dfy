/** Every run of allocate, grow, shrink, deallocate and client writes, with libc failing wherever it likes. */
module SystemRuns {
  import opened AlignLayout
  import opened Arithmetic
  import opened Bytes
  import opened LibcHeap
  import opened SystemAlloc
  import opened Wrappers

  type Handle = nat

  /** An allocation the client holds: its address and the layout it goes by. */
  datatype Held = Held(ptr: nat, l: Layout)

  datatype State = State(heap: Blocks, held: map<Handle, Held>)

  datatype Event =
    | Allocate(id: Handle, l: Layout, zeroed: bool, r: Option<nat>)
    | Grow(id: Handle, l: Layout, zeroed: bool, r: Option<nat>)
    | Shrink(id: Handle, l: Layout, r: Option<nat>)
    | Deallocate(id: Handle)
    | Write(id: Handle, data: seq<Byte>)

  /** The client's side: a failed call leaves it with what it had. */
  function Keep(s: State, id: Handle, l: Layout, r: Option<nat>): map<Handle, Held> {
    if r.Some? then s.held[id := Held(r.value, l)] else s.held
  }

  ghost predicate Next(s: State, e: Event, s': State) {
    WellFormed(s'.heap) && (e.Allocate? || e.id in s.held) &&
    match e
    case Allocate(id, l, zeroed, r) =>
      id !in s.held && l.align > 0 && Allocated(s.heap, s'.heap, l, zeroed, r) && s'.held == Keep(s, id, l, r)
    case Grow(id, l, zeroed, r) =>
      l.align > 0 && l.size >= s.held[id].l.size
      && Grown(s.heap, s'.heap, s.held[id].ptr, s.held[id].l, l, zeroed, r) && s'.held == Keep(s, id, l, r)
    case Shrink(id, l, r) =>
      l.align > 0 && l.size <= s.held[id].l.size
      && Shrunk(s.heap, s'.heap, s.held[id].ptr, s.held[id].l, l, r) && s'.held == Keep(s, id, l, r)
    case Deallocate(id) =>
      Deallocated(s.heap, s'.heap, s.held[id].ptr, s.held[id].l) && s'.held == s.held - {id}
    case Write(id, data) =>
      s.held[id].ptr in s.heap && s.held[id].l.size > 0 && |data| == s.held[id].l.size
      && s'.heap == s.heap[s.held[id].ptr := data] && s'.held == s.held
  }

  ghost predicate Backed(s: State, id: Handle)
    requires id in s.held
  {
    var a := s.held[id];
    && a.l.align > 0 && a.ptr % a.l.align == 0
    && (a.l.size > 0 ==> a.ptr in s.heap && |s.heap[a.ptr]| == a.l.size)
  }

  /** The non-empty allocation id has its bytes at p. */
  ghost predicate Owns(s: State, id: Handle, p: nat) {
    id in s.held && s.held[id].l.size > 0 && s.held[id].ptr == p
  }

  /** The live blocks are exactly the client's non-empty allocations, one block each. */
  ghost predicate Inv(s: State) {
    && WellFormed(s.heap)
    && (forall id | id in s.held :: Backed(s, id))
    && (forall i, j, p | Owns(s, i, p) && Owns(s, j, p) :: i == j)
    && (forall p | p in s.heap :: exists id :: Owns(s, id, p))
  }

  lemma OwnedIsLive(s: State, id: Handle, p: nat)
    requires Owns(s, id, p) && Backed(s, id)
    ensures p in s.heap
  {}

  /** The state after the client gave up one allocation. */
  ghost function Dropped(s: State, id: Handle): State
    requires id in s.held
  {
    State(if s.held[id].l.size > 0 then s.heap - {s.held[id].ptr} else s.heap, s.held - {id})
  }

  lemma DroppedOwns(s: State, id: Handle, i: Handle, p: nat)
    requires id in s.held
    ensures Owns(Dropped(s, id), i, p) <==> i != id && Owns(s, i, p)
    ensures p in Dropped(s, id).heap <==> p in s.heap && !Owns(s, id, p)
  {}

  lemma DroppedBacked(s: State, id: Handle, i: Handle)
    requires id in s.held && i in s.held && i != id && Backed(s, i)
    requires forall p :: !(Owns(s, id, p) && Owns(s, i, p))
    ensures Backed(Dropped(s, id), i)
  {
    assert s.held[i].l.size > 0 ==> Owns(s, i, s.held[i].ptr);
  }

  lemma DropKeepsInv(s: State, id: Handle)
    requires Inv(s) && id in s.held
    ensures Inv(Dropped(s, id))
  {
    var s' := Dropped(s, id);
    RemoveKeepsWellFormed(s.heap, s.held[id].ptr);
    hide WellFormed, Owns, Backed;
    forall i | i in s'.held
      ensures Backed(s', i)
    {
      DroppedBacked(s, id, i);
    }
    forall i, p
      ensures Owns(s', i, p) <==> i != id && Owns(s, i, p)
    {
      DroppedOwns(s, id, i, p);
    }
    forall p | p in s'.heap
      ensures exists i :: Owns(s', i, p)
    {
      var i :| Owns(s, i, p);
      DroppedOwns(s, id, i, p);
    }
  }

  /** The heap after the client was given p for the layout l. */
  ghost predicate Gained(h: Blocks, h': Blocks, l: Layout, p: nat) {
    l.align > 0 && p % l.align == 0 && if l.size == 0 then h' == h else NewBlock(h, h', l, p)
  }

  lemma GainedFacts(s: State, id: Handle, l: Layout, p: nat, h': Blocks)
    requires id !in s.held && WellFormed(s.heap) && Gained(s.heap, h', l, p)
    ensures WellFormed(h') && h'.Keys == s.heap.Keys + (if l.size > 0 then {p} else {})
    ensures l.size > 0 ==> p !in s.heap
    ensures Backed(State(h', s.held[id := Held(p, l)]), id)
    ensures forall i | i in s.held && Backed(s, i) :: Backed(State(h', s.held[id := Held(p, l)]), i)
  {
    hide WellFormed;
  }

  lemma GainKeepsInv(s: State, id: Handle, l: Layout, p: nat, h': Blocks)
    requires Inv(s) && id !in s.held && Gained(s.heap, h', l, p)
    ensures Inv(State(h', s.held[id := Held(p, l)]))
  {
    hide WellFormed, Gained, Backed;
    var s' := State(h', s.held[id := Held(p, l)]);
    GainedFacts(s, id, l, p, h');
    forall i, q
      ensures Owns(s', i, q) <==> if i == id then l.size > 0 && q == p else Owns(s, i, q)
    {}
    hide Owns;
    forall i, q | Owns(s, i, q)
      ensures i in s.held && q in s.heap
    {
      OwnerHeld(s, i, q);
      OwnedIsLive(s, i, q);
    }
    forall q | q in s'.heap
      ensures exists i :: Owns(s', i, q)
    {
      if q in s.heap {
        var i :| Owns(s, i, q);
        assert Owns(s', i, q);
      } else {
        assert Owns(s', id, q);
      }
    }
  }

  lemma OwnerHeld(s: State, id: Handle, p: nat)
    requires Owns(s, id, p)
    ensures id in s.held
  {}

  /** A successful grow or shrink to a non-empty layout is one allocation given up and another gained. */
  lemma AdjustKeepsInv(s: State, id: Handle, l: Layout, p: nat, h': Blocks)
    requires Inv(s) && id in s.held && Gained(Dropped(s, id).heap, h', l, p)
    ensures Inv(State(h', s.held[id := Held(p, l)]))
  {
    hide WellFormed, Inv, Gained;
    DropKeepsInv(s, id);
    GainKeepsInv(Dropped(s, id), id, l, p, h');
    assert (s.held - {id})[id := Held(p, l)] == s.held[id := Held(p, l)];
  }

  lemma AdjustGains(s: State, e: Event, s': State)
    requires Next(s, e, s') && (e.Grow? || e.Shrink?) && e.r.Some?
    ensures Gained(Dropped(s, e.id).heap, s'.heap, e.l, e.r.value)
  {
    hide WellFormed;
    ModIs(e.l.align, e.l.align, 1, 0);
  }

  lemma WriteKeepsInv(s: State, e: Event, s': State)
    requires Inv(s) && Next(s, e, s') && e.Write?
    ensures Inv(s')
  {
    hide WellFormed;
    forall i | i in s'.held
      ensures Backed(s', i)
    {
      assert Backed(s, i);
    }
    forall i, p
      ensures Owns(s', i, p) <==> Owns(s, i, p)
    {}
    hide Owns, Backed;
    assert s'.heap.Keys == s.heap.Keys;
  }

  lemma NextKeepsInv(s: State, e: Event, s': State)
    requires Inv(s) && Next(s, e, s')
    ensures Inv(s')
  {
    hide WellFormed, Inv, NewBlock;
    match e
    case Allocate(id, l, zeroed, r) =>
      if r.Some? { GainKeepsInv(s, id, l, r.value, s'.heap); }
    case Grow(id, l, zeroed, r) =>
      if r.Some? { AdjustGains(s, e, s'); AdjustKeepsInv(s, id, l, r.value, s'.heap); }
    case Shrink(id, l, r) =>
      if r.Some? { AdjustGains(s, e, s'); AdjustKeepsInv(s, id, l, r.value, s'.heap); }
    case Deallocate(id) => DropKeepsInv(s, id);
    case Write(_, _) => WriteKeepsInv(s, e, s');
  }

  ghost predicate IsRun(states: seq<State>, events: seq<Event>) {
    && |states| == |events| + 1
    && states[0] == State(map[], map[])
    && forall i | 0 <= i < |events| :: Next(states[i], events[i], states[i + 1])
  }

  lemma {:induction false} RunKeepsInv(states: seq<State>, events: seq<Event>, i: nat)
    requires IsRun(states, events) && i < |states|
    ensures Inv(states[i])
  {
    if i > 0 {
      RunKeepsInv(states, events, i - 1);
      NextKeepsInv(states[i - 1], events[i - 1], states[i]);
    }
  }

  /**
   * No leak and no double free: at every moment of every run, an address is a live libc block exactly when some
   * non-empty allocation of the client's has it, and then its size and alignment are as asked.
   */
  lemma LiveBlocksAreHeld(states: seq<State>, events: seq<Event>, i: nat, p: nat)
    requires IsRun(states, events) && i < |states|
    ensures p in states[i].heap <==> exists id :: Owns(states[i], id, p)
    ensures forall id | id in states[i].held && states[i].held[id].l.size > 0 ::
              var a := states[i].held[id];
              a.ptr in states[i].heap && |states[i].heap[a.ptr]| == a.l.size
              && a.l.align > 0 && a.ptr % a.l.align == 0
  {
    hide WellFormed;
    RunKeepsInv(states, events, i);
    assert forall id | id in states[i].held :: Backed(states[i], id);
  }

  ghost predicate Failed(e: Event) {
    (e.Allocate? || e.Grow? || e.Shrink?) && e.r.None?
  }

  lemma FailureChangesNothing(s: State, e: Event, s': State)
    requires Next(s, e, s') && Failed(e)
    ensures s' == s
  {}

  /** The events of a run that did not fail. */
  ghost function Succeeded(events: seq<Event>): seq<Event> {
    if events == [] then []
    else
      var e := events[|events| - 1];
      Succeeded(events[..|events| - 1]) + (if Failed(e) then [] else [e])
  }

  /** Failed calls leave no trace: without them the rest of the run is a run as well, and ends in the same state. */
  lemma {:induction false} FailuresLeaveNoTrace(states: seq<State>, events: seq<Event>) returns (rest: seq<State>)
    requires IsRun(states, events)
    ensures IsRun(rest, Succeeded(events)) && rest[|rest| - 1] == states[|states| - 1]
  {
    hide Next, Failed;
    if events == [] {
      rest := states;
    } else {
      var n := |events| - 1;
      var before := FailuresLeaveNoTrace(states[..n + 1], events[..n]);
      assert Next(states[n], events[n], states[n + 1]);
      if Failed(events[n]) {
        FailureChangesNothing(states[n], events[n], states[n + 1]);
        rest := before;
      } else {
        rest := before + [states[n + 1]];
      }
    }
  }

  lemma GainFrames(h: Blocks, h': Blocks, l: Layout, p: nat, a: nat)
    requires Gained(h, h', l, p) && a in h
    ensures a in h' && h'[a] == h[a]
  {
    hide WellFormed;
  }

  lemma StepGains(s: State, e: Event, s': State)
    requires Next(s, e, s') && (e.Allocate? || e.Grow? || e.Shrink?) && e.r.Some?
    ensures Gained((if e.id in s.held then Dropped(s, e.id) else s).heap, s'.heap, e.l, e.r.value)
    ensures s'.held == s.held[e.id := Held(e.r.value, e.l)]
  {
    hide WellFormed, Gained, Dropped;
    if e.Allocate? { AllocateGains(s, e, s'); } else { AdjustGains(s, e, s'); }
  }

  lemma AllocateGains(s: State, e: Event, s': State)
    requires Next(s, e, s') && e.Allocate? && e.r.Some?
    ensures Gained(s.heap, s'.heap, e.l, e.r.value)
  {
    hide WellFormed;
  }

  lemma OtherFramed(s: State, e: Event, s': State, id: Handle)
    requires Inv(s) && Next(s, e, s') && id in s.held && id != e.id && s.held[id].l.size > 0
    ensures id in s'.held && s'.held[id] == s.held[id]
    ensures s.held[id].ptr in s.heap && s.held[id].ptr in s'.heap
    ensures s'.heap[s.held[id].ptr] == s.heap[s.held[id].ptr]
  {
    var a := s.held[id].ptr;
    assert Owns(s, id, a);
    OwnedIsLive(s, id, a);
    assert !Owns(s, e.id, a);
    hide WellFormed, Inv, Gained;
    if Failed(e) {
      FailureChangesNothing(s, e, s');
    } else if e.Allocate? || e.Grow? || e.Shrink? {
      hide Next;
      StepGains(s, e, s');
      if e.id in s.held { DroppedOwns(s, e.id, id, a); }
      GainFrames((if e.id in s.held then Dropped(s, e.id) else s).heap, s'.heap, e.l, e.r.value, a);
    }
  }

  /** The bytes an allocation keeps: all that fit when it is resized, and all when another one is the subject. */
  lemma BytesKept(s: State, e: Event, s': State, id: Handle)
    requires Inv(s) && Next(s, e, s') && id in s.held && id in s'.held
    requires s.held[id].l.size > 0 && s'.held[id].l.size > 0
    ensures Backed(s, id) && Backed(s', id)
    ensures !(e.Write? && e.id == id) ==>
              var kept := Min(s.held[id].l.size, s'.held[id].l.size);
              s'.heap[s'.held[id].ptr][..kept] == s.heap[s.held[id].ptr][..kept]
  {
    NextKeepsInv(s, e, s');
    assert Backed(s, id) && Backed(s', id);
    hide WellFormed, Inv;
    if e.id != id {
      OtherFramed(s, e, s', id);
    } else if !e.Write? {
      OwnBytesKept(s, e, s');
    }
  }

  lemma OwnBytesKept(s: State, e: Event, s': State)
    requires Next(s, e, s') && !e.Write? && !e.Allocate? && e.id in s'.held
    requires s.held[e.id].l.size > 0 && s'.held[e.id].l.size > 0
    requires Backed(s, e.id) && Backed(s', e.id)
    ensures var kept := Min(s.held[e.id].l.size, s'.held[e.id].l.size);
            s'.heap[s'.held[e.id].ptr][..kept] == s.heap[s.held[e.id].ptr][..kept]
  {
    hide WellFormed;
    match e
    case Grow(_, _, _, _) =>
    case Shrink(_, _, _) =>
    case Deallocate(_) =>
  }
}
