/** Two threads that only hand over to each other: set the other's event, then wait on their own. */
module Handover {
  import opened TcsEvents
  import opened Wrappers

  datatype Side = Left | Right {
    function Other(): Side {
      if this == Left then Right else Left
    }

    function Id(): Thread {
      if this == Left then 0 else 1
    }
  }

  /** Where a thread is in `u_thread_setwait_events_ocall`. */
  datatype Place = Outside | SetDone | Waiting

  /** A thread's own event, and where the thread is. */
  datatype Half = Half(event: Event, place: Place)

  datatype Pair = Pair(left: Half, right: Half) {
    function At(s: Side): Half {
      if s == Left then left else right
    }

    function Put(s: Side, h: Half): Pair {
      if s == Left then this.(left := h) else this.(right := h)
    }
  }

  datatype Move =
    | SetOther(side: Side, chosen: Option<Thread>)
    | WaitSelf(side: Side, timed: bool, elapsed: bool)
    | RefusedWait(side: Side)
    | LeaveQueue(side: Side)
    | LookAgain(side: Side, elapsed: bool)

  ghost predicate MoveEnabled(p: Pair, m: Move) {
    var h := p.At(m.side);
    match m
    case SetOther(s, chosen) => h.place == Outside && MayNotify(p.At(s.Other()).event, chosen)
    case WaitSelf(s, _, _) => h.place == SetDone && s.Id() !in h.event.waiters
    case RefusedWait(_) => h.place == SetDone
    case LeaveQueue(s) => h.place == Waiting && Queued(h.event, s.Id())
    case LookAgain(s, elapsed) => h.place == Waiting && Enabled(h.event, Recheck(s.Id(), elapsed))
  }

  /** A thread is waiting while its event lists it, and outside again when it does not. */
  function Back(e: Event, s: Side): Half {
    Half(e, if s.Id() in e.waiters then Waiting else Outside)
  }

  function MoveApply(p: Pair, m: Move): Pair
    requires m.LeaveQueue? || m.LookAgain? ==> m.side.Id() in p.At(m.side).event.waiters
  {
    var h := p.At(m.side);
    match m
    case SetOther(s, chosen) =>
      var there := p.At(s.Other());
      p.Put(s, h.(place := SetDone)).Put(s.Other(), there.(event := Apply(there.event, Wake(chosen))))
    case WaitSelf(s, timed, elapsed) => p.Put(s, Back(Apply(h.event, Start(s.Id(), timed, elapsed)), s))
    case RefusedWait(s) => p.Put(s, h.(place := Outside))
    case LeaveQueue(s) => p.Put(s, Back(Apply(h.event, Spurious(s.Id())), s))
    case LookAgain(s, elapsed) => p.Put(s, Back(Apply(h.event, Recheck(s.Id(), elapsed)), s))
  }

  ghost predicate HalfInv(h: Half, s: Side, wakesGiven: nat) {
    && Inv(h.event)
    && h.event.waiters.Keys <= {s.Id()}
    && (h.place == Waiting <==> s.Id() in h.event.waiters)
    && wakesGiven >= h.event.starts + (if h.place == SetDone then 1 else 0)
  }

  /**
   * Each thread has set the other's event at least once for every wait it has started or is about to start; more often
   * when waits were refused for a bad timeout.
   */
  ghost predicate PairInv(p: Pair) {
    HalfInv(p.left, Left, p.right.event.wakes) && HalfInv(p.right, Right, p.left.event.wakes)
  }

  const APART: Pair := Pair(Half(IDLE, Outside), Half(IDLE, Outside))

  ghost predicate IsHandover(pairs: seq<Pair>, moves: seq<Move>) {
    && |pairs| == |moves| + 1
    && pairs[0] == APART
    && forall i | 0 <= i < |moves| :: MoveEnabled(pairs[i], moves[i]) && pairs[i + 1] == MoveApply(pairs[i], moves[i])
  }

  lemma OwnStep(h: Half, s: Side, wakes: nat, step: Step)
    requires HalfInv(h, s, wakes) && Enabled(h.event, step)
    requires match step
             case Start(t, _, _) => t == s.Id() && h.place == SetDone
             case Recheck(t, _) => t == s.Id()
             case Spurious(t) => t == s.Id()
             case Wake(_) => false
    ensures HalfInv(Back(Apply(h.event, step), s), s, wakes)
    ensures Apply(h.event, step).wakes == h.event.wakes
  {
    hide Inv;
    assert step.Start? ==> h.event.waiters == map[];
    StepKeepsInv(h.event, step);
  }

  lemma WokenStep(h: Half, s: Side, wakes: nat, chosen: Option<Thread>)
    requires HalfInv(h, s, wakes) && MayNotify(h.event, chosen)
    ensures HalfInv(h.(event := Apply(h.event, Wake(chosen))), s, wakes)
  {
    hide Inv;
    StepKeepsInv(h.event, Wake(chosen));
  }

  lemma MoveKeepsInv(p: Pair, m: Move)
    requires PairInv(p) && MoveEnabled(p, m)
    ensures PairInv(MoveApply(p, m))
  {
    hide Inv, MayNotify;
    var h := p.At(m.side);
    var given := p.At(m.side.Other()).event.wakes;
    match m
    case SetOther(s, chosen) => WokenStep(p.At(s.Other()), s.Other(), h.event.wakes, chosen);
    case WaitSelf(s, timed, elapsed) => OwnStep(h, s, given, Start(s.Id(), timed, elapsed));
    case RefusedWait(_) =>
    case LeaveQueue(s) => OwnStep(h, s, given, Spurious(s.Id()));
    case LookAgain(s, elapsed) => OwnStep(h, s, given, Recheck(s.Id(), elapsed));
  }

  lemma IdleHalf(s: Side)
    ensures HalfInv(Half(IDLE, Outside), s, 0)
  {
    hide Inv;
    IdleInv();
  }

  lemma StartsApart()
    ensures PairInv(APART)
  {
    hide HalfInv;
    IdleHalf(Left);
    IdleHalf(Right);
  }

  lemma {:induction false} HandoverKeepsInv(pairs: seq<Pair>, moves: seq<Move>, i: nat)
    requires IsHandover(pairs, moves) && i < |pairs|
    ensures PairInv(pairs[i])
  {
    hide PairInv, MoveApply, MoveEnabled;
    if i == 0 {
      StartsApart();
    } else {
      HandoverKeepsInv(pairs, moves, i - 1);
      MoveKeepsInv(pairs[i - 1], moves[i - 1]);
    }
  }

  /** In every reachable state, timeouts and spurious wakeups included, at least one of the two is not asleep. */
  lemma NeverBothAsleep(pairs: seq<Pair>, moves: seq<Move>, i: nat)
    requires IsHandover(pairs, moves) && i < |pairs|
    ensures !(Queued(pairs[i].left.event, 0) && Queued(pairs[i].right.event, 1))
  {
    HandoverKeepsInv(pairs, moves, i);
  }

  /** Nor is the pair ever stuck: some thread can take a step of its own accord. */
  lemma SomeoneCanMove(pairs: seq<Pair>, moves: seq<Move>, i: nat)
    requires IsHandover(pairs, moves) && i < |pairs|
    ensures exists m: Move :: !m.LeaveQueue? && MoveEnabled(pairs[i], m)
  {
    HandoverKeepsInv(pairs, moves, i);
    NeverBothAsleep(pairs, moves, i);
    var p := pairs[i];
    var s := if Queued(p.left.event, 0) then Right else Left;
    match p.At(s).place
    case Outside =>
      var chosen := SomeChoice(p.At(s.Other()).event);
      assert MoveEnabled(p, SetOther(s, chosen));
    case SetDone =>
      assert MoveEnabled(p, WaitSelf(s, false, false));
    case Waiting =>
      assert MoveEnabled(p, LookAgain(s, false));
  }

  lemma SomeChoice(e: Event) returns (chosen: Option<Thread>)
    ensures MayNotify(e, chosen)
  {
    chosen := None;
    if e.counter + 1 == 0 {
      if t :| Queued(e, t) { chosen := Some(t); }
    }
  }
}
