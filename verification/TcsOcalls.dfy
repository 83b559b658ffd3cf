/** The events, the cache that finds them by TCS, and the four event ocalls. */
module TcsOcalls {
  import opened TcsEvents
  import opened Wrappers

  const EINVAL: int := 22
  const ETIMEDOUT: int := 110

  datatype Timespec = Timespec(sec: int, nsec: int)

  /** `timespec_to_duration`, in nanoseconds. */
  function Duration(t: Timespec): Option<nat> {
    if t.nsec < 0 || t.nsec > 999_999_999 then None
    else if t.sec < 0 then None
    else Some(t.sec * 1_000_000_000 + t.nsec)
  }

  /** A timeout is taken when it is not negative and its nanoseconds are less than a second. */
  lemma DurationIs(t: Timespec)
    ensures Duration(t).Some? <==> 0 <= t.sec && 0 <= t.nsec <= 999_999_999
    ensures Duration(t).Some? ==>
              Duration(t).value / 1_000_000_000 == t.sec && Duration(t).value % 1_000_000_000 == t.nsec
  {}

  /** What an ocall returns and stores as its error number, given the result of the event operation. */
  function Report(result: int): (int, int) {
    if result != 0 then (-1, result) else (result, 0)
  }

  class SeEvent {
    var counter: int
    var waiters: map<Thread, Waiter>
    ghost var starts: nat
    ghost var wakes: nat
    ghost var granted: nat
    ghost var expired: nat

    ghost function View(): Event
      reads this
    {
      Event(counter, waiters, starts, wakes, granted, expired)
    }

    constructor ()
      ensures View() == IDLE
    {
      counter, waiters := 0, map[];
      starts, wakes, granted, expired := 0, 0, 0, 0;
    }

    /** With the mutex held: 0 or `ETIMEDOUT` when the wait is over, None when the thread goes to sleep. */
    method Look(t: Thread, timed: bool, elapsed: bool) returns (r: Option<int>)
      modifies this
      ensures View() == Settle(old(View()), t, timed, elapsed)
      ensures r == if old(counter) >= 0 then Some(0) else if timed && elapsed then Some(ETIMEDOUT) else None
      ensures r.None? <==> Queued(View(), t) && old(counter) < 0
    {
      if counter < 0 {
        if timed && elapsed {
          counter, waiters, expired := 0, waiters - {t}, expired + 1;
          return Some(ETIMEDOUT);
        }
        waiters := waiters[t := Waiter(timed, true)];
        return None;
      }
      waiters, granted := waiters - {t}, granted + 1;
      return Some(0);
    }

    /** `wait` up to the point where it returns or sleeps. */
    method Wait(t: Thread) returns (r: Option<int>)
      requires t !in waiters
      modifies this
      ensures View() == Apply(old(View()), Start(t, false, false))
      ensures r == if old(counter) > 0 then Some(0) else None
      ensures counter == old(counter) - 1
      ensures waiters == if r.None? then old(waiters)[t := Waiter(false, true)] else old(waiters)
    {
      counter, starts := counter - 1, starts + 1;
      r := Look(t, false, false);
    }

    /** `wait_timeout` up to the point where it returns or sleeps; a bad timeout is refused before the lock. */
    method WaitTimeout(t: Thread, timeout: Timespec, elapsed: bool) returns (r: Option<int>)
      requires t !in waiters
      modifies this
      ensures timeout.sec < 0 || timeout.nsec < 0 || timeout.nsec > 999_999_999 ==>
                r == Some(EINVAL) && View() == old(View())
      ensures timeout.sec >= 0 && 0 <= timeout.nsec <= 999_999_999 ==>
                View() == Apply(old(View()), Start(t, true, elapsed))
      ensures r != Some(EINVAL) ==> counter == if r == Some(ETIMEDOUT) then 0 else old(counter) - 1
      ensures waiters == if r.None? then old(waiters)[t := Waiter(true, true)] else old(waiters)
      ensures timeout.sec >= 0 && 0 <= timeout.nsec <= 999_999_999 ==>
                r == if old(counter) > 0 then Some(0) else if elapsed then Some(ETIMEDOUT) else None
    {
      if Duration(timeout).None? {
        return Some(EINVAL);
      }
      counter, starts := counter - 1, starts + 1;
      r := Look(t, true, elapsed);
    }

    /** The next turn of the waiting loop, once the thread is out of the queue and holds the mutex again. */
    method Resume(t: Thread, elapsed: bool) returns (r: Option<int>)
      requires Enabled(View(), Recheck(t, elapsed))
      modifies this
      ensures View() == Apply(old(View()), Recheck(t, elapsed))
      ensures r == if old(counter) >= 0 then Some(0)
                   else if old(waiters)[t].timed && elapsed then Some(ETIMEDOUT) else None
      ensures counter == if r == Some(ETIMEDOUT) then 0 else old(counter)
      ensures waiters == if r.None? then old(waiters)[t := Waiter(old(waiters)[t].timed, true)]
                         else old(waiters) - {t}
    {
      r := Look(t, waiters[t].timed, elapsed);
    }

    /** `chosen` is the thread that `notify_one` takes out of the queue, if any. */
    method Wake() returns (r: int, ghost chosen: Option<Thread>)
      modifies this
      ensures r == 0
      ensures MayNotify(old(View()), chosen) && View() == Apply(old(View()), Step.Wake(chosen))
      ensures counter == old(counter) + 1 && wakes == old(wakes) + 1
      ensures counter != 0 ==> waiters == old(waiters)
      ensures counter == 0 ==>
                if chosen.Some? then
                  && chosen.value in old(waiters) && old(waiters)[chosen.value].queued
                  && waiters == old(waiters)[chosen.value := Waiter(old(waiters)[chosen.value].timed, false)]
                else waiters == old(waiters) && forall t | t in waiters :: !waiters[t].queued
    {
      chosen := None;
      counter, wakes := counter + 1, wakes + 1;
      if counter == 0 {
        var queue := waiters;
        if t :| t in queue && queue[t].queued {
          waiters := queue[t := queue[t].(queued := false)];
          chosen := Some(t);
        }
      }
      return 0, chosen;
    }
  }

  datatype TcsInfo = TcsInfo(tcs: nat, event: SeEvent)

  ghost predicate Distinct(cache: seq<TcsInfo>) {
    forall i, j | 0 <= i < j < |cache| :: cache[i].tcs != cache[j].tcs && cache[i].event != cache[j].event
  }

  ghost predicate Knows(cache: seq<TcsInfo>, tcs: nat, e: SeEvent) {
    TcsInfo(tcs, e) in cache
  }

  /** However much the cache has grown in between, a TCS keeps its event and shares it with no other. */
  lemma EventsIdentifyTcs(early: seq<TcsInfo>, late: seq<TcsInfo>, tcs: nat, e: SeEvent, tcs': nat, e': SeEvent)
    requires Distinct(late) && early <= late
    requires Knows(early, tcs, e) && Knows(late, tcs', e')
    ensures e == e' <==> tcs == tcs'
  {
    var i :| 0 <= i < |early| && early[i] == TcsInfo(tcs, e);
    var j :| 0 <= j < |late| && late[j] == TcsInfo(tcs', e');
    assert late[i] == TcsInfo(tcs, e);
  }

  // ---- Waking a list ----

  function Count(tcss: seq<nat>, tcs: nat): nat {
    if tcss == [] then 0 else Count(tcss[..|tcss| - 1], tcs) + (if tcss[|tcss| - 1] == tcs then 1 else 0)
  }

  /** The events before and after each wake of a list, in its order. */
  ghost predicate WakePath(path: seq<Events>, tcss: seq<nat>) {
    |path| == |tcss| + 1 && forall n | 0 <= n < |tcss| :: Woken(path[n], path[n + 1], tcss[n])
  }

  /** Every event is woken as often as its TCS is listed. */
  lemma {:induction false} WakePathCounts(path: seq<Events>, tcss: seq<nat>, tcs: nat)
    requires WakePath(path, tcss)
    ensures EventOf(path[|tcss|], tcs).wakes == EventOf(path[0], tcs).wakes + Count(tcss, tcs)
    ensures EventOf(path[|tcss|], tcs).counter == EventOf(path[0], tcs).counter + Count(tcss, tcs)
    ensures EventOf(path[|tcss|], tcs).waiters.Keys == EventOf(path[0], tcs).waiters.Keys
  {
    if tcss != [] {
      var n := |tcss| - 1;
      WakePathCounts(path[..n + 1], tcss[..n], tcs);
      assert Woken(path[n], path[n + 1], tcss[n]);
    }
  }

  lemma PathStarts(path: seq<Events>, tcss: seq<nat>)
    requires |path| == 1 && tcss == []
    ensures WakePath(path, tcss)
  {}

  lemma PathGrows(path: seq<Events>, tcss: seq<nat>, after: Events, tcs: nat)
    requires WakePath(path, tcss) && Woken(path[|tcss|], after, tcs)
    ensures WakePath(path + [after], tcss + [tcs])
  {
    hide Woken;
    var longer, list := path + [after], tcss + [tcs];
    forall n | 0 <= n < |list|
      ensures Woken(longer[n], longer[n + 1], list[n])
    {
      if n < |tcss| { assert Woken(path[n], path[n + 1], tcss[n]); }
    }
  }

  // ---- The cache and the ocalls ----

  /** The thread is in the queue of the event, in a wait with a timeout or without. */
  ghost predicate Sleeps(e: Event, t: Thread, timed: bool) {
    t in e.waiters && e.waiters[t] == Waiter(timed, true)
  }

  /** A wait that is turned down before it touches the event. */
  predicate Refused(tcs: nat, timeout: Option<Timespec>) {
    tcs == 0 || (timeout.Some? && Duration(timeout.value).None?)
  }

  /** What `u_thread_wait_event_ocall` does: nothing when refused, and else one wait on the event of its TCS. */
  ghost predicate Waited(before: Events, after: Events, t: Thread, tcs: nat, timeout: Option<Timespec>, elapsed: bool) {
    if Refused(tcs, timeout) then SameEvents(before, after)
    else Stepped(before, after, tcs, Start(t, timeout.Some?, timeout.Some? && elapsed))
  }

  /** The events, laid out as rows of the cache; any other TCS is idle. */
  ghost predicate Shows(es: Events, tcss: seq<nat>, rows: seq<Event>) {
    && |tcss| == |rows|
    && (forall i | 0 <= i < |tcss| :: EventOf(es, tcss[i]) == rows[i])
    && (forall t: nat | t !in tcss :: EventOf(es, t) == IDLE)
  }

  lemma RowStepped(before: Events, after: Events, tcss: seq<nat>, rows: seq<Event>, i: nat, s: Step)
    requires i < |rows| && Shows(before, tcss, rows) && Enabled(rows[i], s)
    requires Shows(after, tcss, rows[i := Apply(rows[i], s)])
    ensures Stepped(before, after, tcss[i], s)
  {
    hide Enabled, Apply, EventOf;
    forall t: nat | t != tcss[i]
      ensures EventOf(after, t) == EventOf(before, t)
    {
      if j :| 0 <= j < |tcss| && tcss[j] == t {
        assert EventOf(after, tcss[j]) == rows[j];
      }
    }
  }

  lemma RowsKept(before: Events, after: Events, tcss: seq<nat>, rows: seq<Event>)
    requires Shows(before, tcss, rows) && Shows(after, tcss, rows)
    ensures SameEvents(before, after)
  {
    hide EventOf;
    forall t: nat
      ensures EventOf(after, t) == EventOf(before, t)
    {
      if j :| 0 <= j < |tcss| && tcss[j] == t {
        assert EventOf(after, tcss[j]) == rows[j];
      }
    }
  }

  lemma RowAppended(before: Events, after: Events, tcss: seq<nat>, rows: seq<Event>, tcs: nat)
    requires Shows(before, tcss, rows) && Shows(after, tcss + [tcs], rows + [IDLE]) && tcs !in tcss
    ensures SameEvents(before, after)
  {
    hide EventOf;
    var all, list := rows + [IDLE], tcss + [tcs];
    forall i | 0 <= i < |list|
      ensures EventOf(before, list[i]) == all[i]
    {
      if i < |tcss| { assert list[i] == tcss[i] && all[i] == rows[i]; }
    }
    RowsKept(before, after, list, all);
  }

  lemma RowAt(es: Events, tcss: seq<nat>, rows: seq<Event>, i: nat)
    requires Shows(es, tcss, rows) && i < |tcss|
    ensures EventOf(es, tcss[i]) == rows[i]
  {}

  lemma SameAt(before: Events, after: Events, tcs: nat)
    requires SameEvents(before, after)
    ensures EventOf(after, tcs) == EventOf(before, tcs)
  {}

  class TcsInfoCache {
    var cache: seq<TcsInfo>

    ghost predicate Valid()
      reads this
    {
      Distinct(cache)
    }

    ghost function Objects(): set<SeEvent>
      reads this
    {
      set i | 0 <= i < |cache| :: cache[i].event
    }

    /** The events by TCS. */
    ghost function Views(): Events
      requires Valid()
      reads this, Objects()
    {
      map i | 0 <= i < |cache| :: cache[i].tcs := cache[i].event.View()
    }

    ghost function Tcss(): seq<nat>
      reads this
    {
      seq(|cache|, i requires 0 <= i < |cache| reads this => cache[i].tcs)
    }

    ghost function Rows(): seq<Event>
      reads this, Objects()
    {
      seq(|cache|, i requires 0 <= i < |cache| reads this, Objects() => cache[i].event.View())
    }

    lemma ViewAt(i: nat)
      requires Valid() && i < |cache|
      ensures EventOf(Views(), cache[i].tcs) == cache[i].event.View()
    {}

    lemma OnlyKnown(t: nat)
      requires Valid() && t in Views()
      ensures exists i :: 0 <= i < |cache| && cache[i].tcs == t
    {}

    lemma ViewsShow()
      requires Valid()
      ensures Shows(Views(), Tcss(), Rows())
    {
      hide Views, Distinct;
      forall i | 0 <= i < |cache|
        ensures EventOf(Views(), Tcss()[i]) == Rows()[i]
      {
        ViewAt(i);
      }
      forall t: nat | t in Views()
        ensures t in Tcss()
      {
        OnlyKnown(t);
        var i :| 0 <= i < |cache| && cache[i].tcs == t;
        assert Tcss()[i] == t;
      }
    }

    lemma OthersDiffer(i: nat)
      requires Valid() && i < |cache|
      ensures forall j | 0 <= j < |cache| && j != i :: cache[j].event != cache[i].event
    {}

    constructor ()
      ensures Valid() && cache == [] && Views() == map[]
    {
      cache := [];
    }

    /** Finds the event of a TCS, or appends a new one. */
    method GetEvent(tcs: nat) returns (e: SeEvent, ghost at: nat)
      requires Valid()
      modifies this
      ensures Valid() && at < |cache| && cache[at] == TcsInfo(tcs, e)
      ensures if exists x :: Knows(old(cache), tcs, x) then cache == old(cache)
              else cache == old(cache) + [TcsInfo(tcs, e)] && fresh(e) && e.View() == IDLE
      ensures old(cache) <= cache && fresh(Objects() - old(Objects())) && e in Objects()
      ensures SameEvents(old(Views()), Views())
    {
      hide Views, Shows, SameEvents;
      ghost var before, tcss, rows := Views(), Tcss(), Rows();
      ViewsShow();
      var i := 0;
      while i < |cache| && cache[i].tcs != tcs
        invariant i <= |cache|
        invariant forall j | 0 <= j < i :: cache[j].tcs != tcs
      {
        i := i + 1;
      }
      if i < |cache| {
        assert Knows(cache, tcs, cache[i].event);
        RowsKept(before, before, tcss, rows);
        return cache[i].event, i;
      }
      e := new SeEvent();
      cache := cache + [TcsInfo(tcs, e)];
      ViewsShow();
      assert Tcss() == tcss + [tcs] && Rows() == rows + [IDLE];
      RowAppended(before, Views(), tcss, rows, tcs);
      return cache[|cache| - 1].event, |cache| - 1;
    }

    method WakeAt(e: SeEvent, ghost i: nat) returns (r: int)
      requires Valid() && i < |cache| && cache[i].event == e
      modifies e
      ensures r == 0
      ensures Woken(old(Views()), Views(), cache[i].tcs)
    {
      hide Views, Distinct, Enabled, Apply, MayNotify, Stepped, Shows;
      ghost var before, tcss, rows := Views(), Tcss(), Rows();
      ViewsShow();
      OthersDiffer(i);
      ghost var chosen;
      r, chosen := e.Wake();
      WakeEnabled(rows[i], chosen);
      ViewsShow();
      assert Tcss() == tcss && Rows() == rows[i := Apply(rows[i], Step.Wake(chosen))];
      RowStepped(before, Views(), tcss, rows, i, Step.Wake(chosen));
    }

    /** `get_tcs_event(tcs).wake()`. */
    method WakeTcs(tcs: nat) returns (r: int)
      requires Valid()
      modifies this, Objects()
      ensures r == 0 && Valid() && old(cache) <= cache && fresh(Objects() - old(Objects()))
      ensures Woken(old(Views()), Views(), tcs)
    {
      hide Views, Distinct, Woken, Objects, SameEvents;
      ghost var before := Views();
      var e, i := GetEvent(tcs);
      ghost var same := Views();
      r := WakeAt(e, i);
      WokenFrom(before, same, Views(), tcs);
    }

    /** `u_thread_set_event_ocall`: a null TCS is refused. */
    method SetEvent(tcs: nat) returns (ret: int, error: int)
      requires Valid()
      modifies this, Objects()
      ensures Valid() && old(cache) <= cache && fresh(Objects() - old(Objects()))
      ensures tcs == 0 ==> (ret, error) == (-1, EINVAL) && cache == old(cache) && Views() == old(Views())
      ensures tcs != 0 ==> (ret, error) == (0, 0) && Woken(old(Views()), Views(), tcs)
    {
      hide Woken, Distinct, Views, Objects;
      if tcs == 0 {
        return -1, EINVAL;
      }
      var result := WakeTcs(tcs);
      var report := Report(result);
      return report.0, report.1;
    }

    /** `u_thread_set_multiple_events_ocall`: one wake after another, in the order of the list. */
    method SetMultipleEvents(tcss: Option<seq<nat>>) returns (ret: int, error: int)
      requires Valid()
      modifies this, Objects()
      ensures Valid() && old(cache) <= cache
      ensures tcss.None? ==> (ret, error) == (-1, EINVAL) && cache == old(cache) && Views() == old(Views())
      ensures tcss.Some? ==> (ret, error) == (0, 0)
      ensures tcss.Some? ==>
                exists path :: WakePath(path, tcss.value) && path[0] == old(Views()) && path[|tcss.value|] == Views()
      ensures tcss.Some? ==> forall t: nat ::
                EventOf(Views(), t).counter == EventOf(old(Views()), t).counter + Count(tcss.value, t)
    {
      hide Distinct, Woken, WakePath, Views, Count, EventOf;
      if tcss.None? {
        return -1, EINVAL;
      }
      var list := tcss.value;
      var result := 0;
      ghost var path := [Views()];
      PathStarts(path, list[..0]);
      for n := 0 to |list|
        invariant Valid() && old(cache) <= cache && result == 0
        invariant fresh(Objects() - old(Objects()))
        invariant WakePath(path, list[..n]) && |path| == n + 1 && path[0] == old(Views()) && path[n] == Views()
      {
        result := WakeTcs(list[n]);
        PathGrows(path, list[..n], Views(), list[n]);
        path := path + [Views()];
        assert list[..n + 1] == list[..n] + [list[n]];
        if result != 0 {
          return -1, result;
        }
      }
      assert list[..|list|] == list;
      forall t: nat { WakePathCounts(path, list, t); }
      return result, 0;
    }

    method WaitAt(e: SeEvent, ghost i: nat, t: Thread, timeout: Option<Timespec>, elapsed: bool)
        returns (result: Option<int>)
      requires Valid() && i < |cache| && cache[i].event == e && t !in e.waiters && cache[i].tcs != 0
      modifies e
      ensures Waited(old(Views()), Views(), t, cache[i].tcs, timeout, elapsed)
      ensures result ==
              if Refused(cache[i].tcs, timeout) then Some(EINVAL)
              else if old(e.counter) > 0 then Some(0)
              else if timeout.Some? && elapsed then Some(ETIMEDOUT) else None
      ensures result.None? ==> Sleeps(e.View(), t, timeout.Some?)
    {
      hide Views, Distinct, Enabled, Apply, Stepped, Shows, SameEvents;
      ghost var before, tcss, rows := Views(), Tcss(), Rows();
      ViewsShow();
      OthersDiffer(i);
      if timeout.None? {
        result := e.Wait(t);
      } else {
        result := e.WaitTimeout(t, timeout.value, elapsed);
      }
      ViewsShow();
      assert Tcss() == tcss;
      if Refused(cache[i].tcs, timeout) {
        assert Rows() == rows;
        RowsKept(before, Views(), tcss, rows);
      } else {
        ghost var s := Start(t, timeout.Some?, timeout.Some? && elapsed);
        StartEnabled(rows[i], s);
        assert Rows() == rows[i := Apply(rows[i], s)];
        RowStepped(before, Views(), tcss, rows, i, s);
      }
    }

    /** `u_thread_wait_event_ocall` up to the point where it returns or sleeps (no return value yet). */
    method WaitEvent(t: Thread, tcs: nat, timeout: Option<Timespec>, elapsed: bool)
        returns (ret: Option<int>, error: int)
      requires Valid() && t !in EventOf(Views(), tcs).waiters
      modifies this, Objects()
      ensures Valid() && old(cache) <= cache && fresh(Objects() - old(Objects()))
      ensures Waited(old(Views()), Views(), t, tcs, timeout, elapsed)
      ensures (ret, error) ==
              if Refused(tcs, timeout) then (Some(-1), EINVAL)
              else if old(EventOf(Views(), tcs)).counter > 0 then (Some(0), 0)
              else if timeout.Some? && elapsed then (Some(-1), ETIMEDOUT)
              else (None, 0)
      ensures ret.None? ==> Sleeps(EventOf(Views(), tcs), t, timeout.Some?)
      ensures (ret, error) == (Some(-1), EINVAL) <==>
              || tcs == 0
              || (timeout.Some? && (timeout.value.sec < 0 || !(0 <= timeout.value.nsec <= 999_999_999)))
    {
      hide Views, Distinct, Waited, EventOf, Shows, SameEvents;
      if tcs == 0 {
        NullWaits(Views(), t, timeout, elapsed);
        return Some(-1), EINVAL;
      }
      ghost var before := Views();
      var e, i := GetEvent(tcs);
      ViewsShow();
      RowAt(Views(), Tcss(), Rows(), i);
      ghost var same := Views();
      SameAt(before, same, tcs);
      var result := WaitAt(e, i, t, timeout, elapsed);
      ViewsShow();
      RowAt(Views(), Tcss(), Rows(), i);
      WaitedFrom(before, same, Views(), t, tcs, timeout, elapsed);
      if result.None? {
        return None, 0;
      }
      var report := Report(result.value);
      return Some(report.0), report.1;
    }

    /** `u_thread_setwait_events_ocall`: sets one event, and waits on another only if that worked. */
    method SetWait(t: Thread, waiterTcs: nat, selfTcs: nat, timeout: Option<Timespec>, elapsed: bool)
        returns (ret: Option<int>, error: int, ghost between: Events)
      requires Valid() && t !in EventOf(Views(), selfTcs).waiters
      modifies this, Objects()
      ensures Valid() && old(cache) <= cache
      ensures waiterTcs == 0 ==> (ret, error) == (Some(-1), EINVAL) && Views() == old(Views())
      ensures waiterTcs != 0 ==>
                && Woken(old(Views()), between, waiterTcs)
                && Waited(between, Views(), t, selfTcs, timeout, elapsed)
      ensures waiterTcs != 0 ==>
                (ret, error) ==
                if Refused(selfTcs, timeout) then (Some(-1), EINVAL)
                else if EventOf(between, selfTcs).counter > 0 then (Some(0), 0)
                else if timeout.Some? && elapsed then (Some(-1), ETIMEDOUT)
                else (None, 0)
      ensures ret.None? ==> Sleeps(EventOf(Views(), selfTcs), t, timeout.Some?)
    {
      hide Distinct, Waited, Woken, Views, Objects, EventOf;
      ghost var before := Views();
      between := before;
      var result, err := SetEvent(waiterTcs);
      if result < 0 {
        return Some(result), err, between;
      }
      between := Views();
      WokenKeepsWaiters(before, between, waiterTcs, selfTcs);
      ret, error := WaitEvent(t, selfTcs, timeout, elapsed);
    }
  }

  lemma WakeEnabled(e: Event, chosen: Option<Thread>)
    requires MayNotify(e, chosen)
    ensures Enabled(e, Wake(chosen))
  {}

  lemma StartEnabled(e: Event, s: Step)
    requires s.Start? && s.t !in e.waiters
    ensures Enabled(e, s)
  {}

  lemma WokenFrom(before: Events, same: Events, after: Events, tcs: nat)
    requires SameEvents(before, same) && Woken(same, after, tcs)
    ensures Woken(before, after, tcs)
  {
    hide Enabled, Apply, EventOf;
    var chosen :| Stepped(same, after, tcs, Wake(chosen));
    assert Stepped(before, after, tcs, Wake(chosen));
  }

  lemma WaitedFrom(before: Events, same: Events, after: Events, t: Thread, tcs: nat, timeout: Option<Timespec>,
                   elapsed: bool)
    requires SameEvents(before, same) && Waited(same, after, t, tcs, timeout, elapsed)
    ensures Waited(before, after, t, tcs, timeout, elapsed)
    ensures EventOf(same, tcs) == EventOf(before, tcs)
  {
    hide Enabled, Apply, EventOf;
  }

  lemma NullWaits(es: Events, t: Thread, timeout: Option<Timespec>, elapsed: bool)
    ensures Waited(es, es, t, 0, timeout, elapsed)
  {}

  /** A wake takes a thread out of the queue at most; it ends no wait. */
  lemma WokenKeepsWaiters(before: Events, after: Events, tcs: nat, t: nat)
    requires Woken(before, after, tcs)
    ensures EventOf(after, t).waiters.Keys == EventOf(before, t).waiters.Keys
  {
    var chosen :| Stepped(before, after, tcs, Wake(chosen));
    hide EventOf;
  }
}
