/** internal/dpf/lock.go: the race between getting the lock and running out of time. */
module LockWaits {
  import opened Text

  /** Fired: the timer's function has been started but has not got the mutex yet. */
  datatype Timer = Armed | Fired | Done

  datatype State = State(timer: Timer, entered: bool, expired: bool, cancelled: bool)

  const INITIAL := State(Armed, false, false, false)

  /** Each event is one critical section, or one call of the timer or of the cancel function. */
  datatype Event = TimerFires | Expire | Enter | StopTimer | CancelContext

  /** The timer fires only while armed, and its function runs only once for it. */
  predicate Possible(s: State, e: Event) {
    match e
    case TimerFires => s.timer.Armed?
    case Expire => s.timer.Fired?
    case _ => true
  }

  /** Stopping a timer whose function has started does not stop the function. */
  function Stopped(t: Timer): Timer {
    if t.Armed? then Done else t
  }

  function Step(s: State, e: Event): State {
    match e
    case TimerFires => s.(timer := Fired)
    case Expire => if s.entered then s.(timer := Done) else s.(timer := Done, expired := true, cancelled := true)
    case Enter => s.(entered := true, timer := Stopped(s.timer))
    case StopTimer => s.(timer := Stopped(s.timer))
    case CancelContext => s.(cancelled := true)
  }

  function After(h: seq<Event>): State {
    if h == [] then INITIAL else Step(After(h[..|h| - 1]), h[|h| - 1])
  }

  /** A history every step of which was possible. */
  predicate Run(h: seq<Event>) {
    h == [] || (Run(h[..|h| - 1]) && Possible(After(h[..|h| - 1]), h[|h| - 1]))
  }

  /** Whether the first of the two contenders to get the mutex was the timer. */
  predicate TimerWasFirst(h: seq<Event>) {
    if h == [] then false
    else if h[0].Expire? then true
    else !h[0].Enter? && TimerWasFirst(h[1..])
  }

  function Error(s: State): Option<Failure> {
    if s.expired then Some(Temporary(StillLocked)) else None
  }

  lemma RunSnoc(h: seq<Event>, e: Event)
    ensures After(h + [e]) == Step(After(h), e)
    ensures Run(h + [e]) <==> Run(h) && Possible(After(h), e)
  {
    assert (h + [e])[..|h|] == h;
  }

  // ----- Over every interleaving -----

  lemma {:induction false} TimerWasFirstSnoc(h: seq<Event>, e: Event)
    ensures TimerWasFirst(h + [e]) <==> TimerWasFirst(h) || (e.Expire? && Enter !in h)
  {
    if h != [] {
      assert (h + [e])[1..] == h[1..] + [e];
      assert h == [h[0]] + h[1..];
      TimerWasFirstSnoc(h[1..], e);
    }
  }

  /**
   In every run the first to get the mutex decides. The error is there exactly when the timer was
   first, the context is cancelled exactly when the timer was first or the wait was released.
   */
  lemma {:induction false} FirstDecides(h: seq<Event>)
    requires Run(h)
    ensures After(h).entered <==> Enter in h
    ensures After(h).expired <==> TimerWasFirst(h)
    ensures After(h).cancelled <==> TimerWasFirst(h) || CancelContext in h
    ensures Error(After(h)) == if TimerWasFirst(h) then Some(Temporary(StillLocked)) else None
  {
    if h != [] {
      var front, e := h[..|h| - 1], h[|h| - 1];
      assert h == front + [e];
      FirstDecides(front);
      TimerWasFirstSnoc(front, e);
    }
  }

  lemma {:induction false} StoppedIsNotArmed(h: seq<Event>)
    requires Run(h) && (Enter in h || StopTimer in h)
    ensures !After(h).timer.Armed?
  {
    var front, e := h[..|h| - 1], h[|h| - 1];
    assert h == front + [e];
    if Enter in front || StopTimer in front {
      StoppedIsNotArmed(front);
    }
  }

  /** Once the lock is held or the wait is over, the timer is not started any more. */
  lemma {:induction false} StoppedTimerNeverFires(h: seq<Event>, more: seq<Event>)
    requires Run(h + more) && (Enter in h || StopTimer in h)
    ensures TimerFires !in more
  {
    if more != [] {
      var front, e := more[..|more| - 1], more[|more| - 1];
      assert (h + more)[..|h + more| - 1] == h + front;
      assert more == front + [e];
      StoppedTimerNeverFires(h, front);
      StoppedIsNotArmed(h + front);
    }
  }

  /** Stopping comes too late for a timer that has fired: its function runs, and finds the lock held or not. */
  lemma LateTimer(last: Event)
    requires last == Enter || last == StopTimer
    ensures var h := [TimerFires, last, Expire]; Run(h) && (After(h).expired <==> last == StopTimer)
  {
    var one := [TimerFires];
    RunSnoc([], TimerFires);
    assert [] + one == one;
    RunSnoc(one, last);
    assert one + [last] == [TimerFires, last];
    RunSnoc([TimerFires, last], Expire);
    assert [TimerFires, last] + [Expire] == [TimerFires, last, Expire];
  }

  /** Expiry is never taken back, and it implies cancellation, whatever follows. */
  lemma {:induction false} ExpiryIsPermanent(h: seq<Event>, more: seq<Event>)
    requires Run(h) && After(h).expired
    ensures After(h + more).expired && After(h + more).cancelled
  {
    if more == [] {
      assert h + more == h;
      FirstDecides(h);
    } else {
      var front := more[..|more| - 1];
      assert (h + more)[..|h + more| - 1] == h + front;
      ExpiryIsPermanent(h, front);
    }
  }

  /** Once the edit has begun, only releasing the wait cancels it. */
  lemma {:induction false} NoExpiryAfterEnter(h: seq<Event>, more: seq<Event>)
    requires After(h).entered && !After(h).expired && !After(h).cancelled
    requires CancelContext !in more
    ensures !After(h + more).expired && !After(h + more).cancelled && After(h + more).entered
  {
    if more == [] {
      assert h + more == h;
    } else {
      var front, e := more[..|more| - 1], more[|more| - 1];
      assert more == front + [e];
      assert (h + more)[..|h + more| - 1] == h + front;
      NoExpiryAfterEnter(h, front);
    }
  }

  /** The timer's function runs at most once in any run. */
  lemma {:induction false} ExpiresOnce(h: seq<Event>)
    requires Run(h)
    ensures multiset(h)[Expire] <= 1
    ensures multiset(h)[Expire] == 1 ==> After(h).timer.Done?
  {
    if h != [] {
      var front, e := h[..|h| - 1], h[|h| - 1];
      assert h == front + [e];
      ExpiresOnce(front);
    }
  }

  // ----- The struct -----

  class LockWait {
    var timer: Timer
    var cancelled: bool
    var entered: bool
    var expired: bool
    ghost var history: seq<Event>

    function Now(): State
      reads this
    {
      State(timer, entered, expired, cancelled)
    }

    /** The object is in the state that its history leads to, and everything in it was possible. */
    ghost predicate Valid()
      reads this
    {
      Run(history) && Now() == After(history)
    }

    constructor ()
      ensures Valid() && history == [] && Now() == INITIAL
    {
      timer, cancelled, entered, expired := Armed, false, false, false;
      history := [];
    }

    ghost method Record(e: Event)
      requires Run(history) && Possible(After(history), e) && Now() == Step(After(history), e)
      modifies this`history
      ensures Valid() && history == old(history) + [e]
    {
      hide Run, After;
      RunSnoc(history, e);
      history := history + [e];
    }

    /** The runtime starts the timer's function in a goroutine of its own. */
    method Fire()
      requires Valid() && timer.Armed?
      modifies this
      ensures Valid() && history == old(history) + [TimerFires]
    {
      timer := Fired;
      Record(TimerFires);
    }

    method DoEnter()
      requires Valid()
      modifies this
      ensures Valid() && history == old(history) + [Enter]
    {
      entered := true;
      timer := Stopped(timer);
      Record(Enter);
    }

    method DoExpire()
      requires Valid() && timer.Fired?
      modifies this
      ensures Valid() && history == old(history) + [Expire]
    {
      timer := Done;
      if entered {
        Record(Expire);
        return;
      }
      expired := true;
      cancelled := true;
      Record(Expire);
    }

    method DoStop()
      requires Valid()
      modifies this
      ensures Valid() && history == old(history) + [StopTimer, CancelContext]
    {
      timer := Stopped(timer);
      Record(StopTimer);
      cancelled := true;
      Record(CancelContext);
      assert history == old(history) + [StopTimer] + [CancelContext] == old(history) + [StopTimer, CancelContext];
    }

    /** There is an error exactly when the timer was the first to get the mutex. */
    method Err() returns (err: Option<Failure>)
      requires Valid()
      ensures err == if TimerWasFirst(history) then Some(Temporary(StillLocked)) else None
    {
      FirstDecides(history);
      if !expired {
        return None;
      }
      return Some(Temporary(StillLocked));
    }
  }
}
