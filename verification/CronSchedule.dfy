/** Which run of a cron schedule was missed last, and which comes next. Time is in whole units from
    the zero time; a schedule is the function from a time to the least activation after it, or to the
    zero time if it never fires. */
module CronSchedule {
  import opened Wrappers

  type Schedule = int -> int

  function Next(s: Schedule, t: int): int { s(t) }

  /** `Next` is later, and is the same for all times up to it. */
  ghost predicate LeastAfter(s: Schedule, t: int) {
    Next(s, t) > t && forall u :: t <= u < Next(s, t) ==> Next(s, u) == Next(s, t)
  }

  /** Every `Next` is the least activation after its argument. */
  ghost predicate Sound(s: Schedule) { forall t :: LeastAfter(s, t) }

  const ZERO_TIME: int := 0

  /** A schedule that can be written down and never fires, such as one for the 30th of February. */
  ghost predicate Silent(s: Schedule) { forall t :: Next(s, t) == ZERO_TIME }

  lemma SoundIsNotSilent(s: Schedule)
    requires Sound(s)
    ensures !Silent(s)
  {
    assert LeastAfter(s, ZERO_TIME);
  }

  predicate Activation(s: Schedule, a: int) { Next(s, a - 1) == a }

  lemma NextIsLeastActivation(s: Schedule, t: int)
    requires Sound(s)
    ensures Activation(s, Next(s, t))
    ensures forall a :: t < a < Next(s, t) ==> !Activation(s, a)
  {
    assert LeastAfter(s, t);
    forall a | t < a < Next(s, t) ensures !Activation(s, a) { assert Next(s, a - 1) == Next(s, t); }
    assert Next(s, Next(s, t) - 1) == Next(s, t);
  }

  /** The k-th activation after `t`. */
  ghost function Nth(s: Schedule, t: int, k: nat): int {
    if k == 0 then t else Next(s, Nth(s, t, k - 1))
  }

  /** The activations in the window (from, to]. */
  ghost function Window(s: Schedule, from: int, to: int): set<int> {
    set a | from < a <= to && Activation(s, a)
  }

  lemma {:induction false} NthShift(s: Schedule, t: int, k: nat)
    ensures Nth(s, Next(s, t), k) == Nth(s, t, k + 1)
  {
    if k == 0 {
    } else {
      NthShift(s, t, k - 1);
    }
  }

  lemma {:induction false} NthAdvances(s: Schedule, t: int, k: nat)
    requires Sound(s)
    ensures Nth(s, t, k) >= t
  {
    if k == 0 {
    } else {
      NthAdvances(s, t, k - 1);
      assert LeastAfter(s, Nth(s, t, k - 1));
    }
  }

  ghost function Count(s: Schedule, from: int, to: int): nat { |Window(s, from, to)| }

  /** A window starts with the next activation, if that falls inside it at all. */
  lemma WindowSplits(s: Schedule, from: int, to: int)
    requires Sound(s)
    ensures Count(s, from, to) == if Next(s, from) <= to then 1 + Count(s, Next(s, from), to) else 0
  {
    NextIsLeastActivation(s, from);
    assert LeastAfter(s, from);
    var n := Next(s, from);
    if n <= to {
      assert n !in Window(s, n, to) && Window(s, from, to) == {n} + Window(s, n, to);
    } else {
      assert Window(s, from, to) == {};
    }
  }

  /** A window holds at least k activations exactly when the k-th one falls inside it. */
  lemma {:induction false} WindowCounts(s: Schedule, from: int, to: int, k: nat)
    requires Sound(s) && from <= to
    ensures Count(s, from, to) >= k <==> Nth(s, from, k) <= to
    decreases k
  {
    if k == 0 {
    } else {
      var n := Next(s, from);
      WindowSplits(s, from, to);
      assert Nth(s, n, k - 1) == Nth(s, from, k) && Nth(s, n, k - 1) >= n by {
        NthShift(s, from, k - 1);
        NthAdvances(s, n, k - 1);
      }
      if n <= to {
        WindowCounts(s, n, to, k - 1);
      }
    }
  }

  /** If the k-th activation is in the window and the next one is not, it is the last of k. */
  lemma LastInWindow(s: Schedule, e: int, now: int, k: nat)
    requires Sound(s) && e <= now && Nth(s, e, k) <= now < Nth(s, e, k + 1)
    ensures Count(s, e, now) == k
    ensures forall a :: a in Window(s, e, now) ==> a <= Nth(s, e, k)
    ensures k > 0 ==> Nth(s, e, k) in Window(s, e, now)
  {
    WindowCounts(s, e, now, k + 1);
    WindowCounts(s, e, now, k);
    NextIsLeastActivation(s, Nth(s, e, k));
    if k > 0 {
      NextIsLeastActivation(s, Nth(s, e, k - 1));
      NthAdvances(s, e, k - 1);
    }
  }

  lemma EmptyWindow(s: Schedule, from: int, to: int)
    requires to <= from
    ensures Count(s, from, to) == 0
  {
    assert Window(s, from, to) == {};
  }

  // ---- The search ----

  datatype Missed = Found(missed: Option<int>, next: int) | TooMany

  const MAX_STARTS: nat := 100

  /** The last run, or the creation, unless the deadline has made anything that old irrelevant. */
  function Earliest(last: Option<int>, created: int, deadline: Option<int>, now: int): int {
    var e := if last.Some? then last.value else created;
    if deadline.Some? && now - deadline.value > e then now - deadline.value else e
  }

  /** An activation that should have been started by now: it is after the last run, or the creation if
      there was none, and not so old that the deadline has passed. */
  predicate Due(s: Schedule, last: Option<int>, created: int, deadline: Option<int>, now: int, a: int) {
    && Activation(s, a) && a <= now
    && (if last.Some? then last.value < a else created < a)
    && (deadline.Some? ==> now - deadline.value < a)
  }

  ghost function DueRuns(s: Schedule, last: Option<int>, created: int, deadline: Option<int>, now: int): set<int> {
    set a | (if last.Some? then last.value else created) < a <= now && Due(s, last, created, deadline, now, a)
  }

  lemma WindowIsDue(s: Schedule, last: Option<int>, created: int, deadline: Option<int>, now: int)
    ensures Window(s, Earliest(last, created, deadline, now), now) == DueRuns(s, last, created, deadline, now)
    ensures forall a :: a in DueRuns(s, last, created, deadline, now) <==> Due(s, last, created, deadline, now, a)
  {
  }

  /** Too many activations in the window, or none ever to get past it with. */
  ghost predicate GivesUp(s: Schedule, e: int, now: int) {
    Count(s, e, now) > MAX_STARTS || (Silent(s) && e <= now)
  }

  /** The outcome of the search, said of the window (e, now] alone. */
  ghost predicate IsMissed(s: Schedule, e: int, now: int, r: Missed) {
    match r
    case TooMany => GivesUp(s, e, now)
    case Found(missed, next) =>
      && next == Next(s, now) && !GivesUp(s, e, now)
      && match missed
         case None => Count(s, e, now) == 0
         case Some(t) => t in Window(s, e, now) && forall a :: a in Window(s, e, now) ==> a <= t
  }

  /** The outcome of the search, said of the runs that are due: the latest of them, if any, and the next
      activation; or an error if there are more than 100, or if the schedule never fires. */
  ghost predicate Outcome(s: Schedule, last: Option<int>, created: int, deadline: Option<int>, now: int, r: Missed) {
    && (Sound(s) ==> (r.TooMany? <==> |DueRuns(s, last, created, deadline, now)| > 100))
    && (Silent(s) ==>
          (r.TooMany? <==>
             (if last.Some? then last.value else created) <= now && (deadline.Some? ==> 0 <= deadline.value)))
    && (r.Found? ==>
          && r.next == Next(s, now)
          && match r.missed
             case None => forall a :: !Due(s, last, created, deadline, now, a)
             case Some(t) =>
               && Due(s, last, created, deadline, now, t)
               && forall a :: Due(s, last, created, deadline, now, a) ==> a <= t)
  }

  lemma OutcomeOfMissed(s: Schedule, last: Option<int>, created: int, deadline: Option<int>, now: int)
    requires Sound(s) || Silent(s)
    ensures forall r :: IsMissed(s, Earliest(last, created, deadline, now), now, r) ==>
              Outcome(s, last, created, deadline, now, r)
  {
    var e := Earliest(last, created, deadline, now);
    forall r | IsMissed(s, e, now, r) ensures Outcome(s, last, created, deadline, now, r) {
      WindowIsDue(s, last, created, deadline, now);
      if Sound(s) { SoundIsNotSilent(s); }
      if now <= e { EmptyWindow(s, e, now); }
      if r.Found? && r.missed.None? {
        forall a ensures !Due(s, last, created, deadline, now, a) {
          assert a !in Window(s, e, now);
        }
      }
    }
  }

  method GetNextSchedule(s: Schedule, last: Option<int>, created: int, deadline: Option<int>, now: int)
    returns (r: Missed)
    requires Sound(s) || (Silent(s) && ZERO_TIME <= now)
    ensures IsMissed(s, Earliest(last, created, deadline, now), now, r)
    ensures Outcome(s, last, created, deadline, now, r)
  {
    OutcomeOfMissed(s, last, created, deadline, now);
    var earliest := if last.Some? then last.value else created;
    if deadline.Some? {
      var schedulingDeadline := now - deadline.value;
      if schedulingDeadline > earliest {
        earliest := schedulingDeadline;
      }
    }
    if earliest > now {
      EmptyWindow(s, earliest, now);
      return Found(None, Next(s, now));
    }
    var lastMissed: Option<int> := None;
    var starts := 0;
    var t := Next(s, earliest);
    while t <= now
      invariant starts <= MAX_STARTS && t == Nth(s, earliest, starts + 1)
      invariant Silent(s) ==> t == ZERO_TIME
      invariant if starts == 0 then lastMissed == None
                else lastMissed == Some(Nth(s, earliest, starts)) && Nth(s, earliest, starts) <= now
      decreases MAX_STARTS - starts
    {
      lastMissed := Some(t);
      starts := starts + 1;
      if starts > MAX_STARTS {
        if Sound(s) {
          WindowCounts(s, earliest, now, starts);
        }
        return TooMany;
      }
      t := Next(s, t);
    }
    SoundIsNotSilent(s);
    LastInWindow(s, earliest, now, starts);
    return Found(lastMissed, Next(s, now));
  }

  /** Under a frozen clock the run found is never too late for the deadline that bounded the search. */
  lemma NeverTooLate(s: Schedule, last: Option<int>, created: int, deadline: int, now: int, r: Missed)
    requires IsMissed(s, Earliest(last, created, Some(deadline), now), now, r)
    ensures r.Found? && r.missed.Some? ==> r.missed.value + deadline > now
  {
  }
}
