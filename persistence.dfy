/** The flush controller of src/chatview.cpp as a state machine: cookie
    changes mark the persistent state dirty and restart a single-shot
    debounce timer; the timer's timeout flushes; application shutdown and
    the view's destruction run one final synchronous flush.

    The cookie store's write (a dummy cookie deletion) is counted in
    storeWrites, and the bounded 120 ms wait of the synchronous flush in
    shutdownWaits. Time is a number of milliseconds given with each event. */
module Persistence {

  const DebounceIntervalMs: int := 1200

  datatype Controller = Controller(
    profilePresent: bool,
    cookieStorePresent: bool,
    dirty: bool,
    flushInProgress: bool,
    shutdownFlushComplete: bool,
    timerActive: bool,
    deadline: int,
    storeWrites: nat,
    shutdownWaits: nat)

  /** The flags as the constructor leaves them: clean, idle, no flush done. */
  function Initial(profilePresent: bool, cookieStorePresent: bool): Controller {
    Controller(profilePresent, cookieStorePresent, false, false, false, false, 0, 0, 0)
  }

  /** MarkPersistentStateDirty at time now: dirty, and the timer (re)started. */
  function MarkDirty(c: Controller, now: int): Controller {
    c.(dirty := true, timerActive := true, deadline := now + DebounceIntervalMs)
  }

  /** FlushPersistentStateAsync. */
  function FlushAsync(c: Controller): Controller {
    if c.flushInProgress || !c.profilePresent || !c.dirty then c
    else
      c.(dirty := false, flushInProgress := false,
         storeWrites := c.storeWrites + (if c.cookieStorePresent then 1 else 0))
  }

  /** FlushPersistentStateSync: stop the timer, force dirty, flush, wait once. */
  function FlushSync(c: Controller): Controller {
    if !c.profilePresent || c.shutdownFlushComplete then c
    else
      var flushed := FlushAsync(c.(timerActive := false, dirty := true));
      flushed.(shutdownWaits := flushed.shutdownWaits + 1, shutdownFlushComplete := true)
  }

  /** The single-shot timer's timeout: the timer stops and the state is flushed. */
  function Timeout(c: Controller): Controller {
    FlushAsync(c.(timerActive := false))
  }

  datatype Event =
    | CookieChanged(at: int)   // cookieAdded or cookieRemoved
    | TimerDue(at: int)        // the event loop reaches time at
    | AboutToQuit
    | Destroyed

  function Step(c: Controller, e: Event): Controller {
    match e
    case CookieChanged(t) => MarkDirty(c, t)
    case TimerDue(t) => if c.timerActive && t >= c.deadline then Timeout(c) else c
    case AboutToQuit => FlushSync(c)
    case Destroyed => FlushSync(c)
  }

  function Run(c: Controller, events: seq<Event>): Controller
    decreases |events|
  {
    if events == [] then c else Run(Step(c, events[0]), events[1..])
  }

  /** Between calls no flush is in progress, and the shutdown wait has run
      exactly when the shutdown flush is complete. */
  predicate AtRest(c: Controller) {
    !c.flushInProgress && c.shutdownWaits == (if c.shutdownFlushComplete then 1 else 0)
  }

  lemma InitialAtRest(profilePresent: bool, cookieStorePresent: bool)
    ensures AtRest(Initial(profilePresent, cookieStorePresent))
  {
  }

  /** FlushPersistentStateAsync does nothing while a flush is in progress,
      without a profile or when nothing is dirty; otherwise it ends clean and
      idle, having written to the cookie store once if there is one. */
  lemma FlushAsyncOutcome(c: Controller)
    ensures c.flushInProgress || !c.profilePresent || !c.dirty ==> FlushAsync(c) == c
    ensures !(c.flushInProgress || !c.profilePresent || !c.dirty) ==>
              !FlushAsync(c).dirty && !FlushAsync(c).flushInProgress
              && FlushAsync(c).storeWrites == c.storeWrites + (if c.cookieStorePresent then 1 else 0)
  {
  }

  /** Every event keeps the controller at rest. */
  lemma StepKeepsAtRest(c: Controller, e: Event)
    requires AtRest(c)
    ensures AtRest(Step(c, e))
  {
  }

  lemma {:induction false} RunKeepsAtRest(c: Controller, events: seq<Event>)
    requires AtRest(c)
    ensures AtRest(Run(c, events))
    decreases |events|
  {
    if events != [] {
      StepKeepsAtRest(c, events[0]);
      RunKeepsAtRest(Step(c, events[0]), events[1..]);
    }
  }

  /** Whatever happens after construction, the shutdown wait runs at most once
      and no flush is ever left in progress. */
  lemma ShutdownWaitsAtMostOnce(profilePresent: bool, cookieStorePresent: bool, events: seq<Event>)
    ensures Run(Initial(profilePresent, cookieStorePresent), events).shutdownWaits <= 1
    ensures !Run(Initial(profilePresent, cookieStorePresent), events).flushInProgress
  {
    RunKeepsAtRest(Initial(profilePresent, cookieStorePresent), events);
  }

  /** A second synchronous flush, from the destructor after aboutToQuit, does nothing. */
  lemma FlushSyncIdempotent(c: Controller)
    ensures FlushSync(FlushSync(c)) == FlushSync(c)
    ensures FlushSync(c).profilePresent ==> FlushSync(c).shutdownFlushComplete
  {
  }

  lemma ShutdownThenDestroy(c: Controller)
    ensures Run(c, [AboutToQuit, Destroyed]) == Run(c, [AboutToQuit])
  {
    FlushSyncIdempotent(c);
    assert [AboutToQuit, Destroyed][1..] == [Destroyed];
  }

  /** The first synchronous flush writes even when nothing is dirty and no
      debounce is pending, and leaves the timer stopped and the state clean. */
  lemma FlushSyncForcesWrite(c: Controller)
    requires c.profilePresent && !c.shutdownFlushComplete && !c.flushInProgress
    ensures FlushSync(c).storeWrites == c.storeWrites + (if c.cookieStorePresent then 1 else 0)
    ensures !FlushSync(c).timerActive && !FlushSync(c).dirty && FlushSync(c).shutdownFlushComplete
    ensures FlushSync(c).shutdownWaits == c.shutdownWaits + 1
  {
  }

  /** The events of a burst of cookie changes at the given times. */
  function Changes(times: seq<int>): (r: seq<Event>)
    ensures |r| == |times|
    ensures forall i :: 0 <= i < |times| ==> r[i] == CookieChanged(times[i])
  {
    seq(|times|, i requires 0 <= i < |times| => CookieChanged(times[i]))
  }

  /** A burst of cookie changes writes nothing: it leaves the state dirty with
      the timer due one debounce interval after the last change. */
  lemma {:induction false} BurstDefersFlush(c: Controller, times: seq<int>)
    requires |times| > 0
    ensures Run(c, Changes(times))
            == c.(dirty := true, timerActive := true, deadline := times[|times| - 1] + DebounceIntervalMs)
    decreases |times|
  {
    var es := Changes(times);
    if |times| > 1 {
      assert es[1..] == Changes(times[1..]);
      BurstDefersFlush(MarkDirty(c, times[0]), times[1..]);
    } else {
      assert es[1..] == [];
    }
  }

  /** A timer tick that comes before the deadline set by the latest change
      changes nothing: in a burst whose changes come less than one debounce
      interval apart, the ticks the event loop runs between the changes leave
      the controller as BurstDefersFlush describes it. */
  lemma TickWithinIntervalDoesNothing(c: Controller, changedAt: int, t: int)
    requires t < changedAt + DebounceIntervalMs
    ensures Step(MarkDirty(c, changedAt), TimerDue(t)) == MarkDirty(c, changedAt)
  {
  }

  lemma {:induction false} RunAppend(c: Controller, a: seq<Event>, b: seq<Event>)
    ensures Run(c, a + b) == Run(Run(c, a), b)
    decreases |a|
  {
    if a == [] {
      assert a + b == b;
    } else {
      assert (a + b)[0] == a[0] && (a + b)[1..] == a[1..] + b;
      RunAppend(Step(c, a[0]), a[1..], b);
    }
  }

  /** Cookie changes that arrive once the synchronous flush has run (during its
      bounded wait, whose event loop still delivers them, or after it) are
      left to the debounce timer: the destructor's synchronous flush that
      follows neither writes nor waits, and the state stays dirty. */
  lemma ChangesAfterShutdownStayUnflushed(c: Controller, times: seq<int>)
    requires c.profilePresent && |times| > 0
    ensures var s := Run(FlushSync(c), Changes(times) + [Destroyed]);
            s.dirty && s.timerActive
            && s.storeWrites == FlushSync(c).storeWrites
            && s.shutdownWaits == FlushSync(c).shutdownWaits
  {
    RunAppend(FlushSync(c), Changes(times), [Destroyed]);
    BurstDefersFlush(FlushSync(c), times);
  }

  /** A burst of cookie changes followed by a timer tick at time t costs at
      most one store write: none while t is within the debounce interval of
      the last change, exactly one (given a cookie store) once it has passed. */
  lemma BurstCoalesces(c: Controller, times: seq<int>, t: int)
    requires AtRest(c) && c.profilePresent && |times| > 0
    ensures Run(c, Changes(times) + [TimerDue(t)]).storeWrites
            == c.storeWrites
               + (if t >= times[|times| - 1] + DebounceIntervalMs && c.cookieStorePresent then 1 else 0)
    ensures t >= times[|times| - 1] + DebounceIntervalMs ==>
              !Run(c, Changes(times) + [TimerDue(t)]).dirty
  {
    RunAppend(c, Changes(times), [TimerDue(t)]);
    BurstDefersFlush(c, times);
  }
}
