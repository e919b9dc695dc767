/** The timer table of the run loop over whole runs (example/main_cli.c:1406-1449, 1762-1813): timers are
    armed and cancelled by calls and fired by quiescent passes that sleep. */
module TimerRuns {
  import opened Wrappers
  import opened BridgeTables

  const MAX_TIMERS := 256

  /** An event delivered at `at` for a timer due at `due`. */
  datatype Fired = Fired(id: nat, at: int, due: int)

  /** Times are milliseconds of the monotonic clock. `rows` is the table in array order, a row's value its
      fire time; `deadline` the second in which the backstop elapses; `scheduled`, `fired` and `cancelled`
      the timers armed and gone, in order. */
  datatype Host = Host(
    rows: seq<Row>, nextId: nat, now: int, deadline: int, running: bool,
    scheduled: seq<nat>, fired: seq<Fired>, cancelled: seq<nat>)

  /** `slept` is how long the sleep of a pass lasts, if it sleeps; `delivered` whether the event's
      handlers end without an exception. `Stop` is any other end of the loop. */
  datatype Step =
    | Tick(ms: nat)
    | Schedule(delay: int)
    | Cancel(want: nat)
    | Pass(alive: bool, slept: nat, delivered: bool)
    | Stop

  function Start(now: int, deadline: int): Host {
    Host([], 0, now, deadline, true, [], [], [])
  }

  /** The first of the earliest timers. */
  function Earliest(rows: seq<Row>): (e: nat)
    requires rows != []
    ensures e < |rows| && forall k :: 0 <= k < |rows| ==> rows[e].value <= rows[k].value
  {
    var last := |rows| - 1;
    if last == 0 then 0
    else
      var e := Earliest(rows[..last]);
      assert forall k :: 0 <= k < last ==> rows[..last][e].value <= rows[..last][k].value == rows[k].value;
      if rows[last].value < rows[e].value then last else e
  }

  /** How long a pass wants to sleep. */
  function Nap(rows: seq<Row>, now: int, alive: bool): int {
    if rows == [] then 10
    else
      var wait := rows[Earliest(rows)].value - now;
      if alive && (wait > 10 || wait < 0) then 10 else wait
  }

  /** The index of a timer, or the number of rows. */
  function IndexOf(rows: seq<Row>, id: nat): (i: nat)
    ensures i <= |rows| && (i < |rows| ==> rows[i].id == id) && forall k :: 0 <= k < i ==> rows[k].id != id
  {
    if rows == [] || rows[0].id == id then 0 else 1 + IndexOf(rows[1..], id)
  }

  /** timerSchedule: a negative delay and a full table are rejected. */
  function Scheduled(h: Host, delay: int): Host {
    if delay < 0 || |h.rows| >= MAX_TIMERS then h
    else
      var id := h.nextId + 1;
      h.(rows := h.rows + [Row(id, h.now + delay)], nextId := id, scheduled := h.scheduled + [id])
  }

  function Cancelled(h: Host, want: nat): Host {
    var i := IndexOf(h.rows, want);
    if i == |h.rows| then h else h.(rows := SwapRemoved(h.rows, i), cancelled := h.cancelled + [want])
  }

  /** Fewer whole seconds are left than the sleep takes. */
  predicate NoRoom(deadline: int, now: int, wait: int) {
    deadline - now / 1000 < (wait + 999) / 1000
  }

  /** A pass with nothing served: it ends the loop when nothing is armed or alive, or when the deadline
      leaves no room for the sleep; otherwise it sleeps and fires the earliest timer, due or not. */
  function Passed(h: Host, alive: bool, slept: nat, delivered: bool): Host {
    var wait := Nap(h.rows, h.now, alive);
    if h.rows == [] && !alive then h.(running := false)
    else if wait > 0 && NoRoom(h.deadline, h.now, wait) then h.(running := false)
    else Woken(h.(now := if wait > 0 then h.now + slept else h.now), delivered)
  }

  function Woken(h: Host, delivered: bool): Host {
    if h.rows == [] then h
    else
      var e := Earliest(h.rows);
      h.(rows := SwapRemoved(h.rows, e), running := delivered,
         fired := h.fired + [Fired(h.rows[e].id, h.now, h.rows[e].value)])
  }

  /** An ended loop serves nothing more. */
  function Apply(h: Host, step: Step): Host {
    if !h.running then h
    else
      match step
      case Tick(ms) => h.(now := h.now + ms)
      case Schedule(delay) => Scheduled(h, delay)
      case Cancel(want) => Cancelled(h, want)
      case Pass(alive, slept, delivered) => Passed(h, alive, slept, delivered)
      case Stop => h.(running := false)
  }

  function Run(h: Host, steps: seq<Step>): Host
    decreases |steps|
  {
    if steps == [] then h else Run(Apply(h, steps[0]), steps[1..])
  }

  // ---- every timer leaves once -----------------------------------------------------------------

  function Ids(rows: seq<Row>): seq<nat> {
    seq(|rows|, i requires 0 <= i < |rows| => rows[i].id)
  }

  function FiredIds(fired: seq<Fired>): seq<nat> {
    seq(|fired|, i requires 0 <= i < |fired| => fired[i].id)
  }

  /** Every id given out is armed once: it is in the table, or has left it by one fire, or by one cancel. */
  ghost predicate Accounted(h: Host) {
    && |h.rows| <= MAX_TIMERS
    && |h.scheduled| == h.nextId && (forall i :: 0 <= i < |h.scheduled| ==> h.scheduled[i] == i + 1)
    && multiset(Ids(h.rows)) + multiset(FiredIds(h.fired)) + multiset(h.cancelled) == multiset(h.scheduled)
  }

  lemma SwapRemovedIds(rows: seq<Row>, i: nat)
    requires i < |rows|
    ensures |SwapRemoved(rows, i)| == |rows| - 1
    ensures multiset(Ids(SwapRemoved(rows, i))) + multiset{rows[i].id} == multiset(Ids(rows))
  {
    var last := |rows| - 1;
    var ids := Ids(rows);
    assert ids == ids[..last] + [rows[last].id];
    assert multiset(ids) == multiset(ids[..last]) + multiset{rows[last].id};
    if i < last {
      assert Ids(SwapRemoved(rows, i)) == ids[..last][i := rows[last].id];
    } else {
      assert Ids(SwapRemoved(rows, i)) == ids[..last];
    }
  }

  lemma FiredNext(fired: seq<Fired>, f: Fired)
    ensures multiset(FiredIds(fired + [f])) == multiset(FiredIds(fired)) + multiset{f.id}
  {
    assert FiredIds(fired + [f]) == FiredIds(fired) + [f.id];
  }

  lemma ArmingKeepsAccounted(h: Host, delay: int)
    requires Accounted(h)
    ensures Accounted(Scheduled(h, delay))
  {
    var id := h.nextId + 1;
    assert Ids(h.rows + [Row(id, h.now + delay)]) == Ids(h.rows) + [id];
  }

  lemma CancellingKeepsAccounted(h: Host, want: nat)
    requires Accounted(h)
    ensures Accounted(Cancelled(h, want))
  {
    var i := IndexOf(h.rows, want);
    if i < |h.rows| { SwapRemovedIds(h.rows, i); }
  }

  lemma FiringKeepsAccounted(h: Host, delivered: bool)
    requires Accounted(h)
    ensures Accounted(Woken(h, delivered))
  {
    if h.rows != [] {
      var e := Earliest(h.rows);
      SwapRemovedIds(h.rows, e);
      FiredNext(h.fired, Fired(h.rows[e].id, h.now, h.rows[e].value));
    }
  }

  lemma StepsKeepAccounted(h: Host, step: Step)
    requires Accounted(h)
    ensures Accounted(Apply(h, step))
  {
    hide Scheduled, Cancelled, Woken;
    match step
    case Schedule(delay) => ArmingKeepsAccounted(h, delay);
    case Cancel(want) => CancellingKeepsAccounted(h, want);
    case Pass(alive, slept, delivered) =>
      FiringKeepsAccounted(h.(now := if Nap(h.rows, h.now, alive) > 0 then h.now + slept else h.now), delivered);
    case _ =>
  }

  lemma {:induction false} RunsStayAccounted(h: Host, steps: seq<Step>)
    requires Accounted(h)
    ensures Accounted(Run(h, steps))
    decreases |steps|
  {
    hide Accounted, Apply;
    if steps != [] {
      StepsKeepAccounted(h, steps[0]);
      RunsStayAccounted(Apply(h, steps[0]), steps[1..]);
    }
  }

  /** Over every run: the ids armed are 1, 2, 3 and so on, each once, and each of them is either still in the
      table or has left it exactly once, by a fire or by a cancel. */
  lemma EveryTimerLeavesOnce(now: int, deadline: int, steps: seq<Step>, id: nat)
    ensures
      var h := Run(Start(now, deadline), steps);
      && multiset(h.scheduled)[id] == (if 1 <= id <= h.nextId then 1 else 0)
      && multiset(Ids(h.rows))[id] + multiset(FiredIds(h.fired))[id] + multiset(h.cancelled)[id]
         == multiset(h.scheduled)[id]
  {
    var start := Start(now, deadline);
    assert Ids([]) == [] && FiredIds([]) == [];
    assert Accounted(start);
    hide Run, Start;
    RunsStayAccounted(start, steps);
    var h := Run(start, steps);
    CountingOnce(h.scheduled, id);
  }

  lemma {:induction false} CountingOnce(s: seq<nat>, id: nat)
    requires forall i :: 0 <= i < |s| ==> s[i] == i + 1
    ensures multiset(s)[id] == if 1 <= id <= |s| then 1 else 0
  {
    if s != [] {
      var init := s[..|s| - 1];
      assert s == init + [|s|];
      CountingOnce(init, id);
    }
  }

  // ---- a timer that has left --------------------------------------------------------------------

  lemma StepsExtendLogs(h: Host, step: Step)
    ensures h.fired <= Apply(h, step).fired && h.cancelled <= Apply(h, step).cancelled && h.scheduled <= Apply(h, step).scheduled
  {}

  lemma {:induction false} RunsExtendLogs(h: Host, steps: seq<Step>)
    ensures h.fired <= Run(h, steps).fired && h.cancelled <= Run(h, steps).cancelled && h.scheduled <= Run(h, steps).scheduled
    decreases |steps|
  {
    hide Apply;
    if steps != [] {
      StepsExtendLogs(h, steps[0]);
      RunsExtendLogs(Apply(h, steps[0]), steps[1..]);
    }
  }

  lemma PrefixCounts<T>(a: seq<T>, b: seq<T>, x: T)
    requires a <= b
    ensures multiset(a)[x] <= multiset(b)[x]
  {
    assert b == a + b[|a|..];
  }

  lemma PrefixFired(a: seq<Fired>, b: seq<Fired>)
    requires a <= b
    ensures FiredIds(a) <= FiredIds(b)
  {}

  /** Once it has fired or been cancelled, a timer never returns, fires again or is cancelled again. */
  lemma LeftForever(h: Host, steps: seq<Step>, id: nat)
    requires Accounted(h) && 1 <= id <= h.nextId && id !in Ids(h.rows)
    ensures
      var after := Run(h, steps);
      && id !in Ids(after.rows)
      && multiset(FiredIds(after.fired))[id] == multiset(FiredIds(h.fired))[id]
      && multiset(after.cancelled)[id] == multiset(h.cancelled)[id]
  {
    var after := Run(h, steps);
    RunsStayAccounted(h, steps);
    RunsExtendLogs(h, steps);
    hide Run;
    PrefixFired(h.fired, after.fired);
    PrefixCounts(FiredIds(h.fired), FiredIds(after.fired), id);
    PrefixCounts(h.cancelled, after.cancelled, id);
    CountingOnce(h.scheduled, id);
    CountingOnce(after.scheduled, id);
    assert multiset(Ids(h.rows))[id] == 0;
    assert multiset(Ids(after.rows))[id] == 0;
  }

  /** A cancel takes a timer out exactly when it is in the table. */
  lemma CancelSucceedsExactly(h: Host, want: nat)
    requires h.running
    ensures Apply(h, Cancel(want)).cancelled == (if want in Ids(h.rows) then h.cancelled + [want] else h.cancelled)
  {
    var i := IndexOf(h.rows, want);
    if i < |h.rows| {
      assert Ids(h.rows)[i] == want;
    } else {
      forall k | 0 <= k < |h.rows| ensures Ids(h.rows)[k] != want { assert h.rows[k].id != want; }
    }
  }

  // ---- when a pass fires --------------------------------------------------------------------------

  /** A pass fires at most one timer, and one that none in the table precedes. */
  lemma PassFiresAnEarliest(h: Host, alive: bool, slept: nat, delivered: bool)
    ensures
      var next := Apply(h, Pass(alive, slept, delivered));
      next.fired == h.fired
      || exists k :: 0 <= k < |h.rows| && next.fired == h.fired + [Fired(h.rows[k].id, next.now, h.rows[k].value)]
                     && forall i :: 0 <= i < |h.rows| ==> h.rows[k].value <= h.rows[i].value
  {}

  /** Does the pass fire? */
  predicate Fires(h: Host, alive: bool) {
    var wait := Nap(h.rows, h.now, alive);
    h.running && h.rows != [] && (wait > 0 ==> !NoRoom(h.deadline, h.now, wait))
  }

  /** A pass fires exactly when a timer is armed and the deadline leaves room for the sleep. */
  lemma PassFiresExactly(h: Host, alive: bool, slept: nat, delivered: bool)
    ensures Apply(h, Pass(alive, slept, delivered)).fired != h.fired <==> Fires(h, alive)
  {}

  /** With a sleep of at least the time asked for, a pass fires its timer before it is due exactly when a
      process or socket is alive, the timer is more than 10 ms away, and the sleep does not reach it. */
  lemma FiresEarlyExactly(h: Host, alive: bool, slept: nat, delivered: bool)
    requires Fires(h, alive) && slept >= Nap(h.rows, h.now, alive)
    ensures
      var f := Apply(h, Pass(alive, slept, delivered)).fired[|h.fired|];
      f.at < f.due <==> alive && f.due - h.now > 10 && slept < f.due - h.now
  {
    var e := Earliest(h.rows);
    var after := Apply(h, Pass(alive, slept, delivered));
    assert after.fired == h.fired + [Fired(h.rows[e].id, after.now, h.rows[e].value)];
  }

  /** So without processes and sockets no timer ever fires early, over any run whose sleeps last as long as
      they should. */
  predicate Quiet(h: Host, step: Step) {
    step.Pass? ==> !step.alive && step.slept >= Nap(h.rows, h.now, false)
  }

  predicate QuietRun(h: Host, steps: seq<Step>)
    decreases |steps|
  {
    steps == [] || (Quiet(h, steps[0]) && QuietRun(Apply(h, steps[0]), steps[1..]))
  }

  ghost predicate OnTime(fired: seq<Fired>) {
    forall i :: 0 <= i < |fired| ==> fired[i].at >= fired[i].due
  }

  lemma {:induction false} QuietRunsFireOnTime(h: Host, steps: seq<Step>)
    requires QuietRun(h, steps) && OnTime(h.fired)
    ensures OnTime(Run(h, steps).fired)
    decreases |steps|
  {
    if steps != [] {
      var next := Apply(h, steps[0]);
      assert OnTime(next.fired) by {
        if steps[0].Pass? && Fires(h, false) {
          FiresEarlyExactly(h, false, steps[0].slept, steps[0].delivered);
          assert next.fired[..|h.fired|] == h.fired && |next.fired| == |h.fired| + 1;
        }
      }
      hide Apply, OnTime, Quiet;
      QuietRunsFireOnTime(next, steps[1..]);
    }
  }

  // ---- the driver -------------------------------------------------------------------------------------

  lemma IndexOfIs(rows: seq<Row>, want: nat, i: nat)
    requires i <= |rows| && (i < |rows| ==> rows[i].id == want) && forall k :: 0 <= k < i ==> rows[k].id != want
    ensures IndexOf(rows, want) == i
  {}

  lemma EarliestNext(rows: seq<Row>, i: nat)
    requires 0 < i < |rows|
    ensures Earliest(rows[..i + 1]) == if rows[i].value < rows[Earliest(rows[..i])].value then i else Earliest(rows[..i])
  {
    assert rows[..i + 1][..i] == rows[..i];
  }

  lemma PassUnfolds(h: Host, alive: bool, slept: nat, delivered: bool)
    requires h.running
    ensures
      var wait := Nap(h.rows, h.now, alive);
      Apply(h, Pass(alive, slept, delivered))
      == if (h.rows == [] && !alive) || (wait > 0 && NoRoom(h.deadline, h.now, wait)) then h.(running := false)
         else if wait > 0 then Woken(h.(now := h.now + slept), delivered)
         else Woken(h, delivered)
  {
    hide Nap, NoRoom, Woken;
  }

  /** The loop's timer table and clock. */
  class Driver {
    const timers: array<Row>
    const deadline: int
    var count: nat
    var nextId: nat
    var now: int
    var running: bool
    ghost var scheduled: seq<nat>
    ghost var fired: seq<Fired>
    ghost var cancelled: seq<nat>

    ghost predicate Valid()
      reads this
    {
      timers.Length == MAX_TIMERS && count <= MAX_TIMERS
    }

    ghost function State(): Host
      requires Valid()
      reads this, timers
    {
      Host(timers[..count], nextId, now, deadline, running, scheduled, fired, cancelled)
    }

    constructor (now: int, deadline: int)
      ensures Valid() && State() == Start(now, deadline) && fresh(timers)
    {
      timers := new Row[MAX_TIMERS](_ => Row(0, 0));
      count, nextId, running := 0, 0, true;
      this.now, this.deadline := now, deadline;
      scheduled, fired, cancelled := [], [], [];
    }

    /** timerSchedule; None is a rejection. */
    method ScheduleTimer(delay: int) returns (id: Option<nat>)
      requires Valid() && running
      modifies this, timers
      ensures Valid() && State() == Apply(old(State()), Schedule(delay))
      ensures id == (if delay < 0 || old(count) == MAX_TIMERS then None else Some(old(nextId) + 1))
    {
      if delay < 0 || count >= MAX_TIMERS { return None; }
      ghost var was := timers[..count];
      nextId := nextId + 1;
      timers[count] := Row(nextId, now + delay);
      count := count + 1;
      scheduled := scheduled + [nextId];
      assert timers[..count] == was + [Row(nextId, now + delay)];
      id := Some(nextId);
    }

    method RemoveAt(i: nat)
      requires Valid() && i < count
      modifies timers, `count
      ensures Valid() && timers[..count] == SwapRemoved(old(timers[..count]), i)
    {
      ghost var all := timers[..count];
      timers[i] := timers[count - 1];
      count := count - 1;
      assert timers[..count] == SwapRemoved(all, i);
    }

    /** timerCancel. */
    method CancelTimer(want: nat) returns (done: bool)
      requires Valid() && running
      modifies this, timers
      ensures Valid() && State() == Apply(old(State()), Cancel(want))
      ensures done <==> want in Ids(old(timers[..count]))
    {
      ghost var all := timers[..count];
      CancelSucceedsExactly(State(), want);
      var i := 0;
      while i < count
        invariant 0 <= i <= count && forall k :: 0 <= k < i ==> all[k].id != want
      {
        if timers[i].id == want {
          assert Ids(all)[i] == want;
          IndexOfIs(all, want, i);
          RemoveAt(i);
          cancelled := cancelled + [want];
          return true;
        }
        i := i + 1;
      }
      IndexOfIs(all, want, i);
      assert want !in Ids(all);
      done := false;
    }

    method FindEarliest() returns (earliest: nat)
      requires Valid() && count > 0
      ensures earliest == Earliest(timers[..count])
    {
      earliest := 0;
      assert timers[..count][..1] == timers[..1];
      for i := 1 to count
        invariant earliest == Earliest(timers[..i]) && earliest < i
      {
        EarliestNext(timers[..count], i);
        assert timers[..count][..i + 1] == timers[..i + 1] && timers[..count][..i] == timers[..i];
        if timers[i].value < timers[earliest].value { earliest := i; }
      }
    }

    method PlanNap(alive: bool) returns (earliest: nat, wait: int)
      requires Valid()
      ensures wait == Nap(timers[..count], now, alive) && (count > 0 ==> earliest == Earliest(timers[..count]))
    {
      hide Earliest;
      earliest, wait := 0, 10;
      if count > 0 {
        earliest := FindEarliest();
        wait := timers[earliest].value - now;
        if alive && (wait > 10 || wait < 0) { wait := 10; }
      }
    }

    /** One quiescent pass; `slept` and `delivered` are what the sleep and the event turn out to be. */
    method QuiescentPass(alive: bool, slept: nat, delivered: bool)
      requires Valid() && running
      modifies this, timers
      ensures Valid() && State() == Apply(old(State()), Pass(alive, slept, delivered))
    {
      PassUnfolds(State(), alive, slept, delivered);
      hide Apply, Passed;
      if count == 0 && !alive {
        running := false;
        return;
      }
      hide Earliest, Woken, Nap, NoRoom;
      var earliest, wait := PlanNap(alive);
      if wait > 0 {
        if NoRoom(deadline, now, wait) {
          running := false;
          return;
        }
        now := now + slept;
      }
      FireTimer(earliest, delivered);
    }

    /** A timer, if there is one, leaves the table and its event is delivered. */
    method FireTimer(earliest: nat, delivered: bool)
      requires Valid() && (count > 0 ==> earliest == Earliest(timers[..count]))
      modifies this, timers
      ensures Valid() && State() == Woken(old(State()), delivered)
    {
      hide Earliest;
      if count == 0 { return; }
      fired := fired + [Fired(timers[earliest].id, now, timers[earliest].value)];
      RemoveAt(earliest);
      running := delivered;
    }
  }
}
