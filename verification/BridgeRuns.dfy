/** The gateway bridge over whole runs (src/dsh_runtime_host.c:372-436, 4011-4038; example/main_cli.c:795-879,
    1368-1394, 1573-1605): calls go out in order, come back once, and leave one audit record each. */
module BridgeRuns {
  import opened Wrappers
  import opened BridgeTables

  /** Dispatch names by how they are audited: `Silent` are socketListen and socketConnect. */
  datatype Name = Audited | Silent | AbortName

  datatype Request = Request(call: nat, name: Name)

  datatype Audit = Audit(call: nat, skip: bool)

  /** What serving a request hands to the settle: whether its payload parses, the calls the woken
      JavaScript makes, and whether its jobs run without an exception. */
  datatype Reply = Reply(parses: bool, calls: seq<Name>, jobsRun: bool)

  /** `dispatched` and `served` are the requests in the order they were queued and served, `records` the
      call ids of the audit records, `settled` those of the promises settled. */
  datatype Bridge = Bridge(
    http: bool, nextId: nat, pending: map<nat, int>, queue: seq<Request>, auditMap: seq<Audit>, failed: bool,
    dispatched: seq<Request>, served: seq<Request>, records: seq<nat>, settled: seq<nat>)

  function Start(http: bool): Bridge {
    Bridge(http, 0, map[], [], [], false, [], [], [], [])
  }

  function Enqueued(b: Bridge, r: Request): Bridge {
    b.(queue := b.queue + [r], dispatched := b.dispatched + [r])
  }

  /** js_gateway_call: a new id, a parked promise, a queued request. */
  function Called(b: Bridge, name: Name): Bridge {
    Enqueued(b.(nextId := b.nextId + 1, pending := b.pending[b.nextId + 1 := 0]), Request(b.nextId + 1, name))
  }

  /** js_gateway_abort: no promise, call id 0. */
  function Aborted(b: Bridge): Bridge {
    Enqueued(b, Request(0, AbortName))
  }

  function AllCalled(b: Bridge, names: seq<Name>): Bridge
    decreases |names|
  {
    if names == [] then b else AllCalled(Called(b, names[0]), names[1..])
  }

  function FirstAudit(map_: seq<Audit>, call: nat): (i: nat)
    ensures i <= |map_| && (i < |map_| ==> map_[i].call == call)
  {
    if map_ == [] || map_[0].call == call then 0 else 1 + FirstAudit(map_[1..], call)
  }

  function WithoutAudit(map_: seq<Audit>, call: nat): seq<Audit> {
    var i := FirstAudit(map_, call);
    if i == |map_| then map_ else map_[..i] + map_[i + 1..]
  }

  /** The audit record of a call, unless it is to be skipped; its entry goes either way. */
  function AuditTaken(b: Bridge, call: nat): Bridge {
    var i := FirstAudit(b.auditMap, call);
    var emits := i < |b.auditMap| && !b.auditMap[i].skip;
    b.(auditMap := WithoutAudit(b.auditMap, call), records := if emits then b.records + [call] else b.records)
  }

  /** dsh_runtime_gateway_settle, a failure of which the backend remembers. */
  function PromiseSettled(b: Bridge, call: nat, reply: Reply): Bridge {
    if call !in b.pending then b.(failed := true)
    else
      var taken := b.(pending := b.pending - {call});
      if !reply.parses then taken.(failed := true)
      else
        var resumed := AllCalled(taken.(settled := taken.settled + [call]), reply.calls);
        resumed.(failed := resumed.failed || !reply.jobsRun)
  }

  /** smoke_settle. */
  function Settled(b: Bridge, call: nat, reply: Reply): Bridge {
    PromiseSettled(AuditTaken(b, call), call, reply)
  }

  /** smoke_serve of the request at the head of the queue. */
  function Served(b: Bridge, reply: Reply): Bridge
    requires b.queue != []
  {
    var r := b.queue[0];
    var armed := b.(queue := b.queue[1..], served := b.served + [r],
                    auditMap := b.auditMap + [Audit(r.call, !r.name.Audited?)]);
    if r.name.AbortName? && b.http then
      armed.(records := armed.records + [r.call], auditMap := WithoutAudit(armed.auditMap, r.call))
    else Settled(armed, r.call, reply)
  }

  datatype Step = Call(name: Name) | Abort | Serve(reply: Reply)

  /** A failed bridge serves nothing more. */
  function Apply(b: Bridge, step: Step): Bridge {
    match step
    case Call(name) => Called(b, name)
    case Abort => Aborted(b)
    case Serve(reply) => if b.queue == [] || b.failed then b else Served(b, reply)
  }

  function Run(b: Bridge, steps: seq<Step>): Bridge
    decreases |steps|
  {
    if steps == [] then b else Run(Apply(b, steps[0]), steps[1..])
  }

  // ---- what every step keeps -----------------------------------------------------------------

  /** The records a list of served requests leaves: one for each that is not audited elsewhere. */
  function RecordsOf(http: bool, served: seq<Request>): seq<nat> {
    if served == [] then []
    else
      var last := served[|served| - 1];
      var before := RecordsOf(http, served[..|served| - 1]);
      if Recorded(http, last.name) then before + [last.call] else before
  }

  predicate Recorded(http: bool, name: Name) {
    name.Audited? || (name.AbortName? && http)
  }

  ghost predicate Accounted(b: Bridge) {
    && (forall id :: id in b.pending ==> 1 <= id <= b.nextId)
    && (forall i, j :: 0 <= i < j < |b.settled| ==> b.settled[i] != b.settled[j])
    && (forall i :: 0 <= i < |b.settled| ==> b.settled[i] !in b.pending && 1 <= b.settled[i] <= b.nextId)
    && b.dispatched == b.served + b.queue
    && b.auditMap == [] && b.records == RecordsOf(b.http, b.served)
    && (forall i :: 0 <= i < |b.queue| ==> b.queue[i].call <= b.nextId)
  }

  lemma CalledKeepsAccounted(b: Bridge, name: Name)
    requires Accounted(b)
    ensures Accounted(Called(b, name))
  {
    hide RecordsOf;
    assert b.served + b.queue + [Request(b.nextId + 1, name)] == b.served + (b.queue + [Request(b.nextId + 1, name)]);
  }

  lemma AbortedKeepsAccounted(b: Bridge)
    requires Accounted(b)
    ensures Accounted(Aborted(b))
  {
    hide RecordsOf;
    assert b.served + b.queue + [Request(0, AbortName)] == b.served + (b.queue + [Request(0, AbortName)]);
  }

  lemma {:induction false} AllCalledKeepsAccounted(b: Bridge, names: seq<Name>)
    requires Accounted(b)
    ensures Accounted(AllCalled(b, names)) && AllCalled(b, names).http == b.http
    ensures b.nextId <= AllCalled(b, names).nextId && AllCalled(b, names).failed == b.failed
    ensures AllCalled(b, names).settled == b.settled && AllCalled(b, names).served == b.served
    decreases |names|
  {
    hide Accounted;
    if names != [] {
      CalledKeepsAccounted(b, names[0]);
      AllCalledKeepsAccounted(Called(b, names[0]), names[1..]);
    }
  }

  /** The entry armed for a request is the one its settle consumes. */
  lemma ArmedIsConsumed(entry: Audit)
    ensures FirstAudit([] + [entry], entry.call) == 0 && WithoutAudit([] + [entry], entry.call) == []
  {
    assert [] + [entry] == [entry];
  }

  lemma RecordsNext(http: bool, served: seq<Request>, r: Request)
    ensures RecordsOf(http, served + [r])
         == if Recorded(http, r.name) then RecordsOf(http, served) + [r.call] else RecordsOf(http, served)
  {
    assert (served + [r])[..|served|] == served;
  }

  /** The state in which the settle's JavaScript runs. */
  function Taken(b: Bridge, r: Request): Bridge {
    b.(queue := b.queue[if b.queue == [] then 0 else 1..], served := b.served + [r],
       records := if r.name.Audited? then b.records + [r.call] else b.records, pending := b.pending - {r.call})
  }

  lemma ServedUnfolds(b: Bridge, reply: Reply)
    requires Accounted(b) && b.queue != []
    ensures
      var r := b.queue[0];
      Served(b, reply)
      == if r.name.AbortName? && b.http then
           b.(queue := b.queue[1..], served := b.served + [r], records := b.records + [r.call])
         else if r.call !in b.pending then Taken(b, r).(pending := b.pending, failed := true)
         else if !reply.parses then Taken(b, r).(failed := true)
         else
           var resumed := AllCalled(Taken(b, r).(settled := b.settled + [r.call]), reply.calls);
           resumed.(failed := resumed.failed || !reply.jobsRun)
  {
    hide AllCalled, FirstAudit, WithoutAudit, RecordsOf;
    var r := b.queue[0];
    ArmedIsConsumed(Audit(r.call, !r.name.Audited?));
    assert b.auditMap == [];
  }

  lemma TakenIsAccounted(b: Bridge, settled: bool)
    requires Accounted(b) && b.queue != [] && !(b.queue[0].name.AbortName? && b.http)
    requires settled ==> b.queue[0].call in b.pending
    ensures
      var r := b.queue[0];
      Accounted(Taken(b, r).(settled := if settled then b.settled + [r.call] else b.settled))
  {
    var r := b.queue[0];
    RecordsNext(b.http, b.served, r);
    hide RecordsOf;
    assert b.served + b.queue == (b.served + [r]) + b.queue[1..];
  }

  lemma FailingKeepsAccounted(b: Bridge, failed: bool)
    requires Accounted(b)
    ensures Accounted(b.(failed := failed))
  {
    hide RecordsOf;
  }

  lemma AbortServedKeepsAccounted(b: Bridge)
    requires Accounted(b) && b.queue != [] && b.queue[0].name.AbortName? && b.http
    ensures
      var r := b.queue[0];
      Accounted(b.(queue := b.queue[1..], served := b.served + [r], records := b.records + [r.call]))
  {
    var r := b.queue[0];
    RecordsNext(b.http, b.served, r);
    hide RecordsOf;
    assert b.served + b.queue == (b.served + [r]) + b.queue[1..];
  }

  lemma UnknownKeepsAccounted(b: Bridge)
    requires Accounted(b) && b.queue != [] && !(b.queue[0].name.AbortName? && b.http) && b.queue[0].call !in b.pending
    ensures Accounted(Taken(b, b.queue[0]).(pending := b.pending, failed := true))
  {
    var r := b.queue[0];
    TakenIsAccounted(b, false);
    assert b.pending - {r.call} == b.pending;
    var taken := Taken(b, r).(settled := b.settled);
    assert taken == Taken(b, r).(pending := b.pending);
    hide Accounted, Taken;
    FailingKeepsAccounted(taken, true);
  }

  lemma DroppedKeepsAccounted(b: Bridge)
    requires Accounted(b) && b.queue != [] && !(b.queue[0].name.AbortName? && b.http)
    ensures Accounted(Taken(b, b.queue[0]).(failed := true))
  {
    var r := b.queue[0];
    TakenIsAccounted(b, false);
    assert Taken(b, r).(settled := b.settled) == Taken(b, r);
    hide Accounted, Taken;
    FailingKeepsAccounted(Taken(b, r), true);
  }

  lemma ResumedKeepsAccounted(b: Bridge, names: seq<Name>, jobsRun: bool)
    requires Accounted(b)
    ensures
      var resumed := AllCalled(b, names);
      Accounted(resumed.(failed := resumed.failed || !jobsRun))
  {
    hide Accounted, AllCalled;
    AllCalledKeepsAccounted(b, names);
    FailingKeepsAccounted(AllCalled(b, names), AllCalled(b, names).failed || !jobsRun);
  }

  lemma ServedKeepsAccounted(b: Bridge, reply: Reply)
    requires Accounted(b) && b.queue != []
    ensures Accounted(Served(b, reply))
  {
    var r := b.queue[0];
    ServedUnfolds(b, reply);
    hide Accounted, Served, AllCalled, Taken;
    if r.name.AbortName? && b.http {
      AbortServedKeepsAccounted(b);
    } else if r.call !in b.pending {
      UnknownKeepsAccounted(b);
    } else if !reply.parses {
      DroppedKeepsAccounted(b);
    } else {
      TakenIsAccounted(b, true);
      ResumedKeepsAccounted(Taken(b, r).(settled := b.settled + [r.call]), reply.calls, reply.jobsRun);
    }
  }

  /** Every run: a promise is settled at most once and never again in flight, requests are served in
      the order they were dispatched, and each request served leaves its audit record, no more. */
  lemma {:induction false} EveryRun(b: Bridge, steps: seq<Step>)
    requires Accounted(b)
    ensures Accounted(Run(b, steps))
    decreases |steps|
  {
    hide Accounted, Served, Called, Aborted;
    if steps != [] {
      match steps[0] {
        case Call(name) => CalledKeepsAccounted(b, name);
        case Abort => AbortedKeepsAccounted(b);
        case Serve(reply) => if b.queue != [] && !b.failed { ServedKeepsAccounted(b, reply); }
      }
      EveryRun(Apply(b, steps[0]), steps[1..]);
    }
  }

  /** Ids of calls, aborts left aside, strictly increase in dispatch order. */
  ghost predicate Ascending(b: Bridge) {
    && (forall i :: 0 <= i < |b.dispatched| ==> b.dispatched[i].call <= b.nextId)
    && (forall i, j :: 0 <= i < j < |b.dispatched| && b.dispatched[i].call > 0 && b.dispatched[j].call > 0 ==>
          b.dispatched[i].call < b.dispatched[j].call)
  }

  lemma {:induction false} AllCalledAscends(b: Bridge, names: seq<Name>)
    requires Ascending(b)
    ensures Ascending(AllCalled(b, names))
    decreases |names|
  {
    if names != [] { AllCalledAscends(Called(b, names[0]), names[1..]); }
  }

  lemma StepAscends(b: Bridge, step: Step)
    requires Ascending(b)
    ensures Ascending(Apply(b, step))
  {
    if step.Serve? && b.queue != [] && !b.failed {
      hide AllCalled, WithoutAudit, FirstAudit;
      var r, reply := b.queue[0], step.reply;
      if !(r.name.AbortName? && b.http) && r.call in b.pending && reply.parses {
        var armed := b.(queue := b.queue[1..], served := b.served + [r],
                        auditMap := b.auditMap + [Audit(r.call, !r.name.Audited?)]);
        var taken := AuditTaken(armed, r.call);
        AllCalledAscends(taken.(pending := taken.pending - {r.call}, settled := taken.settled + [r.call]), reply.calls);
      }
    }
  }

  /** Over every run no call id is given out twice, and a later call has the larger one. */
  lemma {:induction false} CallIdsAscend(b: Bridge, steps: seq<Step>)
    requires Ascending(b)
    ensures Ascending(Run(b, steps))
    decreases |steps|
  {
    if steps != [] {
      StepAscends(b, steps[0]);
      CallIdsAscend(Apply(b, steps[0]), steps[1..]);
    }
  }

  /** Both from the start of the host on. */
  lemma EveryRunFromTheStart(http: bool, steps: seq<Step>)
    ensures Accounted(Run(Start(http), steps)) && Ascending(Run(Start(http), steps))
  {
    assert Accounted(Start(http)) && Ascending(Start(http));
    hide Accounted, Ascending, Run, Start;
    EveryRun(Start(http), steps);
    CallIdsAscend(Start(http), steps);
  }

  // ---- ids leave once -----------------------------------------------------------------------------

  /** An id that was handed out and is no longer in flight. */
  predicate Gone(b: Bridge, id: nat) {
    1 <= id <= b.nextId && id !in b.pending
  }

  lemma {:induction false} AllCalledKeepsGone(b: Bridge, names: seq<Name>, id: nat)
    requires Gone(b, id)
    ensures Gone(AllCalled(b, names), id) && AllCalled(b, names).settled == b.settled
    decreases |names|
  {
    if names != [] { AllCalledKeepsGone(Called(b, names[0]), names[1..], id); }
  }

  lemma StepsKeepGone(b: Bridge, step: Step, id: nat)
    requires Accounted(b) && Gone(b, id)
    ensures Gone(Apply(b, step), id) && (id in Apply(b, step).settled <==> id in b.settled)
  {
    hide RecordsOf;
    if step.Serve? && b.queue != [] && !b.failed {
      var r, reply := b.queue[0], step.reply;
      ServedUnfolds(b, reply);
      hide Served, AllCalled;
      if !(r.name.AbortName? && b.http) && r.call in b.pending && reply.parses {
        AllCalledKeepsGone(Taken(b, r).(settled := b.settled + [r.call]), reply.calls, id);
      }
    }
  }

  /** Once it has left, an id never comes back, and its promise is settled later in no run. */
  lemma {:induction false} GoneForever(b: Bridge, steps: seq<Step>, id: nat)
    requires Accounted(b) && Gone(b, id)
    ensures Gone(Run(b, steps), id) && (id in Run(b, steps).settled <==> id in b.settled)
    decreases |steps|
  {
    if steps != [] {
      StepsKeepGone(b, steps[0], id);
      EveryRun(b, [steps[0]]);
      assert [steps[0]][1..] == [];
      hide Accounted, Gone, Apply;
      assert Run(b, [steps[0]]) == Apply(b, steps[0]);
      GoneForever(Apply(b, steps[0]), steps[1..], id);
    }
  }

  /** A reply that is not JSON drops the call: its promise is settled in no continuation of the run. */
  lemma UnparsableReplyLosesTheCall(b: Bridge, reply: Reply, steps: seq<Step>)
    requires Accounted(b) && b.queue != [] && !b.failed && !reply.parses
    requires b.queue[0].call in b.pending && !(b.queue[0].name.AbortName? && b.http)
    ensures
      var id := b.queue[0].call;
      var after := Run(Apply(b, Serve(reply)), steps);
      id !in after.settled && id !in after.pending && Apply(b, Serve(reply)).failed
  {
    var id := b.queue[0].call;
    ServedUnfolds(b, reply);
    ServedKeepsAccounted(b, reply);
    assert id !in b.settled;
    GoneForever(Apply(b, Serve(reply)), steps, id);
  }

  /** A call in flight that is served leaves the table, and its promise is settled, then or in any
      continuation of the run, exactly when the reply is JSON. */
  lemma ServedCallSettlesExactly(b: Bridge, reply: Reply, steps: seq<Step>)
    requires Accounted(b) && b.queue != [] && !b.failed
    requires b.queue[0].call in b.pending && !(b.queue[0].name.AbortName? && b.http)
    ensures
      var id := b.queue[0].call;
      var after := Run(Apply(b, Serve(reply)), steps);
      id !in after.pending && (id in after.settled <==> reply.parses)
  {
    var r, next := b.queue[0], Apply(b, Serve(reply));
    if !reply.parses {
      UnparsableReplyLosesTheCall(b, reply, steps);
    } else {
      ServedUnfolds(b, reply);
      ServedKeepsAccounted(b, reply);
      var settled := Taken(b, r).(settled := b.settled + [r.call]);
      hide AllCalled, Served, RecordsOf, Run;
      AllCalledKeepsGone(settled, reply.calls, r.call);
      GoneForever(next, steps, r.call);
    }
  }

  // ---- the host ----------------------------------------------------------------------------------------

  /** The runtime's call table together with the backend's queue and audit map. */
  class Backend {
    const http: bool
    var nextId: nat
    var calls: PendingCalls
    var queue: seq<Request>
    var auditMap: seq<Audit>
    var failed: bool
    ghost var dispatched: seq<Request>
    ghost var served: seq<Request>
    ghost var records: seq<nat>
    ghost var settled: seq<nat>

    ghost predicate Valid()
      reads this, calls, calls.rows
    {
      calls.Valid() && forall id :: id in calls.Parked() ==> id <= nextId
    }

    ghost function Now(): Bridge
      requires Valid()
      reads this, calls, calls.rows
    {
      Bridge(http, nextId, calls.Parked(), queue, auditMap, failed, dispatched, served, records, settled)
    }

    constructor (http: bool)
      ensures Valid() && Now() == Start(http) && fresh(calls) && fresh(calls.rows)
    {
      this.http := http;
      nextId, queue, auditMap, failed := 0, [], [], false;
      dispatched, served, records, settled := [], [], [], [];
      calls := new PendingCalls();
    }

    /** smoke_on_call: append to the queue. */
    method OnCall(r: Request)
      requires Valid()
      modifies this
      ensures Valid() && Now() == Enqueued(old(Now()), r) && calls == old(calls)
    {
      queue := queue + [r];
      dispatched := dispatched + [r];
    }

    method GatewayCall(name: Name)
      requires Valid()
      modifies this, calls, calls.rows
      ensures Valid() && calls == old(calls) && (calls.rows == old(calls.rows) || fresh(calls.rows))
      ensures Now() == Called(old(Now()), name)
    {
      nextId := nextId + 1;
      calls.Add(nextId, 0);
      OnCall(Request(nextId, name));
    }

    method GatewayAbort()
      requires Valid()
      modifies this
      ensures Valid() && calls == old(calls) && Now() == Aborted(old(Now()))
    {
      OnCall(Request(0, AbortName));
    }

    /** Remove the first audit entry of a call, shifting the later ones; true when it was to be emitted. */
    method ConsumeAudit(call: nat) returns (emits: bool)
      requires Valid()
      modifies `auditMap
      ensures Valid() && auditMap == WithoutAudit(old(auditMap), call)
      ensures
        var i := FirstAudit(old(auditMap), call);
        emits <==> i < |old(auditMap)| && !old(auditMap)[i].skip
    {
      var i := 0;
      assert auditMap[0..] == auditMap;
      while i < |auditMap| && auditMap[i].call != call
        invariant 0 <= i <= |auditMap| && auditMap == old(auditMap)
        invariant FirstAudit(auditMap, call) == i + FirstAudit(auditMap[i..], call)
      {
        assert auditMap[i..][1..] == auditMap[i + 1..];
        i := i + 1;
      }
      assert FirstAudit(auditMap, call) == i;
      if i == |auditMap| { return false; }
      emits := !auditMap[i].skip;
      auditMap := auditMap[..i] + auditMap[i + 1..];
    }

    /** The calls made by the JavaScript a settle wakes. */
    method MakeCalls(names: seq<Name>)
      requires Valid()
      modifies this, calls, calls.rows
      ensures Valid() && calls == old(calls) && (calls.rows == old(calls.rows) || fresh(calls.rows))
      ensures Now() == AllCalled(old(Now()), names)
    {
      var i := 0;
      assert names[0..] == names;
      hide Called;
      while i < |names|
        invariant 0 <= i <= |names| && Valid() && calls == old(calls)
        invariant calls.rows == old(calls.rows) || fresh(calls.rows)
        invariant AllCalled(Now(), names[i..]) == AllCalled(old(Now()), names)
      {
        assert names[i..][1..] == names[i + 1..];
        GatewayCall(names[i]);
        i := i + 1;
      }
    }

    method SettlePromise(call: nat, reply: Reply)
      requires Valid()
      modifies this, calls, calls.rows
      ensures Valid() && calls == old(calls) && (calls.rows == old(calls.rows) || fresh(calls.rows))
      ensures Now() == PromiseSettled(old(Now()), call, reply)
    {
      hide AllCalled;
      var taken := calls.Take(call);
      if taken.None? {
        assert calls.Parked() == old(calls.Parked());
        failed := true;
        return;
      }
      if !reply.parses {
        failed := true;
        return;
      }
      settled := settled + [call];
      MakeCalls(reply.calls);
      if !reply.jobsRun { failed := true; }
    }

    method SmokeSettle(call: nat, reply: Reply)
      requires Valid()
      modifies this, calls, calls.rows
      ensures Valid() && calls == old(calls) && (calls.rows == old(calls.rows) || fresh(calls.rows))
      ensures Now() == Settled(old(Now()), call, reply)
    {
      hide FirstAudit, WithoutAudit, PromiseSettled;
      var emits := ConsumeAudit(call);
      if emits { records := records + [call]; }
      SettlePromise(call, reply);
    }

    /** One turn of smoke_drain. */
    method ServeNext(reply: Reply)
      requires Valid() && queue != [] && !failed
      modifies this, calls, calls.rows
      ensures Valid() && calls == old(calls) && (calls.rows == old(calls.rows) || fresh(calls.rows))
      ensures Now() == Apply(old(Now()), Serve(reply))
    {
      var r := queue[0];
      queue := queue[1..];
      served := served + [r];
      auditMap := auditMap + [Audit(r.call, !r.name.Audited?)];
      hide FirstAudit, WithoutAudit, Settled;
      if r.name.AbortName? && http {
        records := records + [r.call];
        var _ := ConsumeAudit(r.call);
        return;
      }
      SmokeSettle(r.call, reply);
    }
  }
}
