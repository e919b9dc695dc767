/** The response-body stream of httpFetch (runtime/dsh/gateway.js:137-201): events push chunks, a consumer
    takes them or sleeps until woken. */
module BodyStream {
  import opened Wrappers
  import opened JsText

  datatype Fault = Cancelled | Fault(code: Text)

  /** A stream and the calls of nextChunk that have not returned. `wake` names the one whose resolver is
      stored; a woken call runs again at a later step. */
  datatype Stream = Stream(
    chunks: seq<Bytes>, done: bool, err: Option<Fault>, wake: Option<nat>,
    asleep: set<nat>, ready: set<nat>)

  const OPEN := Stream([], false, None, None, {}, {})

  datatype Step =
    | Body(chunk: Bytes)
    | End
    | Fail(code: Text)
    | Abort
    | Next(call: nat)
    | Resume(call: nat)

  datatype Outcome = Chunk(bytes: Bytes) | Finished | Threw(fault: Fault)

  function Woken(s: Stream): Stream {
    match s.wake
    case None => s
    case Some(k) => s.(wake := None, asleep := s.asleep - {k}, ready := s.ready + {k})
  }

  /** One pass of nextChunk's loop by call k; None when it goes to sleep. */
  function Pass(s: Stream, k: nat): (Stream, Option<Outcome>) {
    if s.chunks == [] && !s.done then (s.(wake := Some(k), asleep := s.asleep + {k}), None)
    else if s.chunks != [] then (s.(chunks := s.chunks[1..]), Some(Chunk(s.chunks[0])))
    else if s.err.Some? then (s, Some(Threw(s.err.value)))
    else (s, Some(Finished))
  }

  function Apply(s: Stream, step: Step): (Stream, Option<Outcome>) {
    match step
    case Body(c) => (Woken(s.(chunks := s.chunks + [c])), None)
    case End => (Woken(s.(done := true)), None)
    case Fail(code) => (Woken(s.(done := true, err := Some(Fault(code)))), None)
    case Abort => (if s.done then s else Woken(s.(done := true, err := Some(Cancelled))), None)
    case Next(k) => if k in s.asleep + s.ready then (s, None) else Pass(s, k)
    case Resume(k) => if k in s.ready then Pass(s.(ready := s.ready - {k}), k) else (s, None)
  }

  function Run(s: Stream, steps: seq<Step>): Stream
    decreases |steps|
  {
    if steps == [] then s else Run(Apply(s, steps[0]).0, steps[1..])
  }

  /** What the calls return, in order. */
  function Outcomes(s: Stream, steps: seq<Step>): seq<Outcome>
    decreases |steps|
  {
    if steps == [] then []
    else
      var (next, outcome) := Apply(s, steps[0]);
      Listed(outcome) + Outcomes(next, steps[1..])
  }

  function Listed(outcome: Option<Outcome>): seq<Outcome> {
    if outcome.None? then [] else [outcome.value]
  }

  /** The chunk a step pushes. */
  function Arriving(step: Step): seq<Bytes> {
    if step.Body? then [step.chunk] else []
  }

  function Pushed(steps: seq<Step>): seq<Bytes> {
    if steps == [] then [] else Arriving(steps[0]) + Pushed(steps[1..])
  }

  function Returned(outcome: Outcome): seq<Bytes> {
    if outcome.Chunk? then [outcome.bytes] else []
  }

  function Chunks(outcomes: seq<Outcome>): seq<Bytes> {
    if outcomes == [] then [] else Returned(outcomes[0]) + Chunks(outcomes[1..])
  }

  // ---- each chunk once, in order ---------------------------------------------------------

  lemma Associative<T>(a: seq<T>, b: seq<T>, c: seq<T>)
    ensures (a + b) + c == a + (b + c)
  {}

  lemma {:induction false} ChunksConcat(a: seq<Outcome>, b: seq<Outcome>)
    ensures Chunks(a + b) == Chunks(a) + Chunks(b)
  {
    if a == [] {
      assert a + b == b;
      assert [] + Chunks(b) == Chunks(b);
    } else {
      hide Returned;
      assert (a + b)[0] == a[0] && (a + b)[1..] == a[1..] + b;
      ChunksConcat(a[1..], b);
      Associative(Returned(a[0]), Chunks(a[1..]), Chunks(b));
    }
  }

  lemma ChunksListed(outcome: Option<Outcome>)
    ensures Chunks(Listed(outcome)) == if outcome.Some? then Returned(outcome.value) else []
  {
    if outcome.Some? { assert [outcome.value][1..] == []; }
  }

  /** Whatever the interleaving, and however many consumers: the chunks returned so far and the chunks
      still buffered are the chunks pushed, in order. */
  lemma {:induction false} ChunksAreDeliveredInOrder(s: Stream, steps: seq<Step>)
    ensures Chunks(Outcomes(s, steps)) + Run(s, steps).chunks == s.chunks + Pushed(steps)
    decreases |steps|
  {
    if steps == [] {
      assert [] + s.chunks == s.chunks + [];
    } else {
      var (next, outcome) := Apply(s, steps[0]);
      ChunksAreDeliveredInOrder(next, steps[1..]);
      ChunksConcat(Listed(outcome), Outcomes(next, steps[1..]));
      StepMovesOneChunk(s, steps[0]);
      hide Apply, Chunks, Listed, Arriving;
      var first, more := Chunks(Listed(outcome)), Chunks(Outcomes(next, steps[1..]));
      Associative(first, more, Run(s, steps).chunks);
      Associative(first, next.chunks, Pushed(steps[1..]));
      Associative(s.chunks, Arriving(steps[0]), Pushed(steps[1..]));
    }
  }

  lemma PassReturnsTheHead(s: Stream, k: nat)
    ensures
      var (next, outcome) := Pass(s, k);
      if outcome.Some? && outcome.value.Chunk? then s.chunks == [outcome.value.bytes] + next.chunks else next.chunks == s.chunks
  {}

  lemma StepMovesOneChunk(s: Stream, step: Step)
    ensures Chunks(Listed(Apply(s, step).1)) + Apply(s, step).0.chunks == s.chunks + Arriving(step)
  {
    var (next, outcome) := Apply(s, step);
    ChunksListed(outcome);
    hide Chunks, Listed, Pass;
    assert [] + next.chunks == next.chunks && s.chunks + [] == s.chunks;
    match step
    case Next(k) => PassReturnsTheHead(s, k);
    case Resume(k) => PassReturnsTheHead(s.(ready := s.ready - {k}), k);
    case _ =>
  }

  /** The end or the error is returned only when every chunk pushed so far has been returned. */
  lemma EndComesLast(s: Stream, steps: seq<Step>, step: Step)
    requires s.chunks == [] && Apply(Run(s, steps), step).1.Some? && !Apply(Run(s, steps), step).1.value.Chunk?
    ensures Chunks(Outcomes(s, steps)) == Pushed(steps) && Run(s, steps).done
    ensures Apply(Run(s, steps), step).1.value
         == if Run(s, steps).err.Some? then Threw(Run(s, steps).err.value) else Finished
  {
    hide Run, Outcomes, Pushed, Chunks;
    ChunksAreDeliveredInOrder(s, steps);
    var end := Run(s, steps);
    assert end.chunks == [];
    assert Chunks(Outcomes(s, steps)) + [] == Chunks(Outcomes(s, steps)) && [] + Pushed(steps) == Pushed(steps);
  }

  // ---- one consumer: no lost wake-up --------------------------------------------------------

  /** At most one call is out; it sleeps only while there is nothing to return, and it is the one that
      will be woken. */
  predicate Attended(s: Stream) {
    && s.asleep == (if s.wake.Some? then {s.wake.value} else {})
    && (s.asleep == {} || s.ready == {}) && (forall a, b :: a in s.ready && b in s.ready ==> a == b)
    && (s.asleep != {} ==> s.chunks == [] && !s.done)
    && (s.ready != {} ==> s.chunks != [] || s.done)
  }

  /** A consumer that asks again only when its last call has returned. */
  predicate Patient(s: Stream, step: Step) {
    step.Next? ==> s.asleep == {} && s.ready == {}
  }

  predicate PatientRun(s: Stream, steps: seq<Step>)
    decreases |steps|
  {
    steps == [] || (Patient(s, steps[0]) && PatientRun(Apply(s, steps[0]).0, steps[1..]))
  }

  lemma StepsStayAttended(s: Stream, step: Step)
    requires Attended(s) && Patient(s, step)
    ensures Attended(Apply(s, step).0)
  {}

  /** For every interleaving of events, aborts and one consumer: the consumer never sleeps while a chunk
      or the end is available. */
  lemma {:induction false} NoLostWakeUp(s: Stream, steps: seq<Step>)
    requires Attended(s) && PatientRun(s, steps)
    ensures Attended(Run(s, steps))
    decreases |steps|
  {
    hide Attended, Apply, Patient;
    if steps != [] {
      StepsStayAttended(s, steps[0]);
      NoLostWakeUp(Apply(s, steps[0]).0, steps[1..]);
    }
  }

  /** So it is from the opening of the stream on. */
  lemma NoLostWakeUpFromTheStart(steps: seq<Step>)
    requires PatientRun(OPEN, steps)
    ensures Attended(Run(OPEN, steps))
  {
    hide Run, PatientRun;
    NoLostWakeUp(OPEN, steps);
  }

  /** A sleeping consumer is woken by the next event, whichever it is, and a woken one returns. */
  lemma EventsWake(s: Stream, step: Step, k: nat)
    requires Attended(s) && k in s.asleep && (step.Body? || step.End? || step.Fail? || step.Abort?)
    ensures Apply(s, step).0.ready == {k} && Apply(s, step).0.asleep == {}
    ensures Apply(Apply(s, step).0, Resume(k)).1.Some?
  {}

  // ---- two consumers: a lost wake-up -----------------------------------------------------------

  /** A call whose resolver has been overwritten. */
  predicate Forgotten(s: Stream, k: nat) {
    k in s.asleep && k !in s.ready && s.wake != Some(k)
  }

  /** It sleeps forever: no further step of any kind wakes it. */
  lemma {:induction false} ForgottenForever(s: Stream, steps: seq<Step>, k: nat)
    requires Forgotten(s, k)
    ensures Forgotten(Run(s, steps), k)
    decreases |steps|
  {
    if steps != [] {
      assert Forgotten(Apply(s, steps[0]).0, k);
      hide Apply;
      ForgottenForever(Apply(s, steps[0]).0, steps[1..], k);
    }
  }

  /** Call k is handed a chunk, the end or the error at some point of the steps. */
  ghost predicate Returns(s: Stream, steps: seq<Step>, k: nat) {
    exists i :: 0 <= i < |steps| && (steps[i] == Resume(k) || steps[i] == Next(k)) && Apply(Run(s, steps[..i]), steps[i]).1.Some?
  }

  /** However many consumers there are: a call that has not returned can still do so exactly when it has
      been woken or holds the resolver. */
  lemma ReturnsExactly(s: Stream, k: nat)
    requires k in s.asleep + s.ready
    ensures (exists steps :: Returns(s, steps, k)) <==> (s.wake == Some(k) || k in s.ready)
  {
    if s.wake == Some(k) || k in s.ready {
      var steps := [End, Resume(k)];
      assert steps[..1] == [End] && [End][1..] == [];
      assert Run(s, steps[..1]) == Apply(s, End).0;
      assert Apply(Run(s, steps[..1]), steps[1]).1.Some?;
      assert Returns(s, steps, k);
    } else {
      forall steps ensures !Returns(s, steps, k) {
        forall i | 0 <= i < |steps| && (steps[i] == Resume(k) || steps[i] == Next(k))
          ensures Apply(Run(s, steps[..i]), steps[i]).1.None?
        {
          ForgottenForever(s, steps[..i], k);
        }
      }
    }
  }

  /** The call that holds the resolver is forgotten exactly in a step that puts another call to sleep. */
  lemma ForgottenExactly(s: Stream, step: Step, k: nat)
    requires k in s.asleep && k !in s.ready && s.wake == Some(k)
    ensures Forgotten(Apply(s, step).0, k)
       <==> (s.chunks == [] && !s.done
             && match step
                case Next(m) => m !in s.asleep + s.ready
                case Resume(m) => m in s.ready
                case _ => false)
  {}

  /** Two calls at once: the second takes the only resolver, and the first never returns, not even after
      the end of the stream. */
  lemma SecondCallStealsTheWakeUp(s: Stream, k: nat, m: nat, steps: seq<Step>)
    requires s.chunks == [] && !s.done
    requires k in s.asleep && k !in s.ready && m !in s.asleep + s.ready
    ensures k in Run(s, [Next(m)] + steps).asleep
    ensures !Returns(Apply(s, Next(m)).0, steps, k)
  {
    var all := [Next(m)] + steps;
    var stolen := Apply(s, Next(m)).0;
    assert all[1..] == steps;
    assert Forgotten(stolen, k);
    ForgottenForever(stolen, steps, k);
    ReturnsExactly(stolen, k);
  }

  // ---- the closures -----------------------------------------------------------------------------

  /** The record a body id maps to, shared by streamEvent, nextChunk and abort. */
  class StreamRecord {
    var chunks: seq<Bytes>
    var done: bool
    var err: Option<Fault>
    var wake: Option<nat>
    ghost var asleep: set<nat>
    ghost var ready: set<nat>

    ghost function Now(): Stream
      reads this
    {
      Stream(chunks, done, err, wake, asleep, ready)
    }

    constructor ()
      ensures Now() == OPEN
    {
      chunks, done, err, wake := [], false, None, None;
      asleep, ready := {}, {};
    }

    method Wake()
      modifies this
      ensures Now() == Woken(old(Now()))
    {
      var pending := wake;
      wake := None;
      if pending.Some? {
        asleep := asleep - {pending.value};
        ready := ready + {pending.value};
      }
    }

    method StreamEvent(event: Step)
      requires event.Body? || event.End? || event.Fail?
      modifies this
      ensures Now() == Apply(old(Now()), event).0
    {
      match event {
        case Body(chunk) => chunks := chunks + [chunk];
        case End => done := true;
        case Fail(code) =>
          done := true;
          err := Some(Fault(code));
      }
      Wake();
    }

    /** nextChunk up to its return or its next sleep, on the first run or after a wake-up. */
    method NextChunk(k: nat, resumed: bool) returns (r: Option<Outcome>)
      requires if resumed then k in ready else k !in asleep + ready
      modifies this
      ensures (Now(), r) == Apply(old(Now()), if resumed then Resume(k) else Next(k))
    {
      if resumed { ready := ready - {k}; }
      if |chunks| == 0 && !done {
        wake := Some(k);
        asleep := asleep + {k};
        return None;
      }
      if |chunks| > 0 {
        r := Some(Chunk(chunks[0]));
        chunks := chunks[1..];
        return;
      }
      if err.Some? { return Some(Threw(err.value)); }
      r := Some(Finished);
    }

    method AbortByCaller()
      modifies this
      ensures Now() == Apply(old(Now()), Abort).0
    {
      if !done {
        done := true;
        err := Some(Cancelled);
        Wake();
      }
    }
  }
}
