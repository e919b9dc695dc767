/** Refreshes of one resolver that overlap (runtime/dsh/marketplace.js:217-306, 360-365): they share the
    trust set, the message buffer and the freshness anchor across their awaits. */
module MarketplaceOverlap {
  import opened Wrappers
  import opened Marketplace
  import MarketplaceRuns

  const SAMPLE := Index(Document(map["" := ""], None, []), [Signature("", "")], true)

  /** An index that passed indexProblem. */
  type ShapedIndex = idx: Index | WellShaped(idx) witness (assert "" in map["" := ""]; SAMPLE)

  /** What a refresh awaits: the anchor's load, its save when the floor it has `seen` is to be moved, the end of
      enforceFreshness, the end of fetchAndVerify. */
  datatype Stage = Loading | Saving(seen: Option<int>) | Passed | Taught

  datatype Task = Task(idx: ShapedIndex, published: int, stage: Stage)

  /** `message` is env.message; refreshes get the ids 0, 1, 2 and so on. */
  datatype World = World(session: Session, message: Option<Document>, tasks: map<nat, Task>, next: nat)

  /** What runs between two awaits. `Check`: a fetched body goes through the checks up to the load.
      `Load` and `Save`: the anchor answers. `Teach`: the rotation loop. `Commit`: the cache is replaced.
      `Throw`: what is awaited fails. `Restart`: the process starts again. */
  datatype Step =
    | Check(fetch: Fetch)
    | Load(t: nat)
    | Save(t: nat)
    | Teach(t: nat)
    | Commit(t: nat)
    | Throw(t: nat)
    | Restart(pins: map<KeyId, PubKey>)

  /** Verification of any document's signature over the bytes in the buffer. */
  function Against(v: Verifier, message: Document): Verifier {
    (pub, _, value) => v(pub, message, value)
  }

  /** The checks before the floor is known. */
  function Vetted(v: Verifier, s: Session, f: Fetch): Result<Index, Code> {
    Vet(v, s.(floor := None), f)
  }

  predicate ReachesTheBuffer(f: Fetch) {
    f.Body? && WellShaped(f.index)
  }

  function Checked(v: Verifier, w: World, f: Fetch): World {
    var message := if ReachesTheBuffer(f) then Some(f.index.doc) else w.message;
    var tasks :=
      if Vetted(v, w.session, f).Success? then w.tasks[w.next := Task(f.index, f.index.doc.generatedAt.value, Loading)]
      else w.tasks;
    World(w.session, message, tasks, w.next + 1)
  }

  function Loaded(w: World, t: nat): World
    requires t in w.tasks
  {
    var task, floor := w.tasks[t], w.session.floor;
    if floor.Some? && task.published < floor.value then w.(tasks := w.tasks - {t})
    else if floor.None? || task.published > floor.value then w.(tasks := w.tasks[t := task.(stage := Saving(floor))])
    else w.(tasks := w.tasks[t := task.(stage := Passed)])
  }

  function Saved(w: World, t: nat): World
    requires t in w.tasks
  {
    w.(session := w.session.(floor := Some(w.tasks[t].published)), tasks := w.tasks[t := w.tasks[t].(stage := Passed)])
  }

  function LearnedBy(v: Verifier, w: World, t: nat): Learned
    requires t in w.tasks && w.message.Some?
  {
    Learn(Against(v, w.message.value), w.session.trusted, w.tasks[t].idx.doc, w.tasks[t].idx.signatures)
  }

  function TaughtBy(v: Verifier, w: World, t: nat): World
    requires t in w.tasks && w.message.Some?
  {
    var l := LearnedBy(v, w, t);
    w.(session := w.session.(trusted := l.trusted),
       tasks := if l.ok then w.tasks[t := w.tasks[t].(stage := Taught)] else w.tasks - {t})
  }

  function Committed(w: World, t: nat): World
    requires t in w.tasks
  {
    w.(session := w.session.(state := Some(w.tasks[t].idx)), tasks := w.tasks - {t})
  }

  predicate At(w: World, t: nat, stage: Stage) {
    t in w.tasks && w.tasks[t].stage == stage
  }

  predicate IsSaving(w: World, t: nat) {
    t in w.tasks && w.tasks[t].stage.Saving?
  }

  /** A step of a refresh that does not await it does nothing. */
  function Apply(v: Verifier, w: World, step: Step): World {
    match step
    case Check(f) => Checked(v, w, f)
    case Load(t) => if At(w, t, Loading) then Loaded(w, t) else w
    case Save(t) => if IsSaving(w, t) then Saved(w, t) else w
    case Teach(t) => if At(w, t, Passed) && w.message.Some? then TaughtBy(v, w, t) else w
    case Commit(t) => if At(w, t, Taught) then Committed(w, t) else w
    case Throw(t) => w.(tasks := w.tasks - {t})
    case Restart(pins) => World(Session(pins, None, w.session.floor), None, map[], w.next)
  }

  function After(v: Verifier, w: World, es: seq<Step>): World {
    if es == [] then w else Apply(v, After(v, w, es[..|es| - 1]), es[|es| - 1])
  }

  function Idle(s: Session): World {
    World(s, None, map[], 0)
  }

  lemma AfterOneMore(v: Verifier, w: World, es: seq<Step>, i: nat)
    requires i < |es|
    ensures After(v, w, es[..i + 1]) == Apply(v, After(v, w, es[..i]), es[i])
  {
    assert es[..i + 1][..i] == es[..i];
  }

  // ---- what always holds of the refreshes in flight -----------------------------------------------

  /** Some trusted key signed the index. */
  predicate Endorsed(v: Verifier, trusted: map<KeyId, PubKey>, idx: Index) {
    exists i :: 0 <= i < |idx.signatures| && idx.signatures[i].key in trusted
                && v(trusted[idx.signatures[i].key], idx.doc, idx.signatures[i].value)
  }

  predicate Grows(a: map<KeyId, PubKey>, b: map<KeyId, PubKey>) {
    forall k :: k in a ==> k in b && b[k] == a[k]
  }

  ghost predicate Sound(v: Verifier, w: World) {
    && (w.tasks != map[] ==> w.message.Some?)
    && forall t :: t in w.tasks ==>
         && t < w.next
         && w.tasks[t].idx.doc.generatedAt == Some(w.tasks[t].published)
         && Endorsed(v, w.session.trusted, w.tasks[t].idx)
  }

  lemma StaysEndorsed(v: Verifier, a: map<KeyId, PubKey>, b: map<KeyId, PubKey>, idx: Index)
    requires Endorsed(v, a, idx) && Grows(a, b)
    ensures Endorsed(v, b, idx)
  {
    var i :| 0 <= i < |idx.signatures| && idx.signatures[i].key in a
      && v(a[idx.signatures[i].key], idx.doc, idx.signatures[i].value);
    assert idx.signatures[i].key in b && b[idx.signatures[i].key] == a[idx.signatures[i].key];
  }

  lemma VettedIsEndorsed(v: Verifier, s: Session, f: Fetch)
    requires Vetted(v, s, f).Success?
    ensures f == Body(Vetted(v, s, f).value) && WellShaped(f.index) && f.index.doc.generatedAt.Some?
    ensures Endorsed(v, s.trusted, f.index)
  {
    VettedHasTrustedSigner(v, s.(floor := None), f);
  }

  /** The rotation loop of one refresh, whatever is in the buffer. */
  lemma TeachingTrust(v: Verifier, w: World, t: nat)
    requires Sound(v, w) && t in w.tasks
    ensures
      var l, trusted, idx := LearnedBy(v, w, t), w.session.trusted, w.tasks[t].idx;
      && Grows(trusted, l.trusted) && (!l.ok ==> l.trusted == trusted)
      && (l.trusted == trusted
          || exists i :: 0 <= i < |idx.signatures| && idx.signatures[i].key !in trusted
               && v(idx.doc.keys[idx.signatures[i].key], w.message.value, idx.signatures[i].value)
               && l.trusted == trusted[idx.signatures[i].key := idx.doc.keys[idx.signatures[i].key]])
  {
    var idx := w.tasks[t].idx;
    LearnAtMostOne(Against(v, w.message.value), w.session.trusted, idx.doc, idx.signatures);
  }

  lemma TeachingKeepsSound(v: Verifier, w: World, t: nat)
    requires Sound(v, w) && t in w.tasks
    ensures Sound(v, TaughtBy(v, w, t))
  {
    TeachingTrust(v, w, t);
    hide Endorsed, LearnedBy;
    var next := TaughtBy(v, w, t);
    forall u | u in next.tasks ensures Endorsed(v, next.session.trusted, next.tasks[u].idx) {
      StaysEndorsed(v, w.session.trusted, next.session.trusted, w.tasks[u].idx);
    }
  }

  lemma CheckingKeepsSound(v: Verifier, w: World, f: Fetch)
    requires Sound(v, w)
    ensures Sound(v, Checked(v, w, f))
  {
    hide Endorsed, Vetted;
    if Vetted(v, w.session, f).Success? { VettedIsEndorsed(v, w.session, f); }
  }

  lemma StepsKeepSound(v: Verifier, w: World, step: Step)
    requires Sound(v, w)
    ensures Sound(v, Apply(v, w, step))
  {
    hide Endorsed, TaughtBy, Checked;
    match step
    case Check(f) => CheckingKeepsSound(v, w, f);
    case Teach(t) => if t in w.tasks { TeachingKeepsSound(v, w, t); }
    case _ =>
  }

  lemma {:induction false} RunsStaySound(v: Verifier, s: Session, es: seq<Step>)
    ensures Sound(v, After(v, Idle(s), es))
  {
    hide Sound, Apply;
    if es == [] {
      NothingInFlight(v, s);
    } else {
      RunsStaySound(v, s, es[..|es| - 1]);
      StepsKeepSound(v, After(v, Idle(s), es[..|es| - 1]), es[|es| - 1]);
    }
  }

  lemma NothingInFlight(v: Verifier, s: Session)
    ensures Sound(v, Idle(s))
  {}

  // ---- the trust set survives -----------------------------------------------------------------------

  lemma StepTrust(v: Verifier, w: World, step: Step)
    requires Sound(v, w) && !step.Restart?
    ensures Grows(w.session.trusted, Apply(v, w, step).session.trusted)
    ensures |Apply(v, w, step).session.trusted| <= |w.session.trusted| + if step.Teach? then 1 else 0
  {
    hide Learn, Vet, Sound;
    if step.Teach? && At(w, step.t, Passed) && w.message.Some? {
      TeachingTrust(v, w, step.t);
      var trusted, after := w.session.trusted, LearnedBy(v, w, step.t).trusted;
      if after != trusted {
        var k :| k !in trusted && k in after && after == trusted[k := after[k]];
        assert after.Keys == trusted.Keys + {k};
      }
    }
  }

  function Lessons(es: seq<Step>): nat {
    if es == [] then 0 else Lessons(es[..|es| - 1]) + if es[|es| - 1].Teach? then 1 else 0
  }

  /** However refreshes overlap, no trusted key is lost or rebound, and each rotation loop adds at most one. */
  lemma {:induction false} BindingsSurvive(v: Verifier, s: Session, es: seq<Step>)
    requires forall i :: 0 <= i < |es| ==> !es[i].Restart?
    ensures Grows(s.trusted, After(v, Idle(s), es).session.trusted)
    ensures |After(v, Idle(s), es).session.trusted| <= |s.trusted| + Lessons(es)
  {
    hide Apply;
    if es != [] {
      BindingsSurvive(v, s, es[..|es| - 1]);
      RunsStaySound(v, s, es[..|es| - 1]);
      StepTrust(v, After(v, Idle(s), es[..|es| - 1]), es[|es| - 1]);
    }
  }

  // ---- the message buffer -----------------------------------------------------------------------------

  /** The rotation loop of a refresh does what it would do alone, whatever the keys, exactly when the buffer
      holds the refresh's own document or there is no new key to learn. */
  lemma TeachesAsAloneExactly(idx: ShapedIndex, trusted: map<KeyId, PubKey>, message: Document)
    requires exists i :: 0 <= i < |idx.signatures| && idx.signatures[i].key in trusted
    ensures
      (forall v: Verifier :: Learn(Against(v, message), trusted, idx.doc, idx.signatures) == Learn(v, trusted, idx.doc, idx.signatures))
      <==> (message == idx.doc || forall i :: 0 <= i < |idx.signatures| ==> idx.signatures[i].key in trusted)
  {
    var sigs := idx.signatures;
    forall v: Verifier ensures Learn(Against(v, idx.doc), trusted, idx.doc, sigs) == Learn(v, trusted, idx.doc, sigs) {
      SameLearning(Against(v, idx.doc), v, trusted, idx.doc, sigs);
    }
    if forall i :: 0 <= i < |sigs| ==> sigs[i].key in trusted {
      forall v: Verifier ensures Learn(v, trusted, idx.doc, sigs) == Learned(trusted, true) {
        NothingNew(v, trusted, idx.doc, sigs);
      }
    } else if message != idx.doc {
      var own: Verifier := (_, doc, _) => doc == idx.doc;
      LearnAtMostOne(own, trusted, idx.doc, sigs);
      LearnAtMostOne(Against(own, message), trusted, idx.doc, sigs);
    }
  }

  lemma {:induction false} SameLearning(v: Verifier, u: Verifier, trusted: map<KeyId, PubKey>, doc: Document, sigs: seq<Signature>)
    requires forall i :: 0 <= i < |sigs| ==> sigs[i].key in doc.keys
    requires forall pub, value :: v(pub, doc, value) == u(pub, doc, value)
    ensures Learn(v, trusted, doc, sigs) == Learn(u, trusted, doc, sigs)
    decreases sigs
  {
    if sigs != [] {
      if sigs[0].key in trusted {
        SameLearning(v, u, trusted, doc, sigs[1..]);
      } else {
        assert v(doc.keys[sigs[0].key], doc, sigs[0].value) == u(doc.keys[sigs[0].key], doc, sigs[0].value);
        SameLearning(v, u, trusted[sigs[0].key := doc.keys[sigs[0].key]], doc, sigs[1..]);
      }
    }
  }

  lemma {:induction false} NothingNew(v: Verifier, trusted: map<KeyId, PubKey>, doc: Document, sigs: seq<Signature>)
    requires forall i :: 0 <= i < |sigs| ==> sigs[i].key in doc.keys && sigs[i].key in trusted
    ensures Learn(v, trusted, doc, sigs) == Learned(trusted, true)
    decreases sigs
  {
    if sigs != [] { NothingNew(v, trusted, doc, sigs[1..]); }
  }

  // ---- where trusted keys come from -------------------------------------------------------------------

  /** The pins of the current session, and where it starts. */
  function CurrentPins(pins: map<KeyId, PubKey>, es: seq<Step>): map<KeyId, PubKey> {
    if es == [] then pins
    else if es[|es| - 1].Restart? then es[|es| - 1].pins
    else CurrentPins(pins, es[..|es| - 1])
  }

  function SessionStart(es: seq<Step>): (n: nat)
    ensures n <= |es|
  {
    if es == [] then 0
    else if es[|es| - 1].Restart? then |es|
    else SessionStart(es[..|es| - 1])
  }

  /** One rotation: the index checked at `at` publishes `key`, whose signature verified over the document
      checked at `over`. */
  datatype Link = Link(at: nat, over: nat, key: KeyId)

  function ChainKey(root: KeyId, links: seq<Link>): KeyId {
    if links == [] then root else links[|links| - 1].key
  }

  predicate BodyAt(es: seq<Step>, i: nat) {
    i < |es| && es[i].Check? && es[i].fetch.Body?
  }

  function ChainPub(pins: map<KeyId, PubKey>, es: seq<Step>, root: KeyId, links: seq<Link>): Option<PubKey> {
    if links == [] then (if root in pins then Some(pins[root]) else None)
    else
      var l := links[|links| - 1];
      if BodyAt(es, l.at) && l.key in es[l.at].fetch.index.doc.keys then Some(es[l.at].fetch.index.doc.keys[l.key])
      else None
  }

  /** A chain of rotations from a pinned key: each link's index was checked in this session after the
      previous link's, and is signed by the previous key; the new key's signature in it verified over a
      document checked in this session no earlier. */
  predicate Chain(v: Verifier, pins: map<KeyId, PubKey>, es: seq<Step>, start: nat, root: KeyId, links: seq<Link>) {
    if links == [] then root in pins
    else
      var init, l := links[..|links| - 1], links[|links| - 1];
      && Chain(v, pins, es, start, root, init)
      && start <= l.at <= l.over && BodyAt(es, l.at) && BodyAt(es, l.over)
      && (init != [] ==> init[|init| - 1].at < l.at)
      && ChainPub(pins, es, root, init).Some? && ChainPub(pins, es, root, links).Some?
      && Signs(v, es[l.at].fetch.index, ChainKey(root, init), ChainPub(pins, es, root, init).value)
      && Signs(Against(v, es[l.over].fetch.index.doc), es[l.at].fetch.index, l.key, ChainPub(pins, es, root, links).value)
  }

  lemma {:induction false} ChainInLongerRun(v: Verifier, pins: map<KeyId, PubKey>, es: seq<Step>, more: seq<Step>, start: nat, root: KeyId, links: seq<Link>)
    requires Chain(v, pins, es, start, root, links) && es <= more
    ensures Chain(v, pins, more, start, root, links)
    ensures ChainPub(pins, more, root, links) == ChainPub(pins, es, root, links)
    ensures links != [] ==> links[|links| - 1].at < |es|
  {
    hide Signs;
    if links != [] { ChainInLongerRun(v, pins, es, more, start, root, links[..|links| - 1]); }
  }

  lemma LinkAdded(v: Verifier, pins: map<KeyId, PubKey>, es: seq<Step>, start: nat, root: KeyId, older: seq<Link>, pub: PubKey, l: Link)
    requires Chain(v, pins, es, start, root, older) && ChainPub(pins, es, root, older) == Some(pub)
    requires start <= l.at <= l.over && BodyAt(es, l.at) && BodyAt(es, l.over)
    requires older != [] ==> older[|older| - 1].at < l.at
    requires
      var idx := es[l.at].fetch.index;
      && l.key in idx.doc.keys && Signs(v, idx, ChainKey(root, older), pub)
      && Signs(Against(v, es[l.over].fetch.index.doc), idx, l.key, idx.doc.keys[l.key])
    ensures
      var links := older + [l];
      && Chain(v, pins, es, start, root, links) && ChainKey(root, links) == l.key
      && ChainPub(pins, es, root, links) == Some(es[l.at].fetch.index.doc.keys[l.key])
  {
    hide Signs;
    assert (older + [l])[..|older|] == older;
  }

  /** A refresh in flight has just been checked, or was in flight before with the same index. */
  lemma StepTasks(v: Verifier, w: World, step: Step, t: nat)
    requires t in Apply(v, w, step).tasks
    ensures !step.Restart?
    ensures
      if step.Check? && t == w.next && Vetted(v, w.session, step.fetch).Success?
      then Apply(v, w, step).tasks[t].idx == Vetted(v, w.session, step.fetch).value
      else t in w.tasks && Apply(v, w, step).tasks[t].idx == w.tasks[t].idx
  {
    hide LearnedBy, Vetted, Vet;
    if step.Check? && Vetted(v, w.session, step.fetch).Success? { VettedIsEndorsed(v, w.session, step.fetch); }
  }

  /** The check a refresh in flight started with. */
  lemma {:induction false} TaskOrigin(v: Verifier, s: Session, es: seq<Step>, t: nat) returns (at: nat)
    requires t in After(v, Idle(s), es).tasks
    ensures SessionStart(es) <= at < |es| && es[at] == Check(Body(After(v, Idle(s), es).tasks[t].idx))
    ensures Vetted(v, After(v, Idle(s), es[..at]).session, es[at].fetch).Success?
    ensures CurrentPins(s.trusted, es[..at]) == CurrentPins(s.trusted, es) && SessionStart(es[..at]) == SessionStart(es)
  {
    hide Vetted, Apply, WellShaped;
    var n := |es| - 1;
    var init := es[..n];
    var before := After(v, Idle(s), init);
    StepTasks(v, before, es[n], t);
    if es[n].Check? && t == before.next && Vetted(v, before.session, es[n].fetch).Success? {
      VettedIsEndorsed(v, before.session, es[n].fetch);
      at := n;
    } else {
      at := TaskOrigin(v, s, init, t);
      assert init[..at] == es[..at];
    }
  }

  /** The document in the buffer is the one checked last. */
  lemma {:induction false} BufferOrigin(v: Verifier, s: Session, es: seq<Step>) returns (over: nat)
    requires After(v, Idle(s), es).message.Some?
    ensures BodyAt(es, over) && After(v, Idle(s), es).message == Some(es[over].fetch.index.doc)
    ensures forall i :: over < i < |es| && es[i].Check? ==> !ReachesTheBuffer(es[i].fetch)
  {
    hide Learn, Vet, WellShaped;
    var n := |es| - 1;
    if es[n].Check? && ReachesTheBuffer(es[n].fetch) {
      over := n;
    } else {
      over := BufferOrigin(v, s, es[..n]);
    }
  }

  lemma EndorsedBy(v: Verifier, trusted: map<KeyId, PubKey>, idx: Index) returns (p: KeyId)
    requires Endorsed(v, trusted, idx)
    ensures p in trusted && Signs(v, idx, p, trusted[p])
  {
    var i :| 0 <= i < |idx.signatures| && idx.signatures[i].key in trusted
      && v(trusted[idx.signatures[i].key], idx.doc, idx.signatures[i].value);
    p := idx.signatures[i].key;
  }

  /** A key a rotation loop adds is signed for over the document in the buffer. */
  lemma NewKeySigned(v: Verifier, w: World, t: nat, key: KeyId)
    requires Sound(v, w) && t in w.tasks
    requires key !in w.session.trusted && key in LearnedBy(v, w, t).trusted
    ensures
      var idx := w.tasks[t].idx;
      && key in idx.doc.keys && LearnedBy(v, w, t).trusted[key] == idx.doc.keys[key]
      && Signs(Against(v, w.message.value), idx, key, idx.doc.keys[key])
  {
    TeachingTrust(v, w, t);
    hide Learn, Sound;
    var idx, trusted := w.tasks[t].idx, w.session.trusted;
    var i :| 0 <= i < |idx.signatures| && idx.signatures[i].key !in trusted
      && v(idx.doc.keys[idx.signatures[i].key], w.message.value, idx.signatures[i].value)
      && LearnedBy(v, w, t).trusted == trusted[idx.signatures[i].key := idx.doc.keys[idx.signatures[i].key]];
    assert key == idx.signatures[i].key;
    assert Against(v, w.message.value)(idx.doc.keys[key], idx.doc, idx.signatures[i].value);
  }

  /** Does the last step add the key, and by which refresh's loop? */
  predicate AddsKey(v: Verifier, w: World, step: Step, key: KeyId) {
    && key !in w.session.trusted && step.Teach? && At(w, step.t, Passed) && w.message.Some?
    && key in LearnedBy(v, w, step.t).trusted
  }

  lemma KeysComeFromLoops(v: Verifier, w: World, step: Step, key: KeyId)
    requires Sound(v, w) && key in Apply(v, w, step).session.trusted && !step.Restart?
    ensures key in w.session.trusted || AddsKey(v, w, step, key)
    ensures key in w.session.trusted ==> Apply(v, w, step).session.trusted[key] == w.session.trusted[key]
    ensures AddsKey(v, w, step, key) ==> Apply(v, w, step).session.trusted[key] == LearnedBy(v, w, step.t).trusted[key]
  {
    hide Learn, Vet, Sound, LearnedBy;
    StepTrust(v, w, step);
  }

  /** Every key a resolver trusts after any run of overlapping refreshes ends a chain of rotations from a pin
      of the session, with the public key the chain gives it. What an overlap can change is the document
      the new key's own signature is verified over. */
  lemma {:induction false} OverlapProvenance(v: Verifier, pins: map<KeyId, PubKey>, floor: Option<int>, es: seq<Step>, key: KeyId)
    returns (root: KeyId, links: seq<Link>)
    requires key in After(v, Idle(Session(pins, None, floor)), es).session.trusted
    ensures Chain(v, CurrentPins(pins, es), es, SessionStart(es), root, links)
    ensures ChainKey(root, links) == key
    ensures ChainPub(CurrentPins(pins, es), es, root, links) == Some(After(v, Idle(Session(pins, None, floor)), es).session.trusted[key])
    decreases |es|
  {
    hide Chain, ChainPub, Signs, Learn, Vet, Sound, LearnedBy;
    var s := Session(pins, None, floor);
    root, links := key, [];
    if es == [] || es[|es| - 1].Restart? {
      PinnedChain(v, CurrentPins(pins, es), es, SessionStart(es), key);
    } else {
      var n := |es| - 1;
      var init, step := es[..n], es[n];
      var before := After(v, Idle(s), init);
      RunsStaySound(v, s, init);
      KeysComeFromLoops(v, before, step, key);
      if key in before.session.trusted {
        root, links := OverlapProvenance(v, pins, floor, init, key);
        ChainInLongerRun(v, CurrentPins(pins, es), init, es, SessionStart(es), root, links);
      } else {
        root, links := LearnedProvenance(v, pins, floor, init, step.t, key);
        ChainInLongerRun(v, CurrentPins(pins, es), init, es, SessionStart(es), root, links);
      }
    }
  }

  lemma PinnedChain(v: Verifier, pins: map<KeyId, PubKey>, es: seq<Step>, start: nat, key: KeyId)
    ensures key in pins ==> Chain(v, pins, es, start, key, []) && ChainPub(pins, es, key, []) == Some(pins[key])
  {}

  /** The chain of a key that the loop of refresh t adds. */
  lemma {:induction false} LearnedProvenance(v: Verifier, pins: map<KeyId, PubKey>, floor: Option<int>, es: seq<Step>, t: nat, key: KeyId)
    returns (root: KeyId, links: seq<Link>)
    requires var w := After(v, Idle(Session(pins, None, floor)), es); t in w.tasks && AddsKey(v, w, Teach(t), key)
    ensures Chain(v, CurrentPins(pins, es), es, SessionStart(es), root, links)
    ensures ChainKey(root, links) == key
    ensures ChainPub(CurrentPins(pins, es), es, root, links)
         == Some(LearnedBy(v, After(v, Idle(Session(pins, None, floor)), es), t).trusted[key])
    decreases |es|, 0
  {
    hide Chain, ChainPub, Signs, Learn, Vet, Sound, LearnedBy, After, CurrentPins, SessionStart, Endorsed;
    var s := Session(pins, None, floor);
    var w := After(v, Idle(s), es);
    RunsStaySound(v, s, es);
    NewKeySigned(v, w, t, key);
    var at := TaskOrigin(v, s, es, t);
    var over := BufferOrigin(v, s, es);
    var origin := After(v, Idle(s), es[..at]).session;
    VettedIsEndorsed(v, origin, es[at].fetch);
    var p := EndorsedBy(v, origin.trusted, es[at].fetch.index);
    var older;
    root, older := OverlapProvenance(v, pins, floor, es[..at], p);
    ChainInLongerRun(v, CurrentPins(pins, es), es[..at], es, SessionStart(es), root, older);
    assert ReachesTheBuffer(es[at].fetch);
    links := older + [Link(at, over, key)];
    LinkAdded(v, CurrentPins(pins, es), es, SessionStart(es), root, older, origin.trusted[p], Link(at, over, key));
  }

  // ---- the floor -----------------------------------------------------------------------------------------

  predicate Lowers(v: Verifier, w: World, step: Step) {
    !NotBelow(Apply(v, w, step).session.floor, w.session.floor)
  }

  /** One step lowers the floor exactly when it is a save of a timestamp the floor has passed. */
  lemma LowersExactly(v: Verifier, w: World, step: Step)
    ensures Lowers(v, w, step)
       <==> (&& step.Save? && IsSaving(w, step.t)
             && w.session.floor.Some? && w.tasks[step.t].published < w.session.floor.value)
  {
    hide Vetted, LearnedBy;
  }

  /** A refresh about to save found the floor lower than its own timestamp. */
  ghost predicate SavesAreNewer(w: World) {
    forall t :: IsSaving(w, t) ==> w.tasks[t].stage.seen.None? || w.tasks[t].stage.seen.value < w.tasks[t].published
  }

  lemma StepKeepsSavesNewer(v: Verifier, w: World, step: Step)
    requires SavesAreNewer(w)
    ensures SavesAreNewer(Apply(v, w, step))
  {
    hide Vet, WellShaped, LearnedBy;
    var next := Apply(v, w, step);
    forall t | IsSaving(next, t) ensures next.tasks[t].stage.seen.None? || next.tasks[t].stage.seen.value < next.tasks[t].published {
      assert IsSaving(w, t) || step == Load(t);
    }
  }

  lemma {:induction false} SavesStayNewer(v: Verifier, s: Session, es: seq<Step>)
    ensures SavesAreNewer(After(v, Idle(s), es))
  {
    hide Apply;
    if es != [] {
      SavesStayNewer(v, s, es[..|es| - 1]);
      StepKeepsSavesNewer(v, After(v, Idle(s), es[..|es| - 1]), es[|es| - 1]);
    }
  }

  /** Where a refresh about to save read the floor: at its load, and it has not been served since. */
  lemma {:induction false} LoadedAt(v: Verifier, s: Session, es: seq<Step>, t: nat) returns (l: nat)
    requires IsSaving(After(v, Idle(s), es), t)
    ensures l < |es| && es[l] == Load(t) && After(v, Idle(s), es[..l]).session.floor == After(v, Idle(s), es).tasks[t].stage.seen
    ensures forall i :: l < i < |es| ==> es[i] != Save(t)
  {
    hide Vetted, LearnedBy;
    var n := |es| - 1;
    var before := After(v, Idle(s), es[..n]);
    if es[n] == Load(t) && At(before, t, Loading) {
      l := n;
    } else {
      l := LoadedAt(v, s, es[..n], t);
      assert es[..n][..l] == es[..l];
    }
  }

  /** What survives of freshness in any run: a refresh past the floor, hence every accepted index, was not behind
      the floor its own load found. */
  lemma {:induction false} AcceptedWasNotStale(v: Verifier, s: Session, es: seq<Step>, t: nat) returns (l: nat)
    requires t in After(v, Idle(s), es).tasks && After(v, Idle(s), es).tasks[t].stage != Loading
    ensures l < |es| && es[l] == Load(t)
    ensures NotBelow(Some(After(v, Idle(s), es).tasks[t].published), After(v, Idle(s), es[..l]).session.floor)
  {
    hide Vet, WellShaped, LearnedBy;
    var n := |es| - 1;
    var before := After(v, Idle(s), es[..n]);
    if es[n] == Load(t) && At(before, t, Loading) {
      l := n;
    } else {
      l := AcceptedWasNotStale(v, s, es[..n], t);
      assert es[..n][..l] == es[..l];
    }
  }

  /** Between two points of a run the floor changes only by a save. */
  lemma {:induction false} FloorMovedBy(v: Verifier, w: World, es: seq<Step>, l: nat) returns (i: nat)
    requires l <= |es| && After(v, w, es).session.floor != After(v, w, es[..l]).session.floor
    ensures l <= i < |es| && es[i].Save? && IsSaving(After(v, w, es[..i]), es[i].t)
    ensures After(v, w, es).session.floor == Some(After(v, w, es[..i]).tasks[es[i].t].published)
  {
    hide Vetted, LearnedBy;
    var n := |es| - 1;
    assert es[..|es|] == es;
    var before := After(v, w, es[..n]);
    if es[n].Save? && IsSaving(before, es[n].t) {
      i := n;
    } else {
      assert es[..n][..l] == es[..l];
      i := FloorMovedBy(v, w, es[..n], l);
      assert es[..n][..i] == es[..i];
    }
  }

  /** Over every run from a resolver at rest: if a save lowers the floor, then between the load and the save of
      its refresh another refresh has saved a newer timestamp. */
  lemma LoweringIsARace(v: Verifier, s: Session, es: seq<Step>, t: nat) returns (l: nat, i: nat)
    requires Lowers(v, After(v, Idle(s), es), Save(t))
    ensures IsSaving(After(v, Idle(s), es), t)
    ensures l < i < |es| && es[l] == Load(t) && es[i].Save? && es[i].t != t && IsSaving(After(v, Idle(s), es[..i]), es[i].t)
    ensures After(v, Idle(s), es[..i]).tasks[es[i].t].published > After(v, Idle(s), es).tasks[t].published
  {
    hide Apply, After;
    var w := After(v, Idle(s), es);
    LowersExactly(v, w, Save(t));
    SavesStayNewer(v, s, es);
    l := LoadedAt(v, s, es, t);
    AfterOneMore(v, Idle(s), es, l);
    LoadsKeepTheFloor(v, After(v, Idle(s), es[..l]), t);
    i := FloorMovedBy(v, Idle(s), es, l + 1);
  }

  lemma LoadsKeepTheFloor(v: Verifier, w: World, t: nat)
    ensures Apply(v, w, Load(t)).session.floor == w.session.floor
  {}

  /** Every save of the run finds the floor it was decided on. */
  predicate Unraced(v: Verifier, w: World, es: seq<Step>) {
    forall i :: 0 <= i < |es| ==> SavesWhatItSaw(After(v, w, es[..i]), es[i])
  }

  predicate SavesWhatItSaw(w: World, step: Step) {
    step.Save? && IsSaving(w, step.t) ==> w.session.floor == w.tasks[step.t].stage.seen
  }

  /** Whoever has passed the floor is not ahead of it, nor is the cache. */
  ghost predicate Anchored(w: World) {
    && CacheBehindFloor(w.session)
    && forall t :: t in w.tasks && (w.tasks[t].stage.Passed? || w.tasks[t].stage.Taught?) ==>
         NotBelow(w.session.floor, Some(w.tasks[t].published))
  }

  lemma StepKeepsAnchored(v: Verifier, w: World, step: Step)
    requires Sound(v, w) && SavesAreNewer(w) && Anchored(w) && SavesWhatItSaw(w, step)
    ensures Anchored(Apply(v, w, step)) && NotBelow(Apply(v, w, step).session.floor, w.session.floor)
  {
    hide Vetted, LearnedBy, Endorsed;
  }

  /** With saves that are not raced the floor never decreases and the cached index is never newer than it,
      however refreshes overlap otherwise. */
  lemma {:induction false} UnracedFloorNeverDecreases(v: Verifier, s: Session, es: seq<Step>)
    requires CacheBehindFloor(s) && Unraced(v, Idle(s), es)
    ensures NotBelow(After(v, Idle(s), es).session.floor, s.floor) && Anchored(After(v, Idle(s), es))
  {
    hide Apply, CacheBehindFloor, SavesWhatItSaw;
    if es != [] {
      var n := |es| - 1;
      var init := es[..n];
      forall i | 0 <= i < n ensures SavesWhatItSaw(After(v, Idle(s), init[..i]), init[i]) { assert init[..i] == es[..i]; }
      UnracedFloorNeverDecreases(v, s, init);
      RunsStaySound(v, s, init);
      SavesStayNewer(v, s, init);
      StepKeepsAnchored(v, After(v, Idle(s), init), es[n]);
    }
  }

  /** The failing family: two refreshes that load the same floor and save newer timestamps out of order. */
  lemma RaceLowersTheFloor(v: Verifier, s: Session, a: Index, b: Index)
    requires Vetted(v, s, Body(a)).Success? && Vetted(v, s, Body(b)).Success?
    requires NotBelow(b.doc.generatedAt, a.doc.generatedAt) && a.doc.generatedAt != b.doc.generatedAt
    requires s.floor.Some? ==> NotBelow(a.doc.generatedAt, s.floor) && a.doc.generatedAt != s.floor
    ensures
      var es := [Check(Body(a)), Check(Body(b)), Load(0), Load(1), Save(1)];
      && After(v, Idle(s), es).session.floor == b.doc.generatedAt
      && After(v, Idle(s), es + [Save(0)]).session.floor == a.doc.generatedAt
  {
    VettedIsEndorsed(v, s, Body(a));
    VettedIsEndorsed(v, s, Body(b));
    hide After, Apply, Endorsed, Vetted, Idle;
    var five := [Check(Body(a)), Check(Body(b)), Load(0), Load(1), Save(1)];
    AfterFive(v, Idle(s), Check(Body(a)), Check(Body(b)), Load(0), Load(1), Save(1));
    AfterLast(v, Idle(s), five, Save(0));
    Racing(v, s, a, b);
  }

  lemma AfterLast(v: Verifier, w: World, es: seq<Step>, step: Step)
    ensures After(v, w, es + [step]) == Apply(v, After(v, w, es), step)
    ensures (es + [step])[..|es|] == es
  {
    assert (es + [step])[..|es|] == es;
  }

  lemma AfterNothing(v: Verifier, w: World, es: seq<Step>)
    requires es == []
    ensures After(v, w, es) == w
  {}

  lemma Racing(v: Verifier, s: Session, a: Index, b: Index)
    requires Vetted(v, s, Body(a)) == Success(a) && Vetted(v, s, Body(b)) == Success(b)
    requires WellShaped(a) && WellShaped(b) && a.doc.generatedAt.Some? && b.doc.generatedAt.Some?
    requires a.doc.generatedAt.value < b.doc.generatedAt.value
    requires s.floor.Some? ==> s.floor.value < a.doc.generatedAt.value
    ensures
      var w1 := Apply(v, Idle(s), Check(Body(a)));
      var w2 := Apply(v, w1, Check(Body(b)));
      var w3 := Apply(v, w2, Load(0));
      var w4 := Apply(v, w3, Load(1));
      var w5 := Apply(v, w4, Save(1));
      w5.session.floor == b.doc.generatedAt && Apply(v, w5, Save(0)).session.floor == a.doc.generatedAt
  {
    hide Vetted, WellShaped;
  }

  // ---- refreshes that do not overlap ----------------------------------------------------------------------

  /** A whole refresh, as refresh t. */
  function Whole(f: Fetch, t: nat): seq<Step> {
    [Check(f), Load(t), Save(t), Teach(t), Commit(t)]
  }

  /** Runs of whole refreshes, one after the other, and restarts. */
  function Serial(es: seq<MarketplaceRuns.Event>): seq<Step> {
    if es == [] then []
    else
      Serial(es[..|es| - 1])
      + match es[|es| - 1]
        case Fetched(f) => Whole(f, Fetches(es[..|es| - 1]))
        case Restart(pins) => [Restart(pins)]
  }

  function Fetches(es: seq<MarketplaceRuns.Event>): nat {
    if es == [] then 0 else Fetches(es[..|es| - 1]) + if es[|es| - 1].Fetched? then 1 else 0
  }

  lemma {:induction false} AfterConcat(v: Verifier, w: World, a: seq<Step>, b: seq<Step>)
    ensures After(v, w, a + b) == After(v, After(v, w, a), b)
    decreases |b|
  {
    hide Apply;
    if b == [] {
      assert a + b == a;
    } else {
      assert (a + b)[..|a + b| - 1] == a + b[..|b| - 1];
      AfterConcat(v, w, a, b[..|b| - 1]);
    }
  }

  lemma AfterFive(v: Verifier, w: World, a: Step, b: Step, c: Step, d: Step, e: Step)
    ensures After(v, w, [a, b, c, d, e]) == Apply(v, Apply(v, Apply(v, Apply(v, Apply(v, w, a), b), c), d), e)
  {
    hide Apply;
    var es := [a, b, c, d, e];
    AfterNothing(v, w, es[..0]);
    AfterOneMore(v, w, es, 0);
    AfterOneMore(v, w, es, 1);
    AfterOneMore(v, w, es, 2);
    AfterOneMore(v, w, es, 3);
    AfterOneMore(v, w, es, 4);
    assert es[..5] == es;
  }

  /** A refresh that nothing interrupts is the atomic refresh. */
  lemma AloneIsAtomic(v: Verifier, w: World, f: Fetch)
    requires w.tasks == map[]
    ensures
      var after := After(v, w, Whole(f, w.next));
      after.session == Refresh(v, w.session, f).session && after.tasks == map[] && after.next == w.next + 1
  {
    var t := w.next;
    AfterFive(v, w, Check(f), Load(t), Save(t), Teach(t), Commit(t));
    hide After;
    var w1 := Apply(v, w, Check(f));
    VetInTwo(v, w.session, f);
    if Vetted(v, w.session, f).Success? {
      VettedIsEndorsed(v, w.session, f);
      AloneAnchors(v, w, f, w1);
    } else {
      hide Apply;
      NotInFlight(v, w1, t);
    }
  }

  lemma NotInFlight(v: Verifier, w: World, t: nat)
    requires t !in w.tasks
    ensures Apply(v, w, Load(t)) == Apply(v, w, Save(t)) == Apply(v, w, Teach(t)) == Apply(v, w, Commit(t)) == w
  {}

  /** The checks, and then the floor. */
  lemma VetInTwo(v: Verifier, s: Session, f: Fetch)
    ensures Vet(v, s, f)
         == if Vetted(v, s, f).Success? && s.floor.Some? && f.index.doc.generatedAt.value < s.floor.value then Failure(Code.Catalog)
            else Vetted(v, s, f)
  {}

  lemma AloneAnchors(v: Verifier, w: World, f: Fetch, w1: World)
    requires w.tasks == map[] && ReachesTheBuffer(f) && Vetted(v, w.session, f) == Success(f.index) && f.index.doc.generatedAt.Some?
    requires w1 == Apply(v, w, Check(f))
    ensures
      var t := w.next;
      var w5 := Apply(v, Apply(v, Apply(v, Apply(v, w1, Load(t)), Save(t)), Teach(t)), Commit(t));
      w5.session == Refresh(v, w.session, f).session && w5.tasks == map[] && w5.next == w.next + 1
  {
    var t, idx := w.next, f.index;
    VetInTwo(v, w.session, f);
    SameLearning(Against(v, idx.doc), v, w.session.trusted, idx.doc, idx.signatures);
    hide Vet, Vetted, Learn, WellShaped;
  }

  lemma RestartForgets(v: Verifier, w: World, pins: map<KeyId, PubKey>)
    ensures Apply(v, w, Restart(pins)) == World(Session(pins, None, w.session.floor), None, map[], w.next)
  {}

  /** Refreshes that do not overlap are atomic: over every run of them the session is the one the atomic
      refreshes leave, so all that is proved of those holds. */
  lemma {:induction false} SerialRunsAreAtomic(v: Verifier, s: Session, es: seq<MarketplaceRuns.Event>)
    ensures
      var w := After(v, Idle(s), Serial(es));
      w.session == MarketplaceRuns.After(v, s, es) && w.tasks == map[] && w.next == Fetches(es)
  {
    hide Refresh, Whole, Apply;
    if es != [] {
      var n := |es| - 1;
      var init := es[..n];
      SerialRunsAreAtomic(v, s, init);
      var w := After(v, Idle(s), Serial(init));
      match es[n]
      case Fetched(f) =>
        AfterConcat(v, Idle(s), Serial(init), Whole(f, Fetches(init)));
        AloneIsAtomic(v, w, f);
      case Restart(pins) =>
        AfterLast(v, Idle(s), Serial(init), Restart(pins));
        RestartForgets(v, w, pins);
    }
  }
}
