/** Every sequence of refreshes and resolver restarts: where each trusted key comes from, and how the
    freshness floor moves. */
module MarketplaceRuns {
  import opened Wrappers
  import opened Marketplace

  /** A restart builds a new resolver: pins only, no cached index, the same anchor. */
  datatype Event = Fetched(fetch: Fetch) | Restart(pins: map<KeyId, PubKey>)

  function Step(v: Verifier, s: Session, e: Event): Session {
    match e
    case Fetched(f) => Refresh(v, s, f).session
    case Restart(pins) => Session(pins, None, s.floor)
  }

  function After(v: Verifier, s: Session, es: seq<Event>): Session {
    if es == [] then s else Step(v, After(v, s, es[..|es|-1]), es[|es|-1])
  }

  /** The pins the current resolver was built with, and the event it was built at. */
  function CurrentPins(pins: map<KeyId, PubKey>, es: seq<Event>): map<KeyId, PubKey> {
    if es == [] then pins
    else if es[|es|-1].Restart? then es[|es|-1].pins
    else CurrentPins(pins, es[..|es|-1])
  }

  function SessionStart(es: seq<Event>): nat {
    if es == [] then 0
    else if es[|es|-1].Restart? then |es|
    else SessionStart(es[..|es|-1])
  }

  // ---- trust provenance ----------------------------------------------------------------

  /** One rotation: at event `at` an index published `key`. */
  datatype Link = Link(at: nat, key: KeyId)

  function ChainKey(root: KeyId, links: seq<Link>): KeyId {
    if links == [] then root else links[|links|-1].key
  }

  /** The public key at the end of a chain, read off the pins and the fetched documents alone. */
  function ChainPub(pins: map<KeyId, PubKey>, es: seq<Event>, root: KeyId, links: seq<Link>): Option<PubKey> {
    if links == [] then (if root in pins then Some(pins[root]) else None)
    else
      var l := links[|links|-1];
      if l.at < |es| && es[l.at].Fetched? && es[l.at].fetch.Body? && l.key in es[l.at].fetch.index.doc.keys
      then Some(es[l.at].fetch.index.doc.keys[l.key]) else None
  }

  /** A chain of rotations from a pinned key: each link's index was fetched in this session, after
      the previous link's, is signed by the previous key under the public key the chain gives it, and
      by the new key under the one the index publishes. It does not mention the resolver's state. */
  predicate TrustChain(v: Verifier, pins: map<KeyId, PubKey>, es: seq<Event>, start: nat, root: KeyId, links: seq<Link>) {
    if links == [] then root in pins
    else
      var init, l := links[..|links|-1], links[|links|-1];
      && TrustChain(v, pins, es, start, root, init)
      && start <= l.at < |es| && (init != [] ==> init[|init|-1].at < l.at)
      && ChainPub(pins, es, root, links).Some? && ChainPub(pins, es, root, init).Some?
      && Signs(v, es[l.at].fetch.index, ChainKey(root, init), ChainPub(pins, es, root, init).value)
      && Signs(v, es[l.at].fetch.index, l.key, ChainPub(pins, es, root, links).value)
  }

  lemma {:induction false} ChainInLongerRun(v: Verifier, pins: map<KeyId, PubKey>, es: seq<Event>, e: Event, start: nat, root: KeyId, links: seq<Link>)
    requires TrustChain(v, pins, es, start, root, links)
    ensures TrustChain(v, pins, es + [e], start, root, links)
    ensures ChainPub(pins, es + [e], root, links) == ChainPub(pins, es, root, links)
    ensures links != [] ==> links[|links|-1].at < |es|
  {
    if links != [] { ChainInLongerRun(v, pins, es, e, start, root, links[..|links|-1]); }
  }

  lemma PinnedChain(v: Verifier, pins: map<KeyId, PubKey>, es: seq<Event>, start: nat, key: KeyId)
    ensures key in pins ==> TrustChain(v, pins, es, start, key, []) && ChainPub(pins, es, key, []) == Some(pins[key])
  {}

  /** The last event of a run may add a link to a chain. */
  lemma LinkAdded(v: Verifier, pins: map<KeyId, PubKey>, es: seq<Event>, start: nat, root: KeyId, older: seq<Link>, key: KeyId, pub: PubKey)
    requires es != [] && start <= |es| - 1 && es[|es|-1].Fetched? && es[|es|-1].fetch.Body?
    requires TrustChain(v, pins, es, start, root, older) && (older != [] ==> older[|older|-1].at < |es| - 1)
    requires ChainPub(pins, es, root, older) == Some(pub)
    requires
      var idx := es[|es|-1].fetch.index;
      key in idx.doc.keys && Signs(v, idx, ChainKey(root, older), pub) && Signs(v, idx, key, idx.doc.keys[key])
    ensures
      var links := older + [Link(|es|-1, key)];
      && TrustChain(v, pins, es, start, root, links) && ChainKey(root, links) == key
      && ChainPub(pins, es, root, links) == Some(es[|es|-1].fetch.index.doc.keys[key])
  {
    hide Signs;
    assert (older + [Link(|es|-1, key)])[..|older|] == older;
  }

  /** Every key a resolver trusts, after any run, is the end of a chain of verified rotations that
      starts at a key pinned in the current session, with the public key that chain gives it. */
  lemma {:induction false} TrustProvenance(v: Verifier, pins: map<KeyId, PubKey>, floor: Option<int>, es: seq<Event>, key: KeyId)
    returns (root: KeyId, links: seq<Link>)
    requires key in After(v, Session(pins, None, floor), es).trusted
    ensures TrustChain(v, CurrentPins(pins, es), es, SessionStart(es), root, links)
    ensures ChainKey(root, links) == key
    ensures ChainPub(CurrentPins(pins, es), es, root, links) == Some(After(v, Session(pins, None, floor), es).trusted[key])
  {
    hide TrustChain, ChainPub, Signs, Refresh;
    PinnedChain(v, CurrentPins(pins, es), es, SessionStart(es), key);
    root, links := key, [];
    if es != [] && es[|es|-1].Fetched? {
      var s0, init, f := Session(pins, None, floor), es[..|es|-1], es[|es|-1].fetch;
      var before := After(v, s0, init);
      assert init + [es[|es|-1]] == es;
      RefreshTrust(v, before, f);
      if key in before.trusted {
        root, links := TrustProvenance(v, pins, floor, init, key);
        ChainInLongerRun(v, CurrentPins(pins, es), init, es[|es|-1], SessionStart(es), root, links);
      } else {
        var p :| p in before.trusted && Signs(v, f.index, p, before.trusted[p]);
        var older;
        root, older := TrustProvenance(v, pins, floor, init, p);
        ChainInLongerRun(v, CurrentPins(pins, es), init, es[|es|-1], SessionStart(es), root, older);
        links := older + [Link(|es|-1, key)];
        StartWithinRun(init);
        LinkAdded(v, CurrentPins(pins, es), es, SessionStart(es), root, older, key, before.trusted[p]);
      }
    }
  }

  lemma {:induction false} StartWithinRun(es: seq<Event>)
    ensures SessionStart(es) <= |es|
  {
    if es != [] && !es[|es|-1].Restart? { StartWithinRun(es[..|es|-1]); }
  }

  /** While no restart intervenes, the trust set only grows and no key is ever bound anew. */
  lemma {:induction false} BindingsNeverChange(v: Verifier, s: Session, es: seq<Event>, key: KeyId)
    requires forall i :: 0 <= i < |es| ==> es[i].Fetched?
    requires key in s.trusted
    ensures key in After(v, s, es).trusted && After(v, s, es).trusted[key] == s.trusted[key]
    ensures |After(v, s, es).trusted| <= |s.trusted| + |es|
  {
    if es != [] {
      var init := es[..|es|-1];
      BindingsNeverChange(v, s, init, key);
      var before := After(v, s, init);
      RefreshTrust(v, before, es[|es|-1].fetch);
      var after := Refresh(v, before, es[|es|-1].fetch).session.trusted;
      if after != before.trusted {
        var k :| k !in before.trusted && k in after && after == before.trusted[k := after[k]];
        assert after.Keys == before.trusted.Keys + {k};
      }
    }
  }

  // ---- freshness -------------------------------------------------------------------------

  lemma AfterConcat(v: Verifier, s: Session, a: seq<Event>, b: seq<Event>)
    ensures After(v, s, a + b) == After(v, After(v, s, a), b)
    decreases b
  {
    if b == [] {
      assert a + b == a;
    } else {
      assert (a + b)[..|a + b|-1] == a + b[..|b|-1];
      AfterConcat(v, s, a, b[..|b|-1]);
    }
  }

  /** Across refreshes and restarts the floor never decreases and the cached index never gets ahead
      of it. */
  lemma {:induction false} FloorNeverDecreases(v: Verifier, s: Session, es: seq<Event>)
    requires CacheBehindFloor(s)
    ensures NotBelow(After(v, s, es).floor, s.floor)
    ensures CacheBehindFloor(After(v, s, es))
  {
    if es != [] {
      FloorNeverDecreases(v, s, es[..|es|-1]);
      var before, e := After(v, s, es[..|es|-1]), es[|es|-1];
      if e.Fetched? { RefreshFreshness(v, before, e.fetch); }
    }
  }

  /** Did event i of the run end in an accepted index? */
  predicate Accepted(v: Verifier, s: Session, es: seq<Event>, i: nat) {
    i < |es| && es[i].Fetched? && Refresh(v, After(v, s, es[..i]), es[i].fetch).verdict.Success?
  }

  /** The accepted indexes of a run, restarts included, have non-decreasing timestamps: no replayed
      older catalog is ever accepted. */
  lemma AcceptedIndexesNeverGoBack(v: Verifier, s: Session, es: seq<Event>, i: nat, j: nat)
    requires CacheBehindFloor(s) && i < j && Accepted(v, s, es, i) && Accepted(v, s, es, j)
    ensures es[i].fetch.Body? && es[j].fetch.Body?
    ensures NotBelow(es[j].fetch.index.doc.generatedAt, es[i].fetch.index.doc.generatedAt)
  {
    var first, second := After(v, s, es[..i]), After(v, s, es[..j]);
    RefreshFreshness(v, first, es[i].fetch);
    RefreshFreshness(v, second, es[j].fetch);
    VettedHasTrustedSigner(v, first, es[i].fetch);
    VettedHasTrustedSigner(v, second, es[j].fetch);
    FloorNeverDecreases(v, s, es[..i+1]);
    assert es[..i+1][..i] == es[..i];
    assert es[..i+1] + es[i+1..j] == es[..j];
    AfterConcat(v, s, es[..i+1], es[i+1..j]);
    FloorNeverDecreases(v, After(v, s, es[..i+1]), es[i+1..j]);
  }

  /** Whatever is cached was accepted by some refresh of the current session. */
  lemma {:induction false} CachedIndexWasAccepted(v: Verifier, s: Session, es: seq<Event>) returns (i: nat)
    requires s.state.None? && After(v, s, es).state.Some?
    ensures Accepted(v, s, es, i) && es[i].fetch == Body(After(v, s, es).state.value) && SessionStart(es) <= i
  {
    var n := |es| - 1;
    var before := After(v, s, es[..n]);
    RefreshFreshness(v, before, es[n].fetch);
    if Refresh(v, before, es[n].fetch).verdict.Success? {
      VettedHasTrustedSigner(v, before, es[n].fetch);
      StartWithinRun(es[..n]);
      i := n;
    } else {
      RefreshTrust(v, before, es[n].fetch);
      i := CachedIndexWasAccepted(v, s, es[..n]);
      assert es[..n][..i] == es[..i];
    }
  }
}
