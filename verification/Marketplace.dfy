/** The signed-catalog resolver (runtime/dsh/marketplace.js): a trust set that rotates, a persisted
    freshness floor and a cached verified index, all moved by refresh. */
module Marketplace {
  import opened Wrappers
  import opened SemverRange

  type KeyId = string
  type PubKey = string

  datatype CatalogEntry = CatalogEntry(id: string, version: string, tgzUrl: string, blobSha: string, manifestSha: string)

  datatype Signature = Signature(key: KeyId, value: string)

  /** What a signature covers: the whole index but its signatures. `generatedAt` is None when
      Date.parse makes nothing of it. */
  datatype Document = Document(keys: map<KeyId, PubKey>, generatedAt: Option<int>, entries: seq<CatalogEntry>)

  /** `otherFieldsOk`: the remaining field patterns of indexProblem hold. */
  datatype Index = Index(doc: Document, signatures: seq<Signature>, otherFieldsOk: bool)

  datatype Fetch = HttpError | NotJson | Body(index: Index)

  datatype Code = Network | Catalog | UnknownKey | BadSignature

  /** Ed25519 verification of a signature over a document's canonical bytes. */
  type Verifier = (PubKey, Document, string) -> bool

  /** Trust set and cached index live as long as the resolver; the floor is the anchor's. */
  datatype Session = Session(trusted: map<KeyId, PubKey>, state: Option<Index>, floor: Option<int>)

  // ---- the checks of one refresh ------------------------------------------------------

  predicate WellShaped(idx: Index) {
    && idx.otherFieldsOk
    && idx.doc.keys != map[]
    && 1 <= |idx.signatures| <= 2
    && (forall i :: 0 <= i < |idx.signatures| ==> idx.signatures[i].key in idx.doc.keys)
    && (forall i :: 0 <= i < |idx.doc.entries| ==> Released(idx.doc.entries[i].version))
  }

  /** The signatures by keys of the trust set, in order. */
  function Known(sigs: seq<Signature>, trusted: map<KeyId, PubKey>): seq<Signature> {
    if sigs == [] then []
    else (if sigs[0].key in trusted then [sigs[0]] else []) + Known(sigs[1..], trusted)
  }

  /** Everything a refresh checks before it moves the floor. */
  function Vet(v: Verifier, s: Session, f: Fetch): Result<Index, Code> {
    match f
    case HttpError => Failure(Network)
    case NotJson => Failure(Catalog)
    case Body(idx) =>
      if !WellShaped(idx) then Failure(Catalog)
      else
        var known := Known(idx.signatures, s.trusted);
        if known == [] then Failure(UnknownKey)
        else
          KnownAreTrusted(idx.signatures, s.trusted, 0);
          if !v(s.trusted[known[0].key], idx.doc, known[0].value) then Failure(BadSignature)
          else if idx.doc.generatedAt.None? then Failure(Catalog)
          else if s.floor.Some? && idx.doc.generatedAt.value < s.floor.value then Failure(Catalog)
          else Success(idx)
  }

  function Advance(floor: Option<int>, published: int): Option<int> {
    if floor.None? || published > floor.value then Some(published) else floor
  }

  datatype Learned = Learned(trusted: map<KeyId, PubKey>, ok: bool)

  /** The rotation loop: each signature by a key not trusted yet must verify under the key the index
      publishes for it, and then that key is trusted. */
  function Learn(v: Verifier, trusted: map<KeyId, PubKey>, doc: Document, sigs: seq<Signature>): Learned
    requires forall i :: 0 <= i < |sigs| ==> sigs[i].key in doc.keys
    decreases sigs
  {
    if sigs == [] then Learned(trusted, true)
    else if sigs[0].key in trusted then Learn(v, trusted, doc, sigs[1..])
    else if !v(doc.keys[sigs[0].key], doc, sigs[0].value) then Learned(trusted, false)
    else Learn(v, trusted[sigs[0].key := doc.keys[sigs[0].key]], doc, sigs[1..])
  }

  datatype Refreshed = Refreshed(session: Session, verdict: Result<Index, Code>)

  function Refresh(v: Verifier, s: Session, f: Fetch): Refreshed {
    match Vet(v, s, f)
    case Failure(code) => Refreshed(s, Failure(code))
    case Success(idx) =>
      var anchored := s.(floor := Advance(s.floor, idx.doc.generatedAt.value));
      var learned := Learn(v, s.trusted, idx.doc, idx.signatures);
      if learned.ok then Refreshed(anchored.(trusted := learned.trusted, state := Some(idx)), Success(idx))
      else Refreshed(anchored.(trusted := learned.trusted), Failure(BadSignature))
  }

  lemma {:induction false} KnownAreTrusted(sigs: seq<Signature>, trusted: map<KeyId, PubKey>, i: nat)
    ensures Known(sigs, trusted) == [] <==> forall n :: 0 <= n < |sigs| ==> sigs[n].key !in trusted
    ensures i < |Known(sigs, trusted)| ==> Known(sigs, trusted)[i] in sigs && Known(sigs, trusted)[i].key in trusted
  {
    if sigs != [] {
      assert forall n :: 1 <= n < |sigs| ==> sigs[n] == sigs[1..][n-1];
      if sigs[0].key in trusted {
        if i > 0 { KnownAreTrusted(sigs[1..], trusted, i - 1); }
      } else {
        KnownAreTrusted(sigs[1..], trusted, i);
      }
    }
  }

  // ---- what one refresh can do ------------------------------------------------------------

  lemma LearnFromOne(v: Verifier, trusted: map<KeyId, PubKey>, doc: Document, sig: Signature)
    requires sig.key in doc.keys
    ensures Learn(v, trusted, doc, [sig])
         == if sig.key in trusted then Learned(trusted, true)
            else if v(doc.keys[sig.key], doc, sig.value) then Learned(trusted[sig.key := doc.keys[sig.key]], true)
            else Learned(trusted, false)
  {
    assert [sig][1..] == [];
  }

  /** With at most two signatures of which one is trusted, the loop either learns nothing or ends
      having learned exactly one key; in particular it never fails after learning. */
  lemma LearnAtMostOne(v: Verifier, trusted: map<KeyId, PubKey>, doc: Document, sigs: seq<Signature>)
    requires |sigs| <= 2 && forall i :: 0 <= i < |sigs| ==> sigs[i].key in doc.keys
    requires exists i :: 0 <= i < |sigs| && sigs[i].key in trusted
    ensures var l := Learn(v, trusted, doc, sigs);
            && (l.trusted == trusted
                || exists i :: 0 <= i < |sigs| && sigs[i].key !in trusted
                     && v(doc.keys[sigs[i].key], doc, sigs[i].value)
                     && l.trusted == trusted[sigs[i].key := doc.keys[sigs[i].key]])
            && (!l.ok ==> l.trusted == trusted)
            && (l.ok <==> forall i :: 0 <= i < |sigs| && sigs[i].key !in trusted ==> v(doc.keys[sigs[i].key], doc, sigs[i].value))
  {
    if |sigs| == 2 {
      assert sigs[1..] == [sigs[1]];
      LearnFromOne(v, trusted, doc, sigs[1]);
      LearnFromOne(v, trusted[sigs[0].key := doc.keys[sigs[0].key]], doc, sigs[1]);
      assert sigs[0].key !in trusted ==> sigs[1].key in trusted;
    } else {
      assert sigs == [sigs[0]];
      LearnFromOne(v, trusted, doc, sigs[0]);
    }
  }

  /** A vetted index has a trusted signer, so LearnAtMostOne applies to it. */
  lemma VettedHasTrustedSigner(v: Verifier, s: Session, f: Fetch)
    requires Vet(v, s, f).Success?
    ensures var idx := Vet(v, s, f).value;
            f == Body(idx) && WellShaped(idx)
            && exists i :: 0 <= i < |idx.signatures| && idx.signatures[i].key in s.trusted
                 && v(s.trusted[idx.signatures[i].key], idx.doc, idx.signatures[i].value)
  {
    var idx := f.index;
    KnownAreTrusted(idx.signatures, s.trusted, 0);
    var known := Known(idx.signatures, s.trusted);
    var i :| 0 <= i < |idx.signatures| && idx.signatures[i] == known[0];
  }

  /** The whole effect of a refresh on the trust set: bindings never change, at most one key is
      added, and it was published by an index whose primary signature verified under a key already
      trusted and whose own signature verified too; a failed refresh adds none. */
  lemma RefreshTrust(v: Verifier, s: Session, f: Fetch)
    ensures var r := Refresh(v, s, f);
            && (forall k :: k in s.trusted ==> k in r.session.trusted && r.session.trusted[k] == s.trusted[k])
            && (r.verdict.Failure? ==> r.session.trusted == s.trusted && r.session.state == s.state)
            && (r.session.trusted == s.trusted
                || exists k :: k !in s.trusted && k in r.session.trusted && r.session.trusted == s.trusted[k := r.session.trusted[k]]
                     && Introduces(v, s.trusted, f, k, r.session.trusted[k]))
  {
    if Vet(v, s, f).Success? {
      var idx := Vet(v, s, f).value;
      VettedHasTrustedSigner(v, s, f);
      LearnAtMostOne(v, s.trusted, idx.doc, idx.signatures);
      var l := Learn(v, s.trusted, idx.doc, idx.signatures);
      if l.trusted != s.trusted {
        var i :| 0 <= i < |idx.signatures| && idx.signatures[i].key !in s.trusted
          && v(idx.doc.keys[idx.signatures[i].key], idx.doc, idx.signatures[i].value)
          && l.trusted == s.trusted[idx.signatures[i].key := idx.doc.keys[idx.signatures[i].key]];
        var p :| 0 <= p < |idx.signatures| && idx.signatures[p].key in s.trusted
          && v(s.trusted[idx.signatures[p].key], idx.doc, idx.signatures[p].value);
        assert Signs(v, idx, idx.signatures[p].key, s.trusted[idx.signatures[p].key]);
        assert Signs(v, idx, idx.signatures[i].key, idx.doc.keys[idx.signatures[i].key]);
      }
    }
  }

  /** idx carries a signature named `key` that verifies under `pub`. */
  predicate Signs(v: Verifier, idx: Index, key: KeyId, pub: PubKey) {
    exists i :: 0 <= i < |idx.signatures| && idx.signatures[i].key == key && v(pub, idx.doc, idx.signatures[i].value)
  }

  /** The fetched index publishes `pub` for `key`, is signed by that key and by a trusted one. */
  predicate Introduces(v: Verifier, trusted: map<KeyId, PubKey>, f: Fetch, key: KeyId, pub: PubKey) {
    && f.Body?
    && key in f.index.doc.keys && f.index.doc.keys[key] == pub
    && Signs(v, f.index, key, pub)
    && exists p :: p in trusted && Signs(v, f.index, p, trusted[p])
  }

  /** A refresh accepts exactly the well-shaped indexes whose FIRST trusted signature verifies, that
      are not behind the floor, and whose every signature by a key not trusted yet verifies under the
      key they publish for it. */
  lemma RefreshAcceptsExactly(v: Verifier, s: Session, idx: Index)
    ensures Refresh(v, s, Body(idx)).verdict.Success?
       <==> (&& WellShaped(idx)
             && Known(idx.signatures, s.trusted) != []
             && Known(idx.signatures, s.trusted)[0].key in s.trusted
             && v(s.trusted[Known(idx.signatures, s.trusted)[0].key], idx.doc, Known(idx.signatures, s.trusted)[0].value)
             && idx.doc.generatedAt.Some?
             && (s.floor.Some? ==> s.floor.value <= idx.doc.generatedAt.value)
             && forall i :: 0 <= i < |idx.signatures| && idx.signatures[i].key !in s.trusted ==>
                  v(idx.doc.keys[idx.signatures[i].key], idx.doc, idx.signatures[i].value))
  {
    KnownAreTrusted(idx.signatures, s.trusted, 0);
    if Vet(v, s, Body(idx)).Success? {
      VettedHasTrustedSigner(v, s, Body(idx));
      LearnAtMostOne(v, s.trusted, idx.doc, idx.signatures);
    }
  }

  /** The second signature of an index decides nothing when both signers are trusted already:
      replacing its value by any other leaves the verdict and the trust set alone. A broken second
      signature therefore refuses a catalog only if its key was not trusted. */
  lemma SecondTrustedSignatureIsUnread(v: Verifier, s: Session, idx: Index, value: string)
    requires |idx.signatures| == 2
    requires idx.signatures[0].key in s.trusted && idx.signatures[1].key in s.trusted
    ensures var forged := idx.(signatures := [idx.signatures[0], Signature(idx.signatures[1].key, value)]);
            var r, r' := Refresh(v, s, Body(idx)), Refresh(v, s, Body(forged));
            && (r.verdict.Success? <==> r'.verdict.Success?)
            && r.session.trusted == r'.session.trusted && r.session.floor == r'.session.floor
  {
    var forged := idx.(signatures := [idx.signatures[0], Signature(idx.signatures[1].key, value)]);
    RefreshAcceptsExactly(v, s, idx);
    RefreshAcceptsExactly(v, s, forged);
    RefreshTrust(v, s, Body(idx));
    RefreshTrust(v, s, Body(forged));
    var a, b := idx.signatures, forged.signatures;
    assert a[1..] == [a[1]] && b[1..] == [b[1]];
    assert Known(a, s.trusted)[0] == a[0] && Known(b, s.trusted)[0] == b[0];
    assert a[0].key == b[0].key && a[1].key == b[1].key;
    assert WellShaped(idx) <==> WellShaped(forged);
    if WellShaped(idx) {
      LearnFromOne(v, s.trusted, idx.doc, a[1]);
      LearnFromOne(v, s.trusted, idx.doc, b[1]);
    }
  }

  /** The bound of two signatures carries "a failed refresh learns nothing": with three, the loop
      learns the second key and then fails on the third. */
  lemma ThreeSignaturesWouldLearnAndFail(v: Verifier, doc: Document)
    requires doc.keys == map["a" := "ka", "b" := "kb", "c" := "kc"]
    requires v("kb", doc, "good") && !v("kc", doc, "bad")
    ensures var sigs := [Signature("a", "x"), Signature("b", "good"), Signature("c", "bad")];
            Learn(v, map["a" := "ka"], doc, sigs) == Learned(map["a" := "ka", "b" := "kb"], false)
  {
    var sigs := [Signature("a", "x"), Signature("b", "good"), Signature("c", "bad")];
    assert sigs[1..][1..] == [Signature("c", "bad")];
    assert sigs[1..] == [Signature("b", "good"), Signature("c", "bad")];
    LearnFromOne(v, map["a" := "ka", "b" := "kb"], doc, Signature("c", "bad"));
    assert map["a" := "ka"]["b" := doc.keys["b"]] == map["a" := "ka", "b" := "kb"];
    assert Learn(v, map["a" := "ka"], doc, sigs[1..]) == Learn(v, map["a" := "ka", "b" := "kb"], doc, sigs[1..][1..]);
  }

  // ---- freshness ------------------------------------------------------------------------------

  predicate NotBelow(a: Option<int>, b: Option<int>) {
    b.Some? ==> a.Some? && b.value <= a.value
  }

  /** The cached index is never newer than the floor. */
  predicate CacheBehindFloor(s: Session) {
    s.state.Some? ==> s.state.value.doc.generatedAt.Some? && NotBelow(s.floor, s.state.value.doc.generatedAt)
  }

  /** A refresh never lowers the floor, only a vetted index moves it (to its own timestamp), and an
      accepted index is at least as new as every index accepted before it. */
  lemma RefreshFreshness(v: Verifier, s: Session, f: Fetch)
    ensures var r := Refresh(v, s, f);
            && NotBelow(r.session.floor, s.floor)
            && (r.session.floor != s.floor ==> Vet(v, s, f).Success? && r.session.floor == Vet(v, s, f).value.doc.generatedAt)
            && (CacheBehindFloor(s) ==> CacheBehindFloor(r.session))
            && (r.verdict.Success? ==> r.session.state == Some(r.verdict.value)
                                       && r.verdict.value.doc.generatedAt.Some?
                                       && NotBelow(r.verdict.value.doc.generatedAt, s.floor)
                                       && r.session.floor == r.verdict.value.doc.generatedAt)
  {}

  /** A REJECTED refresh moves the floor exactly when the index passed every check of its primary
      signature and its timestamp, is newer than the floor, and the rotation signature is bad. */
  lemma RejectedRefreshMovesFloorExactly(v: Verifier, s: Session, f: Fetch)
    ensures (Refresh(v, s, f).verdict.Failure? && Refresh(v, s, f).session.floor != s.floor)
       <==> (&& Vet(v, s, f).Success?
             && (s.floor.None? || Vet(v, s, f).value.doc.generatedAt.value > s.floor.value)
             && exists i :: 0 <= i < |f.index.signatures| && f.index.signatures[i].key !in s.trusted
                  && !v(f.index.doc.keys[f.index.signatures[i].key], f.index.doc, f.index.signatures[i].value))
  {
    if Vet(v, s, f).Success? {
      VettedHasTrustedSigner(v, s, f);
      LearnAtMostOne(v, s.trusted, f.index.doc, f.index.signatures);
    }
  }
}
