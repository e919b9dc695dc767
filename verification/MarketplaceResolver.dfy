/** The resolver object: refresh and lookup over its mutable trust set, cache and anchor. */
module MarketplaceResolver {
  import opened Wrappers
  import opened SemverRange
  import opened Marketplace

  // ---- the lookup's index ----------------------------------------------------------------

  /** The entry byIdMap keeps for an id: a later one replaces it only when versionLess says so. */
  function Kept(entries: seq<CatalogEntry>, id: string): Option<CatalogEntry>
    requires forall i :: 0 <= i < |entries| ==> Released(entries[i].version)
    ensures Kept(entries, id).Some? ==> Kept(entries, id).value in entries && Kept(entries, id).value.id == id
  {
    if entries == [] then None
    else
      var e, best := entries[|entries|-1], Kept(entries[..|entries|-1], id);
      if e.id != id then best
      else if best.None? || VersionLess(best.value.version, e.version) then Some(e)
      else best
  }

  lemma NothingKept(entries: seq<CatalogEntry>, id: string)
    ensures Kept(entries[..0], id) == None
  {}

  lemma KeptStep(entries: seq<CatalogEntry>, i: nat, id: string)
    requires i < |entries| && forall k :: 0 <= k < |entries| ==> Released(entries[k].version)
    ensures
      var e, best := entries[i], Kept(entries[..i], id);
      Kept(entries[..i + 1], id)
      == if e.id == id && (best.None? || VersionLess(best.value.version, e.version)) then Some(e) else best
  {
    hide VersionLess, Released;
    assert entries[..i + 1][..i] == entries[..i];
  }

  function Major(e: CatalogEntry): nat
    requires Released(e.version)
  {
    ReleaseOf(e.version).major
  }

  /** Entry k is the first listed of those of its id with the highest major number. */
  ghost predicate FirstOfHighestMajor(entries: seq<CatalogEntry>, id: string, k: int)
    requires forall i :: 0 <= i < |entries| ==> Released(entries[i].version)
  {
    && 0 <= k < |entries| && entries[k].id == id
    && (forall i :: 0 <= i < |entries| && entries[i].id == id ==> Major(entries[i]) <= Major(entries[k]))
    && (forall i :: 0 <= i < k && entries[i].id == id ==> Major(entries[i]) < Major(entries[k]))
  }

  /** The one entry byIdMap keeps per id is the FIRST listed of those with the highest major number. */
  lemma {:induction false} KeptIsFirstOfHighestMajor(entries: seq<CatalogEntry>, id: string, k: int)
    requires forall i :: 0 <= i < |entries| ==> Released(entries[i].version)
    requires FirstOfHighestMajor(entries, id, k)
    ensures Kept(entries, id) == Some(entries[k])
  {
    var init, e := entries[..|entries|-1], entries[|entries|-1];
    if k < |init| {
      assert FirstOfHighestMajor(init, id, k);
      KeptIsFirstOfHighestMajor(init, id, k);
      if e.id == id { VersionLessComparesMajors(entries[k].version, e.version); }
    } else {
      var best := Kept(init, id);
      if best.Some? {
        var i :| 0 <= i < |init| && init[i] == best.value;
        assert entries[i] == best.value;
        VersionLessComparesMajors(best.value.version, e.version);
      }
    }
  }

  lemma {:induction false} FirstOfHighestMajorExists(entries: seq<CatalogEntry>, id: string) returns (k: int)
    requires forall i :: 0 <= i < |entries| ==> Released(entries[i].version)
    requires Kept(entries, id).Some?
    ensures FirstOfHighestMajor(entries, id, k)
  {
    var init, e := entries[..|entries|-1], entries[|entries|-1];
    if Kept(init, id).None? {
      KeptFindsListedIds(init, id);
      forall i | 0 <= i < |init| ensures entries[i].id != id { assert init[i].id != id; }
      k := |init|;
    } else {
      k := FirstOfHighestMajorExists(init, id);
      assert forall i :: 0 <= i < |init| ==> entries[i] == init[i];
      if e.id == id && Major(e) > Major(init[k]) { k := |init|; }
    }
  }

  lemma {:induction false} KeptFindsListedIds(entries: seq<CatalogEntry>, id: string)
    requires forall i :: 0 <= i < |entries| ==> Released(entries[i].version)
    ensures Kept(entries, id).Some? <==> exists i :: 0 <= i < |entries| && entries[i].id == id
  {
    if entries != [] {
      var init := entries[..|entries|-1];
      KeptFindsListedIds(init, id);
      if i :| 0 <= i < |init| && init[i].id == id { assert entries[i].id == id; }
      if i :| 0 <= i < |entries| && entries[i].id == id { assert i < |init| ==> init[i].id == id; }
    }
  }

  datatype Spec = Spec(id: string, range: string)

  function IndexOf(s: string, c: char): (at: nat)
    ensures at <= |s| && (at < |s| ==> s[at] == c) && c !in s[..at]
  {
    if s == "" then 0
    else if s[0] == c then 0
    else
      var rest := IndexOf(s[1..], c);
      assert s[..rest + 1] == [s[0]] + s[1..][..rest];
      rest + 1
  }

  /** "id" or "id@range"; no range is the range "*". */
  function ParseSpec(spec: string): Spec {
    var at := IndexOf(spec, '@');
    if at == |spec| then Spec(spec, "*") else Spec(spec[..at], spec[at+1..])
  }

  lemma {:induction false} IndexOfFirst(before: string, c: char, rest: string)
    requires c !in before
    ensures IndexOf(before, c) == |before|
    ensures IndexOf(before + [c] + rest, c) == |before|
  {
    if before != "" {
      IndexOfFirst(before[1..], c, rest);
      assert (before + [c] + rest)[1..] == before[1..] + [c] + rest;
    }
  }

  lemma ParseSpecInvertsPrinting(id: string, range: string)
    requires '@' !in id
    ensures ParseSpec(id + "@" + range) == Spec(id, range)
    ensures ParseSpec(id) == Spec(id, "*")
  {
    IndexOfFirst(id, '@', range);
    assert "@" == ['@'];
  }

  datatype LookupError = NoSuchEntry | BadRange | NotRefreshed

  /** lookupEntry: the range is tested on the one kept entry only. */
  function Lookup(state: Option<Index>, spec: string): Result<CatalogEntry, LookupError>
    requires state.Some? ==> WellShaped(state.value)
  {
    if state.None? then Failure(NotRefreshed)
    else
      var s := ParseSpec(spec);
      var kept := Kept(state.value.doc.entries, s.id);
      if kept.None? then Failure(NoSuchEntry)
      else
        var range := ParseRange(s.range);
        if range.Unsupported? then Failure(BadRange)
        else if InRange(ReleaseOf(kept.value.version), range) then Success(kept.value)
        else Failure(NoSuchEntry)
  }

  /** e is an entry of the catalog under the id, inside the range. */
  predicate Matches(idx: Index, s: Spec, e: CatalogEntry)
    requires WellShaped(idx)
  {
    e in idx.doc.entries && e.id == s.id && Released(e.version) && InRange(ReleaseOf(e.version), ParseRange(s.range))
  }

  /** The documented answer: a matching entry no other match is above, or no answer if nothing matches. */
  ghost predicate Documented(idx: Index, s: Spec, answer: Result<CatalogEntry, LookupError>)
    requires WellShaped(idx)
  {
    if answer.Success? then
      && Matches(idx, s, answer.value)
      && forall e :: Matches(idx, s, e) ==> !ReleaseLess(ReleaseOf(answer.value.version), ReleaseOf(e.version))
    else forall e :: !Matches(idx, s, e)
  }

  /** A lookup answers as documented exactly when every match is topped by the first listed entry of
      the id's highest major, that entry being a match itself. So it fails for a range below a newer
      listed major, and it returns an old release when that one is listed before its upgrades. */
  lemma LookupIsDocumentedExactly(idx: Index, spec: string)
    requires WellShaped(idx) && !ParseRange(ParseSpec(spec).range).Unsupported?
    ensures Documented(idx, ParseSpec(spec), Lookup(Some(idx), spec))
       <==> forall k: int, e :: FirstOfHighestMajor(idx.doc.entries, ParseSpec(spec).id, k) && Matches(idx, ParseSpec(spec), e) ==>
              Matches(idx, ParseSpec(spec), idx.doc.entries[k])
              && !ReleaseLess(ReleaseOf(idx.doc.entries[k].version), ReleaseOf(e.version))
  {
    hide ParseSpec, ParseRange, InRange, ReleaseOf, ReleaseLess, Released, Kept, Split;
    var s, entries := ParseSpec(spec), idx.doc.entries;
    var kept := Kept(entries, s.id);
    forall k: int | FirstOfHighestMajor(entries, s.id, k) ensures kept == Some(entries[k]) {
      KeptIsFirstOfHighestMajor(entries, s.id, k);
    }
    if kept.Some? {
      var k := FirstOfHighestMajorExists(entries, s.id);
      assert entries[k] in entries;
    } else {
      KeptFindsListedIds(entries, s.id);
    }
  }

  /** A catalog that lists each id once is always looked up as documented. */
  lemma LookupOfUniqueIdsIsDocumented(idx: Index, spec: string)
    requires WellShaped(idx) && !ParseRange(ParseSpec(spec).range).Unsupported?
    requires forall i, j :: 0 <= i < j < |idx.doc.entries| ==> idx.doc.entries[i].id != idx.doc.entries[j].id
    ensures Documented(idx, ParseSpec(spec), Lookup(Some(idx), spec))
  {
    var s, entries := ParseSpec(spec), idx.doc.entries;
    forall k: int, e | FirstOfHighestMajor(entries, s.id, k) && Matches(idx, s, e)
      ensures entries[k] == e
    {
      var i :| 0 <= i < |entries| && entries[i] == e;
    }
    LookupIsDocumentedExactly(idx, spec);
  }

  /** The failing family: an upgrade within the same major that is listed after the release it
      replaces is never found, not even by the bare id. */
  lemma UpgradeListedLaterIsMissed(idx: Index, stale: CatalogEntry, upgrade: CatalogEntry)
    requires WellShaped(idx) && idx.doc.entries == [stale, upgrade] && stale.id == upgrade.id && '@' !in stale.id
    requires Released(stale.version) && Released(upgrade.version)
    requires Major(stale) == Major(upgrade) && ReleaseLess(ReleaseOf(stale.version), ReleaseOf(upgrade.version))
    ensures Lookup(Some(idx), stale.id) == Success(stale)
    ensures !Documented(idx, ParseSpec(stale.id), Lookup(Some(idx), stale.id))
  {
    IndexOfFirst(stale.id, '@', "");
    KeptIsFirstOfHighestMajor(idx.doc.entries, stale.id, 0);
    assert idx.doc.entries[1] == upgrade;
    assert Matches(idx, ParseSpec(stale.id), upgrade);
  }

  // ---- the objects -----------------------------------------------------------------------------

  /** The caller-owned freshness anchor. */
  class Anchor {
    var floor: Option<int>

    constructor (floor: Option<int>)
      ensures this.floor == floor
    {
      this.floor := floor;
    }

    method Load() returns (f: Option<int>)
      ensures f == floor
    {
      f := floor;
    }

    method Save(at: int)
      modifies this
      ensures floor == Some(at)
    {
      floor := Some(at);
    }
  }

  class Resolver {
    const verify: Verifier
    const anchor: Anchor
    var trusted: map<KeyId, PubKey>
    var index: Option<Index>
    var byId: map<string, CatalogEntry>

    /** The state the refresh specification speaks of. */
    ghost function Now(): Session
      reads this, anchor
    {
      Session(trusted, index, anchor.floor)
    }

    ghost predicate Valid()
      reads this
    {
      index.Some? ==>
        && WellShaped(index.value)
        && forall id :: Kept(index.value.doc.entries, id) == if id in byId then Some(byId[id]) else None
    }

    constructor (verify: Verifier, pins: map<KeyId, PubKey>, anchor: Anchor)
      ensures Valid() && Now() == Session(pins, None, anchor.floor)
      ensures this.verify == verify && this.anchor == anchor
    {
      this.verify, this.anchor, trusted, index, byId := verify, anchor, pins, None, map[];
    }

    /** The first signature by a trusted key, tried against that key. */
    method VerifyPrimarySignature(idx: Index) returns (error: Option<Code>)
      ensures error == if Known(idx.signatures, trusted) == [] then Some(UnknownKey)
                       else if Known(idx.signatures, trusted)[0].key in trusted
                               && !verify(trusted[Known(idx.signatures, trusted)[0].key], idx.doc, Known(idx.signatures, trusted)[0].value)
                       then Some(BadSignature) else None
    {
      for i := 0 to |idx.signatures|
        invariant Known(idx.signatures, trusted) == Known(idx.signatures[i..], trusted)
      {
        var s := idx.signatures[i];
        assert idx.signatures[i..][1..] == idx.signatures[i+1..];
        if s.key in trusted {
          assert Known(idx.signatures, trusted)[0] == s;
          return if verify(trusted[s.key], idx.doc, s.value) then None else Some(BadSignature);
        }
      }
      error := Some(UnknownKey);
    }

    method EnforceFreshness(idx: Index) returns (ok: bool)
      modifies anchor
      ensures ok == (idx.doc.generatedAt.Some? && NotBelow(idx.doc.generatedAt, old(anchor.floor)))
      ensures anchor.floor == if ok then Advance(old(anchor.floor), idx.doc.generatedAt.value) else old(anchor.floor)
    {
      if idx.doc.generatedAt.None? { return false; }
      var published := idx.doc.generatedAt.value;
      var floor := anchor.Load();
      if floor.Some? && published < floor.value { return false; }
      if floor.None? || published > floor.value { anchor.Save(published); }
      ok := true;
    }

    method LearnRotationKeys(idx: Index) returns (ok: bool)
      requires WellShaped(idx)
      modifies `trusted
      ensures Learned(trusted, ok) == Learn(verify, old(trusted), idx.doc, idx.signatures)
    {
      for i := 0 to |idx.signatures|
        invariant Learn(verify, old(trusted), idx.doc, idx.signatures) == Learn(verify, trusted, idx.doc, idx.signatures[i..])
      {
        var sig := idx.signatures[i];
        assert idx.signatures[i..][1..] == idx.signatures[i+1..];
        if sig.key in trusted { continue; }
        if !verify(idx.doc.keys[sig.key], idx.doc, sig.value) { return false; }
        trusted := trusted[sig.key := idx.doc.keys[sig.key]];
      }
      ok := true;
    }

    /** byIdMap. */
    method ByIdMap(idx: Index) returns (m: map<string, CatalogEntry>)
      requires WellShaped(idx)
      ensures forall id :: Kept(idx.doc.entries, id) == if id in m then Some(m[id]) else None
    {
      m := map[];
      var entries := idx.doc.entries;
      hide Kept, VersionLess, Released;
      forall id ensures Kept(entries[..0], id) == None { NothingKept(entries, id); }
      for i := 0 to |entries|
        invariant forall id :: Kept(entries[..i], id) == if id in m then Some(m[id]) else None
      {
        var e := entries[i];
        assert Kept(entries[..i], e.id) == if e.id in m then Some(m[e.id]) else None;
        forall id
          ensures id != e.id ==> Kept(entries[..i + 1], id) == Kept(entries[..i], id)
          ensures id == e.id ==>
                    Kept(entries[..i + 1], id) == Some(if e.id !in m || VersionLess(m[e.id].version, e.version) then e else m[e.id])
        {
          KeptStep(entries, i, id);
        }
        if e.id !in m || VersionLess(m[e.id].version, e.version) { m := m[e.id := e]; }
      }
      assert entries[..|entries|] == entries;
    }

    /** refresh(): the session moves as `Refresh` says; the cache is replaced only on success. */
    method RefreshFrom(f: Fetch) returns (verdict: Result<Index, Code>)
      requires Valid()
      modifies this, anchor
      ensures Valid()
      ensures Refreshed(Now(), verdict) == Refresh(verify, old(Now()), f)
    {
      if f == HttpError { return Failure(Network); }
      if f == NotJson || !WellShaped(f.index) { return Failure(Catalog); }
      var idx := f.index;
      KnownAreTrusted(idx.signatures, trusted, 0);
      var error := VerifyPrimarySignature(idx);
      if error.Some? { return Failure(error.value); }
      var isFresh := EnforceFreshness(idx);
      if !isFresh { return Failure(Catalog); }
      var learned := LearnRotationKeys(idx);
      if !learned { return Failure(BadSignature); }
      byId := ByIdMap(idx);
      index := Some(idx);
      verdict := Success(idx);
    }

    method LookupEntry(spec: string) returns (r: Result<CatalogEntry, LookupError>)
      requires Valid()
      ensures r == Lookup(index, spec)
    {
      if index.None? { return Failure(NotRefreshed); }
      var s := ParseSpec(spec);
      assert Kept(index.value.doc.entries, s.id) == if s.id in byId then Some(byId[s.id]) else None;
      if s.id !in byId { return Failure(NoSuchEntry); }
      var range := ParseRange(s.range);
      if range == Unsupported { return Failure(BadRange); }
      if !InRange(ReleaseOf(byId[s.id].version), range) { return Failure(NoSuchEntry); }
      r := Success(byId[s.id]);
    }
  }
}
