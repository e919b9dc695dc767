/** The license policy (tools/supply-audit/licenses.py:3-16, 29-52, 81-88, 183-190): the verdict on one
    identifier, and what it makes of the verdict on an expression. */
module SpdxLicense {
  import opened Wrappers
  import opened Spdx
  import opened SpdxVerdict
  import opened SpdxMeaning

  const ALLOWED: set<Token> := {
    "0BSD", "Apache-1.1", "Apache-2.0", "BSD-1-Clause", "BSD-2-Clause", "BSD-2-Clause-Patent", "BSD-3-Clause",
    "BSD-3-Clause-Clear", "CC0-1.0", "ICU", "ISC", "MIT", "MIT-0", "MIT-Modern-Variant", "Python-2.0", "Unlicense",
    "Unicode-3.0", "Unicode-DFS-2016", "X11", "Zlib"
  }

  /** Python's alphanumeric characters outside ASCII are a parameter. */
  type Wide = char -> bool

  predicate IsDigit(c: char) {
    '0' <= c <= '9'
  }

  /** The characters of \w. */
  predicate IsWordChar(wide: Wide, c: char) {
    if c < 128 as char then IsDigit(c) || 'a' <= c <= 'z' || 'A' <= c <= 'Z' || c == '_' else wide(c)
  }

  function Upper(c: char): char {
    if 'a' <= c <= 'z' then (c as int - 32) as char else c
  }

  /** Does t start with p, an upper-case word, in any case? */
  predicate StartsLike(t: Token, p: Token) {
    |p| <= |t| && forall i :: 0 <= i < |p| ==> Upper(t[i]) == p[i]
  }

  /** `^(L?A?GPL)\b`, ignoring case: the optional letters, the word, and a boundary after it. */
  predicate GplMatch(wide: Wide, t: Token) {
    var l := if t != [] && Upper(t[0]) == 'L' then 1 else 0;
    var a := if l < |t| && Upper(t[l]) == 'A' then 1 else 0;
    StartsLike(t[l + a..], "GPL") && (|t| > l + a + 3 ==> !IsWordChar(wide, t[l + a + 3]))
  }

  function TrimLeft(t: Token): Token {
    if t != [] && IsSpace(t[0]) then TrimLeft(t[1..]) else t
  }

  function TrimRight(t: Token): Token {
    if t != [] && IsSpace(t[|t| - 1]) then TrimRight(t[..|t| - 1]) else t
  }

  /** classify_license_id. */
  function Classify(wide: Wide, id: Token): Verdict {
    var lid := TrimRight(TrimLeft(id));
    if GplMatch(wide, lid) then Deny
    else if lid in ALLOWED then Allow
    else Review
  }

  function WithoutPluses(t: Token): (r: Token)
    ensures r <= t
  {
    if t != [] && t[|t| - 1] == '+' then WithoutPluses(t[..|t| - 1]) else t
  }

  /** `rstrip("-0123456789.")` */
  function WithoutVersion(t: Token): (r: Token)
    ensures r <= t
  {
    if t != [] && (IsDigit(t[|t| - 1]) || t[|t| - 1] == '-' || t[|t| - 1] == '.') then WithoutVersion(t[..|t| - 1]) else t
  }

  function Base(id: Token): (r: Token)
    ensures r <= id
  {
    WithoutVersion(WithoutPluses(id))
  }

  predicate EndsInPlus(id: Token) {
    id != [] && id[|id| - 1] == '+'
  }

  /** _classify_atom. */
  function ClassifyAtom(wide: Wide, id: Token): Verdict {
    var verdict := Classify(wide, id);
    if verdict != Review || !EndsInPlus(id) then verdict
    else if Base(id) in ALLOWED then Allow
    else verdict
  }

  // ---- the policy on one identifier -----------------------------------------------------------------

  /** The GPL family of the policy: GPL, LGPL and AGPL, any version, in any case. */
  predicate Family(id: Token) {
    StartsLike(id, "GPL") || StartsLike(id, "LGPL") || StartsLike(id, "AGPL")
  }

  /** The family's name ends where a word does. */
  predicate NameEnds(wide: Wide, id: Token) {
    var n := if StartsLike(id, "GPL") then 3 else 4;
    |id| > n ==> !IsWordChar(wide, id[n])
  }

  lemma WordsAreTrimmed(id: Token)
    requires IsWord(id)
    ensures TrimRight(TrimLeft(id)) == id
  {}

  /** "GPL" at index n, in any case. */
  predicate GplAt(t: Token, n: nat) {
    n + 3 <= |t| && Upper(t[n]) == 'G' && Upper(t[n + 1]) == 'P' && Upper(t[n + 2]) == 'L'
  }

  lemma GplFrom(t: Token, n: nat)
    requires n <= |t|
    ensures StartsLike(t[n..], "GPL") <==> GplAt(t, n)
  {
    hide Upper;
    assert n + 3 <= |t| ==> t[n..][0] == t[n] && t[n..][1] == t[n + 1] && t[n..][2] == t[n + 2];
    assert "GPL"[0] == 'G' && "GPL"[1] == 'P' && "GPL"[2] == 'L';
  }

  lemma FamilyNames(t: Token)
    ensures StartsLike(t, "GPL") <==> GplAt(t, 0)
    ensures StartsLike(t, "LGPL") <==> (t != [] && Upper(t[0]) == 'L' && GplAt(t, 1))
    ensures StartsLike(t, "AGPL") <==> (t != [] && Upper(t[0]) == 'A' && GplAt(t, 1))
    ensures StartsLike(t, "LAGPL") <==> (|t| >= 2 && Upper(t[0]) == 'L' && Upper(t[1]) == 'A' && GplAt(t, 2))
  {
    hide Upper;
    assert "LGPL"[0] == 'L' && "LGPL"[1] == 'G' && "LGPL"[2] == 'P' && "LGPL"[3] == 'L';
    assert "AGPL"[0] == 'A' && "AGPL"[1] == 'G' && "AGPL"[2] == 'P' && "AGPL"[3] == 'L';
    assert "LAGPL"[0] == 'L' && "LAGPL"[1] == 'A' && "LAGPL"[2] == 'G' && "LAGPL"[3] == 'P' && "LAGPL"[4] == 'L';
    assert "GPL"[0] == 'G' && "GPL"[1] == 'P' && "GPL"[2] == 'L';
  }

  lemma GplMatchIs(wide: Wide, id: Token)
    ensures GplMatch(wide, id) <==> (Family(id) && NameEnds(wide, id))
                                    || (StartsLike(id, "LAGPL") && (|id| > 5 ==> !IsWordChar(wide, id[5])))
  {
    hide IsWordChar, StartsLike, Upper;
    FamilyNames(id);
    var l := if id != [] && Upper(id[0]) == 'L' then 1 else 0;
    var a := if l < |id| && Upper(id[l]) == 'A' then 1 else 0;
    GplFrom(id, l + a);
  }

  /** No allowed identifier begins like one of the family. */
  lemma AllowedIsNoFamily(id: Token, t: Token)
    requires id in ALLOWED && id <= t
    ensures !Family(t) && !StartsLike(t, "LAGPL")
  {
    assert |id| >= 2 && t[0] == id[0] && t[1] == id[1];
  }

  /** The closed list: an identifier is allowed exactly when it is on it, or is a `+` spelling whose base,
      the trailing version cut off, is. */
  lemma AllowedExactly(wide: Wide, id: Token)
    requires IsWord(id)
    ensures ClassifyAtom(wide, id) == Allow <==> id in ALLOWED || (EndsInPlus(id) && Base(id) in ALLOWED)
  {
    hide GplMatch, Base, Family, StartsLike, NameEnds;
    WordsAreTrimmed(id);
    GplMatchIs(wide, id);
    if id in ALLOWED { AllowedIsNoFamily(id, id); }
    if Base(id) in ALLOWED { AllowedIsNoFamily(Base(id), id); }
  }

  /** The policy denies the family outright. The code denies one of it exactly when its name is not run
      together with what follows, as the version is in GPLv3; that it leaves to review. */
  lemma FamilyIsDeniedExactly(wide: Wide, id: Token)
    requires IsWord(id) && Family(id)
    ensures ClassifyAtom(wide, id) == if NameEnds(wide, id) then Deny else Review
  {
    hide GplMatch, Base, NameEnds;
    WordsAreTrimmed(id);
    GplMatchIs(wide, id);
    AllowedExactly(wide, id);
    if id in ALLOWED { AllowedIsNoFamily(id, id); }
    if Base(id) in ALLOWED { AllowedIsNoFamily(Base(id), id); }
    assert !StartsLike(id, "LAGPL") by { FamilyIsNotBoth(id); }
  }

  lemma FamilyIsNotBoth(id: Token)
    requires Family(id)
    ensures !StartsLike(id, "LAGPL")
  {
    assert "LAGPL"[0] == 'L' && "LAGPL"[1] == 'A';
  }

  // ---- the policy on an expression ---------------------------------------------------------------------

  function Policy(wide: Wide): Judge {
    id => ClassifyAtom(wide, id)
  }

  /** What is judged are identifiers among the tokens. */
  lemma {:induction false} ClauseTokens(e: Alternatives, x: Clause, id: Token)
    requires GoodAlternatives(e) && x in Clauses(e) && id in x
    ensures IdToken(id) && id in Show(e)
    decreases e, 2
  {
    match e
    case Single(c) => ConjunctTokens(c, x, id);
    case Or(c, more) =>
      if x in ConjunctionClauses(c) { ConjunctTokens(c, x, id); } else { ClauseTokens(more, x, id); }
  }

  lemma {:induction false} ConjunctTokens(c: Conjunction, x: Clause, id: Token)
    requires GoodConjunction(c) && x in ConjunctionClauses(c) && id in x
    ensures IdToken(id) && id in ShowConjunction(c)
    decreases c, 1
  {
    match c
    case Lone(a) => AtomTokens(a, x, id);
    case And(a, rest) =>
      ProductsHold(AtomClauses(a), ConjunctionClauses(rest), x);
      var y, z :| y in AtomClauses(a) && z in ConjunctionClauses(rest) && x == y + z;
      if id in y { AtomTokens(a, y, id); } else { ConjunctTokens(rest, z, id); }
  }

  lemma {:induction false} AtomTokens(a: Atom, x: Clause, id: Token)
    requires GoodAtom(a) && x in AtomClauses(a) && id in x
    ensures IdToken(id) && id in ShowAtom(a)
    decreases a, 0
  {
    if a.Group? { ClauseTokens(a.inner, x, id); }
  }

  predicate OnTheList(id: Token) {
    id in ALLOWED || (EndsInPlus(id) && Base(id) in ALLOWED)
  }

  /** So they are words. */
  lemma JudgedIsWord(expr: string, x: Clause, id: Token)
    requires Parse(Tokens([], expr)).Some? && x in Clauses(Parse(Tokens([], expr)).value) && id in x
    ensures IsWord(id)
  {
    hide Clauses, Parse, Tokens, GoodAlternatives;
    var ts := Tokens([], expr);
    ParseExactly(ts, Parse(ts).value);
    ClauseTokens(Parse(ts).value, x, id);
    TokensAreTokens([], expr);
  }

  /** The audit allows a text exactly when one of its alternatives is on the closed list throughout. */
  lemma TextAllowedExactly(wide: Wide, expr: string)
    requires Parse(Tokens([], expr)).Some?
    ensures
      var e := Parse(Tokens([], expr)).value;
      Meaning(Policy(wide), e) == Allow <==> exists x :: x in Clauses(e) && forall id :: id in x ==> OnTheList(id)
  {
    hide ClassifyAtom, OnTheList, Parse, Clauses, Meaning, Tokens;
    var e := Parse(Tokens([], expr)).value;
    VerdictsMeanWhatTheySay(Policy(wide), e);
    forall x, id | x in Clauses(e) && id in x ensures Policy(wide)(id) == Allow <==> OnTheList(id) {
      JudgedIsWord(expr, x, id);
      IsOnTheList(wide, id);
    }
  }

  lemma IsOnTheList(wide: Wide, id: Token)
    requires IsWord(id)
    ensures Policy(wide)(id) == Allow <==> OnTheList(id)
  {
    AllowedExactly(wide, id);
  }

  /** A license of the GPL family whose name is not run together with what follows, or LAGPL. */
  predicate Denied(wide: Wide, id: Token) {
    (Family(id) && NameEnds(wide, id)) || (StartsLike(id, "LAGPL") && (|id| > 5 ==> !IsWordChar(wide, id[5])))
  }

  lemma DeniedExactly(wide: Wide, id: Token)
    requires IsWord(id)
    ensures Policy(wide)(id) == Deny <==> Denied(wide, id)
  {
    hide GplMatch, Base, Family, NameEnds, StartsLike;
    WordsAreTrimmed(id);
    GplMatchIs(wide, id);
  }

  /** And denies it exactly when every alternative needs a license the code denies. */
  lemma TextDeniedExactly(wide: Wide, expr: string)
    requires Parse(Tokens([], expr)).Some?
    ensures
      var e := Parse(Tokens([], expr)).value;
      Meaning(Policy(wide), e) == Deny <==> forall x :: x in Clauses(e) ==> exists id :: id in x && Denied(wide, id)
  {
    hide ClassifyAtom, Denied, Parse, Clauses, Meaning, Tokens;
    var e := Parse(Tokens([], expr)).value;
    VerdictsMeanWhatTheySay(Policy(wide), e);
    forall x, id | x in Clauses(e) && id in x ensures Policy(wide)(id) == Deny <==> Denied(wide, id) {
      JudgedIsWord(expr, x, id);
      DeniedExactly(wide, id);
    }
  }

  /** Whatever the spelling, a text each of whose alternatives needs a license of the GPL family is never
      allowed. */
  lemma NothingGplIsAllowed(wide: Wide, expr: string)
    requires Parse(Tokens([], expr)).Some?
    requires forall x :: x in Clauses(Parse(Tokens([], expr)).value) ==> exists id :: id in x && Family(id)
    ensures Meaning(Policy(wide), Parse(Tokens([], expr)).value) != Allow
  {
    hide OnTheList, Parse, Clauses, Meaning, Family, Tokens;
    TextAllowedExactly(wide, expr);
    forall id | OnTheList(id) ensures !Family(id) { ListedIsNoFamily(id); }
  }

  /** eval_spdx_expression under the policy. */
  method Audit(wide: Wide, expr: string) returns (r: Option<Verdict>)
    ensures r.Some? <==> Parse(Tokens([], expr)).Some?
    ensures r == Some(Allow) <==>
              Parse(Tokens([], expr)).Some?
              && exists x :: x in Clauses(Parse(Tokens([], expr)).value) && forall id :: id in x ==> OnTheList(id)
    ensures r == Some(Deny) <==>
              Parse(Tokens([], expr)).Some?
              && forall x :: x in Clauses(Parse(Tokens([], expr)).value) ==> exists id :: id in x && Denied(wide, id)
  {
    hide OnTheList, Denied, Clauses, Meaning, Parse, Tokens;
    r := Evaluate(Policy(wide), expr);
    if r.Some? {
      TextAllowedExactly(wide, expr);
      TextDeniedExactly(wide, expr);
    }
  }

  lemma ListedIsNoFamily(id: Token)
    requires OnTheList(id)
    ensures !Family(id)
  {
    hide Family, Base;
    AllowedIsNoFamily(if id in ALLOWED then id else Base(id), id);
  }
}
