/** SPDX license expressions (tools/supply-audit/licenses.py): tokens, grammar, meaning. */
module Spdx {
  import opened Wrappers

  datatype Verdict = Deny | Review | Allow

  function Rank(v: Verdict): nat {
    match v
    case Deny => 0
    case Review => 1
    case Allow => 2
  }

  function Best(v: Verdict, w: Verdict): Verdict {
    if Rank(v) >= Rank(w) then v else w
  }

  function Worst(v: Verdict, w: Verdict): Verdict {
    if Rank(v) <= Rank(w) then v else w
  }

  // ---- tokens ---------------------------------------------------------------------------

  type Token = string

  /** `str.isspace` on one character. */
  predicate IsSpace(c: char) {
    var u := c as int;
    9 <= u <= 13 || 0x1C <= u <= 0x20 || u == 0x85 || u == 0xA0 || u == 0x1680 || 0x2000 <= u <= 0x200A
    || u == 0x2028 || u == 0x2029 || u == 0x202F || u == 0x205F || u == 0x3000
  }

  predicate IsParen(c: char) { c == '(' || c == ')' }

  predicate IsWord(t: Token) {
    t != [] && forall i :: 0 <= i < |t| ==> !IsSpace(t[i]) && !IsParen(t[i])
  }

  predicate IsToken(t: Token) {
    t == "(" || t == ")" || IsWord(t)
  }

  function Flushed(tokens: seq<Token>, buf: Token): seq<Token> {
    if buf == [] then tokens else tokens + [buf]
  }

  /** The rest of the tokens when `buf` has been collected so far. */
  function Tokens(buf: Token, s: string): seq<Token>
    decreases |s|
  {
    if s == [] then Flushed([], buf)
    else if IsParen(s[0]) then Flushed([], buf) + [[s[0]]] + Tokens([], s[1..])
    else if IsSpace(s[0]) then Flushed([], buf) + Tokens([], s[1..])
    else Tokens(buf + [s[0]], s[1..])
  }

  method Tokenize(expr: string) returns (tokens: seq<Token>)
    ensures tokens == Tokens([], expr)
  {
    tokens := [];
    var buf: Token := [];
    var i := 0;
    assert expr[0..] == expr;
    hide Tokens;
    while i < |expr|
      invariant 0 <= i <= |expr|
      invariant Tokens([], expr) == tokens + Tokens(buf, expr[i..])
    {
      var ch := expr[i];
      assert expr[i..][1..] == expr[i + 1..];
      TokensStep(tokens, buf, expr[i..]);
      if IsParen(ch) {
        if buf != [] {
          tokens := tokens + [buf];
          buf := [];
        }
        tokens := tokens + [[ch]];
      } else if IsSpace(ch) {
        if buf != [] {
          tokens := tokens + [buf];
          buf := [];
        }
      } else {
        buf := buf + [ch];
      }
      i := i + 1;
    }
    TokensEnd(tokens, buf, expr[i..]);
    if buf != [] {
      tokens := tokens + [buf];
    }
  }

  lemma Concat(a: seq<Token>, b: seq<Token>, c: seq<Token>)
    ensures a + (b + c) == (a + b) + c
  {}

  lemma FlushedFirst(tokens: seq<Token>, buf: Token)
    ensures tokens + Flushed([], buf) == Flushed(tokens, buf)
  {}

  lemma TokensStep(tokens: seq<Token>, buf: Token, s: string)
    requires s != []
    ensures tokens + Tokens(buf, s)
         == if IsParen(s[0]) then (Flushed(tokens, buf) + [[s[0]]]) + Tokens([], s[1..])
            else if IsSpace(s[0]) then Flushed(tokens, buf) + Tokens([], s[1..])
            else tokens + Tokens(buf + [s[0]], s[1..])
  {
    hide IsParen, IsSpace, Flushed;
    var more := Tokens([], s[1..]);
    FlushedFirst(tokens, buf);
    if IsParen(s[0]) {
      Concat(tokens, Flushed([], buf) + [[s[0]]], more);
      Concat(tokens, Flushed([], buf), [[s[0]]]);
    } else if IsSpace(s[0]) {
      Concat(tokens, Flushed([], buf), more);
    }
  }

  lemma TokensEnd(tokens: seq<Token>, buf: Token, s: string)
    requires s == []
    ensures tokens + Tokens(buf, s) == if buf == [] then tokens else tokens + [buf]
  {}

  /** Tokens separated by single spaces. */
  function Spaced(tokens: seq<Token>): string {
    if tokens == [] then [] else tokens[0] + " " + Spaced(tokens[1..])
  }

  lemma {:induction false} WordIsCollected(buf: Token, word: Token, rest: string)
    requires forall i :: 0 <= i < |word| ==> !IsSpace(word[i]) && !IsParen(word[i])
    ensures Tokens(buf, word + rest) == Tokens(buf + word, rest)
    decreases |word|
  {
    if word == [] {
      assert word + rest == rest && buf + word == buf;
    } else {
      assert (word + rest)[1..] == word[1..] + rest;
      WordIsCollected(buf + [word[0]], word[1..], rest);
      assert buf + [word[0]] + word[1..] == buf + word;
    }
  }

  /** The tokenizer gives back any list of tokens written with spaces between them. */
  lemma {:induction false} TokensOfSpaced(tokens: seq<Token>)
    requires forall i :: 0 <= i < |tokens| ==> IsToken(tokens[i])
    ensures Tokens([], Spaced(tokens)) == tokens
  {
    if tokens != [] {
      var t, more := tokens[0], Spaced(tokens[1..]);
      TokensOfSpaced(tokens[1..]);
      assert (" " + more)[1..] == more;
      assert Spaced(tokens) == t + (" " + more);
      if IsWord(t) {
        WordIsCollected([], t, " " + more);
        assert [] + t == t;
      } else {
        assert (t + (" " + more))[1..] == " " + more;
      }
      assert tokens == [t] + tokens[1..];
    }
  }

  /** It never makes anything but parentheses and words. */
  lemma {:induction false} TokensAreTokens(buf: Token, s: string)
    requires buf == [] || IsWord(buf)
    ensures forall t :: t in Tokens(buf, s) ==> IsToken(t)
    decreases |s|
  {
    if s != [] {
      if IsParen(s[0]) || IsSpace(s[0]) { TokensAreTokens([], s[1..]); } else { TokensAreTokens(buf + [s[0]], s[1..]); }
    }
  }

  // ---- grammar -----------------------------------------------------------------------------

  /** The grammar the code implements: alternatives of conjunctions of atoms. */
  datatype Alternatives = Single(conj: Conjunction) | Or(head: Conjunction, more: Alternatives)
  datatype Conjunction = Lone(atom: Atom) | And(first: Atom, rest: Conjunction)
  datatype Atom = License(id: Token) | With(base: Token, exception: Token) | Group(inner: Alternatives)

  /** What the parser takes for an identifier; note that WITH passes. */
  predicate IdToken(t: Token) { t != "(" && t != ")" && t != "AND" && t != "OR" }

  /** What it takes for an exception name; note that an opening parenthesis passes. */
  predicate ExceptionToken(t: Token) { t != ")" && t != "AND" && t != "OR" && t != "WITH" }

  predicate GoodAlternatives(e: Alternatives) {
    match e
    case Single(c) => GoodConjunction(c)
    case Or(c, more) => GoodConjunction(c) && GoodAlternatives(more)
  }

  predicate GoodConjunction(c: Conjunction) {
    match c
    case Lone(a) => GoodAtom(a)
    case And(a, rest) => GoodAtom(a) && GoodConjunction(rest)
  }

  predicate GoodAtom(a: Atom) {
    match a
    case License(id) => IdToken(id)
    case With(base, exception) => IdToken(base) && ExceptionToken(exception)
    case Group(e) => GoodAlternatives(e)
  }

  function Show(e: Alternatives): seq<Token> {
    match e
    case Single(c) => ShowConjunction(c)
    case Or(c, more) => ShowConjunction(c) + ["OR"] + Show(more)
  }

  function ShowConjunction(c: Conjunction): seq<Token> {
    match c
    case Lone(a) => ShowAtom(a)
    case And(a, rest) => ShowAtom(a) + ["AND"] + ShowConjunction(rest)
  }

  function ShowAtom(a: Atom): seq<Token> {
    match a
    case License(id) => [id]
    case With(base, exception) => [base, "WITH", exception]
    case Group(e) => ["("] + Show(e) + [")"]
  }

  /** The meaning of an expression, given the verdict on each identifier. */
  function Meaning(judge: Token -> Verdict, e: Alternatives): Verdict {
    match e
    case Single(c) => ConjunctionMeaning(judge, c)
    case Or(c, more) => Best(ConjunctionMeaning(judge, c), Meaning(judge, more))
  }

  function ConjunctionMeaning(judge: Token -> Verdict, c: Conjunction): Verdict {
    match c
    case Lone(a) => AtomMeaning(judge, a)
    case And(a, rest) => Worst(AtomMeaning(judge, a), ConjunctionMeaning(judge, rest))
  }

  function AtomMeaning(judge: Token -> Verdict, a: Atom): Verdict {
    match a
    case License(id) => judge(id)
    case With(base, _) => judge(base)
    case Group(e) => Meaning(judge, e)
  }

  // ---- parsing -------------------------------------------------------------------------------

  function ParseAlternatives(ts: seq<Token>): (r: Option<(Alternatives, seq<Token>)>)
    ensures r.Some? ==> |r.value.1| < |ts|
    decreases |ts|, 2
  {
    match ParseConjunction(ts)
    case None => None
    case Some((c, rest)) =>
      if rest == [] || rest[0] != "OR" then Some((Single(c), rest))
      else
        match ParseAlternatives(rest[1..])
        case None => None
        case Some((more, end)) => Some((Or(c, more), end))
  }

  function ParseConjunction(ts: seq<Token>): (r: Option<(Conjunction, seq<Token>)>)
    ensures r.Some? ==> |r.value.1| < |ts|
    decreases |ts|, 1
  {
    match ParseAtom(ts)
    case None => None
    case Some((a, rest)) =>
      if rest == [] || rest[0] != "AND" then Some((Lone(a), rest))
      else
        match ParseConjunction(rest[1..])
        case None => None
        case Some((more, end)) => Some((And(a, more), end))
  }

  function ParseAtom(ts: seq<Token>): (r: Option<(Atom, seq<Token>)>)
    ensures r.Some? ==> |r.value.1| < |ts|
    decreases |ts|, 0
  {
    if ts == [] then None
    else if ts[0] == "(" then
      match ParseAlternatives(ts[1..])
      case None => None
      case Some((e, rest)) => if rest == [] || rest[0] != ")" then None else Some((Group(e), rest[1..]))
    else if ts[0] == "AND" || ts[0] == "OR" || ts[0] == ")" then None
    else if |ts| >= 2 && ts[1] == "WITH" then
      if |ts| >= 3 && ExceptionToken(ts[2]) then Some((With(ts[0], ts[2]), ts[3..])) else None
    else Some((License(ts[0]), ts[1..]))
  }

  /** The whole list must be used. */
  function Parse(ts: seq<Token>): Option<Alternatives> {
    match ParseAlternatives(ts)
    case None => None
    case Some((e, rest)) => if rest == [] then Some(e) else None
  }

  // ---- parsing inverts showing -----------------------------------------------------------------

  /** What may follow an expression without being taken into it. */
  predicate Closes(rest: seq<Token>) {
    rest != [] ==> rest[0] != "WITH" && rest[0] != "AND" && rest[0] != "OR"
  }

  lemma {:induction false} ParseShown(e: Alternatives, rest: seq<Token>)
    requires GoodAlternatives(e) && Closes(rest)
    ensures ParseAlternatives(Show(e) + rest) == Some((e, rest))
    decreases e, 2
  {
    match e
    case Single(c) =>
      ParseShownConjunction(c, rest);
    case Or(c, more) =>
      var tail := ["OR"] + (Show(more) + rest);
      assert Show(e) + rest == ShowConjunction(c) + tail;
      ParseShownConjunction(c, tail);
      assert tail[1..] == Show(more) + rest;
      ParseShown(more, rest);
  }

  lemma {:induction false} ParseShownConjunction(c: Conjunction, rest: seq<Token>)
    requires GoodConjunction(c) && (rest != [] ==> rest[0] != "WITH" && rest[0] != "AND")
    ensures ParseConjunction(ShowConjunction(c) + rest) == Some((c, rest))
    decreases c, 1
  {
    match c
    case Lone(a) =>
      ParseShownAtom(a, rest);
    case And(a, more) =>
      var tail := ["AND"] + (ShowConjunction(more) + rest);
      assert ShowConjunction(c) + rest == ShowAtom(a) + tail;
      ParseShownAtom(a, tail);
      assert tail[1..] == ShowConjunction(more) + rest;
      ParseShownConjunction(more, rest);
  }

  lemma {:induction false} ParseShownAtom(a: Atom, rest: seq<Token>)
    requires GoodAtom(a) && (rest != [] ==> rest[0] != "WITH")
    ensures ParseAtom(ShowAtom(a) + rest) == Some((a, rest))
    decreases a, 0
  {
    match a
    case License(id) =>
      assert ([id] + rest)[1..] == rest;
    case With(base, exception) =>
      assert ([base, "WITH", exception] + rest)[3..] == rest;
    case Group(e) =>
      var tail := [")"] + rest;
      assert ShowAtom(a) + rest == ["("] + (Show(e) + tail);
      assert (["("] + (Show(e) + tail))[1..] == Show(e) + tail;
      ParseShown(e, tail);
      assert tail[1..] == rest;
  }

  lemma Regroup(a: seq<Token>, b: seq<Token>, c: seq<Token>, d: seq<Token>)
    ensures ((a + b) + c) + d == a + (b + (c + d))
  {}

  lemma {:induction false} ShowParsed(ts: seq<Token>)
    ensures ParseAlternatives(ts).Some? ==>
              GoodAlternatives(ParseAlternatives(ts).value.0)
              && Show(ParseAlternatives(ts).value.0) + ParseAlternatives(ts).value.1 == ts
    decreases |ts|, 2
  {
    hide GoodConjunction, ShowConjunction, ParseConjunction;
    ShowParsedConjunction(ts);
    if ParseAlternatives(ts).Some? {
      var (c, rest) := ParseConjunction(ts).value;
      if rest != [] && rest[0] == "OR" {
        ShowParsed(rest[1..]);
        var (more, end) := ParseAlternatives(rest[1..]).value;
        assert rest == ["OR"] + rest[1..];
        Regroup(ShowConjunction(c), ["OR"], Show(more), end);
      }
    }
  }

  lemma {:induction false} ShowParsedConjunction(ts: seq<Token>)
    ensures ParseConjunction(ts).Some? ==>
              GoodConjunction(ParseConjunction(ts).value.0)
              && ShowConjunction(ParseConjunction(ts).value.0) + ParseConjunction(ts).value.1 == ts
    decreases |ts|, 1
  {
    hide GoodAtom, ShowAtom, ParseAtom;
    ShowParsedAtom(ts);
    if ParseConjunction(ts).Some? {
      var (a, rest) := ParseAtom(ts).value;
      if rest != [] && rest[0] == "AND" {
        ShowParsedConjunction(rest[1..]);
        var (more, end) := ParseConjunction(rest[1..]).value;
        assert rest == ["AND"] + rest[1..];
        Regroup(ShowAtom(a), ["AND"], ShowConjunction(more), end);
      }
    }
  }

  lemma {:induction false} ShowParsedAtom(ts: seq<Token>)
    ensures ParseAtom(ts).Some? ==>
              GoodAtom(ParseAtom(ts).value.0) && ShowAtom(ParseAtom(ts).value.0) + ParseAtom(ts).value.1 == ts
    decreases |ts|, 0
  {
    if ParseAtom(ts).Some? {
      if ts[0] == "(" {
        ShowParsed(ts[1..]);
        var (e, rest) := ParseAlternatives(ts[1..]).value;
        assert rest == [")"] + rest[1..] && ts == ["("] + ts[1..];
        Regroup(["("], Show(e), [")"], rest[1..]);
      } else if |ts| >= 2 && ts[1] == "WITH" {
        assert ts == [ts[0], "WITH", ts[2]] + ts[3..];
      } else {
        assert ts == [ts[0]] + ts[1..];
      }
    }
  }

  /** A token list is accepted exactly when it writes some expression, which is then the only one and
      the one parsed; the rest is rejected, never half used. */
  lemma ParseExactly(ts: seq<Token>, e: Alternatives)
    ensures Parse(ts) == Some(e) <==> (GoodAlternatives(e) && Show(e) == ts)
  {
    ShowParsed(ts);
    assert Show(e) + [] == Show(e);
    if Parse(ts) == Some(e) { assert ParseAlternatives(ts).value.1 == []; }
    if GoodAlternatives(e) && Show(e) == ts { ParseShown(e, []); }
  }
}
