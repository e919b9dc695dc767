/** The parser object, and what the verdict of an expression means. */
module SpdxVerdict {
  import opened Wrappers
  import opened Spdx

  type Judge = Token -> Verdict

  /** What parsing computes: the verdict and the tokens left. */
  function AlternativesVerdict(judge: Judge, ts: seq<Token>): Option<(Verdict, seq<Token>)> {
    match ParseAlternatives(ts)
    case None => None
    case Some((e, rest)) => Some((Meaning(judge, e), rest))
  }

  function ConjunctionVerdict(judge: Judge, ts: seq<Token>): Option<(Verdict, seq<Token>)> {
    match ParseConjunction(ts)
    case None => None
    case Some((c, rest)) => Some((ConjunctionMeaning(judge, c), rest))
  }

  function AtomVerdict(judge: Judge, ts: seq<Token>): Option<(Verdict, seq<Token>)> {
    match ParseAtom(ts)
    case None => None
    case Some((a, rest)) => Some((AtomMeaning(judge, a), rest))
  }

  /** The outcome when v is the best of the alternatives parsed so far and ts is what is left. */
  function MoreAlternatives(judge: Judge, v: Verdict, ts: seq<Token>): Option<(Verdict, seq<Token>)> {
    if ts == [] || ts[0] != "OR" then Some((v, ts))
    else
      match AlternativesVerdict(judge, ts[1..])
      case None => None
      case Some((w, rest)) => Some((Best(v, w), rest))
  }

  function MoreConjuncts(judge: Judge, v: Verdict, ts: seq<Token>): Option<(Verdict, seq<Token>)> {
    if ts == [] || ts[0] != "AND" then Some((v, ts))
    else
      match ConjunctionVerdict(judge, ts[1..])
      case None => None
      case Some((w, rest)) => Some((Worst(v, w), rest))
  }

  lemma AlternativesStep(judge: Judge, ts: seq<Token>)
    ensures AlternativesVerdict(judge, ts)
         == match ConjunctionVerdict(judge, ts)
            case None => None
            case Some((v, rest)) => MoreAlternatives(judge, v, rest)
  {}

  lemma ConjunctionStep(judge: Judge, ts: seq<Token>)
    ensures ConjunctionVerdict(judge, ts)
         == match AtomVerdict(judge, ts)
            case None => None
            case Some((v, rest)) => MoreConjuncts(judge, v, rest)
  {}

  /** `max(verdicts, key=rank_verdict)`. */
  method Maximum(verdicts: seq<Verdict>) returns (v: Verdict)
    requires verdicts != []
    ensures v in verdicts && forall w :: w in verdicts ==> Rank(w) <= Rank(v)
  {
    v := verdicts[0];
    for i := 1 to |verdicts|
      invariant v in verdicts && forall k :: 0 <= k < i ==> Rank(verdicts[k]) <= Rank(v)
    {
      if Rank(verdicts[i]) > Rank(v) { v := verdicts[i]; }
    }
  }

  method Minimum(verdicts: seq<Verdict>) returns (v: Verdict)
    requires verdicts != []
    ensures v in verdicts && forall w :: w in verdicts ==> Rank(v) <= Rank(w)
  {
    v := verdicts[0];
    for i := 1 to |verdicts|
      invariant v in verdicts && forall k :: 0 <= k < i ==> Rank(v) <= Rank(verdicts[k])
    {
      if Rank(verdicts[i]) < Rank(v) { v := verdicts[i]; }
    }
  }

  /** The best of a list, as a fold. */
  function BestOf(verdicts: seq<Verdict>): (v: Verdict)
    requires verdicts != []
    ensures v in verdicts && forall w :: w in verdicts ==> Rank(w) <= Rank(v)
  {
    if |verdicts| == 1 then verdicts[0] else Best(BestOf(verdicts[..|verdicts| - 1]), verdicts[|verdicts| - 1])
  }

  function WorstOf(verdicts: seq<Verdict>): (v: Verdict)
    requires verdicts != []
    ensures v in verdicts && forall w :: w in verdicts ==> Rank(v) <= Rank(w)
  {
    if |verdicts| == 1 then verdicts[0] else Worst(WorstOf(verdicts[..|verdicts| - 1]), verdicts[|verdicts| - 1])
  }

  class Parser {
    const judge: Judge
    const tokens: seq<Token>
    var pos: nat

    constructor (judge: Judge, tokens: seq<Token>)
      ensures this.judge == judge && this.tokens == tokens && pos == 0
    {
      this.judge := judge;
      this.tokens := tokens;
      pos := 0;
    }

    ghost function Left(): seq<Token>
      requires pos <= |tokens|
      reads this
    {
      tokens[pos..]
    }

    predicate Sees(t: Token)
      reads this
    {
      pos < |tokens| && tokens[pos] == t
    }

    method ParseOr() returns (r: Option<Verdict>)
      requires pos <= |tokens|
      modifies this
      ensures old(pos) <= pos <= |tokens| && (r.Some? ==> old(pos) < pos)
      ensures AlternativesVerdict(judge, old(Left())) == if r.None? then None else Some((r.value, Left()))
      decreases |tokens| - pos, 2
    {
      AlternativesStep(judge, Left());
      var first := ParseAnd();
      if first.None? { return None; }
      var verdicts := [first.value];
      hide AlternativesVerdict, ConjunctionVerdict, MoreAlternatives, BestOf, Rank;
      BestOfOne(first.value);
      while Sees("OR")
        invariant old(pos) < pos <= |tokens| && verdicts != []
        invariant AlternativesVerdict(judge, old(Left())) == MoreAlternatives(judge, BestOf(verdicts), Left())
        decreases |tokens| - pos
      {
        AlternativesTurn(judge, BestOf(verdicts), Left());
        assert Left()[1..] == tokens[pos + 1..];
        pos := pos + 1;
        var next := ParseAnd();
        if next.None? { return None; }
        BestOfNext(verdicts, next.value);
        verdicts := verdicts + [next.value];
      }
      AlternativesEnd(judge, BestOf(verdicts), Left());
      var best := Maximum(verdicts);
      BestOfIs(verdicts, best);
      r := Some(best);
    }

    method ParseAnd() returns (r: Option<Verdict>)
      requires pos <= |tokens|
      modifies this
      ensures old(pos) <= pos <= |tokens| && (r.Some? ==> old(pos) < pos)
      ensures ConjunctionVerdict(judge, old(Left())) == if r.None? then None else Some((r.value, Left()))
      decreases |tokens| - pos, 1
    {
      ConjunctionStep(judge, Left());
      var first := ParseAtom();
      if first.None? { return None; }
      var verdicts := [first.value];
      hide ConjunctionVerdict, AtomVerdict, MoreConjuncts, WorstOf, Rank;
      WorstOfOne(first.value);
      while Sees("AND")
        invariant old(pos) < pos <= |tokens| && verdicts != []
        invariant ConjunctionVerdict(judge, old(Left())) == MoreConjuncts(judge, WorstOf(verdicts), Left())
        decreases |tokens| - pos
      {
        ConjunctionTurn(judge, WorstOf(verdicts), Left());
        assert Left()[1..] == tokens[pos + 1..];
        pos := pos + 1;
        var next := ParseAtom();
        if next.None? { return None; }
        WorstOfNext(verdicts, next.value);
        verdicts := verdicts + [next.value];
      }
      ConjunctionEnd(judge, WorstOf(verdicts), Left());
      var worst := Minimum(verdicts);
      WorstOfIs(verdicts, worst);
      r := Some(worst);
    }

    method ParseAtom() returns (r: Option<Verdict>)
      requires pos <= |tokens|
      modifies this
      ensures old(pos) <= pos <= |tokens| && (r.Some? ==> old(pos) < pos)
      ensures AtomVerdict(judge, old(Left())) == if r.None? then None else Some((r.value, Left()))
      decreases |tokens| - pos, 0
    {
      ghost var ts := Left();
      if pos == |tokens| { return None; }
      var tok := tokens[pos];
      pos := pos + 1;
      if tok == "(" {
        assert ts[1..] == Left();
        var inner := ParseOr();
        if inner.None? || pos == |tokens| { return None; }
        pos := pos + 1;
        if tokens[pos - 1] != ")" { return None; }
        assert tokens[pos - 1..][1..] == Left();
        return inner;
      }
      if tok == "AND" || tok == "OR" || tok == ")" { return None; }
      if Sees("WITH") {
        pos := pos + 1;
        if pos == |tokens| { return None; }
        var exception := tokens[pos];
        pos := pos + 1;
        if !ExceptionToken(exception) { return None; }
      }
      r := Some(judge(tok));
    }
  }

  lemma AlternativesTurn(judge: Judge, v: Verdict, ts: seq<Token>)
    requires ts != [] && ts[0] == "OR"
    ensures MoreAlternatives(judge, v, ts)
         == match ConjunctionVerdict(judge, ts[1..])
            case None => None
            case Some((w, rest)) => MoreAlternatives(judge, Best(v, w), rest)
  {
    AlternativesStep(judge, ts[1..]);
    hide AlternativesVerdict, ConjunctionVerdict;
  }

  lemma AlternativesEnd(judge: Judge, v: Verdict, ts: seq<Token>)
    requires ts == [] || ts[0] != "OR"
    ensures MoreAlternatives(judge, v, ts) == Some((v, ts))
  {}

  lemma ConjunctionTurn(judge: Judge, v: Verdict, ts: seq<Token>)
    requires ts != [] && ts[0] == "AND"
    ensures MoreConjuncts(judge, v, ts)
         == match AtomVerdict(judge, ts[1..])
            case None => None
            case Some((w, rest)) => MoreConjuncts(judge, Worst(v, w), rest)
  {
    ConjunctionStep(judge, ts[1..]);
    hide ConjunctionVerdict, AtomVerdict;
  }

  lemma ConjunctionEnd(judge: Judge, v: Verdict, ts: seq<Token>)
    requires ts == [] || ts[0] != "AND"
    ensures MoreConjuncts(judge, v, ts) == Some((v, ts))
  {}

  lemma BestOfOne(v: Verdict)
    ensures BestOf([v]) == v
  {}

  lemma BestOfNext(verdicts: seq<Verdict>, w: Verdict)
    requires verdicts != []
    ensures BestOf(verdicts + [w]) == Best(BestOf(verdicts), w)
  {
    assert (verdicts + [w])[..|verdicts|] == verdicts;
  }

  lemma BestOfIs(verdicts: seq<Verdict>, v: Verdict)
    requires v in verdicts && forall w :: w in verdicts ==> Rank(w) <= Rank(v)
    ensures BestOf(verdicts) == v
  {
    assert Rank(BestOf(verdicts)) == Rank(v);
  }

  lemma WorstOfOne(v: Verdict)
    ensures WorstOf([v]) == v
  {}

  lemma WorstOfNext(verdicts: seq<Verdict>, w: Verdict)
    requires verdicts != []
    ensures WorstOf(verdicts + [w]) == Worst(WorstOf(verdicts), w)
  {
    assert (verdicts + [w])[..|verdicts|] == verdicts;
  }

  lemma WorstOfIs(verdicts: seq<Verdict>, v: Verdict)
    requires v in verdicts && forall w :: w in verdicts ==> Rank(v) <= Rank(w)
    ensures WorstOf(verdicts) == v
  {
    assert Rank(WorstOf(verdicts)) == Rank(v);
  }

  /** eval_spdx_expression; None is the ValueError. */
  method Evaluate(judge: Judge, expr: string) returns (r: Option<Verdict>)
    ensures r == match Parse(Tokens([], expr)) case None => None case Some(e) => Some(Meaning(judge, e))
  {
    var tokens := Tokenize(expr);
    var parser := new Parser(judge, tokens);
    assert parser.Left() == tokens;
    var verdict := parser.ParseOr();
    if verdict.None? || parser.pos != |tokens| { return None; }
    r := verdict;
  }
}
