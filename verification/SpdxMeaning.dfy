/** What a verdict says about the licenses an expression offers. */
module SpdxMeaning {
  import opened Wrappers
  import opened Spdx
  import opened SpdxVerdict

  // ---- expressions as AND/OR trees ---------------------------------------------------------

  /** An expression as written down by hand: identifiers joined by the two operators. */
  datatype Tree = Leaf(id: Token) | Both(left: Tree, right: Tree) | Either(left: Tree, right: Tree)

  predicate GoodTree(t: Tree) {
    match t
    case Leaf(id) => IdToken(id)
    case Both(l, r) => GoodTree(l) && GoodTree(r)
    case Either(l, r) => GoodTree(l) && GoodTree(r)
  }

  function TreeMeaning(judge: Judge, t: Tree): Verdict {
    match t
    case Leaf(id) => judge(id)
    case Both(l, r) => Worst(TreeMeaning(judge, l), TreeMeaning(judge, r))
    case Either(l, r) => Best(TreeMeaning(judge, l), TreeMeaning(judge, r))
  }

  /** Written with parentheses only around an OR below an AND. */
  function Write(t: Tree): seq<Token>
    decreases t, 0
  {
    match t
    case Leaf(id) => [id]
    case Both(l, r) => WriteConjunct(l) + ["AND"] + WriteConjunct(r)
    case Either(l, r) => Write(l) + ["OR"] + Write(r)
  }

  function WriteConjunct(t: Tree): seq<Token>
    decreases t, 1
  {
    if t.Either? then ["("] + Write(t) + [")"] else Write(t)
  }

  function Join(e: Alternatives, f: Alternatives): Alternatives {
    match e
    case Single(c) => Or(c, f)
    case Or(c, more) => Or(c, Join(more, f))
  }

  function Chain(c: Conjunction, d: Conjunction): Conjunction {
    match c
    case Lone(a) => And(a, d)
    case And(a, rest) => And(a, Chain(rest, d))
  }

  /** The grammar's reading of a tree. */
  function Read(t: Tree): Alternatives
    decreases t, 1
  {
    if t.Either? then Join(Read(t.left), Read(t.right)) else Single(ReadConjunction(t))
  }

  function ReadConjunction(t: Tree): Conjunction
    decreases t, 0
  {
    match t
    case Leaf(id) => Lone(License(id))
    case Both(l, r) => Chain(ReadConjunction(l), ReadConjunction(r))
    case Either(l, r) => Lone(Group(Join(Read(l), Read(r))))
  }

  lemma {:induction false} JoinLaws(judge: Judge, e: Alternatives, f: Alternatives)
    ensures Show(Join(e, f)) == Show(e) + ["OR"] + Show(f)
    ensures GoodAlternatives(e) && GoodAlternatives(f) ==> GoodAlternatives(Join(e, f))
    ensures Meaning(judge, Join(e, f)) == Best(Meaning(judge, e), Meaning(judge, f))
  {
    if e.Or? {
      JoinLaws(judge, e.more, f);
      Regroup(ShowConjunction(e.head), ["OR"], Show(e.more), ["OR"] + Show(f));
      hide ShowConjunction, ConjunctionMeaning, GoodConjunction;
      assert ShowConjunction(e.head) + ["OR"] + (Show(e.more) + ["OR"] + Show(f))
          == ShowConjunction(e.head) + ["OR"] + Show(e.more) + ["OR"] + Show(f);
    }
  }

  lemma {:induction false} ChainLaws(judge: Judge, c: Conjunction, d: Conjunction)
    ensures ShowConjunction(Chain(c, d)) == ShowConjunction(c) + ["AND"] + ShowConjunction(d)
    ensures GoodConjunction(c) && GoodConjunction(d) ==> GoodConjunction(Chain(c, d))
    ensures ConjunctionMeaning(judge, Chain(c, d)) == Worst(ConjunctionMeaning(judge, c), ConjunctionMeaning(judge, d))
  {
    if c.And? {
      ChainLaws(judge, c.rest, d);
      hide ShowAtom, AtomMeaning, GoodAtom;
      assert ShowAtom(c.first) + ["AND"] + (ShowConjunction(c.rest) + ["AND"] + ShowConjunction(d))
          == ShowAtom(c.first) + ["AND"] + ShowConjunction(c.rest) + ["AND"] + ShowConjunction(d);
    }
  }

  lemma {:induction false} ReadLaws(judge: Judge, t: Tree)
    requires GoodTree(t)
    ensures GoodAlternatives(Read(t)) && Show(Read(t)) == Write(t) && Meaning(judge, Read(t)) == TreeMeaning(judge, t)
    decreases t, 1
  {
    if t.Either? {
      ReadLaws(judge, t.left);
      ReadLaws(judge, t.right);
      JoinLaws(judge, Read(t.left), Read(t.right));
    } else {
      ReadConjunctionLaws(judge, t);
    }
  }

  lemma {:induction false} ReadConjunctionLaws(judge: Judge, t: Tree)
    requires GoodTree(t)
    ensures GoodConjunction(ReadConjunction(t)) && ShowConjunction(ReadConjunction(t)) == WriteConjunct(t)
    ensures ConjunctionMeaning(judge, ReadConjunction(t)) == TreeMeaning(judge, t)
    decreases t, 0
  {
    match t
    case Leaf(id) =>
    case Both(l, r) =>
      ReadConjunctionLaws(judge, l);
      ReadConjunctionLaws(judge, r);
      ChainLaws(judge, ReadConjunction(l), ReadConjunction(r));
    case Either(l, r) =>
      ReadLaws(judge, l);
      ReadLaws(judge, r);
      JoinLaws(judge, Read(l), Read(r));
  }

  /** AND binds tighter than OR: a tree written with parentheses only around ORs below ANDs is parsed
      whole and gets its own meaning. */
  lemma WrittenTreesKeepTheirMeaning(judge: Judge, t: Tree)
    requires GoodTree(t)
    ensures Parse(Write(t)).Some? && Meaning(judge, Parse(Write(t)).value) == TreeMeaning(judge, t)
  {
    ReadLaws(judge, t);
    ParseExactly(Write(t), Read(t));
  }

  // ---- disjunctive normal form ------------------------------------------------------------------

  /** A clause is one way to satisfy the expression: the identifiers it takes on together. */
  type Clause = seq<Token>

  function Clauses(e: Alternatives): seq<Clause> {
    match e
    case Single(c) => ConjunctionClauses(c)
    case Or(c, more) => ConjunctionClauses(c) + Clauses(more)
  }

  function ConjunctionClauses(c: Conjunction): seq<Clause> {
    match c
    case Lone(a) => AtomClauses(a)
    case And(a, rest) => Products(AtomClauses(a), ConjunctionClauses(rest))
  }

  function AtomClauses(a: Atom): seq<Clause> {
    match a
    case License(id) => [[id]]
    case With(base, _) => [[base]]
    case Group(e) => Clauses(e)
  }

  /** Every clause of xs together with every clause of ys. */
  function Products(xs: seq<Clause>, ys: seq<Clause>): seq<Clause> {
    if xs == [] then [] else Extended(xs[0], ys) + Products(xs[1..], ys)
  }

  function Extended(x: Clause, ys: seq<Clause>): (r: seq<Clause>)
    ensures |r| == |ys| && forall i :: 0 <= i < |ys| ==> r[i] == x + ys[i]
  {
    if ys == [] then [] else [x + ys[0]] + Extended(x, ys[1..])
  }

  lemma {:induction false} ProductsHold(xs: seq<Clause>, ys: seq<Clause>, z: Clause)
    ensures z in Products(xs, ys) <==> exists x, y :: x in xs && y in ys && z == x + y
  {
    if xs != [] {
      ProductsHold(xs[1..], ys, z);
      if z in Extended(xs[0], ys) {
        var i :| 0 <= i < |ys| && Extended(xs[0], ys)[i] == z;
        assert xs[0] in xs && ys[i] in ys;
      }
      if x, y :| x in xs && y in ys && z == x + y {
        if x == xs[0] {
          var i :| 0 <= i < |ys| && ys[i] == y;
          assert Extended(xs[0], ys)[i] == z;
        } else {
          assert x in xs[1..];
        }
      }
    }
  }

  /** No identifier of the clause is worse than v. */
  ghost predicate AllAtLeast(judge: Judge, v: Verdict, x: Clause) {
    forall id :: id in x ==> Rank(judge(id)) >= Rank(v)
  }

  ghost predicate SomeClause(judge: Judge, v: Verdict, xs: seq<Clause>) {
    exists x :: x in xs && AllAtLeast(judge, v, x)
  }

  lemma SomeOfProducts(judge: Judge, v: Verdict, xs: seq<Clause>, ys: seq<Clause>)
    ensures SomeClause(judge, v, Products(xs, ys)) <==> SomeClause(judge, v, xs) && SomeClause(judge, v, ys)
  {
    if SomeClause(judge, v, Products(xs, ys)) {
      var z :| z in Products(xs, ys) && AllAtLeast(judge, v, z);
      ProductsHold(xs, ys, z);
      var x, y :| x in xs && y in ys && z == x + y;
      assert AllAtLeast(judge, v, x) && AllAtLeast(judge, v, y);
    }
    if SomeClause(judge, v, xs) && SomeClause(judge, v, ys) {
      var x :| x in xs && AllAtLeast(judge, v, x);
      var y :| y in ys && AllAtLeast(judge, v, y);
      ProductsHold(xs, ys, x + y);
      assert AllAtLeast(judge, v, x + y);
    }
  }

  lemma SomeOfBoth(judge: Judge, v: Verdict, xs: seq<Clause>, ys: seq<Clause>)
    ensures SomeClause(judge, v, xs + ys) <==> SomeClause(judge, v, xs) || SomeClause(judge, v, ys)
  {
    if SomeClause(judge, v, xs) { var x :| x in xs && AllAtLeast(judge, v, x); assert x in xs + ys; }
    if SomeClause(judge, v, ys) { var y :| y in ys && AllAtLeast(judge, v, y); assert y in xs + ys; }
  }

  lemma SomeOfOne(judge: Judge, v: Verdict, id: Token)
    ensures SomeClause(judge, v, [[id]]) <==> Rank(judge(id)) >= Rank(v)
  {
    assert id in [id];
    if Rank(judge(id)) >= Rank(v) { assert AllAtLeast(judge, v, [id]) && [id] in [[id]]; }
  }

  /** The min/max fold reaches v exactly when some clause holds nothing worse than v. */
  lemma {:induction false} MeaningIsClauses(judge: Judge, v: Verdict, e: Alternatives)
    ensures Rank(Meaning(judge, e)) >= Rank(v) <==> SomeClause(judge, v, Clauses(e))
    decreases e, 2
  {
    hide SomeClause;
    match e
    case Single(c) => ConjunctionIsClauses(judge, v, c);
    case Or(c, more) =>
      ConjunctionIsClauses(judge, v, c);
      MeaningIsClauses(judge, v, more);
      SomeOfBoth(judge, v, ConjunctionClauses(c), Clauses(more));
  }

  lemma {:induction false} ConjunctionIsClauses(judge: Judge, v: Verdict, c: Conjunction)
    ensures Rank(ConjunctionMeaning(judge, c)) >= Rank(v) <==> SomeClause(judge, v, ConjunctionClauses(c))
    decreases c, 1
  {
    hide SomeClause;
    match c
    case Lone(a) => AtomIsClauses(judge, v, a);
    case And(a, rest) =>
      AtomIsClauses(judge, v, a);
      ConjunctionIsClauses(judge, v, rest);
      SomeOfProducts(judge, v, AtomClauses(a), ConjunctionClauses(rest));
  }

  lemma {:induction false} AtomIsClauses(judge: Judge, v: Verdict, a: Atom)
    ensures Rank(AtomMeaning(judge, a)) >= Rank(v) <==> SomeClause(judge, v, AtomClauses(a))
    decreases a, 0
  {
    hide SomeClause;
    match a
    case License(id) => SomeOfOne(judge, v, id);
    case With(base, _) => SomeOfOne(judge, v, base);
    case Group(e) => MeaningIsClauses(judge, v, e);
  }

  /** What the three reasons promise. Allow: some clause lies entirely in the allow list. Deny: every
      clause holds a denied license. Review: neither. */
  lemma VerdictsMeanWhatTheySay(judge: Judge, e: Alternatives)
    ensures Meaning(judge, e) == Allow <==> exists x :: x in Clauses(e) && forall id :: id in x ==> judge(id) == Allow
    ensures Meaning(judge, e) == Deny <==> forall x :: x in Clauses(e) ==> exists id :: id in x && judge(id) == Deny
  {
    hide Clauses, Meaning;
    MeaningIsClauses(judge, Allow, e);
    MeaningIsClauses(judge, Review, e);
    forall x ensures AllAtLeast(judge, Allow, x) <==> forall id :: id in x ==> judge(id) == Allow {
      if AllAtLeast(judge, Allow, x) {
        forall id | id in x ensures judge(id) == Allow { assert Rank(judge(id)) >= Rank(Allow); }
      }
    }
    forall x ensures AllAtLeast(judge, Review, x) <==> !exists id :: id in x && judge(id) == Deny {}
  }
}
