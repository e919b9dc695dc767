/** The grammar in the docstring of eval_spdx_expression (tools/supply-audit/licenses.py:119-121), in
    which OR binds tighter than AND, against the grammar of the code. */
module SpdxDocumented {
  import opened Wrappers
  import opened Spdx
  import opened SpdxVerdict

  // ---- the documented grammar --------------------------------------------------------------

  /** expr := and; and := or ("AND" or)* */
  datatype DocExpr = Only(run: DocOr) | Also(head: DocOr, more: DocExpr)
  /** or := atom ("OR" atom)* */
  datatype DocOr = One(atom: DocAtom) | Either(first: DocAtom, rest: DocOr)
  /** atom := id ["WITH" id] | "(" expr ")" */
  datatype DocAtom = Id(id: Token) | IdWith(base: Token, exception: Token) | Inner(inner: DocExpr)

  predicate GoodExpr(d: DocExpr) {
    match d
    case Only(o) => GoodOr(o)
    case Also(o, more) => GoodOr(o) && GoodExpr(more)
  }

  predicate GoodOr(o: DocOr) {
    match o
    case One(a) => GoodDocAtom(a)
    case Either(a, rest) => GoodDocAtom(a) && GoodOr(rest)
  }

  predicate GoodDocAtom(a: DocAtom) {
    match a
    case Id(id) => IdToken(id)
    case IdWith(base, exception) => IdToken(base) && ExceptionToken(exception)
    case Inner(d) => GoodExpr(d)
  }

  function ShowExpr(d: DocExpr): seq<Token> {
    match d
    case Only(o) => ShowOr(o)
    case Also(o, more) => ShowOr(o) + ["AND"] + ShowExpr(more)
  }

  function ShowOr(o: DocOr): seq<Token> {
    match o
    case One(a) => ShowDocAtom(a)
    case Either(a, rest) => ShowDocAtom(a) + ["OR"] + ShowOr(rest)
  }

  function ShowDocAtom(a: DocAtom): seq<Token> {
    match a
    case Id(id) => [id]
    case IdWith(base, exception) => [base, "WITH", exception]
    case Inner(d) => ["("] + ShowExpr(d) + [")"]
  }

  /** OR takes the best branch, AND the worst conjunct. */
  function DocMeaning(judge: Judge, d: DocExpr): Verdict {
    match d
    case Only(o) => OrMeaning(judge, o)
    case Also(o, more) => Worst(OrMeaning(judge, o), DocMeaning(judge, more))
  }

  function OrMeaning(judge: Judge, o: DocOr): Verdict {
    match o
    case One(a) => DocAtomMeaning(judge, a)
    case Either(a, rest) => Best(DocAtomMeaning(judge, a), OrMeaning(judge, rest))
  }

  function DocAtomMeaning(judge: Judge, a: DocAtom): Verdict {
    match a
    case Id(id) => judge(id)
    case IdWith(base, _) => judge(base)
    case Inner(d) => DocMeaning(judge, d)
  }

  // ---- rereading what the code has parsed ------------------------------------------------------

  /** a OR'ed to the first run of d. */
  function Attach(a: DocAtom, d: DocExpr): DocExpr {
    match d
    case Only(o) => Only(Either(a, o))
    case Also(o, more) => Also(Either(a, o), more)
  }

  function Reread(e: Alternatives): DocExpr
    decreases e, 2
  {
    match e
    case Single(c) => RereadConjunction(c)
    case Or(c, more) => RereadOnto(c, Reread(more))
  }

  function RereadConjunction(c: Conjunction): DocExpr
    decreases c, 1
  {
    match c
    case Lone(a) => Only(One(RereadAtom(a)))
    case And(a, rest) => Also(One(RereadAtom(a)), RereadConjunction(rest))
  }

  /** The conjunction c, then OR, then d. */
  function RereadOnto(c: Conjunction, d: DocExpr): DocExpr
    decreases c, 1
  {
    match c
    case Lone(a) => Attach(RereadAtom(a), d)
    case And(a, rest) => Also(One(RereadAtom(a)), RereadOnto(rest, d))
  }

  function RereadAtom(a: Atom): DocAtom
    decreases a, 0
  {
    match a
    case License(id) => Id(id)
    case With(base, exception) => IdWith(base, exception)
    case Group(e) => Inner(Reread(e))
  }

  // ---- and back ------------------------------------------------------------------------------------

  /** a AND'ed to the first conjunction of e. */
  function Conjoin(a: Atom, e: Alternatives): Alternatives {
    match e
    case Single(c) => Single(And(a, c))
    case Or(c, more) => Or(And(a, c), more)
  }

  function Back(d: DocExpr): Alternatives
    decreases d, 2
  {
    match d
    case Only(o) => BackOr(o)
    case Also(o, more) => BackOnto(o, Back(more))
  }

  function BackOr(o: DocOr): Alternatives
    decreases o, 1
  {
    match o
    case One(a) => Single(Lone(BackAtom(a)))
    case Either(a, rest) => Or(Lone(BackAtom(a)), BackOr(rest))
  }

  function BackOnto(o: DocOr, e: Alternatives): Alternatives
    decreases o, 1
  {
    match o
    case One(a) => Conjoin(BackAtom(a), e)
    case Either(a, rest) => Or(Lone(BackAtom(a)), BackOnto(rest, e))
  }

  function BackAtom(a: DocAtom): Atom
    decreases a, 0
  {
    match a
    case Id(id) => License(id)
    case IdWith(base, exception) => With(base, exception)
    case Inner(d) => Group(Back(d))
  }

  lemma {:induction false} RereadBack(d: DocExpr)
    ensures Reread(Back(d)) == d
    decreases d, 2
  {
    match d
    case Only(o) => RereadBackOr(o);
    case Also(o, more) =>
      RereadBack(more);
      RereadBackOnto(o, Back(more));
  }

  lemma {:induction false} RereadBackOr(o: DocOr)
    ensures Reread(BackOr(o)) == Only(o)
    decreases o, 1
  {
    match o
    case One(a) => RereadBackAtom(a);
    case Either(a, rest) =>
      RereadBackAtom(a);
      RereadBackOr(rest);
  }

  lemma {:induction false} RereadBackOnto(o: DocOr, e: Alternatives)
    ensures Reread(BackOnto(o, e)) == Also(o, Reread(e))
    decreases o, 1
  {
    match o
    case One(a) => RereadBackAtom(a);
    case Either(a, rest) =>
      RereadBackAtom(a);
      RereadBackOnto(rest, e);
  }

  lemma {:induction false} RereadBackAtom(a: DocAtom)
    ensures RereadAtom(BackAtom(a)) == a
    decreases a, 0
  {
    if a.Inner? { RereadBack(a.inner); }
  }

  // ---- one token list, one reading each ------------------------------------------------------------

  lemma ShowAttached(a: DocAtom, d: DocExpr)
    ensures ShowExpr(Attach(a, d)) == ShowDocAtom(a) + ["OR"] + ShowExpr(d)
    ensures GoodExpr(Attach(a, d)) <==> GoodDocAtom(a) && GoodExpr(d)
  {
    hide ShowDocAtom, GoodDocAtom;
    if d.Also? {
      var x, y, z := ShowDocAtom(a), ShowOr(d.head), ShowExpr(d.more);
      assert (x + ["OR"] + y) + ["AND"] + z == x + ["OR"] + (y + ["AND"] + z);
    }
  }

  lemma {:induction false} RereadShows(e: Alternatives)
    ensures ShowExpr(Reread(e)) == Show(e) && (GoodExpr(Reread(e)) <==> GoodAlternatives(e))
    decreases e, 2
  {
    match e
    case Single(c) => RereadConjunctionShows(c);
    case Or(c, more) =>
      RereadShows(more);
      RereadOntoShows(c, Reread(more));
  }

  lemma {:induction false} RereadConjunctionShows(c: Conjunction)
    ensures ShowExpr(RereadConjunction(c)) == ShowConjunction(c)
    ensures GoodExpr(RereadConjunction(c)) <==> GoodConjunction(c)
    decreases c, 1
  {
    match c
    case Lone(a) => RereadAtomShows(a);
    case And(a, rest) =>
      RereadAtomShows(a);
      RereadConjunctionShows(rest);
  }

  lemma {:induction false} RereadOntoShows(c: Conjunction, d: DocExpr)
    ensures ShowExpr(RereadOnto(c, d)) == ShowConjunction(c) + ["OR"] + ShowExpr(d)
    ensures GoodExpr(RereadOnto(c, d)) <==> GoodConjunction(c) && GoodExpr(d)
    decreases c, 1
  {
    match c
    case Lone(a) =>
      RereadAtomShows(a);
      ShowAttached(RereadAtom(a), d);
    case And(a, rest) =>
      RereadAtomShows(a);
      RereadOntoShows(rest, d);
      hide ShowAtom, ShowDocAtom, GoodAtom, GoodDocAtom;
      var x, y, z := ShowAtom(a), ShowConjunction(rest), ShowExpr(d);
      assert x + ["AND"] + (y + ["OR"] + z) == (x + ["AND"] + y) + ["OR"] + z;
  }

  lemma {:induction false} RereadAtomShows(a: Atom)
    ensures ShowDocAtom(RereadAtom(a)) == ShowAtom(a) && (GoodDocAtom(RereadAtom(a)) <==> GoodAtom(a))
    decreases a, 0
  {
    if a.Group? { RereadShows(a.inner); }
  }

  /** The two grammars generate the same token lists, and the documented one is unambiguous too: its
      reading of a list is the rereading of what the code parses. */
  lemma DocumentedReadingExactly(ts: seq<Token>, d: DocExpr)
    ensures (GoodExpr(d) && ShowExpr(d) == ts) <==> (Parse(ts).Some? && d == Reread(Parse(ts).value))
  {
    hide Reread, Back, Show, ShowExpr, GoodExpr, GoodAlternatives;
    RereadBack(d);
    RereadShows(Back(d));
    ParseExactly(ts, Back(d));
    if Parse(ts).Some? {
      ParseExactly(ts, Parse(ts).value);
      RereadShows(Parse(ts).value);
    }
  }

  // ---- when they mean the same -----------------------------------------------------------------------

  predicate AllLone(e: Alternatives) {
    match e
    case Single(c) => c.Lone?
    case Or(c, more) => c.Lone? && AllLone(more)
  }

  /** No parenthesis level has both operators. */
  predicate Unmixed(e: Alternatives)
    decreases e, 2
  {
    (e.Single? || AllLone(e)) && PartsUnmixed(e)
  }

  predicate PartsUnmixed(e: Alternatives)
    decreases e, 1
  {
    match e
    case Single(c) => ConjunctsUnmixed(c)
    case Or(c, more) => ConjunctsUnmixed(c) && PartsUnmixed(more)
  }

  predicate ConjunctsUnmixed(c: Conjunction)
    decreases c, 1
  {
    match c
    case Lone(a) => AtomUnmixed(a)
    case And(a, rest) => AtomUnmixed(a) && ConjunctsUnmixed(rest)
  }

  predicate AtomUnmixed(a: Atom)
    decreases a, 0
  {
    a.Group? ==> Unmixed(a.inner)
  }

  /** An expression that mixes the operators on no level means the same in both grammars, to every judge. */
  lemma {:induction false} UnmixedReadingsAgree(judge: Judge, e: Alternatives)
    requires Unmixed(e)
    ensures DocMeaning(judge, Reread(e)) == Meaning(judge, e)
    decreases e, 2
  {
    match e
    case Single(c) => ConjunctsAgree(judge, c);
    case Or(_, _) => RunAgrees(judge, e);
  }

  lemma {:induction false} ConjunctsAgree(judge: Judge, c: Conjunction)
    requires ConjunctsUnmixed(c)
    ensures DocMeaning(judge, RereadConjunction(c)) == ConjunctionMeaning(judge, c)
    decreases c, 1
  {
    match c
    case Lone(a) => AtomsAgree(judge, a);
    case And(a, rest) =>
      AtomsAgree(judge, a);
      ConjunctsAgree(judge, rest);
  }

  lemma {:induction false} RunAgrees(judge: Judge, e: Alternatives)
    requires AllLone(e) && PartsUnmixed(e)
    ensures Reread(e).Only? && DocMeaning(judge, Reread(e)) == Meaning(judge, e)
    decreases e, 1
  {
    match e
    case Single(c) => AtomsAgree(judge, c.atom);
    case Or(c, more) =>
      AtomsAgree(judge, c.atom);
      RunAgrees(judge, more);
  }

  lemma {:induction false} AtomsAgree(judge: Judge, a: Atom)
    requires AtomUnmixed(a)
    ensures DocAtomMeaning(judge, RereadAtom(a)) == AtomMeaning(judge, a)
    decreases a, 0
  {
    if a.Group? { UnmixedReadingsAgree(judge, a.inner); }
  }

  // ---- when they do not --------------------------------------------------------------------------------

  /** The identifiers that are judged. */
  function Names(e: Alternatives): set<Token> {
    match e
    case Single(c) => ConjunctNames(c)
    case Or(c, more) => ConjunctNames(c) + Names(more)
  }

  function ConjunctNames(c: Conjunction): set<Token> {
    match c
    case Lone(a) => AtomNames(a)
    case And(a, rest) => AtomNames(a) + ConjunctNames(rest)
  }

  function AtomNames(a: Atom): set<Token> {
    match a
    case License(id) => {id}
    case With(base, _) => {base}
    case Group(e) => Names(e)
  }

  /** No identifier occurs twice. */
  predicate EachOnce(e: Alternatives) {
    match e
    case Single(c) => EachConjunctOnce(c)
    case Or(c, more) => EachConjunctOnce(c) && EachOnce(more) && ConjunctNames(c) !! Names(more)
  }

  predicate EachConjunctOnce(c: Conjunction) {
    match c
    case Lone(a) => EachAtomOnce(a)
    case And(a, rest) => EachAtomOnce(a) && EachConjunctOnce(rest) && AtomNames(a) !! ConjunctNames(rest)
  }

  predicate EachAtomOnce(a: Atom) {
    a.Group? ==> EachOnce(a.inner)
  }

  /** Allows the given identifiers and denies all others. */
  function Allowing(allowed: set<Token>): Judge {
    id => if id in allowed then Allow else Deny
  }

  /** What all of the identifiers get. */
  function Verdicts(all: bool): Verdict {
    if all then Allow else Deny
  }

  ghost predicate Uniform(allowed: set<Token>, names: set<Token>, all: bool) {
    if all then names <= allowed else names !! allowed
  }

  lemma {:induction false} UniformMeaning(allowed: set<Token>, e: Alternatives, all: bool)
    requires Uniform(allowed, Names(e), all)
    ensures Meaning(Allowing(allowed), e) == DocMeaning(Allowing(allowed), Reread(e)) == Verdicts(all)
    decreases e, 2
  {
    match e
    case Single(c) => UniformConjunction(allowed, c, all);
    case Or(c, more) =>
      UniformConjunction(allowed, c, all);
      UniformMeaning(allowed, more, all);
      UniformOnto(allowed, c, Reread(more), all);
  }

  lemma {:induction false} UniformConjunction(allowed: set<Token>, c: Conjunction, all: bool)
    requires Uniform(allowed, ConjunctNames(c), all)
    ensures ConjunctionMeaning(Allowing(allowed), c) == DocMeaning(Allowing(allowed), RereadConjunction(c)) == Verdicts(all)
    decreases c, 1
  {
    match c
    case Lone(a) => UniformAtom(allowed, a, all);
    case And(a, rest) =>
      UniformAtom(allowed, a, all);
      UniformConjunction(allowed, rest, all);
  }

  lemma {:induction false} UniformOnto(allowed: set<Token>, c: Conjunction, d: DocExpr, all: bool)
    requires Uniform(allowed, ConjunctNames(c), all) && DocMeaning(Allowing(allowed), d) == Verdicts(all)
    ensures DocMeaning(Allowing(allowed), RereadOnto(c, d)) == Verdicts(all)
    decreases c, 1
  {
    match c
    case Lone(a) =>
      UniformAtom(allowed, a, all);
      AttachUniform(Allowing(allowed), RereadAtom(a), d, all);
    case And(a, rest) =>
      UniformAtom(allowed, a, all);
      UniformOnto(allowed, rest, d, all);
  }

  lemma {:induction false} UniformAtom(allowed: set<Token>, a: Atom, all: bool)
    requires Uniform(allowed, AtomNames(a), all)
    ensures AtomMeaning(Allowing(allowed), a) == DocAtomMeaning(Allowing(allowed), RereadAtom(a)) == Verdicts(all)
    decreases a, 0
  {
    if a.Group? { UniformMeaning(allowed, a.inner, all); }
  }

  lemma AttachUniform(judge: Judge, a: DocAtom, d: DocExpr, all: bool)
    requires DocAtomMeaning(judge, a) == Verdicts(all) && DocMeaning(judge, d) == Verdicts(all)
    ensures DocMeaning(judge, Attach(a, d)) == Verdicts(all)
  {}

  /** A denied atom makes no difference to a run. */
  lemma AttachDenied(judge: Judge, a: DocAtom, d: DocExpr)
    requires DocAtomMeaning(judge, a) == Deny
    ensures DocMeaning(judge, Attach(a, d)) == DocMeaning(judge, d)
  {}

  /** On a level of different identifiers that mixes the operators: a judge to whom the code's reading is
      allowed and the documented one denied. */
  lemma {:induction false} MixedLevelSeparates(e: Alternatives) returns (allowed: set<Token>)
    requires e.Or? && !AllLone(e) && EachOnce(e)
    ensures allowed <= Names(e)
    ensures Meaning(Allowing(allowed), e) == Allow && DocMeaning(Allowing(allowed), Reread(e)) == Deny
  {
    var c, more := e.head, e.more;
    if c.And? {
      allowed := if more.Single? then ConjunctNames(more.conj) else ConjunctNames(more.head);
      HeadAllowed(allowed, more);
      assert allowed <= Names(more) && AtomNames(c.first) <= ConjunctNames(c);
      UniformAtom(allowed, c.first, false);
      assert Reread(e) == Also(One(RereadAtom(c.first)), RereadOnto(c.rest, Reread(more)));
    } else if more.Single? {
      allowed := ConjunctNames(c);
      UniformConjunction(allowed, c, true);
      var d := more.conj;
      assert d.And? && ConjunctNames(d.rest) <= Names(more);
      UniformConjunction(allowed, d.rest, false);
      assert Reread(more) == RereadConjunction(d) == Also(One(RereadAtom(d.first)), RereadConjunction(d.rest));
      assert Reread(e) == Also(Either(RereadAtom(c.atom), One(RereadAtom(d.first))), RereadConjunction(d.rest));
    } else {
      allowed := MixedLevelSeparates(more);
      UniformAtom(allowed, c.atom, false);
      AttachDenied(Allowing(allowed), RereadAtom(c.atom), Reread(more));
    }
  }

  /** Allowing the first conjunction is enough for the code. */
  lemma HeadAllowed(allowed: set<Token>, e: Alternatives)
    requires allowed == if e.Single? then ConjunctNames(e.conj) else ConjunctNames(e.head)
    ensures Meaning(Allowing(allowed), e) == Allow
  {
    UniformConjunction(allowed, if e.Single? then e.conj else e.head, true);
  }

  // ---- below the top level --------------------------------------------------------------------------------

  function DocNames(d: DocExpr): set<Token> {
    match d
    case Only(o) => OrNames(o)
    case Also(o, more) => OrNames(o) + DocNames(more)
  }

  function OrNames(o: DocOr): set<Token> {
    match o
    case One(a) => DocAtomNames(a)
    case Either(a, rest) => DocAtomNames(a) + OrNames(rest)
  }

  function DocAtomNames(a: DocAtom): set<Token> {
    match a
    case Id(id) => {id}
    case IdWith(base, _) => {base}
    case Inner(d) => DocNames(d)
  }

  lemma AttachNames(a: DocAtom, d: DocExpr)
    ensures DocNames(Attach(a, d)) == DocAtomNames(a) + DocNames(d)
  {
    hide DocAtomNames;
  }

  lemma {:induction false} RereadNames(e: Alternatives)
    ensures DocNames(Reread(e)) == Names(e)
    decreases e, 2
  {
    match e
    case Single(c) => RereadConjunctNames(c);
    case Or(c, more) =>
      RereadNames(more);
      RereadOntoNames(c, Reread(more));
  }

  lemma {:induction false} RereadConjunctNames(c: Conjunction)
    ensures DocNames(RereadConjunction(c)) == ConjunctNames(c)
    decreases c, 1
  {
    match c
    case Lone(a) => RereadAtomNames(a);
    case And(a, rest) =>
      RereadAtomNames(a);
      RereadConjunctNames(rest);
  }

  lemma {:induction false} RereadOntoNames(c: Conjunction, d: DocExpr)
    ensures DocNames(RereadOnto(c, d)) == ConjunctNames(c) + DocNames(d)
    decreases c, 1
  {
    match c
    case Lone(a) =>
      RereadAtomNames(a);
      AttachNames(RereadAtom(a), d);
    case And(a, rest) =>
      RereadAtomNames(a);
      RereadOntoNames(rest, d);
  }

  lemma {:induction false} RereadAtomNames(a: Atom)
    ensures DocAtomNames(RereadAtom(a)) == AtomNames(a)
    decreases a, 0
  {
    if a.Group? { RereadNames(a.inner); }
  }

  ghost predicate Agree(j: Judge, k: Judge, names: set<Token>) {
    forall id :: id in names ==> j(id) == k(id)
  }

  /** A verdict depends only on those on the expression's own identifiers. */
  lemma {:induction false} OnlyOwnNamesCount(j: Judge, k: Judge, e: Alternatives)
    requires Agree(j, k, Names(e))
    ensures Meaning(j, e) == Meaning(k, e)
    decreases e, 2
  {
    match e
    case Single(c) => OnlyOwnInConjunction(j, k, c);
    case Or(c, more) =>
      OnlyOwnInConjunction(j, k, c);
      OnlyOwnNamesCount(j, k, more);
  }

  lemma {:induction false} OnlyOwnInConjunction(j: Judge, k: Judge, c: Conjunction)
    requires Agree(j, k, ConjunctNames(c))
    ensures ConjunctionMeaning(j, c) == ConjunctionMeaning(k, c)
    decreases c, 1
  {
    match c
    case Lone(a) => OnlyOwnInAtom(j, k, a);
    case And(a, rest) =>
      OnlyOwnInAtom(j, k, a);
      OnlyOwnInConjunction(j, k, rest);
  }

  lemma {:induction false} OnlyOwnInAtom(j: Judge, k: Judge, a: Atom)
    requires Agree(j, k, AtomNames(a))
    ensures AtomMeaning(j, a) == AtomMeaning(k, a)
    decreases a, 0
  {
    if a.Group? { OnlyOwnNamesCount(j, k, a.inner); }
  }

  lemma {:induction false} OnlyOwnInExpr(j: Judge, k: Judge, d: DocExpr)
    requires Agree(j, k, DocNames(d))
    ensures DocMeaning(j, d) == DocMeaning(k, d)
    decreases d, 2
  {
    match d
    case Only(o) => OnlyOwnInOr(j, k, o);
    case Also(o, more) =>
      OnlyOwnInOr(j, k, o);
      OnlyOwnInExpr(j, k, more);
  }

  lemma {:induction false} OnlyOwnInOr(j: Judge, k: Judge, o: DocOr)
    requires Agree(j, k, OrNames(o))
    ensures OrMeaning(j, o) == OrMeaning(k, o)
    decreases o, 1
  {
    match o
    case One(a) => OnlyOwnInDocAtom(j, k, a);
    case Either(a, rest) =>
      OnlyOwnInDocAtom(j, k, a);
      OnlyOwnInOr(j, k, rest);
  }

  lemma {:induction false} OnlyOwnInDocAtom(j: Judge, k: Judge, a: DocAtom)
    requires Agree(j, k, DocAtomNames(a))
    ensures DocAtomMeaning(j, a) == DocAtomMeaning(k, a)
    decreases a, 0
  {
    if a.Inner? { OnlyOwnInExpr(j, k, a.inner); }
  }

  /** Some set of the expression's own identifiers tells its two readings apart. */
  lemma {:induction false} MixedSeparates(e: Alternatives) returns (allowed: set<Token>)
    requires !Unmixed(e) && EachOnce(e)
    ensures allowed <= Names(e) && Meaning(Allowing(allowed), e) != DocMeaning(Allowing(allowed), Reread(e))
    decreases e, 2
  {
    if e.Or? && !AllLone(e) {
      allowed := MixedLevelSeparates(e);
    } else if e.Single? {
      allowed := ConjunctsSeparate(e.conj);
    } else {
      allowed := RunSeparates(e);
    }
  }

  /** Allow the rest of a conjunction, and it comes down to the part that mixes. */
  lemma {:induction false} ConjunctsSeparate(c: Conjunction) returns (allowed: set<Token>)
    requires !ConjunctsUnmixed(c) && EachConjunctOnce(c)
    ensures allowed <= ConjunctNames(c)
    ensures ConjunctionMeaning(Allowing(allowed), c) != DocMeaning(Allowing(allowed), RereadConjunction(c))
    decreases c, 1
  {
    match c
    case Lone(a) => allowed := AtomSeparates(a);
    case And(a, rest) =>
      if !AtomUnmixed(a) {
        var s := AtomSeparates(a);
        allowed := s + ConjunctNames(rest);
        UniformConjunction(allowed, rest, true);
        SameInAtom(Allowing(s), Allowing(allowed), a);
      } else {
        var s := ConjunctsSeparate(rest);
        allowed := s + AtomNames(a);
        UniformAtom(allowed, a, true);
        SameInConjunction(Allowing(s), Allowing(allowed), rest);
      }
  }

  lemma SameInAtom(j: Judge, k: Judge, a: Atom)
    requires Agree(j, k, AtomNames(a))
    ensures AtomMeaning(j, a) == AtomMeaning(k, a) && DocAtomMeaning(j, RereadAtom(a)) == DocAtomMeaning(k, RereadAtom(a))
  {
    RereadAtomNames(a);
    OnlyOwnInAtom(j, k, a);
    OnlyOwnInDocAtom(j, k, RereadAtom(a));
  }

  lemma SameInConjunction(j: Judge, k: Judge, c: Conjunction)
    requires Agree(j, k, ConjunctNames(c))
    ensures ConjunctionMeaning(j, c) == ConjunctionMeaning(k, c)
    ensures DocMeaning(j, RereadConjunction(c)) == DocMeaning(k, RereadConjunction(c))
  {
    RereadConjunctNames(c);
    OnlyOwnInConjunction(j, k, c);
    OnlyOwnInExpr(j, k, RereadConjunction(c));
  }

  /** Deny the rest of a run. */
  lemma {:induction false} RunSeparates(e: Alternatives) returns (allowed: set<Token>)
    requires AllLone(e) && !PartsUnmixed(e) && EachOnce(e)
    ensures allowed <= Names(e) && Meaning(Allowing(allowed), e) != DocMeaning(Allowing(allowed), Reread(e))
    ensures Reread(e).Only?
    decreases e, 1
  {
    match e
    case Single(c) => allowed := AtomSeparates(c.atom);
    case Or(c, more) =>
      RunIsOne(more);
      if !AtomUnmixed(c.atom) {
        allowed := AtomSeparates(c.atom);
        UniformMeaning(allowed, more, false);
      } else {
        allowed := RunSeparates(more);
        UniformAtom(allowed, c.atom, false);
      }
  }

  lemma {:induction false} RunIsOne(e: Alternatives)
    requires AllLone(e)
    ensures Reread(e).Only?
  {
    if e.Or? { RunIsOne(e.more); }
  }

  lemma {:induction false} AtomSeparates(a: Atom) returns (allowed: set<Token>)
    requires !AtomUnmixed(a) && EachAtomOnce(a)
    ensures allowed <= AtomNames(a)
    ensures AtomMeaning(Allowing(allowed), a) != DocAtomMeaning(Allowing(allowed), RereadAtom(a))
    decreases a, 0
  {
    allowed := MixedSeparates(a.inner);
  }

  /** Of an expression in which no identifier occurs twice, the reading of the code and the documented one
      agree for every judge exactly when no parenthesis level has both operators. */
  lemma ReadingsAgreeExactly(e: Alternatives)
    requires EachOnce(e)
    ensures (forall judge: Judge :: Meaning(judge, e) == DocMeaning(judge, Reread(e))) <==> Unmixed(e)
  {
    if Unmixed(e) {
      forall judge: Judge ensures Meaning(judge, e) == DocMeaning(judge, Reread(e)) { UnmixedReadingsAgree(judge, e); }
    } else {
      var allowed := MixedSeparates(e);
      assert Meaning(Allowing(allowed), e) != DocMeaning(Allowing(allowed), Reread(e));
    }
  }

  /** The same of texts: an accepted list of tokens in which no identifier occurs twice means what the
      docstring says, to every judge, exactly when none of its parenthesis levels has both operators. */
  lemma DocumentedGrammarDiffersExactly(ts: seq<Token>)
    requires Parse(ts).Some? && EachOnce(Parse(ts).value)
    ensures (forall judge: Judge, d :: GoodExpr(d) && ShowExpr(d) == ts ==> Meaning(judge, Parse(ts).value) == DocMeaning(judge, d))
       <==> Unmixed(Parse(ts).value)
  {
    hide Reread, Parse, GoodExpr, ShowExpr, Meaning, DocMeaning, Unmixed;
    var e := Parse(ts).value;
    ReadingsAgreeExactly(e);
    forall d ensures GoodExpr(d) && ShowExpr(d) == ts <==> d == Reread(e) { DocumentedReadingExactly(ts, d); }
  }
}
