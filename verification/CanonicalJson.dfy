/** Canonical JSON (runtime/dsh/canonical-json.js): the form the catalog signature covers is unique. */
module CanonicalJson {
  import opened Wrappers
  import opened JsText
  import opened JsonString

  /** A value handed to canonicalJson. A finite number is its JSON.stringify text. Object members are
      in insertion order. `Unrepresentable` is undefined, a function, a symbol, NaN or an infinity. */
  datatype Json =
    | Null
    | Bool(b: bool)
    | Num(digits: Text)
    | Str(s: Text)
    | Arr(items: seq<Json>)
    | Obj(members: seq<Member>)
    | Unrepresentable

  datatype Member = Member(key: Text, value: Json)

  const COMMA: CodeUnit := 0x2C
  const COLON: CodeUnit := 0x3A
  const LBRACKET: CodeUnit := 0x5B
  const RBRACKET: CodeUnit := 0x5D
  const LBRACE: CodeUnit := 0x7B
  const RBRACE: CodeUnit := 0x7D
  const NULL: Text := [0x6E, 0x75, 0x6C, 0x6C]
  const TRUE: Text := [0x74, 0x72, 0x75, 0x65]
  const FALSE: Text := [0x66, 0x61, 0x6C, 0x73, 0x65]

  /** The characters of a JSON number: digits, sign, point, exponent. */
  predicate NumChar(u: CodeUnit) {
    0x30 <= u <= 0x39 || u == 0x2B || u == 0x2D || u == 0x2E || u == 0x65
  }

  predicate NumText(t: Text) {
    t != [] && (0x30 <= t[0] <= 0x39 || t[0] == 0x2D) && forall i :: 0 <= i < |t| ==> NumChar(t[i])
  }

  /** A JavaScript value: number texts are number texts, object keys are distinct. */
  ghost predicate Wellformed(v: Json) {
    match v
    case Num(t) => NumText(t)
    case Arr(items) => forall i :: 0 <= i < |items| ==> Wellformed(items[i])
    case Obj(members) =>
      && (forall i :: 0 <= i < |members| ==> Wellformed(members[i].value))
      && (forall i, j :: 0 <= i < j < |members| ==> members[i].key != members[j].key)
    case _ => true
  }

  // ---- canonicalJson -------------------------------------------------------------------

  function Join(parts: seq<Text>): Text {
    if parts == [] then []
    else if |parts| == 1 then parts[0]
    else parts[0] + [COMMA] + Join(parts[1..])
  }

  /** None is the thrown error. */
  function Canonical(v: Json): Option<Text>
    decreases v
  {
    match v
    case Null => Some(NULL)
    case Bool(b) => Some(if b then TRUE else FALSE)
    case Num(t) => Some(t)
    case Str(s) => Some(Quoted(s))
    case Arr(items) =>
      var parts := CanonicalItems(items);
      if parts.None? then None else Some([LBRACKET] + Join(parts.value) + [RBRACKET])
    case Obj(members) =>
      var parts := CanonicalMembers(members);
      if parts.None? then None else Some([LBRACE] + Join(Fields(Sort(parts.value))) + [RBRACE])
    case Unrepresentable => None
  }

  function CanonicalItems(items: seq<Json>): Option<seq<Text>>
    decreases items
  {
    if items == [] then Some([])
    else
      var first, rest := Canonical(items[0]), CanonicalItems(items[1..]);
      if first.None? || rest.None? then None else Some([first.value] + rest.value)
  }

  /** The canonical text of each member's value, by key. */
  function CanonicalMembers(members: seq<Member>): Option<seq<Keyed<Text>>>
    decreases members
  {
    if members == [] then Some([])
    else
      var first, rest := Canonical(members[0].value), CanonicalMembers(members[1..]);
      if first.None? || rest.None? then None else Some([Keyed(members[0].key, first.value)] + rest.value)
  }

  function Fields(parts: seq<Keyed<Text>>): seq<Text> {
    seq(|parts|, i requires 0 <= i < |parts| => Quoted(parts[i].key) + [COLON] + parts[i].value)
  }

  // ---- structural equality ---------------------------------------------------------------

  /** Two values are the same when they have the same structure, object members in any order. */
  ghost predicate Same(a: Json, b: Json)
    decreases a
  {
    match (a, b)
    case (Arr(xs), Arr(ys)) => |xs| == |ys| && forall i :: 0 <= i < |xs| ==> Same(xs[i], ys[i])
    case (Obj(ms), Obj(ns)) =>
      && (forall i :: 0 <= i < |ms| ==> HasMatch(ms[i], ns))
      && (forall j :: 0 <= j < |ns| ==> IsMatched(ms, ns[j]))
    case _ => a == b
  }

  /** Some member of ns has m's key and the same value. */
  ghost predicate HasMatch(m: Member, ns: seq<Member>)
    decreases m
  {
    exists j :: 0 <= j < |ns| && ns[j].key == m.key && Same(m.value, ns[j].value)
  }

  ghost predicate IsMatched(ms: seq<Member>, n: Member)
    decreases ms
  {
    exists i :: 0 <= i < |ms| && n.key == ms[i].key && Same(ms[i].value, n.value)
  }

  /** Normal form: members sorted by key, all the way down. */
  function Normal(v: Json): Json
    decreases v
  {
    match v
    case Arr(items) => Arr(NormalItems(items))
    case Obj(members) => Obj(AsMembers(Sort(NormalMembers(members))))
    case _ => v
  }

  function NormalItems(items: seq<Json>): seq<Json>
    ensures |NormalItems(items)| == |items|
    decreases items
  {
    if items == [] then [] else [Normal(items[0])] + NormalItems(items[1..])
  }

  function NormalMembers(members: seq<Member>): seq<Keyed<Json>>
    ensures |NormalMembers(members)| == |members|
    decreases members
  {
    if members == [] then [] else [Keyed(members[0].key, Normal(members[0].value))] + NormalMembers(members[1..])
  }

  function AsMembers(ps: seq<Keyed<Json>>): seq<Member> {
    seq(|ps|, i requires 0 <= i < |ps| => Member(ps[i].key, ps[i].value))
  }

  lemma {:induction false} NormalItemAt(items: seq<Json>, i: nat)
    requires i < |items|
    ensures NormalItems(items)[i] == Normal(items[i])
  {
    if i > 0 { NormalItemAt(items[1..], i - 1); }
  }

  lemma {:induction false} NormalMemberAt(members: seq<Member>, i: nat)
    requires i < |members|
    ensures NormalMembers(members)[i] == Keyed(members[i].key, Normal(members[i].value))
  {
    if i > 0 { NormalMemberAt(members[1..], i - 1); }
  }

  lemma NormalMembersDistinct(members: seq<Member>)
    requires forall i, j :: 0 <= i < j < |members| ==> members[i].key != members[j].key
    ensures DistinctKeys(NormalMembers(members))
  {
    var ps := NormalMembers(members);
    forall i | 0 <= i < |members| ensures ps[i].key == members[i].key {
      NormalMemberAt(members, i);
    }
  }

  lemma AsMembersInjective(ps: seq<Keyed<Json>>, qs: seq<Keyed<Json>>)
    requires AsMembers(ps) == AsMembers(qs)
    ensures ps == qs
  {
    assert |AsMembers(ps)| == |AsMembers(qs)|;
    forall i | 0 <= i < |ps| ensures ps[i] == qs[i] {
      assert AsMembers(ps)[i] == AsMembers(qs)[i];
    }
  }

  /** Same is equality of normal forms. */
  lemma {:induction false} SameIffNormalEqual(a: Json, b: Json)
    requires Wellformed(a) && Wellformed(b)
    ensures Same(a, b) <==> Normal(a) == Normal(b)
    decreases a
  {
    match (a, b)
    case (Arr(xs), Arr(ys)) =>
      forall i | 0 <= i < |xs| && i < |ys| ensures Same(xs[i], ys[i]) <==> NormalItems(xs)[i] == NormalItems(ys)[i] {
        SameIffNormalEqual(xs[i], ys[i]);
        NormalItemAt(xs, i);
        NormalItemAt(ys, i);
      }
    case (Obj(ms), Obj(ns)) =>
      forall i, j | 0 <= i < |ms| && 0 <= j < |ns|
        ensures Same(ms[i].value, ns[j].value) <==> Normal(ms[i].value) == Normal(ns[j].value)
      {
        SameIffNormalEqual(ms[i].value, ns[j].value);
      }
      SameMembersIffNormal(ms, ns);
    case _ =>
  }

  /** The object case: a member matches when key and value do, which is equality of its normal form. */
  lemma SameMembersIffNormal(ms: seq<Member>, ns: seq<Member>)
    requires Wellformed(Obj(ms)) && Wellformed(Obj(ns))
    requires forall i, j :: 0 <= i < |ms| && 0 <= j < |ns| ==>
               (Same(ms[i].value, ns[j].value) <==> Normal(ms[i].value) == Normal(ns[j].value))
    ensures Same(Obj(ms), Obj(ns)) <==> Normal(Obj(ms)) == Normal(Obj(ns))
  {
    hide Sort, Normal, NormalMembers, Same;
    var ps, qs := NormalMembers(ms), NormalMembers(ns);
    NormalMembersDistinct(ms);
    NormalMembersDistinct(ns);
    SortsEqualIffSameHoldings(ps, qs);
    SameIsMutual(ms, ns);
    NormalObjects(ms, ns);
  }

  lemma NormalObjects(ms: seq<Member>, ns: seq<Member>)
    ensures Normal(Obj(ms)) == Normal(Obj(ns)) <==> Sort(NormalMembers(ms)) == Sort(NormalMembers(ns))
  {
    if Normal(Obj(ms)) == Normal(Obj(ns)) {
      AsMembersInjective(Sort(NormalMembers(ms)), Sort(NormalMembers(ns)));
    }
  }

  lemma MemberOnTheRight(ms: seq<Member>, ns: seq<Member>, i: nat)
    requires i < |ms|
    requires forall j :: 0 <= j < |ns| ==> (Same(ms[i].value, ns[j].value) <==> Normal(ms[i].value) == Normal(ns[j].value))
    ensures NormalMembers(ms)[i] in NormalMembers(ns)
       <==> HasMatch(ms[i], ns)
  {
    hide NormalMembers, Normal, Same;
    var p, qs := NormalMembers(ms)[i], NormalMembers(ns);
    NormalMemberAt(ms, i);
    forall j | 0 <= j < |ns| ensures qs[j] == Keyed(ns[j].key, Normal(ns[j].value)) { NormalMemberAt(ns, j); }
    if p in qs { var j :| 0 <= j < |qs| && qs[j] == p; }
    if j :| 0 <= j < |ns| && ns[j].key == ms[i].key && Same(ms[i].value, ns[j].value) { assert qs[j] == p; }
  }

  lemma MemberOnTheLeft(ms: seq<Member>, ns: seq<Member>, j: nat)
    requires j < |ns|
    requires forall i :: 0 <= i < |ms| ==> (Same(ms[i].value, ns[j].value) <==> Normal(ms[i].value) == Normal(ns[j].value))
    ensures NormalMembers(ns)[j] in NormalMembers(ms)
       <==> IsMatched(ms, ns[j])
  {
    hide NormalMembers, Normal, Same;
    var ps, q := NormalMembers(ms), NormalMembers(ns)[j];
    NormalMemberAt(ns, j);
    forall i | 0 <= i < |ms| ensures ps[i] == Keyed(ms[i].key, Normal(ms[i].value)) { NormalMemberAt(ms, i); }
    if q in ps { var i :| 0 <= i < |ps| && ps[i] == q; }
    if i :| 0 <= i < |ms| && ns[j].key == ms[i].key && Same(ms[i].value, ns[j].value) { assert ps[i] == q; }
  }

  lemma SameIsMutual(ms: seq<Member>, ns: seq<Member>)
    requires forall i, j :: 0 <= i < |ms| && 0 <= j < |ns| ==>
               (Same(ms[i].value, ns[j].value) <==> Normal(ms[i].value) == Normal(ns[j].value))
    ensures Same(Obj(ms), Obj(ns))
       <==> (Within(NormalMembers(ms), NormalMembers(ns)) && Within(NormalMembers(ns), NormalMembers(ms)))
  {
    hide NormalMembers, Normal, HasMatch, IsMatched;
    assert |NormalMembers(ms)| == |ms| && |NormalMembers(ns)| == |ns|;
    forall i | 0 <= i < |ms|
      ensures NormalMembers(ms)[i] in NormalMembers(ns)
         <==> HasMatch(ms[i], ns)
    {
      MemberOnTheRight(ms, ns, i);
    }
    forall j | 0 <= j < |ns|
      ensures NormalMembers(ns)[j] in NormalMembers(ms)
         <==> IsMatched(ms, ns[j])
    {
      MemberOnTheLeft(ms, ns, j);
    }
  }

  // ---- printing in the listed order ----------------------------------------------------------

  ghost predicate Representable(v: Json) {
    match v
    case Arr(items) => forall i :: 0 <= i < |items| ==> Representable(items[i])
    case Obj(members) => forall i :: 0 <= i < |members| ==> Representable(members[i].value)
    case Unrepresentable => false
    case _ => true
  }

  function Print(v: Json): Text
    decreases v
  {
    match v
    case Null => NULL
    case Bool(b) => if b then TRUE else FALSE
    case Num(t) => t
    case Str(s) => Quoted(s)
    case Arr(items) => [LBRACKET] + PrintItems(items)
    case Obj(members) => [LBRACE] + PrintMembers(members)
    case Unrepresentable => []
  }

  function PrintItems(items: seq<Json>): Text
    decreases items, 1
  {
    if items == [] then [RBRACKET] else Print(items[0]) + MoreItems(items[1..])
  }

  /** The items after the first, each behind a comma, and the closing bracket. */
  function MoreItems(items: seq<Json>): Text
    decreases items, 2
  {
    if items == [] then [RBRACKET] else [COMMA] + PrintItems(items)
  }

  function PrintMember(m: Member): Text
    decreases m
  {
    Quoted(m.key) + [COLON] + Print(m.value)
  }

  function PrintMembers(members: seq<Member>): Text
    decreases members, 1
  {
    if members == [] then [RBRACE] else PrintMember(members[0]) + MoreMembers(members[1..])
  }

  function MoreMembers(members: seq<Member>): Text
    decreases members, 2
  {
    if members == [] then [RBRACE] else [COMMA] + PrintMembers(members)
  }

  /** What can follow a printed value. */
  predicate Stops(t: Text) {
    t != [] ==> t[0] == COMMA || t[0] == RBRACKET || t[0] == RBRACE
  }

  /** The first character tells the kind of a value. */
  function Lead(v: Json): CodeUnit {
    match v
    case Null => 0x6E
    case Bool(b) => if b then 0x74 else 0x66
    case Num(t) => if t != [] then t[0] else 0
    case Str(_) => QUOTE
    case Arr(_) => LBRACKET
    case Obj(_) => LBRACE
    case Unrepresentable => 0
  }

  lemma PrintLead(v: Json)
    requires Wellformed(v) && Representable(v)
    ensures Print(v) != [] && Print(v)[0] == Lead(v)
    ensures Lead(v) != COMMA && Lead(v) != RBRACKET && Lead(v) != RBRACE
  {}

  lemma {:induction false} NumbersArePrefixFree(a: Text, b: Text, r: Text, s: Text)
    requires forall i :: 0 <= i < |a| ==> NumChar(a[i])
    requires forall i :: 0 <= i < |b| ==> NumChar(b[i])
    requires Stops(r) && Stops(s) && a + r == b + s
    ensures a == b && r == s
  {
    assert a != [] ==> (a + r)[0] == a[0];
    assert b != [] ==> (b + s)[0] == b[0];
    if a != [] && b != [] {
      assert (a + r)[1..] == a[1..] + r && (b + s)[1..] == b[1..] + s;
      NumbersArePrefixFree(a[1..], b[1..], r, s);
      assert a == [a[0]] + a[1..] && b == [b[0]] + b[1..];
    } else {
      assert [] + r == r && [] + s == s;
    }
  }

  lemma DropOne(u: CodeUnit, a: Text, b: Text)
    requires [u] + a == [u] + b
    ensures a == b
  {
    assert ([u] + a)[1..] == a && ([u] + b)[1..] == b;
  }

  lemma Associative(a: Text, b: Text, c: Text)
    ensures (a + b) + c == a + (b + c)
  {}

  /** Equal texts that start with two printed values start with the same value. */
  lemma {:induction false} PrintIsPrefixFree(x: Json, y: Json, r: Text, s: Text)
    requires Wellformed(x) && Representable(x) && Wellformed(y) && Representable(y)
    requires Stops(r) && Stops(s) && Print(x) + r == Print(y) + s
    ensures x == y && r == s
    decreases x, 2
  {
    PrintLead(x);
    PrintLead(y);
    assert (Print(x) + r)[0] == Lead(x) && (Print(y) + s)[0] == Lead(y);
    assert (Print(x) + r)[|Print(x)|..] == r && (Print(y) + s)[|Print(y)|..] == s;
    match x
    case Num(t) => NumbersArePrefixFree(t, y.digits, r, s);
    case Str(t) => QuotedIsPrefixFree(t, y.s, r, s);
    case Arr(items) => ArraysArePrefixFree(items, y.items, r, s);
    case Obj(members) => ObjectsArePrefixFree(members, y.members, r, s);
    case _ =>
  }

  ghost predicate GoodItems(items: seq<Json>) {
    forall i :: 0 <= i < |items| ==> Wellformed(items[i]) && Representable(items[i])
  }

  lemma ItemsLead(items: seq<Json>, r: Text)
    requires GoodItems(items)
    ensures items == [] ==> PrintItems(items) + r == [RBRACKET] + r
    ensures items != [] ==> PrintItems(items) != [] && (PrintItems(items) + r)[0] != RBRACKET
  {
    if items != [] { PrintLead(items[0]); }
  }

  lemma {:induction false} ArraysArePrefixFree(xs: seq<Json>, ys: seq<Json>, r: Text, s: Text)
    requires GoodItems(xs) && GoodItems(ys) && Print(Arr(xs)) + r == Print(Arr(ys)) + s
    ensures xs == ys && r == s
    decreases xs, 1
  {
    hide GoodItems;
    var c, d := PrintItems(xs) + r, PrintItems(ys) + s;
    assert Print(Arr(xs)) + r == [LBRACKET] + c && Print(Arr(ys)) + s == [LBRACKET] + d;
    hide Print, PrintItems;
    DropOne(LBRACKET, c, d);
    ItemsLead(xs, r);
    ItemsLead(ys, s);
    if xs == [] {
      DropOne(RBRACKET, r, s);
    } else {
      FirstItem(xs, ys, r, s);
    }
  }

  lemma ItemsStep(xs: seq<Json>, r: Text)
    requires xs != []
    ensures PrintItems(xs) + r == Print(xs[0]) + (MoreItems(xs[1..]) + r)
    ensures |xs| == 1 ==> MoreItems(xs[1..]) + r == [RBRACKET] + r
    ensures |xs| > 1 ==> MoreItems(xs[1..]) + r == [COMMA] + (PrintItems(xs[1..]) + r)
    ensures Stops(MoreItems(xs[1..]) + r)
  {
    hide Print;
    Associative(Print(xs[0]), MoreItems(xs[1..]), r);
    if |xs| > 1 {
      var more := xs[1..];
      hide PrintItems;
      Associative([COMMA], PrintItems(more), r);
      assert MoreItems(more)[0] == COMMA;
    }
  }

  lemma {:induction false} FirstItem(xs: seq<Json>, ys: seq<Json>, r: Text, s: Text)
    requires xs != [] && ys != [] && GoodItems(xs) && GoodItems(ys)
    requires PrintItems(xs) + r == PrintItems(ys) + s
    ensures xs == ys && r == s
    decreases xs, 0
  {
    hide Print, PrintItems, MoreItems, Wellformed, Representable, Stops;
    var c, d := MoreItems(xs[1..]) + r, MoreItems(ys[1..]) + s;
    ItemsStep(xs, r);
    ItemsStep(ys, s);
    PrintIsPrefixFree(xs[0], ys[0], c, d);
    assert xs == [xs[0]] + xs[1..] && ys == [ys[0]] + ys[1..];
    assert c[0] == d[0];
    if |xs| == 1 {
      DropOne(RBRACKET, r, s);
    } else {
      DropOne(COMMA, PrintItems(xs[1..]) + r, PrintItems(ys[1..]) + s);
      FirstItem(xs[1..], ys[1..], r, s);
    }
  }

  lemma {:induction false} MemberIsPrefixFree(m: Member, n: Member, r: Text, s: Text)
    requires Wellformed(m.value) && Representable(m.value) && Wellformed(n.value) && Representable(n.value)
    requires Stops(r) && Stops(s) && PrintMember(m) + r == PrintMember(n) + s
    ensures m == n && r == s
    decreases m, 3
  {
    hide Quoted, Print, Wellformed, Representable;
    var a, b := [COLON] + (Print(m.value) + r), [COLON] + (Print(n.value) + s);
    assert PrintMember(m) + r == Quoted(m.key) + a && PrintMember(n) + s == Quoted(n.key) + b;
    QuotedIsPrefixFree(m.key, n.key, a, b);
    DropOne(COLON, Print(m.value) + r, Print(n.value) + s);
    PrintIsPrefixFree(m.value, n.value, r, s);
  }

  ghost predicate GoodMembers(members: seq<Member>) {
    forall i :: 0 <= i < |members| ==> Wellformed(members[i].value) && Representable(members[i].value)
  }

  lemma MembersLead(members: seq<Member>, r: Text)
    ensures members == [] ==> PrintMembers(members) + r == [RBRACE] + r
    ensures members != [] ==> PrintMembers(members) != [] && (PrintMembers(members) + r)[0] == QUOTE
  {
    hide Escape, Print;
    if members != [] { assert PrintMember(members[0])[0] == QUOTE; }
  }

  lemma {:induction false} ObjectsArePrefixFree(xs: seq<Member>, ys: seq<Member>, r: Text, s: Text)
    requires GoodMembers(xs) && GoodMembers(ys) && Print(Obj(xs)) + r == Print(Obj(ys)) + s
    ensures xs == ys && r == s
    decreases xs, 1
  {
    hide GoodMembers;
    var c, d := PrintMembers(xs) + r, PrintMembers(ys) + s;
    assert Print(Obj(xs)) + r == [LBRACE] + c && Print(Obj(ys)) + s == [LBRACE] + d;
    hide Print, PrintMembers;
    DropOne(LBRACE, c, d);
    MembersLead(xs, r);
    MembersLead(ys, s);
    if xs == [] {
      DropOne(RBRACE, r, s);
    } else {
      FirstMember(xs, ys, r, s);
    }
  }

  lemma MembersStep(xs: seq<Member>, r: Text)
    requires xs != []
    ensures PrintMembers(xs) + r == PrintMember(xs[0]) + (MoreMembers(xs[1..]) + r)
    ensures |xs| == 1 ==> MoreMembers(xs[1..]) + r == [RBRACE] + r
    ensures |xs| > 1 ==> MoreMembers(xs[1..]) + r == [COMMA] + (PrintMembers(xs[1..]) + r)
    ensures Stops(MoreMembers(xs[1..]) + r)
  {
    hide PrintMember;
    Associative(PrintMember(xs[0]), MoreMembers(xs[1..]), r);
    if |xs| > 1 {
      var more := xs[1..];
      hide PrintMembers;
      Associative([COMMA], PrintMembers(more), r);
      assert MoreMembers(more)[0] == COMMA;
    }
  }

  lemma {:induction false} FirstMember(xs: seq<Member>, ys: seq<Member>, r: Text, s: Text)
    requires xs != [] && ys != [] && GoodMembers(xs) && GoodMembers(ys)
    requires PrintMembers(xs) + r == PrintMembers(ys) + s
    ensures xs == ys && r == s
    decreases xs, 0
  {
    hide PrintMember, PrintMembers, MoreMembers, Wellformed, Representable, Stops;
    var c, d := MoreMembers(xs[1..]) + r, MoreMembers(ys[1..]) + s;
    MembersStep(xs, r);
    MembersStep(ys, s);
    MemberIsPrefixFree(xs[0], ys[0], c, d);
    assert xs == [xs[0]] + xs[1..] && ys == [ys[0]] + ys[1..];
    assert c[0] == d[0];
    if |xs| == 1 {
      DropOne(RBRACE, r, s);
    } else {
      DropOne(COMMA, PrintMembers(xs[1..]) + r, PrintMembers(ys[1..]) + s);
      FirstMember(xs[1..], ys[1..], r, s);
    }
  }

  // ---- canonicalJson prints the normal form -----------------------------------------------------

  /** The canonical text of each value of a keyed list. */
  function Printed(ps: seq<Keyed<Json>>): seq<Keyed<Text>> {
    if ps == [] then [] else [Keyed(ps[0].key, Print(ps[0].value))] + Printed(ps[1..])
  }

  lemma {:induction false} InsertPrinted(p: Keyed<Json>, xs: seq<Keyed<Json>>)
    ensures Printed(Insert(p, xs)) == Insert(Keyed(p.key, Print(p.value)), Printed(xs))
  {
    hide Print;
    if xs != [] && Less(xs[0].key, p.key) {
      InsertPrinted(p, xs[1..]);
      assert Printed(xs)[1..] == Printed(xs[1..]);
      assert ([xs[0]] + Insert(p, xs[1..]))[1..] == Insert(p, xs[1..]);
    } else {
      assert ([p] + xs)[1..] == xs;
    }
  }

  /** Sorting looks at keys only, so it can be done before or after the values are printed. */
  lemma {:induction false} SortPrinted(xs: seq<Keyed<Json>>)
    ensures Printed(Sort(xs)) == Sort(Printed(xs))
  {
    hide Print;
    if xs != [] {
      SortPrinted(xs[1..]);
      InsertPrinted(xs[0], Sort(xs[1..]));
      assert Printed(xs)[1..] == Printed(xs[1..]);
    }
  }

  lemma {:induction false} JoinFields(ps: seq<Keyed<Json>>)
    ensures [LBRACE] + Join(Fields(Printed(ps))) + [RBRACE] == Print(Obj(AsMembers(ps)))
  {
    PrintedLength(ps);
    if ps != [] { FieldsBody(ps); }
  }

  lemma FieldsStep(ps: seq<Keyed<Json>>)
    requires ps != []
    ensures |Fields(Printed(ps))| == |ps|
    ensures Fields(Printed(ps))[0] == PrintMember(AsMembers(ps)[0])
    ensures Fields(Printed(ps))[1..] == Fields(Printed(ps[1..]))
    ensures AsMembers(ps)[1..] == AsMembers(ps[1..])
  {
    hide Print, Quoted;
    PrintedLength(ps);
    assert Printed(ps)[1..] == Printed(ps[1..]);
  }

  lemma {:induction false} FieldsBody(ps: seq<Keyed<Json>>)
    requires ps != []
    ensures Join(Fields(Printed(ps))) + [RBRACE] == PrintMembers(AsMembers(ps))
  {
    hide Print, Printed, Fields, PrintMember, AsMembers;
    var fields := Fields(Printed(ps));
    FieldsStep(ps);
    if |ps| > 1 {
      FieldsBody(ps[1..]);
      assert Join(fields) + [RBRACE] == fields[0] + ([COMMA] + (Join(fields[1..]) + [RBRACE]));
    } else {
      assert |AsMembers(ps)| == 1 by { AsMembersLength(ps); }
    }
    AsMembersLength(ps);
  }

  lemma AsMembersLength(ps: seq<Keyed<Json>>)
    ensures |AsMembers(ps)| == |ps|
  {}

  lemma {:induction false} PrintedLength(ps: seq<Keyed<Json>>)
    ensures |Printed(ps)| == |ps|
  {
    if ps != [] { PrintedLength(ps[1..]); }
  }

  /** The texts of an array's items. */
  function Texts(items: seq<Json>): seq<Text> {
    if items == [] then [] else [Print(items[0])] + Texts(items[1..])
  }

  lemma {:induction false} JoinTexts(items: seq<Json>)
    ensures [LBRACKET] + Join(Texts(items)) + [RBRACKET] == Print(Arr(items))
  {
    if items != [] { TextsBody(items); }
  }

  lemma {:induction false} TextsBody(items: seq<Json>)
    requires items != []
    ensures Join(Texts(items)) + [RBRACKET] == PrintItems(items)
  {
    hide Print;
    var texts := Texts(items);
    assert texts[1..] == Texts(items[1..]);
    if |items| > 1 {
      TextsBody(items[1..]);
      assert |Texts(items[1..])| >= 1;
      assert Join(texts) + [RBRACKET] == texts[0] + ([COMMA] + (Join(texts[1..]) + [RBRACKET]));
    }
  }

  /** canonicalJson throws exactly on values with an unrepresentable part, and otherwise prints the
      normal form. */
  lemma {:induction false} CanonicalPrintsNormalForm(v: Json)
    ensures Canonical(v) == if Representable(v) then Some(Print(Normal(v))) else None
    decreases v, 1
  {
    match v
    case Arr(items) =>
      CanonicalItemsPrint(items);
      JoinTexts(NormalItems(items));
    case Obj(members) =>
      CanonicalMembersPrint(members);
      var ps := NormalMembers(members);
      SortPrinted(ps);
      JoinFields(Sort(ps));
    case _ =>
  }

  lemma {:induction false} CanonicalItemsPrint(items: seq<Json>)
    ensures CanonicalItems(items)
         == if forall i :: 0 <= i < |items| ==> Representable(items[i]) then Some(Texts(NormalItems(items))) else None
    decreases items, 0
  {
    hide Print, Representable, Canonical;
    if items != [] {
      CanonicalPrintsNormalForm(items[0]);
      CanonicalItemsPrint(items[1..]);
      var rest := items[1..];
      assert (forall i :: 0 <= i < |items| ==> Representable(items[i]))
        <==> (Representable(items[0]) && forall i :: 0 <= i < |rest| ==> Representable(rest[i])) by {
        assert forall i :: 0 <= i < |rest| ==> rest[i] == items[i + 1];
        assert forall i :: 1 <= i < |items| ==> items[i] == rest[i - 1];
      }
      assert NormalItems(items)[1..] == NormalItems(rest);
    }
  }

  lemma {:induction false} CanonicalMembersPrint(members: seq<Member>)
    ensures CanonicalMembers(members)
         == if forall i :: 0 <= i < |members| ==> Representable(members[i].value)
            then Some(Printed(NormalMembers(members))) else None
    decreases members, 0
  {
    hide Print, Representable, Canonical;
    if members != [] {
      CanonicalPrintsNormalForm(members[0].value);
      CanonicalMembersPrint(members[1..]);
      var rest := members[1..];
      assert (forall i :: 0 <= i < |members| ==> Representable(members[i].value))
        <==> (Representable(members[0].value) && forall i :: 0 <= i < |rest| ==> Representable(rest[i].value)) by {
        assert forall i :: 0 <= i < |rest| ==> rest[i] == members[i + 1];
        assert forall i :: 1 <= i < |members| ==> members[i] == rest[i - 1];
      }
      assert NormalMembers(members)[1..] == NormalMembers(rest);
    }
  }

  lemma {:induction false} NormalKeeps(v: Json)
    requires Wellformed(v) && Representable(v)
    ensures Wellformed(Normal(v)) && Representable(Normal(v))
  {
    match v
    case Arr(items) =>
      forall i | 0 <= i < |items|
        ensures Wellformed(NormalItems(items)[i]) && Representable(NormalItems(items)[i])
      {
        NormalKeeps(items[i]);
        NormalItemAt(items, i);
      }
    case Obj(members) =>
      var sorted := Sort(NormalMembers(members));
      NormalMembersDistinct(members);
      SortAscends(NormalMembers(members));
      forall i | 0 <= i < |sorted| ensures Wellformed(sorted[i].value) && Representable(sorted[i].value) {
        SortHolds(NormalMembers(members), sorted[i]);
        assert sorted[i] in sorted;
        var j :| 0 <= j < |members| && NormalMembers(members)[j] == sorted[i];
        NormalMemberAt(members, j);
        NormalKeeps(members[j].value);
      }
      forall i, j | 0 <= i < j < |sorted| ensures sorted[i].key != sorted[j].key {
        LessIsIrreflexive(sorted[i].key);
      }
    case _ =>
  }

  // ---- main result ------------------------------------------------------------------------------

  /** The canonical form is unique: two representable values serialize to the same text exactly when
      they are structurally equal, whatever the order their members were inserted in. */
  lemma CanonicalIsUnique(a: Json, b: Json)
    requires Wellformed(a) && Wellformed(b) && Representable(a) && Representable(b)
    ensures Canonical(a).Some? && Canonical(b).Some?
    ensures Canonical(a) == Canonical(b) <==> Same(a, b)
  {
    hide Canonical, Normal, Print, Same, Wellformed, Representable;
    CanonicalPrintsNormalForm(a);
    CanonicalPrintsNormalForm(b);
    SameIffNormalEqual(a, b);
    NormalKeeps(a);
    NormalKeeps(b);
    if Canonical(a) == Canonical(b) {
      assert Print(Normal(a)) + [] == Print(Normal(a)) && Print(Normal(b)) + [] == Print(Normal(b));
      PrintIsPrefixFree(Normal(a), Normal(b), [], []);
    }
  }

  /** Reordering an object's members does not change the signed bytes. */
  lemma MemberOrderIsIrrelevant(ms: seq<Member>, ns: seq<Member>)
    requires Wellformed(Obj(ms)) && Wellformed(Obj(ns)) && Representable(Obj(ms)) && Representable(Obj(ns))
    requires forall m :: m in ms <==> m in ns
    ensures Canonical(Obj(ms)) == Canonical(Obj(ns))
  {
    forall i | 0 <= i < |ms| ensures HasMatch(ms[i], ns) {
      assert ms[i] in ns;
      var j :| 0 <= j < |ns| && ns[j] == ms[i];
      SameIffNormalEqual(ms[i].value, ms[i].value);
    }
    forall j | 0 <= j < |ns| ensures IsMatched(ms, ns[j]) {
      assert ns[j] in ms;
      var i :| 0 <= i < |ms| && ms[i] == ns[j];
      SameIffNormalEqual(ns[j].value, ns[j].value);
    }
    CanonicalIsUnique(Obj(ms), Obj(ns));
  }
}
