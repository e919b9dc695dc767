/** The base64 alphabet, the encoders, and what each of the five decoders makes of any text. */
module Base64 {
  import opened Wrappers
  import opened JsText

  /** A six-bit value. */
  type Sextet = v: int | 0 <= v < 64

  const PAD: CodeUnit := 0x3D

  function Symbol(v: Sextet): (c: CodeUnit)
    ensures c < 128 && c != PAD
  {
    if v < 26 then 0x41 + v
    else if v < 52 then 0x61 + v - 26
    else if v < 62 then 0x30 + v - 52
    else if v == 62 then 0x2B
    else 0x2F
  }

  function Value(c: CodeUnit): Option<Sextet> {
    if 0x41 <= c <= 0x5A then Some(c - 0x41)
    else if 0x61 <= c <= 0x7A then Some(c - 0x61 + 26)
    else if 0x30 <= c <= 0x39 then Some(c - 0x30 + 52)
    else if c == 0x2B then Some(62)
    else if c == 0x2F then Some(63)
    else None
  }

  lemma SymbolsAreValues(v: Sextet, c: CodeUnit)
    ensures Value(c) == Some(v) <==> c == Symbol(v)
  {}

  // ---- encoding ---------------------------------------------------------------------------

  /** The four values of three bytes a, b, c. */
  function V0(a: Byte): Sextet { a / 4 }
  function V1(a: Byte, b: Byte): Sextet { a % 4 * 16 + b / 16 }
  function V2(b: Byte, c: Byte): Sextet { b % 16 * 4 + c / 64 }
  function V3(c: Byte): Sextet { c % 64 }

  /** The three bytes of four values d, e, f, g. */
  function B0(d: Sextet, e: Sextet): Byte { d as int * 4 + e / 16 }
  function B1(e: Sextet, f: Sextet): Byte { e as int % 16 * 16 + f / 4 }
  function B2(f: Sextet, g: Sextet): Byte { f as int % 4 * 64 + g }

  lemma BytesOfValues(a: Byte, b: Byte, c: Byte)
    ensures B0(V0(a), V1(a, b)) == a && B1(V1(a, b), V2(b, c)) == b && B2(V2(b, c), V3(c)) == c
    ensures V1(a, 0) % 16 == 0 && V2(b, 0) % 4 == 0 && V2(0, 0) == 0 && V3(0) == 0
  {}

  lemma ValuesOfBytes(d: Sextet, e: Sextet, f: Sextet, g: Sextet)
    ensures V0(B0(d, e)) == d && V1(B0(d, e), B1(e, f)) == e && V2(B1(e, f), B2(f, g)) == f && V3(B2(f, g)) == g
    ensures e % 16 == 0 ==> V1(B0(d, e), 0) == e
    ensures f % 4 == 0 ==> V2(B1(e, f), 0) == f
  {}

  function Quad(a: Byte, b: Byte, c: Byte): (r: seq<Sextet>)
    ensures |r| == 4
  {
    [V0(a), V1(a, b), V2(b, c), V3(c)]
  }

  /** The first group of some bytes, filled with zeros. */
  function Head(b: Bytes): (r: seq<Sextet>)
    requires b != []
    ensures |r| == 4
  {
    Quad(b[0], if |b| > 1 then b[1] else 0, if |b| > 2 then b[2] else 0)
  }

  function HeadSize(b: Bytes): (n: nat)
    requires b != []
    ensures 1 <= n <= 3 && n <= |b| && (n < 3 ==> n == |b|)
  {
    if |b| > 2 then 3 else |b|
  }

  function Symbols(vs: seq<Sextet>): (r: Text)
    ensures |r| == |vs|
  {
    seq(|vs|, i requires 0 <= i < |vs| => Symbol(vs[i]))
  }

  function Pads(n: nat): (r: Text)
    ensures |r| == n
  {
    seq(n, _ => PAD)
  }

  /** What both C encoders write: a group of four characters for every three bytes or fewer. */
  function Encode(b: Bytes): Text {
    if b == [] then []
    else Symbols(Head(b)[..HeadSize(b) + 1]) + Pads(3 - HeadSize(b)) + Encode(b[HeadSize(b)..])
  }

  /** The three bytes of four sextets. */
  function Group(d0: Sextet, d1: Sextet, d2: Sextet, d3: Sextet): (r: Bytes)
    ensures |r| == 3
  {
    [B0(d0, d1), B1(d1, d2), B2(d2, d3)]
  }

  /** How many of a group's bytes n of its characters give. */
  function Share(n: nat): (k: nat)
    ensures k <= 3
  {
    if n > 3 then 3 else if n > 2 then 2 else 1
  }

  /** The text after its first group. */
  function NextGroup(t: Text): (r: Text)
    ensures t != [] ==> |r| < |t|
  {
    t[if |t| < 4 then |t| else 4..]
  }

  // ---- decoders that work on groups ------------------------------------------------------------

  function Stripped(t: Text): Text {
    if t != [] && t[|t| - 1] == PAD then Stripped(t[..|t| - 1]) else t
  }

  /** The value at index k of a group of `rem` characters, zero past its end. */
  function ValueAt(t: Text, k: nat): Option<Sextet> {
    if k < |t| then Value(t[k]) else Some(0)
  }

  /** b64_decode of example/main_cli.c after stripping. */
  function CliGroups(t: Text): Option<Bytes>
    decreases |t|
  {
    if t == [] then Some([])
    else
      var d0, d1, d2, d3 := ValueAt(t, 0), ValueAt(t, 1), ValueAt(t, 2), ValueAt(t, 3);
      if d0.None? || d1.None? || d2.None? || d3.None? then None
      else
        var bytes := Group(d0.value, d1.value, d2.value, d3.value)[..Share(|t|)];
        var rest := CliGroups(NextGroup(t));
        if rest.None? then None else Some(bytes + rest.value)
  }

  function CliDecode(t: Text): Option<Bytes> {
    CliGroups(Stripped(t))
  }

  /** `b64Val(c)`, -1 for a character outside the alphabet; past the end of the text the first two
      positions read `undefined`, the last two 'A'. */
  function JsValue(t: Text, k: nat): int {
    if k < |t| then (if Value(t[k]).Some? then Value(t[k]).value else -1)
    else if k < 2 then -1 else 0
  }

  /** A -1 sets its own six bits and every bit above them. */
  function Smeared(v: int, below: bool): Sextet
    requires -1 <= v < 64
  {
    if v == -1 || below then 63 else v
  }

  /** base64ToBytes of runtime/dsh/gateway.js after stripping: never fails. */
  function GatewayGroups(t: Text): Bytes
    decreases |t|
  {
    if t == [] then []
    else
      var v0, v1, v2, v3 := JsValue(t, 0), JsValue(t, 1), JsValue(t, 2), JsValue(t, 3);
      var group := Group(Smeared(v0, v1 == -1 || v2 == -1 || v3 == -1), Smeared(v1, v2 == -1 || v3 == -1),
                         Smeared(v2, v3 == -1), Smeared(v3, false));
      group[..Share(|t|)] + GatewayGroups(NextGroup(t))
  }

  function GatewayDecode(t: Text): Bytes {
    GatewayGroups(Stripped(t))
  }

  /** One character of a group in src/dsh_socket.c: padding only in the last two places. */
  function PaddedValue(c: CodeUnit, k: nat): Option<Sextet> {
    if c == PAD then (if k < 2 then None else Some(0)) else Value(c)
  }

  function PadCount(t: Text): nat
    requires |t| >= 4
  {
    (if t[2] == PAD then 1 else 0) + if t[3] == PAD then 1 else 0
  }

  /** A text of whole groups. */
  predicate Whole(t: Text) {
    |t| % 4 == 0
  }

  /** The groups of dsh_socket_write_b64; `pad` counts the padding seen so far, in earlier groups too. */
  function SocketGroups(t: Text, pad: nat): Option<Bytes>
    requires Whole(t)
    decreases |t|
  {
    if t == [] then Some([])
    else
      var d0, d1, d2, d3 := PaddedValue(t[0], 0), PaddedValue(t[1], 1), PaddedValue(t[2], 2), PaddedValue(t[3], 3);
      var seen := pad + PadCount(t);
      if d0.None? || d1.None? || d2.None? || d3.None? || seen > 2 then None
      else
        var bytes := Group(d0.value, d1.value, d2.value, d3.value)[..3 - seen];
        DropGroup(t);
        var rest := SocketGroups(t[4..], seen);
        if rest.None? then None else Some(bytes + rest.value)
  }

  lemma DropGroup(t: Text)
    requires Whole(t) && t != []
    ensures |t| >= 4 && |t[4..]| == |t| - 4 && Whole(t[4..])
  {}

  function SocketDecode(t: Text): Option<Bytes> {
    if !Whole(t) then None else SocketGroups(t, 0)
  }

  // ---- decoders that accumulate bits -----------------------------------------------------------

  /** Bits left over between two bytes: none, or the low 6, 4 or 2 bits of the last sextet. */
  datatype Rest = Nothing | Six(v: Sextet) | Four(e: Sextet) | Two(f: Sextet)

  /** The bytes completed by more sextets. */
  function Fed(rest: Rest, vs: seq<Sextet>): Bytes
    decreases |vs|
  {
    if vs == [] then []
    else
      match rest
      case Nothing => Fed(Six(vs[0]), vs[1..])
      case Six(d) => [B0(d, vs[0])] + Fed(Four(vs[0]), vs[1..])
      case Four(e) => [B1(e, vs[0])] + Fed(Two(vs[0]), vs[1..])
      case Two(f) => [B2(f, vs[0])] + Fed(Nothing, vs[1..])
  }

  /** The value of the bits left over at the end. */
  function LeftOver(rest: Rest, vs: seq<Sextet>): nat
    decreases |vs|
  {
    if vs == [] then
      match rest
      case Nothing => 0
      case Six(d) => d
      case Four(e) => e % 16
      case Two(f) => f % 4
    else
      match rest
      case Nothing => LeftOver(Six(vs[0]), vs[1..])
      case Six(_) => LeftOver(Four(vs[0]), vs[1..])
      case Four(_) => LeftOver(Two(vs[0]), vs[1..])
      case Two(_) => LeftOver(Nothing, vs[1..])
  }

  function Values(t: Text): Option<seq<Sextet>> {
    if t == [] then Some([])
    else
      var v, rest := Value(t[0]), Values(t[1..]);
      if v.None? || rest.None? then None else Some([v.value] + rest.value)
  }

  /** `endsWith('==')`, then `endsWith('=')`. */
  function StrictPad(t: Text): (n: nat)
    ensures n <= |t| && n <= 2
  {
    if |t| >= 2 && t[|t| - 1] == PAD && t[|t| - 2] == PAD then 2
    else if |t| >= 1 && t[|t| - 1] == PAD then 1
    else 0
  }

  /** b64ToBytes of runtime/dsh/ed25519.js. */
  function StrictDecode(t: Text): Option<Bytes> {
    if t == [] || |t| % 4 != 0 then None
    else
      var vs := Values(t[..|t| - StrictPad(t)]);
      if vs.None? || LeftOver(Nothing, vs.value) != 0 then None else Some(Fed(Nothing, vs.value))
  }

  /** The characters up to the first padding, when only padding follows. */
  function Unpadded(t: Text): Option<Text> {
    if t == [] then Some([])
    else if t[0] == PAD then (if forall i :: 0 <= i < |t| ==> t[i] == PAD then Some([]) else None)
    else
      var rest := Unpadded(t[1..]);
      if rest.None? then None else Some([t[0]] + rest.value)
  }

  /** dsh_b64_decode_bytes of src/dsh_runtime_host.c. */
  function HostDecode(t: Text): Option<Bytes> {
    var body := Unpadded(t);
    if body.None? || Values(body.value).None? || |body.value| % 4 == 1 then None
    else Some(Fed(Nothing, Values(body.value).value))
  }

  // ---- every decoder inverts the encoders -----------------------------------------------------------

  lemma SymbolValue(v: Sextet)
    ensures Value(Symbol(v)) == Some(v)
  {
    SymbolsAreValues(v, Symbol(v));
  }

  /** A group of four sextets. */
  function GroupOf(q: seq<Sextet>): (r: Bytes)
    requires |q| == 4
    ensures |r| == 3
  {
    Group(q[0], q[1], q[2], q[3])
  }

  lemma HeadBytes(b: Bytes)
    requires b != []
    ensures GroupOf(Head(b))[..HeadSize(b)] == b[..HeadSize(b)]
    ensures forall k :: HeadSize(b) < k < 4 ==> Head(b)[k] == 0
  {
    hide V0, V1, V2, V3, B0, B1, B2;
    var b1: Byte, b2: Byte := if |b| > 1 then b[1] else 0, if |b| > 2 then b[2] else 0;
    BytesOfValues(b[0], b1, b2);
    assert GroupOf(Head(b)) == [b[0], b1, b2];
  }

  /** The six-bit values of some bytes, the last one filled with zero bits. */
  function Sextets(b: Bytes): seq<Sextet> {
    if b == [] then [] else Head(b)[..HeadSize(b) + 1] + Sextets(b[HeadSize(b)..])
  }

  function Padding(n: nat): Text {
    if n % 3 == 0 then [] else Pads(3 - n % 3)
  }

  lemma SymbolsConcat(vs: seq<Sextet>, ws: seq<Sextet>)
    ensures Symbols(vs + ws) == Symbols(vs) + Symbols(ws)
  {
    hide Symbol;
  }

  lemma Associative(a: Text, b: Text, c: Text)
    ensures (a + b) + c == a + (b + c)
  {}

  /** An encoded text is its symbols followed by the padding its length asks for. */
  lemma EncodeIsSymbols(b: Bytes)
    ensures Encode(b) == Symbols(Sextets(b)) + Padding(|b|)
    ensures |Sextets(b)| % 4 == if |b| % 3 == 0 then 0 else |b| % 3 + 1
  {
    hide Encode, Sextets, Symbols, Padding;
    var r := |b| % 3;
    SextetsCount(b, |b| / 3, r);
    FourTimes(|b| / 3, if r == 0 then 0 else r + 1);
    EncodedSymbols(b);
  }

  lemma FourTimes(q: nat, r: nat)
    requires r < 4
    ensures (4 * q + r) % 4 == r
  {}

  lemma {:induction false} SextetsCount(b: Bytes, q: nat, r: nat)
    requires |b| == 3 * q + r && r < 3
    ensures |Sextets(b)| == 4 * q + if r == 0 then 0 else r + 1
    decreases q
  {
    hide Head;
    if q > 0 { SextetsCount(b[3..], q - 1, r); }
  }

  lemma PaddingOf(n: nat)
    ensures n >= 3 ==> Padding(n) == Padding(n - 3)
    ensures n < 3 ==> Padding(n) == if n == 0 then [] else Pads(3 - n)
  {}

  lemma {:induction false} EncodedSymbols(b: Bytes)
    ensures Encode(b) == Symbols(Sextets(b)) + Padding(|b|)
  {
    hide Symbols, Head, Padding;
    PaddingOf(|b|);
    if b != [] {
      var n := HeadSize(b);
      var q, tail := Head(b)[..n + 1], b[n..];
      if n == 3 {
        EncodedSymbols(tail);
        SymbolsConcat(q, Sextets(tail));
        assert Symbols(q) + Pads(0) == Symbols(q);
        Associative(Symbols(q), Symbols(Sextets(tail)), Padding(|tail|));
      } else {
        assert Sextets(tail) == [] && Encode(tail) == [] && q + [] == q;
        assert Symbols(q) + Pads(3 - n) + [] == Symbols(q) + Pads(3 - n);
      }
    } else {
      assert Symbols([]) == [];
    }
  }

  lemma {:induction false} ValuesOfSymbols(vs: seq<Sextet>)
    ensures Values(Symbols(vs)) == Some(vs)
  {
    hide Symbol, Value;
    if vs != [] {
      SymbolValue(vs[0]);
      assert Symbols(vs)[1..] == Symbols(vs[1..]);
      assert vs == [vs[0]] + vs[1..];
      ValuesOfSymbols(vs[1..]);
    }
  }

  lemma {:induction false} SymbolsOfValues(t: Text)
    ensures Values(t).Some? ==> Symbols(Values(t).value) == t
  {
    hide Symbol, Value;
    if t != [] && Values(t).Some? {
      var v := Value(t[0]).value;
      SymbolsAreValues(v, t[0]);
      SymbolsOfValues(t[1..]);
      assert Symbols(Values(t).value)[1..] == Symbols(Values(t[1..]).value);
      assert t == [t[0]] + t[1..];
    }
  }

  lemma {:induction false} StrippedSymbols(vs: seq<Sextet>, pad: Text)
    requires forall i :: 0 <= i < |pad| ==> pad[i] == PAD
    ensures Stripped(Symbols(vs) + pad) == Symbols(vs)
    decreases |pad|
  {
    hide Symbol;
    var t := Symbols(vs) + pad;
    if pad != [] {
      assert t[..|t| - 1] == Symbols(vs) + pad[..|pad| - 1];
      StrippedSymbols(vs, pad[..|pad| - 1]);
    } else {
      assert t == Symbols(vs);
    }
  }

  lemma {:induction false} UnpaddedSymbols(vs: seq<Sextet>, pad: Text)
    requires forall i :: 0 <= i < |pad| ==> pad[i] == PAD
    ensures Unpadded(Symbols(vs) + pad) == Some(Symbols(vs))
    decreases |vs|
  {
    hide Symbol;
    var t := Symbols(vs) + pad;
    if vs == [] {
      assert t == pad;
    } else {
      assert Symbols(vs)[1..] == Symbols(vs[1..]);
      assert t[1..] == Symbols(vs[1..]) + pad;
      UnpaddedSymbols(vs[1..], pad);
      assert [t[0]] + Symbols(vs[1..]) == Symbols(vs);
    }
  }

  // ---- groups ------------------------------------------------------------------------------------

  /** The symbols of some bytes start with those of the first group. */
  lemma HeadText(b: Bytes)
    requires b != []
    ensures
      var t, n := Symbols(Sextets(b)), HeadSize(b);
      && t != [] && Share(|t|) == n && NextGroup(t) == Symbols(Sextets(b[n..]))
      && (forall k :: 0 <= k < 4 ==> if k < |t| then t[k] == Symbol(Head(b)[k]) else Head(b)[k] == 0)
      && |t| >= 2
  {
    hide Symbol, Head, GroupOf;
    HeadBytes(b);
    var n := HeadSize(b);
    var vs, tail := Sextets(b), Sextets(b[n..]);
    assert n < 3 ==> tail == [];
    assert vs == Head(b)[..n + 1] + tail;
    assert Symbols(vs)[n + 1..] == Symbols(tail);
  }

  lemma GroupRest(b: Bytes)
    requires b != []
    ensures b[..HeadSize(b)] + b[HeadSize(b)..] == b
  {}

  lemma {:induction false} CliReadsSextets(b: Bytes)
    ensures CliGroups(Symbols(Sextets(b))) == Some(b)
    decreases |b|
  {
    if b == [] {
      assert Symbols(Sextets(b)) == [];
    } else {
      var t, q := Symbols(Sextets(b)), Head(b);
      CliReadsSextets(b[HeadSize(b)..]);
      HeadText(b);
      HeadBytes(b);
      GroupRest(b);
      forall k | 0 <= k < 4 ensures ValueAt(t, k) == Some(q[k]) { SymbolValue(q[k]); }
      hide Symbols, Sextets, ValueAt, Share, NextGroup, Group, Head, HeadSize;
    }
  }

  lemma CliDecodesEncoded(b: Bytes)
    ensures CliDecode(Encode(b)) == Some(b)
  {
    EncodeIsSymbols(b);
    StrippedSymbols(Sextets(b), Padding(|b|));
    CliReadsSextets(b);
  }

  lemma GatewayStep(t: Text, q: seq<Sextet>)
    requires t != [] && |q| == 4 && forall k :: 0 <= k < 4 ==> JsValue(t, k) == q[k]
    ensures GatewayGroups(t) == GroupOf(q)[..Share(|t|)] + GatewayGroups(NextGroup(t))
  {
    hide JsValue, Group, Share, NextGroup;
    assert JsValue(t, 0) == q[0] && JsValue(t, 1) == q[1] && JsValue(t, 2) == q[2] && JsValue(t, 3) == q[3];
  }

  lemma {:induction false} GatewayReadsSextets(b: Bytes)
    ensures GatewayGroups(Symbols(Sextets(b))) == b
    decreases |b|
  {
    if b == [] {
      assert Symbols(Sextets(b)) == [];
    } else {
      var t, q := Symbols(Sextets(b)), Head(b);
      forall k | 0 <= k < 4 ensures Value(Symbol(q[k])) == Some(q[k]) { SymbolValue(q[k]); }
      hide Symbols, Symbol, Value, Sextets, Share, NextGroup, Group, GroupOf, Head, HeadSize, GatewayGroups;
      HeadText(b);
      GatewayStep(t, q);
      GatewayReadsSextets(b[HeadSize(b)..]);
      HeadBytes(b);
      GroupRest(b);
    }
  }

  lemma GatewayDecodesEncoded(b: Bytes)
    ensures GatewayDecode(Encode(b)) == b
  {
    EncodeIsSymbols(b);
    StrippedSymbols(Sextets(b), Padding(|b|));
    GatewayReadsSextets(b);
  }

  /** The characters of the first group of an encoded text. */
  lemma EncodedGroup(b: Bytes)
    requires b != []
    ensures
      var t, n := Encode(b), HeadSize(b);
      && |t| >= 4 && PadCount(t) == 3 - n && t[4..] == Encode(b[n..]) && (n < 3 ==> t[4..] == [])
      && forall k :: 0 <= k < 4 ==> PaddedValue(t[k], k) == Some(Head(b)[k])
  {
    hide Symbol, Value, Head, GroupOf;
    HeadBytes(b);
    var q, n := Head(b), HeadSize(b);
    forall k | 0 <= k < 4 ensures Value(Symbol(q[k])) == Some(q[k]) { SymbolValue(q[k]); }
    var t := Encode(b);
    assert forall k :: 0 <= k <= n ==> t[k] == Symbol(q[k]);
    assert forall k :: n < k < 4 ==> t[k] == PAD;
  }

  lemma SocketGroupStep(t: Text, q: seq<Sextet>)
    requires |t| >= 4 && Whole(t) && |q| == 4 && PadCount(t) <= 2 && (PadCount(t) > 0 ==> t[4..] == [])
    requires forall k :: 0 <= k < 4 ==> PaddedValue(t[k], k) == Some(q[k])
    ensures Whole(t[4..])
    ensures SocketGroups(t, 0)
         == match SocketGroups(t[4..], 0)
            case None => None
            case Some(rest) => Some(GroupOf(q)[..3 - PadCount(t)] + rest)
  {
    DropGroup(t);
    SocketGroupUnfolds(t, q, 0);
    hide PaddedValue, Group, PadCount, SocketGroups;
    if PadCount(t) > 0 { SocketNothingLeft(PadCount(t)); }
  }

  lemma SocketNothingLeft(pad: nat)
    ensures SocketGroups([], pad) == Some([])
  {}

  lemma SocketGroupUnfolds(t: Text, q: seq<Sextet>, pad: nat)
    requires |t| >= 4 && Whole(t) && |q| == 4 && pad + PadCount(t) <= 2
    requires forall k :: 0 <= k < 4 ==> PaddedValue(t[k], k) == Some(q[k])
    ensures Whole(t[4..])
    ensures SocketGroups(t, pad)
         == match SocketGroups(t[4..], pad + PadCount(t))
            case None => None
            case Some(rest) => Some(GroupOf(q)[..3 - pad - PadCount(t)] + rest)
  {
    DropGroup(t);
    hide PaddedValue, Group, PadCount;
  }

  lemma EncodeNothing()
    ensures Encode([]) == [] && SocketGroups([], 0) == Some([])
  {}

  lemma {:induction false} SocketDecodesEncoded(b: Bytes)
    ensures Whole(Encode(b)) && SocketGroups(Encode(b), 0) == Some(b)
    decreases |b|
  {
    hide Encode, PaddedValue, Group, GroupOf, PadCount, Head, HeadSize, SocketGroups;
    if b == [] {
      EncodeNothing();
    } else {
      var t, n := Encode(b), HeadSize(b);
      EncodedGroup(b);
      SocketDecodesEncoded(b[n..]);
      assert |t| == 4 + |t[4..]|;
      SocketGroupStep(t, Head(b));
      HeadBytes(b);
      GroupRest(b);
    }

  }

  // ---- bits ----------------------------------------------------------------------------------------

  lemma FedNothing(rest: Rest)
    ensures Fed(rest, []) == []
    ensures LeftOver(rest, []) == match rest case Nothing => 0 case Six(d) => d case Four(e) => e % 16 case Two(f) => f % 4
  {}

  /** One byte from the first two sextets, another from the third, another from the fourth. */
  lemma FedTwo(vs: seq<Sextet>)
    requires |vs| >= 2
    ensures Fed(Nothing, vs) == [B0(vs[0], vs[1])] + Fed(Four(vs[1]), vs[2..])
    ensures LeftOver(Nothing, vs) == LeftOver(Four(vs[1]), vs[2..])
  {
    hide B0;
    assert vs[1..][1..] == vs[2..];
    assert Fed(Nothing, vs) == Fed(Six(vs[0]), vs[1..]) && LeftOver(Nothing, vs) == LeftOver(Six(vs[0]), vs[1..]);
  }

  lemma FedThree(e: Sextet, vs: seq<Sextet>)
    requires |vs| >= 1
    ensures Fed(Four(e), vs) == [B1(e, vs[0])] + Fed(Two(vs[0]), vs[1..])
    ensures LeftOver(Four(e), vs) == LeftOver(Two(vs[0]), vs[1..])
  {}

  lemma FedFour(f: Sextet, vs: seq<Sextet>)
    requires |vs| >= 1
    ensures Fed(Two(f), vs) == [B2(f, vs[0])] + Fed(Nothing, vs[1..])
    ensures LeftOver(Two(f), vs) == LeftOver(Nothing, vs[1..])
  {}

  lemma ThreeThen(x: Byte, y: Byte, z: Byte, rest: Bytes)
    ensures [x] + ([y] + ([z] + rest)) == [x, y, z] + rest
  {}

  lemma FedGroup(vs: seq<Sextet>)
    requires |vs| >= 4
    ensures Fed(Nothing, vs) == GroupOf(vs[..4]) + Fed(Nothing, vs[4..]) && LeftOver(Nothing, vs) == LeftOver(Nothing, vs[4..])
  {
    hide Fed, LeftOver, B0, B1, B2;
    FedTwo(vs);
    FedThree(vs[1], vs[2..]);
    FedFour(vs[2], vs[2..][1..]);
    assert vs[2..][1..][1..] == vs[4..] && vs[2..][1..][0] == vs[3];
    ThreeThen(B0(vs[0], vs[1]), B1(vs[1], vs[2]), B2(vs[2], vs[3]), Fed(Nothing, vs[4..]));
  }

  /** A last group of two or three sextets. */
  lemma FedTail(vs: seq<Sextet>)
    requires 2 <= |vs| <= 3
    ensures |vs| == 2 ==> Fed(Nothing, vs) == [B0(vs[0], vs[1])] && LeftOver(Nothing, vs) == vs[1] % 16
    ensures |vs| == 3 ==> Fed(Nothing, vs) == [B0(vs[0], vs[1]), B1(vs[1], vs[2])] && LeftOver(Nothing, vs) == vs[2] % 4
  {
    hide Fed, LeftOver, B0, B1, B2;
    FedTwo(vs);
    if |vs| == 2 {
      assert vs[2..] == [];
      FedNothing(Four(vs[1]));
    } else {
      FedThree(vs[1], vs[2..]);
      assert vs[2..][1..] == [];
      FedNothing(Two(vs[2]));
    }
  }

  /** The bits of some bytes give the bytes back and leave nothing but zeros. */
  lemma {:induction false} FedReadsSextets(b: Bytes)
    ensures Fed(Nothing, Sextets(b)) == b && LeftOver(Nothing, Sextets(b)) == 0
    decreases |b|
  {
    hide Fed, LeftOver, Head, GroupOf;
    if b == [] {
      FedNothing(Nothing);
    } else {
      var q, n := Head(b), HeadSize(b);
      var vs, tail := Sextets(b), Sextets(b[n..]);
      assert vs == q[..n + 1] + tail;
      assert n < 3 ==> tail == [];
      hide Sextets, HeadSize;
      FedReadsSextets(b[n..]);
      HeadBytes(b);
      GroupRest(b);
      if n == 3 {
        assert vs[..4] == q && vs[4..] == tail;
        FedGroup(vs);
      } else {
        assert vs == q[..n + 1];
        FedTail(vs);
        TailBytes(b);
      }
    }

  }

  lemma TailBytes(b: Bytes)
    requires b != [] && |b| < 3
    ensures
      var q := Head(b);
      && (|b| == 1 ==> [B0(q[0], q[1])] == b && q[1] % 16 == 0)
      && (|b| == 2 ==> [B0(q[0], q[1]), B1(q[1], q[2])] == b && q[2] % 4 == 0)
  {
    hide V0, V1, V2, V3, B0, B1, B2;
    BytesOfValues(b[0], if |b| > 1 then b[1] else 0, 0);
  }

  /** Conversely, sextets that leave only zeros are the sextets of the bytes they give. */
  lemma {:induction false} SextetsOfFed(vs: seq<Sextet>)
    requires |vs| % 4 != 1 && LeftOver(Nothing, vs) == 0
    ensures Sextets(Fed(Nothing, vs)) == vs
    decreases |vs|
  {
    hide Fed, LeftOver, Sextets, B0, B1;
    if vs == [] {
      FedNothing(Nothing);
      NoSextets();
    } else if |vs| < 4 {
      FedTail(vs);
      TailSextets(vs);
    } else {
      LeftOverOfGroup(vs);
      SextetsOfFed(vs[4..]);
      SextetsOfGroup(vs);
    }
  }

  lemma {:induction false} FedSizeAt(vs: seq<Sextet>, q: nat, r: nat)
    requires |vs| == 4 * q + r && r < 4 && r != 1
    ensures |Fed(Nothing, vs)| == 3 * q + if r == 0 then 0 else r - 1
    decreases q
  {
    hide Fed, B0, B1;
    if q > 0 {
      FedGroup(vs);
      FedSizeAt(vs[4..], q - 1, r);
    } else if r == 0 {
      assert vs == [];
      FedNothing(Nothing);
    } else {
      FedTail(vs);
    }
  }

  lemma FedSize(vs: seq<Sextet>)
    requires |vs| % 4 != 1
    ensures |Fed(Nothing, vs)| % 3 == if |vs| % 4 == 0 then 0 else |vs| % 4 - 1
  {
    hide Fed;
    FedSizeAt(vs, |vs| / 4, |vs| % 4);
  }

  lemma LeftOverOfGroup(vs: seq<Sextet>)
    requires |vs| >= 4
    ensures LeftOver(Nothing, vs) == LeftOver(Nothing, vs[4..])
  {
    FedGroup(vs);
  }

  lemma SextetsOfGroup(vs: seq<Sextet>)
    requires |vs| >= 4 && Sextets(Fed(Nothing, vs[4..])) == vs[4..]
    ensures Sextets(Fed(Nothing, vs)) == vs && |Fed(Nothing, vs)| == 3 + |Fed(Nothing, vs[4..])|
  {
    hide Fed, LeftOver, GroupOf, Head, Sextets;
    FedGroup(vs);
    var b, more := Fed(Nothing, vs), Fed(Nothing, vs[4..]);
    HeadOfGroup(vs[..4], more);
    assert b[3..] == more;
    SextetsStep(b);
    assert vs[..4] + vs[4..] == vs;
  }

  lemma NoSextets()
    ensures Sextets([]) == []
  {}

  lemma SextetsStep(b: Bytes)
    requires |b| >= 3
    ensures Sextets(b) == Head(b) + Sextets(b[3..])
  {
    hide Head;
    assert HeadSize(b) == 3;
    assert Head(b)[..4] == Head(b);
  }

  lemma HeadOfGroup(q: seq<Sextet>, rest: Bytes)
    requires |q| == 4
    ensures Head(GroupOf(q) + rest) == q && HeadSize(GroupOf(q) + rest) == 3
  {
    hide Quad, V0, V1, V2, V3, B0, B1, B2;
    QuadOfGroup(q[0], q[1], q[2], q[3]);
  }

  lemma QuadOfGroup(d: Sextet, e: Sextet, f: Sextet, g: Sextet)
    ensures Quad(B0(d, e), B1(e, f), B2(f, g)) == [d, e, f, g]
  {
    hide V0, V1, V2, V3, B0, B1, B2;
    ValuesOfBytes(d, e, f, g);
  }

  lemma TailSextets(vs: seq<Sextet>)
    requires 2 <= |vs| <= 3
    ensures |vs| == 2 && vs[1] % 16 == 0 ==> Sextets([B0(vs[0], vs[1])]) == vs
    ensures |vs| == 3 && vs[2] % 4 == 0 ==> Sextets([B0(vs[0], vs[1]), B1(vs[1], vs[2])]) == vs
  {
    hide Sextets, V0, V1, V2, V3, B0, B1, B2;
    var f := if |vs| == 3 then vs[2] else 0;
    ValuesOfBytes(vs[0], vs[1], f, 0);
    OneOrTwo(B0(vs[0], vs[1]), B1(vs[1], f));
    hide Sextets;
  }

  lemma OneOrTwo(x: Byte, y: Byte)
    ensures Sextets([x]) == Quad(x, 0, 0)[..2] && Sextets([x, y]) == Quad(x, y, 0)[..3]
  {
    hide Quad;
    assert [x][1..] == [] && [x, y][2..] == [];
    assert Sextets([]) == [];
  }

  // ---- main results ------------------------------------------------------------------------------------

  lemma HostDecodesEncoded(b: Bytes)
    ensures HostDecode(Encode(b)) == Some(b)
  {
    EncodeIsSymbols(b);
    UnpaddedSymbols(Sextets(b), Padding(|b|));
    ValuesOfSymbols(Sextets(b));
    FedReadsSextets(b);
  }

  /** b64ToBytes accepts exactly the encodings of non-empty byte strings: non-zero pad bits, stray
      padding and missing padding are refused, so no two accepted texts give the same bytes. */
  lemma StrictDecodesExactly(t: Text, b: Bytes)
    ensures StrictDecode(t) == Some(b) <==> (t == Encode(b) && b != [])
  {
    if t == Encode(b) && b != [] { StrictDecodesEncoded(b); }
    if StrictDecode(t) == Some(b) { StrictIsCanonical(t); }
  }

  lemma StrictIsCanonical(t: Text)
    requires StrictDecode(t).Some?
    ensures t == Encode(StrictDecode(t).value) && StrictDecode(t).value != []
  {
    var clean := t[..|t| - StrictPad(t)];
    var vs, b := Values(clean).value, StrictDecode(t).value;
    SymbolsOfValues(clean);
    StrictLength(t);
    hide Fed, LeftOver, Values, Symbols, Sextets, Encode;
    SextetsOfFed(vs);
    FedSize(vs);
    EncodeIsSymbols(b);
    assert t == clean + t[|t| - StrictPad(t)..];
    assert t[|t| - StrictPad(t)..] == Padding(|b|);
    assert b != [] by { SomethingEncoded(b, vs); }
  }

  lemma SomethingEncoded(b: Bytes, vs: seq<Sextet>)
    requires Sextets(b) == vs && vs != []
    ensures b != []
  {}

  lemma StrictLength(t: Text)
    requires |t| % 4 == 0 && t != []
    ensures |t[..|t| - StrictPad(t)]| % 4 == (if StrictPad(t) == 0 then 0 else 4 - StrictPad(t))
    ensures t[..|t| - StrictPad(t)] != []
  {}

  lemma StrictPadOf(vs: seq<Sextet>, pad: Text)
    requires |vs| >= 2 && |pad| <= 2 && forall i :: 0 <= i < |pad| ==> pad[i] == PAD
    ensures StrictPad(Symbols(vs) + pad) == |pad|
  {
    hide Symbol;
  }

  lemma StrictDecodesEncoded(b: Bytes)
    requires b != []
    ensures StrictDecode(Encode(b)) == Some(b)
  {
    hide Fed, LeftOver, Values, Symbol, Encode, Sextets, Head;
    EncodeIsSymbols(b);
    ValuesOfSymbols(Sextets(b));
    FedReadsSextets(b);
    HeadText(b);
    var vs, pad := Sextets(b), Padding(|b|);
    StrictPadOf(vs, pad);
    var t := Symbols(vs) + pad;
    assert t[..|t| - |pad|] == Symbols(vs);
  }

  /** The five decoders give the same bytes on every canonical text. */
  lemma DecodersAgree(b: Bytes)
    requires b != []
    ensures
      var t := Encode(b);
      StrictDecode(t) == HostDecode(t) == CliDecode(t) == SocketDecode(t) == Some(GatewayDecode(t)) == Some(b)
  {
    StrictDecodesEncoded(b);
    HostDecodesEncoded(b);
    CliDecodesEncoded(b);
    SocketDecodesEncoded(b);
    GatewayDecodesEncoded(b);
    hide StrictDecode, HostDecode, CliDecode, GatewayDecode, Encode;
  }
}
