/** The loops of the base64 codecs, with their buffers and their 32-bit accumulators. */
module Base64Loops {
  import opened Wrappers
  import opened JsText
  import opened Modular
  import opened Base64

  // ---- encoders ---------------------------------------------------------------------------

  lemma EncodeStep(rest: Bytes, done: Text)
    requires rest != []
    ensures
      done + Encode(rest)
      == (done + (Symbols(Head(rest)[..HeadSize(rest) + 1]) + Pads(3 - HeadSize(rest)))) + Encode(rest[HeadSize(rest)..])
  {
    hide Head, Symbols, Pads;
    Associative(done, Symbols(Head(rest)[..HeadSize(rest) + 1]) + Pads(3 - HeadSize(rest)), Encode(rest[HeadSize(rest)..]));
  }

  /** The four characters of a group of `rem` bytes. */
  lemma GroupText(b: Bytes)
    requires b != []
    ensures
      var b1: Byte, b2: Byte := if |b| > 1 then b[1] else 0, if |b| > 2 then b[2] else 0;
      Symbols(Head(b)[..HeadSize(b) + 1]) + Pads(3 - HeadSize(b))
      == [Symbol(V0(b[0])), Symbol(V1(b[0], b1)), if |b| > 1 then Symbol(V2(b1, b2)) else PAD, if |b| > 2 then Symbol(V3(b2)) else PAD]
  {
    hide Symbol, V0, V1, V2, V3;
  }

  /** One turn of the encoders' loop. */
  method WriteGroup(out: array<CodeUnit>, o: nat, group: Bytes)
    requires group != [] && o + 4 <= out.Length
    modifies out
    ensures old(out[..o]) + Encode(group) == out[..o + 4] + Encode(group[HeadSize(group)..])
  {
    hide Symbol, V0, V1, V2, V3, Head, Symbols, Pads, Encode;
    GroupText(group);
    EncodeStep(group, out[..o]);
    var b1: Byte := if |group| > 1 then group[1] else 0;
    var b2: Byte := if |group| > 2 then group[2] else 0;
    ghost var was := out[..o];
    out[o] := Symbol(V0(group[0]));
    out[o + 1] := Symbol(V1(group[0], b1));
    out[o + 2] := if |group| > 1 then Symbol(V2(b1, b2)) else PAD;
    out[o + 3] := if |group| > 2 then Symbol(V3(b2)) else PAD;
    assert out[..o + 4] == was + [out[o], out[o + 1], out[o + 2], out[o + 3]];
  }

  /** b64_encode of example/main_cli.c, and dsh_b64_encode_bytes: the length is computed before the loop
      and is exactly what the loop writes. */
  method CliEncode(src: Bytes) returns (out: array<CodeUnit>)
    ensures fresh(out) && out.Length == (|src| + 2) / 3 * 4 && out[..] == Encode(src)
  {
    out := new CodeUnit[(|src| + 2) / 3 * 4](_ => 0);
    FillGroups(out, src);
  }

  method FillGroups(out: array<CodeUnit>, src: Bytes)
    requires out.Length == (|src| + 2) / 3 * 4
    modifies out
    ensures out[..] == Encode(src)
  {
    hide Encode, HeadSize;
    var o, i := 0, 0;
    ghost var groups := (|src| + 2) / 3;
    ghost var g := 0;
    while i < |src|
      invariant 0 <= g <= groups && i == 3 * g && o == 4 * g
      invariant Encode(src) == out[..o] + Encode(From(src, i))
    {
      FromNext(src, i);
      WriteGroup(out, o, src[i..]);
      o, i, g := o + 4, i + 3, g + 1;
    }
    EncodeNothing();
  }

  /** The bytes from offset i on, none past the end. */
  function From(src: Bytes, i: nat): Bytes {
    if i < |src| then src[i..] else []
  }

  lemma FromNext(src: Bytes, i: nat)
    requires i < |src|
    ensures From(src, i) == src[i..] && src[i..][HeadSize(src[i..])..] == From(src, i + 3)
  {}

  /** The same group read off one 24-bit word, as the socket seam's encoder does. */
  lemma WordGroup(a: Byte, b: Byte, c: Byte)
    ensures
      var v := a as int * 65536 + b as int * 256 + c;
      V0(a) == v / 262144 && V1(a, b) == v / 4096 % 64 && V2(b, c) == v / 64 % 64 && V3(c) == v % 64
  {
    var v := a as int * 65536 + b as int * 256 + c;
    var v0: int, v1: int, v2: int, v3: int := V0(a), V1(a, b), V2(b, c), V3(c);
    WordSum(a, b, c);
    hide V0, V1, V2, V3;
    RemainderIsUnique(v, 262144, v0, v1 * 4096 + v2 * 64 + v3);
    RemainderIsUnique(v, 4096, v0 * 64 + v1, v2 * 64 + v3);
    RemainderIsUnique(v, 64, (v0 * 64 + v1) * 64 + v2, v3);
    RemainderIsUnique(v0 * 64 + v1, 64, v0, v1);
    RemainderIsUnique((v0 * 64 + v1) * 64 + v2, 64, v0 * 64 + v1, v2);
  }

  lemma WordSum(a: Byte, b: Byte, c: Byte)
    ensures a as int * 65536 + b as int * 256 + c == V0(a) as int * 262144 + V1(a, b) as int * 4096 + V2(b, c) as int * 64 + V3(c)
  {}

  /** One turn of the socket seam's loop. */
  method WriteWordGroup(out: array<CodeUnit>, o: nat, group: Bytes)
    requires group != [] && o + 4 <= out.Length
    modifies out
    ensures old(out[..o]) + Encode(group) == out[..o + 4] + Encode(group[HeadSize(group)..])
  {
    hide Symbol, V0, V1, V2, V3, Head, Symbols, Pads, Encode;
    GroupText(group);
    EncodeStep(group, out[..o]);
    var rem := |group|;
    var v: nat := group[0] as int * 65536;
    if rem > 1 { v := v + group[1] as int * 256; }
    if rem > 2 { v := v + group[2] as int; }
    WordGroup(group[0], if rem > 1 then group[1] else 0, if rem > 2 then group[2] else 0);
    ghost var was := out[..o];
    out[o] := Symbol(v / 262144);
    out[o + 1] := Symbol(v / 4096 % 64);
    out[o + 2] := if rem > 1 then Symbol(v / 64 % 64) else PAD;
    out[o + 3] := if rem > 2 then Symbol(v % 64) else PAD;
    assert out[..o + 4] == was + [out[o], out[o + 1], out[o + 2], out[o + 3]];
  }

  /** b64_encode of src/dsh_socket.c: three bytes in one word, four symbols shifted out of it. */
  method SocketEncode(bytes: Bytes) returns (out: array<CodeUnit>)
    ensures fresh(out) && out.Length == (|bytes| + 2) / 3 * 4 && out[..] == Encode(bytes)
  {
    out := new CodeUnit[(|bytes| + 2) / 3 * 4](_ => 0);
    FillWordGroups(out, bytes);
  }

  method FillWordGroups(out: array<CodeUnit>, bytes: Bytes)
    requires out.Length == (|bytes| + 2) / 3 * 4
    modifies out
    ensures out[..] == Encode(bytes)
  {
    hide Encode, HeadSize;
    var at, i := 0, 0;
    ghost var groups := (|bytes| + 2) / 3;
    ghost var g := 0;
    while i < |bytes|
      invariant 0 <= g <= groups && i == 3 * g && at == 4 * g
      invariant Encode(bytes) == out[..at] + Encode(From(bytes, i))
    {
      FromNext(bytes, i);
      WriteWordGroup(out, at, bytes[i..]);
      at, i, g := at + 4, i + 3, g + 1;
    }
    EncodeNothing();
  }

  // ---- bit accumulators ----------------------------------------------------------------------

  /** The signed 32-bit value a JavaScript shift leaves. */
  function ToInt32(x: int): (r: int)
    ensures -0x8000_0000 <= r < 0x8000_0000 && Cong(r, x, 0x1_0000_0000)
  {
    CongWrap(x);
    (x + 0x8000_0000) % 0x1_0000_0000 - 0x8000_0000
  }

  lemma CongWrap(x: int)
    ensures Cong((x + 0x8000_0000) % 0x1_0000_0000 - 0x8000_0000, x, 0x1_0000_0000)
  {
    CongByMultiple((x + 0x8000_0000) % 0x1_0000_0000 - 0x8000_0000, x, 0x1_0000_0000, -((x + 0x8000_0000) / 0x1_0000_0000));
  }

  /** The accumulator holds the left-over bits in its low end; what is above them is garbage. */
  predicate Holds(acc: int, bits: nat, rest: Rest) {
    match rest
    case Nothing => bits == 0
    case Six(d) => bits == 6 && acc % 64 == d
    case Four(e) => bits == 4 && acc % 64 == e
    case Two(f) => bits == 2 && acc % 64 == f
  }

  /** What one more sextet makes of the left-over bits. */
  function Taken(rest: Rest, v: Sextet): Rest {
    match rest
    case Nothing => Six(v)
    case Six(_) => Four(v)
    case Four(_) => Two(v)
    case Two(_) => Nothing
  }

  function Emitted(rest: Rest, v: Sextet): Bytes {
    match rest
    case Nothing => []
    case Six(d) => [B0(d, v)]
    case Four(e) => [B1(e, v)]
    case Two(f) => [B2(f, v)]
  }

  /** Shifting a sextet in wraps the accumulator at 32 bits and still yields the right byte. */
  lemma ShiftIn(acc: int, next: int, bits: nat, rest: Rest, v: Sextet)
    requires Holds(acc, bits, rest) && Cong(next, acc * 64 + v, 0x1_0000_0000)
    ensures bits + 6 < 8 ==> Holds(next, bits + 6, Taken(rest, v)) && Emitted(rest, v) == []
    ensures bits + 6 >= 8 ==>
              var unit := if bits == 6 then 16 else if bits == 4 then 4 else 1;
              Emitted(rest, v) == [next / unit % 256] && Holds(next, bits - 2, Taken(rest, v))
  {
    var k := CongMultiple(next, acc * 64 + v, 0x1_0000_0000);
    assert next == (acc + k * 67108864) * 64 + v;
    RemainderIsUnique(next, 64, acc + k * 67108864, v);
    var a := acc / 64;
    if bits == 6 {
      assert acc == a * 64 + rest.v;
      NextBytes(next, a + k * 1048576, rest.v, v);
    } else if bits == 4 {
      assert acc == a * 64 + rest.e;
      NextBytes(next, a + k * 1048576, rest.e, v);
    } else if bits == 2 {
      assert acc == a * 64 + rest.f;
      NextBytes(next, a + k * 1048576, rest.f, v);
    }
  }

  lemma NextBytes(next: int, high: int, d: Sextet, v: Sextet)
    requires next == high * 4096 + d as int * 64 + v
    ensures next / 16 % 256 == B0(d, v) && next / 4 % 256 == B1(d, v) && next % 256 == B2(d, v)
  {
    TopByte(next, high, d, v);
    MiddleByte(next, high, d, v);
    LowByte(next, high, d, v);
  }

  lemma TopByte(next: int, high: int, d: Sextet, v: Sextet)
    requires next == high * 4096 + d as int * 64 + v
    ensures next / 16 % 256 == B0(d, v)
  {
    var b: int := B0(d, v);
    RemainderIsUnique(next, 16, high * 256 + b, v % 16);
    RemainderIsUnique(high * 256 + b, 256, high, b);
  }

  lemma MiddleByte(next: int, high: int, d: Sextet, v: Sextet)
    requires next == high * 4096 + d as int * 64 + v
    ensures next / 4 % 256 == B1(d, v)
  {
    var b: int := B1(d, v);
    RemainderIsUnique(next, 4, high * 1024 + d / 16 * 256 + b, v % 4);
    RemainderIsUnique(high * 1024 + d / 16 * 256 + b, 256, high * 4 + d / 16, b);
  }

  lemma LowByte(next: int, high: int, d: Sextet, v: Sextet)
    requires next == high * 4096 + d as int * 64 + v
    ensures next % 256 == B2(d, v)
  {
    var b: int := B2(d, v);
    RemainderIsUnique(next, 256, high * 16 + d / 4, b);
  }

  lemma FedOne(rest: Rest, vs: seq<Sextet>)
    requires vs != []
    ensures Fed(rest, vs) == Emitted(rest, vs[0]) + Fed(Taken(rest, vs[0]), vs[1..])
    ensures LeftOver(rest, vs) == LeftOver(Taken(rest, vs[0]), vs[1..])
  {
    hide B0, B1, B2;
    if rest.Nothing? { assert [] + Fed(Six(vs[0]), vs[1..]) == Fed(Six(vs[0]), vs[1..]); }
  }

  /** How many bytes n sextets give from each state. */
  function Room(rest: Rest, n: nat): nat {
    match rest
    case Nothing => n * 6 / 8
    case Six(_) => (6 + n * 6) / 8
    case Four(_) => (4 + n * 6) / 8
    case Two(_) => (2 + n * 6) / 8
  }

  lemma {:induction false} FedLength(rest: Rest, vs: seq<Sextet>)
    ensures |Fed(rest, vs)| == Room(rest, |vs|)
    decreases |vs|
  {
    if vs != [] {
      FedOne(rest, vs);
      FedLength(Taken(rest, vs[0]), vs[1..]);
      hide Fed;
    }
  }

  // ---- the decoders that accumulate bits -------------------------------------------------------

  /** The left-over bits after some sextets. */
  function After(vs: seq<Sextet>): Rest {
    if vs == [] then Nothing else Taken(After(vs[..|vs| - 1]), vs[|vs| - 1])
  }

  lemma {:induction false} FedNext(rest: Rest, vs: seq<Sextet>, v: Sextet, last: Rest)
    requires Reaches(rest, vs, last)
    ensures Fed(rest, vs + [v]) == Fed(rest, vs) + Emitted(last, v)
    decreases |vs|
  {
    hide Emitted;
    if vs == [] {
      assert [] + [v] == [v] && [v][1..] == [];
      FedOne(rest, [v]);
      FedNothing(Taken(rest, v));
      FedNothing(rest);
      assert Emitted(rest, v) + [] == [] + Emitted(rest, v);
    } else {
      assert (vs + [v])[1..] == vs[1..] + [v];
      FedOne(rest, vs);
      FedOne(rest, vs + [v]);
      hide Fed;
      FedNext(Taken(rest, vs[0]), vs[1..], v, last);
      assert Emitted(rest, vs[0]) + (Fed(Taken(rest, vs[0]), vs[1..]) + Emitted(last, v))
          == (Emitted(rest, vs[0]) + Fed(Taken(rest, vs[0]), vs[1..])) + Emitted(last, v);
    }
  }

  /** Taking the sextets one after another leads from one state to the other. */
  predicate Reaches(rest: Rest, vs: seq<Sextet>, last: Rest)
    decreases |vs|
  {
    if vs == [] then rest == last else Reaches(Taken(rest, vs[0]), vs[1..], last)
  }

  lemma {:induction false} ReachesNext(rest: Rest, vs: seq<Sextet>, v: Sextet, last: Rest)
    requires Reaches(rest, vs, last)
    ensures Reaches(rest, vs + [v], Taken(last, v))
    decreases |vs|
  {
    hide Taken;
    if vs == [] {
      assert [] + [v] == [v] && [v][1..] == [];
    } else {
      assert (vs + [v])[1..] == vs[1..] + [v];
      ReachesNext(Taken(rest, vs[0]), vs[1..], v, last);
    }
  }

  lemma {:induction false} LeftOverAt(rest: Rest, vs: seq<Sextet>, last: Rest)
    requires Reaches(rest, vs, last)
    ensures LeftOver(rest, vs) == LeftOver(last, [])
    decreases |vs|
  {
    if vs != [] {
      FedOne(rest, vs);
      LeftOverAt(Taken(rest, vs[0]), vs[1..], last);
    }
  }

  lemma {:induction false} ReachesKind(vs: seq<Sextet>, last: Rest)
    requires Reaches(Nothing, vs, last)
    ensures last.Six? <==> |vs| % 4 == 1
    decreases |vs|
  {
    if |vs| >= 4 {
      assert vs[1..][1..] == vs[2..] && vs[2..][1..] == vs[3..] && vs[3..][1..] == vs[4..];
      assert Reaches(Six(vs[0]), vs[1..], last);
      assert Reaches(Four(vs[1]), vs[2..], last);
      assert Reaches(Two(vs[2]), vs[3..], last);
      ReachesKind(vs[4..], last);
    } else if |vs| >= 1 {
      assert Reaches(Six(vs[0]), vs[1..], last);
      if |vs| >= 2 {
        assert vs[1..][1..] == vs[2..];
        assert Reaches(Four(vs[1]), vs[2..], last);
        if |vs| == 3 { assert vs[2..][1..] == []; assert Reaches(Two(vs[2]), [], last); }
      }
    }
  }

  lemma {:induction false} ValuesNext(t: Text, c: CodeUnit)
    ensures Values(t + [c])
         == if Values(t).None? || Value(c).None? then None else Some(Values(t).value + [Value(c).value])
  {
    hide Value;
    if t == [] {
      assert [] + [c] == [c] && [c][1..] == [];
      var w := Value(c);
      if w.Some? {
        var none: seq<Sextet> := [];
        assert Values([]) == Some(none) && [w.value] + none == none + [w.value];
      }
    } else {
      assert (t + [c])[0] == t[0] && (t + [c])[1..] == t[1..] + [c];
      ValuesNext(t[1..], c);
      var v, more, w := Value(t[0]), Values(t[1..]), Value(c);
      if v.Some? && more.Some? && w.Some? {
        assert [v.value] + (more.value + [w.value]) == ([v.value] + more.value) + [w.value];
      }
    }
  }

  lemma {:induction false} ValuesPrefix(t: Text, i: nat)
    requires i <= |t| && Values(t[..i]).None?
    ensures Values(t).None?
    decreases |t|
  {
    hide Value;
    assert i > 0 ==> t[..i][0] == t[0] && t[..i][1..] == t[1..][..i - 1];
    if t != [] && i > 0 && Value(t[0]).Some? { ValuesPrefix(t[1..], i - 1); }
  }

  /** One turn of either accumulator loop: `out` has room for every byte of `total` sextets. */
  method Accumulate(out: array<Byte>, at: nat, acc: int, bits: nat, next: int,
                    ghost vs: seq<Sextet>, ghost rest: Rest, v: Sextet, ghost total: nat)
    returns (at2: nat, bits2: nat)
    requires Reaches(Nothing, vs, rest) && Holds(acc, bits, rest) && Cong(next, acc * 64 + v, 0x1_0000_0000)
    requires |vs| < total && Room(Nothing, total) <= out.Length && at <= out.Length && out[..at] == Fed(Nothing, vs)
    modifies out
    ensures Reaches(Nothing, vs + [v], Taken(rest, v)) && Holds(next, bits2, Taken(rest, v))
    ensures at2 <= out.Length && out[..at2] == Fed(Nothing, vs + [v])
  {
    hide Fed, Holds, Emitted, Taken;
    ReachesNext(Nothing, vs, v, rest);
    FedNext(Nothing, vs, v, rest);
    FedLength(Nothing, vs + [v]);
    HoldsBits(acc, bits, rest);
    ShiftIn(acc, next, bits, rest, v);
    at2, bits2 := at, bits + 6;
    if bits2 >= 8 {
      bits2 := bits2 - 8;
      ghost var was := out[..at];
      var unit := if bits2 == 4 then 16 else if bits2 == 2 then 4 else 1;
      out[at] := next / unit % 256;
      at2 := at + 1;
      assert out[..at2] == was + [out[at]];
    } else {
      assert out[..at] + [] == out[..at];
    }
  }

  lemma HoldsBits(acc: int, bits: nat, rest: Rest)
    requires Holds(acc, bits, rest)
    ensures bits == 0 || bits == 2 || bits == 4 || bits == 6
    ensures bits == 6 <==> rest.Six?
    ensures (bits == 6 ==> acc % 64 == LeftOver(rest, [])) && (bits == 4 ==> acc % 16 == LeftOver(rest, []))
    ensures (bits == 2 ==> acc % 4 == LeftOver(rest, [])) && (bits == 0 ==> 0 == LeftOver(rest, []))
  {
    if bits == 4 || bits == 2 {
      var q := acc / 64;
      assert acc == q * 64 + acc % 64;
      RemainderIsUnique(acc, 16, q * 4 + acc % 64 / 16, acc % 64 % 16);
      RemainderIsUnique(acc, 4, q * 16 + acc % 64 / 4, acc % 64 % 4);
    }
  }

  /** What the strict decoder answers once every character is in the accumulator. */
  lemma StrictEnd(text: Text, clean: Text, vs: seq<Sextet>, rest: Rest, acc: int, bits: nat)
    requires text != [] && |text| % 4 == 0 && clean == text[..|text| - StrictPad(text)] && Values(clean) == Some(vs)
    requires Reaches(Nothing, vs, rest) && Holds(acc, bits, rest)
    ensures
      var spare := if bits == 6 then acc % 64 else if bits == 4 then acc % 16 else acc % 4;
      StrictDecode(text) == if bits > 0 && spare != 0 then None else Some(Fed(Nothing, vs))
    ensures |Fed(Nothing, vs)| == |vs| * 6 / 8
  {
    hide Reaches, Holds, Fed, LeftOver, Values, StrictPad;
    HoldsBits(acc, bits, rest);
    LeftOverAt(Nothing, vs, rest);
    FedLength(Nothing, vs);
  }

  /** b64ToBytes of runtime/dsh/ed25519.js; None is the thrown error. */
  method StrictDecoder(text: Text) returns (r: Option<Bytes>)
    ensures r == StrictDecode(text)
  {
    if text == [] || |text| % 4 != 0 { return None; }
    var clean := text[..|text| - StrictPad(text)];
    var out := new Byte[|clean| * 6 / 8](_ => 0);
    var bits: nat, acc: int, at: nat := 0, 0, 0;
    ghost var vs: seq<Sextet>, rest := [], Nothing;
    FedNothing(Nothing);
    assert Values(clean).None? ==> StrictDecode(text) == None;
    hide Fed, LeftOver, Holds, Taken, StrictPad, StrictDecode;
    assert Holds(0, 0, Nothing) by { NothingHeld(0); }
    var i := 0;
    while i < |clean|
      invariant 0 <= i <= |clean| && |vs| == i && Values(clean[..i]) == Some(vs)
      invariant Reaches(Nothing, vs, rest) && Holds(acc, bits, rest)
      invariant at <= out.Length && out[..at] == Fed(Nothing, vs)
    {
      var v := Value(clean[i]);
      assert clean[..i + 1] == clean[..i] + [clean[i]];
      ValuesNext(clean[..i], clean[i]);
      if v.None? {
        ValuesPrefix(clean, i + 1);
        return None;
      }
      var next := ToInt32(ToInt32(acc * 64) + v.value);
      ShiftWraps(acc, v.value);
      at, bits := Accumulate(out, at, acc, bits, next, vs, rest, v.value, |clean|);
      acc := next;
      vs, rest := vs + [v.value], Taken(rest, v.value);
      i := i + 1;
    }
    assert clean[..i] == clean;
    StrictEnd(text, clean, vs, rest, acc, bits);
    if bits > 0 && (if bits == 6 then acc % 64 else if bits == 4 then acc % 16 else acc % 4) != 0 { return None; }
    assert out[..at] == out[..];
    r := Some(out[..]);
  }

  lemma NothingHeld(acc: int)
    ensures Holds(acc, 0, Nothing)
  {}

  /** Or-ing the sextet into the shifted accumulator is adding it. */
  lemma ShiftWraps(acc: int, v: Sextet)
    ensures Cong(ToInt32(ToInt32(acc * 64) + v), acc * 64 + v, 0x1_0000_0000)
  {
    var m := 0x1_0000_0000;
    var k := CongMultiple(ToInt32(acc * 64), acc * 64, m);
    CongByMultiple(ToInt32(acc * 64) + v, acc * 64 + v, m, k);
  }

  // ---- the decoders that work on groups ------------------------------------------------------------

  /** The `max` b64_decode computes for n characters that are not padding. */
  function CliRoom(n: nat): nat {
    n / 4 * 3 + if n % 4 != 0 then n % 4 - 1 else 0
  }

  lemma CliRoomOfGroups(n: nat, g: nat)
    requires n > 4 * g
    ensures 3 * g + Share(n - 4 * g) <= CliRoom(n) + 1
    ensures n > 4 * g + 3 ==> 3 * g + 3 <= CliRoom(n)
    ensures n <= 4 * g + 4 ==> 3 * g + Share(n - 4 * g) == CliRoom(n) + if n % 4 == 1 then 1 else 0
  {
    var q := n / 4;
    assert n == 4 * q + n % 4 && q >= g;
  }

  /** One turn of the loop: the bytes of a group of `rem` characters. */
  method StoreShare(out: array<Byte>, o: nat, word: Bytes, rem: nat) returns (next: nat)
    requires |word| == 3 && rem >= 1 && o + Share(rem) <= out.Length
    modifies out
    ensures next == o + Share(rem) && out[..next] == old(out[..o]) + word[..Share(rem)]
  {
    ghost var was := out[..o];
    out[o] := word[0];
    next := o + 1;
    if rem > 2 { out[next] := word[1]; next := next + 1; }
    if rem > 3 { out[next] := word[2]; next := next + 1; }
    assert out[..next] == was + word[..Share(rem)];
  }

  /** b64_decode of example/main_cli.c: `o` stays within the max + 1 bytes allocated, and passes max
      exactly when a single character is left over. */
  method CliDecoder(src: Text) returns (r: Option<Bytes>, ghost max: nat)
    ensures r == CliDecode(src)
    ensures max == CliRoom(|Stripped(src)|)
    ensures r.Some? ==> |r.value| <= max + 1 && (|r.value| > max <==> |Stripped(src)| % 4 == 1)
  {
    var len := |src|;
    assert src[..len] == src;
    while len > 0 && src[len - 1] == PAD
      invariant 0 <= len <= |src| && Stripped(src[..len]) == Stripped(src)
    {
      assert src[..len][..len - 1] == src[..len - 1];
      len := len - 1;
    }
    var t := src[..len];
    assert Stripped(t) == t;
    var size := CliRoom(len);
    max := size;
    var out := new Byte[size + 1](_ => 0);
    var o, i: nat := 0, 0;
    ghost var g := 0;
    OptionPrefixNone(CliGroups(t));
    hide Stripped, CliGroups, Value, Group, OptionPrefix, CliRoom, Share, TextFrom;
    assert TextFrom(t, 0) == t by { TextFromStart(t); }
    assert CliRoom(0) == 0 by { CliRoomOfNothing(); }
    while i < len
      invariant i == 4 * g && o <= size + 1
      invariant if i < len then o == 3 * g else o == size + if len % 4 == 1 then 1 else 0
      invariant CliGroups(t) == OptionPrefix(out[..o], CliGroups(TextFrom(t, i)))
    {
      ghost var rest := TextFrom(t, i);
      var rem := len - i;
      var v0 := Value(t[i]);
      var v1 := if rem > 1 then Value(t[i + 1]) else Some(0);
      var v2 := if rem > 2 then Value(t[i + 2]) else Some(0);
      var v3 := if rem > 3 then Value(t[i + 3]) else Some(0);
      CliValues(t, i);
      CliPrefix(out[..o], rest, v0, v1, v2, v3);
      TextFromNext(t, i);
      if v0.None? || v1.None? || v2.None? || v3.None? { return None, size; }
      CliRoomOfGroups(len, g);
      o := StoreShare(out, o, Group(v0.value, v1.value, v2.value, v3.value), rem);
      i := i + 4;
      g := g + 1;
    }
    CliNothing(out[..o]);
    r := Some(out[..o]);
  }

  /** The characters from offset i on, none past the end. */
  function TextFrom(t: Text, i: nat): Text {
    if i < |t| then t[i..] else []
  }

  lemma TextFromStart(t: Text)
    ensures TextFrom(t, 0) == t && TextFrom(t, |t|) == []
  {}

  lemma CliRoomOfNothing()
    ensures CliRoom(0) == 0
  {}

  lemma CliValues(t: Text, i: nat)
    requires i < |t|
    ensures
      var rest, rem := TextFrom(t, i), |t| - i;
      && rest != [] && |rest| == rem
      && ValueAt(rest, 0) == Value(t[i])
      && ValueAt(rest, 1) == (if rem > 1 then Value(t[i + 1]) else Some(0))
      && ValueAt(rest, 2) == (if rem > 2 then Value(t[i + 2]) else Some(0))
      && ValueAt(rest, 3) == (if rem > 3 then Value(t[i + 3]) else Some(0))
  {
    hide Value;
  }

  lemma TextFromNext(t: Text, i: nat)
    requires i < |t|
    ensures NextGroup(TextFrom(t, i)) == TextFrom(t, i + 4) && |TextFrom(t, i)| == |t| - i
  {}

  function OptionPrefix(done: Bytes, r: Option<Bytes>): Option<Bytes> {
    if r.None? then None else Some(done + r.value)
  }

  lemma OptionPrefixTwice(done: Bytes, more: Bytes, r: Option<Bytes>)
    ensures OptionPrefix(done, OptionPrefix(more, r)) == OptionPrefix(done + more, r)
  {
    if r.Some? { Associative2(done, more, r.value); }
  }

  lemma OptionPrefixNone(r: Option<Bytes>)
    ensures r == OptionPrefix([], r)
  {
    if r.Some? { assert [] + r.value == r.value; }
  }

  lemma CliNothing(done: Bytes)
    ensures OptionPrefix(done, CliGroups([])) == Some(done)
  {
    assert done + [] == done;
  }

  lemma CliStep(t: Text, v0: Option<Sextet>, v1: Option<Sextet>, v2: Option<Sextet>, v3: Option<Sextet>)
    requires t != [] && v0 == ValueAt(t, 0) && v1 == ValueAt(t, 1) && v2 == ValueAt(t, 2) && v3 == ValueAt(t, 3)
    ensures CliGroups(t)
         == if v0.None? || v1.None? || v2.None? || v3.None? then None
            else OptionPrefix(Group(v0.value, v1.value, v2.value, v3.value)[..Share(|t|)], CliGroups(NextGroup(t)))
  {
    hide ValueAt, Group, Share, NextGroup;
  }

  lemma CliPrefix(done: Bytes, t: Text, v0: Option<Sextet>, v1: Option<Sextet>, v2: Option<Sextet>, v3: Option<Sextet>)
    requires t != [] && v0 == ValueAt(t, 0) && v1 == ValueAt(t, 1) && v2 == ValueAt(t, 2) && v3 == ValueAt(t, 3)
    ensures OptionPrefix(done, CliGroups(t))
         == if v0.None? || v1.None? || v2.None? || v3.None? then None
            else OptionPrefix(done + Group(v0.value, v1.value, v2.value, v3.value)[..Share(|t|)], CliGroups(NextGroup(t)))
  {
    assert OptionPrefix(done, None) == None;
    hide ValueAt, Group, Share, NextGroup, CliGroups, OptionPrefix;
    CliStep(t, v0, v1, v2, v3);
    if v0.Some? && v1.Some? && v2.Some? && v3.Some? {
      OptionPrefixTwice(done, Group(v0.value, v1.value, v2.value, v3.value)[..Share(|t|)], CliGroups(NextGroup(t)));
    }
  }

  /** base64ToBytes of runtime/dsh/gateway.js: the four values are or-ed into one word, where a -1 fills
      its bits and all above. */
  method GatewayDecoder(text: Text) returns (out: Bytes)
    ensures out == GatewayDecode(text)
  {
    var len := |text|;
    assert text[..len] == text;
    while len > 0 && text[len - 1] == PAD
      invariant 0 <= len <= |text| && Stripped(text[..len]) == Stripped(text)
    {
      assert text[..len][..len - 1] == text[..len - 1];
      len := len - 1;
    }
    var clean := text[..len];
    assert Stripped(clean) == clean;
    out := [];
    var i := 0;
    assert [] + GatewayGroups(clean) == GatewayGroups(clean);
    hide Stripped, GatewayGroups, JsValue, Ored, ByteOf, Share, NextGroup;
    while i < len
      invariant 0 <= i
      invariant GatewayGroups(clean) == out + GatewayGroups(TextFrom(clean, i))
    {
      ghost var rest := TextFrom(clean, i);
      var rem := len - i;
      var n := Ored(JsValue(clean[i..], 0), JsValue(clean[i..], 1), JsValue(clean[i..], 2), JsValue(clean[i..], 3));
      WordOf(rest);
      TextFromNext(clean, i);
      Associative2(out, Word(rest)[..Share(rem)], GatewayGroups(NextGroup(rest)));
      out := PushBytes(out, n, rem);
      i := i + 4;
    }
    GatewayNothing(out);
  }

  /** The two or three pushes of one turn. */
  method PushBytes(out: Bytes, n: int, rem: nat) returns (r: Bytes)
    ensures r == out + [ByteOf(n, 65536), ByteOf(n, 256), ByteOf(n, 1)][..Share(rem)]
  {
    hide ByteOf;
    r := out + [ByteOf(n, 65536)];
    if rem > 2 { r := r + [ByteOf(n, 256)]; }
    if rem > 3 { r := r + [ByteOf(n, 1)]; }
    assert r == out + [ByteOf(n, 65536), ByteOf(n, 256), ByteOf(n, 1)][..Share(rem)];
  }

  /** `acc | (v << k)` in signed arithmetic, unit being 2^k, for an acc whose bits below 64 * unit are
      clear (see OrAddsOrFills): a sextet is added, a -1 sets every bit from k up. */
  function OrField(acc: int, v: int, unit: int): int {
    if v == -1 then -unit else acc + v * unit
  }

  /** On machine words: or-ing a shifted sextet into clear bits adds it, and or-ing a shifted -1 leaves
      just that. */
  lemma OrAddsOrFills(acc: bv32, v: bv32, k: nat)
    requires k == 0 || k == 6 || k == 12
    requires v < 64 && acc & (if k == 0 then 0x3F else if k == 6 then 0xFFF else 0x3FFFF) == 0
    ensures acc | (v << k) == acc + (v << k)
    ensures acc | (0xFFFF_FFFF << k) == 0xFFFF_FFFF << k
  {
    if k == 0 {} else if k == 6 {} else {}
  }

  /** `(v0 << 18) | (v1 << 12) | (v2 << 6) | v3`. */
  function Ored(v0: int, v1: int, v2: int, v3: int): int {
    OrField(OrField(OrField(v0 * 262144, v1, 4096), v2, 64), v3, 1)
  }

  /** `(n >> k) & 255`. */
  function ByteOf(n: int, unit: int): Byte
    requires unit > 0
  {
    n / unit % 256
  }

  /** The or-ed word holds the smeared sextets in its low 24 bits, below nothing or below ones. */
  lemma OredIsSmeared(v0: int, v1: int, v2: int, v3: int)
    requires -1 <= v0 < 64 && -1 <= v1 < 64 && -1 <= v2 < 64 && -1 <= v3 < 64
    ensures
      var d0: int, d1: int := Smeared(v0, v1 == -1 || v2 == -1 || v3 == -1), Smeared(v1, v2 == -1 || v3 == -1);
      var d2: int, d3: int := Smeared(v2, v3 == -1), Smeared(v3, false);
      Ored(v0, v1, v2, v3)
      == d0 * 262144 + d1 * 4096 + d2 * 64 + d3 - if v0 == -1 || v1 == -1 || v2 == -1 || v3 == -1 then 16777216 else 0
  {}

  lemma LowBytes(d0: Sextet, d1: Sextet, d2: Sextet, d3: Sextet, n: int, above: int)
    requires n == above * 16777216 + d0 as int * 262144 + d1 as int * 4096 + d2 as int * 64 + d3
    ensures ByteOf(n, 65536) == B0(d0, d1) && ByteOf(n, 256) == B1(d1, d2) && ByteOf(n, 1) == B2(d2, d3)
  {
    TopOfWord(d0, d1, d2, d3, n, above);
    MiddleOfWord(d0, d1, d2, d3, n, above);
    BottomOfWord(d0, d1, d2, d3, n, above);
  }

  lemma TopOfWord(d0: Sextet, d1: Sextet, d2: Sextet, d3: Sextet, n: int, above: int)
    requires n == above * 16777216 + d0 as int * 262144 + d1 as int * 4096 + d2 as int * 64 + d3
    ensures ByteOf(n, 65536) == B0(d0, d1)
  {
    var b: int := B0(d0, d1);
    RemainderIsUnique(n, 65536, above * 256 + b, d1 as int % 16 * 4096 + d2 as int * 64 + d3);
    RemainderIsUnique(n / 65536, 256, above, b);
  }

  lemma MiddleOfWord(d0: Sextet, d1: Sextet, d2: Sextet, d3: Sextet, n: int, above: int)
    requires n == above * 16777216 + d0 as int * 262144 + d1 as int * 4096 + d2 as int * 64 + d3
    ensures ByteOf(n, 256) == B1(d1, d2)
  {
    var b: int := B1(d1, d2);
    var higher: int := above * 256 + d0 as int * 4 + d1 as int / 16;
    RemainderIsUnique(n, 256, higher * 256 + b, d2 as int % 4 * 64 + d3);
    RemainderIsUnique(n / 256, 256, higher, b);
  }

  lemma BottomOfWord(d0: Sextet, d1: Sextet, d2: Sextet, d3: Sextet, n: int, above: int)
    requires n == above * 16777216 + d0 as int * 262144 + d1 as int * 4096 + d2 as int * 64 + d3
    ensures ByteOf(n, 1) == B2(d2, d3)
  {
    var higher: int := above * 65536 + d0 as int * 1024 + d1 as int * 16 + d2 as int / 4;
    RemainderIsUnique(n, 256, higher, B2(d2, d3));
  }

  /** The three bytes of a group's word. */
  function Word(t: Text): Bytes
    requires t != []
  {
    var n := Ored(JsValue(t, 0), JsValue(t, 1), JsValue(t, 2), JsValue(t, 3));
    [ByteOf(n, 65536), ByteOf(n, 256), ByteOf(n, 1)]
  }

  lemma JsValueRange(t: Text, k: nat)
    ensures -1 <= JsValue(t, k) < 64
  {}

  lemma WordOf(t: Text)
    requires t != []
    ensures GatewayGroups(t) == Word(t)[..Share(|t|)] + GatewayGroups(NextGroup(t))
  {
    var v0, v1, v2, v3 := JsValue(t, 0), JsValue(t, 1), JsValue(t, 2), JsValue(t, 3);
    JsValueRange(t, 0);
    JsValueRange(t, 1);
    JsValueRange(t, 2);
    JsValueRange(t, 3);
    OredIsSmeared(v0, v1, v2, v3);
    var d0, d1 := Smeared(v0, v1 == -1 || v2 == -1 || v3 == -1), Smeared(v1, v2 == -1 || v3 == -1);
    var d2, d3 := Smeared(v2, v3 == -1), Smeared(v3, false);
    var spill := v0 == -1 || v1 == -1 || v2 == -1 || v3 == -1;
    hide JsValue, Smeared, Share, NextGroup, Ored, ByteOf, B0, B1, B2;
    LowBytes(d0, d1, d2, d3, Ored(v0, v1, v2, v3), if spill then -1 else 0);
    assert Word(t) == Group(d0, d1, d2, d3);
  }

  lemma GatewayNothing(done: Bytes)
    ensures done + GatewayGroups([]) == done
  {}

  lemma Associative2(a: Bytes, b: Bytes, c: Bytes)
    ensures a + (b + c) == (a + b) + c
  {}

  /** dsh_socket_write_b64 up to the write: `at` stays below `max`. */
  method SocketDecoder(b64: Text) returns (r: Option<Bytes>)
    ensures r == SocketDecode(b64)
  {
    var n := |b64|;
    if n % 4 != 0 { return None; }
    r := SocketLoop(b64, n / 4);
  }

  method SocketLoop(b64: Text, ghost groups: nat) returns (r: Option<Bytes>)
    requires Whole(b64) && |b64| == 4 * groups
    ensures r == SocketGroups(b64, 0)
  {
    var n := |b64|;
    var max := n / 4 * 3;
    var bytes := new Byte[max](_ => 0);
    var at: nat, pad: nat, i := 0, 0, 0;
    ghost var g := 0;
    OptionPrefixNone(SocketGroups(b64, 0));
    assert b64[0..] == b64 && max == 3 * groups;
    hide SocketGroups, PaddedValue, Group, OptionPrefix, PadCount, Whole;
    while i < n
      invariant 0 <= g <= groups && i == 4 * g && pad <= 2 && at <= 3 * g
      invariant Whole(b64[i..])
      invariant SocketGroups(b64, 0) == OptionPrefix(bytes[..at], SocketGroups(b64[i..], pad))
    {
      var v0, v1 := PaddedValue(b64[i], 0), PaddedValue(b64[i + 1], 1);
      var v2, v3 := PaddedValue(b64[i + 2], 2), PaddedValue(b64[i + 3], 3);
      SocketTurn(bytes[..at], b64, i, pad);
      if v0.None? || v1.None? || v2.None? || v3.None? { return None; }
      pad := pad + PadCount(b64[i..]);
      if pad > 2 { return None; }
      at := StoreGroup(bytes, at, Group(v0.value, v1.value, v2.value, v3.value), pad);
      i := i + 4;
      g := g + 1;
    }
    SocketNothing(bytes[..at], pad);
    assert b64[i..] == [];
    r := Some(bytes[..at]);
  }

  /** The bytes of one group, less one for each padding seen. */
  method StoreGroup(bytes: array<Byte>, at: nat, word: Bytes, pad: nat) returns (next: nat)
    requires |word| == 3 && pad <= 2 && at + 3 <= bytes.Length
    modifies bytes
    ensures next == at + 3 - pad && bytes[..next] == old(bytes[..at]) + word[..3 - pad]
  {
    var max := bytes.Length;
    ghost var was := bytes[..at];
    next := at;
    if next < max { bytes[next] := word[0]; next := next + 1; }
    if pad < 2 && next < max { bytes[next] := word[1]; next := next + 1; }
    if pad < 1 && next < max { bytes[next] := word[2]; next := next + 1; }
    assert bytes[..next] == was + word[..3 - pad];
  }

  /** The bytes of a group after `seen` paddings, None when the group is refused. */
  function GroupBytes(v0: Option<Sextet>, v1: Option<Sextet>, v2: Option<Sextet>, v3: Option<Sextet>, seen: nat): Option<Bytes> {
    if v0.None? || v1.None? || v2.None? || v3.None? || seen > 2 then None
    else Some(Group(v0.value, v1.value, v2.value, v3.value)[..3 - seen])
  }

  lemma SocketStep(done: Bytes, t: Text, pad: nat, v0: Option<Sextet>, v1: Option<Sextet>, v2: Option<Sextet>, v3: Option<Sextet>)
    requires |t| >= 4 && Whole(t) && pad <= 2
    requires v0 == PaddedValue(t[0], 0) && v1 == PaddedValue(t[1], 1) && v2 == PaddedValue(t[2], 2) && v3 == PaddedValue(t[3], 3)
    ensures Whole(t[4..])
    ensures
      var seen := pad + PadCount(t);
      var bytes := GroupBytes(v0, v1, v2, v3, seen);
      OptionPrefix(done, SocketGroups(t, pad))
      == if bytes.None? then None else OptionPrefix(done + bytes.value, SocketGroups(t[4..], seen))
  {
    DropGroup(t);
    hide PaddedValue, Group, PadCount, Whole;
    var seen := pad + PadCount(t);
    var bytes := GroupBytes(v0, v1, v2, v3, seen);
    if bytes.Some? {
      var rest := SocketGroups(t[4..], seen);
      if rest.Some? { Associative2(done, bytes.value, rest.value); }
    }
  }

  lemma SocketTurn(done: Bytes, b64: Text, i: nat, pad: nat)
    requires i + 4 <= |b64| && Whole(b64[i..]) && pad <= 2
    ensures |b64[i..]| >= 4 && Whole(b64[i + 4..])
    ensures
      var seen := pad + PadCount(b64[i..]);
      var bytes := GroupBytes(PaddedValue(b64[i], 0), PaddedValue(b64[i + 1], 1), PaddedValue(b64[i + 2], 2),
                              PaddedValue(b64[i + 3], 3), seen);
      OptionPrefix(done, SocketGroups(b64[i..], pad))
      == if bytes.None? then None else OptionPrefix(done + bytes.value, SocketGroups(b64[i + 4..], seen))
  {
    hide PaddedValue, Whole, PadCount, GroupBytes, SocketGroups, OptionPrefix;
    var t := b64[i..];
    DropGroup(t);
    assert t[4..] == b64[i + 4..];
    SocketStep(done, t, pad, PaddedValue(t[0], 0), PaddedValue(t[1], 1), PaddedValue(t[2], 2), PaddedValue(t[3], 3));
  }

  lemma SocketNothing(done: Bytes, pad: nat)
    ensures OptionPrefix(done, SocketGroups([], pad)) == Some(done)
  {
    assert done + [] == done;
  }

  /** dsh_b64_decode_bytes of src/dsh_runtime_host.c: an unsigned accumulator, and padding only at the
      end. */
  method HostDecoder(src: Text) returns (r: Option<Bytes>)
    ensures r == HostDecode(src)
  {
    var out := new Byte[|src| / 4 * 3 + 3](_ => 0);
    var bits: nat, acc: nat, at: nat, pad: nat := 0, 0, 0, 0;
    ghost var vs: seq<Sextet>, rest, body: Text := [], Nothing, [];
    FedNothing(Nothing);
    assert Holds(0, 0, Nothing) by { NothingHeld(0); }
    assert src[0..] == src;
    TextPrefixNone(Unpadded(src));
    hide Fed, Holds, Taken, Unpadded, Room, TextPrefix;
    var i := 0;
    while i < |src|
      invariant 0 <= i <= |src| && |vs| <= i && Values(body) == Some(vs) && |body| == |vs|
      invariant Reaches(Nothing, vs, rest) && Holds(acc, bits, rest)
      invariant at <= out.Length && out[..at] == Fed(Nothing, vs)
      invariant pad == 0 ==> Unpadded(src) == TextPrefix(body, Unpadded(src[i..]))
      invariant pad > 0 ==> Unpadded(src) == if OnlyPad(src[i..]) then Some(body) else None
    {
      var c := src[i];
      UnpaddedStep(body, src[i..]);
      assert src[i..][1..] == src[i + 1..];
      if c == PAD {
        pad := pad + 1;
        i := i + 1;
        continue;
      }
      var v := Value(c);
      if pad > 0 { return None; }
      ValuesNext(body, c);
      if v.None? {
        BadBody(body, c, src[i + 1..]);
        return None;
      }
      var next: nat := (acc * 64 + v.value) % 0x1_0000_0000;
      ModCong(acc * 64 + v.value, 0x1_0000_0000);
      RoomGrows(|src|);
      at, bits := Accumulate(out, at, acc, bits, next, vs, rest, v.value, |src|);
      acc := next;
      vs, rest, body := vs + [v.value], Taken(rest, v.value), body + [c];
      i := i + 1;
    }
    assert src[i..] == [];
    UnpaddedNothing(body);
    HoldsBits(acc, bits, rest);
    ReachesKind(vs, rest);
    if bits >= 6 { return None; }
    r := Some(out[..at]);
  }

  predicate OnlyPad(t: Text) {
    forall i :: 0 <= i < |t| ==> t[i] == PAD
  }

  function TextPrefix(done: Text, r: Option<Text>): Option<Text> {
    if r.None? then None else Some(done + r.value)
  }

  lemma TextPrefixNone(r: Option<Text>)
    ensures r == TextPrefix([], r)
  {
    if r.Some? { assert [] + r.value == r.value; }
  }

  lemma UnpaddedStep(done: Text, t: Text)
    requires t != []
    ensures t[0] == PAD ==> TextPrefix(done, Unpadded(t)) == if OnlyPad(t[1..]) then Some(done) else None
    ensures t[0] != PAD ==> TextPrefix(done, Unpadded(t)) == TextPrefix(done + [t[0]], Unpadded(t[1..]))
    ensures OnlyPad(t) <==> t[0] == PAD && OnlyPad(t[1..])
  {
    assert forall i :: 1 <= i < |t| ==> t[i] == t[1..][i - 1];
    assert done + [] == done;
    var rest := Unpadded(t[1..]);
    if t[0] != PAD && rest.Some? { assert done + ([t[0]] + rest.value) == (done + [t[0]]) + rest.value; }
  }

  lemma UnpaddedNothing(done: Text)
    ensures TextPrefix(done, Unpadded([])) == Some(done) && OnlyPad([])
  {
    assert done + [] == done;
  }

  /** A character outside the alphabet spoils whatever follows it. */
  lemma BadBody(done: Text, c: CodeUnit, rest: Text)
    requires Value(c).None?
    ensures
      var body := TextPrefix(done + [c], Unpadded(rest));
      body.Some? ==> Values(body.value).None?
  {
    hide Value, Unpadded;
    var body := TextPrefix(done + [c], Unpadded(rest));
    if body.Some? {
      ValuesNext(done, c);
      assert body.value[..|done| + 1] == done + [c];
      ValuesPrefix(body.value, |done| + 1);
    }
  }

  lemma RoomGrows(n: nat)
    ensures Room(Nothing, n) <= n / 4 * 3 + 3
  {}
}
