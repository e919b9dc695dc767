/** Which texts the decoders accept, and when an accepted text is canonical. Only b64ToBytes refuses
    what is not; the other four are lenient, each in its own way. */
module Base64Lenient {
  import opened Wrappers
  import opened JsText
  import opened Base64

  /** The symbols of some sextets, then n padding characters. */
  function Shown(vs: seq<Sextet>, n: nat): Text {
    Symbols(vs) + Pads(n)
  }

  // ---- canonical texts --------------------------------------------------------------------------

  lemma SymbolsAreInjective(vs: seq<Sextet>, ws: seq<Sextet>)
    requires Symbols(vs) == Symbols(ws)
    ensures vs == ws
  {
    ValuesOfSymbols(vs);
    ValuesOfSymbols(ws);
  }

  lemma ShownIsInjective(vs: seq<Sextet>, n: nat, ws: seq<Sextet>, m: nat)
    requires Shown(vs, n) == Shown(ws, m)
    ensures vs == ws && n == m
  {
    StrippedSymbols(vs, Pads(n));
    StrippedSymbols(ws, Pads(m));
    hide Symbols;
    SymbolsAreInjective(vs, ws);
    assert |Shown(vs, n)| == |vs| + n && |Shown(ws, m)| == |ws| + m;
  }

  /** A text of symbols and padding is the encoding of b exactly when no single symbol is left over, the
      bits left over are zero, b is what the others give, and the padding is the one its length asks for. */
  lemma ShownIsEncodedExactly(vs: seq<Sextet>, n: nat, b: Bytes)
    ensures Shown(vs, n) == Encode(b)
       <==> (|vs| % 4 != 1 && LeftOver(Nothing, vs) == 0 && b == Fed(Nothing, vs) && Pads(n) == Padding(|b|))
  {
    EncodeIsSymbols(b);
    FedReadsSextets(b);
    if |vs| % 4 != 1 && LeftOver(Nothing, vs) == 0 { SextetsOfFed(vs); }
    hide Encode, Sextets, Fed, LeftOver, Symbols;
    var m := |Padding(|b|)|;
    assert Pads(m) == Padding(|b|);
    if Shown(vs, n) == Encode(b) { ShownIsInjective(vs, n, Sextets(b), m); }
  }

  // ---- shapes ---------------------------------------------------------------------------------------

  lemma {:induction false} ValuesEach(t: Text)
    ensures Values(t).Some? <==> forall k :: 0 <= k < |t| ==> Value(t[k]).Some?
    ensures Values(t).Some? ==> |Values(t).value| == |t| && forall k :: 0 <= k < |t| ==> Values(t).value[k] == Value(t[k]).value
  {
    hide Value;
    if t != [] {
      ValuesEach(t[1..]);
      forall k | 0 <= k < |t| - 1 ensures t[1..][k] == t[k + 1] {}
      if Values(t[1..]).None? {
        var k :| 0 <= k < |t| - 1 && Value(t[1..][k]).None?;
        assert Value(t[k + 1]).None?;
      } else {
        forall k | 0 < k < |t| ensures Value(t[k]).Some? { assert t[k] == t[1..][k - 1]; }
      }
    }
  }

  lemma PadsNext(n: nat)
    ensures Pads(n) + [PAD] == Pads(n + 1)
  {}

  lemma {:induction false} StrippedShape(t: Text) returns (n: nat)
    ensures t == Stripped(t) + Pads(n)
  {
    if t != [] && t[|t| - 1] == PAD {
      var m := StrippedShape(t[..|t| - 1]);
      n := m + 1;
      PadsNext(m);
      assert t == t[..|t| - 1] + [PAD];
      assert Stripped(t) + (Pads(m) + [PAD]) == (Stripped(t) + Pads(m)) + [PAD];
    } else {
      n := 0;
      assert t + Pads(0) == t;
    }
  }

  lemma {:induction false} UnpaddedShape(t: Text) returns (n: nat)
    requires Unpadded(t).Some?
    ensures t == Unpadded(t).value + Pads(n)
  {
    if t == [] {
      n := 0;
    } else if t[0] == PAD {
      n := |t|;
    } else {
      n := UnpaddedShape(t[1..]);
      assert t == [t[0]] + (Unpadded(t[1..]).value + Pads(n));
    }
  }

  // ---- the command line's decoder -------------------------------------------------------------------

  /** A single symbol left over gives a byte of its own, its six bits on top. */
  function CliBytes(vs: seq<Sextet>): Bytes {
    Fed(Nothing, vs) + if |vs| % 4 == 1 then [B0(vs[|vs| - 1], 0)] else []
  }

  lemma FedOfOne(d: Sextet)
    ensures Fed(Nothing, [d]) == []
  {
    assert [d][1..] == [];
    FedNothing(Six(d));
  }

  /** The sextet at index k, or zero. */
  function At(vs: seq<Sextet>, k: nat): Sextet {
    if k < |vs| then vs[k] else 0
  }

  lemma LessFour(n: nat)
    requires n >= 4
    ensures (n - 4) % 4 == n % 4
  {}

  lemma CliBytesStep(vs: seq<Sextet>)
    requires vs != []
    ensures CliBytes(vs)
         == Group(At(vs, 0), At(vs, 1), At(vs, 2), At(vs, 3))[..Share(|vs|)] + CliBytes(vs[if |vs| < 4 then |vs| else 4..])
  {
    hide Fed, B0, B1, B2;
    FedNothing(Nothing);
    if |vs| >= 4 {
      FedGroup(vs);
      assert vs[..4] == [vs[0], vs[1], vs[2], vs[3]];
      LessFour(|vs|);
      assert |vs| > 4 ==> vs[4..][|vs| - 5] == vs[|vs| - 1];
    } else if |vs| == 1 {
      assert vs == [vs[0]];
      FedOfOne(vs[0]);
    } else {
      FedTail(vs);
    }
  }

  lemma {:induction false} CliGroupsExactly(t: Text)
    ensures CliGroups(t) == if Values(t).None? then None else Some(CliBytes(Values(t).value))
    decreases |t|
  {
    hide Value, Group, Fed, Values, CliBytes;
    ValuesEach(t);
    if t == [] {
      CliBytesOfNothing();
    } else {
      var more := NextGroup(t);
      ValuesEach(more);
      assert forall k :: 0 <= k < |more| ==> more[k] == t[k + 4];
      CliGroupsExactly(more);
      if Values(t).Some? {
        var vs := Values(t).value;
        CliBytesStep(vs);
        assert Values(more).value == vs[if |vs| < 4 then |vs| else 4..];
      } else {
        var k :| 0 <= k < |t| && Value(t[k]).None?;
        if k < 4 { assert ValueAt(t, k).None?; } else { assert more[k - 4] == t[k]; }
      }
    }
  }

  lemma CliBytesOfNothing()
    ensures CliBytes([]) == [] && Values([]) == Some([])
  {
    FedNothing(Nothing);
  }

  /** The command line's decoder gives b exactly on symbols followed by any number of padding characters,
      none included, and a symbol left over counts. */
  lemma CliDecodesExactly(t: Text, b: Bytes)
    ensures CliDecode(t) == Some(b) <==> exists vs, n :: t == Shown(vs, n) && b == CliBytes(vs)
  {
    hide CliBytes, Symbols, Values, Stripped, CliGroups;
    if vs, n :| t == Shown(vs, n) && b == CliBytes(vs) {
      StrippedSymbols(vs, Pads(n));
      ValuesOfSymbols(vs);
      CliGroupsExactly(Symbols(vs));
    }
    if CliDecode(t) == Some(b) {
      var n := StrippedShape(t);
      CliGroupsExactly(Stripped(t));
      SymbolsOfValues(Stripped(t));
      assert t == Shown(Values(Stripped(t)).value, n);
    }
  }

  // ---- the host's decoder ------------------------------------------------------------------------------

  /** The host's decoder gives b exactly on symbols, no single one left over, followed by any number of
      padding characters; the bits left over are dropped. */
  lemma HostDecodesExactly(t: Text, b: Bytes)
    ensures HostDecode(t) == Some(b) <==> exists vs, n :: t == Shown(vs, n) && |vs| % 4 != 1 && b == Fed(Nothing, vs)
  {
    hide Fed, Symbols, Values, Unpadded;
    if vs, n :| t == Shown(vs, n) && |vs| % 4 != 1 && b == Fed(Nothing, vs) {
      UnpaddedSymbols(vs, Pads(n));
      ValuesOfSymbols(vs);
    }
    if HostDecode(t) == Some(b) {
      var n := UnpaddedShape(t);
      SymbolsOfValues(Unpadded(t).value);
      assert t == Shown(Values(Unpadded(t).value).value, n);
    }
  }

  // ---- the gateway's decoder --------------------------------------------------------------------------

  /** A single symbol left over gives a byte of ones. */
  function GatewayBytes(vs: seq<Sextet>): Bytes {
    Fed(Nothing, vs) + if |vs| % 4 == 1 then [255] else []
  }

  /** The character at index i of a group of n, 63 when it or a later one of them is not in the alphabet. */
  function SmearedIn(t: Text, n: nat, i: nat): Sextet
    requires i < n <= |t|
  {
    if exists j :: i <= j < n && Value(t[j]).None? then 63 else Value(t[i]).value
  }

  /** What the gateway reads: a foreign character sets all bits of its group from its own up. */
  function Smearing(t: Text): (r: seq<Sextet>)
    ensures |r| == |t|
    decreases |t|
  {
    if t == [] then []
    else
      var n := if |t| < 4 then |t| else 4;
      seq(n, i requires 0 <= i < n => SmearedIn(t, n, i)) + Smearing(NextGroup(t))
  }

  lemma GatewayBytesStep(vs: seq<Sextet>)
    requires |vs| >= 2
    ensures GatewayBytes(vs)
         == Group(At(vs, 0), At(vs, 1), At(vs, 2), At(vs, 3))[..Share(|vs|)] + GatewayBytes(vs[if |vs| < 4 then |vs| else 4..])
  {
    hide Fed, B0, B1, B2;
    FedNothing(Nothing);
    if |vs| >= 4 {
      FedGroup(vs);
      assert vs[..4] == [vs[0], vs[1], vs[2], vs[3]];
      LessFour(|vs|);
    } else {
      FedTail(vs);
    }
  }

  lemma JsValueIs(t: Text, k: nat)
    requires |t| >= 2
    ensures k < |t| ==> (JsValue(t, k) == -1 <==> Value(t[k]).None?)
    ensures k < |t| && Value(t[k]).Some? ==> JsValue(t, k) == Value(t[k]).value
    ensures k >= |t| ==> JsValue(t, k) == 0
  {
    hide Value;
  }

  lemma SmearedOne(t: Text, n: nat, i: nat)
    requires |t| >= 2 && n == (if |t| < 4 then |t| else 4) && i < n
    ensures
      var below := (i < 1 && JsValue(t, 1) == -1) || (i < 2 && JsValue(t, 2) == -1) || (i < 3 && JsValue(t, 3) == -1);
      -1 <= JsValue(t, i) < 64 && SmearedIn(t, n, i) == Smeared(JsValue(t, i), below)
  {
    hide Value, JsValue;
    JsValueIs(t, i);
    JsValueIs(t, 1);
    JsValueIs(t, 2);
    JsValueIs(t, 3);
    var below := (i < 1 && JsValue(t, 1) == -1) || (i < 2 && JsValue(t, 2) == -1) || (i < 3 && JsValue(t, 3) == -1);
    if j :| i <= j < n && Value(t[j]).None? {
      assert j == i || (j == 1 && i < 1) || (j == 2 && i < 2) || (j == 3 && i < 3);
    } else {
      assert !below;
    }
  }

  /** The four smeared values of a group are those the or-ed word holds. */
  lemma SmearedGroup(t: Text)
    requires |t| >= 2
    ensures
      var v0, v1, v2, v3 := JsValue(t, 0), JsValue(t, 1), JsValue(t, 2), JsValue(t, 3);
      var vs := Smearing(t);
      && At(vs, 0) == Smeared(v0, v1 == -1 || v2 == -1 || v3 == -1) && At(vs, 1) == Smeared(v1, v2 == -1 || v3 == -1)
      && At(vs, 2) == Smeared(v2, v3 == -1) && At(vs, 3) == Smeared(v3, false)
  {
    var n := if |t| < 4 then |t| else 4;
    var vs := Smearing(t);
    assert forall i :: 0 <= i < n ==> vs[i] == SmearedIn(t, n, i);
    JsValueIs(t, 2);
    JsValueIs(t, 3);
    hide Value, JsValue, SmearedIn, Smearing;
    SmearedOne(t, n, 0);
    SmearedOne(t, n, 1);
    if n > 2 { SmearedOne(t, n, 2); }
    if n > 3 { SmearedOne(t, n, 3); }
  }

  lemma {:induction false} GatewayGroupsExactly(t: Text)
    ensures GatewayGroups(t) == GatewayBytes(Smearing(t))
    decreases |t|
  {
    if t == [] {
      FedNothing(Nothing);
    } else if |t| == 1 {
      GatewayOfOne(t);
    } else {
      GatewayGroupsExactly(NextGroup(t));
      SmearedGroup(t);
      GatewayBytesStep(Smearing(t));
      assert Smearing(t)[if |t| < 4 then |t| else 4..] == Smearing(NextGroup(t));
      hide Smeared, JsValue, Group, GatewayBytes, Smearing;
    }
  }

  lemma GatewayOfOne(t: Text)
    requires |t| == 1
    ensures GatewayGroups(t) == [255] == GatewayBytes(Smearing(t))
  {
    assert NextGroup(t) == [] && GatewayGroups(NextGroup(t)) == [];
    GroupOfOne(t);
    GatewayBytesOfOne(Smearing(t));
    hide Value, Smearing, GatewayBytes, Smeared, Group;
    assert [255] + [] == [255];
  }

  lemma GatewayBytesOfOne(vs: seq<Sextet>)
    requires |vs| == 1
    ensures GatewayBytes(vs) == [255]
  {
    hide Fed;
    assert vs == [vs[0]];
    FedOfOne(vs[0]);
  }

  /** Past the end of the text `undefined` is not in the alphabet. */
  lemma GroupOfOne(t: Text)
    requires |t| == 1
    ensures
      var v0, v1, v2, v3 := JsValue(t, 0), JsValue(t, 1), JsValue(t, 2), JsValue(t, 3);
      -1 <= v0 < 64 && v1 == -1 && v2 == v3 == 0
      && Group(Smeared(v0, v1 == -1 || v2 == -1 || v3 == -1), Smeared(v1, v2 == -1 || v3 == -1),
               Smeared(v2, v3 == -1), Smeared(v3, false))[..Share(|t|)] == [255]
  {}

  lemma {:induction false} NothingSmeared(vs: seq<Sextet>)
    ensures Smearing(Symbols(vs)) == vs
    decreases |vs|
  {
    hide Symbol, Value;
    var t := Symbols(vs);
    forall k | 0 <= k < |vs| ensures Value(t[k]) == Some(vs[k]) { SymbolValue(vs[k]); }
    if vs != [] {
      var n := if |vs| < 4 then |vs| else 4;
      assert NextGroup(t) == Symbols(vs[n..]);
      NothingSmeared(vs[n..]);
      assert forall i :: 0 <= i < n ==> SmearedIn(t, n, i) == vs[i];
      assert vs == vs[..n] + vs[n..];
    }
  }

  /** The gateway's decoder accepts every text. */
  lemma GatewayDecodesExactly(t: Text)
    ensures GatewayDecode(t) == GatewayBytes(Smearing(Stripped(t)))
  {
    GatewayGroupsExactly(Stripped(t));
  }

  /** On symbols and padding it reads the symbols. */
  lemma GatewayReadsShown(vs: seq<Sextet>, n: nat)
    ensures GatewayDecode(Shown(vs, n)) == GatewayBytes(vs)
  {
    hide GatewayBytes, Smearing, Symbols, Stripped, GatewayGroups;
    StrippedSymbols(vs, Pads(n));
    GatewayDecodesExactly(Shown(vs, n));
    NothingSmeared(vs);
  }

  /** What it decodes is canonical exactly when the text is symbols and the padding they need, with zero
      bits left over; any other text it decodes to bytes that are encoded differently. */
  lemma GatewayIsCanonicalExactly(t: Text)
    ensures t == Encode(GatewayDecode(t))
       <==> exists vs, n :: t == Shown(vs, n) && |vs| % 4 != 1 && LeftOver(Nothing, vs) == 0
                            && Pads(n) == Padding(|Fed(Nothing, vs)|)
  {
    hide Encode, LeftOver, Padding, Symbols, Fed, Sextets, GatewayDecode;
    var b := GatewayDecode(t);
    if t == Encode(b) {
      EncodeIsSymbols(b);
      var vs, n := Sextets(b), |Padding(|b|)|;
      assert Pads(n) == Padding(|b|) by { PadsOfPadding(|b|); }
      assert t == Shown(vs, n);
      ShownIsEncodedExactly(vs, n, b);
    }
    if vs, n :| t == Shown(vs, n) && |vs| % 4 != 1 && LeftOver(Nothing, vs) == 0 && Pads(n) == Padding(|Fed(Nothing, vs)|) {
      GatewayReadsShown(vs, n);
      ShownIsEncodedExactly(vs, n, Fed(Nothing, vs));
      assert Fed(Nothing, vs) + [] == Fed(Nothing, vs);
    }
  }

  lemma PadsOfPadding(n: nat)
    ensures Pads(|Padding(n)|) == Padding(n)
  {}

  // ---- the socket seam's decoder --------------------------------------------------------------------------

  function PadsIn(t: Text): nat {
    multiset(t)[PAD]
  }

  /** Padding stands only in the last two places of a group, and the rest is in the alphabet. */
  predicate Placed(t: Text) {
    forall i :: 0 <= i < |t| ==> PaddedValue(t[i], i % 4).Some?
  }

  /** The bytes of a group of four. */
  function GroupAt(t: Text, from: nat): (r: Bytes)
    requires Placed(t) && from % 4 == 0 && from + 4 <= |t|
    ensures |r| == 3
  {
    assert from % 4 == 0 && (from + 1) % 4 == 1 && (from + 2) % 4 == 2 && (from + 3) % 4 == 3;
    Group(PaddedValue(t[from], 0).value, PaddedValue(t[from + 1], 1).value,
          PaddedValue(t[from + 2], 2).value, PaddedValue(t[from + 3], 3).value)
  }

  lemma WithoutLast(t: Text)
    requires Whole(t) && Placed(t) && t != []
    ensures |t| >= 4 && (|t| - 4) % 4 == 0 && Whole(t[..|t| - 4]) && Placed(t[..|t| - 4])
    ensures PadsIn(t[..|t| - 4]) <= PadsIn(t)
  {
    hide PaddedValue;
    var before := t[..|t| - 4];
    forall i | 0 <= i < |before| ensures PaddedValue(before[i], i % 4).Some? { assert PaddedValue(t[i], i % 4).Some?; }
    assert t == before + t[|t| - 4..];
    PadsInTwo(before, t[|t| - 4..]);
  }

  /** Every group gives its three bytes less one for each padding up to its own end. */
  function SocketBytes(t: Text, pad: nat): Bytes
    requires Whole(t) && Placed(t) && pad + PadsIn(t) <= 2
    decreases |t|
  {
    if t == [] then []
    else
      WithoutLast(t);
      SocketBytes(t[..|t| - 4], pad) + GroupAt(t, |t| - 4)[..3 - pad - PadsIn(t)]
  }

  lemma PlacedTail(t: Text)
    requires Whole(t) && t != []
    ensures |t| >= 4 && Whole(t[4..])
    ensures Placed(t) <==> (PaddedValue(t[0], 0).Some? && PaddedValue(t[1], 1).Some? && PaddedValue(t[2], 2).Some?
                            && PaddedValue(t[3], 3).Some? && Placed(t[4..]))
  {
    hide PaddedValue;
    DropGroup(t);
    var more := t[4..];
    forall i | 0 <= i < |more| ensures more[i] == t[i + 4] && (i + 4) % 4 == i % 4 {}
    if Placed(t) {
      forall i | 0 <= i < |more| ensures PaddedValue(more[i], i % 4).Some? {
        assert PaddedValue(t[i + 4], (i + 4) % 4).Some?;
      }
      assert PaddedValue(t[0], 0 % 4).Some? && PaddedValue(t[1], 1 % 4).Some?;
      assert PaddedValue(t[2], 2 % 4).Some? && PaddedValue(t[3], 3 % 4).Some?;
    }
    if PaddedValue(t[0], 0).Some? && PaddedValue(t[1], 1).Some? && PaddedValue(t[2], 2).Some? && PaddedValue(t[3], 3).Some?
       && Placed(more) {
      forall i | 0 <= i < |t| ensures PaddedValue(t[i], i % 4).Some? {
        if i >= 4 { assert PaddedValue(more[i - 4], (i - 4) % 4).Some?; }
      }
    }
  }

  lemma PadsInTwo(a: Text, b: Text)
    ensures PadsIn(a + b) == PadsIn(a) + PadsIn(b)
  {
    assert multiset(a + b) == multiset(a) + multiset(b);
  }

  /** In a placed group the padding is where PadCount looks. */
  lemma PadsInGroup(t: Text)
    requires |t| >= 4 && t[0] != PAD && t[1] != PAD
    ensures PadsIn(t[..4]) == PadCount(t)
  {
    assert t[..4] == [t[0], t[1], t[2], t[3]];
  }

  /** The group at the front, and the rest with the padding seen so far. */
  lemma {:induction false} SocketBytesStep(t: Text, pad: nat)
    requires Whole(t) && Placed(t) && t != [] && pad + PadsIn(t) <= 2
    ensures |t| >= 4 && Whole(t[4..]) && Placed(t[4..]) && PadsIn(t) == PadCount(t) + PadsIn(t[4..])
    ensures SocketBytes(t, pad) == GroupAt(t, 0)[..3 - pad - PadCount(t)] + SocketBytes(t[4..], pad + PadCount(t))
    decreases |t|
  {
    hide GroupAt, PaddedValue, PadsIn, PadCount, Placed, Whole;
    DropGroup(t);
    PlacedTail(t);
    FrontIsNoPad(t);
    PadsInGroup(t);
    PadsInTwo(t[..4], t[4..]);
    assert t == t[..4] + t[4..];
    var last := |t| - 4;
    var before, more := t[..last], t[4..];
    assert t == before + t[last..];
    PadsInTwo(before, t[last..]);
    PlacedPrefix(t, last);
    if last == 0 {
      assert before == [] && more == [] && t[..4] == t;
      assert PadsIn(more) == 0 by { NoPadInNothing(); }
      SocketBytesOfOne(t, pad);
    } else {
      DropGroup(before);
      SocketBytesStep(before, pad);
      assert before[4..] == more[..|more| - 4];
      SameFront(t, before);
      GroupsAgree(t, before, 0, 0);
      GroupsAgree(t, more, last, last - 4);
      SocketBytesAgain(t, before, more, pad, last);
    }
  }

  lemma NoPadInNothing()
    ensures PadsIn([]) == 0
  {}

  lemma SocketBytesOfOne(t: Text, pad: nat)
    requires Whole(t) && Placed(t) && |t| == 4 && pad + PadsIn(t) <= 2 && PadsIn(t) == PadCount(t)
    ensures Whole(t[4..]) && Placed(t[4..]) && PadsIn(t[4..]) == 0
    ensures SocketBytes(t, pad) == GroupAt(t, 0)[..3 - pad - PadCount(t)] + SocketBytes(t[4..], pad + PadCount(t))
  {
    hide GroupAt, PaddedValue;
    var none := t[4..];
    assert none == [] && t[..0] == [];
    var only := GroupAt(t, 0)[..3 - pad - PadCount(t)];
    assert SocketBytes(t, pad) == [] + only;
    assert [] + only == only == only + [];
  }

  lemma SameFront(t: Text, u: Text)
    requires |t| >= 4 && |u| >= 4 && t[2] == u[2] && t[3] == u[3]
    ensures PadCount(t) == PadCount(u)
  {}

  lemma SocketBytesAgain(t: Text, before: Text, more: Text, pad: nat, last: nat)
    requires Whole(t) && Placed(t) && |t| >= 8 && pad + PadsIn(t) <= 2 && last == |t| - 4
    requires before == t[..last] && more == t[4..] && Whole(before) && Placed(before) && Whole(more) && Placed(more)
    requires PadsIn(t) == PadCount(t) + PadsIn(more) && pad + PadsIn(before) <= 2 && last % 4 == 0
    requires Whole(before[4..]) && Placed(before[4..]) && pad + PadCount(t) + PadsIn(before[4..]) <= 2
    requires before[4..] == more[..|more| - 4]
    requires GroupAt(t, 0) == GroupAt(before, 0) && GroupAt(t, last) == GroupAt(more, |more| - 4)
    requires SocketBytes(before, pad) == GroupAt(before, 0)[..3 - pad - PadCount(t)] + SocketBytes(before[4..], pad + PadCount(t))
    ensures SocketBytes(t, pad) == GroupAt(t, 0)[..3 - pad - PadCount(t)] + SocketBytes(more, pad + PadCount(t))
  {
    hide GroupAt, PaddedValue, Placed, PadsIn, PadCount, Whole;
    var seen := pad + PadCount(t);
    var first, middle := GroupAt(t, 0)[..3 - seen], SocketBytes(before[4..], seen);
    var end := GroupAt(t, last)[..3 - pad - PadsIn(t)];
    assert SocketBytes(t, pad) == SocketBytes(before, pad) + end;
    assert SocketBytes(more, seen) == middle + end;
    assert (first + middle) + end == first + (middle + end);
  }

  lemma FrontIsNoPad(t: Text)
    requires |t| >= 4 && Placed(t)
    ensures t[0] != PAD && t[1] != PAD
  {
    assert PaddedValue(t[0], 0 % 4).Some? && PaddedValue(t[1], 1 % 4).Some?;
  }

  lemma PlacedPrefix(t: Text, n: nat)
    requires Whole(t) && Placed(t) && n <= |t| && n + 4 == |t|
    ensures Whole(t[..n]) && Placed(t[..n]) && n % 4 == 0
  {
    hide PaddedValue;
    forall i | 0 <= i < n ensures PaddedValue(t[..n][i], i % 4).Some? { assert PaddedValue(t[i], i % 4).Some?; }
  }

  lemma GroupsAgree(t: Text, u: Text, i: nat, j: nat)
    requires Placed(t) && Placed(u) && i % 4 == 0 && j % 4 == 0 && i + 4 <= |t| && j + 4 <= |u|
    requires t[i] == u[j] && t[i + 1] == u[j + 1] && t[i + 2] == u[j + 2] && t[i + 3] == u[j + 3]
    ensures GroupAt(t, i) == GroupAt(u, j)
  {
    hide PaddedValue, Group, Placed;
  }

  lemma {:induction false} SocketGroupsExactly(t: Text, pad: nat)
    requires Whole(t) && pad <= 2
    ensures SocketGroups(t, pad) == if Placed(t) && pad + PadsIn(t) <= 2 then Some(SocketBytes(t, pad)) else None
    decreases |t|
  {
    if t == [] {
      assert Placed(t) && PadsIn(t) == 0;
    } else {
      PlacedTail(t);
      var seen := pad + PadCount(t);
      if PaddedValue(t[0], 0).Some? && PaddedValue(t[1], 1).Some? {
        PadsInGroup(t);
        PadsInTwo(t[..4], t[4..]);
        assert t == t[..4] + t[4..];
      }
      hide PaddedValue, Placed, PadsIn, PadCount, GroupAt, Whole;
      if seen <= 2 { SocketGroupsExactly(t[4..], seen); }
      if Placed(t) && pad + PadsIn(t) <= 2 {
        SocketBytesStep(t, pad);
        SocketGroupsUnfold(t, pad);
      }
    }
  }

  lemma SocketGroupsUnfold(t: Text, pad: nat)
    requires Whole(t) && t != [] && |t| >= 4 && Whole(t[4..]) && Placed(t) && pad + PadCount(t) <= 2
    ensures SocketGroups(t, pad)
         == match SocketGroups(t[4..], pad + PadCount(t))
            case None => None
            case Some(rest) => Some(GroupAt(t, 0)[..3 - pad - PadCount(t)] + rest)
  {
    PlacedTail(t);
    hide PaddedValue, Placed, PadCount, Whole, Group;
  }

  /** The socket seam's decoder gives b exactly on whole groups with at most two padding characters, each in
      one of the last two places of SOME group, b being each group's bytes less the padding seen so far. */
  lemma SocketDecodesExactly(t: Text, b: Bytes)
    ensures SocketDecode(t) == Some(b)
       <==> (Whole(t) && Placed(t) && PadsIn(t) <= 2 && b == SocketBytes(t, 0))
  {
    hide Placed, SocketGroups, SocketBytes, PadsIn;
    if Whole(t) { SocketGroupsExactly(t, 0); }
  }

  lemma NoPadInSymbols(vs: seq<Sextet>)
    ensures PadsIn(Symbols(vs)) == 0
  {
    hide Symbol;
    forall i | 0 <= i < |vs| ensures Symbols(vs)[i] != PAD { SymbolIsNoPad(vs[i]); }
    assert PAD !in Symbols(vs);
  }

  lemma SymbolIsNoPad(v: Sextet)
    ensures Symbol(v) != PAD
  {}

  lemma {:induction false} PadsAreAllPad(n: nat)
    ensures PadsIn(Pads(n)) == n
  {
    if n > 0 {
      PadsAreAllPad(n - 1);
      assert Pads(n) == Pads(n - 1) + [PAD];
      PadsInTwo(Pads(n - 1), [PAD]);
    }
  }

  lemma WholeShown(vs: seq<Sextet>, n: nat)
    requires |vs| >= 4
    ensures Whole(Shown(vs, n)) <==> Whole(Shown(vs[4..], n))
    ensures Shown(vs, n)[4..] == Shown(vs[4..], n)
  {
    hide Symbol;
    assert Symbols(vs)[4..] == Symbols(vs[4..]);
    assert (|vs| + n - 4) % 4 == (|vs| + n) % 4;
  }

  /** The last group, its padding read as zeros. */
  function LastGroup(vs: seq<Sextet>): (q: seq<Sextet>)
    requires 2 <= |vs| < 4
    ensures |q| == 4
  {
    [vs[0], vs[1], At(vs, 2), 0]
  }

  lemma LastGroupReads(vs: seq<Sextet>, n: nat)
    requires 2 <= |vs| < 4 && |vs| + n == 4
    ensures
      var t := Shown(vs, n);
      && |t| == 4 && PadCount(t) == n
      && forall k :: 0 <= k < 4 ==> PaddedValue(t[k], k) == Some(LastGroup(vs)[k])
  {
    hide Symbol, Value;
    var t := Shown(vs, n);
    forall k | 0 <= k < |vs| ensures t[k] == Symbol(vs[k]) && Value(t[k]) == Some(vs[k]) && t[k] != PAD {
      SymbolValue(vs[k]);
      SymbolIsNoPad(vs[k]);
    }
    assert forall k :: |vs| <= k < 4 ==> t[k] == PAD;
  }

  lemma LastGroupGives(vs: seq<Sextet>)
    requires 2 <= |vs| < 4
    ensures GroupOf(LastGroup(vs))[..|vs| - 1] == Fed(Nothing, vs)
  {
    hide Fed, B0, B1, B2;
    FedTail(vs);
  }

  lemma SocketTail(vs: seq<Sextet>, n: nat)
    requires 2 <= |vs| < 4 && |vs| + n == 4 && Whole(Shown(vs, n))
    ensures SocketGroups(Shown(vs, n), 0) == Some(Fed(Nothing, vs))
  {
    hide Fed, Shown, SocketGroups, LastGroup, GroupOf, PaddedValue, PadCount, Whole;
    LastGroupReads(vs, n);
    LastGroupGives(vs);
    EncodeNothing();
    var t, g := Shown(vs, n), GroupOf(LastGroup(vs))[..3 - n];
    assert t[4..] == [];
    SocketGroupStep(t, LastGroup(vs));
    assert g + [] == g;
  }

  lemma ShortShown(vs: seq<Sextet>, n: nat)
    requires |vs| < 4 && n <= 2 && Whole(Shown(vs, n))
    ensures if vs == [] then n == 0 && Shown(vs, n) == [] else |vs| >= 2 && |vs| + n == 4
  {
    assert |Shown(vs, n)| == |vs| + n;
  }

  lemma SocketLastGroup(vs: seq<Sextet>, n: nat)
    requires |vs| < 4 && n <= 2 && Whole(Shown(vs, n))
    ensures SocketGroups(Shown(vs, n), 0) == Some(Fed(Nothing, vs))
  {
    hide Shown, Whole, SocketGroups, Fed;
    ShortShown(vs, n);
    FedNothing(Nothing);
    EncodeNothing();
    if vs != [] { SocketTail(vs, n); }
  }

  lemma {:induction false} SocketReads(vs: seq<Sextet>, n: nat)
    requires n <= 2 && Whole(Shown(vs, n))
    ensures SocketGroups(Shown(vs, n), 0) == Some(Fed(Nothing, vs))
    decreases |vs|
  {
    hide Symbol, Fed, Whole, SocketGroups;
    var t := Shown(vs, n);
    if |vs| < 4 {
      SocketLastGroup(vs, n);
    } else {
      WholeShown(vs, n);
      SocketReads(vs[4..], n);
      FedGroup(vs);
      var q := vs[..4];
      forall k | 0 <= k < 4 ensures PaddedValue(t[k], k) == Some(q[k]) && t[k] != PAD {
        SymbolValue(vs[k]);
        SymbolIsNoPad(vs[k]);
      }
      assert PadCount(t) == 0;
      hide Value, GroupOf, Symbols;
      SocketGroupUnfolds(t, q, 0);
      assert GroupOf(q)[..3] == GroupOf(q);
    }
  }

  /** On symbols and padding it wants whole groups and at most two padding characters. */
  lemma SocketReadsShown(vs: seq<Sextet>, n: nat)
    ensures SocketDecode(Shown(vs, n)) == if (|vs| + n) % 4 == 0 && n <= 2 then Some(Fed(Nothing, vs)) else None
  {
    hide Symbols, SocketGroups, Fed, Placed, SocketBytes;
    var t := Shown(vs, n);
    NoPadInSymbols(vs);
    PadsAreAllPad(n);
    PadsInTwo(Symbols(vs), Pads(n));
    if Whole(t) {
      if n <= 2 { SocketReads(vs, n); } else { SocketGroupsExactly(t, 0); }
    }
  }

  /** An accepted text is the encoding of what it gives exactly when its padding is at its end and no
      non-zero bits are left over. */
  lemma SocketIsCanonicalExactly(t: Text)
    requires SocketDecode(t).Some?
    ensures t == Encode(SocketDecode(t).value) <==> exists vs, n :: t == Shown(vs, n) && LeftOver(Nothing, vs) == 0
  {
    hide Encode, LeftOver, Symbols, Fed, Sextets, SocketDecode;
    var b := SocketDecode(t).value;
    if t == Encode(b) {
      EncodeIsSymbols(b);
      var vs, n := Sextets(b), |Padding(|b|)|;
      PadsOfPadding(|b|);
      hide Padding;
      assert t == Shown(vs, n);
      ShownIsEncodedExactly(vs, n, b);
    }
    if vs, n :| t == Shown(vs, n) && LeftOver(Nothing, vs) == 0 {
      SocketReadsShown(vs, n);
      PaddingOfWhole(vs, n);
      hide Padding;
      ShownIsEncodedExactly(vs, n, b);
    }
  }

  lemma PaddingOfWhole(vs: seq<Sextet>, n: nat)
    requires (|vs| + n) % 4 == 0 && n <= 2
    ensures |vs| % 4 != 1 && Pads(n) == Padding(|Fed(Nothing, vs)|)
  {
    hide Fed;
    var r := if n == 0 then 0 else 4 - n;
    RestOfGroups(|vs|, n);
    FedSize(vs);
  }

  lemma RestOfGroups(m: nat, n: nat)
    requires (m + n) % 4 == 0 && n <= 2
    ensures m % 4 == if n == 0 then 0 else 4 - n
  {}

  // ---- all of them ----------------------------------------------------------------------------------------

  /** What the command line's and the host's decoder accept is canonical exactly when no single symbol and
      no non-zero bits are left over and the padding is the one the length asks for. */
  lemma CliIsCanonicalExactly(vs: seq<Sextet>, n: nat)
    ensures CliDecode(Shown(vs, n)) == Some(CliBytes(vs))
    ensures Shown(vs, n) == Encode(CliBytes(vs))
       <==> (|vs| % 4 != 1 && LeftOver(Nothing, vs) == 0 && Pads(n) == Padding(|Fed(Nothing, vs)|))
  {
    hide CliDecode, Encode, Padding, Symbols, LeftOver, Fed;
    CliDecodesExactly(Shown(vs, n), CliBytes(vs));
    ShownIsEncodedExactly(vs, n, CliBytes(vs));
    assert Fed(Nothing, vs) + [] == Fed(Nothing, vs);
  }

  lemma HostIsCanonicalExactly(vs: seq<Sextet>, n: nat)
    requires |vs| % 4 != 1
    ensures HostDecode(Shown(vs, n)) == Some(Fed(Nothing, vs))
    ensures Shown(vs, n) == Encode(Fed(Nothing, vs))
       <==> (LeftOver(Nothing, vs) == 0 && Pads(n) == Padding(|Fed(Nothing, vs)|))
  {
    hide HostDecode, Encode, Padding, Symbols, LeftOver, Fed;
    HostDecodesExactly(Shown(vs, n), Fed(Nothing, vs));
    ShownIsEncodedExactly(vs, n, Fed(Nothing, vs));
  }

  lemma LenientReads(vs: seq<Sextet>, n: nat)
    requires |vs| % 4 != 1 && (|vs| + n) % 4 == 0 && n <= 2
    ensures
      var b, t := Fed(Nothing, vs), Shown(vs, n);
      HostDecode(t) == Some(b) && CliDecode(t) == Some(b) && SocketDecode(t) == Some(b) && GatewayDecode(t) == b
  {
    hide Fed, Shown, HostDecode, CliDecode, SocketDecode, GatewayDecode, Encode;
    CliIsCanonicalExactly(vs, n);
    HostIsCanonicalExactly(vs, n);
    SocketReadsShown(vs, n);
    GatewayReadsShown(vs, n);
    assert Fed(Nothing, vs) + [] == Fed(Nothing, vs);
  }

  /** Padded as its length asks, every run of symbols without a single one left over is accepted by the four
      lenient decoders, which drop the bits left over; the strict one accepts it exactly when these are zero. */
  lemma LenientDecodersDropPadBits(vs: seq<Sextet>)
    requires vs != [] && |vs| % 4 != 1
    ensures
      var b := Fed(Nothing, vs);
      var t := Symbols(vs) + Padding(|b|);
      && HostDecode(t) == CliDecode(t) == SocketDecode(t) == Some(GatewayDecode(t)) == Some(b)
      && StrictDecode(t) == if LeftOver(Nothing, vs) == 0 then Some(b) else None
  {
    hide Fed, LeftOver, Symbols, HostDecode, CliDecode, SocketDecode, GatewayDecode, StrictDecode, Padding;
    var b := Fed(Nothing, vs);
    var n := |Padding(|b|)|;
    PadsOfPadding(|b|);
    FedSize(vs);
    WholeAfterPadding(|vs|, |b|);
    LenientReads(vs, n);
    StrictReads(vs, n, Shown(vs, n));
  }

  lemma StrictReads(vs: seq<Sextet>, n: nat, t: Text)
    requires vs != [] && |vs| % 4 != 1 && t == Shown(vs, n) && Pads(n) == Padding(|Fed(Nothing, vs)|)
    ensures StrictDecode(t) == if LeftOver(Nothing, vs) == 0 then Some(Fed(Nothing, vs)) else None
  {
    hide Fed, LeftOver, Symbols, Padding, Encode, StrictDecode;
    var b := Fed(Nothing, vs);
    ShownIsEncodedExactly(vs, n, b);
    if LeftOver(Nothing, vs) == 0 {
      SextetsOfFed(vs);
      SomethingEncoded(b, vs);
      StrictDecodesExactly(t, b);
    } else if StrictDecode(t).Some? {
      StrictDecodesExactly(t, StrictDecode(t).value);
      ShownIsEncodedExactly(vs, n, StrictDecode(t).value);
    }
  }

  lemma WholeAfterPadding(m: nat, k: nat)
    requires m % 4 != 1 && k % 3 == if m % 4 == 0 then 0 else m % 4 - 1
    ensures (m + |Padding(k)|) % 4 == 0 && |Padding(k)| <= 2
  {}
}
