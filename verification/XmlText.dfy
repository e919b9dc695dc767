/** XML text (system-plugins/dsh-office/shared.js:50-98): what the reader makes of what the writer escaped. */
module XmlText {
  import opened Wrappers
  import opened JsText
  import opened Utf8
  import opened CellAddress

  const AMP: CodeUnit := 0x26
  const LT: CodeUnit := 0x3C
  const GT: CodeUnit := 0x3E
  const QUOT: CodeUnit := 0x22
  const SEMICOLON: CodeUnit := 0x3B
  const HASH: CodeUnit := 0x23
  const LOWER_X: CodeUnit := 0x78

  const AMP_NAME: Text := [0x61, 0x6D, 0x70]
  const LT_NAME: Text := [0x6C, 0x74]
  const GT_NAME: Text := [0x67, 0x74]
  const QUOT_NAME: Text := [0x71, 0x75, 0x6F, 0x74]
  const APOS_NAME: Text := [0x61, 0x70, 0x6F, 0x73]

  /** A control character the writer drops: below 32, but not tab, newline or carriage return. */
  predicate Dropped(cp: int) {
    0 <= cp < 32 && cp != 9 && cp != 10 && cp != 13
  }

  function Entity(name: Text): Text {
    [AMP] + name + [SEMICOLON]
  }

  /** One code point of encodeXmlText, or of encodeXmlAttribute, which also escapes the double quote. */
  function EncodeChar(cp: nat, attribute: bool): Text {
    if cp == AMP then Entity(AMP_NAME)
    else if cp == LT then Entity(LT_NAME)
    else if cp == GT then Entity(GT_NAME)
    else if cp == QUOT && attribute then Entity(QUOT_NAME)
    else if cp > 127 then Entity([HASH] + Decimal(cp))
    else if Dropped(cp) then []
    else [cp]
  }

  function EncodeXml(s: Text, attribute: bool): Text {
    if s == [] then [] else EncodeChar(PointAt(s), attribute) + EncodeXml(s[PointUnits(s)..], attribute)
  }

  /** The string without the dropped control characters. */
  function Kept(s: Text): Text {
    if s == [] then [] else (if Dropped(s[0]) then [] else [s[0]]) + Kept(s[1..])
  }

  method EncodeXmlLoop(value: Text, attribute: bool) returns (out: Text)
    ensures out == EncodeXml(value, attribute)
  {
    hide EncodeXml, EncodeChar, PointAt, PointUnits;
    out := [];
    var i := 0;
    assert value[0..] == value;
    assert [] + EncodeXml(value, attribute) == EncodeXml(value, attribute);
    while i < |value|
      invariant 0 <= i <= |value|
      invariant EncodeXml(value, attribute) == out + EncodeXml(value[i..], attribute)
    {
      var rest := value[i..];
      EncodeStep(out, rest, attribute);
      assert rest[PointUnits(rest)..] == value[i + PointUnits(rest)..];
      out := out + EncodeChar(PointAt(rest), attribute);
      i := i + PointUnits(rest);
    }
    EncodeNothing(out, attribute);
    assert value[i..] == [];
  }

  lemma EncodeStep(done: Text, s: Text, attribute: bool)
    requires s != []
    ensures done + EncodeXml(s, attribute) == (done + EncodeChar(PointAt(s), attribute)) + EncodeXml(s[PointUnits(s)..], attribute)
  {
    hide EncodeChar, PointAt, PointUnits;
    assert done + (EncodeChar(PointAt(s), attribute) + EncodeXml(s[PointUnits(s)..], attribute))
        == (done + EncodeChar(PointAt(s), attribute)) + EncodeXml(s[PointUnits(s)..], attribute);
  }

  lemma EncodeNothing(done: Text, attribute: bool)
    ensures done + EncodeXml([], attribute) == done
  {}

  // ---- the reader -----------------------------------------------------------------------------

  /** The index of the first semicolon, or the length. */
  function ToSemicolon(t: Text): (n: nat)
    ensures n <= |t| && (n < |t| ==> t[n] == SEMICOLON) && forall i :: 0 <= i < n ==> t[i] != SEMICOLON
  {
    if t == [] || t[0] == SEMICOLON then 0 else 1 + ToSemicolon(t[1..])
  }

  function HexDigitValue(c: CodeUnit): Option<nat> {
    if 48 <= c <= 57 then Some(c - 48)
    else if 97 <= c <= 102 then Some(c - 87)
    else if 65 <= c <= 70 then Some(c - 55)
    else None
  }

  predicate AllDigits(t: Text) {
    t != [] && forall i :: 0 <= i < |t| ==> Digit(t[i])
  }

  predicate AllHex(t: Text) {
    t != [] && forall i :: 0 <= i < |t| ==> HexDigitValue(t[i]).Some?
  }

  function HexNumber(t: Text, acc: nat): nat
    requires forall i :: 0 <= i < |t| ==> HexDigitValue(t[i]).Some?
    decreases |t|
  {
    if t == [] then acc else HexNumber(t[1..], acc * 16 + HexDigitValue(t[0]).value)
  }

  /** What stands between `&` and `;`: a code point, or None when it is no entity the reader knows. */
  function Meaning(code: Text): Option<nat> {
    if code == AMP_NAME then Some(AMP)
    else if code == LT_NAME then Some(LT)
    else if code == GT_NAME then Some(GT)
    else if code == QUOT_NAME then Some(QUOT)
    else if code == APOS_NAME then Some(0x27)
    else if |code| >= 2 && code[0] == HASH && code[1] == LOWER_X && AllHex(code[2..]) then Some(HexNumber(code[2..], 0))
    else if |code| >= 1 && code[0] == HASH && AllDigits(code[1..]) then Some(Number(code[1..], 0))
    else None
  }

  /** decodeXmlEntities; None is the RangeError of a reference above U+10FFFF. */
  function DecodeXml(t: Text): Option<Text>
    decreases |t|
  {
    if t == [] then Some([])
    else
      var n := ToSemicolon(t[1..]);
      if t[0] == AMP && n < |t| - 1 && Meaning(t[1..n + 1]).Some? then
        var unit, rest := FromPoint(Meaning(t[1..n + 1]).value), DecodeXml(t[n + 2..]);
        if unit.None? || rest.None? then None else Some(unit.value + rest.value)
      else
        var rest := DecodeXml(t[1..]);
        if rest.None? then None else Some([t[0]] + rest.value)
  }

  lemma DecodeEntity(name: Text, cp: nat, rest: Text)
    requires SEMICOLON !in name && Meaning(name) == Some(cp) && cp <= MAX_POINT
    ensures DecodeXml(Entity(name) + rest)
         == if DecodeXml(rest).None? then None else Some(FromPoint(cp).value + DecodeXml(rest).value)
  {
    hide Meaning, FromPoint;
    var t := Entity(name) + rest;
    assert t[1..] == name + [SEMICOLON] + rest;
    var u := t[1..];
    assert forall i :: 0 <= i < |name| ==> u[i] == name[i] && name[i] in name;
    assert u[|name|] == SEMICOLON;
    assert ToSemicolon(u) == |name|;
    assert t[1..|name| + 1] == name && t[|name| + 2..] == rest;
    assert FromPoint(cp).Some? by { PointFits(cp); }
  }

  lemma PointFits(cp: nat)
    requires cp <= MAX_POINT
    ensures FromPoint(cp).Some?
  {}

  lemma DecodePlain(c: CodeUnit, rest: Text)
    requires c != AMP
    ensures DecodeXml([c] + rest) == if DecodeXml(rest).None? then None else Some([c] + DecodeXml(rest).value)
  {
    assert ([c] + rest)[1..] == rest;
  }

  lemma NumericMeaning(cp: nat)
    ensures Meaning([HASH] + Decimal(cp)) == Some(cp) && SEMICOLON !in [HASH] + Decimal(cp)
  {
    var code := [HASH] + Decimal(cp);
    assert code[1..] == Decimal(cp);
    DecimalValue(cp);
  }

  lemma NamedMeanings()
    ensures Meaning(AMP_NAME) == Some(AMP) && Meaning(LT_NAME) == Some(LT)
    ensures Meaning(GT_NAME) == Some(GT) && Meaning(QUOT_NAME) == Some(QUOT)
  {
    assert AMP_NAME[0] != LT_NAME[0] && GT_NAME[0] != LT_NAME[0] && GT_NAME[0] != AMP_NAME[0];
    assert QUOT_NAME[0] != AMP_NAME[0] && QUOT_NAME[0] != LT_NAME[0] && QUOT_NAME[0] != GT_NAME[0];
  }

  /** Reading back one written code point, whatever follows. */
  lemma DecodeChar(cp: nat, attribute: bool, rest: Text)
    requires cp <= MAX_POINT
    ensures DecodeXml(EncodeChar(cp, attribute) + rest)
         == if DecodeXml(rest).None? then None
            else Some((if Dropped(cp) then [] else FromPoint(cp).value) + DecodeXml(rest).value)
  {
    NamedMeanings();
    hide Meaning, DecodeXml, Entity, Decimal;
    if cp == AMP {
      DecodeEntity(AMP_NAME, cp, rest);
    } else if cp == LT {
      DecodeEntity(LT_NAME, cp, rest);
    } else if cp == GT {
      DecodeEntity(GT_NAME, cp, rest);
    } else if cp == QUOT && attribute {
      DecodeEntity(QUOT_NAME, cp, rest);
    } else if cp > 127 {
      NumericMeaning(cp);
      DecodeEntity([HASH] + Decimal(cp), cp, rest);
    } else if Dropped(cp) {
      assert [] + rest == rest;
      if DecodeXml(rest).Some? { assert [] + DecodeXml(rest).value == DecodeXml(rest).value; }
    } else {
      DecodePlain(cp, rest);
    }
  }

  lemma KeptPair(s: Text)
    requires s != []
    ensures Kept(s) == (if Dropped(PointAt(s)) then [] else s[..PointUnits(s)]) + Kept(s[PointUnits(s)..])
  {
    if StartsWithPair(s) {
      assert s[1..][1..] == s[2..] && s[..2] == [s[0]] + [s[1]];
      assert [s[0]] + ([s[1]] + Kept(s[2..])) == s[..2] + Kept(s[2..]);
    } else {
      assert s[..1] == [s[0]];
    }
  }

  /** Text and attribute values come back as they were written, without the dropped control characters. */
  lemma {:induction false} DecodeInvertsEncode(s: Text, attribute: bool)
    ensures DecodeXml(EncodeXml(s, attribute)) == Some(Kept(s))
    decreases |s|
  {
    if s != [] {
      var n := PointUnits(s);
      PointRoundTrip(s);
      KeptPair(s);
      hide PointAt, PointUnits, EncodeChar, FromPoint, Kept, Dropped;
      DecodeChar(PointAt(s), attribute, EncodeXml(s[n..], attribute));
      DecodeInvertsEncode(s[n..], attribute);
    }
  }

  /** Nothing the writer produces can open or close a tag, or end an attribute. */
  lemma {:induction false} EncodedIsInert(s: Text, attribute: bool, i: nat)
    requires i < |EncodeXml(s, attribute)|
    ensures EncodeXml(s, attribute)[i] != LT && EncodeXml(s, attribute)[i] != GT && EncodeXml(s, attribute)[i] < 128
    ensures attribute ==> EncodeXml(s, attribute)[i] != QUOT
    decreases |s|
  {
    var piece := EncodeChar(PointAt(s), attribute);
    hide EncodeChar, PointAt, PointUnits;
    if i < |piece| {
      CharIsInert(PointAt(s), attribute, i);
    } else {
      EncodedIsInert(s[PointUnits(s)..], attribute, i - |piece|);
    }
  }

  lemma CharIsInert(cp: nat, attribute: bool, i: nat)
    requires i < |EncodeChar(cp, attribute)|
    ensures var c := EncodeChar(cp, attribute)[i]; c != LT && c != GT && c < 128 && (attribute ==> c != QUOT)
  {
    if cp > 127 && i >= 2 && i < |Decimal(cp)| + 2 { assert EncodeChar(cp, attribute)[i] == Decimal(cp)[i - 2]; }
  }
}
