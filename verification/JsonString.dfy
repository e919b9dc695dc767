/** JSON.stringify of a string: the quoting the canonical form uses for keys and string values. */
module JsonString {
  import opened Wrappers
  import opened JsText

  const QUOTE: CodeUnit := 0x22
  const BACKSLASH: CodeUnit := 0x5C
  const LETTER_U: CodeUnit := 0x75

  function HexDigit(d: int): CodeUnit
    requires 0 <= d < 16
  {
    if d < 10 then 0x30 + d else 0x61 + d - 10
  }

  function HexValue(u: CodeUnit): Option<int> {
    if 0x30 <= u <= 0x39 then Some(u - 0x30)
    else if 0x61 <= u <= 0x66 then Some(u - 0x61 + 10)
    else None
  }

  function UnicodeEscape(u: CodeUnit): Text {
    [BACKSLASH, LETTER_U, HexDigit(u / 4096), HexDigit(u / 256 % 16), HexDigit(u / 16 % 16), HexDigit(u % 16)]
  }

  /** The two-character escapes: what follows the backslash, and what it stands for. */
  function ShortEscape(u: CodeUnit): Option<CodeUnit> {
    if u == 0x22 || u == 0x5C then Some(u)
    else if u == 8 then Some(0x62)
    else if u == 9 then Some(0x74)
    else if u == 10 then Some(0x6E)
    else if u == 12 then Some(0x66)
    else if u == 13 then Some(0x72)
    else None
  }

  function ShortMeaning(e: CodeUnit): Option<CodeUnit> {
    if e == 0x22 || e == 0x5C then Some(e)
    else if e == 0x62 then Some(8)
    else if e == 0x74 then Some(9)
    else if e == 0x6E then Some(10)
    else if e == 0x66 then Some(12)
    else if e == 0x72 then Some(13)
    else None
  }

  /** One unit that is not part of a surrogate pair; a lone surrogate is escaped. */
  function EscapeUnit(u: CodeUnit): Text {
    if ShortEscape(u).Some? then [BACKSLASH, ShortEscape(u).value]
    else if u < 0x20 || High(u) || Low(u) then UnicodeEscape(u)
    else [u]
  }

  function Escape(s: Text): Text {
    if s == [] then []
    else if StartsWithPair(s) then [s[0], s[1]] + Escape(s[2..])
    else EscapeUnit(s[0]) + Escape(s[1..])
  }

  function Quoted(s: Text): Text {
    [QUOTE] + Escape(s) + [QUOTE]
  }

  /** Read an escaped body up to its closing quote: the string and what follows. */
  function ReadBody(t: Text): Option<(Text, Text)> {
    if t == [] then None
    else if t[0] == QUOTE then Some(([], t[1..]))
    else if t[0] != BACKSLASH then Prepend(t[0], ReadBody(t[1..]))
    else if |t| >= 2 && ShortMeaning(t[1]).Some? then Prepend(ShortMeaning(t[1]).value, ReadBody(t[2..]))
    else if |t| >= 6 && t[1] == LETTER_U && HexOf(t).Some? then Prepend(HexOf(t).value, ReadBody(t[6..]))
    else None
  }

  function Prepend(u: CodeUnit, r: Option<(Text, Text)>): Option<(Text, Text)> {
    if r.None? then None else Some(([u] + r.value.0, r.value.1))
  }

  function HexOf(t: Text): Option<CodeUnit>
    requires |t| >= 6
  {
    var a, b, c, d := HexValue(t[2]), HexValue(t[3]), HexValue(t[4]), HexValue(t[5]);
    if a.None? || b.None? || c.None? || d.None? then None
    else Some(a.value * 4096 + b.value * 256 + c.value * 16 + d.value)
  }

  lemma HexDigits(u: CodeUnit)
    ensures 0 <= u / 4096 < 16 && 0 <= u / 256 % 16 < 16 && 0 <= u / 16 % 16 < 16 && 0 <= u % 16 < 16
    ensures u / 4096 * 4096 + u / 256 % 16 * 256 + u / 16 % 16 * 16 + u % 16 == u
  {}

  lemma ReadUnicodeEscape(u: CodeUnit, rest: Text)
    ensures ReadBody(UnicodeEscape(u) + rest) == Prepend(u, ReadBody(rest))
  {
    hide Prepend;
    var t := UnicodeEscape(u) + rest;
    HexDigits(u);
    assert forall i :: 0 <= i < 6 ==> t[i] == UnicodeEscape(u)[i];
    assert HexOf(t) == Some(u);
    assert t[6..] == rest;
  }

  lemma ReadRaw(u: CodeUnit, rest: Text)
    requires u != QUOTE && u != BACKSLASH
    ensures ReadBody([u] + rest) == Prepend(u, ReadBody(rest))
  {
    assert ([u] + rest)[1..] == rest;
  }

  lemma ReadShortEscape(u: CodeUnit, rest: Text)
    requires ShortEscape(u).Some?
    ensures ReadBody([BACKSLASH, ShortEscape(u).value] + rest) == Prepend(u, ReadBody(rest))
  {
    assert ([BACKSLASH, ShortEscape(u).value] + rest)[2..] == rest;
  }

  lemma ReadUnit(u: CodeUnit, rest: Text)
    ensures ReadBody(EscapeUnit(u) + rest) == Prepend(u, ReadBody(rest))
  {
    hide ReadBody, Prepend, UnicodeEscape;
    if ShortEscape(u).Some? {
      ReadShortEscape(u, rest);
    } else if u < 0x20 || High(u) || Low(u) {
      ReadUnicodeEscape(u, rest);
    } else {
      ReadRaw(u, rest);
    }
  }

  /** Reading inverts escaping, whatever follows: no other string escapes to the same text, and no
      escaped text runs into what comes after its quote. */
  lemma {:induction false} ReadBodyInvertsEscape(s: Text, rest: Text)
    ensures ReadBody(Escape(s) + [QUOTE] + rest) == Some((s, rest))
  {
    if s == [] {
      assert Escape(s) + [QUOTE] + rest == [QUOTE] + rest;
      assert ([QUOTE] + rest)[1..] == rest;
    } else if StartsWithPair(s) {
      ReadBodyInvertsEscape(s[2..], rest);
      PairStep(s, rest);
    } else {
      ReadBodyInvertsEscape(s[1..], rest);
      UnitStep(s, rest);
    }
  }

  lemma UnitStep(s: Text, rest: Text)
    requires s != [] && !StartsWithPair(s)
    requires ReadBody(Escape(s[1..]) + [QUOTE] + rest) == Some((s[1..], rest))
    ensures ReadBody(Escape(s) + [QUOTE] + rest) == Some((s, rest))
  {
    hide ReadBody, EscapeUnit;
    var tail := Escape(s[1..]) + [QUOTE] + rest;
    assert Escape(s) + [QUOTE] + rest == EscapeUnit(s[0]) + tail;
    ReadUnit(s[0], tail);
    assert [s[0]] + s[1..] == s;
  }

  lemma PairStep(s: Text, rest: Text)
    requires StartsWithPair(s)
    requires ReadBody(Escape(s[2..]) + [QUOTE] + rest) == Some((s[2..], rest))
    ensures ReadBody(Escape(s) + [QUOTE] + rest) == Some((s, rest))
  {
    hide ReadBody, EscapeUnit;
    var tail := Escape(s[2..]) + [QUOTE] + rest;
    assert Escape(s) + [QUOTE] + rest == [s[0]] + ([s[1]] + tail);
    ReadRaw(s[1], tail);
    ReadRaw(s[0], [s[1]] + tail);
    assert [s[0]] + ([s[1]] + s[2..]) == s;
  }

  /** Two quoted strings at the head of equal texts are equal, and so are the texts after them. */
  lemma QuotedIsPrefixFree(s: Text, t: Text, r: Text, q: Text)
    requires Quoted(s) + r == Quoted(t) + q
    ensures s == t && r == q
  {
    hide ReadBody, Escape;
    ReadBodyInvertsEscape(s, r);
    ReadBodyInvertsEscape(t, q);
    assert (Quoted(s) + r)[1..] == Escape(s) + [QUOTE] + r;
    assert (Quoted(t) + q)[1..] == Escape(t) + [QUOTE] + q;
  }
}
