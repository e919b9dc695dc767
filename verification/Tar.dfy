/** The package archive (runtime/dsh/tar-mini.js): a ustar writer and reader. */
module Tar {
  import opened Wrappers
  import opened JsText

  const BLOCK := 512
  const SLASH: CodeUnit := 0x2F
  const DOT: CodeUnit := 0x2E
  const ZERO: Byte := 0x30
  const USTAR: Bytes := [0x75, 0x73, 0x74, 0x61, 0x72]

  datatype Member = Member(path: Text, bytes: Bytes)

  datatype TarError =
    | UnsafePath | FieldOverflow
    | Unaligned | ChecksumDrift | NotUstar | UnsupportedType | BadLength | NoMembers

  // ---- member paths ---------------------------------------------------------------------

  /** `path.split('/')`. */
  function Segments(path: Text): (r: seq<Text>)
    ensures r != []
  {
    if path == [] then [[]]
    else
      var rest := Segments(path[1..]);
      if path[0] == SLASH then [[]] + rest else [[path[0]] + rest[0]] + rest[1..]
  }

  /** assertMemberPath. */
  predicate SafePath(path: Text) {
    path != [] && path[0] != SLASH && forall s :: s in Segments(path) ==> s != [] && s != [DOT, DOT]
  }

  // ---- octal fields ----------------------------------------------------------------------

  /** `value.toString(8)`. */
  function Digits(v: nat): Bytes {
    if v < 8 then [ZERO + v] else Digits(v / 8) + [ZERO + v % 8]
  }

  function PadStart(t: Bytes, width: nat): Bytes {
    if |t| >= width then t else [ZERO] + PadStart(t, width - 1)
  }

  /** Exactly w octal digits. */
  function Fixed(v: nat, w: nat): (r: Bytes)
    ensures |r| == w
  {
    if w == 0 then [] else Fixed(v / 8, w - 1) + [ZERO + v % 8]
  }

  function Pow8(w: nat): (r: nat)
    ensures r >= 1
  {
    if w == 0 then 1 else 8 * Pow8(w - 1)
  }

  lemma {:induction false} PadStartLong(t: Bytes, w: nat, last: Byte)
    ensures w > 0 ==> PadStart(t + [last], w) == PadStart(t, w - 1) + [last]
  {
    if w > 0 && |t| + 1 < w {
      PadStartLong(t, w - 1, last);
      assert [ZERO] + (PadStart(t, w - 2) + [last]) == ([ZERO] + PadStart(t, w - 2)) + [last];
    }
  }

  lemma {:induction false} PadStartOne(d: Byte, w: nat)
    requires w > 0
    ensures PadStart([d], w) == Fixed(0, w - 1) + [d]
  {
    if w > 1 {
      PadStartOne(d, w - 1);
      FixedZero(w - 1);
      assert [ZERO] + (Fixed(0, w - 2) + [d]) == ([ZERO] + Fixed(0, w - 2)) + [d];
    }
  }

  lemma {:induction false} FixedZero(w: nat)
    requires w > 0
    ensures Fixed(0, w) == [ZERO] + Fixed(0, w - 1)
  {
    if w > 1 { FixedZero(w - 1); }
  }

  /** Padding the printed number to w digits gives its w octal digits, when there are no more. */
  lemma {:induction false} PaddedDigits(v: nat, w: nat)
    requires w > 0
    ensures |Digits(v)| <= w <==> v < Pow8(w)
    ensures v < Pow8(w) ==> PadStart(Digits(v), w) == Fixed(v, w)
  {
    if v < 8 {
      PadStartOne(ZERO + v, w);
    } else if w > 1 {
      PaddedDigits(v / 8, w - 1);
      PadStartLong(Digits(v / 8), w, ZERO + v % 8);
    } else {
      assert |Digits(v / 8)| >= 1;
    }
  }

  /** octal(): the digits and a NUL, or the overflow error. */
  function Octal(v: nat, width: nat): Option<Bytes>
    requires width > 1
  {
    if |PadStart(Digits(v), width - 1)| > width - 1 then None else Some(PadStart(Digits(v), width - 1) + [0])
  }

  lemma {:induction false} PadStartLength(t: Bytes, w: nat)
    ensures |PadStart(t, w)| == if |t| >= w then |t| else w
  {
    if |t| < w { PadStartLength(t, w - 1); }
  }

  lemma OctalExactly(v: nat, width: nat)
    requires width > 1
    ensures Octal(v, width) == if v < Pow8(width - 1) then Some(Fixed(v, width - 1) + [0]) else None
  {
    PaddedDigits(v, width - 1);
    PadStartLength(Digits(v), width - 1);
  }

  // ---- parseInt(text, 8) -------------------------------------------------------------------

  predicate Space(b: Byte) { 9 <= b <= 13 || b == 32 || b == 160 }
  predicate OctalDigit(b: Byte) { ZERO <= b < ZERO + 8 }

  function SkipSpace(t: Bytes): Bytes {
    if t != [] && Space(t[0]) then SkipSpace(t[1..]) else t
  }

  /** The digits at the head of t, on top of what was read before. */
  function Value(t: Bytes, acc: nat): nat
    decreases |t|
  {
    if t != [] && OctalDigit(t[0]) then Value(t[1..], acc * 8 + (t[0] as int - ZERO)) else acc
  }

  /** None is NaN. */
  function ParseInt(t: Bytes): Option<int> {
    var s := SkipSpace(t);
    var signed := s != [] && (s[0] == 0x2D || s[0] == 0x2B);
    var u := if signed then s[1..] else s;
    if u == [] || !OctalDigit(u[0]) then None
    else Some(if signed && s[0] == 0x2D then -(Value(u, 0) as int) else Value(u, 0))
  }

  /** `.replace(/\0.*$/, '')` takes away the first NUL whose tail has no line break, and that tail. */
  function CutAtNul(t: Bytes): Bytes {
    if t == [] then []
    else if t[0] == 0 && 10 !in t[1..] && 13 !in t[1..] then []
    else [t[0]] + CutAtNul(t[1..])
  }

  lemma {:induction false} ValueCut(t: Bytes, acc: nat)
    ensures Value(CutAtNul(t), acc) == Value(t, acc)
    decreases |t|
  {
    if t != [] && t[0] != 0 {
      assert CutAtNul(t)[1..] == CutAtNul(t[1..]);
      if OctalDigit(t[0]) { ValueCut(t[1..], acc * 8 + (t[0] as int - ZERO)); }
    }
  }

  lemma {:induction false} SkipSpaceCut(t: Bytes)
    ensures SkipSpace(CutAtNul(t)) == CutAtNul(SkipSpace(t))
  {
    if t != [] && Space(t[0]) {
      assert CutAtNul(t)[1..] == CutAtNul(t[1..]);
      SkipSpaceCut(t[1..]);
    }
  }

  /** parseInt stops at a NUL by itself: the cut changes nothing. */
  lemma ParseIntCut(t: Bytes)
    ensures ParseInt(CutAtNul(t)) == ParseInt(t)
  {
    SkipSpaceCut(t);
    var s := SkipSpace(t);
    ValueCut(s, 0);
    if s != [] {
      ValueCut(s[1..], 0);
      if s[0] != 0 { assert CutAtNul(s)[1..] == CutAtNul(s[1..]); }
      if s[1..] != [] && s[1..][0] != 0 { assert CutAtNul(s[1..])[0] == s[1..][0]; }
    }
  }

  lemma {:induction false} ValueFixed(v: nat, w: nat, rest: Bytes, acc: nat)
    requires v < Pow8(w)
    ensures Value(Fixed(v, w) + rest, acc) == Value(rest, acc * Pow8(w) + v)
    decreases w
  {
    if w == 0 {
      assert Fixed(v, w) + rest == rest;
    } else {
      var d: Byte := ZERO + v % 8;
      ValueFixed(v / 8, w - 1, [d] + rest, acc);
      assert Fixed(v, w) + rest == Fixed(v / 8, w - 1) + ([d] + rest);
      hide Fixed, Value;
      ValueDigit(d, rest, acc * Pow8(w - 1) + v / 8);
      ShiftOctal(acc, Pow8(w - 1), v);
    }
  }

  lemma ShiftOctal(acc: nat, p: nat, v: nat)
    ensures (acc * p + v / 8) * 8 + v % 8 == acc * (8 * p) + v
  {
    assert (acc * p) * 8 == acc * (8 * p);
  }

  lemma ValueDigit(d: Byte, rest: Bytes, acc: nat)
    requires OctalDigit(d)
    ensures Value([d] + rest, acc) == Value(rest, acc * 8 + (d as int - ZERO))
  {
    assert ([d] + rest)[1..] == rest;
  }

  lemma {:induction false} FixedLead(v: nat, w: nat)
    requires w > 0
    ensures OctalDigit(Fixed(v, w)[0])
  {
    if w > 1 { FixedLead(v / 8, w - 1); }
  }

  lemma ValueEnds(rest: Bytes, acc: nat)
    requires rest == [] || !OctalDigit(rest[0])
    ensures Value(rest, acc) == acc
  {}

  lemma ValueFromZero(v: nat, w: nat, rest: Bytes)
    requires v < Pow8(w)
    ensures Value(Fixed(v, w) + rest, 0) == Value(rest, v)
  {
    ValueFixed(v, w, rest, 0);
    hide *;
    assert 0 * Pow8(w) + v == v;
  }

  lemma ParseUnsigned(t: Bytes)
    requires t != [] && OctalDigit(t[0])
    ensures ParseInt(t) == Some(Value(t, 0))
  {}

  /** parseInt reads back a fixed-width field, up to whatever ends it. */
  lemma ParseFixed(v: nat, w: nat, rest: Bytes)
    requires w > 0 && v < Pow8(w) && (rest == [] || !OctalDigit(rest[0]))
    ensures ParseInt(Fixed(v, w) + rest) == Some(v)
  {
    hide *;
    FixedLead(v, w);
    var t := Fixed(v, w) + rest;
    assert t[0] == Fixed(v, w)[0];
    ParseUnsigned(t);
    ValueFromZero(v, w, rest);
    ValueEnds(rest, v);
  }
}
