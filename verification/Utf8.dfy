/** UTF-8 as the runtime writes and reads it (runtime/dsh/canonical-json.js:51-91): every JavaScript
    string survives the trip through bytes, lone surrogates included. */
module Utf8 {
  import opened Wrappers
  import opened JsText

  const REPLACEMENT: CodeUnit := 0xFFFD
  const MAX_POINT := 0x10FFFF

  /** A code point as bytes. Shifts and masks of the source are divisions and remainders here: every
      value stays below 2^21, far from the sign bit. */
  function EncodePoint(cp: int): (r: Bytes)
    requires 0 <= cp <= MAX_POINT
    ensures 1 <= |r| <= 4
  {
    if cp < 0x80 then [cp]
    else if cp < 0x800 then [0xC0 + cp / 64, 0x80 + cp % 64]
    else if cp < 0x10000 then [0xE0 + cp / 4096, 0x80 + cp / 64 % 64, 0x80 + cp % 64]
    else [0xF0 + cp / 262144, 0x80 + cp / 4096 % 64, 0x80 + cp / 64 % 64, 0x80 + cp % 64]
  }

  /** `codePointAt` at the head of a non-empty string. */
  function PointAt(s: Text): (cp: int)
    requires s != []
    ensures 0 <= cp <= MAX_POINT && (cp >= 0x10000 <==> StartsWithPair(s))
  {
    if StartsWithPair(s) then 0x10000 + (s[0] as int - 0xD800) * 0x400 + (s[1] as int - 0xDC00) else s[0]
  }

  function PointUnits(s: Text): (n: nat)
    requires s != []
    ensures 1 <= n <= |s|
  {
    if StartsWithPair(s) then 2 else 1
  }

  /** `String.fromCodePoint`; None is the RangeError. */
  function FromPoint(cp: int): Option<Text>
    requires 0 <= cp
  {
    if cp < 0x10000 then Some([cp])
    else if cp <= MAX_POINT then Some([0xD800 + (cp - 0x10000) / 0x400, 0xDC00 + (cp - 0x10000) % 0x400])
    else None
  }

  function Encoded(s: Text): Bytes {
    if s == [] then [] else EncodePoint(PointAt(s)) + Encoded(s[PointUnits(s)..])
  }

  // ---- the decoder ---------------------------------------------------------------------

  /** How many bytes the sequence takes after its first. */
  function Take(b: Byte): nat {
    if 0xC2 <= b < 0xE0 then 1 else if 0xE0 <= b < 0xF0 then 2 else if 0xF0 <= b < 0xF5 then 3 else 0
  }

  /** The bits the first byte contributes. */
  function LeadBits(b: Byte): nat {
    if b < 0x80 then b
    else if 0xC2 <= b < 0xE0 then b % 32
    else if 0xE0 <= b < 0xF0 then b % 16
    else if 0xF0 <= b < 0xF5 then b % 8
    else REPLACEMENT
  }

  /** Fold more bytes in, six bits each, without looking at their top bits. */
  function Continue(cp: nat, more: Bytes): nat
    decreases |more|
  {
    if more == [] then cp else Continue(cp * 64 + more[0] % 64, more[1..])
  }

  /** Where the sequence at the head ends; a sequence cut off by the end of the input ends there. */
  function SequenceEnd(b: Bytes): (n: nat)
    requires b != []
    ensures 1 <= n <= |b|
  {
    if Take(b[0]) + 1 <= |b| then Take(b[0]) + 1 else |b|
  }

  function SequencePoint(b: Bytes): nat
    requires b != []
  {
    Continue(LeadBits(b[0]), b[1..SequenceEnd(b)])
  }

  /** None when `String.fromCodePoint` throws. */
  function Decoded(b: Bytes): Option<Text>
    decreases |b|
  {
    if b == [] then Some([])
    else
      var first, rest := FromPoint(SequencePoint(b)), Decoded(b[SequenceEnd(b)..]);
      if first.None? || rest.None? then None else Some(first.value + rest.value)
  }

  // ---- the loops -------------------------------------------------------------------------

  method Utf8Bytes(text: Text) returns (bytes: Bytes)
    ensures bytes == Encoded(text)
  {
    bytes := [];
    var i := 0;
    assert text[0..] == text;
    while i < |text|
      invariant 0 <= i <= |text|
      invariant Encoded(text) == bytes + Encoded(text[i..])
    {
      var cp: int := PointAt(text[i..]);
      EncodedStep(text[i..], bytes);
      assert text[i..][PointUnits(text[i..])..] == text[i + PointUnits(text[i..])..];
      hide Encoded, StartsWithPair, PointAt;
      ghost var was, next := bytes, i + PointUnits(text[i..]);
      if cp >= 0x10000 { i := i + 1; }
      if cp < 0x80 {
        bytes := bytes + [cp];
      } else if cp < 0x800 {
        bytes := bytes + [0xC0 + cp / 64, 0x80 + cp % 64];
      } else if cp < 0x10000 {
        bytes := bytes + [0xE0 + cp / 4096, 0x80 + cp / 64 % 64, 0x80 + cp % 64];
      } else {
        bytes := bytes + [0xF0 + cp / 262144, 0x80 + cp / 4096 % 64, 0x80 + cp / 64 % 64, 0x80 + cp % 64];
      }
      i := i + 1;
      assert bytes == was + EncodePoint(cp) && i == next;
    }
  }

  lemma EncodedStep(s: Text, done: Bytes)
    requires s != []
    ensures done + Encoded(s) == (done + EncodePoint(PointAt(s))) + Encoded(s[PointUnits(s)..])
  {
    hide EncodePoint, PointAt, PointUnits;
    assert (done + EncodePoint(PointAt(s))) + Encoded(s[PointUnits(s)..])
        == done + (EncodePoint(PointAt(s)) + Encoded(s[PointUnits(s)..]));
  }

  /** The inner loop of utf8Text: the number written at offset i. */
  method ReadSequence(bytes: Bytes, i: nat) returns (cp: nat)
    requires i < |bytes|
    ensures cp == SequencePoint(bytes[i..])
  {
    ghost var rest := bytes[i..];
    ghost var end := SequenceEnd(rest);
    var take := Take(bytes[i]);
    cp := LeadBits(bytes[i]);
    SequenceShape(rest);
    hide *;
    var k := 1;
    while k <= take && i + k < |bytes|
      invariant 1 <= k <= end
      invariant SequencePoint(rest) == Continue(cp, rest[k..end])
    {
      ContinueStep(cp, rest[k..end]);
      assert rest[k..end][1..] == rest[k + 1..end];
      cp := cp * 64 + bytes[i + k] % 64;
      k := k + 1;
    }
    ContinueDone(cp, rest[k..end]);
  }

  method Utf8Text(bytes: Bytes) returns (text: Option<Text>)
    ensures text == Decoded(bytes)
  {
    var done: Text := [];
    var i := 0;
    ghost var rest := bytes;
    StartDecoding(bytes);
    while i < |bytes|
      invariant 0 <= i
      invariant rest == if i < |bytes| then bytes[i..] else []
      invariant Decoded(bytes) == Prefixed(done, Decoded(rest))
    {
      hide *;
      var cp := ReadSequence(bytes, i);
      ghost var end := SequenceEnd(rest);
      SequenceShape(rest);
      DecodedStep(rest, done);
      var unit := FromPoint(cp);
      if unit.None? { return None; }
      done := done + unit.value;
      i := i + Take(bytes[i]) + 1;
      rest := rest[end..];
    }
    NothingLeft(done);
    text := Some(done);
  }

  lemma SequenceShape(b: Bytes)
    requires b != []
    ensures SequenceEnd(b) == if Take(b[0]) + 1 <= |b| then Take(b[0]) + 1 else |b|
    ensures SequencePoint(b) == Continue(LeadBits(b[0]), b[1..SequenceEnd(b)])
  {}

  lemma ContinueStep(cp: nat, more: Bytes)
    requires more != []
    ensures Continue(cp, more) == Continue(cp * 64 + more[0] % 64, more[1..])
  {}

  lemma ContinueDone(cp: nat, more: Bytes)
    requires more == []
    ensures Continue(cp, more) == cp
  {}

  lemma NothingLeft(done: Text)
    ensures Prefixed(done, Decoded([])) == Some(done)
  {
    assert done + [] == done;
  }

  lemma StartDecoding(b: Bytes)
    ensures Decoded(b) == Prefixed([], Decoded(b))
  {
    if Decoded(b).Some? { assert [] + Decoded(b).value == Decoded(b).value; }
  }

  lemma DecodedStep(b: Bytes, done: Text)
    requires b != []
    ensures FromPoint(SequencePoint(b)).None? ==> Prefixed(done, Decoded(b)) == None
    ensures FromPoint(SequencePoint(b)).Some? ==>
              Prefixed(done, Decoded(b)) == Prefixed(done + FromPoint(SequencePoint(b)).value, Decoded(b[SequenceEnd(b)..]))
  {
    hide FromPoint, SequencePoint, SequenceEnd;
    var first, rest := FromPoint(SequencePoint(b)), Decoded(b[SequenceEnd(b)..]);
    if first.Some? && rest.Some? { assert (done + first.value) + rest.value == done + (first.value + rest.value); }
  }

  function Prefixed(done: Text, r: Option<Text>): Option<Text> {
    if r.None? then None else Some(done + r.value)
  }

  // ---- round trip --------------------------------------------------------------------------

  lemma Continue1(cp: nat, x: Byte)
    ensures Continue(cp, [x]) == cp * 64 + x % 64
  {
    assert [x][1..] == [];
  }

  lemma Continue2(cp: nat, x: Byte, y: Byte)
    ensures Continue(cp, [x, y]) == (cp * 64 + x % 64) * 64 + y % 64
  {
    assert [x, y][1..] == [y];
    Continue1(cp * 64 + x % 64, y);
  }

  lemma Continue3(cp: nat, x: Byte, y: Byte, z: Byte)
    ensures Continue(cp, [x, y, z]) == ((cp * 64 + x % 64) * 64 + y % 64) * 64 + z % 64
  {
    assert [x, y, z][1..] == [y, z];
    Continue2(cp * 64 + x % 64, y, z);
  }

  /** The first byte says how long the sequence is. */
  lemma EncodedLead(cp: int)
    requires 0 <= cp <= MAX_POINT
    ensures Take(EncodePoint(cp)[0]) + 1 == |EncodePoint(cp)|
    ensures LeadBits(EncodePoint(cp)[0])
         == if cp < 0x80 then cp else if cp < 0x800 then cp / 64 else if cp < 0x10000 then cp / 4096 else cp / 262144
  {}

  lemma Sextets(cp: nat)
    ensures cp == cp / 64 * 64 + cp % 64
    ensures cp / 64 == cp / 4096 * 64 + cp / 64 % 64
    ensures cp / 4096 == cp / 262144 * 64 + cp / 4096 % 64
  {}

  lemma ContinuationBits(x: int)
    requires 0 <= x < 64
    ensures (0x80 + x) % 64 == x
  {}

  lemma EncodedContinues(cp: int)
    requires 0 <= cp <= MAX_POINT
    ensures Continue(LeadBits(EncodePoint(cp)[0]), EncodePoint(cp)[1..]) == cp
  {
    EncodedLead(cp);
    Sextets(cp);
    hide LeadBits, Continue;
    var e := EncodePoint(cp);
    var x, y, z := cp / 4096 % 64, cp / 64 % 64, cp % 64;
    ContinuationBits(x);
    ContinuationBits(y);
    ContinuationBits(z);
    if cp < 0x80 {
      assert e[1..] == [];
      Continue0(cp);
    } else if cp < 0x800 {
      assert e[1..] == [0x80 + z];
      Continue1(cp / 64, 0x80 + z);
    } else if cp < 0x10000 {
      assert e[1..] == [0x80 + y, 0x80 + z];
      Continue2(cp / 4096, 0x80 + y, 0x80 + z);
    } else {
      assert e[1..] == [0x80 + x, 0x80 + y, 0x80 + z];
      Continue3(cp / 262144, 0x80 + x, 0x80 + y, 0x80 + z);
    }
  }

  lemma Continue0(cp: nat)
    ensures Continue(cp, []) == cp
  {}

  /** The decoder reads back one encoded code point, whatever follows it. */
  lemma DecodePoint(cp: int, rest: Bytes)
    requires 0 <= cp <= MAX_POINT
    ensures SequenceEnd(EncodePoint(cp) + rest) == |EncodePoint(cp)|
    ensures SequencePoint(EncodePoint(cp) + rest) == cp
  {
    hide EncodePoint, Continue, LeadBits, Take;
    var e := EncodePoint(cp);
    var b := e + rest;
    EncodedLead(cp);
    EncodedContinues(cp);
    assert b[0] == e[0] && b[1..|e|] == e[1..];
  }

  lemma PointRoundTrip(s: Text)
    requires s != []
    ensures FromPoint(PointAt(s)) == Some(s[..PointUnits(s)])
  {
    if StartsWithPair(s) {
      var hi, lo := s[0] as int - 0xD800, s[1] as int - 0xDC00;
      assert (hi * 0x400 + lo) / 0x400 == hi && (hi * 0x400 + lo) % 0x400 == lo;
      assert s[..2] == [s[0], s[1]];
    } else {
      assert s[..1] == [s[0]];
    }
  }

  /** Bytes are a faithful copy of a string: no string is lost, and no two strings share bytes. */
  lemma {:induction false} DecodedInvertsEncoded(s: Text)
    ensures Decoded(Encoded(s)) == Some(s)
  {
    hide EncodePoint, PointAt, PointUnits, FromPoint, SequenceEnd, SequencePoint;
    if s != [] {
      var n, rest := PointUnits(s), Encoded(s[PointUnits(s)..]);
      var e := EncodePoint(PointAt(s));
      DecodePoint(PointAt(s), rest);
      PointRoundTrip(s);
      assert (e + rest)[|e|..] == rest;
      DecodedInvertsEncoded(s[n..]);
      assert s == s[..n] + s[n..];
    }
  }

  lemma EncodedIsInjective(s: Text, t: Text)
    requires Encoded(s) == Encoded(t)
    ensures s == t
  {
    DecodedInvertsEncoded(s);
    DecodedInvertsEncoded(t);
  }

  // ---- when the decoder throws ----------------------------------------------------------------

  /** Offset i is where the decoder starts a sequence. */
  predicate StartsAt(b: Bytes, i: nat)
    decreases |b|
  {
    i == 0 || (b != [] && SequenceEnd(b) <= i && StartsAt(b[SequenceEnd(b)..], i - SequenceEnd(b)))
  }

  /** F4 with three more bytes, the first of them beyond 8F: a number above U+10FFFF. */
  predicate TooLarge(b: Bytes) {
    |b| >= 4 && b[0] == 0xF4 && b[1] % 64 >= 16
  }

  lemma ContinueBound(cp: nat, more: Bytes)
    requires |more| <= 3
    ensures |more| == 0 ==> Continue(cp, more) == cp
    ensures |more| == 1 ==> Continue(cp, more) < cp * 64 + 64
    ensures |more| == 2 ==> Continue(cp, more) < cp * 4096 + 4096
    ensures |more| == 3 ==> cp * 262144 + 4096 * (more[0] as int % 64) <= Continue(cp, more) < cp * 262144 + 4096 * (more[0] as int % 64) + 4096
  {
    if |more| == 1 { Continue1(cp, more[0]); assert more == [more[0]]; }
    if |more| == 2 { Continue2(cp, more[0], more[1]); assert more == [more[0], more[1]]; }
    if |more| == 3 { Continue3(cp, more[0], more[1], more[2]); assert more == [more[0], more[1], more[2]]; }
  }

  lemma TooLargeExactly(b: Bytes)
    requires b != []
    ensures FromPoint(SequencePoint(b)).None? <==> TooLarge(b)
  {
    ContinueBound(LeadBits(b[0]), b[1..SequenceEnd(b)]);
  }

  /** utf8Text promises U+FFFD for malformed input, but it throws on exactly the inputs in which some
      sequence it reads is F4 and three bytes of which the first carries 16 or more. */
  lemma {:induction false} DecodedThrowsExactly(b: Bytes)
    ensures Decoded(b).None? <==> exists i :: 0 <= i < |b| && StartsAt(b, i) && TooLarge(b[i..])
    decreases |b|
  {
    if b != [] {
      var n := SequenceEnd(b);
      TooLargeExactly(b);
      DecodedThrowsExactly(b[n..]);
      assert b[0..] == b;
      if Decoded(b[n..]).None? {
        var i :| 0 <= i < |b[n..]| && StartsAt(b[n..], i) && TooLarge(b[n..][i..]);
        assert b[n..][i..] == b[n + i..];
        assert StartsAt(b, n + i);
      }
      if i :| 0 <= i < |b| && StartsAt(b, i) && TooLarge(b[i..]) {
        if i > 0 {
          assert b[n..][i - n..] == b[i..];
          assert StartsAt(b[n..], i - n);
        }
      }
    }
  }

  /** A malformed document that is not decoded to U+FFFD. */
  lemma AboveTheLastPlaneThrows()
    ensures Decoded([0xF4, 0x90, 0x80, 0x80]).None?
  {
    var b := [0xF4, 0x90, 0x80, 0x80];
    assert b[0..] == b && StartsAt(b, 0) && TooLarge(b[0..]);
    DecodedThrowsExactly(b);
  }
}
