/** The incremental decoder and the line splitter of the streaming client (runtime/dsh/llm.js:71-140):
    what they deliver depends on the bytes, not on where the transport cut them. */
module SseFraming {
  import opened Wrappers
  import opened JsText
  import opened Utf8

  const LF: CodeUnit := 0x0A
  const CR: CodeUnit := 0x0D

  type Left = n: int | 1 <= n <= 3 witness 1

  /** The `pending` record: bytes still owed and the bits so far. */
  datatype Pending = Idle | Partial(left: Left, cp: nat)

  /** `Overflow` is the RangeError of `String.fromCodePoint`. */
  datatype Fed = Fed(pending: Pending, text: Text) | Overflow

  function Need(b: Byte): nat {
    if b < 0x80 then 1
    else if 0xC2 <= b <= 0xDF then 2
    else if 0xE0 <= b <= 0xEF then 3
    else if 0xF0 <= b <= 0xF4 then 4
    else 0
  }

  function LeadMask(need: nat): nat {
    if need == 2 then 32 else if need == 3 then 16 else 8
  }

  function StepIdle(b: Byte): Fed {
    if Need(b) == 0 then Fed(Idle, [REPLACEMENT])
    else if Need(b) == 1 then Fed(Idle, [b])
    else Fed(Partial(Need(b) - 1, b % LeadMask(Need(b))), [])
  }

  predicate Continuation(b: Byte) { 0x80 <= b < 0xC0 }

  /** One byte. A byte that does not continue the pending sequence is read again as a first byte. */
  function Step(p: Pending, b: Byte): Fed {
    match p
    case Idle => StepIdle(b)
    case Partial(left, cp) =>
      if !Continuation(b) then Before([REPLACEMENT], StepIdle(b))
      else if left > 1 then Fed(Partial(left - 1, cp * 64 + b % 64), [])
      else if FromPoint(cp * 64 + b % 64).None? then Overflow
      else Fed(Idle, FromPoint(cp * 64 + b % 64).value)
  }

  function Before(text: Text, f: Fed): Fed {
    if f.Overflow? then f else Fed(f.pending, text + f.text)
  }

  function Feed(p: Pending, bytes: Bytes): Fed
    decreases |bytes|, 0
  {
    if bytes == [] then Fed(p, []) else Then(Step(p, bytes[0]), bytes[1..])
  }

  /** Go on from a result with more bytes. */
  function Then(f: Fed, bytes: Bytes): Fed
    decreases |bytes|, 1
  {
    if f.Overflow? then f else Before(f.text, Feed(f.pending, bytes))
  }

  lemma BeforeBefore(t: Text, u: Text, f: Fed)
    ensures Before(t, Before(u, f)) == Before(t + u, f)
  {
    if f.Fed? { assert t + (u + f.text) == (t + u) + f.text; }
  }

  /** Feeding two pieces is feeding their concatenation. */
  lemma {:induction false} FeedConcat(p: Pending, a: Bytes, b: Bytes)
    ensures Feed(p, a + b) == Then(Feed(p, a), b)
    decreases |a|
  {
    if a == [] {
      assert a + b == b;
      if Feed(p, b).Fed? { assert [] + Feed(p, b).text == Feed(p, b).text; }
    } else {
      assert (a + b)[0] == a[0] && (a + b)[1..] == a[1..] + b;
      hide Step;
      var f := Step(p, a[0]);
      if f.Fed? {
        FeedConcat(f.pending, a[1..], b);
        var g := Feed(f.pending, a[1..]);
        if g.Fed? { BeforeBefore(f.text, g.text, Feed(g.pending, b)); }
      }
    }
  }

  // ---- what the decoder makes of well-formed bytes ----------------------------------------

  lemma FeedOne(cp: int)
    requires 0 <= cp <= MAX_POINT
    ensures Feed(Idle, EncodePoint(cp)) == Fed(Idle, FromPoint(cp).value)
  {
    hide Feed, FromPoint;
    Sextets(cp);
    var x, y, z := cp / 4096 % 64, cp / 64 % 64, cp % 64;
    if cp < 0x80 {
      FeedAscii(cp);
    } else if cp < 0x800 {
      FeedTwo(cp / 64, z);
    } else if cp < 0x10000 {
      FeedThree(cp / 4096, y, z);
    } else {
      FeedFour(cp / 262144, x, y, z);
    }
  }

  lemma FeedAscii(b: Byte)
    requires b < 0x80
    ensures Feed(Idle, [b]) == Fed(Idle, FromPoint(b).value)
  {
    FeedEmpty(Idle, [b][1..]);
  }

  lemma FeedEmpty(p: Pending, e: Bytes)
    requires e == []
    ensures Feed(p, e) == Fed(p, [])
  {}

  lemma FeedContinue(left: Left, cp: nat, e: Bytes)
    requires |e| >= 1 && Continuation(e[0]) && left > 1
    ensures Feed(Partial(left, cp), e) == Feed(Partial(left - 1, cp * 64 + e[0] % 64), e[1..])
  {
    var f := Feed(Partial(left - 1, cp * 64 + e[0] % 64), e[1..]);
    if f.Fed? { assert [] + f.text == f.text; }
  }

  lemma FeedLast(cp: nat, e: Bytes)
    requires |e| == 1 && Continuation(e[0]) && cp * 64 + e[0] % 64 <= MAX_POINT
    ensures Feed(Partial(1, cp), e) == Fed(Idle, FromPoint(cp * 64 + e[0] % 64).value)
  {
    FeedEmpty(Idle, e[1..]);
    var t := FromPoint(cp * 64 + e[0] % 64).value;
    assert t + [] == t;
  }

  lemma FeedLead(e: Bytes)
    requires |e| >= 1 && Need(e[0]) >= 2
    ensures Feed(Idle, e) == Feed(Partial(Need(e[0]) - 1, e[0] % LeadMask(Need(e[0]))), e[1..])
  {
    var f := Feed(Partial(Need(e[0]) - 1, e[0] % LeadMask(Need(e[0]))), e[1..]);
    if f.Fed? { assert [] + f.text == f.text; }
  }

  lemma FeedTwo(q: nat, z: nat)
    requires 2 <= q < 32 && z < 64
    ensures Feed(Idle, [0xC0 + q, 0x80 + z]) == Fed(Idle, FromPoint(q * 64 + z).value)
  {
    hide Feed, FromPoint;
    var e := [0xC0 + q, 0x80 + z];
    FeedLead(e);
    FeedLast(q, e[1..]);
  }

  lemma FeedThree(q: nat, y: nat, z: nat)
    requires q < 16 && y < 64 && z < 64
    ensures Feed(Idle, [0xE0 + q, 0x80 + y, 0x80 + z]) == Fed(Idle, FromPoint((q * 64 + y) * 64 + z).value)
  {
    hide Feed, FromPoint;
    var e := [0xE0 + q, 0x80 + y, 0x80 + z];
    FeedLead(e);
    FeedContinue(2, q, e[1..]);
    FeedLast(q * 64 + y, e[1..][1..]);
  }

  lemma FeedFour(q: nat, x: nat, y: nat, z: nat)
    requires q < 5 && x < 64 && y < 64 && z < 64 && ((q * 64 + x) * 64 + y) * 64 + z <= MAX_POINT
    ensures Feed(Idle, [0xF0 + q, 0x80 + x, 0x80 + y, 0x80 + z])
         == Fed(Idle, FromPoint(((q * 64 + x) * 64 + y) * 64 + z).value)
  {
    hide Feed, FromPoint;
    var e := [0xF0 + q, 0x80 + x, 0x80 + y, 0x80 + z];
    FeedLead(e);
    FeedContinue(3, q, e[1..]);
    FeedContinue(2, q * 64 + x, e[1..][1..]);
    FeedLast((q * 64 + x) * 64 + y, e[1..][1..][1..]);
  }

  /** The streaming decoder reads back every encoded string, lone surrogates included, and holds
      nothing at the end. */
  lemma {:induction false} FeedInvertsEncoded(s: Text)
    ensures Feed(Idle, Encoded(s)) == Fed(Idle, s)
  {
    if s != [] {
      hide EncodePoint, PointAt, PointUnits, FromPoint, Feed;
      var n := PointUnits(s);
      var first := EncodePoint(PointAt(s));
      assert Encoded(s) == first + Encoded(s[n..]);
      FeedOne(PointAt(s));
      PointRoundTrip(s);
      FeedConcat(Idle, first, Encoded(s[n..]));
      FeedInvertsEncoded(s[n..]);
      hide Encoded;
      assert s[..n] + s[n..] == s;
    } else {
      FeedEmpty(Idle, Encoded(s));
    }
  }

  // ---- when the decoder throws ---------------------------------------------------------------

  /** Four bytes that write a number above U+10FFFF. */
  predicate AboveMax(b: Bytes) {
    |b| >= 4 && b[0] == 0xF4 && 0x90 <= b[1] < 0xC0 && Continuation(b[2]) && Continuation(b[3])
  }

  ghost predicate HasAboveMax(b: Bytes) {
    exists i :: 0 <= i < |b| && AboveMax(b[i..])
  }

  /** The pending sequence is about to be completed to a number that is too large. */
  predicate Completes(p: Pending, b: Bytes) {
    && p.Partial? && |b| >= p.left
    && (forall k :: 0 <= k < p.left ==> Continuation(b[k]))
    && Continue(p.cp, b[..p.left]) > MAX_POINT
  }

  lemma HasAboveMaxStep(b: Bytes)
    requires b != []
    ensures HasAboveMax(b) <==> (AboveMax(b) || HasAboveMax(b[1..]))
  {
    hide AboveMax;
    assert b[0..] == b;
    if i :| 0 <= i < |b[1..]| && AboveMax(b[1..][i..]) {
      assert b[1..][i..] == b[i + 1..];
    }
    if i :| 0 <= i < |b| && AboveMax(b[i..]) {
      if i > 0 { assert b[1..][i - 1..] == b[i..]; }
    }
  }

  lemma LeadCompletes(b: Bytes)
    requires b != [] && Need(b[0]) >= 2
    ensures Completes(Partial(Need(b[0]) - 1, b[0] % LeadMask(Need(b[0]))), b[1..]) <==> AboveMax(b)
  {
    var left, cp := Need(b[0]) - 1, b[0] % LeadMask(Need(b[0]));
    if |b[1..]| >= left {
      ContinueBound(cp, b[1..][..left]);
      assert forall k :: 0 <= k < left ==> b[1..][k] == b[k + 1];
    }
  }

  lemma PartialCompletes(left: Left, cp: nat, b: Bytes)
    requires b != [] && Continuation(b[0]) && left > 1
    ensures Completes(Partial(left, cp), b) <==> Completes(Partial(left - 1, cp * 64 + b[0] % 64), b[1..])
  {
    if |b| >= left {
      assert b[..left][1..] == b[1..][..left - 1];
      assert forall k :: 0 <= k < left - 1 ==> b[1..][k] == b[k + 1];
      assert forall k :: 1 <= k < left ==> b[k] == b[1..][k - 1];
    }
  }

  lemma LastCompletes(cp: nat, b: Bytes)
    requires b != [] && Continuation(b[0])
    ensures Completes(Partial(1, cp), b) <==> FromPoint(cp * 64 + b[0] % 64).None?
  {
    assert b[..1] == [b[0]];
    Continue1(cp, b[0]);
  }

  /** The decoder's comment says it never throws. It throws on exactly the inputs that hold, at any
      offset, F4 followed by a byte in 90..BF and two more continuation bytes. */
  lemma {:induction false} FeedThrowsExactly(p: Pending, b: Bytes)
    ensures Feed(p, b).Overflow? <==> HasAboveMax(b) || Completes(p, b)
    decreases |b|
  {
    if b != [] {
      HasAboveMaxStep(b);
      StepCompletes(p, b);
      hide Step, Completes, HasAboveMax, AboveMax;
      var f := Step(p, b[0]);
      if f.Fed? { FeedThrowsExactly(f.pending, b[1..]); }
    }
  }

  lemma StepCompletes(p: Pending, b: Bytes)
    requires b != []
    ensures Step(p, b[0]).Overflow? ==> Completes(p, b)
    ensures Step(p, b[0]).Fed? ==>
              (AboveMax(b) || Completes(p, b) <==> Completes(Step(p, b[0]).pending, b[1..]))
  {
    if p.Partial? && Continuation(b[0]) {
      if p.left > 1 { PartialCompletes(p.left, p.cp, b); } else { LastCompletes(p.cp, b); }
    } else if Need(b[0]) >= 2 {
      LeadCompletes(b);
    }
  }

  // ---- the splitter ------------------------------------------------------------------------------

  /** `buf.indexOf('\n')`, with the length for "none". */
  function FirstLf(s: Text): (at: nat)
    ensures at <= |s| && (at < |s| ==> s[at] == LF) && forall i :: 0 <= i < at ==> s[i] != LF
  {
    if s == [] || s[0] == LF then 0 else 1 + FirstLf(s[1..])
  }

  function TrimCr(line: Text): Text {
    if line != [] && line[|line| - 1] == CR then line[..|line| - 1] else line
  }

  /** The complete lines of a text and the partial line after the last newline. */
  function Split(s: Text): (r: (seq<Text>, Text))
    ensures FirstLf(r.1) == |r.1|
  {
    var at := FirstLf(s);
    if at == |s| then ([], s)
    else
      var more := Split(s[at + 1..]);
      ([TrimCr(s[..at])] + more.0, more.1)
  }

  /** Splitting in two pushes is splitting the whole. */
  lemma {:induction false} SplitConcat(a: Text, b: Text)
    ensures Split(a + b) == (Split(a).0 + Split(Split(a).1 + b).0, Split(Split(a).1 + b).1)
  {
    hide Split, FirstLf;
    if FirstLf(a) == |a| {
      SplitPartial(a);
      assert [] + Split(a + b).0 == Split(a + b).0;
    } else {
      SplitStep(a, b);
      var tail := a[FirstLf(a) + 1..];
      SplitConcat(tail, b);
      var line, rest := [TrimCr(a[..FirstLf(a)])], Split(Split(tail).1 + b).0;
      assert line + (Split(tail).0 + rest) == (line + Split(tail).0) + rest;
    }
  }

  lemma SplitPartial(s: Text)
    requires FirstLf(s) == |s|
    ensures Split(s) == ([], s)
  {}

  lemma SplitStep(a: Text, b: Text)
    requires FirstLf(a) < |a|
    ensures Split(a) == ([TrimCr(a[..FirstLf(a)])] + Split(a[FirstLf(a) + 1..]).0, Split(a[FirstLf(a) + 1..]).1)
    ensures Split(a + b)
         == ([TrimCr(a[..FirstLf(a)])] + Split(a[FirstLf(a) + 1..] + b).0, Split(a[FirstLf(a) + 1..] + b).1)
  {
    FirstLfConcat(a, b);
    var at := FirstLf(a);
    assert (a + b)[..at] == a[..at] && (a + b)[at + 1..] == a[at + 1..] + b;
  }

  lemma FirstLfConcat(a: Text, b: Text)
    requires FirstLf(a) < |a|
    ensures FirstLf(a + b) == FirstLf(a)
  {
    assert forall i :: 0 <= i < |a| ==> (a + b)[i] == a[i];
  }

  // ---- the closures ------------------------------------------------------------------------------

  class Utf8Decoder {
    var pending: Pending

    constructor ()
      ensures pending == Idle
    {
      pending := Idle;
    }

    /** None is the RangeError; the callers drop the decoder then. */
    method Push(bytes: Bytes) returns (text: Option<Text>)
      modifies this
      ensures Feed(old(pending), bytes).Overflow? ==> text == None
      ensures Feed(old(pending), bytes).Fed? ==>
                text == Some(Feed(old(pending), bytes).text) && pending == Feed(old(pending), bytes).pending
    {
      var done: Text := [];
      var i := 0;
      StartFeeding(pending, bytes);
      assert bytes[0..] == bytes;
      while i < |bytes|
        invariant 0 <= i <= |bytes|
        invariant Feed(old(pending), bytes) == Before(done, Feed(pending, bytes[i..]))
        decreases |bytes| - i, if pending.Idle? then 0 else 1
      {
        var b := bytes[i];
        FeedStep(pending, bytes[i..], done);
        assert bytes[i..][1..] == bytes[i + 1..];
        if pending.Idle? {
          var need := Need(b);
          if need == 0 {
            done := done + [REPLACEMENT];
            i := i + 1;
            continue;
          }
          if need == 1 {
            done := done + [b];
            i := i + 1;
            continue;
          }
          pending := Partial(need - 1, b % LeadMask(need));
          assert done + [] == done;
          i := i + 1;
          continue;
        }
        if !Continuation(b) {
          Rewind(pending, bytes[i..], done);
          done := done + [REPLACEMENT];
          pending := Idle; // the same byte again: `i -= 1` meets the loop's `i++`
          continue;
        }
        var cp := pending.cp * 64 + b % 64;
        if pending.left > 1 {
          pending := Partial(pending.left - 1, cp);
          assert done + [] == done;
        } else {
          var unit := FromPoint(cp);
          if unit.None? { return None; }
          done := done + unit.value;
          pending := Idle;
        }
        i := i + 1;
      }
      assert bytes[i..] == [] && done + [] == done;
      text := Some(done);
    }

    method End() returns (tail: Text)
      modifies this
      ensures tail == (if old(pending).Partial? then [REPLACEMENT] else []) && pending == Idle
    {
      tail := if pending.Partial? then [REPLACEMENT] else [];
      pending := Idle;
    }
  }

  lemma StartFeeding(p: Pending, b: Bytes)
    ensures Feed(p, b) == Before([], Feed(p, b))
  {
    if Feed(p, b).Fed? { assert [] + Feed(p, b).text == Feed(p, b).text; }
  }

  lemma FeedStep(p: Pending, b: Bytes, done: Text)
    requires b != []
    ensures Step(p, b[0]).Overflow? ==> Before(done, Feed(p, b)) == Overflow
    ensures Step(p, b[0]).Fed? ==>
              Before(done, Feed(p, b)) == Before(done + Step(p, b[0]).text, Feed(Step(p, b[0]).pending, b[1..]))
  {
    hide Step;
    var f := Step(p, b[0]);
    if f.Fed? { BeforeBefore(done, f.text, Feed(f.pending, b[1..])); }
  }

  /** The rewound byte is read as if nothing had been pending. */
  lemma Rewind(p: Pending, b: Bytes, done: Text)
    requires p.Partial? && b != [] && !Continuation(b[0])
    ensures Before(done, Feed(p, b)) == Before(done + [REPLACEMENT], Feed(Idle, b))
  {
    var f := StepIdle(b[0]);
    BeforeBefore([REPLACEMENT], f.text, Feed(f.pending, b[1..]));
    BeforeBefore(done, [REPLACEMENT], Feed(Idle, b));
  }

  lemma SplitLine(s: Text, lines: seq<Text>)
    requires FirstLf(s) < |s|
    ensures lines + Split(s).0 == (lines + [TrimCr(s[..FirstLf(s)])]) + Split(s[FirstLf(s) + 1..]).0
    ensures Split(s).1 == Split(s[FirstLf(s) + 1..]).1
  {
    SplitNext(s);
    hide *;
    Associative(lines, [TrimCr(s[..FirstLf(s)])], Split(s[FirstLf(s) + 1..]).0);
  }

  lemma SplitNext(s: Text)
    requires FirstLf(s) < |s|
    ensures Split(s) == ([TrimCr(s[..FirstLf(s)])] + Split(s[FirstLf(s) + 1..]).0, Split(s[FirstLf(s) + 1..]).1)
  {}

  lemma Associative<T>(a: seq<T>, b: seq<T>, c: seq<T>)
    ensures a + (b + c) == (a + b) + c
  {}

  class LineSplitter {
    var buf: Text

    constructor ()
      ensures buf == []
    {
      buf := [];
    }

    method Push(text: Text) returns (lines: seq<Text>)
      modifies this
      ensures lines == Split(old(buf) + text).0 && buf == Split(old(buf) + text).1
    {
      buf := buf + text;
      lines := [];
      ghost var all := Split(buf);
      hide Split, FirstLf, TrimCr;
      assert [] + all.0 == all.0;
      var at := FirstLf(buf);
      while at < |buf|
        invariant at == FirstLf(buf)
        invariant all.0 == lines + Split(buf).0 && all.1 == Split(buf).1
        decreases |buf|
      {
        SplitLine(buf, lines);
        var line := TrimCr(buf[..at]);
        buf := buf[at + 1..];
        lines := lines + [line];
        at := FirstLf(buf);
      }
      SplitPartial(buf);
      assert lines + [] == lines;
    }

    method Flush() returns (rest: Text)
      modifies this
      ensures rest == old(buf) && buf == []
    {
      rest := buf;
      buf := [];
    }
  }
}
