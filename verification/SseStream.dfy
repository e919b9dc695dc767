/** The streaming turn (runtime/dsh/llm.js:142-215): chunks of bytes in, events and aggregated text out. */
module SseStream {
  import opened Wrappers
  import opened JsText
  import opened Utf8
  import opened SseFraming

  /** The fields of a parsed chunk that are read, None when absent or not a string. */
  datatype Chunk = Chunk(model: Option<Text>, finish: Option<Text>, thinking: Option<Text>, piece: Option<Text>)

  /** JSON.parse of a data payload. `Nullish` is the value null: reading `model` of it throws. */
  datatype Payload = Unparsable | Nullish | Data(chunk: Chunk)

  type Parser = Text -> Payload

  datatype Event =
    | Model(served: Text)
    | Reasoning(index: nat, text: Text)
    | Delta(index: nat, text: Text)

  /** The record `st` with every event it has fired. */
  datatype Turn = Turn(
    served: Option<Text>, finish: Option<Text>,
    text: Text, deltas: nat, reasoning: Text, reasoningDeltas: nat,
    events: seq<Event>)

  const START := Turn(None, None, [], 0, [], 0, [])

  datatype Fault = InvalidLine | TypeFailure | RangeFailure | TransportFailure

  /** After some lines: still folding, past [DONE], or thrown. */
  datatype Fold =
    | Folding(turn: Turn)
    | Done(turn: Turn)
    | Threw(turn: Turn, failure: Fault)

  const DATA: Text := [0x64, 0x61, 0x74, 0x61, 0x3A]
  const DONE: Text := [0x5B, 0x44, 0x4F, 0x4E, 0x45, 0x5D]
  const ABORTED: Text := [0x61, 0x62, 0x6F, 0x72, 0x74, 0x65, 0x64]

  predicate NonEmpty(t: Option<Text>) {
    t.Some? && t.value != []
  }

  // ---- foldChunk and foldLine ---------------------------------------------------------------

  function FoldModel(t: Turn, c: Chunk): Turn {
    if NonEmpty(c.model) && c.model != t.served then
      t.(served := c.model, events := t.events + [Model(c.model.value)])
    else t
  }

  function FoldFinish(t: Turn, c: Chunk): Turn {
    if NonEmpty(c.finish) then t.(finish := c.finish) else t
  }

  function FoldThinking(t: Turn, c: Chunk): Turn {
    if NonEmpty(c.thinking) then
      t.(reasoning := t.reasoning + c.thinking.value,
         reasoningDeltas := t.reasoningDeltas + 1,
         events := t.events + [Reasoning(t.reasoningDeltas, c.thinking.value)])
    else t
  }

  function FoldPiece(t: Turn, c: Chunk): Turn {
    if NonEmpty(c.piece) then
      t.(text := t.text + c.piece.value,
         deltas := t.deltas + 1,
         events := t.events + [Delta(t.deltas, c.piece.value)])
    else t
  }

  function FoldChunk(t: Turn, c: Chunk): Turn {
    FoldPiece(FoldThinking(FoldFinish(FoldModel(t, c), c), c), c)
  }

  predicate IsData(line: Text) {
    |line| >= 5 && line[..5] == DATA
  }

  /** What follows `data:`, less one space. */
  function PayloadOf(line: Text): Text
    requires IsData(line)
  {
    if |line| > 5 && line[5] == 0x20 then line[6..] else line[5..]
  }

  function FoldLine(parse: Parser, t: Turn, line: Text): Fold {
    if !IsData(line) then Folding(t)
    else if PayloadOf(line) == DONE then Done(t)
    else
      match parse(PayloadOf(line))
      case Unparsable => Threw(t, InvalidLine)
      case Nullish => Threw(t, TypeFailure)
      case Data(c) => Folding(FoldChunk(t, c))
  }

  function FoldLines(parse: Parser, f: Fold, lines: seq<Text>): Fold
    decreases |lines|
  {
    if !f.Folding? || lines == [] then f
    else FoldLines(parse, FoldLine(parse, f.turn, lines[0]), lines[1..])
  }

  lemma {:induction false} FoldLinesConcat(parse: Parser, f: Fold, a: seq<Text>, b: seq<Text>)
    ensures FoldLines(parse, f, a + b) == FoldLines(parse, FoldLines(parse, f, a), b)
    decreases |a|
  {
    if a == [] {
      assert a + b == b;
    } else if f.Folding? {
      assert (a + b)[0] == a[0] && (a + b)[1..] == a[1..] + b;
      FoldLinesConcat(parse, FoldLine(parse, f.turn, a[0]), a[1..], b);
    }
  }

  // ---- what the events say --------------------------------------------------------------------

  function Pieces(events: seq<Event>): seq<Text> {
    if events == [] then []
    else
      var last := events[|events| - 1];
      var before := Pieces(events[..|events| - 1]);
      if last.Delta? then before + [last.text] else before
  }

  function Thoughts(events: seq<Event>): seq<Text> {
    if events == [] then []
    else
      var last := events[|events| - 1];
      var before := Thoughts(events[..|events| - 1]);
      if last.Reasoning? then before + [last.text] else before
  }

  function Glue(parts: seq<Text>): Text {
    if parts == [] then [] else Glue(parts[..|parts| - 1]) + parts[|parts| - 1]
  }

  function LastModel(events: seq<Event>): Option<Text> {
    if events == [] then None
    else
      var last := events[|events| - 1];
      if last.Model? then Some(last.served) else LastModel(events[..|events| - 1])
  }

  /** What the next event may be: numbered by the events of its kind before it, with some text; or
      naming a model other than the last one named. */
  predicate Fits(events: seq<Event>, e: Event) {
    match e
    case Delta(index, text) => index == |Pieces(events)| && text != []
    case Reasoning(index, text) => index == |Thoughts(events)| && text != []
    case Model(served) => served != [] && LastModel(events) != Some(served)
  }

  ghost predicate InOrder(events: seq<Event>) {
    forall i :: 0 <= i < |events| ==> Fits(events[..i], events[i])
  }

  /** The aggregates are what the events add up to. */
  ghost predicate Consistent(t: Turn) {
    && InOrder(t.events)
    && t.deltas == |Pieces(t.events)| && t.text == Glue(Pieces(t.events))
    && t.reasoningDeltas == |Thoughts(t.events)| && t.reasoning == Glue(Thoughts(t.events))
    && t.served == LastModel(t.events)
  }

  lemma Append(events: seq<Event>, e: Event)
    requires InOrder(events) && Fits(events, e)
    ensures Pieces(events + [e]) == if e.Delta? then Pieces(events) + [e.text] else Pieces(events)
    ensures Thoughts(events + [e]) == if e.Reasoning? then Thoughts(events) + [e.text] else Thoughts(events)
    ensures LastModel(events + [e]) == if e.Model? then Some(e.served) else LastModel(events)
    ensures InOrder(events + [e])
  {
    var more := events + [e];
    assert more[..|events|] == events;
    forall i | 0 <= i < |more| ensures Fits(more[..i], more[i]) {
      if i < |events| { assert more[..i] == events[..i]; }
    }
  }

  lemma GlueOne(parts: seq<Text>, t: Text)
    ensures Glue(parts + [t]) == Glue(parts) + t
  {
    assert (parts + [t])[..|parts|] == parts;
  }

  lemma ModelStep(t: Turn, c: Chunk)
    requires Consistent(t)
    ensures Consistent(FoldModel(t, c))
  {
    if NonEmpty(c.model) && c.model != t.served {
      Append(t.events, Model(c.model.value));
      hide Pieces, Thoughts, LastModel, Glue, InOrder;
    }
  }

  lemma ThinkingStep(t: Turn, c: Chunk)
    requires Consistent(t)
    ensures Consistent(FoldThinking(t, c))
  {
    if NonEmpty(c.thinking) {
      Append(t.events, Reasoning(t.reasoningDeltas, c.thinking.value));
      GlueOne(Thoughts(t.events), c.thinking.value);
      hide Pieces, Thoughts, LastModel, Glue, InOrder;
    }
  }

  lemma PieceStep(t: Turn, c: Chunk)
    requires Consistent(t)
    ensures Consistent(FoldPiece(t, c))
  {
    if NonEmpty(c.piece) {
      Append(t.events, Delta(t.deltas, c.piece.value));
      GlueOne(Pieces(t.events), c.piece.value);
      hide Pieces, Thoughts, LastModel, Glue, InOrder;
    }
  }

  lemma FoldLineConsistent(parse: Parser, t: Turn, line: Text)
    requires Consistent(t)
    ensures Consistent(FoldLine(parse, t, line).turn)
  {
    hide Consistent, FoldModel, FoldThinking, FoldPiece;
    if IsData(line) && PayloadOf(line) != DONE && parse(PayloadOf(line)).Data? {
      var c := parse(PayloadOf(line)).chunk;
      ModelStep(t, c);
      FinishStep(FoldModel(t, c), c);
      ThinkingStep(FoldFinish(FoldModel(t, c), c), c);
      PieceStep(FoldThinking(FoldFinish(FoldModel(t, c), c), c), c);
    }
  }

  lemma FinishStep(t: Turn, c: Chunk)
    requires Consistent(t)
    ensures Consistent(FoldFinish(t, c))
  {}

  lemma {:induction false} FoldLinesConsistent(parse: Parser, f: Fold, lines: seq<Text>)
    requires Consistent(f.turn)
    ensures Consistent(FoldLines(parse, f, lines).turn)
    decreases |lines|
  {
    hide Consistent;
    if f.Folding? && lines != [] {
      FoldLineConsistent(parse, f.turn, lines[0]);
      FoldLinesConsistent(parse, FoldLine(parse, f.turn, lines[0]), lines[1..]);
    }
  }

  // ---- drainSse ---------------------------------------------------------------------------------

  /** The decoder, the splitter and the fold between two chunks. */
  datatype Drain = Drain(pending: Pending, buf: Text, fold: Fold)

  const OPENED := Drain(Idle, [], Folding(START))

  /** One chunk of the body. Past [DONE] chunks are read and ignored; past a throw none is read. */
  function TakeChunk(parse: Parser, d: Drain, chunk: Bytes): Drain {
    if !d.fold.Folding? then d
    else
      match Feed(d.pending, chunk)
      case Overflow => d.(fold := Threw(d.fold.turn, RangeFailure))
      case Fed(pending, text) =>
        var (lines, rest) := Split(d.buf + text);
        Drain(pending, rest, FoldLines(parse, d.fold, lines))
  }

  function TakeChunks(parse: Parser, d: Drain, chunks: seq<Bytes>): Drain
    decreases |chunks|
  {
    if chunks == [] then d else TakeChunks(parse, TakeChunk(parse, d, chunks[0]), chunks[1..])
  }

  function Flatten(chunks: seq<Bytes>): Bytes {
    if chunks == [] then [] else chunks[0] + Flatten(chunks[1..])
  }

  /** The whole stream at once: decode everything, cut it into lines, fold them. */
  function FoldWhole(parse: Parser, bytes: Bytes): Fold {
    match Feed(Idle, bytes)
    case Overflow => Threw(START, RangeFailure)
    case Fed(_, text) => FoldLines(parse, Folding(START), Split(text).0)
  }

  lemma {:induction false} TakeChunksStopped(parse: Parser, d: Drain, chunks: seq<Bytes>)
    requires !d.fold.Folding?
    ensures TakeChunks(parse, d, chunks) == d
    decreases |chunks|
  {
    if chunks != [] { TakeChunksStopped(parse, d, chunks[1..]); }
  }

  /** From any point of the stream: what is left to fold is the lines of the buffered text and the
      rest of the bytes. */
  lemma {:induction false} TakeChunksFolds(parse: Parser, d: Drain, chunks: seq<Bytes>)
    requires FirstLf(d.buf) == |d.buf| && Feed(d.pending, Flatten(chunks)).Fed?
    ensures TakeChunks(parse, d, chunks).fold
         == FoldLines(parse, d.fold, Split(d.buf + Feed(d.pending, Flatten(chunks)).text).0)
    decreases |chunks|
  {
    if !d.fold.Folding? {
      TakeChunksStopped(parse, d, chunks);
    } else if chunks == [] {
      FeedEmpty(d.pending, []);
      SplitPartial(d.buf);
      assert d.buf + [] == d.buf;
    } else {
      FeedConcat(d.pending, chunks[0], Flatten(chunks[1..]));
      TakeOneChunk(parse, d, chunks[0], Flatten(chunks[1..]));
      TakeChunksFolds(parse, TakeChunk(parse, d, chunks[0]), chunks[1..]);
    }
  }

  lemma TakeOneChunk(parse: Parser, d: Drain, chunk: Bytes, more: Bytes)
    requires d.fold.Folding? && Then(Feed(d.pending, chunk), more).Fed?
    ensures
      var e := TakeChunk(parse, d, chunk);
      && FirstLf(e.buf) == |e.buf| && Feed(e.pending, more).Fed?
      && FoldLines(parse, d.fold, Split(d.buf + Then(Feed(d.pending, chunk), more).text).0)
         == FoldLines(parse, e.fold, Split(e.buf + Feed(e.pending, more).text).0)
  {
    hide Feed, Split, FoldLines;
    var f := Feed(d.pending, chunk);
    var g := Feed(f.pending, more);
    var (lines, rest) := Split(d.buf + f.text);
    SplitConcat(d.buf + f.text, g.text);
    FoldLinesConcat(parse, d.fold, lines, Split(rest + g.text).0);
    assert d.buf + (f.text + g.text) == (d.buf + f.text) + g.text;
  }

  /** Chunk independence: when the stream holds no code point above U+10FFFF, the events, their
      numbers, the aggregated text, the [DONE] cut-off and a failing line depend on the bytes alone. */
  lemma ChunksDoNotMatter(parse: Parser, chunks: seq<Bytes>)
    requires !HasAboveMax(Flatten(chunks))
    ensures TakeChunks(parse, OPENED, chunks).fold == FoldWhole(parse, Flatten(chunks))
  {
    FeedThrowsExactly(Idle, Flatten(chunks));
    TakeChunksFolds(parse, OPENED, chunks);
    var text := Feed(Idle, Flatten(chunks)).text;
    assert [] + text == text;
  }

  /** Whatever arrived: deltas and reasoning pieces are numbered from 0 without a gap, the aggregated
      texts are their concatenations, and a model is named only when it changes. */
  lemma TurnsStayConsistent(parse: Parser, chunks: seq<Bytes>)
    ensures Consistent(TakeChunks(parse, OPENED, chunks).fold.turn)
  {
    ConsistentFrom(parse, OPENED, chunks);
  }

  lemma {:induction false} ConsistentFrom(parse: Parser, d: Drain, chunks: seq<Bytes>)
    requires Consistent(d.fold.turn)
    ensures Consistent(TakeChunks(parse, d, chunks).fold.turn)
    decreases |chunks|
  {
    hide Consistent, Split, Feed;
    if chunks != [] {
      if d.fold.Folding? && Feed(d.pending, chunks[0]).Fed? {
        FoldLinesConsistent(parse, d.fold, Split(d.buf + Feed(d.pending, chunks[0]).text).0);
      }
      ConsistentFrom(parse, TakeChunk(parse, d, chunks[0]), chunks[1..]);
    }
  }

  // ---- streams that make the decoder throw ------------------------------------------------------------

  /** How many bytes the decoder takes before the one it throws on. */
  function Readable(p: Pending, b: Bytes): (n: nat)
    ensures n <= |b|
    decreases |b|
  {
    if b == [] || Step(p, b[0]).Overflow? then 0 else 1 + Readable(Step(p, b[0]).pending, b[1..])
  }

  lemma {:induction false} ReadableIsFed(p: Pending, b: Bytes)
    ensures Feed(p, b[..Readable(p, b)]).Fed?
    decreases |b|
  {
    hide Step;
    if b != [] && Step(p, b[0]).Fed? {
      ReadableIsFed(Step(p, b[0]).pending, b[1..]);
      assert b[..Readable(p, b)][1..] == b[1..][..Readable(Step(p, b[0]).pending, b[1..])];
    }
  }

  lemma {:induction false} ReadableConcat(p: Pending, a: Bytes, b: Bytes)
    requires Feed(p, a).Fed?
    ensures Readable(p, a + b) == |a| + Readable(Feed(p, a).pending, b)
    decreases |a|
  {
    hide Step;
    if a == [] {
      assert a + b == b;
    } else {
      assert (a + b)[0] == a[0] && (a + b)[1..] == a[1..] + b;
      ReadableConcat(Step(p, a[0]).pending, a[1..], b);
    }
  }

  /** The fold of the lines that are complete before the byte the decoder throws on. */
  function FoldReadable(parse: Parser, d: Drain, b: Bytes): Fold {
    ReadableIsFed(d.pending, b);
    FoldLines(parse, d.fold, Split(d.buf + Feed(d.pending, b[..Readable(d.pending, b)]).text).0)
  }

  /** A chunk that says anything leaves a mark. */
  lemma ChunkMovesOn(t: Turn, c: Chunk)
    ensures FoldChunk(t, c) == START ==> t == START
  {
    var u := FoldModel(t, c);
    var v := FoldFinish(u, c);
    var w := FoldThinking(v, c);
    assert w.events != [] ==> FoldPiece(w, c).events != [];
    assert v.events != [] ==> w.events != [];
    assert FoldPiece(w, c).events == [] ==> FoldPiece(w, c) == w == v;
  }

  lemma LineMovesOn(parse: Parser, t: Turn, line: Text)
    ensures FoldLine(parse, t, line) == Folding(START) ==> t == START
    ensures FoldLine(parse, t, line).Threw? ==> FoldLine(parse, t, line).failure != RangeFailure
  {
    hide FoldChunk;
    if IsData(line) && PayloadOf(line) != DONE && parse(PayloadOf(line)).Data? {
      ChunkMovesOn(t, parse(PayloadOf(line)).chunk);
    }
  }

  /** Folding never leads back to the start, and never fails with the decoder's error. */
  lemma {:induction false} FoldingMovesOn(parse: Parser, f: Fold, lines: seq<Text>)
    requires f.Folding?
    ensures FoldLines(parse, f, lines) == Folding(START) ==> f == Folding(START)
    ensures FoldLines(parse, f, lines).Threw? ==> FoldLines(parse, f, lines).failure != RangeFailure
    decreases |lines|
  {
    if lines != [] {
      var next := FoldLine(parse, f.turn, lines[0]);
      LineMovesOn(parse, f.turn, lines[0]);
      hide FoldLine;
      assert FoldLines(parse, f, lines) == FoldLines(parse, next, lines[1..]);
      if next.Folding? {
        FoldingMovesOn(parse, next, lines[1..]);
        assert f == Folding(f.turn);
      } else {
        assert FoldLines(parse, next, lines[1..]) == next;
      }
    }
  }

  lemma {:induction false} NothingBeforeTheThrow(parse: Parser, d: Drain, chunks: seq<Bytes>)
    requires d.fold.Folding? && Feed(d.pending, Flatten(chunks)).Overflow?
    requires FoldReadable(parse, d, Flatten(chunks)) == Folding(START)
    ensures TakeChunks(parse, d, chunks).fold == Threw(START, RangeFailure)
    decreases |chunks|
  {
    var all := Flatten(chunks);
    ReadableIsFed(d.pending, all);
    FoldingMovesOn(parse, d.fold, Split(d.buf + Feed(d.pending, all[..Readable(d.pending, all)]).text).0);
    if chunks != [] {
      var chunk, more := chunks[0], Flatten(chunks[1..]);
      FeedConcat(d.pending, chunk, more);
      if Feed(d.pending, chunk).Overflow? {
        TakeChunksStopped(parse, TakeChunk(parse, d, chunk), chunks[1..]);
      } else {
        ReadableAfterChunk(parse, d, chunk, more);
        var e := TakeChunk(parse, d, chunk);
        ReadableIsFed(e.pending, more);
        FoldOverStays(parse, e.fold, Split(e.buf + Feed(e.pending, more[..Readable(e.pending, more)]).text).0);
        NothingBeforeTheThrow(parse, e, chunks[1..]);
      }
    }
  }

  /** A fold that is over stays as it is. */
  lemma FoldOverStays(parse: Parser, f: Fold, lines: seq<Text>)
    ensures FoldLines(parse, f, lines).Folding? ==> f.Folding?
  {}

  lemma ReadableAfterChunk(parse: Parser, d: Drain, chunk: Bytes, more: Bytes)
    requires d.fold.Folding? && Feed(d.pending, chunk).Fed?
    ensures FoldReadable(parse, d, chunk + more) == FoldReadable(parse, TakeChunk(parse, d, chunk), more)
  {
    hide Feed, Readable, Split, FoldLines;
    var q := Feed(d.pending, chunk).pending;
    var head := more[..Readable(q, more)];
    ReadableConcat(d.pending, chunk, more);
    ReadableIsFed(q, more);
    assert (chunk + more)[..|chunk| + |head|] == chunk + head;
    FeedConcat(d.pending, chunk, head);
    TakeOneChunk(parse, d, chunk, head);
  }

  /** Exactly when the chunking does not matter: the decoder does not throw, or the lines before the
      byte it throws on have no effect. Otherwise cutting the stream there shows more of it. */
  lemma ChunksDoNotMatterExactly(parse: Parser, bytes: Bytes)
    ensures (forall chunks :: Flatten(chunks) == bytes ==>
               TakeChunks(parse, OPENED, chunks).fold == FoldWhole(parse, bytes))
       <==> (!HasAboveMax(bytes) || FoldReadable(parse, OPENED, bytes) == Folding(START))
  {
    FeedThrowsExactly(Idle, bytes);
    if !HasAboveMax(bytes) {
      forall chunks | Flatten(chunks) == bytes
        ensures TakeChunks(parse, OPENED, chunks).fold == FoldWhole(parse, bytes)
      {
        ChunksDoNotMatter(parse, chunks);
      }
    } else if FoldReadable(parse, OPENED, bytes) == Folding(START) {
      forall chunks | Flatten(chunks) == bytes
        ensures TakeChunks(parse, OPENED, chunks).fold == FoldWhole(parse, bytes)
      {
        NothingBeforeTheThrow(parse, OPENED, chunks);
      }
    } else {
      CutAtTheThrow(parse, bytes);
    }
  }

  lemma CutAtTheThrow(parse: Parser, bytes: Bytes)
    requires Feed(Idle, bytes).Overflow?
    requires FoldReadable(parse, OPENED, bytes) != Folding(START)
    ensures exists chunks :: Flatten(chunks) == bytes &&
              TakeChunks(parse, OPENED, chunks).fold != FoldWhole(parse, bytes)
  {
    hide Feed, Split, FoldLines, Readable;
    var n := Readable(Idle, bytes);
    ReadableIsFed(Idle, bytes);
    var a, b := bytes[..n], bytes[n..];
    assert bytes == a + b;
    TakeTwo(parse, OPENED, a, b);
    FeedConcat(Idle, a, b);
    var text := Feed(Idle, a).text;
    assert [] + text == text;
    FoldingMovesOn(parse, OPENED.fold, Split(text).0);
    assert TakeChunk(parse, OPENED, a).fold == FoldReadable(parse, OPENED, bytes);
    assert Flatten([a, b]) == bytes;
  }

  lemma TakeTwo(parse: Parser, d: Drain, a: Bytes, b: Bytes)
    ensures TakeChunks(parse, d, [a, b]) == TakeChunk(parse, TakeChunk(parse, d, a), b)
    ensures TakeChunks(parse, d, [a]) == TakeChunk(parse, d, a)
    ensures Flatten([a, b]) == a + b
  {
    hide TakeChunk;
    var none: seq<Bytes> := [];
    assert [a, b][1..] == [b] && [b][1..] == none && [a][1..] == none;
    assert Flatten([b]) == b + Flatten(none) == b;
    var e := TakeChunk(parse, d, a);
    assert TakeChunks(parse, d, [a, b]) == TakeChunks(parse, e, [b]);
    assert TakeChunks(parse, e, [b]) == TakeChunks(parse, TakeChunk(parse, e, b), none);
    assert TakeChunks(parse, d, [a]) == TakeChunks(parse, e, none);
  }

  // ---- the end of the body ------------------------------------------------------------------------------

  /** A trailing partial line is dropped: it is kept in the buffer and never folded, contrary to the
      comment on drainSse. */
  lemma PartialLineIsDropped(parse: Parser, bytes: Bytes, tail: Bytes)
    requires Feed(Idle, bytes).Fed? && Feed(Feed(Idle, bytes).pending, tail).Fed?
    requires LF !in Feed(Feed(Idle, bytes).pending, tail).text
    ensures TakeChunks(parse, OPENED, [bytes, tail]).fold == TakeChunks(parse, OPENED, [bytes]).fold
  {
    var d := TakeChunk(parse, OPENED, bytes);
    TakeTwo(parse, OPENED, bytes, tail);
    if d.fold.Folding? {
      var text := Feed(d.pending, tail).text;
      var all := d.buf + text;
      assert forall i :: 0 <= i < |all| ==> if i < |d.buf| then all[i] == d.buf[i] else all[i] in text;
      SplitPartial(all);
    }
  }

  // ---- the loop ------------------------------------------------------------------------------------------

  /** How the body iterator ends: normally, or by throwing with or without the code `cancelled`. */
  datatype BodyEnd = Ended | Broke(cancelled: bool)

  datatype Outcome = Resolved(turn: Turn) | Rejected(turn: Turn, failure: Fault)

  /** What a drained stream amounts to; the flush at the end has no part in it. */
  function Finished(d: Drain, end: BodyEnd, aborted: bool): Outcome {
    match d.fold
    case Threw(t, failure) => Rejected(t, failure)
    case Folding(t) => Closed(t, end, aborted)
    case Done(t) => Closed(t, end, aborted)
  }

  function Closed(t: Turn, end: BodyEnd, aborted: bool): Outcome {
    if end.Ended? then Resolved(t)
    else if aborted && end.cancelled then Resolved(t.(finish := Some(ABORTED)))
    else Rejected(t, TransportFailure)
  }

  /** The record `st`: the turn so far. */
  class Stream {
    var served: Option<Text>
    var finishReason: Option<Text>
    var text: Text
    var deltas: nat
    var reasoning: Text
    var reasoningDeltas: nat
    ghost var events: seq<Event>

    ghost function Now(): Turn
      reads this
    {
      Turn(served, finishReason, text, deltas, reasoning, reasoningDeltas, events)
    }

    constructor ()
      ensures Now() == START
    {
      served, finishReason := None, None;
      text, deltas := [], 0;
      reasoning, reasoningDeltas := [], 0;
      events := [];
    }

    method FoldChunkInto(c: Chunk)
      modifies this
      ensures Now() == FoldChunk(old(Now()), c)
    {
      if NonEmpty(c.model) && c.model != served {
        served := c.model;
        events := events + [Model(c.model.value)];
      }
      if NonEmpty(c.finish) {
        finishReason := c.finish;
      }
      if NonEmpty(c.thinking) {
        reasoning := reasoning + c.thinking.value;
        events := events + [Reasoning(reasoningDeltas, c.thinking.value)];
        reasoningDeltas := reasoningDeltas + 1;
      }
      if NonEmpty(c.piece) {
        text := text + c.piece.value;
        events := events + [Delta(deltas, c.piece.value)];
        deltas := deltas + 1;
      }
    }

    /** Success(false) at the terminator. */
    method FoldLineInto(parse: Parser, line: Text) returns (more: Result<bool, Fault>)
      modifies this
      ensures FoldLine(parse, old(Now()), line)
           == match more
              case Success(true) => Folding(Now())
              case Success(false) => Done(Now())
              case Failure(failure) => Threw(Now(), failure)
    {
      if !IsData(line) { return Success(true); }
      var payload := PayloadOf(line);
      if payload == DONE { return Success(false); }
      match parse(payload)
      case Unparsable => return Failure(InvalidLine);
      case Nullish => return Failure(TypeFailure);
      case Data(c) =>
        FoldChunkInto(c);
        return Success(true);
    }

    method FoldLinesInto(parse: Parser, lines: seq<Text>) returns (more: Result<bool, Fault>)
      modifies this
      ensures FoldLines(parse, Folding(old(Now())), lines)
           == match more
              case Success(true) => Folding(Now())
              case Success(false) => Done(Now())
              case Failure(failure) => Threw(Now(), failure)
    {
      var i := 0;
      assert lines[0..] == lines;
      while i < |lines|
        invariant 0 <= i <= |lines|
        invariant FoldLines(parse, Folding(old(Now())), lines) == FoldLines(parse, Folding(Now()), lines[i..])
      {
        assert lines[i..][1..] == lines[i + 1..];
        more := FoldLineInto(parse, lines[i]);
        if more.Failure? || !more.value { return; }
        i := i + 1;
      }
      more := Success(true);
    }

    /** `chunks` is what the body yields before it ends; `aborted` is the caller's flag when it ends. */
    method DrainSse(parse: Parser, chunks: seq<Bytes>, end: BodyEnd, aborted: bool) returns (r: Result<(), Fault>)
      modifies this
      requires Now() == START
      ensures Finished(TakeChunks(parse, OPENED, chunks), end, aborted)
           == if r.Success? then Resolved(Now()) else Rejected(Now(), r.error)
    {
      var dec := new Utf8Decoder();
      var splitter := new LineSplitter();
      var done := false;
      var i := 0;
      ghost var d := OPENED;
      assert chunks[0..] == chunks;
      while i < |chunks|
        invariant 0 <= i <= |chunks|
        invariant d.fold == if done then Done(Now()) else Folding(Now())
        invariant !done ==> d.pending == dec.pending && d.buf == splitter.buf && FirstLf(d.buf) == |d.buf|
        invariant TakeChunks(parse, OPENED, chunks) == TakeChunks(parse, d, chunks[i..])
        invariant fresh(dec) && fresh(splitter)
      {
        assert chunks[i..][1..] == chunks[i + 1..];
        if done {
          TakeChunksStopped(parse, d, chunks[i..]);
          i := i + 1;
          continue;
        }
        ghost var e := TakeChunk(parse, d, chunks[i]);
        var text := dec.Push(chunks[i]);
        if text.None? {
          TakeChunksStopped(parse, e, chunks[i + 1..]);
          return Failure(RangeFailure);
        }
        var lines := splitter.Push(text.value);
        var more := FoldLinesInto(parse, lines);
        if more.Failure? {
          TakeChunksStopped(parse, e, chunks[i + 1..]);
          return Failure(more.error);
        }
        done := !more.value;
        d := e;
        i := i + 1;
      }
      if end.Broke? {
        if !(aborted && end.cancelled) { return Failure(TransportFailure); }
        finishReason := Some(ABORTED);
      }
      if done { return Success(()); }
      var rest := splitter.Flush();
      var tail := dec.End();
      var lines := splitter.Push(rest + tail);
      NothingToFlush(rest, tail);
      var more := FoldLinesInto(parse, lines);
      if more.Failure? { assert false; }
      r := Success(());
    }
  }

  /** The flush pushes text without a newline, so it yields no line. */
  lemma NothingToFlush(rest: Text, tail: Text)
    requires FirstLf(rest) == |rest| && (tail == [] || tail == [REPLACEMENT])
    ensures Split([] + (rest + tail)).0 == []
  {
    var all := [] + (rest + tail);
    assert forall i :: 0 <= i < |all| ==> all[i] == if i < |rest| then rest[i] else REPLACEMENT;
    SplitPartial(all);
  }
}
