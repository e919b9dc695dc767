/** The end of the streaming body (runtime/dsh/llm.js:185-215): the comment promises that a trailing
    partial line is flushed and counts; the loop drops it. When that makes a difference, and when not. */
module SseTail {
  import opened Wrappers
  import opened JsText
  import opened Utf8
  import opened SseFraming
  import opened SseStream

  /** What the drain still holds when the body ends, as the line it would have been. */
  function LastLine(d: Drain): Text {
    TrimCr(d.buf + if d.pending.Partial? then [REPLACEMENT] else [])
  }

  /** The outcome as documented: what the loop makes of the body, with the trailing line folded. */
  function Documented(parse: Parser, d: Drain, end: BodyEnd, aborted: bool): SseStream.Outcome {
    var outcome := Finished(d, end, aborted);
    if outcome.Rejected? || !d.fold.Folding? then outcome
    else
      match FoldLine(parse, outcome.turn, LastLine(d))
      case Folding(t) => Resolved(t)
      case Done(t) => Resolved(t)
      case Threw(t, failure) => Rejected(t, failure)
  }

  // ---- lines that change nothing --------------------------------------------------------------

  /** A chunk that repeats what is known and brings no text. */
  predicate SaysNothing(t: Turn, c: Chunk) {
    && (NonEmpty(c.model) ==> c.model == t.served)
    && (NonEmpty(c.finish) ==> c.finish == t.finish)
    && !NonEmpty(c.thinking) && !NonEmpty(c.piece)
  }

  /** Not a data line, the terminator, or a chunk that says nothing. */
  predicate Silent(parse: Parser, t: Turn, line: Text) {
    || !IsData(line)
    || PayloadOf(line) == DONE
    || (parse(PayloadOf(line)).Data? && SaysNothing(t, parse(PayloadOf(line)).chunk))
  }

  lemma LaterFoldsKeepEvents(t: Turn, c: Chunk)
    ensures |FoldChunk(t, c).events|
         == |t.events| + (if NonEmpty(c.model) && c.model != t.served then 1 else 0)
            + (if NonEmpty(c.thinking) then 1 else 0) + (if NonEmpty(c.piece) then 1 else 0)
    ensures FoldChunk(t, c).finish == if NonEmpty(c.finish) then c.finish else t.finish
  {}

  lemma ChunkIsIdleExactly(t: Turn, c: Chunk)
    ensures FoldChunk(t, c) == t <==> SaysNothing(t, c)
  {
    LaterFoldsKeepEvents(t, c);
  }

  lemma LineIsIdleExactly(parse: Parser, t: Turn, line: Text)
    ensures Silent(parse, t, line) <==> FoldLine(parse, t, line) == Folding(t) || FoldLine(parse, t, line) == Done(t)
  {
    hide FoldChunk, SaysNothing;
    if IsData(line) && parse(PayloadOf(line)).Data? {
      ChunkIsIdleExactly(t, parse(PayloadOf(line)).chunk);
    }
  }

  // ---- the documented outcome is that of a terminated stream ------------------------------------

  lemma {:induction false} BufferHoldsNoLine(parse: Parser, d: Drain, chunks: seq<Bytes>)
    requires FirstLf(d.buf) == |d.buf|
    ensures FirstLf(TakeChunks(parse, d, chunks).buf) == |TakeChunks(parse, d, chunks).buf|
    decreases |chunks|
  {
    if chunks != [] {
      BufferHoldsNoLine(parse, TakeChunk(parse, d, chunks[0]), chunks[1..]);
    }
  }

  lemma {:induction false} TakeOneMore(parse: Parser, d: Drain, chunks: seq<Bytes>, last: Bytes)
    ensures TakeChunks(parse, d, chunks + [last]) == TakeChunk(parse, TakeChunks(parse, d, chunks), last)
    decreases |chunks|
  {
    hide TakeChunk;
    if chunks == [] {
      assert chunks + [last] == [last] && [last][1..] == [];
      var e := TakeChunk(parse, d, last);
      assert TakeChunks(parse, d, [last]) == TakeChunks(parse, e, [last][1..]) == e;
    } else {
      assert (chunks + [last])[1..] == chunks[1..] + [last];
      TakeOneMore(parse, TakeChunk(parse, d, chunks[0]), chunks[1..], last);
    }
  }

  lemma FeedNewline(p: Pending)
    ensures Feed(p, [LF]) == Fed(Idle, (if p.Partial? then [REPLACEMENT] else []) + [LF])
  {
    assert [LF][1..] == [];
    FeedEmpty(Idle, [LF][1..]);
    assert [LF] + [] == [LF] && [] + [LF] == [LF] && [REPLACEMENT] + [LF] + [] == [REPLACEMENT] + [LF];
  }

  lemma {:induction false} NoNewline(s: Text, i: nat)
    requires FirstLf(s) == |s| && i < |s|
    ensures s[i] != LF
  {
    assert FirstLf(s) == |s|;
  }

  lemma SplitTerminated(line: Text)
    requires LF !in line
    ensures Split(line + [LF]) == ([TrimCr(line)], [])
  {
    var s := line + [LF];
    assert forall i :: 0 <= i < |line| ==> s[i] == line[i];
    assert s[|line|] == LF && FirstLf(s) == |line|;
    assert s[..|line|] == line && s[|line| + 1..] == [];
    SplitPartial(s[|line| + 1..]);
    var none: seq<Text> := [];
    assert [TrimCr(line)] + none == [TrimCr(line)];
  }

  lemma NewlineEndsTheLastLine(d: Drain)
    requires FirstLf(d.buf) == |d.buf|
    ensures Feed(d.pending, [LF]).Fed? && Split(d.buf + Feed(d.pending, [LF]).text).0 == [LastLine(d)]
  {
    hide Feed, Split, TrimCr;
    var tail := if d.pending.Partial? then [REPLACEMENT] else [];
    FeedNewline(d.pending);
    forall i | 0 <= i < |d.buf + tail| ensures (d.buf + tail)[i] != LF {
      if i < |d.buf| { NoNewline(d.buf, i); }
    }
    SplitTerminated(d.buf + tail);
    assert d.buf + (tail + [LF]) == (d.buf + tail) + [LF];
  }

  lemma FoldOneLine(parse: Parser, f: Fold, line: Text)
    requires f.Folding?
    ensures FoldLines(parse, f, [line]) == FoldLine(parse, f.turn, line)
  {
    hide FoldLine;
    var none: seq<Text> := [];
    assert [line][1..] == none;
  }

  /** A newline at the end makes the drain fold exactly its last line. */
  lemma NewlineFoldsTheLastLine(parse: Parser, d: Drain)
    requires d.fold.Folding? && FirstLf(d.buf) == |d.buf|
    ensures TakeChunk(parse, d, [LF]).fold == FoldLine(parse, d.fold.turn, LastLine(d))
  {
    hide Feed, Split, FoldLine, FoldLines, LastLine, FirstLf;
    NewlineEndsTheLastLine(d);
    FoldOneLine(parse, d.fold, LastLine(d));
  }

  /** The documented outcome of a body that ends is what the loop makes of the same body with its last
      line terminated. */
  lemma DocumentedIsTerminated(parse: Parser, chunks: seq<Bytes>, aborted: bool)
    ensures Documented(parse, TakeChunks(parse, OPENED, chunks), Ended, aborted)
         == Finished(TakeChunks(parse, OPENED, chunks + [[LF]]), Ended, aborted)
  {
    var d := TakeChunks(parse, OPENED, chunks);
    TakeOneMore(parse, OPENED, chunks, [LF]);
    BufferHoldsNoLine(parse, OPENED, chunks);
    hide TakeChunks, FoldLine, LastLine;
    if d.fold.Folding? {
      NewlineFoldsTheLastLine(parse, d);
      hide TakeChunk;
    }
  }

  // ---- when it is the actual one ------------------------------------------------------------------

  /** However the body was cut and however it ended, the drain's outcome is the documented one exactly
      when the drain had stopped folding, failed, or held a last line that changes nothing. */
  lemma OutcomeIsDocumentedExactly(parse: Parser, chunks: seq<Bytes>, end: BodyEnd, aborted: bool)
    ensures
      var d := TakeChunks(parse, OPENED, chunks);
      var outcome := Finished(d, end, aborted);
      outcome == Documented(parse, d, end, aborted)
      <==> (!d.fold.Folding? || outcome.Rejected? || Silent(parse, outcome.turn, LastLine(d)))
  {
    hide TakeChunks, FoldLine, LastLine, Silent;
    var d := TakeChunks(parse, OPENED, chunks);
    LineIsIdleExactly(parse, Finished(d, end, aborted).turn, LastLine(d));
  }

  lemma TakeWithoutNewline(parse: Parser, line: Text)
    requires LF !in line
    ensures TakeChunks(parse, OPENED, [Encoded(line)]) == Drain(Idle, line, Folding(START))
  {
    hide Feed, Encoded, FirstLf, TakeChunks;
    FeedInvertsEncoded(line);
    FirstLfOfLine(line);
    SplitPartial(line);
    TakeTwo(parse, OPENED, Encoded(line), []);
    hide Split;
    assert [] + line == line;
  }

  lemma FirstLfOfLine(line: Text)
    requires LF !in line
    ensures FirstLf(line) == |line|
  {}

  /** A data line that brings some text. */
  predicate BringsText(parse: Parser, line: Text) {
    && IsData(line) && PayloadOf(line) != DONE
    && parse(PayloadOf(line)).Data? && NonEmpty(parse(PayloadOf(line)).chunk.piece)
  }

  lemma TextCounts(parse: Parser, line: Text)
    requires BringsText(parse, line)
    ensures FoldLine(parse, START, line).Folding? && FoldLine(parse, START, line).turn != START
  {
    ChunkIsIdleExactly(START, parse(PayloadOf(line)).chunk);
  }

  /** A last delta whose newline never comes is lost. */
  lemma PartialDeltaIsLost(parse: Parser, line: Text)
    requires LF !in line && TrimCr(line) == line && BringsText(parse, line)
    ensures
      var d := TakeChunks(parse, OPENED, [Encoded(line)]);
      && Finished(d, Ended, false) == Resolved(START)
      && Documented(parse, d, Ended, false) == Resolved(FoldLine(parse, START, line).turn)
      && Finished(d, Ended, false) != Documented(parse, d, Ended, false)
  {
    hide FoldLine, Encoded, TakeChunks, BringsText;
    TakeWithoutNewline(parse, line);
    TextCounts(parse, line);
    assert line + [] == line;
  }
}
