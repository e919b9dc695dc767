/** One loopback connection (src/dsh_socket.c:30-46, 271-582): writes, the park of bytes the kernel
    would not take, the half-close, and every run of calls on it. */
module SocketConn {
  import opened Wrappers
  import opened JsText

  const WRITE_CAP := 262144

  /** What write(2) answers: some bytes taken, EINTR, EAGAIN, or anything else. */
  datatype Answer = Took(n: nat) | Interrupted | WouldBlock | Broken

  /** What shutdown(2) answers. */
  datatype Shut = Done | NotConnected | Refused

  datatype Dial = Dialing | Up | Down

  /** `used` is the slot flag; `pending` the parked bytes. */
  datatype Conn = Conn(used: bool, dial: Dial, writeClosed: bool, ended: bool, pending: Bytes)

  /** A connection with what the kernel holds for its peer: the bytes it took, in order, and how many of
      them precede the FIN. */
  datatype Link = Link(conn: Conn, wire: Bytes, fin: Option<nat>)

  datatype Stop = AllSent | Blocked | Failed

  /** How many of len bytes a loop of writes gets rid of, the answers it leaves, and why it stopped. */
  function Sent(len: nat, answers: seq<Answer>): (r: (nat, seq<Answer>, Stop))
    ensures r.0 <= len && (r.2.AllSent? <==> r.0 == len)
    decreases |answers|
  {
    if len == 0 then (0, answers, AllSent)
    else if answers == [] then (0, [], Blocked)
    else
      match answers[0]
      case Took(n) =>
        var k := Clip(n, len);
        var (more, rest, stop) := Sent(len - k, answers[1..]);
        (k + more, rest, stop)
      case Interrupted => Sent(len, answers[1..])
      case WouldBlock => (0, answers[1..], Blocked)
      case Broken => (0, answers[1..], Failed)
  }

  /** A positive count of at most len bytes. */
  function Clip(n: nat, len: nat): (k: nat)
    requires len > 0
    ensures 1 <= k <= len
  {
    if n == 0 then 1 else if n > len then len else n
  }

  // ---- the calls -------------------------------------------------------------------------

  datatype Call =
    | Write(bytes: Bytes, dialed: bool, answers: seq<Answer>)
    | Poll(dialed: bool, answers: seq<Answer>, shut: Shut)
    | End(shut: Shut)
    | Close

  datatype Reply =
    | Accepted(written: nat, buffered: nat)
    | Polled(buffered: nat, flushFailed: bool)
    | DialFailed
    | Fine
    | Error

  /** conn_finish_connect: SO_ERROR decides. */
  function Dialed(c: Conn, ok: bool): Conn {
    if c.dial.Dialing? then c.(dial := if ok then Up else Down) else c
  }

  function WriteCall(l: Link, bytes: Bytes, dialed: bool, answers: seq<Answer>): (Link, Reply) {
    if !l.conn.used then (l, Error)
    else
      var c := Dialed(l.conn, dialed);
      if c.dial.Down? || c.writeClosed then (l.(conn := c), Error)
      else
        var (done, _, stop) := Sent(|bytes|, answers);
        var wire := l.wire + bytes[..done];
        var parked := bytes[done..];
        if stop.Failed? || (parked != [] && |c.pending| + |parked| > WRITE_CAP) then (l.(conn := c, wire := wire), Error)
        else
          var pending := c.pending + parked;
          (l.(conn := c.(pending := pending), wire := wire), Accepted(done, |pending|))
  }

  /** shutdown(SHUT_WR); ENOTCONN counts as performed. */
  function Shutdown(l: Link, shut: Shut): Link {
    match shut
    case Done => l.(conn := l.conn.(ended := true), fin := Some(|l.wire|))
    case NotConnected => l.(conn := l.conn.(ended := true))
    case Refused => l
  }

  function PollCall(l: Link, dialed: bool, answers: seq<Answer>, shut: Shut): (Link, Reply) {
    if !l.conn.used then (l, Error)
    else
      var c := Dialed(l.conn, dialed);
      if c.dial.Down? then (l.(conn := c.(used := false, pending := [])), DialFailed)
      else
        var (done, _, stop) := Sent(|c.pending|, answers);
        var drained := Link(c.(pending := c.pending[done..]), l.wire + c.pending[..done], l.fin);
        var r := if c.writeClosed && !c.ended && drained.conn.pending == [] then Shutdown(drained, shut) else drained;
        (r, Polled(|r.conn.pending|, stop.Failed?))
  }

  function EndCall(l: Link, shut: Shut): (Link, Reply) {
    if !l.conn.used then (l, Error)
    else
      var closed := l.(conn := l.conn.(writeClosed := true));
      if closed.conn.pending != [] || closed.conn.ended then (closed, Fine)
      else if shut.Refused? then (closed, Error)
      else (Shutdown(closed, shut), Fine)
  }

  function CloseCall(l: Link): (Link, Reply) {
    if !l.conn.used then (l, Error) else (l.(conn := l.conn.(used := false, pending := [])), Fine)
  }

  function Apply(l: Link, call: Call): (Link, Reply) {
    match call
    case Write(bytes, dialed, answers) => WriteCall(l, bytes, dialed, answers)
    case Poll(dialed, answers, shut) => PollCall(l, dialed, answers, shut)
    case End(shut) => EndCall(l, shut)
    case Close => CloseCall(l)
  }

  /** How many bytes of a write the kernel takes, accepted or not. */
  function Offered(l: Link, bytes: Bytes, dialed: bool, answers: seq<Answer>): (n: nat)
    ensures n <= |bytes|
  {
    if !l.conn.used || Dialed(l.conn, dialed).dial.Down? || l.conn.writeClosed then 0 else Sent(|bytes|, answers).0
  }

  /** What a call takes over from its caller: all bytes of an accepted write, and of a write that fails
      the bytes the kernel had already taken. */
  function Taken(l: Link, call: Call): Bytes {
    if !call.Write? then []
    else if Apply(l, call).1.Accepted? then call.bytes
    else call.bytes[..Offered(l, call.bytes, call.dialed, call.answers)]
  }

  function Run(l: Link, calls: seq<Call>): Link
    decreases |calls|
  {
    if calls == [] then l else Run(Apply(l, calls[0]).0, calls[1..])
  }

  function Ledger(l: Link, calls: seq<Call>): Bytes
    decreases |calls|
  {
    if calls == [] then [] else Taken(l, calls[0]) + Ledger(Apply(l, calls[0]).0, calls[1..])
  }

  // ---- what every call keeps ------------------------------------------------------------------

  predicate Sound(l: Link) {
    && |l.conn.pending| <= WRITE_CAP
    && (l.conn.ended ==> l.conn.writeClosed && l.conn.pending == [])
    && (l.fin.Some? ==> l.conn.ended && l.fin.value == |l.wire|)
    && (!l.conn.used ==> l.conn.pending == [])
  }

  /** A slot just claimed by a connect, and one just claimed by an accept. */
  const FRESH := Link(Conn(true, Dialing, false, false, []), [], None)
  const ACCEPTED := Link(Conn(true, Up, false, false, []), [], None)

  predicate Opened(l: Link) {
    l == FRESH || l == ACCEPTED
  }

  /** A write either takes every byte, splitting it into what the kernel took and what is parked behind
      the older park, or fails having given the kernel a prefix and changed the park in no way. */
  lemma WriteSplits(l: Link, bytes: Bytes, dialed: bool, answers: seq<Answer>)
    ensures
      var (m, reply) := WriteCall(l, bytes, dialed, answers);
      var n := Offered(l, bytes, dialed, answers);
      && (reply == Accepted(n, |m.conn.pending|) || reply == Error)
      && m.conn.used == l.conn.used && m.fin == l.fin && m.wire == l.wire + bytes[..n]
      && m.conn.pending == l.conn.pending + if reply.Accepted? then bytes[n..] else []
  {
    hide Sent;
    assert l.wire + bytes[..0] == l.wire && l.conn.pending + [] == l.conn.pending;
  }

  lemma CallsKeepSound(l: Link, call: Call)
    requires Sound(l)
    ensures Sound(Apply(l, call).0)
  {
    hide Sent, Clip;
  }

  lemma {:induction false} RunsStaySound(l: Link, calls: seq<Call>)
    requires Sound(l)
    ensures Sound(Run(l, calls))
    decreases |calls|
  {
    hide Sound, Apply;
    if calls != [] {
      CallsKeepSound(l, calls[0]);
      RunsStaySound(Apply(l, calls[0]).0, calls[1..]);
    }
  }

  // ---- conservation ------------------------------------------------------------------------------

  /** Every byte taken is on the wire or parked, once; a slot that was released drops its park. */
  predicate Conserved(l: Link, ledger: Bytes) {
    if l.conn.used then multiset(l.wire) + multiset(l.conn.pending) == multiset(ledger)
    else multiset(l.wire) <= multiset(ledger)
  }

  lemma Split(bytes: Bytes, n: nat)
    requires n <= |bytes|
    ensures multiset(bytes[..n]) + multiset(bytes[n..]) == multiset(bytes)
  {
    assert bytes == bytes[..n] + bytes[n..];
  }

  lemma WriteConserves(l: Link, ledger: Bytes, bytes: Bytes, dialed: bool, answers: seq<Answer>)
    requires Conserved(l, ledger)
    ensures Conserved(Apply(l, Write(bytes, dialed, answers)).0, ledger + Taken(l, Write(bytes, dialed, answers)))
  {
    WriteSplits(l, bytes, dialed, answers);
    Split(bytes, Offered(l, bytes, dialed, answers));
    hide WriteCall, Offered;
  }

  lemma PollConserves(l: Link, ledger: Bytes, dialed: bool, answers: seq<Answer>, shut: Shut)
    requires Conserved(l, ledger)
    ensures Conserved(PollCall(l, dialed, answers, shut).0, ledger)
  {
    PollMoves(l, dialed, answers, shut);
    hide PollCall;
    var m := PollCall(l, dialed, answers, shut).0;
    if m.conn.used {
      var n := |m.wire| - |l.wire|;
      Split(l.conn.pending, n);
    }
  }

  /** A poll moves a prefix of the park to the wire, or finds the dial failed. */
  lemma PollMoves(l: Link, dialed: bool, answers: seq<Answer>, shut: Shut)
    ensures
      var m := PollCall(l, dialed, answers, shut).0;
      && (m.conn.used ==> l.conn.used && m.wire + m.conn.pending == l.wire + l.conn.pending && |l.wire| <= |m.wire|
                          && |m.wire| - |l.wire| <= |l.conn.pending|
                          && m.wire == l.wire + l.conn.pending[..|m.wire| - |l.wire|]
                          && m.conn.pending == l.conn.pending[|m.wire| - |l.wire|..])
      && (!m.conn.used ==> m.wire == l.wire)
  {
    hide Sent;
    if l.conn.used && !Dialed(l.conn, dialed).dial.Down? {
      var n := Sent(|l.conn.pending|, answers).0;
      assert (l.wire + l.conn.pending[..n]) + l.conn.pending[n..] == l.wire + l.conn.pending;
    }
  }

  lemma OthersConserve(l: Link, ledger: Bytes, call: Call)
    requires Conserved(l, ledger) && !call.Write?
    ensures Conserved(Apply(l, call).0, ledger + Taken(l, call))
  {
    assert ledger + [] == ledger;
    if call.Poll? {
      PollConserves(l, ledger, call.dialed, call.answers, call.shut);
    }
    hide PollCall;
  }

  lemma {:induction false} RunsConserve(l: Link, ledger: Bytes, calls: seq<Call>)
    requires Sound(l) && Conserved(l, ledger)
    ensures Conserved(Run(l, calls), ledger + Ledger(l, calls))
    decreases |calls|
  {
    hide Sound, Apply, Conserved, Taken;
    if calls == [] {
      assert ledger + [] == ledger;
    } else {
      CallsKeepSound(l, calls[0]);
      if calls[0].Write? {
        WriteConserves(l, ledger, calls[0].bytes, calls[0].dialed, calls[0].answers);
      } else {
        OthersConserve(l, ledger, calls[0]);
      }
      RunsConserve(Apply(l, calls[0]).0, ledger + Taken(l, calls[0]), calls[1..]);
      assert (ledger + Taken(l, calls[0])) + Ledger(Apply(l, calls[0]).0, calls[1..]) == ledger + Ledger(l, calls);
    }
  }

  /** In every run on a dialed or accepted connection: the park stays within 256 KiB, the FIN follows
      every byte, and no byte is lost or doubled. */
  lemma EveryRun(open: Link, calls: seq<Call>)
    requires Opened(open)
    ensures
      var l := Run(open, calls);
      && Sound(l)
      && (l.conn.used ==> multiset(l.wire) + multiset(l.conn.pending) == multiset(Ledger(open, calls)))
      && (l.conn.used && l.fin.Some? ==> multiset(l.wire) == multiset(Ledger(open, calls)))
  {
    hide Run, Ledger;
    RunsStaySound(open, calls);
    RunsConserve(open, [], calls);
    assert [] + Ledger(open, calls) == Ledger(open, calls);
  }

  // ---- order ----------------------------------------------------------------------------------------

  /** The bytes taken so far are the wire followed by the park; a released slot keeps a prefix. */
  predicate InOrder(l: Link, ledger: Bytes) {
    if l.conn.used then l.wire + l.conn.pending == ledger else l.wire <= ledger
  }

  /** The write puts nothing on the wire ahead of parked bytes. */
  predicate Behaved(l: Link, call: Call) {
    call.Write? ==> l.conn.pending == [] || Offered(l, call.bytes, call.dialed, call.answers) == 0
  }

  predicate BehavedRun(l: Link, calls: seq<Call>)
    decreases |calls|
  {
    calls == [] || (Behaved(l, calls[0]) && BehavedRun(Apply(l, calls[0]).0, calls[1..]))
  }

  /** An accepted write keeps the order exactly when the bytes the kernel took commute with the park,
      which is what a write to an empty park always gives. */
  lemma WriteKeepsOrderExactly(l: Link, ledger: Bytes, bytes: Bytes, dialed: bool, answers: seq<Answer>)
    requires l.conn.used && InOrder(l, ledger) && WriteCall(l, bytes, dialed, answers).1.Accepted?
    ensures
      var n := Offered(l, bytes, dialed, answers);
      InOrder(WriteCall(l, bytes, dialed, answers).0, ledger + bytes)
      <==> bytes[..n] + l.conn.pending == l.conn.pending + bytes[..n]
  {
    WriteSplits(l, bytes, dialed, answers);
    hide WriteCall, Offered;
    var n, park := Offered(l, bytes, dialed, answers), l.conn.pending;
    var m := WriteCall(l, bytes, dialed, answers).0;
    var front, back := l.wire + (bytes[..n] + park), l.wire + (park + bytes[..n]);
    assert m.wire + m.conn.pending == front + bytes[n..];
    assert bytes == bytes[..n] + bytes[n..];
    assert ledger + bytes == back + bytes[n..];
    assert front == (front + bytes[n..])[..|front|] && back == (back + bytes[n..])[..|front|];
    assert bytes[..n] + park == front[|l.wire|..] && park + bytes[..n] == back[|l.wire|..];
  }

  lemma BehavedWriteKeepsOrder(l: Link, ledger: Bytes, bytes: Bytes, dialed: bool, answers: seq<Answer>)
    requires InOrder(l, ledger) && Behaved(l, Write(bytes, dialed, answers))
    ensures InOrder(WriteCall(l, bytes, dialed, answers).0, ledger + Taken(l, Write(bytes, dialed, answers)))
  {
    WriteSplits(l, bytes, dialed, answers);
    var n := Offered(l, bytes, dialed, answers);
    var (m, reply) := WriteCall(l, bytes, dialed, answers);
    assert !l.conn.used ==> n == 0;
    hide WriteCall, Offered;
    assert bytes[..n] + bytes[n..] == bytes;
    Associative(l.wire, bytes[..n], bytes[n..]);
    Associative(l.wire, l.conn.pending, bytes);
    assert n == 0 ==> bytes[..n] == [] && bytes[n..] == bytes;
    assert l.wire + [] == l.wire && l.conn.pending + [] == l.conn.pending && ledger + [] == ledger;
    assert [] + bytes[n..] == bytes[n..];
  }

  lemma Associative(a: Bytes, b: Bytes, c: Bytes)
    ensures (a + b) + c == a + (b + c)
  {}

  lemma BehavedCallKeepsOrder(l: Link, ledger: Bytes, call: Call)
    requires InOrder(l, ledger) && Behaved(l, call)
    ensures InOrder(Apply(l, call).0, ledger + Taken(l, call))
  {
    assert ledger + [] == ledger;
    match call
    case Write(bytes, dialed, answers) => BehavedWriteKeepsOrder(l, ledger, bytes, dialed, answers);
    case Poll(dialed, answers, shut) =>
      PollMoves(l, dialed, answers, shut);
      hide PollCall;
    case End(shut) =>
    case Close =>
  }

  lemma {:induction false} BehavedRunsKeepOrder(l: Link, ledger: Bytes, calls: seq<Call>)
    requires InOrder(l, ledger) && BehavedRun(l, calls)
    ensures InOrder(Run(l, calls), ledger + Ledger(l, calls))
    decreases |calls|
  {
    hide InOrder, Behaved, Apply, Taken;
    if calls == [] {
      assert ledger + [] == ledger;
    } else {
      BehavedCallKeepsOrder(l, ledger, calls[0]);
      BehavedRunsKeepOrder(Apply(l, calls[0]).0, ledger + Taken(l, calls[0]), calls[1..]);
      assert (ledger + Taken(l, calls[0])) + Ledger(Apply(l, calls[0]).0, calls[1..]) == ledger + Ledger(l, calls);
    }
  }

  /** When no write reaches the kernel while bytes are parked, the peer is sent the bytes in the order
      they were taken. */
  lemma WireOrder(open: Link, calls: seq<Call>)
    requires Opened(open) && BehavedRun(open, calls)
    ensures
      var l := Run(open, calls);
      l.wire <= Ledger(open, calls) && (l.conn.used ==> l.wire + l.conn.pending == Ledger(open, calls))
  {
    assert open.wire + open.conn.pending == [];
    hide Run, Ledger, BehavedRun;
    BehavedRunsKeepOrder(open, [], calls);
    assert [] + Ledger(open, calls) == Ledger(open, calls);
  }

  /** Two writes, the first parked by a busy kernel, the second taken at once: the second arrives first. */
  lemma LaterWriteOvertakes(a: Byte, b: Byte)
    ensures
      var calls := [Write([a], true, [WouldBlock]), Write([b], true, [Took(1)]), Poll(true, [Took(1)], Refused)];
      Ledger(FRESH, calls) == [a, b] && Run(FRESH, calls).wire == [b, a]
  {
    var first, second, third := Write([a], true, [WouldBlock]), Write([b], true, [Took(1)]), Poll(true, [Took(1)], Refused);
    var l1 := Apply(FRESH, first).0;
    assert l1 == Link(Conn(true, Up, false, false, [a]), [], None);
    var l2 := Apply(l1, second).0;
    assert Sent(1, [Took(1)]) == (1, [], AllSent) by { assert [Took(1)][1..] == []; }
    assert [b][..1] == [b] && [b][1..] == [] && l2 == Link(Conn(true, Up, false, false, [a]), [b], None);
    var l3 := Apply(l2, third).0;
    assert [a][..1] == [a] && [a][1..] == [] && l3.wire == [b, a];
    RunOfThree(FRESH, first, second, third);
    assert Taken(FRESH, first) == [a] && Taken(l1, second) == [b] && Taken(l2, third) == [];
  }

  lemma RunOfThree(l: Link, a: Call, b: Call, c: Call)
    ensures
      var l1, l2 := Apply(l, a).0, Apply(Apply(l, a).0, b).0;
      Run(l, [a, b, c]) == Apply(l2, c).0 && Ledger(l, [a, b, c]) == Taken(l, a) + Taken(l1, b) + Taken(l2, c)
  {
    hide Apply, Taken;
    var l1, l2 := Apply(l, a).0, Apply(Apply(l, a).0, b).0;
    assert [a, b, c][1..] == [b, c] && [b, c][1..] == [c] && [c][1..] == [];
    assert Run(l2, [c]) == Apply(l2, c).0;
    assert Ledger(l2, [c]) == Taken(l2, c) + [] == Taken(l2, c);
    assert Run(l1, [b, c]) == Run(l2, [c]) && Ledger(l1, [b, c]) == Taken(l1, b) + Ledger(l2, [c]);
    assert Run(l, [a, b, c]) == Run(l1, [b, c]) && Ledger(l, [a, b, c]) == Taken(l, a) + Ledger(l1, [b, c]);
  }

  // ---- the end of the stream ---------------------------------------------------------------------------

  /** Once ended, no call puts a byte on the wire or sends a FIN. */
  lemma {:induction false} NothingAfterTheEnd(l: Link, calls: seq<Call>)
    requires Sound(l) && l.conn.ended
    ensures Run(l, calls).wire == l.wire && Run(l, calls).fin == l.fin
    decreases |calls|
  {
    if calls != [] {
      CallsKeepSound(l, calls[0]);
      EndedStays(l, calls[0]);
      hide Apply, Sound;
      NothingAfterTheEnd(Apply(l, calls[0]).0, calls[1..]);
    }
  }

  lemma EndedStays(l: Link, call: Call)
    requires Sound(l) && l.conn.ended
    ensures var m := Apply(l, call).0; m.conn.ended && m.wire == l.wire && m.fin == l.fin
  {
    assert l.wire + [] == l.wire;
  }

  lemma {:induction false} EndedForever(l: Link, calls: seq<Call>)
    requires Sound(l) && l.conn.ended
    ensures Run(l, calls).conn.ended
    decreases |calls|
  {
    if calls != [] {
      CallsKeepSound(l, calls[0]);
      EndedStays(l, calls[0]);
      hide Apply, Sound;
      EndedForever(Apply(l, calls[0]).0, calls[1..]);
    }
  }

  /** What shutdown(2) answers the call, if the call gets to ask. */
  function Answered(call: Call): Option<Shut> {
    match call
    case Poll(_, _, shut) => Some(shut)
    case End(shut) => Some(shut)
    case _ => None
  }

  /** The call sets `ended`, on a shutdown that finds no connection. */
  predicate EndsUnconnected(l: Link, call: Call) {
    !l.conn.ended && Apply(l, call).0.conn.ended && Answered(call) == Some(NotConnected)
  }

  /** The half-close counts as performed, but no FIN was sent. */
  predicate FinMissing(l: Link) {
    l.conn.ended && l.fin.None?
  }

  lemma CallsMissTheFin(l: Link, call: Call)
    requires Sound(l) && !FinMissing(l)
    ensures FinMissing(Apply(l, call).0) <==> EndsUnconnected(l, call)
  {}

  lemma RunsFromTheSecond(l: Link, calls: seq<Call>, i: nat)
    requires calls != [] && i < |calls|
    ensures Run(l, calls[..i + 1]) == Run(Apply(l, calls[0]).0, calls[1..][..i])
  {
    hide Apply;
    assert calls[..i + 1][1..] == calls[1..][..i];
  }

  /** From any sound state in which it is not missing, the FIN goes missing in a run exactly when some
      call of the run, an end or a poll, sets `ended` on the answer that there is no connection. */
  lemma {:induction false} FinGoesMissingExactly(l: Link, calls: seq<Call>)
    requires Sound(l) && !FinMissing(l)
    ensures FinMissing(Run(l, calls))
       <==> exists i :: 0 <= i < |calls| && EndsUnconnected(Run(l, calls[..i]), calls[i])
    decreases |calls|
  {
    if calls != [] {
      var m, more := Apply(l, calls[0]).0, calls[1..];
      CallsKeepSound(l, calls[0]);
      CallsMissTheFin(l, calls[0]);
      assert Run(l, calls[..0]) == l && Run(l, calls) == Run(m, more);
      forall i | 0 <= i < |more| ensures Run(l, calls[..i + 1]) == Run(m, more[..i]) && calls[i + 1] == more[i] {
        RunsFromTheSecond(l, calls, i);
      }
      if FinMissing(m) {
        EndedForever(m, more);
        NothingAfterTheEnd(m, more);
        assert EndsUnconnected(Run(l, calls[..0]), calls[0]);
      } else {
        FinGoesMissingExactly(m, more);
        hide Apply, Run, EndsUnconnected, FinMissing;
        if i :| 0 <= i < |more| && EndsUnconnected(Run(m, more[..i]), more[i]) {
          assert EndsUnconnected(Run(l, calls[..i + 1]), calls[i + 1]);
        }
        if i :| 0 <= i < |calls| && EndsUnconnected(Run(l, calls[..i]), calls[i]) {
          assert i > 0 && EndsUnconnected(Run(m, more[..i - 1]), more[i - 1]);
        }
      }
    }
  }

  /** Over every run on a dialed or accepted connection. */
  lemma FinMissesExactly(open: Link, calls: seq<Call>)
    requires Opened(open)
    ensures
      var l := Run(open, calls);
      (l.conn.ended && l.fin.None?)
      <==> exists i :: 0 <= i < |calls| && EndsUnconnected(Run(open, calls[..i]), calls[i])
  {
    hide Run, EndsUnconnected;
    FinGoesMissingExactly(open, calls);
  }

  /** A half-close asked for while the dial is still in progress is such a call: the FIN never follows. */
  lemma EndBeforeConnectedSendsNoFin(calls: seq<Call>)
    ensures Run(FRESH, [End(NotConnected)] + calls).conn.ended
    ensures Run(FRESH, [End(NotConnected)] + calls).fin == None
  {
    var all := [End(NotConnected)] + calls;
    assert all[1..] == calls && all[..0] == [];
    assert EndsUnconnected(Run(FRESH, all[..0]), all[0]);
    hide Run, EndsUnconnected;
    FinMissesExactly(FRESH, all);
  }

  // ---- the calls on the slot -----------------------------------------------------------------------------

  /** The kernel's side of one socket: its coming answers are arbitrary. */
  class Kernel {
    var answers: seq<Answer>
    var wire: Bytes
    var fin: Option<nat>

    constructor (answers: seq<Answer>)
      ensures this.answers == answers && wire == [] && fin == None
    {
      this.answers := answers;
      wire, fin := [], None;
    }

    method Write(bytes: Bytes) returns (r: Answer)
      requires bytes != []
      modifies `answers, `wire
      ensures old(answers) == [] ==> r == WouldBlock && answers == [] && wire == old(wire)
      ensures old(answers) != [] ==> answers == old(answers[1..])
      ensures old(answers) != [] && old(answers[0]).Took? ==>
                r == Took(Clip(old(answers[0]).n, |bytes|)) && wire == old(wire) + bytes[..r.n]
      ensures old(answers) != [] && !old(answers[0]).Took? ==> r == old(answers[0]) && wire == old(wire)
    {
      if answers == [] { return WouldBlock; }
      r := answers[0];
      answers := answers[1..];
      if r.Took? {
        r := Took(Clip(r.n, |bytes|));
        wire := wire + bytes[..r.n];
      }
    }

    method Shutdown(answer: Shut) returns (r: Shut)
      modifies `fin
      ensures r == answer && fin == if answer.Done? then Some(|wire|) else old(fin)
    {
      r := answer;
      if answer.Done? { fin := Some(|wire|); }
    }
  }

  function Later(done: nat, r: (nat, seq<Answer>, Stop)): (nat, seq<Answer>, Stop) {
    (done + r.0, r.1, r.2)
  }

  class Connection {
    var used: bool
    var dial: Dial
    var writeClosed: bool
    var ended: bool
    var pending: Bytes
    const kernel: Kernel

    constructor (kernel: Kernel)
      ensures this.kernel == kernel && State() == FRESH.conn
    {
      used, dial, writeClosed, ended, pending := true, Dialing, false, false, [];
      this.kernel := kernel;
    }

    constructor FromAccept(kernel: Kernel)
      ensures this.kernel == kernel && State() == ACCEPTED.conn
    {
      used, dial, writeClosed, ended, pending := true, Up, false, false, [];
      this.kernel := kernel;
    }

    ghost function State(): Conn
      reads this
    {
      Conn(used, dial, writeClosed, ended, pending)
    }

    ghost function Now(): Link
      reads this, kernel
    {
      Link(State(), kernel.wire, kernel.fin)
    }

    method FinishConnect(ok: bool)
      modifies `dial
      ensures State() == Dialed(old(State()), ok)
    {
      if dial.Dialing? { dial := if ok then Up else Down; }
    }

    /** The loop of dsh_socket_write. */
    method Offer(bytes: Bytes) returns (done: nat, stop: Stop)
      modifies kernel
      ensures (done, kernel.answers, stop) == Sent(|bytes|, old(kernel.answers))
      ensures kernel.wire == old(kernel.wire) + bytes[..done] && kernel.fin == old(kernel.fin)
    {
      ghost var answers, wire := kernel.answers, kernel.wire;
      done := 0;
      assert wire + bytes[..0] == wire;
      while done < |bytes|
        invariant 0 <= done <= |bytes|
        invariant kernel.wire == wire + bytes[..done] && kernel.fin == old(kernel.fin)
        invariant Sent(|bytes|, answers) == Later(done, Sent(|bytes| - done, kernel.answers))
        decreases |kernel.answers|, |bytes| - done
      {
        var w := kernel.Write(bytes[done..]);
        if w.Took? {
          assert bytes[..done] + bytes[done..][..w.n] == bytes[..done + w.n];
          done := done + w.n;
          continue;
        }
        if w.Interrupted? { continue; }
        if w.WouldBlock? { return done, Blocked; }
        return done, Failed;
      }
      stop := AllSent;
    }

    /** The drain loop of conn_poll_json: the park shrinks from the front. */
    method Drain() returns (failed: bool)
      modifies `pending, kernel
      ensures
        var (done, rest, stop) := Sent(|old(pending)|, old(kernel.answers));
        && pending == old(pending)[done..] && kernel.answers == rest && failed == stop.Failed?
        && kernel.wire == old(kernel.wire) + old(pending)[..done] && kernel.fin == old(kernel.fin)
    {
      ghost var answers, wire, park, done := kernel.answers, kernel.wire, pending, 0;
      assert wire + park[..0] == wire;
      while pending != []
        invariant 0 <= done <= |park| && pending == park[done..]
        invariant kernel.wire == wire + park[..done] && kernel.fin == old(kernel.fin)
        invariant Sent(|park|, answers) == Later(done, Sent(|pending|, kernel.answers))
        decreases |kernel.answers|, |pending|
      {
        var w := kernel.Write(pending);
        if w.Took? {
          assert park[..done] + park[done..][..w.n] == park[..done + w.n];
          pending := pending[w.n..];
          done := done + w.n;
          continue;
        }
        if w.Interrupted? { continue; }
        return !w.WouldBlock?;
      }
      failed := false;
    }

    method WriteBytes(bytes: Bytes, dialed: bool) returns (reply: Reply)
      modifies this, kernel
      ensures (Now(), reply) == WriteCall(old(Now()), bytes, dialed, old(kernel.answers))
    {
      if !used { return Error; }
      FinishConnect(dialed);
      if dial.Down? { return Error; }
      if writeClosed { return Error; }
      var done, stop := Offer(bytes);
      if stop.Failed? { return Error; }
      var parked := bytes[done..];
      assert pending + [] == pending;
      if parked != [] {
        if |pending| + |parked| > WRITE_CAP { return Error; }
        pending := pending + parked;
      }
      reply := Accepted(done, |pending|);
    }

    method PollOnce(dialed: bool, shut: Shut) returns (reply: Reply)
      modifies this, kernel
      ensures (Now(), reply) == PollCall(old(Now()), dialed, old(kernel.answers), shut)
    {
      if !used { return Error; }
      FinishConnect(dialed);
      if dial.Down? {
        pending := [];
        used := false;
        return DialFailed;
      }
      var flushFailed := Drain();
      if writeClosed && !ended && pending == [] {
        var r := kernel.Shutdown(shut);
        if !r.Refused? { ended := true; }
      }
      reply := Polled(|pending|, flushFailed);
    }

    method EndWrites(shut: Shut) returns (reply: Reply)
      modifies this, kernel
      ensures (Now(), reply) == EndCall(old(Now()), shut) && kernel.answers == old(kernel.answers)
    {
      if !used { return Error; }
      writeClosed := true;
      if pending == [] && !ended {
        var r := kernel.Shutdown(shut);
        if r.Refused? { return Error; }
        ended := true;
      }
      reply := Fine;
    }

    method CloseNow() returns (reply: Reply)
      modifies this
      ensures (Now(), reply) == CloseCall(old(Now()))
    {
      if !used { return Error; }
      pending := [];
      used := false;
      reply := Fine;
    }
  }
}
