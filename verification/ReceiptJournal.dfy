/** The receipts journal, the startup replay's work list and the writes one replay performs
    (runtime/dsh/receipt-journal.js). */
module ReceiptJournal {
  import opened Wrappers
  import opened InstallDisk

  // ---- reading the journal ---------------------------------------------------

  /** The last entry a transaction has. */
  function Latest(j: seq<Entry>, tx: TxId): Option<Entry> {
    if j == [] then None
    else if j[|j|-1].txId == tx then Some(j[|j|-1])
    else Latest(j[..|j|-1], tx)
  }

  /** The transactions of the journal in the order of their first entries. */
  function FirstSeen(j: seq<Entry>): seq<TxId> {
    if j == [] then []
    else
      var order := FirstSeen(j[..|j|-1]);
      if j[|j|-1].txId in order then order else order + [j[|j|-1].txId]
  }

  predicate IsPending(o: Option<Entry>) {
    o.Some? && o.value.receipt.status.Pending?
  }

  function PendingAmong(j: seq<Entry>, order: seq<TxId>): seq<Entry> {
    if order == [] then []
    else
      var latest := Latest(j, order[0]);
      (if IsPending(latest) then [latest.value] else []) + PendingAmong(j, order[1..])
  }

  /** The replay's work list: the pending latest entries, in first-seen order. */
  function PendingOf(j: seq<Entry>): seq<Entry> {
    PendingAmong(j, FirstSeen(j))
  }

  /** The statuses a transaction went through. */
  function History(j: seq<Entry>, tx: TxId): seq<Status> {
    if j == [] then []
    else
      History(j[..|j|-1], tx) + (if j[|j|-1].txId == tx then [j[|j|-1].receipt.status] else [])
  }

  ghost predicate Distinct<T(!new)>(s: seq<T>) {
    forall i, j :: 0 <= i < j < |s| ==> s[i] != s[j]
  }

  function TxIds(es: seq<Entry>): seq<TxId> {
    seq(|es|, i requires 0 <= i < |es| => es[i].txId)
  }

  // ---- one recovery ------------------------------------------------------------

  predicate StagedAt(d: Disk, tx: TxId, e: LedgerEntry) {
    Staged(tx, e.rel) in d.files && Sha256(d.files[Staged(tx, e.rel)]) == e.digest
  }

  predicate StagedLedger(d: Disk, tx: TxId, ledger: seq<LedgerEntry>) {
    forall i :: 0 <= i < |ledger| ==> StagedAt(d, tx, ledger[i])
  }

  /** The staged tree verifies: integrity.json is the ledger whose digest the receipt anchors, and
      every file it lists reads back at its listed digest. */
  predicate StageVerifies(d: Disk, tx: TxId, treeSha: Option<Digest>) {
    && Staged(tx, INTEGRITY) in d.files
    && var integ := d.files[Staged(tx, INTEGRITY)];
       && treeSha == Some(Sha256(integ))
       && integ.LedgerDoc?
       && StagedLedger(d, tx, integ.files)
  }

  function LedgerRels(ledger: seq<LedgerEntry>): seq<string> {
    seq(|ledger|, i requires 0 <= i < |ledger| => ledger[i].rel)
  }

  /** The copy of named staged files into `plugins/<id>@<version>/`. */
  function PromoteWrites(d: Disk, tx: TxId, id: string, version: string, names: seq<string>): seq<Write>
    requires forall i :: 0 <= i < |names| ==> Staged(tx, names[i]) in d.files
  {
    seq(|names|, i requires 0 <= i < |names| =>
      Put(Installed(id, version, names[i]), d.files[Staged(tx, names[i])]))
  }

  function CommittedEntry(e: Entry): Entry {
    e.(receipt := e.receipt.(status := Committed))
  }

  function RolledBackEntry(e: Entry): Entry {
    e.(receipt := e.receipt.(status := RolledBack, treeSha := None))
  }

  /** The writes that resolve one pending entry. */
  function RecoverWrites(d: Disk, e: Entry): seq<Write> {
    if StageVerifies(d, e.txId, e.receipt.treeSha) then
      var ledger := d.files[Staged(e.txId, INTEGRITY)].files;
      assert forall i :: 0 <= i < |ledger| ==> StagedAt(d, e.txId, ledger[i]);
      PromoteWrites(d, e.txId, e.receipt.id, e.receipt.version, LedgerRels(ledger) + [INTEGRITY])
        + [Append(CommittedEntry(e))]
    else
      [Append(RolledBackEntry(e))]
  }

  function RecoverAll(d: Disk, es: seq<Entry>): seq<Write> {
    if es == [] then [] else RecoverWrites(d, es[0]) + RecoverAll(d, es[1..])
  }

  /** All the writes of one uninterrupted replay. */
  function ReplayWrites(d: Disk): seq<Write> {
    RecoverAll(d, PendingOf(d.journal))
  }

  function Replayed(d: Disk): Disk {
    Apply(d, ReplayWrites(d))
  }

  /** A replay that crashes once k of its writes are on disk. */
  function CrashedReplay(d: Disk, k: nat): Disk {
    var ws := ReplayWrites(d);
    Apply(d, if k <= |ws| then ws[..k] else ws)
  }

  // ---- the journal's algebra -----------------------------------------------------

  lemma StatusesConcat(a: seq<Status>, b: seq<Status>, c: seq<Status>)
    ensures (a + b) + c == a + (b + c)
  {}

  lemma {:induction false} HistoryConcat(a: seq<Entry>, b: seq<Entry>, tx: TxId)
    ensures History(a + b, tx) == History(a, tx) + History(b, tx)
  {
    if b == [] {
      assert a + b == a;
      assert History(a, tx) + [] == History(a, tx);
    } else {
      HistoryConcat(a, b[..|b|-1], tx);
      assert (a + b)[..|a + b|-1] == a + b[..|b|-1];
      var last := b[|b|-1];
      assert (a + b)[|a + b|-1] == last;
      StatusesConcat(History(a, tx), History(b[..|b|-1], tx), if last.txId == tx then [last.receipt.status] else []);
    }
  }

  lemma {:induction false} LatestConcat(a: seq<Entry>, b: seq<Entry>, tx: TxId)
    ensures Latest(a + b, tx) == if Latest(b, tx).Some? then Latest(b, tx) else Latest(a, tx)
  {
    if b == [] {
      assert a + b == a;
    } else {
      assert (a + b)[..|a + b|-1] == a + b[..|b|-1];
      LatestConcat(a, b[..|b|-1], tx);
    }
  }

  lemma {:induction false} LatestIs(j: seq<Entry>, tx: TxId)
    ensures Latest(j, tx).Some? ==> Latest(j, tx).value.txId == tx
    ensures Latest(j, tx).Some? <==> tx in FirstSeen(j)
    ensures Latest(j, tx).Some? <==> History(j, tx) != []
    ensures Latest(j, tx).Some? ==>
              History(j, tx)[|History(j, tx)|-1] == Latest(j, tx).value.receipt.status
  {
    if j != [] {
      LatestIs(j[..|j|-1], tx);
    }
  }

  lemma {:induction false} FirstSeenDistinct(j: seq<Entry>)
    ensures Distinct(FirstSeen(j))
  {
    if j != [] {
      FirstSeenDistinct(j[..|j|-1]);
    }
  }

  /** Entries of transactions the journal already lists leave the first-seen order alone. */
  lemma {:induction false} FirstSeenKnown(a: seq<Entry>, b: seq<Entry>)
    requires forall i :: 0 <= i < |b| ==> b[i].txId in FirstSeen(a)
    ensures FirstSeen(a + b) == FirstSeen(a)
  {
    if b == [] {
      assert a + b == a;
    } else {
      assert (a + b)[..|a + b|-1] == a + b[..|b|-1];
      FirstSeenKnown(a, b[..|b|-1]);
    }
  }

  lemma {:induction false} PendingAmongExactly(j: seq<Entry>, order: seq<TxId>, e: Entry)
    ensures e in PendingAmong(j, order) <==> e.txId in order && Latest(j, e.txId) == Some(e) && IsPending(Some(e))
  {
    if order != [] {
      LatestIs(j, order[0]);
      PendingAmongExactly(j, order[1..], e);
    }
  }

  /** The work list is exactly the transactions whose latest entry is pending, each with that entry. */
  lemma PendingExactly(j: seq<Entry>, e: Entry)
    ensures e in PendingOf(j) <==> Latest(j, e.txId) == Some(e) && e.receipt.status.Pending?
  {
    PendingAmongExactly(j, FirstSeen(j), e);
    LatestIs(j, e.txId);
  }

  lemma {:induction false} PendingAmongDistinct(j: seq<Entry>, order: seq<TxId>)
    requires Distinct(order)
    ensures Distinct(TxIds(PendingAmong(j, order)))
  {
    if order != [] {
      var rest := PendingAmong(j, order[1..]);
      PendingAmongDistinct(j, order[1..]);
      LatestIs(j, order[0]);
      forall i | 0 <= i < |rest| ensures rest[i].txId in order[1..] {
        PendingAmongExactly(j, order[1..], rest[i]);
        assert rest[i] in rest;
      }
      assert forall i :: 0 <= i < |rest| ==> TxIds(rest)[i] != order[0];
      var all := PendingAmong(j, order);
      if IsPending(Latest(j, order[0])) {
        assert all == [Latest(j, order[0]).value] + rest;
        assert TxIds(all) == [order[0]] + TxIds(rest);
      } else {
        assert all == rest;
      }
    }
  }

  /** No transaction is on the work list twice. */
  lemma PendingDistinct(j: seq<Entry>)
    ensures Distinct(TxIds(PendingOf(j)))
  {
    FirstSeenDistinct(j);
    PendingAmongDistinct(j, FirstSeen(j));
  }

  // ---- pendingTransactions ---------------------------------------------------------

  lemma {:induction false} PendingAmongSnoc(j: seq<Entry>, order: seq<TxId>, tx: TxId)
    ensures PendingAmong(j, order + [tx])
         == PendingAmong(j, order) + (if IsPending(Latest(j, tx)) then [Latest(j, tx).value] else [])
  {
    var last := if IsPending(Latest(j, tx)) then [Latest(j, tx).value] else [];
    if order == [] {
      assert order + [tx] == [tx] && [tx][1..] == [];
      assert PendingAmong(j, [tx]) == last + PendingAmong(j, []);
    } else {
      var first := if IsPending(Latest(j, order[0])) then [Latest(j, order[0]).value] else [];
      assert (order + [tx])[1..] == order[1..] + [tx];
      PendingAmongSnoc(j, order[1..], tx);
      assert first + (PendingAmong(j, order[1..]) + last) == first + PendingAmong(j, order[1..]) + last;
    }
  }

  /** The source's two passes: a Map of latest entries and an array of first-seen ids, then the
      map-and-filter over that array. */
  method PendingTransactions(entries: seq<Entry>) returns (pending: seq<Entry>)
    ensures pending == PendingOf(entries)
  {
    var latest: map<TxId, Entry> := map[];
    var order: seq<TxId> := [];
    for i := 0 to |entries|
      invariant order == FirstSeen(entries[..i])
      invariant forall tx :: tx in latest <==> Latest(entries[..i], tx).Some?
      invariant forall tx :: tx in latest ==> Latest(entries[..i], tx) == Some(latest[tx])
    {
      var entry := entries[i];
      assert entries[..i+1][..i] == entries[..i];
      LatestIs(entries[..i], entry.txId);
      if entry.txId !in latest { order := order + [entry.txId]; }
      latest := latest[entry.txId := entry];
    }
    assert entries[..|entries|] == entries;
    pending := [];
    for i := 0 to |order|
      invariant pending == PendingAmong(entries, order[..i])
    {
      LatestIs(entries, order[i]);
      assert order[i] in order;
      var entry := latest[order[i]];
      PendingAmongSnoc(entries, order[..i], order[i]);
      assert order[..i+1] == order[..i] + [order[i]];
      if entry.receipt.status == Pending { pending := pending + [entry]; }
    }
    assert order[..|order|] == order;
  }
}
