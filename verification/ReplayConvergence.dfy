/** What the startup replay guarantees, from ANY disk: it leaves nothing pending, it commits only
    trees that verify, and crashing it anywhere and running it again ends on the same disk. */
module ReplayConvergence {
  import opened Wrappers
  import opened InstallDisk
  import opened ReceiptJournal

  /** The committed tree: integrity.json is the receipt's ledger and every listed file sits in
      `plugins/<id>@<version>/` at its listed digest. */
  predicate TreeInstalled(d: Disk, r: Receipt) {
    var root := Installed(r.id, r.version, INTEGRITY);
    && root in d.files
    && r.treeSha == Some(Sha256(d.files[root]))
    && d.files[root].LedgerDoc?
    && var ledger := d.files[root].files;
       forall i :: 0 <= i < |ledger| ==> InstalledAt(d, r, ledger[i])
  }

  predicate InstalledAt(d: Disk, r: Receipt, e: LedgerEntry) {
    var p := Installed(r.id, r.version, e.rel);
    p in d.files && Sha256(d.files[p]) == e.digest
  }

  /** The entry a replay on d appends for pending entry e. */
  function TerminalFor(d: Disk, e: Entry): Entry {
    if StageVerifies(d, e.txId, e.receipt.treeSha) then CommittedEntry(e) else RolledBackEntry(e)
  }

  /** A write that leaves every staging tree alone. */
  predicate OutsideStaging(w: Write) {
    w.Put? ==> w.path.Installed?
  }

  ghost predicate SameStaging(d: Disk, d': Disk) {
    forall tx, rel ::
      (Staged(tx, rel) in d.files <==> Staged(tx, rel) in d'.files) &&
      (Staged(tx, rel) in d.files ==> d.files[Staged(tx, rel)] == d'.files[Staged(tx, rel)])
  }

  lemma OutsideStagingKeeps(d: Disk, ws: seq<Write>)
    requires forall i :: 0 <= i < |ws| ==> OutsideStaging(ws[i])
    ensures SameStaging(d, Apply(d, ws))
  {
    forall tx, rel ensures Staged(tx, rel) !in Overlay(ws) {
      OverlayKeys(ws, Staged(tx, rel));
    }
  }

  /** What a recovery writes depends on the staging trees only. */
  lemma RecoverDependsOnStaging(d: Disk, d': Disk, e: Entry)
    requires SameStaging(d, d')
    ensures RecoverWrites(d', e) == RecoverWrites(d, e)
  {
    assert Staged(e.txId, INTEGRITY) in d.files <==> Staged(e.txId, INTEGRITY) in d'.files;
    if Staged(e.txId, INTEGRITY) in d.files && d.files[Staged(e.txId, INTEGRITY)].LedgerDoc? {
      var ledger := d.files[Staged(e.txId, INTEGRITY)].files;
      forall i | 0 <= i < |ledger|
        ensures StagedAt(d, e.txId, ledger[i]) <==> StagedAt(d', e.txId, ledger[i])
      {
        assert Staged(e.txId, ledger[i].rel) in d.files <==> Staged(e.txId, ledger[i].rel) in d'.files;
      }
      assert StagedLedger(d, e.txId, ledger) <==> StagedLedger(d', e.txId, ledger);
      assert StageVerifies(d, e.txId, e.receipt.treeSha) <==> StageVerifies(d', e.txId, e.receipt.treeSha);
      if StageVerifies(d, e.txId, e.receipt.treeSha) {
        assert forall i :: 0 <= i < |ledger| ==> StagedAt(d, e.txId, ledger[i]);
        assert forall i :: 0 <= i < |ledger| ==> StagedAt(d', e.txId, ledger[i]);
        var names := LedgerRels(ledger) + [INTEGRITY];
        assert PromoteWrites(d, e.txId, e.receipt.id, e.receipt.version, names)
            == PromoteWrites(d', e.txId, e.receipt.id, e.receipt.version, names);
      }
    }
  }

  lemma {:induction false} RecoverAllDependsOnStaging(d: Disk, d': Disk, es: seq<Entry>)
    requires SameStaging(d, d')
    ensures RecoverAll(d', es) == RecoverAll(d, es)
  {
    if es != [] {
      RecoverDependsOnStaging(d, d', es[0]);
      RecoverAllDependsOnStaging(d, d', es[1..]);
    }
  }

  // ---- the shape of a recovery -------------------------------------------------

  /** A recovery puts files of the final directory, then appends its one terminal entry. */
  lemma RecoverShape(d: Disk, e: Entry)
    ensures var ws := RecoverWrites(d, e);
            && |ws| >= 1
            && ws[|ws|-1] == Append(TerminalFor(d, e))
            && (forall i :: 0 <= i < |ws|-1 ==> ws[i].Put? && ws[i].path.Installed?)
            && Appends(ws) == [TerminalFor(d, e)]
  {
    var ws := RecoverWrites(d, e);
    var puts := ws[..|ws|-1];
    assert forall i :: 0 <= i < |ws|-1 ==> ws[i].Put? && ws[i].path.Installed?;
    assert forall i :: 0 <= i < |puts| ==> puts[i] == ws[i];
    AppendsOfPuts(puts);
  }

  lemma {:induction false} RecoverAllShape(d: Disk, es: seq<Entry>)
    ensures forall i :: 0 <= i < |RecoverAll(d, es)| ==> OutsideStaging(RecoverAll(d, es)[i])
    ensures |Appends(RecoverAll(d, es))| == |es|
    ensures forall i :: 0 <= i < |es| ==> Appends(RecoverAll(d, es))[i] == TerminalFor(d, es[i])
  {
    hide RecoverWrites, StageVerifies;
    if es != [] {
      RecoverShape(d, es[0]);
      RecoverAllShape(d, es[1..]);
      AppendsConcat(RecoverWrites(d, es[0]), RecoverAll(d, es[1..]));
      forall i | 0 <= i < |es| ensures Appends(RecoverAll(d, es))[i] == TerminalFor(d, es[i]) {
        if i > 0 { assert es[i] == es[1..][i-1]; }
      }
    }
  }

  lemma {:induction false} RecoverAllConcat(d: Disk, a: seq<Entry>, b: seq<Entry>)
    ensures RecoverAll(d, a + b) == RecoverAll(d, a) + RecoverAll(d, b)
  {
    if a == [] {
      assert a + b == b;
    } else {
      assert (a + b)[1..] == a[1..] + b;
      RecoverAllConcat(d, a[1..], b);
    }
  }

  lemma PrefixStep(block: seq<Write>, tail: seq<Write>, inner: seq<Write>, part: seq<Write>, k: nat)
    requires |block| <= k < |block| + |tail|
    requires tail[..k - |block|] == inner + part
    ensures (block + tail)[..k] == (block + inner) + part
    ensures (block + tail)[k] == tail[k - |block|]
  {
    assert (block + tail)[..k] == block + tail[..k - |block|];
  }

  /** Any prefix of a replay is some whole recoveries and a part of the next one's puts. */
  lemma {:induction false} ReplayPrefix(d: Disk, es: seq<Entry>, k: nat) returns (i: nat, r: nat)
    requires k < |RecoverAll(d, es)|
    ensures i < |es| && r < |RecoverWrites(d, es[i])|
    ensures RecoverAll(d, es)[..k] == RecoverAll(d, es[..i]) + RecoverWrites(d, es[i])[..r]
    ensures RecoverAll(d, es)[k] == RecoverWrites(d, es[i])[r]
  {
    var block, tail := RecoverWrites(d, es[0]), RecoverAll(d, es[1..]);
    if k < |block| {
      i, r := 0, k;
      assert (block + tail)[..k] == RecoverAll(d, es[..0]) + block[..k];
    } else {
      var m;
      m, r := ReplayPrefix(d, es[1..], k - |block|);
      i := m + 1;
      assert es[1..][m] == es[i];
      assert es[..i][0] == es[0] && es[..i][1..] == es[1..][..m];
      PrefixStep(block, tail, RecoverAll(d, es[1..][..m]), RecoverWrites(d, es[i])[..r], k);
    }
  }

  // ---- the work list after part of a replay --------------------------------------

  lemma DropFirst(first: Entry, rest: seq<Entry>, i: nat)
    requires 1 <= i <= |rest| + 1
    ensures ([first] + rest)[i..] == rest[i - 1..]
    ensures TxIds(([first] + rest)[..i]) == [first.txId] + TxIds(rest[..i - 1])
  {}

  lemma {:induction false} PendingAfterDone(j: seq<Entry>, j': seq<Entry>, order: seq<TxId>, done: set<TxId>, i: nat)
    requires Distinct(order)
    requires i <= |PendingAmong(j, order)|
    requires forall tx :: tx in order && IsPending(Latest(j, tx)) ==>
               (tx in done <==> tx in TxIds(PendingAmong(j, order)[..i]))
    requires forall tx :: tx in order && tx in done ==> !IsPending(Latest(j', tx))
    requires forall tx :: tx in order && tx !in done ==> Latest(j', tx) == Latest(j, tx)
    ensures PendingAmong(j', order) == PendingAmong(j, order)[i..]
  {
    hide Latest;
    if order != [] {
      var t, rest := order[0], PendingAmong(j, order[1..]);
      LatestIs(j, t);
      assert forall tx :: tx in order[1..] ==> tx in order && tx != t;
      if IsPending(Latest(j, t)) {
        var first := Latest(j, t).value;
        assert PendingAmong(j, order) == [first] + rest;
        if i == 0 {
          assert t !in TxIds(([first] + rest)[..0]);
          PendingAfterDone(j, j', order[1..], done, 0);
          assert rest[0..] == rest;
        } else {
          DropFirst(first, rest, i);
          assert t in done;
          PendingAfterDone(j, j', order[1..], done, i - 1);
        }
      } else {
        PendingAfterDone(j, j', order[1..], done, i);
      }
    }
  }

  lemma {:induction false} LatestOfTerminals(ts: seq<Entry>, tx: TxId)
    requires forall i :: 0 <= i < |ts| ==> !ts[i].receipt.status.Pending?
    ensures Latest(ts, tx).Some? <==> tx in TxIds(ts)
    ensures !IsPending(Latest(ts, tx))
  {
    if ts != [] {
      var init := ts[..|ts|-1];
      LatestOfTerminals(init, tx);
      assert TxIds(ts) == TxIds(init) + [ts[|ts|-1].txId];
    }
  }

  /** Once the first i pending transactions got their terminal entries, the rest are what is left. */
  lemma PendingAfterTerminals(d: Disk, i: nat)
    requires i <= |PendingOf(d.journal)|
    ensures PendingOf(d.journal + Appends(RecoverAll(d, PendingOf(d.journal)[..i]))) == PendingOf(d.journal)[i..]
  {
    var j, work := d.journal, PendingOf(d.journal);
    var ts := Appends(RecoverAll(d, work[..i]));
    RecoverAllShape(d, work[..i]);
    assert TxIds(ts) == TxIds(work[..i]);
    forall m | 0 <= m < |ts| ensures ts[m].txId in FirstSeen(j) {
      PendingExactly(j, work[m]);
      assert work[m] in work;
      LatestIs(j, work[m].txId);
    }
    FirstSeenKnown(j, ts);
    FirstSeenDistinct(j);
    var done := set tx | tx in TxIds(ts);
    forall tx ensures tx in done ==> !IsPending(Latest(j + ts, tx))
      ensures tx !in done ==> Latest(j + ts, tx) == Latest(j, tx)
    {
      LatestConcat(j, ts, tx);
      LatestOfTerminals(ts, tx);
    }
    PendingAfterDone(j, j + ts, FirstSeen(j), done, i);
  }

  // ---- main results -----------------------------------------------------------------

  /** A finished replay leaves nothing pending; on a journal with nothing pending it writes nothing. */
  lemma ReplayResolvesAll(d: Disk)
    ensures PendingOf(Replayed(d).journal) == []
    ensures PendingOf(d.journal) == [] ==> ReplayWrites(d) == [] && Replayed(d) == d
  {
    var work := PendingOf(d.journal);
    PendingAfterTerminals(d, |work|);
    assert work[..|work|] == work;
  }

  /** A transaction's history gains exactly one terminal entry if it was pending, and nothing otherwise. */
  lemma ReplayHistory(d: Disk, tx: TxId)
    ensures History(Replayed(d).journal, tx)
         == History(d.journal, tx)
            + if IsPending(Latest(d.journal, tx))
              then [TerminalFor(d, Latest(d.journal, tx).value).receipt.status] else []
  {
    hide RecoverAll, PendingOf, Appends, Overlay, History, Latest, FirstSeen, StageVerifies;
    var work := PendingOf(d.journal);
    RecoverAllShape(d, work);
    PendingDistinct(d.journal);
    HistoryConcat(d.journal, Appends(ReplayWrites(d)), tx);
    LatestIs(d.journal, tx);
    if IsPending(Latest(d.journal, tx)) {
      PendingExactly(d.journal, Latest(d.journal, tx).value);
    }
    var ts := Appends(ReplayWrites(d));
    assert TxIds(ts) == TxIds(work);
    HistoryOfDistinct(ts, tx);
    if m :| 0 <= m < |ts| && ts[m].txId == tx {
      PendingExactly(d.journal, work[m]);
      assert work[m] in work;
    }
  }

  lemma {:induction false} HistoryOfDistinct(ts: seq<Entry>, tx: TxId)
    requires Distinct(TxIds(ts))
    ensures (forall m :: 0 <= m < |ts| ==> ts[m].txId != tx) ==> History(ts, tx) == []
    ensures forall m :: 0 <= m < |ts| && ts[m].txId == tx ==> History(ts, tx) == [ts[m].receipt.status]
  {
    if ts != [] {
      var init := ts[..|ts|-1];
      assert forall m :: 0 <= m < |init| ==> TxIds(init)[m] == TxIds(ts)[m];
      HistoryOfDistinct(init, tx);
      forall m | 0 <= m < |ts| && ts[m].txId == tx
        ensures History(ts, tx) == [ts[m].receipt.status]
      {
        if m < |init| {
          assert init[m] == ts[m] && TxIds(ts)[m] != TxIds(ts)[|ts|-1];
        } else {
          forall n | 0 <= n < |init| ensures init[n].txId != tx {
            assert TxIds(ts)[n] != TxIds(ts)[m];
          }
        }
      }
    }
  }

  /** Crash a replay after any number of its writes, run it again: the disk is, file by file and
      entry by entry, the one an uninterrupted replay leaves. */
  lemma ReplayConverges(d: Disk, k: nat)
    ensures Replayed(CrashedReplay(d, k)) == Replayed(d)
  {
    hide PendingOf, RecoverWrites, Overlay, Appends, StageVerifies;
    var work, ws := PendingOf(d.journal), ReplayWrites(d);
    if k >= |ws| {
      assert k == |ws| ==> ws[..k] == ws;
      ReplayResolvesAll(d);
      ReplayResolvesAll(Replayed(d));
    } else {
      var i, r := ReplayPrefix(d, work, k);
      var before, block, left := RecoverAll(d, work[..i]), RecoverWrites(d, work[i]), work[i..];
      var cut := Apply(d, ws[..k]);
      RecoverAllShape(d, work[..i]);
      RecoverShape(d, work[i]);
      assert forall m :: 0 <= m < |ws[..k]| ==> OutsideStaging(ws[..k][m]);
      OutsideStagingKeeps(d, ws[..k]);
      AppendsConcat(before, block[..r]);
      AppendsOfPuts(block[..r]);
      PendingAfterTerminals(d, i);
      assert work == PendingOf(d.journal) && cut.journal == d.journal + Appends(before);
      RecoverAllDependsOnStaging(d, cut, left);
      var tail := RecoverAll(d, left);
      assert left[0] == work[i];
      assert tail == block + RecoverAll(d, left[1..]);
      assert tail[..r] == block[..r];
      ApplyConcat(d, before, block[..r]);
      RedoPuts(Apply(d, before), tail, r);
      assert work[..i] + left == work;
      RecoverAllConcat(d, work[..i], left);
      ApplyConcat(d, before, tail);
    }
  }

  /** The disk after a series of replays each of which crashed. */
  function CrashedReplays(d: Disk, cuts: seq<nat>): Disk
    decreases cuts
  {
    if cuts == [] then d else CrashedReplays(CrashedReplay(d, cuts[0]), cuts[1..])
  }

  /** However many replays crash, and wherever, the one that finishes ends on the same disk. */
  lemma {:induction false} ReplayConvergesAfterCrashes(d: Disk, cuts: seq<nat>)
    ensures Replayed(CrashedReplays(d, cuts)) == Replayed(d)
    decreases cuts
  {
    if cuts != [] {
      ReplayConverges(d, cuts[0]);
      ReplayConvergesAfterCrashes(CrashedReplay(d, cuts[0]), cuts[1..]);
    }
  }

  /** After the copy of a verified staging tree, the receipt's tree is installed, whatever was
      written before it. */
  lemma PromotionInstalls(d: Disk, before: seq<Write>, tx: TxId, r: Receipt)
    requires StageVerifies(d, tx, r.treeSha)
    ensures var ledger := d.files[Staged(tx, INTEGRITY)].files;
            && (forall i :: 0 <= i < |ledger| ==> StagedAt(d, tx, ledger[i]))
            && TreeInstalled(
                 Apply(d, before + PromoteWrites(d, tx, r.id, r.version, LedgerRels(ledger) + [INTEGRITY])), r)
  {
    var ledger := d.files[Staged(tx, INTEGRITY)].files;
    assert forall i :: 0 <= i < |ledger| ==> StagedAt(d, tx, ledger[i]);
    var names := LedgerRels(ledger) + [INTEGRITY];
    var copy := PromoteWrites(d, tx, r.id, r.version, names);
    var after := Apply(d, before + copy);
    OverlayConcat(before, copy);
    forall n | 0 <= n < |names|
      ensures var p := Installed(r.id, r.version, names[n]);
              p in after.files && after.files[p] == d.files[Staged(tx, names[n])]
    {
      var p := Installed(r.id, r.version, names[n]);
      assert copy[n].path == p;
      OverlayKeys(copy, p);
      OverlayValue(copy, p, d.files[Staged(tx, names[n])]);
    }
    assert names[|ledger|] == INTEGRITY;
    forall i | 0 <= i < |ledger| ensures InstalledAt(after, r, ledger[i]) {
      assert names[i] == ledger[i].rel;
      assert StagedAt(d, tx, ledger[i]);
    }
  }

  /** Whenever a replay, crashing anywhere or not at all, appends a committed entry, the tree that
      entry vouches for is completely in place at that moment. */
  lemma ReplayCommitsOnlyInstalledTrees(d: Disk, k: nat)
    requires k < |ReplayWrites(d)|
    requires ReplayWrites(d)[k].Append? && ReplayWrites(d)[k].entry.receipt.status.Committed?
    ensures TreeInstalled(CrashedReplay(d, k), ReplayWrites(d)[k].entry.receipt)
  {
    var work := PendingOf(d.journal);
    var i, r := ReplayPrefix(d, work, k);
    var e := work[i];
    RecoverShape(d, e);
    assert StageVerifies(d, e.txId, e.receipt.treeSha);
    PromotionInstalls(d, RecoverAll(d, work[..i]), e.txId, e.receipt);
  }

  /** Every file a replay writes is a copy, into the final directory of a pending receipt, of a
      staged file of a tree that verifies; so an entry whose tree does not verify causes no write
      outside the journal. */
  lemma ReplayPutsOnlyVerifiedFiles(d: Disk, k: nat)
    requires k < |ReplayWrites(d)| && ReplayWrites(d)[k].Put?
    ensures exists e, rel :: e in PendingOf(d.journal)
              && StageVerifies(d, e.txId, e.receipt.treeSha)
              && rel in LedgerRels(d.files[Staged(e.txId, INTEGRITY)].files) + [INTEGRITY]
              && Staged(e.txId, rel) in d.files
              && ReplayWrites(d)[k] == Put(Installed(e.receipt.id, e.receipt.version, rel), d.files[Staged(e.txId, rel)])
  {
    var work := PendingOf(d.journal);
    var i, r := ReplayPrefix(d, work, k);
    RecoverShape(d, work[i]);
    assert StageVerifies(d, work[i].txId, work[i].receipt.treeSha);
    var ledger := d.files[Staged(work[i].txId, INTEGRITY)].files;
    assert forall n :: 0 <= n < |ledger| ==> StagedAt(d, work[i].txId, ledger[n]);
    var names := LedgerRels(ledger) + [INTEGRITY];
    assert names[r] in names;
    assert RecoverWrites(d, work[i])[r]
        == Put(Installed(work[i].receipt.id, work[i].receipt.version, names[r]), d.files[Staged(work[i].txId, names[r])]);
    assert work[i] in work;
  }
}
