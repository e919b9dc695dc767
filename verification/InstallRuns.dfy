/** Runs: any sequence of installs, startup replays and outside tampering with the files, with a
    crash allowed after any write of any of them. */
module InstallRuns {
  import opened Wrappers
  import opened InstallDisk
  import opened ReceiptJournal
  import opened ReplayConvergence
  import opened ReplayFaults
  import opened InstallTransaction

  /** `cut` is how many writes reach the disk before the host crashes; a cut past the end is no crash.
      A failing install is one whose write number `cut` throws instead (the host lives on); a failing
      replay one some of whose recoveries meet an fs call that throws.
      Tampering replaces every file, but the journal only grows through the host. */
  datatype Event =
    | Install(req: Request, desc: Descriptor, cut: nat)
    | FailingInstall(req: Request, desc: Descriptor, cut: nat)
    | Replay(cut: nat)
    | FailingReplay(faults: seq<nat>, cut: nat)
    | Tamper(files: map<Path, Content>)

  function Take(ws: seq<Write>, cut: nat): seq<Write> {
    if cut <= |ws| then ws[..cut] else ws
  }

  /** The catch block of installPackage: rolled-back is journaled for any failure after the pending line. */
  function CatchWrites(req: Request, desc: Descriptor, cut: nat): seq<Write> {
    if Admit(req, desc).Success? && req.journal && cut >= 2
    then Journaled(req, Admit(req, desc).value, RolledBack)
    else []
  }

  /** What an install leaves behind when the write after the first `cut` throws. */
  function FailedInstallWrites(d: Disk, req: Request, desc: Descriptor, cut: nat): seq<Write> {
    var ws := InstallWrites(d, req, desc);
    if cut < |ws| then ws[..cut] + CatchWrites(req, desc, cut) else ws
  }

  function EventWrites(d: Disk, e: Event): seq<Write> {
    match e
    case Install(req, desc, cut) => Take(InstallWrites(d, req, desc), cut)
    case FailingInstall(req, desc, cut) => FailedInstallWrites(d, req, desc, cut)
    case Replay(cut) => Take(ReplayWrites(d), cut)
    case FailingReplay(faults, cut) => Take(FaultyReplayWrites(d, faults), cut)
    case Tamper(_) => []
  }

  function Step(d: Disk, e: Event): Disk {
    match e
    case Tamper(files) => d.(files := files)
    case _ => Apply(d, EventWrites(d, e))
  }

  function Run(d: Disk, es: seq<Event>): Disk {
    if es == [] then d else Step(Run(d, es[..|es|-1]), es[|es|-1])
  }

  predicate Installs(e: Event, tx: TxId) {
    (e.Install? || e.FailingInstall?) && e.req.tx == tx
  }

  /** Transaction ids are unique: every install of the run has its own. */
  ghost predicate UniqueTxIds(es: seq<Event>) {
    forall i, j, tx :: 0 <= i < j < |es| && Installs(es[i], tx) ==> !Installs(es[j], tx)
  }

  /** The lives a transaction can have had. */
  predicate Tidy(h: seq<Status>) {
    h == [] || h == [Pending] || h == [Pending, Committed] || h == [Pending, RolledBack]
  }

  // ---- the journal over a run ---------------------------------------------------------

  lemma {:induction false} HistoryOfOthers(es: seq<Entry>, tx: TxId)
    requires forall i :: 0 <= i < |es| ==> es[i].txId != tx
    ensures History(es, tx) == []
  {
    if es != [] { HistoryOfOthers(es[..|es|-1], tx); }
  }

  /** Lines one install can add: at most its pending line and then one terminal line. */
  predicate InstallLines(added: seq<Entry>, own: TxId) {
    && |added| <= 2
    && (forall i :: 0 <= i < |added| ==> added[i].txId == own)
    && (|added| >= 1 ==> added[0].receipt.status.Pending?)
    && (|added| == 2 ==> !added[1].receipt.status.Pending?)
  }

  lemma InstallLinesHistory(j: seq<Entry>, added: seq<Entry>, own: TxId, tx: TxId)
    requires InstallLines(added, own)
    ensures tx != own ==> History(j + added, tx) == History(j, tx)
    ensures tx == own && History(j, tx) == [] ==> Tidy(History(j + added, tx))
  {
    HistoryConcat(j, added, tx);
    if tx != own { HistoryOfOthers(added, tx); } else { HistoryOfPair(added, tx); }
  }

  lemma InstallEntriesAreLines(d: Disk, req: Request, desc: Descriptor, k: nat)
    requires k <= |InstallEntries(d, req, desc)|
    ensures InstallLines(InstallEntries(d, req, desc)[..k], req.tx)
  {}

  /** A crash keeps a prefix of the install's lines. */
  lemma CrashedInstallLines(d: Disk, req: Request, desc: Descriptor, cut: nat)
    ensures InstallLines(Appends(Take(InstallWrites(d, req, desc), cut)), req.tx)
  {
    var ws := InstallWrites(d, req, desc);
    var k := if cut <= |ws| then cut else |ws|;
    assert ws[..|ws|] == ws;
    InstallAppends(d, req, desc);
    AppendsPrefix(ws, k);
    InstallEntriesAreLines(d, req, desc, |Appends(ws[..k])|);
  }

  /** In a journaled install only the second and the last write are journal lines. */
  lemma InstallPutsBetween(d: Disk, req: Request, desc: Descriptor)
    requires Admit(req, desc).Success? && req.journal
    ensures var ws := InstallWrites(d, req, desc);
            && |ws| >= 3 && ws[0].Put? && ws[|ws|-1].Append?
            && ws[1] == Append(Entry(req.tx, ReceiptOf(req, Admit(req, desc).value, Pending)))
            && forall i :: 2 <= i < |ws| - 1 ==> ws[i].Put?
  {
    var p := Admit(req, desc).value;
    var staging := StagingPhase(req, p);
    var closing := ClosingWrites(Apply(d, staging), req, p);
    assert forall i :: 2 <= i < |staging| ==> staging[i].Put?;
    assert forall i :: 0 <= i < |closing| - 1 ==> closing[i].Put?;
  }

  /** Before its end a journaled install has journaled at most its pending line, and exactly that
      once two writes are done. */
  lemma LinesBeforeTheEnd(d: Disk, req: Request, desc: Descriptor, k: nat)
    requires Admit(req, desc).Success? && req.journal
    requires k < |InstallWrites(d, req, desc)|
    ensures Appends(InstallWrites(d, req, desc)[..k])
         == if k >= 2 then [Entry(req.tx, ReceiptOf(req, Admit(req, desc).value, Pending))] else []
  {
    var ws := InstallWrites(d, req, desc);
    InstallPutsBetween(d, req, desc);
    if k >= 2 {
      assert ws[..k] == [ws[0]] + [ws[1]] + ws[2..k];
      AppendsConcat([ws[0]] + [ws[1]], ws[2..k]);
      AppendsConcat([ws[0]], [ws[1]]);
      AppendsOfPuts([ws[0]]);
      AppendsOfPuts(ws[2..k]);
      AppendsOfOne(ws[1].entry);
    } else {
      AppendsOfPuts(ws[..k]);
    }
  }

  lemma FailedInstallLines(d: Disk, req: Request, desc: Descriptor, cut: nat)
    ensures InstallLines(Appends(FailedInstallWrites(d, req, desc, cut)), req.tx)
  {
    var ws := InstallWrites(d, req, desc);
    if CatchWrites(req, desc, cut) == [] || cut >= |ws| {
      CrashedInstallLines(d, req, desc, cut);
      assert ws[..|ws|] == ws && (cut < |ws| ==> ws[..cut] + [] == ws[..cut]);
    } else {
      CatchLines(d, req, desc, cut);
    }
  }

  lemma CatchLines(d: Disk, req: Request, desc: Descriptor, cut: nat)
    requires cut < |InstallWrites(d, req, desc)| && CatchWrites(req, desc, cut) != []
    ensures InstallLines(Appends(InstallWrites(d, req, desc)[..cut] + CatchWrites(req, desc, cut)), req.tx)
  {
    hide InstallWrites, Admit, Appends, TreeSha;
    LinesBeforeTheEnd(d, req, desc, cut);
    AppendsConcat(InstallWrites(d, req, desc)[..cut], CatchWrites(req, desc, cut));
    JournaledAppends(req, Admit(req, desc).value, RolledBack);
  }

  lemma AppendsOfOne(e: Entry)
    ensures Appends([Append(e)]) == [e]
  {
    assert [Append(e)][..0] == [];
  }

  /** A replay, crashed or not, gives a pending transaction at most one terminal line and touches no
      other transaction's history. */
  lemma ReplayStepHistory(d: Disk, cut: nat, tx: TxId)
    ensures var h, h' := History(d.journal, tx), History(CrashedReplay(d, cut).journal, tx);
            h' == h || (IsPending(Latest(d.journal, tx)) && (h' == h + [Committed] || h' == h + [RolledBack]))
  {
    var ws, work := ReplayWrites(d), PendingOf(d.journal);
    var k := if cut <= |ws| then cut else |ws|;
    assert ws[..|ws|] == ws;
    AppendsPrefix(ws, k);
    RecoverAllShape(d, work);
    var ts := Appends(ws[..k]);
    assert forall m :: 0 <= m < |ts| ==> ts[m] == Appends(ws)[m] == TerminalFor(d, work[m]);
    HistoryConcat(d.journal, ts, tx);
    TerminalsHistory(d, ts, tx);
  }

  /** The same of a replay in which fs calls throw. */
  lemma FailingReplayHistory(d: Disk, faults: seq<nat>, cut: nat, tx: TxId)
    ensures var h, h' := History(d.journal, tx), History(Step(d, FailingReplay(faults, cut)).journal, tx);
            h' == h || (IsPending(Latest(d.journal, tx)) && (h' == h + [Committed] || h' == h + [RolledBack]))
  {
    hide FaultyReplayWrites, Overlay, Latest, History, PendingOf;
    var ws := FaultyReplayWrites(d, faults);
    var k := if cut <= |ws| then cut else |ws|;
    assert ws[..|ws|] == ws;
    AppendsPrefix(ws, k);
    FaultyReplayShape(d, faults);
    var ts := Appends(ws[..k]);
    assert forall m :: 0 <= m < |ts| ==> ts[m] == Appends(ws)[m];
    HistoryConcat(d.journal, ts, tx);
    OneTerminalEach(d, ts, tx);
  }

  lemma FaultyReplayShape(d: Disk, faults: seq<nat>)
    ensures
      var ts := Appends(FaultyReplayWrites(d, faults));
      |ts| == |PendingOf(d.journal)|
      && forall i :: 0 <= i < |ts| ==> ts[i].txId == PendingOf(d.journal)[i].txId && !ts[i].receipt.status.Pending?
  {
    FaultyAllShape(d, PendingOf(d.journal), faults);
  }

  lemma OneTerminalEach(d: Disk, ts: seq<Entry>, tx: TxId)
    requires |ts| <= |PendingOf(d.journal)|
    requires forall m :: 0 <= m < |ts| ==> ts[m].txId == PendingOf(d.journal)[m].txId && !ts[m].receipt.status.Pending?
    ensures History(ts, tx) == []
         || (IsPending(Latest(d.journal, tx)) && (History(ts, tx) == [Committed] || History(ts, tx) == [RolledBack]))
  {
    hide PendingOf, Latest, History;
    var work := PendingOf(d.journal);
    PendingDistinct(d.journal);
    assert forall m :: 0 <= m < |ts| ==> TxIds(ts)[m] == TxIds(work)[m];
    HistoryOfDistinct(ts, tx);
    if m :| 0 <= m < |ts| && ts[m].txId == tx {
      PendingExactly(d.journal, work[m]);
      assert work[m] in work;
    }
  }

  lemma TerminalsHistory(d: Disk, ts: seq<Entry>, tx: TxId)
    requires |ts| <= |PendingOf(d.journal)|
    requires forall m :: 0 <= m < |ts| ==> ts[m] == TerminalFor(d, PendingOf(d.journal)[m])
    ensures History(ts, tx) == []
         || (IsPending(Latest(d.journal, tx)) && (History(ts, tx) == [Committed] || History(ts, tx) == [RolledBack]))
  {
    var work := PendingOf(d.journal);
    PendingDistinct(d.journal);
    assert forall m :: 0 <= m < |ts| ==> TxIds(ts)[m] == TxIds(work)[m];
    HistoryOfDistinct(ts, tx);
    if m :| 0 <= m < |ts| && ts[m].txId == tx {
      PendingExactly(d.journal, work[m]);
      assert work[m] in work;
    }
  }

  lemma StepKeepsTidy(d: Disk, e: Event, tx: TxId)
    requires Tidy(History(d.journal, tx))
    requires Installs(e, tx) ==> History(d.journal, tx) == []
    ensures Tidy(History(Step(d, e).journal, tx))
    ensures !Installs(e, tx) && History(d.journal, tx) == [] ==> History(Step(d, e).journal, tx) == []
  {
    match e
    case Install(req, desc, cut) =>
      CrashedInstallLines(d, req, desc, cut);
      InstallLinesHistory(d.journal, Appends(EventWrites(d, e)), req.tx, tx);
    case FailingInstall(req, desc, cut) =>
      FailedInstallLines(d, req, desc, cut);
      InstallLinesHistory(d.journal, Appends(EventWrites(d, e)), req.tx, tx);
    case Replay(cut) =>
      LatestIs(d.journal, tx);
      ReplayStepHistory(d, cut, tx);
    case FailingReplay(faults, cut) =>
      LatestIs(d.journal, tx);
      FailingReplayHistory(d, faults, cut, tx);
    case Tamper(_) =>
  }

  /** Over every run with unique transaction ids, crashes and failures anywhere: each transaction has
      at most one terminal line, after its one pending line; and a transaction no install of the run
      names has no line at all. */
  lemma {:induction false} RunKeepsJournalTidy(d: Disk, es: seq<Event>, tx: TxId)
    requires d.journal == [] && UniqueTxIds(es)
    ensures Tidy(History(Run(d, es).journal, tx))
    ensures (forall i :: 0 <= i < |es| ==> !Installs(es[i], tx)) ==> History(Run(d, es).journal, tx) == []
  {
    if es != [] {
      var init, last := es[..|es|-1], es[|es|-1];
      var before := Run(d, init);
      forall i, j, t | 0 <= i < j < |init| && Installs(init[i], t) ensures !Installs(init[j], t) {
        assert Installs(es[i], t);
        assert init[j] == es[j];
      }
      RunKeepsJournalTidy(d, init, tx);
      if Installs(last, tx) {
        forall i | 0 <= i < |init| ensures !Installs(init[i], tx) {
          assert init[i] == es[i] && Installs(es[|es|-1], tx);
        }
      }
      StepKeepsTidy(before, last, tx);
      assert forall i :: 0 <= i < |init| ==> init[i] == es[i];
    }
  }

  /** Once a replay finishes after any such run, no transaction is pending: each has no line, or its
      pending line followed by exactly one terminal line. */
  lemma RunThenReplayResolvesAll(d: Disk, es: seq<Event>, tx: TxId)
    requires d.journal == [] && UniqueTxIds(es)
    ensures var h := History(Replayed(Run(d, es)).journal, tx);
            h == [] || h == [Pending, Committed] || h == [Pending, RolledBack]
    ensures !IsPending(Latest(Replayed(Run(d, es)).journal, tx))
  {
    var before := Run(d, es);
    RunKeepsJournalTidy(d, es, tx);
    ReplayHistory(before, tx);
    LatestIs(before.journal, tx);
    LatestIs(Replayed(before).journal, tx);
  }

  /** In every run, at the moment a committed line reaches the journal the tree of its receipt is
      completely in place, whatever crashed or was tampered with before. */
  lemma RunCommitsOnlyInstalledTrees(d: Disk, es: seq<Event>, n: nat, k: nat)
    requires n < |es|
    requires k < |EventWrites(Run(d, es[..n]), es[n])|
    requires var w := EventWrites(Run(d, es[..n]), es[n])[k]; w.Append? && w.entry.receipt.status.Committed?
    ensures var before, did := Run(d, es[..n]), EventWrites(Run(d, es[..n]), es[n]);
            TreeInstalled(Apply(before, did[..k]), did[k].entry.receipt)
  {
    hide InstallWrites, ReplayWrites, FaultyReplayWrites, TreeInstalled, Run;
    var before, e := Run(d, es[..n]), es[n];
    var did := EventWrites(before, e);
    match e
    case Replay(cut) =>
      assert did[..k] == ReplayWrites(before)[..k];
      ReplayCommitsOnlyInstalledTrees(before, k);
    case FailingReplay(faults, cut) =>
      assert did[..k] == FaultyReplayWrites(before, faults)[..k];
      FaultyReplayCommitsOnlyInstalledTrees(before, faults, k);
    case Install(req, desc, cut) =>
      assert did[..k] == InstallWrites(before, req, desc)[..k];
      InstallCommitsOnlyInstalledTrees(before, req, desc, k);
    case FailingInstall(req, desc, cut) =>
      var ws := InstallWrites(before, req, desc);
      if cut < |ws| { assert did == ws[..cut] + CatchWrites(req, desc, cut); }
      assert did[..k] == ws[..k];
      InstallCommitsOnlyInstalledTrees(before, req, desc, k);
    case Tamper(_) =>
  }

  // ---- what happens to a committed tree later ---------------------------------------------

  /** Can event e write into (or change) `plugins/<id>@<version>/`? */
  predicate AimsAt(d: Disk, e: Event, id: string, version: string) {
    match e
    case Install(req, desc, _) => AimedBy(req, desc, id, version)
    case FailingInstall(req, desc, _) => AimedBy(req, desc, id, version)
    case Replay(_) => exists i :: 0 <= i < |PendingOf(d.journal)| && PendingFor(PendingOf(d.journal)[i], id, version)
    case FailingReplay(_, _) => exists i :: 0 <= i < |PendingOf(d.journal)| && PendingFor(PendingOf(d.journal)[i], id, version)
    case Tamper(_) => true
  }

  predicate AimedBy(req: Request, desc: Descriptor, id: string, version: string) {
    Admit(req, desc).Success? && req.package.value.manifest.id == id && req.package.value.manifest.version == version
  }

  predicate PendingFor(e: Entry, id: string, version: string) {
    e.receipt.id == id && e.receipt.version == version
  }

  ghost predicate WritesOutside(ws: seq<Write>, id: string, version: string) {
    forall i :: 0 <= i < |ws| && ws[i].Put? && ws[i].path.Installed? ==> ws[i].path.id != id || ws[i].path.version != version
  }

  lemma InstallWritesOutside(d: Disk, req: Request, desc: Descriptor, id: string, version: string)
    requires !AimedBy(req, desc, id, version)
    ensures WritesOutside(InstallWrites(d, req, desc), id, version)
  {
    if Admit(req, desc).Success? {
      var p := Admit(req, desc).value;
      StagingPhaseShape(req, p);
      var mid := Apply(d, StagingPhase(req, p));
      assert WritesOutside(ClosingWrites(mid, req, p), id, version);
    }
  }

  lemma ReplayWritesOutside(d: Disk, id: string, version: string)
    requires !AimsAt(d, Replay(0), id, version)
    ensures WritesOutside(ReplayWrites(d), id, version)
  {
    forall k | 0 <= k < |ReplayWrites(d)| && ReplayWrites(d)[k].Put?
      ensures ReplayWrites(d)[k].path.Installed?
      ensures ReplayWrites(d)[k].path.id != id || ReplayWrites(d)[k].path.version != version
    {
      ReplayPutsOnlyVerifiedFiles(d, k);
      var e, rel :| e in PendingOf(d.journal) && Staged(e.txId, rel) in d.files
        && ReplayWrites(d)[k] == Put(Installed(e.receipt.id, e.receipt.version, rel), d.files[Staged(e.txId, rel)]);
      var i :| 0 <= i < |PendingOf(d.journal)| && PendingOf(d.journal)[i] == e;
      assert !PendingFor(e, id, version);
    }
  }

  lemma FailingReplayWritesOutside(d: Disk, faults: seq<nat>, id: string, version: string)
    requires !AimsAt(d, Replay(0), id, version)
    ensures WritesOutside(FaultyReplayWrites(d, faults), id, version)
  {
    forall k | 0 <= k < |FaultyReplayWrites(d, faults)| && FaultyReplayWrites(d, faults)[k].Put?
      ensures FaultyReplayWrites(d, faults)[k].path.Installed?
      ensures FaultyReplayWrites(d, faults)[k].path.id != id || FaultyReplayWrites(d, faults)[k].path.version != version
    {
      FaultyReplayPutsArePlainPuts(d, faults, k);
      var i, r :| 0 <= i < |PendingOf(d.journal)| && 0 <= r < |RecoverWrites(d, PendingOf(d.journal)[i])|
        && FaultyReplayWrites(d, faults)[k] == RecoverWrites(d, PendingOf(d.journal)[i])[r];
      RecoveryPutsItsOwn(d, PendingOf(d.journal)[i], r);
      assert !PendingFor(PendingOf(d.journal)[i], id, version);
    }
  }

  lemma RecoveryPutsItsOwn(d: Disk, e: Entry, r: nat)
    requires r < |RecoverWrites(d, e)| && RecoverWrites(d, e)[r].Put?
    ensures var p := RecoverWrites(d, e)[r].path; p.Installed? && p.id == e.receipt.id && p.version == e.receipt.version
  {}

  /** A committed tree stays whole through every install, replay and crash that is not about the
      same id and version. */
  lemma CommittedTreeSurvives(d: Disk, e: Event, receipt: Receipt)
    requires TreeInstalled(d, receipt) && !AimsAt(d, e, receipt.id, receipt.version)
    ensures TreeInstalled(Step(d, e), receipt)
  {
    var did := EventWrites(d, e);
    match e {
      case Install(req, desc, cut) => InstallWritesOutside(d, req, desc, receipt.id, receipt.version);
      case FailingInstall(req, desc, cut) =>
        InstallWritesOutside(d, req, desc, receipt.id, receipt.version);
      case Replay(cut) => ReplayWritesOutside(d, receipt.id, receipt.version);
      case FailingReplay(faults, cut) => FailingReplayWritesOutside(d, faults, receipt.id, receipt.version);
      case Tamper(_) =>
    }
    assert WritesOutside(did, receipt.id, receipt.version);
    forall rel ensures Installed(receipt.id, receipt.version, rel) !in Overlay(did) {
      OverlayKeys(did, Installed(receipt.id, receipt.version, rel));
    }
    var ledger := d.files[Installed(receipt.id, receipt.version, INTEGRITY)].files;
    forall i | 0 <= i < |ledger| ensures InstalledAt(Step(d, e), receipt, ledger[i]) {
      assert InstalledAt(d, receipt, ledger[i]);
    }
  }

  // ---- a throw instead of a crash ------------------------------------------------------------

  /** After a failing install the receipt file and the journal disagree, the file saying committed
      and the journal rolled-back, exactly when the throwing write is the final journal line. */
  lemma ReceiptContradictsJournalExactly(d: Disk, req: Request, desc: Descriptor, cut: nat)
    requires Admit(req, desc).Success? && req.journal && ReceiptFile(req.tx) !in d.files
    requires Verified(d, req, Admit(req, desc).value)
    requires cut < |InstallWrites(d, req, desc)|
    ensures var after := Step(d, FailingInstall(req, desc, cut));
            (|| cut < 2
             || (Latest(after.journal, req.tx).Some? && Latest(after.journal, req.tx).value.receipt.status.RolledBack?))
            && (ReceiptFile(req.tx) in after.files <==> cut == |InstallWrites(d, req, desc)| - 1)
  {
    hide InstallWrites, Admit, Verified, Overlay, Appends, Latest, TreeSha;
    var p, ws := Admit(req, desc).value, InstallWrites(d, req, desc);
    var did := FailedInstallWrites(d, req, desc, cut);
    ReceiptPutPosition(d, req, desc);
    assert forall i :: 0 <= i < cut ==> did[i] == ws[i];
    OverlayKeys(did, ReceiptFile(req.tx));
    if cut == |ws| - 1 { assert did[|ws| - 2] == ReceiptPut(req, p); }
    if cut >= 2 { FailureJournalsRolledBack(d, req, desc, cut); }
  }

  lemma FailureJournalsRolledBack(d: Disk, req: Request, desc: Descriptor, cut: nat)
    requires Admit(req, desc).Success? && req.journal
    requires 2 <= cut < |InstallWrites(d, req, desc)|
    ensures var last := Latest(Step(d, FailingInstall(req, desc, cut)).journal, req.tx);
            last.Some? && last.value.receipt.status.RolledBack?
  {
    hide InstallWrites, Admit, Overlay, Appends, TreeSha;
    var p, ws := Admit(req, desc).value, InstallWrites(d, req, desc);
    var e := Entry(req.tx, ReceiptOf(req, p, RolledBack));
    AppendsConcat(ws[..cut], CatchWrites(req, desc, cut));
    JournaledAppends(req, p, RolledBack);
    assert Step(d, FailingInstall(req, desc, cut)).journal == (d.journal + Appends(ws[..cut])) + [e];
  }

  /** A verified journaled install puts its receipt file in its last write but one, and nowhere else. */
  lemma ReceiptPutPosition(d: Disk, req: Request, desc: Descriptor)
    requires Admit(req, desc).Success? && req.journal && Verified(d, req, Admit(req, desc).value)
    ensures var ws := InstallWrites(d, req, desc);
            |ws| >= 3 && forall i :: 0 <= i < |ws| && ws[i].Put? ==>
              (ws[i].path.ReceiptFile? <==> i == |ws| - 2) && (i == |ws| - 2 ==> ws[i] == ReceiptPut(req, Admit(req, desc).value))
    ensures var ws := InstallWrites(d, req, desc); ws[|ws| - 2].Put?
  {
    var p, ws := Admit(req, desc).value, InstallWrites(d, req, desc);
    var staging := StagingPhase(req, p);
    var copied := staging + CopyWrites(Apply(d, staging), req, p);
    assert ws == copied + [ReceiptPut(req, p)] + Journaled(req, p, Committed);
    StagingPhaseShape(req, p);
    forall i | 0 <= i < |copied| && copied[i].Put? ensures !copied[i].path.ReceiptFile? {
      if i < |staging| { assert copied[i] == staging[i]; }
    }
    assert forall i :: 0 <= i < |copied| ==> ws[i] == copied[i];
  }
}
