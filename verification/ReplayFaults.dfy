/** The startup replay when fs calls throw instead of crashing (runtime/dsh/receipt-journal.js:157-181):
    the catch journals rolled-back and the replay goes on. */
module ReplayFaults {
  import opened Wrappers
  import opened InstallDisk
  import opened ReceiptJournal
  import opened ReplayConvergence

  /** What one recovery writes when the fs call after its first `fault` writes throws; past the end none
      does. */
  function FaultyRecovery(d: Disk, e: Entry, fault: nat): seq<Write> {
    var ws := RecoverWrites(d, e);
    if fault < |ws| then ws[..fault] + [Append(RolledBackEntry(e))] else ws
  }

  /** A whole replay; recoveries beyond the listed faults have none. */
  function FaultyRecoverAll(d: Disk, es: seq<Entry>, faults: seq<nat>): seq<Write>
    decreases es
  {
    if es == [] then []
    else if faults == [] then RecoverWrites(d, es[0]) + FaultyRecoverAll(d, es[1..], [])
    else FaultyRecovery(d, es[0], faults[0]) + FaultyRecoverAll(d, es[1..], faults[1..])
  }

  function FaultyReplayWrites(d: Disk, faults: seq<nat>): seq<Write> {
    FaultyRecoverAll(d, PendingOf(d.journal), faults)
  }

  /** The entry a recovery appends: whatever happens, one terminal entry. */
  function FaultyTerminal(d: Disk, e: Entry, fault: nat): Entry {
    if fault < |RecoverWrites(d, e)| then RolledBackEntry(e) else TerminalFor(d, e)
  }

  function FaultAt(faults: seq<nat>, i: nat, none: nat): nat {
    if i < |faults| then faults[i] else none
  }

  lemma FaultyShape(d: Disk, e: Entry, fault: nat)
    ensures
      var ws := FaultyRecovery(d, e, fault);
      && |ws| >= 1
      && ws[|ws| - 1] == Append(FaultyTerminal(d, e, fault))
      && (forall i :: 0 <= i < |ws| - 1 ==> ws[i].Put? && ws[i].path.Installed? && i < |RecoverWrites(d, e)| && ws[i] == RecoverWrites(d, e)[i])
      && Appends(ws) == [FaultyTerminal(d, e, fault)]
  {
    RecoverShape(d, e);
    hide RecoverWrites;
    var ws := FaultyRecovery(d, e, fault);
    var puts := ws[..|ws| - 1];
    assert forall i :: 0 <= i < |puts| ==> puts[i] == ws[i] && puts[i].Put?;
    AppendsOfPuts(puts);
    assert ws == puts + [Append(FaultyTerminal(d, e, fault))];
  }

  lemma NoFault(d: Disk, e: Entry)
    ensures FaultyRecovery(d, e, |RecoverWrites(d, e)|) == RecoverWrites(d, e)
  {}

  /** The fault of the first recovery, and those of the rest. */
  function FirstFault(d: Disk, es: seq<Entry>, faults: seq<nat>): nat
    requires es != []
  {
    if faults == [] then |RecoverWrites(d, es[0])| else faults[0]
  }

  function LaterFaults(faults: seq<nat>): seq<nat> {
    if faults == [] then [] else faults[1..]
  }

  lemma FaultyUnfolds(d: Disk, es: seq<Entry>, faults: seq<nat>)
    requires es != []
    ensures FaultyRecoverAll(d, es, faults)
         == FaultyRecovery(d, es[0], FirstFault(d, es, faults)) + FaultyRecoverAll(d, es[1..], LaterFaults(faults))
  {
    NoFault(d, es[0]);
    hide RecoverWrites;
  }

  /** Every transaction on the work list gets one terminal line, and no other does. */
  lemma {:induction false} FaultyAllShape(d: Disk, es: seq<Entry>, faults: seq<nat>)
    ensures
      var ts := Appends(FaultyRecoverAll(d, es, faults));
      |ts| == |es| && forall i :: 0 <= i < |es| ==> ts[i].txId == es[i].txId && !ts[i].receipt.status.Pending?
    ensures forall i :: 0 <= i < |FaultyRecoverAll(d, es, faults)| ==> OutsideStaging(FaultyRecoverAll(d, es, faults)[i])
    decreases es
  {
    hide RecoverWrites, FaultyRecovery, FaultyRecoverAll, StageVerifies;
    if es == [] {
      assert FaultyRecoverAll(d, es, faults) == [] by { FaultyNothing(d, faults); }
    } else {
      var first, rest := FaultyRecovery(d, es[0], FirstFault(d, es, faults)), FaultyRecoverAll(d, es[1..], LaterFaults(faults));
      FaultyUnfolds(d, es, faults);
      FaultyShape(d, es[0], FirstFault(d, es, faults));
      FaultyAllShape(d, es[1..], LaterFaults(faults));
      AppendsConcat(first, rest);
      forall i | 0 < i < |es| ensures Appends(first + rest)[i] == Appends(rest)[i - 1] && es[i] == es[1..][i - 1] {}
    }
  }

  lemma FaultyNothing(d: Disk, faults: seq<nat>)
    ensures FaultyRecoverAll(d, [], faults) == []
  {}

  /** Any write of a faulty replay belongs to one recovery, whatever was written before it. */
  lemma {:induction false} FaultyPrefix(d: Disk, es: seq<Entry>, faults: seq<nat>, k: nat)
    returns (i: nat, fault: nat, r: nat, before: seq<Write>)
    requires k < |FaultyRecoverAll(d, es, faults)|
    ensures i < |es| && r < |FaultyRecovery(d, es[i], fault)|
    ensures FaultyRecoverAll(d, es, faults)[..k] == before + FaultyRecovery(d, es[i], fault)[..r]
    ensures FaultyRecoverAll(d, es, faults)[k] == FaultyRecovery(d, es[i], fault)[r]
    decreases es
  {
    hide FaultyRecovery, FaultyRecoverAll, FirstFault, LaterFaults;
    if es == [] { FaultyNothing(d, faults); }
    var block, tail := FaultyRecovery(d, es[0], FirstFault(d, es, faults)), FaultyRecoverAll(d, es[1..], LaterFaults(faults));
    FaultyUnfolds(d, es, faults);
    if k < |block| {
      i, fault, r, before := 0, FirstFault(d, es, faults), k, [];
      assert (block + tail)[..k] == [] + block[..k];
    } else {
      var m, inner;
      m, fault, r, inner := FaultyPrefix(d, es[1..], LaterFaults(faults), k - |block|);
      i, before := m + 1, block + inner;
      assert es[1..][m] == es[i];
      PrefixStep(block, tail, inner, FaultyRecovery(d, es[i], fault)[..r], k);
    }
  }

  /** A faulty replay too appends a committed line only when the tree is completely in place. */
  lemma FaultyReplayCommitsOnlyInstalledTrees(d: Disk, faults: seq<nat>, k: nat)
    requires k < |FaultyReplayWrites(d, faults)|
    requires var w := FaultyReplayWrites(d, faults)[k]; w.Append? && w.entry.receipt.status.Committed?
    ensures
      var ws := FaultyReplayWrites(d, faults);
      TreeInstalled(Apply(d, ws[..k]), ws[k].entry.receipt)
  {
    var i, fault, r, before := FaultyPrefix(d, PendingOf(d.journal), faults, k);
    var e := PendingOf(d.journal)[i];
    FaultyShape(d, e, fault);
    CommittedLast(d, e, fault, r);
    PromotionInstalls(d, before, e.txId, e.receipt);
    CommittedKeepsTree(Apply(d, before + RecoverWrites(d, e)[..r]), e.receipt);
  }

  /** A committed line of a recovery is its last write, and no fault came before it. */
  lemma CommittedLast(d: Disk, e: Entry, fault: nat, r: nat)
    requires r < |FaultyRecovery(d, e, fault)|
    requires var w := FaultyRecovery(d, e, fault)[r]; w.Append? && w.entry.receipt.status.Committed?
    ensures StageVerifies(d, e.txId, e.receipt.treeSha) && FaultyRecovery(d, e, fault) == RecoverWrites(d, e)
    ensures
      var ledger := d.files[Staged(e.txId, INTEGRITY)].files;
      && (forall i :: 0 <= i < |ledger| ==> StagedAt(d, e.txId, ledger[i]))
      && RecoverWrites(d, e)[..r] == PromoteWrites(d, e.txId, e.receipt.id, e.receipt.version, LedgerRels(ledger) + [INTEGRITY])
      && RecoverWrites(d, e)[r] == Append(CommittedEntry(e))
  {
    FaultyShape(d, e, fault);
    RecoverShape(d, e);
    assert r == |FaultyRecovery(d, e, fault)| - 1;
    assert fault >= |RecoverWrites(d, e)|;
    assert StageVerifies(d, e.txId, e.receipt.treeSha);
    var ledger := d.files[Staged(e.txId, INTEGRITY)].files;
    assert forall i :: 0 <= i < |ledger| ==> StagedAt(d, e.txId, ledger[i]);
  }

  lemma CommittedKeepsTree(d: Disk, receipt: Receipt)
    requires TreeInstalled(d, receipt)
    ensures TreeInstalled(d, receipt.(status := Committed))
  {
    assert forall e :: InstalledAt(d, receipt, e) ==> InstalledAt(d, receipt.(status := Committed), e);
  }

  /** It writes no file an undisturbed replay would not write. */
  lemma FaultyReplayPutsArePlainPuts(d: Disk, faults: seq<nat>, k: nat)
    requires k < |FaultyReplayWrites(d, faults)| && FaultyReplayWrites(d, faults)[k].Put?
    ensures exists i, r :: 0 <= i < |PendingOf(d.journal)| && 0 <= r < |RecoverWrites(d, PendingOf(d.journal)[i])|
              && FaultyReplayWrites(d, faults)[k] == RecoverWrites(d, PendingOf(d.journal)[i])[r]
  {
    var i, fault, r, before := FaultyPrefix(d, PendingOf(d.journal), faults, k);
    FaultyShape(d, PendingOf(d.journal)[i], fault);
    hide RecoverWrites, FaultyReplayWrites;
    assert RecoverWrites(d, PendingOf(d.journal)[i])[r] == FaultyRecovery(d, PendingOf(d.journal)[i], fault)[r];
  }

  // ---- a replay step by step --------------------------------------------------------------------

  lemma {:induction false} FaultyConcat(d: Disk, a: seq<Entry>, b: seq<Entry>, fs: seq<nat>, gs: seq<nat>)
    requires |fs| == |a|
    ensures FaultyRecoverAll(d, a + b, fs + gs) == FaultyRecoverAll(d, a, fs) + FaultyRecoverAll(d, b, gs)
    decreases a
  {
    hide FaultyRecovery, RecoverWrites;
    if a == [] {
      assert a + b == b && fs + gs == gs;
    } else {
      assert (a + b)[1..] == a[1..] + b && (fs + gs)[1..] == fs[1..] + gs;
      FaultyConcat(d, a[1..], b, fs[1..], gs);
      var x, y, z := FaultyRecovery(d, a[0], fs[0]), FaultyRecoverAll(d, a[1..], fs[1..]), FaultyRecoverAll(d, b, gs);
      assert x + (y + z) == (x + y) + z;
    }
  }

  /** Once i recoveries are done, with a part of the next one. */
  lemma FaultyStep(d: Disk, es: seq<Entry>, i: nat, faults: seq<nat>, f: nat, part: seq<Write>)
    requires |faults| == i < |es| && part <= FaultyRecovery(d, es[i], f)
    ensures FaultyRecoverAll(d, es[..i + 1], faults + [f]) == FaultyRecoverAll(d, es[..i], faults) + FaultyRecovery(d, es[i], f)
    ensures FaultyRecoverAll(d, es[..i], faults) + part <= FaultyRecoverAll(d, es, faults + [f])
  {
    var one := [es[i]];
    assert one[1..] == [] && [f][1..] == [];
    FaultyNothing(d, []);
    assert FaultyRecoverAll(d, one, [f]) == FaultyRecovery(d, es[i], f) + FaultyRecoverAll(d, one[1..], [f][1..]);
    hide FaultyRecovery, FaultyRecoverAll;
    assert FaultyRecovery(d, es[i], f) + [] == FaultyRecovery(d, es[i], f);
    assert es[..i + 1] == es[..i] + one && es == es[..i + 1] + es[i + 1..] && faults + [f] == faults + [f] + [];
    FaultyConcat(d, es[..i], one, faults, [f]);
    FaultyConcat(d, es[..i + 1], es[i + 1..], faults + [f], []);
    var done, rest := FaultyRecoverAll(d, es[..i], faults), FaultyRecoverAll(d, es[i + 1..], []);
    assert done + part <= done + FaultyRecovery(d, es[i], f) <= (done + FaultyRecovery(d, es[i], f)) + rest;
  }

  /** None of the faults comes before the end of its recovery. */
  predicate Faultless(d: Disk, es: seq<Entry>, faults: seq<nat>) {
    |faults| <= |es| && forall i :: 0 <= i < |faults| ==> faults[i] == |RecoverWrites(d, es[i])|
  }

  lemma {:induction false} FaultlessIsPlain(d: Disk, es: seq<Entry>, faults: seq<nat>)
    requires Faultless(d, es, faults)
    ensures FaultyRecoverAll(d, es, faults) == RecoverAll(d, es)
    decreases es
  {
    if es != [] {
      NoFault(d, es[0]);
      hide FaultyRecovery, RecoverWrites;
      if faults == [] {
        FaultlessIsPlain(d, es[1..], []);
      } else {
        assert forall i :: 0 <= i < |faults| - 1 ==> faults[1..][i] == faults[i + 1] && es[1..][i] == es[i + 1];
        FaultlessIsPlain(d, es[1..], faults[1..]);
      }
    }
  }

  lemma FaultyKeepsStaging(d: Disk, es: seq<Entry>, faults: seq<nat>)
    ensures SameStaging(d, Apply(d, FaultyRecoverAll(d, es, faults)))
  {
    hide FaultyRecoverAll, Overlay, Appends;
    FaultyAllShape(d, es, faults);
    OutsideStagingKeeps(d, FaultyRecoverAll(d, es, faults));
  }
}
