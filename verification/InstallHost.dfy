/** The pipeline and the replay as the host runs them, one fs call at a time, each of which may
    complete, throw, or be where the host crashes. Every method is proved against the write
    sequences of InstallTransaction and ReceiptJournal. */
module InstallHost {
  import opened Wrappers
  import opened InstallDisk
  import opened ReceiptJournal
  import opened ReplayConvergence
  import opened ReplayFaults
  import opened InstallTransaction
  import opened InstallRuns

  /** How one fs call, or a step made of several, ended. `Drifted`: a digest did not match or a file
      was missing, with no I/O error. */
  datatype Fate = Done | Drifted | Threw | Crashed

  /** `Failed`: an fs call threw, and the catch did its part; `CatchFailed`: so did the append in the catch. */
  datatype Outcome = Completed(receipt: Receipt) | Rejected(code: Code) | Failed | CatchFailed | Died

  lemma CopyKeepsStaging(start: Disk, before: seq<Write>, copy: seq<Write>, i: nat)
    requires i <= |copy|
    requires forall n :: 0 <= n < |copy| ==> OutsideStaging(copy[n])
    ensures SameStaging(Apply(start, before), Apply(start, before + copy[..i]))
  {
    hide Overlay, Appends;
    ApplyConcat(start, before, copy[..i]);
    OutsideStagingKeeps(Apply(start, before), copy[..i]);
  }

  class Gateway {
    var disk: Disk
    /** The disk when the running operation began, what it wrote since, and whether an fs call threw. */
    ghost var start: Disk
    ghost var log: seq<Write>
    ghost var faulted: bool

    ghost predicate Valid()
      reads this
    {
      disk == Apply(start, log)
    }

    constructor (disk: Disk)
      ensures Valid() && this.disk == disk && log == []
    {
      this.disk, start, log, faulted := disk, disk, [], false;
    }

    /** A new operation: from here on `log` is what it wrote. */
    ghost method Begin()
      modifies `start, `log, `faulted
      ensures Valid() && start == disk && log == [] && !faulted
    {
      start, log, faulted := disk, [], false;
    }

    // ---- fs calls --------------------------------------------------------------------

    method FsWrite(w: Write) returns (fate: Fate)
      requires Valid()
      modifies this
      ensures Valid() && start == old(start)
      ensures fate == Done || fate == Threw || fate == Crashed
      ensures fate == Done ==> log == old(log) + [w]
      ensures fate != Done ==> log == old(log) && disk == old(disk)
      ensures faulted == (old(faulted) || fate == Threw)
    {
      fate := *;
      if fate == Done {
        match w {
          case Put(p, c) => disk := disk.(files := disk.files[p := c]);
          case Append(e) => disk := disk.(journal := disk.journal + [e]);
        }
        ApplyConcat(start, log, [w]);
        assert [w][..0] == [];
        log := log + [w];
      } else if fate == Threw {
        faulted := true;
      } else {
        fate := Crashed;
      }
    }

    /** Read a file; a missing one is an error of the call, not a fault of the storage. */
    method FsRead(p: Path) returns (fate: Fate, content: Option<Content>)
      modifies `faulted
      ensures fate == Done ==> p in disk.files && content == Some(disk.files[p])
      ensures fate == Drifted ==> p !in disk.files
      ensures faulted == (old(faulted) || fate == Threw)
    {
      fate, content := *, None;
      if fate == Threw {
        faulted := true;
      } else if fate != Crashed {
        if p in disk.files { fate, content := Done, Some(disk.files[p]); } else { fate := Drifted; }
      }
    }

    /** `readBack` / `readBackVerified`: read and compare with the expected digest. */
    method ReadBack(p: Path, want: Digest) returns (fate: Fate)
      modifies `faulted
      ensures fate == Done ==> p in disk.files && Sha256(disk.files[p]) == want
      ensures fate == Drifted ==> !(p in disk.files && Sha256(disk.files[p]) == want)
      ensures faulted == (old(faulted) || fate == Threw)
    {
      var content;
      fate, content := FsRead(p);
      if fate == Done && Sha256(content.value) != want { fate := Drifted; }
    }

    // ---- installPackage -----------------------------------------------------------------

    method StageTree(req: Request, p: Package) returns (fate: Fate)
      requires Valid()
      modifies this
      ensures Valid() && start == old(start)
      ensures fate == Done || fate == Threw || fate == Crashed
      ensures var all := StageWrites(req.tx, p.files) + [Put(Staged(req.tx, INTEGRITY), LedgerDoc(LedgerOf(p.files)))];
              && old(log) <= log && log[|old(log)|..] <= all
              && (fate == Done ==> log == old(log) + all)
      ensures faulted == (old(faulted) || fate == Threw)
    {
      hide Apply, Overlay, Appends, LedgerOf;
      ghost var before := log;
      ghost var stage := StageWrites(req.tx, p.files);
      for i := 0 to |p.files|
        invariant Valid() && start == old(start) && faulted == old(faulted)
        invariant log == before + stage[..i]
      {
        fate := FsWrite(Put(Staged(req.tx, p.files[i].rel), p.files[i].content));
        if fate != Done { assert log[|before|..] == stage[..i]; return; }
        assert stage[..i] + [stage[i]] == stage[..i+1];
      }
      assert stage[..|stage|] == stage;
      fate := FsWrite(Put(Staged(req.tx, INTEGRITY), LedgerDoc(LedgerOf(p.files))));
      assert fate != Done ==> log[|before|..] == stage;
    }

    /** The read-back of every listed file and of the ledger itself. */
    method VerifyTree(tx: TxId, ledger: seq<LedgerEntry>, treeSha: Digest) returns (fate: Fate)
      modifies `faulted
      ensures fate == Done ==> StagedLedger(disk, tx, ledger) && Staged(tx, INTEGRITY) in disk.files
                               && Sha256(disk.files[Staged(tx, INTEGRITY)]) == treeSha
      ensures fate == Drifted ==>
                !(StagedLedger(disk, tx, ledger) && Staged(tx, INTEGRITY) in disk.files
                  && Sha256(disk.files[Staged(tx, INTEGRITY)]) == treeSha)
      ensures faulted == (old(faulted) || fate == Threw)
    {
      for i := 0 to |ledger|
        invariant faulted == old(faulted)
        invariant forall n :: 0 <= n < i ==> StagedAt(disk, tx, ledger[n])
      {
        fate := ReadBack(Staged(tx, ledger[i].rel), ledger[i].digest);
        if fate != Done {
          assert fate == Drifted ==> !StagedAt(disk, tx, ledger[i]);
          return;
        }
      }
      fate := ReadBack(Staged(tx, INTEGRITY), treeSha);
    }

    /** Copy the verified staging tree into the final directory. */
    method Promote(tx: TxId, id: string, version: string, names: seq<string>) returns (fate: Fate)
      requires Valid()
      requires forall i :: 0 <= i < |names| ==> Staged(tx, names[i]) in disk.files
      modifies this
      ensures Valid() && start == old(start)
      ensures fate == Done || fate == Threw || fate == Crashed
      ensures var all := PromoteWrites(old(disk), tx, id, version, names);
              && old(log) <= log && log[|old(log)|..] <= all
              && (fate == Done ==> log == old(log) + all)
      ensures faulted == (old(faulted) || fate == Threw)
    {
      hide Apply, Overlay, Appends;
      ghost var from, before := disk, log;
      ghost var all := PromoteWrites(from, tx, id, version, names);
      assert all[..0] == [];
      for i := 0 to |names|
        invariant Valid() && start == old(start)
        invariant log == before + all[..i]
        invariant faulted == old(faulted)
        invariant SameStaging(from, disk)
      {
        var content;
        fate, content := FsRead(Staged(tx, names[i]));
        assert fate != Drifted;
        if fate != Done { assert log[|before|..] == all[..i]; return; }
        fate := FsWrite(Put(Installed(id, version, names[i]), content.value));
        if fate != Done { assert log[|before|..] == all[..i]; return; }
        assert all[..i] + [all[i]] == all[..i+1];
        CopyKeepsStaging(start, before, all, i + 1);
      }
      assert all[..|names|] == all;
      fate := Done;
    }

    /** Promote the verified tree, write the receipt, journal the committed line. */
    method Commit(req: Request, p: Package) returns (fate: Fate)
      requires Valid() && log == StagingPhase(req, p) && Verified(start, req, p)
      requires StagedLedger(disk, req.tx, LedgerOf(p.files)) && Staged(req.tx, INTEGRITY) in disk.files
      requires disk.files[Staged(req.tx, INTEGRITY)] == LedgerDoc(LedgerOf(p.files))
      modifies this
      ensures Valid() && start == old(start)
      ensures fate == Done || fate == Threw || fate == Crashed
      ensures var ws := StagingPhase(req, p) + ClosingWrites(Apply(start, StagingPhase(req, p)), req, p);
              old(log) <= log <= ws && (fate == Done ==> log == ws)
      ensures faulted == (old(faulted) || fate == Threw)
    {
      hide Overlay, Appends, Journaled, StagingPhase, ReceiptOf, StageWrites;
      ghost var staging := StagingPhase(req, p);
      ghost var closing := ClosingWrites(Apply(start, staging), req, p);
      ghost var copy := CopyWrites(disk, req, p);
      ghost var rest := [ReceiptPut(req, p)] + Journaled(req, p, Committed);
      assert closing == copy + rest;
      LedgerNamesStaged(disk, req.tx, LedgerOf(p.files));
      fate := Promote(req.tx, p.manifest.id, p.manifest.version, LedgerRels(LedgerOf(p.files)) + [INTEGRITY]);
      if fate != Done {
        assert log == staging + log[|staging|..];
        PrefixOfPrefix(staging, log[|staging|..], copy, rest);
        return;
      }
      assert staging + closing == log + rest;
      fate := FsWrite(ReceiptPut(req, p));
      if fate != Done { return; }
      assert staging + closing == log + Journaled(req, p, Committed);
      JournaledIsOneLine(req, p, Committed);
      if req.journal {
        fate := FsWrite(Append(Entry(req.tx, ReceiptOf(req, p, Committed))));
      }
    }

    /** The try block: stage, read back, promote, receipt, committed line. */
    method Transaction(req: Request, p: Package) returns (fate: Fate)
      requires Valid() && log == BlobWrites(req) + Journaled(req, p, Pending)
      modifies this
      ensures Valid() && start == old(start)
      ensures var staging := StagingPhase(req, p);
              var ws := staging + ClosingWrites(Apply(start, staging), req, p);
              && old(log) <= log <= ws
              && (fate == Done ==> log == ws && Verified(start, req, p))
              && (fate == Drifted ==> log == staging && !Verified(start, req, p))
      ensures faulted == (old(faulted) || fate == Threw)
    {
      hide Overlay, Appends, Journaled, BlobWrites, ReceiptOf, StageWrites;
      ghost var staging := StagingPhase(req, p);
      ghost var closing := ClosingWrites(Apply(start, staging), req, p);
      ghost var stage := StageWrites(req.tx, p.files) + [Put(Staged(req.tx, INTEGRITY), LedgerDoc(LedgerOf(p.files)))];
      assert staging == old(log) + stage;
      fate := StageTree(req, p);
      assert log == old(log) + log[|old(log)|..];
      if fate != Done { assert log <= staging <= staging + closing; return; }
      assert staging <= staging + closing;
      StagedLedgerReads(start, req, p);
      fate := VerifyTree(req.tx, LedgerOf(p.files), TreeSha(p.files));
      if fate == Drifted {
        assert !Verified(start, req, p);
        return;
      }
      if fate != Done { return; }
      assert Verified(start, req, p);
      fate := Commit(req, p);
    }

    /** One installPackage call. `k` is how many of the transaction's writes got done. */
    method InstallPackage(req: Request, desc: Descriptor) returns (out: Outcome, ghost k: nat)
      requires Valid()
      modifies this
      ensures Valid() && start == old(disk)
      ensures k <= |InstallWrites(start, req, desc)|
      ensures out.Completed? ==>
                && log == InstallWrites(start, req, desc)
                && Admit(req, desc).Success? && Verified(start, req, Admit(req, desc).value)
                && out.receipt == ReceiptOf(req, Admit(req, desc).value, Committed)
      ensures out.Rejected? ==>
                && log == InstallWrites(start, req, desc)
                && (Admit(req, desc) == Failure(out.code)
                    || (Admit(req, desc).Success? && !Verified(start, req, Admit(req, desc).value) && out.code == Storage))
      ensures out.Died? ==> log == InstallWrites(start, req, desc)[..k]
      ensures out.Failed? ==> faulted && log == InstallWrites(start, req, desc)[..k] + CatchWrites(req, desc, k)
      ensures out.CatchFailed? ==>
                faulted && log == InstallWrites(start, req, desc)[..k] && CatchWrites(req, desc, k) != []
    {
      hide Overlay, Appends, ClosingWrites, StagingPhase, Admit, ReceiptOf;
      Begin();
      k := 0;
      ghost var ws := InstallWrites(disk, req, desc);
      StartOfInstall(disk, req, desc);
      var fate := FsWrite(BlobWrites(req)[0]);
      if fate != Done { return if fate == Threw then Failed else Died, 0; }
      k := 1;
      BlobReads(start, req);
      fate := ReadBack(Blob(Sha256(req.bytes)), Sha256(req.bytes));
      assert log == BlobWrites(req);
      assert fate != Drifted;
      if fate != Done { return if fate == Threw then Failed else Died, 1; }
      var admitted := Admit(req, desc);
      if admitted.Failure? { return Rejected(admitted.error), 1; }
      var p := admitted.value;
      JournaledIsOneLine(req, p, Pending);
      if req.journal {
        fate := FsWrite(Append(Entry(req.tx, ReceiptOf(req, p, Pending))));
        if fate != Done { return if fate == Threw then Failed else Died, 1; }
      }
      fate := Transaction(req, p);
      k := |log|;
      assert log == ws[..k];
      if fate == Done { return Completed(ReceiptOf(req, p, Committed)), k; }
      if fate == Crashed { return Died, k; }
      JournaledIsOneLine(req, p, RolledBack);
      RejectedClosing(start, req, p);
      if req.journal {
        var caught := FsWrite(Append(Entry(req.tx, ReceiptOf(req, p, RolledBack))));
        if caught != Done { return if caught == Threw then CatchFailed else Died, k; }
      }
      if fate == Drifted { return Rejected(Storage), k; }
      return Failed, k;
    }

    // ---- the startup replay ----------------------------------------------------------------

    /** `recoverOne`: verify the staged tree, promote it, append the committed line. It throws
        (`Drifted`) before writing anything when the tree does not verify. */
    method RecoverOne(e: Entry) returns (fate: Fate)
      requires Valid()
      modifies this
      ensures Valid() && start == old(start) && old(log) <= log
      ensures var all := RecoverWrites(old(disk), e);
              && log[|old(log)|..] <= all
              && (fate == Done ==> log == old(log) + all)
              && (fate == Threw ==> |log| < |old(log)| + |all|)
              && (fate == Drifted ==> log == old(log) && all == [Append(RolledBackEntry(e))])
      ensures faulted == (old(faulted) || fate == Threw)
    {
      RecoverShape(disk, e);
      hide Apply, Overlay, Appends;
      ghost var all := RecoverWrites(disk, e);
      var integ;
      fate, integ := FsRead(Staged(e.txId, INTEGRITY));
      if fate != Done { return; }
      if e.receipt.treeSha != Some(Sha256(integ.value)) || !integ.value.LedgerDoc? { return Drifted; }
      fate := VerifyTree(e.txId, integ.value.files, Sha256(integ.value));
      if fate != Done { return; }
      LedgerNamesStaged(disk, e.txId, integ.value.files);
      var names := LedgerRels(integ.value.files) + [INTEGRITY];
      ghost var copy := PromoteWrites(disk, e.txId, e.receipt.id, e.receipt.version, names);
      assert all == copy + [Append(CommittedEntry(e))];
      fate := Promote(e.txId, e.receipt.id, e.receipt.version, names);
      if fate != Done { assert copy <= all; return; }
      assert log[|old(log)|..] == copy;
      fate := FsWrite(Append(CommittedEntry(e)));
    }

    /** The startup replay. Its writes are those of a replay with some faults, all of them when it finishes
        and a prefix when it crashes or the append in the catch throws; unless an fs call threw they are
        those of ReplayWrites. A journal it could not read is taken for an empty one. */
    method ReplayPendingReceipts() returns (fate: Fate, committed: nat, rolledBack: nat, ghost read: bool, ghost faults: seq<nat>)
      requires Valid()
      modifies this
      ensures Valid() && start == old(disk)
      ensures read ==>
                log <= FaultyReplayWrites(start, faults) && |faults| <= |PendingOf(start.journal)|
      ensures read && fate == Done ==>
                log == FaultyReplayWrites(start, faults) && committed + rolledBack == |PendingOf(start.journal)|
      ensures !read ==> log == [] && (faulted || fate == Crashed)
      ensures !faulted && fate == Done ==> log == ReplayWrites(start) && disk == Replayed(start)
      ensures !faulted ==> fate == Done || (fate == Crashed && log <= ReplayWrites(start))
    {
      hide Apply, Overlay, Appends, RecoverWrites, PendingAmong, FaultyRecovery, FaultyRecoverAll, RecoverAll, Faultless;
      Begin();
      committed, rolledBack, faults, read := 0, 0, [], false;
      var entries: seq<Entry>;
      fate, entries := ReadJournal();
      if fate == Crashed { return; }
      var work := PendingTransactions(entries);
      read := entries == disk.journal;
      if !read { NothingPending(); }
      FaultyNothing(start, []);
      assert work[..0] == [];
      NoFaultsYet(start, work);
      SameStagingRefl(start);
      for i := 0 to |work|
        invariant Valid() && start == old(disk)
        invariant committed + rolledBack == i && |faults| == i
        invariant !read ==> work == [] && faulted
        invariant log == FaultyRecoverAll(start, work[..i], faults) && SameStaging(start, disk)
        invariant !faulted ==> Faultless(start, work, faults)
      {
        ghost var before, block := log, RecoverWrites(start, work[i]);
        RecoverDependsOnStaging(start, disk, work[i]);
        fate := RecoverOne(work[i]);
        ghost var part := log[|before|..];
        assert log == before + part;
        ghost var f := if fate == Threw then |part| else |block|;
        PartOfRecovery(start, work[i], part, f);
        FaultyStep(start, work, i, faults, f, part);
        if !faulted { OneMoreFaultless(start, work, faults); }
        faults := faults + [f];
        if fate == Crashed {
          if !faulted { FaultlessIsPlain(start, work, faults); }
          return;
        }
        if fate == Done {
          committed := committed + 1;
        } else {
          fate := FsWrite(Append(RolledBackEntry(work[i])));
          if fate != Done {
            if !faulted { FaultlessIsPlain(start, work, faults); }
            return;
          }
          rolledBack := rolledBack + 1;
        }
        FaultyKeepsStaging(start, work[..i+1], faults);
      }
      assert work[..|work|] == work;
      if !faulted { FaultlessIsPlain(start, work, faults); }
      fate := Done;
    }

    /** `readJournal`: any failure to read it counts as a fresh install with no entries. */
    method ReadJournal() returns (fate: Fate, entries: seq<Entry>)
      modifies `faulted
      ensures fate == Done || fate == Crashed
      ensures !faulted ==> !old(faulted)
      ensures fate == Done ==> entries == disk.journal || (faulted && entries == [])
    {
      fate, entries := *, [];
      if fate == Threw { faulted := true; }
      if fate != Crashed {
        if fate != Threw { entries := disk.journal; }
        fate := Done;
      }
    }
  }

  // ---- facts the methods use --------------------------------------------------------------

  lemma SameStagingRefl(d: Disk)
    ensures SameStaging(d, d)
  {}

  lemma NothingPending()
    ensures PendingOf([]) == []
  {}

  lemma NoFaultsYet(d: Disk, es: seq<Entry>)
    ensures Faultless(d, es, [])
  {}

  lemma OneMoreFaultless(d: Disk, es: seq<Entry>, faults: seq<nat>)
    requires Faultless(d, es, faults) && |faults| < |es|
    ensures Faultless(d, es, faults + [|RecoverWrites(d, es[|faults|])|])
  {}

  /** The writes of a recovery cut short by a fault, with and without what its catch adds. */
  lemma PartOfRecovery(d: Disk, e: Entry, part: seq<Write>, f: nat)
    requires part <= RecoverWrites(d, e)
    requires f == |RecoverWrites(d, e)| || f == |part|
    ensures part <= FaultyRecovery(d, e, f)
    ensures f == |part| < |RecoverWrites(d, e)| ==> FaultyRecovery(d, e, f) == part + [Append(RolledBackEntry(e))]
    ensures f == |RecoverWrites(d, e)| ==> FaultyRecovery(d, e, f) == RecoverWrites(d, e)
  {
    hide RecoverWrites;
    assert part == RecoverWrites(d, e)[..|part|];
  }

  lemma PrefixOfPrefix(a: seq<Write>, part: seq<Write>, b: seq<Write>, c: seq<Write>)
    requires part <= b
    ensures a + part <= a + (b + c)
  {}

  lemma JournaledIsOneLine(req: Request, p: Package, status: Status)
    ensures Journaled(req, p, status)
         == if req.journal then [Append(Entry(req.tx, ReceiptOf(req, p, status)))] else []
  {}

  /** What VerifyTree checks on the staged disk is what `Verified` says of it. */
  lemma StagedLedgerReads(start: Disk, req: Request, p: Package)
    ensures var mid, ledger := Apply(start, StagingPhase(req, p)), LedgerOf(p.files);
            && Staged(req.tx, INTEGRITY) in mid.files
            && mid.files[Staged(req.tx, INTEGRITY)] == LedgerDoc(ledger)
            && (Verified(start, req, p) <==> StagedLedger(mid, req.tx, ledger))
  {
    var ledgerPut := [Put(Staged(req.tx, INTEGRITY), LedgerDoc(LedgerOf(p.files)))];
    var front := BlobWrites(req) + Journaled(req, p, Pending) + StageWrites(req.tx, p.files);
    assert StagingPhase(req, p) == front + ledgerPut;
    OverlayConcat(front, ledgerPut);
    OverlayOfOne(Staged(req.tx, INTEGRITY), LedgerDoc(LedgerOf(p.files)));
  }

  lemma LedgerNamesStaged(d: Disk, tx: TxId, ledger: seq<LedgerEntry>)
    requires StagedLedger(d, tx, ledger) && Staged(tx, INTEGRITY) in d.files
    ensures var names := LedgerRels(ledger) + [INTEGRITY];
            forall i :: 0 <= i < |names| ==> Staged(tx, names[i]) in d.files
  {
    assert forall i :: 0 <= i < |ledger| ==> StagedAt(d, tx, ledger[i]);
  }

  lemma StartOfInstall(d: Disk, req: Request, desc: Descriptor)
    ensures |InstallWrites(d, req, desc)| >= 1 && InstallWrites(d, req, desc)[..1] == BlobWrites(req)
    ensures Admit(req, desc).Success? ==>
              InstallWrites(d, req, desc)
              == StagingPhase(req, Admit(req, desc).value)
                 + ClosingWrites(Apply(d, StagingPhase(req, Admit(req, desc).value)), req, Admit(req, desc).value)
    ensures Admit(req, desc).Failure? ==> InstallWrites(d, req, desc) == BlobWrites(req)
  {}

  lemma BlobReads(d: Disk, req: Request)
    ensures var path := Blob(Sha256(req.bytes));
            path in Apply(d, BlobWrites(req)).files && Apply(d, BlobWrites(req)).files[path] == req.bytes
  {
    OverlayOfOne(Blob(Sha256(req.bytes)), req.bytes);
  }

  lemma RejectedClosing(d: Disk, req: Request, p: Package)
    ensures !Verified(d, req, p) ==>
              ClosingWrites(Apply(d, StagingPhase(req, p)), req, p) == Journaled(req, p, RolledBack)
  {}
}
