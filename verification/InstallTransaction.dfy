/** The install transaction of runtime/dsh/install-pipeline.js as the writes it performs: blob,
    trust check, pending entry, stage, read-back, promote, receipt, committed entry. */
module InstallTransaction {
  import opened Wrappers
  import opened InstallDisk
  import opened ReceiptJournal
  import opened ReplayConvergence

  datatype File = File(rel: string, content: Content)

  /** `entry` is None for a web-client manifest, which has no entry field. */
  datatype Manifest = Manifest(id: string, version: string, entry: Option<string>, required: seq<string>)

  datatype Package = Package(manifest: Manifest, files: seq<File>)

  datatype Trust = Trust(blobSha: Digest, manifestSha: Digest)

  /** One call of installPackage. `package` is what tarRead, JSON.parse and validateManifest make
      of the bytes: None when one of them rejects. */
  datatype Request = Request(id: string, bytes: Content, package: Option<Package>, trust: Option<Trust>, tx: TxId, journal: bool)

  /** The host's RuntimeDescriptor as installed through the bridge. */
  datatype Descriptor = NotSet | Unparsable | Declares(available: seq<string>)

  datatype Code = Integrity | BadPackage | BadManifest | Capability | Storage

  // ---- admission: everything decided before the pending entry ----------------------

  predicate Satisfied(cap: string, available: seq<string>) {
    || cap == "gateway" || cap == "gateway@1"
    || cap in available
    || ('@' !in cap && exists i :: 0 <= i < |available| && (available[i] == cap || cap + "@" <= available[i]))
  }

  /** `negotiate`: an undeclared descriptor skips the check. */
  predicate Negotiates(required: seq<string>, d: Descriptor) {
    match d
    case NotSet => true
    case Unparsable => false
    case Declares(available) => forall i :: 0 <= i < |required| ==> Satisfied(required[i], available)
  }

  function FileNamed(files: seq<File>, rel: string): Option<Content> {
    if files == [] then None
    else if files[|files|-1].rel == rel then Some(files[|files|-1].content)
    else FileNamed(files[..|files|-1], rel)
  }

  /** The entry path is built from the manifest's entry field even when it is absent. */
  function EntryPath(m: Manifest): string {
    "bundle/" + if m.entry.Some? then m.entry.value else "undefined"
  }

  /** `verifyTrust`, `openPackage` and `negotiate`, in the source's order. */
  function Admit(req: Request, desc: Descriptor): Result<Package, Code> {
    if req.trust.None? || req.trust.value.blobSha != Sha256(req.bytes) then Failure(Integrity)
    else if req.package.None? then Failure(BadPackage)
    else
      var p := req.package.value;
      if FileNamed(p.files, "manifest.json").None? then Failure(BadPackage)
      else if p.manifest.id != req.id then Failure(BadManifest)
      else if FileNamed(p.files, EntryPath(p.manifest)).None? then Failure(BadPackage)
      else if req.trust.value.manifestSha != Sha256(FileNamed(p.files, "manifest.json").value) then Failure(Integrity)
      else if !Negotiates(p.manifest.required, desc) then Failure(Capability)
      else Success(p)
  }

  // ---- the writes ---------------------------------------------------------------------

  function LedgerOf(files: seq<File>): seq<LedgerEntry> {
    seq(|files|, i requires 0 <= i < |files| => LedgerEntry(files[i].rel, Sha256(files[i].content)))
  }

  function StageWrites(tx: TxId, files: seq<File>): seq<Write> {
    seq(|files|, i requires 0 <= i < |files| => Put(Staged(tx, files[i].rel), files[i].content))
  }

  function TreeSha(files: seq<File>): Digest {
    Sha256(LedgerDoc(LedgerOf(files)))
  }

  function ReceiptOf(req: Request, p: Package, status: Status): Receipt {
    Receipt(p.manifest.id, p.manifest.version, Sha256(req.bytes),
            if status.RolledBack? then None else Some(TreeSha(p.files)), status)
  }

  /** One journal line, when the caller opted into the journal. */
  function Journaled(req: Request, p: Package, status: Status): seq<Write> {
    if req.journal then [Append(Entry(req.tx, ReceiptOf(req, p, status)))] else []
  }

  function BlobWrites(req: Request): seq<Write> {
    [Put(Blob(Sha256(req.bytes)), req.bytes)]
  }

  /** From the pending entry to the staged ledger. */
  function OpeningWrites(req: Request, p: Package): seq<Write> {
    Journaled(req, p, Pending) + StageWrites(req.tx, p.files) + [Put(Staged(req.tx, INTEGRITY), LedgerDoc(LedgerOf(p.files)))]
  }

  /** The promotion of the verified staging tree on d. */
  function CopyWrites(d: Disk, req: Request, p: Package): seq<Write>
    requires StageVerifies(d, req.tx, Some(TreeSha(p.files)))
  {
    var ledger := d.files[Staged(req.tx, INTEGRITY)].files;
    assert forall i :: 0 <= i < |ledger| ==> StagedAt(d, req.tx, ledger[i]);
    PromoteWrites(d, req.tx, p.manifest.id, p.manifest.version, LedgerRels(ledger) + [INTEGRITY])
  }

  function ReceiptPut(req: Request, p: Package): Write {
    Put(ReceiptFile(req.tx), ReceiptDoc(ReceiptOf(req, p, Committed)))
  }

  /** From the read-back of the staged tree (d is the disk it reads) to the end. */
  function ClosingWrites(d: Disk, req: Request, p: Package): seq<Write> {
    if StageVerifies(d, req.tx, Some(TreeSha(p.files))) then
      CopyWrites(d, req, p) + [ReceiptPut(req, p)] + Journaled(req, p, Committed)
    else
      Journaled(req, p, RolledBack)
  }

  /** All the writes up to the read-back of the staged tree. */
  function StagingPhase(req: Request, p: Package): seq<Write> {
    BlobWrites(req) + OpeningWrites(req, p)
  }

  /** Everything an install that neither crashes nor hits an I/O error writes on disk d. */
  function InstallWrites(d: Disk, req: Request, desc: Descriptor): seq<Write> {
    match Admit(req, desc)
    case Failure(_) => BlobWrites(req)
    case Success(p) =>
      StagingPhase(req, p) + ClosingWrites(Apply(d, StagingPhase(req, p)), req, p)
  }

  // ---- what they achieve -----------------------------------------------------------------

  /** A rejected install writes no receipt and no journal line: only the content-addressed blob. */
  lemma RejectedWritesOnlyItsBlob(d: Disk, req: Request, desc: Descriptor)
    requires Admit(req, desc).Failure?
    ensures Apply(d, InstallWrites(d, req, desc))
         == d.(files := d.files[Blob(Sha256(req.bytes)) := req.bytes])
  {
    var ws := BlobWrites(req);
    assert ws[..0] == [];
    assert Overlay(ws) == map[Blob(Sha256(req.bytes)) := req.bytes];
    assert Appends(ws) == [];
  }

  ghost predicate UniqueNames(files: seq<File>) {
    forall i, j :: 0 <= i < j < |files| ==> files[i].rel != files[j].rel
  }

  /** The staged tree just written reads back, for every package whose member names are distinct
      and leave integrity.json to the ledger. */
  lemma StagedTreeVerifies(d: Disk, req: Request, p: Package)
    requires UniqueNames(p.files)
    requires forall i :: 0 <= i < |p.files| ==> p.files[i].rel != INTEGRITY
    ensures StageVerifies(Apply(d, StagingPhase(req, p)), req.tx, Some(TreeSha(p.files)))
  {
    var ledger := LedgerOf(p.files);
    var ws := StagingPhase(req, p);
    assert ws[|ws|-1] == Put(Staged(req.tx, INTEGRITY), LedgerDoc(ledger));
    forall i | 0 <= i < |ledger| ensures StagedAt(Apply(d, ws), req.tx, ledger[i]) {
      StagedFileReads(d, req, p, i);
    }
  }

  lemma StageOverlay(tx: TxId, files: seq<File>, i: nat)
    requires UniqueNames(files) && i < |files|
    ensures var path := Staged(tx, files[i].rel);
            path in Overlay(StageWrites(tx, files)) && Overlay(StageWrites(tx, files))[path] == files[i].content
  {
    var stage, path := StageWrites(tx, files), Staged(tx, files[i].rel);
    assert stage[i] == Put(path, files[i].content);
    OverlayKeys(stage, path);
    OverlayValue(stage, path, files[i].content);
  }

  lemma StagedFileReads(d: Disk, req: Request, p: Package, i: nat)
    requires UniqueNames(p.files) && i < |p.files| && p.files[i].rel != INTEGRITY
    ensures StagedAt(Apply(d, StagingPhase(req, p)), req.tx, LedgerOf(p.files)[i])
  {
    hide Overlay, Appends, BlobWrites, Journaled, StageWrites;
    var front, stage := BlobWrites(req) + Journaled(req, p, Pending), StageWrites(req.tx, p.files);
    var ledger := [Put(Staged(req.tx, INTEGRITY), LedgerDoc(LedgerOf(p.files)))];
    assert StagingPhase(req, p) == (front + stage) + ledger;
    OverlayConcat(front + stage, ledger);
    OverlayConcat(front, stage);
    OverlayOfOne(Staged(req.tx, INTEGRITY), LedgerDoc(LedgerOf(p.files)));
    StageOverlay(req.tx, p.files, i);
  }

  /** With distinct member names, the read-back succeeds exactly when no member is itself called
      integrity.json: such a member is overwritten by the ledger and can never verify. */
  lemma StagedTreeVerifiesExactly(d: Disk, req: Request, p: Package)
    requires UniqueNames(p.files)
    ensures Verified(d, req, p) <==> forall i :: 0 <= i < |p.files| ==> p.files[i].rel != INTEGRITY
  {
    if i :| 0 <= i < |p.files| && p.files[i].rel == INTEGRITY {
      var ws, ledger := StagingPhase(req, p), LedgerOf(p.files);
      assert ws[|ws|-1] == Put(Staged(req.tx, INTEGRITY), LedgerDoc(ledger));
      assert ledger[i].rel == INTEGRITY;
      assert !StagedAt(Apply(d, ws), req.tx, ledger[i]);
    } else {
      StagedTreeVerifies(d, req, p);
    }
  }

  lemma StagingPhaseShape(req: Request, p: Package)
    ensures var ws := StagingPhase(req, p);
            && (forall i :: 0 <= i < |ws| && ws[i].Append? ==> ws[i].entry.receipt.status.Pending?)
            && (forall i :: 0 <= i < |ws| && ws[i].Put? ==> ws[i].path.Blob? || ws[i].path.Staged?)
            && Appends(ws) == Appends(Journaled(req, p, Pending))
  {
    var ledgerPut := [Put(Staged(req.tx, INTEGRITY), LedgerDoc(LedgerOf(p.files)))];
    var pend, stage := Journaled(req, p, Pending), StageWrites(req.tx, p.files);
    AppendsOfPuts(BlobWrites(req));
    AppendsOfPuts(stage);
    AppendsOfPuts(ledgerPut);
    AppendsConcat(BlobWrites(req), OpeningWrites(req, p));
    AppendsConcat(pend + stage, ledgerPut);
    AppendsConcat(pend, stage);
  }

  /** Did the read-back of the staged tree succeed? */
  predicate Verified(d: Disk, req: Request, p: Package) {
    StageVerifies(Apply(d, StagingPhase(req, p)), req.tx, Some(TreeSha(p.files)))
  }

  lemma JournaledAppends(req: Request, p: Package, status: Status)
    ensures Appends(Journaled(req, p, status))
         == if req.journal then [Entry(req.tx, ReceiptOf(req, p, status))] else []
  {
    if req.journal {
      var e := Entry(req.tx, ReceiptOf(req, p, status));
      assert [Append(e)][..0] == [];
      assert Appends([Append(e)]) == [] + [e];
    }
  }

  /** The journal lines of one install: pending and then one terminal line, all under its own id. */
  function InstallEntries(d: Disk, req: Request, desc: Descriptor): seq<Entry> {
    if Admit(req, desc).Failure? || !req.journal then []
    else
      var p := Admit(req, desc).value;
      [Entry(req.tx, ReceiptOf(req, p, Pending)),
       Entry(req.tx, ReceiptOf(req, p, if Verified(d, req, p) then Committed else RolledBack))]
  }

  lemma ClosingAppends(d: Disk, req: Request, p: Package)
    ensures Appends(ClosingWrites(d, req, p))
         == Appends(Journaled(req, p, if StageVerifies(d, req.tx, Some(TreeSha(p.files))) then Committed else RolledBack))
  {
    if StageVerifies(d, req.tx, Some(TreeSha(p.files))) {
      var puts := CopyWrites(d, req, p) + [ReceiptPut(req, p)];
      AppendsOfPuts(puts);
      AppendsConcat(puts, Journaled(req, p, Committed));
      assert [] + Appends(Journaled(req, p, Committed)) == Appends(Journaled(req, p, Committed));
    }
  }

  lemma AdmittedAppends(d: Disk, req: Request, p: Package)
    ensures Appends(StagingPhase(req, p) + ClosingWrites(Apply(d, StagingPhase(req, p)), req, p))
         == Appends(Journaled(req, p, Pending)) + Appends(Journaled(req, p, if Verified(d, req, p) then Committed else RolledBack))
  {
    hide Appends, Overlay, StagingPhase, ClosingWrites, Journaled, StageVerifies, TreeSha;
    var mid := Apply(d, StagingPhase(req, p));
    StagingPhaseShape(req, p);
    ClosingAppends(mid, req, p);
    AppendsConcat(StagingPhase(req, p), ClosingWrites(mid, req, p));
  }

  lemma InstallAppends(d: Disk, req: Request, desc: Descriptor)
    ensures Appends(InstallWrites(d, req, desc)) == InstallEntries(d, req, desc)
  {
    hide Overlay, StagingPhase, ClosingWrites, ReceiptOf, Verified, TreeSha, Admit;
    if Admit(req, desc).Failure? {
      AppendsOfPuts(BlobWrites(req));
    } else {
      var p := Admit(req, desc).value;
      AdmittedAppends(d, req, p);
      JournaledAppends(req, p, Pending);
      JournaledAppends(req, p, if Verified(d, req, p) then Committed else RolledBack);
    }
  }

  /** What a crash cuts off is a suffix of the journal lines. */
  lemma AppendsPrefix(ws: seq<Write>, k: nat)
    requires k <= |ws|
    ensures Appends(ws[..k]) <= Appends(ws)
  {
    assert ws == ws[..k] + ws[k..];
    AppendsConcat(ws[..k], ws[k..]);
  }

  /** The writes that say committed: the receipt file and the committed journal line. */
  predicate IsCommit(w: Write) {
    match w
    case Put(path, _) => path.ReceiptFile?
    case Append(e) => e.receipt.status.Committed?
  }

  /** The receipt such a write carries. */
  function Vouched(w: Write): Option<Receipt> {
    match w
    case Append(e) => Some(e.receipt)
    case Put(_, c) => if c.ReceiptDoc? then Some(c.receipt) else None
  }

  lemma StagingHasNoCommit(req: Request, p: Package, i: nat)
    requires i < |StagingPhase(req, p)|
    ensures !IsCommit(StagingPhase(req, p)[i])
  {
    StagingPhaseShape(req, p);
    hide StagingPhase;
  }

  /** In the closing writes only a verified tree is committed, after its whole promotion. */
  lemma ClosingCommitsLast(d: Disk, req: Request, p: Package, i: nat)
    requires i < |ClosingWrites(d, req, p)| && IsCommit(ClosingWrites(d, req, p)[i])
    ensures StageVerifies(d, req.tx, Some(TreeSha(p.files)))
    ensures ClosingWrites(d, req, p) == CopyWrites(d, req, p) + [ReceiptPut(req, p)] + Journaled(req, p, Committed)
    ensures if ClosingWrites(d, req, p)[i].Put? then i == |CopyWrites(d, req, p)|
            else i == |CopyWrites(d, req, p)| + 1 && req.journal
                 && ClosingWrites(d, req, p)[i] == Append(Entry(req.tx, ReceiptOf(req, p, Committed)))
  {
    hide StageVerifies, TreeSha, ReceiptOf;
    assert ReceiptOf(req, p, RolledBack).status == RolledBack by { StatusOf(req, p, RolledBack); }
    if StageVerifies(d, req.tx, Some(TreeSha(p.files))) {
      CopiesAreInstalled(d, req, p);
      var copy := CopyWrites(d, req, p);
      hide CopyWrites;
      assert forall n :: 0 <= n < |copy| ==> ClosingWrites(d, req, p)[n] == copy[n];
    }
  }

  lemma StatusOf(req: Request, p: Package, status: Status)
    ensures ReceiptOf(req, p, status).status == status
  {}

  lemma CopiesAreInstalled(d: Disk, req: Request, p: Package)
    requires StageVerifies(d, req.tx, Some(TreeSha(p.files)))
    ensures forall n :: 0 <= n < |CopyWrites(d, req, p)| ==> CopyWrites(d, req, p)[n].Put? && CopyWrites(d, req, p)[n].path.Installed?
  {}

  /** The committed receipt and the committed journal line both come after the whole promotion. */
  lemma CommitComesLast(d: Disk, req: Request, desc: Descriptor, k: nat)
    requires k < |InstallWrites(d, req, desc)| && IsCommit(InstallWrites(d, req, desc)[k])
    ensures Admit(req, desc).Success? && Verified(d, req, Admit(req, desc).value)
    ensures var p := Admit(req, desc).value;
            var copied := StagingPhase(req, p) + CopyWrites(Apply(d, StagingPhase(req, p)), req, p);
            var ws := InstallWrites(d, req, desc);
            && ws == copied + [ReceiptPut(req, p)] + Journaled(req, p, Committed)
            && (ws[k].Put? ==> k == |copied|)
            && (ws[k].Append? ==> k == |copied| + 1 && req.journal && ws[k] == Append(Entry(req.tx, ReceiptOf(req, p, Committed))))
  {
    hide Overlay, Appends, Admit, StagingPhase, ClosingWrites, CopyWrites, Journaled, TreeSha, StageVerifies, ReceiptOf;
    if Admit(req, desc).Success? {
      var p := Admit(req, desc).value;
      var staging := StagingPhase(req, p);
      var mid := Apply(d, staging);
      assert InstallWrites(d, req, desc) == staging + ClosingWrites(mid, req, p);
      if k < |staging| {
        StagingHasNoCommit(req, p, k);
      } else {
        assert InstallWrites(d, req, desc)[k] == ClosingWrites(mid, req, p)[k - |staging|];
        ClosingCommitsLast(mid, req, p, k - |staging|);
        Regroup(staging, CopyWrites(mid, req, p), [ReceiptPut(req, p)], Journaled(req, p, Committed));
      }
    }
  }

  lemma Regroup(a: seq<Write>, b: seq<Write>, c: seq<Write>, e: seq<Write>)
    ensures a + (b + c + e) == (a + b) + c + e
  {}

  lemma OverlayOfOne(p: Path, c: Content)
    ensures Overlay([Put(p, c)]) == map[p := c]
  {
    assert [Put(p, c)][..0] == [];
  }

  lemma ReceiptPutKeepsTree(d: Disk, tx: TxId, c: Content, receipt: Receipt)
    requires TreeInstalled(d, receipt)
    ensures TreeInstalled(Apply(d, [Put(ReceiptFile(tx), c)]), receipt)
  {
    OverlayOfOne(ReceiptFile(tx), c);
    var ledger := d.files[Installed(receipt.id, receipt.version, INTEGRITY)].files;
    forall i | 0 <= i < |ledger| ensures InstalledAt(Apply(d, [Put(ReceiptFile(tx), c)]), receipt, ledger[i]) {
      assert InstalledAt(d, receipt, ledger[i]);
    }
  }

  /** Whenever an install, crashing anywhere or not at all, writes its committed receipt or journals
      its committed line, the tree that receipt vouches for is completely in place. */
  lemma InstallCommitsOnlyInstalledTrees(d: Disk, req: Request, desc: Descriptor, k: nat)
    requires k < |InstallWrites(d, req, desc)| && IsCommit(InstallWrites(d, req, desc)[k])
    ensures Vouched(InstallWrites(d, req, desc)[k]).Some?
    ensures TreeInstalled(Apply(d, InstallWrites(d, req, desc)[..k]), Vouched(InstallWrites(d, req, desc)[k]).value)
  {
    CommitComesLast(d, req, desc, k);
    hide Overlay, Appends, Admit, InstallWrites, StagingPhase, TreeInstalled, TreeSha, Journaled, CopyWrites, StageVerifies;
    var p, ws := Admit(req, desc).value, InstallWrites(d, req, desc);
    var staging, copy := StagingPhase(req, p), CopyWrites(Apply(d, StagingPhase(req, p)), req, p);
    CopiedTree(d, req, p);
    ReceiptPutKeepsTree(Apply(d, staging + copy), req.tx, ReceiptDoc(ReceiptOf(req, p, Committed)), ReceiptOf(req, p, Committed));
    if ws[k].Append? {
      assert ws[..k] == (staging + copy) + [ReceiptPut(req, p)];
      ApplyConcat(d, staging + copy, [ReceiptPut(req, p)]);
    } else {
      assert ws[..k] == staging + copy;
    }
  }

  lemma CopiedTree(d: Disk, req: Request, p: Package)
    requires Verified(d, req, p)
    ensures TreeInstalled(Apply(d, StagingPhase(req, p) + CopyWrites(Apply(d, StagingPhase(req, p)), req, p)), ReceiptOf(req, p, Committed))
  {
    hide Overlay, Appends, StagingPhase, TreeInstalled, TreeSha;
    var mid := Apply(d, StagingPhase(req, p));
    PromotionInstalls(mid, [], req.tx, ReceiptOf(req, p, Committed));
    var copy := CopyWrites(mid, req, p);
    assert [] + copy == copy;
    hide Apply, CopyWrites;
    ApplyConcat(d, StagingPhase(req, p), copy);
  }

  /** A journaled install that ends normally takes its transaction from pending to exactly one
      terminal status. */
  lemma InstallHistory(d: Disk, req: Request, desc: Descriptor)
    ensures History(Apply(d, InstallWrites(d, req, desc)).journal, req.tx)
         == History(d.journal, req.tx)
            + if Admit(req, desc).Failure? || !req.journal then []
              else if Verified(d, req, Admit(req, desc).value) then [Pending, Committed]
              else [Pending, RolledBack]
  {
    hide InstallWrites, Verified, Admit, Overlay, Appends, History;
    InstallAppends(d, req, desc);
    HistoryConcat(d.journal, InstallEntries(d, req, desc), req.tx);
    HistoryOfPair(InstallEntries(d, req, desc), req.tx);
  }

  /** An admitted install that runs to its end commits: its tree is installed and its receipt file
      says committed. */
  lemma AdmittedInstallCommits(d: Disk, req: Request, desc: Descriptor)
    requires Admit(req, desc).Success?
    requires UniqueNames(req.package.value.files)
    requires forall i :: 0 <= i < |req.package.value.files| ==> req.package.value.files[i].rel != INTEGRITY
    ensures Verified(d, req, req.package.value)
    ensures var after, receipt := Apply(d, InstallWrites(d, req, desc)), ReceiptOf(req, req.package.value, Committed);
            && TreeInstalled(after, receipt)
            && ReceiptFile(req.tx) in after.files && after.files[ReceiptFile(req.tx)] == ReceiptDoc(receipt)
  {
    var p := req.package.value;
    StagedTreeVerifies(d, req, p);
    var copied := StagingPhase(req, p) + CopyWrites(Apply(d, StagingPhase(req, p)), req, p);
    var ws := InstallWrites(d, req, desc);
    var tail := Journaled(req, p, Committed);
    assert ws == copied + [ReceiptPut(req, p)] + tail;
    InstallCommitsOnlyInstalledTrees(d, req, desc, |copied|);
    assert ws[..|copied|] == copied;
    CommitSteps(d, copied, req, p);
  }

  lemma CommitSteps(d: Disk, copied: seq<Write>, req: Request, p: Package)
    requires TreeInstalled(Apply(d, copied), ReceiptOf(req, p, Committed))
    ensures var after := Apply(d, copied + [ReceiptPut(req, p)] + Journaled(req, p, Committed));
            && TreeInstalled(after, ReceiptOf(req, p, Committed))
            && ReceiptFile(req.tx) in after.files
            && after.files[ReceiptFile(req.tx)] == ReceiptDoc(ReceiptOf(req, p, Committed))
  {
    var receipt, tail := ReceiptOf(req, p, Committed), Journaled(req, p, Committed);
    var put := [ReceiptPut(req, p)];
    ReceiptPutKeepsTree(Apply(d, copied), req.tx, ReceiptDoc(receipt), receipt);
    ApplyConcat(d, copied, put);
    OverlayOfOne(ReceiptFile(req.tx), ReceiptDoc(receipt));
    var mid := Apply(d, copied + put);
    JournalingKeepsFiles(mid, tail);
    ApplyConcat(d, copied + put, tail);
    TreeInstalledByFiles(mid, Apply(mid, tail), receipt);
  }

  lemma HistoryOfPair(es: seq<Entry>, tx: TxId)
    requires |es| <= 2 && forall i :: 0 <= i < |es| ==> es[i].txId == tx
    ensures |History(es, tx)| == |es| && forall i :: 0 <= i < |es| ==> History(es, tx)[i] == es[i].receipt.status
  {
    if |es| == 2 { assert History(es[..1], tx) == History(es[..1][..0], tx) + [es[0].receipt.status]; }
  }

  lemma {:induction false} JournalingKeepsFiles(d: Disk, ws: seq<Write>)
    requires forall i :: 0 <= i < |ws| ==> ws[i].Append?
    ensures Apply(d, ws).files == d.files
  {
    if ws != [] { JournalingKeepsFiles(d, ws[..|ws|-1]); }
  }

  lemma TreeInstalledByFiles(d: Disk, d': Disk, receipt: Receipt)
    requires d.files == d'.files
    ensures TreeInstalled(d, receipt) <==> TreeInstalled(d', receipt)
  {
    assert d' == d.(journal := d'.journal);
    assert forall e: LedgerEntry :: InstalledAt(d, receipt, e) <==> InstalledAt(d', receipt, e);
  }
}
