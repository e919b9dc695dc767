/** The storage an install transaction runs on: the files under the granted scope and the
    append-only receipts journal. Every gateway fs call is one atomic step; a fail-stop crash
    may fall between any two of them, so what is on disk after a crash is what a PREFIX of the
    transaction's writes leaves behind. */
module InstallDisk {
  import opened Wrappers

  type TxId = string

  /** A digest is symbolic: it IS the content it was taken of, which makes it collision-free. */
  datatype Digest = Sha256(of: Content)

  datatype LedgerEntry = LedgerEntry(rel: string, digest: Digest)

  datatype Status = Pending | Committed | RolledBack

  datatype Receipt = Receipt(id: string, version: string, blobSha: Digest, treeSha: Option<Digest>, status: Status)

  /** What a file can hold: opaque bytes, the JSON of an integrity ledger, the JSON of a receipt. */
  datatype Content = Raw(bytes: seq<int>) | LedgerDoc(files: seq<LedgerEntry>) | ReceiptDoc(receipt: Receipt)

  /** The path families of the pipeline: `cache/blobs/<sha>`, `plugins/.staging-<tx>/<rel>`,
      `plugins/<id>@<version>/<rel>` and `receipts/<tx>.json`. */
  datatype Path =
    | Blob(digest: Digest)
    | Staged(tx: TxId, rel: string)
    | Installed(id: string, version: string, rel: string)
    | ReceiptFile(tx: TxId)

  datatype Entry = Entry(txId: TxId, receipt: Receipt)

  datatype Disk = Disk(files: map<Path, Content>, journal: seq<Entry>)

  datatype Write = Put(path: Path, content: Content) | Append(entry: Entry)

  const INTEGRITY := "integrity.json"

  // ---- the effect of a sequence of writes ------------------------------------

  /** The files a write sequence leaves behind: the last put of each path. */
  function Overlay(ws: seq<Write>): map<Path, Content> {
    if ws == [] then map[]
    else
      var rest := Overlay(ws[..|ws|-1]);
      match ws[|ws|-1]
      case Put(p, c) => rest[p := c]
      case Append(_) => rest
  }

  /** The journal entries a write sequence appends, in order. */
  function Appends(ws: seq<Write>): seq<Entry> {
    if ws == [] then []
    else
      var rest := Appends(ws[..|ws|-1]);
      match ws[|ws|-1]
      case Put(_, _) => rest
      case Append(e) => rest + [e]
  }

  function Apply(d: Disk, ws: seq<Write>): Disk {
    Disk(d.files + Overlay(ws), d.journal + Appends(ws))
  }

  lemma {:induction false} OverlayConcat(a: seq<Write>, b: seq<Write>)
    ensures Overlay(a + b) == Overlay(a) + Overlay(b)
  {
    if b == [] {
      assert a + b == a;
    } else {
      OverlayConcat(a, b[..|b|-1]);
      assert (a + b)[..|a + b|-1] == a + b[..|b|-1];
    }
  }

  lemma {:induction false} AppendsConcat(a: seq<Write>, b: seq<Write>)
    ensures Appends(a + b) == Appends(a) + Appends(b)
  {
    if b == [] {
      assert a + b == a;
    } else {
      AppendsConcat(a, b[..|b|-1]);
      assert (a + b)[..|a + b|-1] == a + b[..|b|-1];
    }
  }

  /** Running a then b is running a + b. */
  lemma ApplyConcat(d: Disk, a: seq<Write>, b: seq<Write>)
    ensures Apply(Apply(d, a), b) == Apply(d, a + b)
  {
    OverlayConcat(a, b);
    AppendsConcat(a, b);
  }

  /** A path is overlaid exactly when some write puts it. */
  lemma {:induction false} OverlayKeys(ws: seq<Write>, p: Path)
    ensures p in Overlay(ws) <==> exists i :: 0 <= i < |ws| && ws[i].Put? && ws[i].path == p
  {
    if ws != [] {
      var init := ws[..|ws|-1];
      OverlayKeys(init, p);
      if i :| 0 <= i < |init| && init[i].Put? && init[i].path == p {
        assert ws[i] == init[i];
      }
      if i :| 0 <= i < |ws| && ws[i].Put? && ws[i].path == p {
        assert i < |init| ==> init[i] == ws[i];
      }
    }
  }

  /** When every put of p in ws carries the same content, that content is what p ends up holding. */
  lemma {:induction false} OverlayValue(ws: seq<Write>, p: Path, c: Content)
    requires forall i :: 0 <= i < |ws| && ws[i].Put? && ws[i].path == p ==> ws[i].content == c
    ensures p in Overlay(ws) ==> Overlay(ws)[p] == c
  {
    if ws != [] {
      var init := ws[..|ws|-1];
      forall i | 0 <= i < |init| && init[i].Put? && init[i].path == p
        ensures init[i].content == c
      {
        assert init[i] == ws[i];
      }
      OverlayValue(init, p, c);
    }
  }

  lemma {:induction false} AppendsOfPuts(ws: seq<Write>)
    requires forall i :: 0 <= i < |ws| ==> ws[i].Put?
    ensures Appends(ws) == []
  {
    if ws != [] {
      var init := ws[..|ws|-1];
      forall i | 0 <= i < |init| ensures init[i].Put? { assert init[i] == ws[i]; }
      AppendsOfPuts(init);
    }
  }

  /** Interrupting a write sequence among its leading puts and then running it from the start
      leaves the same disk as running it once. */
  lemma RedoPuts(d: Disk, ws: seq<Write>, k: nat)
    requires k <= |ws|
    requires forall i :: 0 <= i < k ==> ws[i].Put?
    ensures Apply(Apply(d, ws[..k]), ws) == Apply(d, ws)
  {
    AppendsOfPuts(ws[..k]);
    forall p | p in Overlay(ws[..k]) ensures p in Overlay(ws) {
      OverlayKeys(ws[..k], p);
      var i :| 0 <= i < k && ws[..k][i].Put? && ws[..k][i].path == p;
      assert ws[i] == ws[..k][i];
      OverlayKeys(ws, p);
    }
    assert d.files + Overlay(ws[..k]) + Overlay(ws) == d.files + Overlay(ws);
  }
}
