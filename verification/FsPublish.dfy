/** The durable publish of src/dsh_fs_port.c: temp file, write, fsync, rename, directory fsync,
    with volatile and durable state kept apart. */
module FsPublish {
  import opened Wrappers

  type Ino = nat
  type Bytes = seq<int>

  /** `dir` is what processes see. `past` lists, for names changed since their directory was last
      synced, every binding the disk may still hold; any name's binding may reach the disk before
      any other's. An inode outside `synced` may hold anything after a power loss. */
  datatype FsState = FsState(dir: map<string, Ino>, past: map<string, set<Option<Ino>>>, data: map<Ino, Bytes>, synced: set<Ino>)

  function Bound(s: FsState, name: string): Option<Ino> {
    if name in s.dir then Some(s.dir[name]) else None
  }

  function MayBind(s: FsState, name: string): set<Option<Ino>> {
    if name in s.past then s.past[name] else {Bound(s, name)}
  }

  /** Could the file `name` hold `content` (None: be missing) after a power loss now? */
  ghost predicate MayRead(s: FsState, name: string, content: Option<Bytes>) {
    exists b :: b in MayBind(s, name) && Shows(s, b, content)
  }

  predicate Shows(s: FsState, b: Option<Ino>, content: Option<Bytes>) {
    match b
    case None => content.None?
    case Some(i) => content.Some? && (i in s.synced && i in s.data ==> content.value == s.data[i])
  }

  /** What a running process reads. */
  function Reads(s: FsState, name: string): Option<Bytes> {
    if name in s.dir && s.dir[name] in s.data then Some(s.data[s.dir[name]]) else None
  }

  ghost predicate WellFormed(s: FsState) {
    && (forall n :: n in s.dir ==> s.dir[n] in s.data)
    && (forall n, b :: n in s.past && b in s.past[n] && b.Some? ==> b.value in s.data)
    && (forall n :: n in s.past ==> Bound(s, n) in s.past[n])
  }

  /** The files of s0 are all in s, with the same content and the same durability. */
  ghost predicate KeepsFiles(s0: FsState, s: FsState) {
    forall i :: i in s0.data ==> i in s.data && s.data[i] == s0.data[i] && (i in s.synced <==> i in s0.synced)
  }

  /** A name whose possible bindings did not change reads as before after a power loss. */
  lemma SameBindingsReadTheSame(s0: FsState, s: FsState, n: string, c: Option<Bytes>)
    requires WellFormed(s0) && KeepsFiles(s0, s) && MayBind(s, n) == MayBind(s0, n)
    ensures MayRead(s, n, c) <==> MayRead(s0, n, c)
  {
    forall b | b in MayBind(s0, n) ensures Shows(s, b, c) <==> Shows(s0, b, c) {
      assert b.Some? ==> b.value in s0.data;
    }
  }

  /** s is s0 plus one fresh file, ino, under the fresh name temp. */
  ghost predicate Staging(s0: FsState, s: FsState, temp: string, ino: Ino) {
    && WellFormed(s0) && temp !in s0.dir && ino !in s0.data && ino in s.data
    && s.dir == s0.dir[temp := ino]
    && s.past == s0.past[temp := MayBind(s0, temp) + {Some(ino)}]
    && KeepsFiles(s0, s)
  }

  /** Every other name reads as before, now and after a power loss. */
  lemma StagingIsInvisible(s0: FsState, s: FsState, temp: string, ino: Ino)
    requires Staging(s0, s, temp, ino)
    ensures WellFormed(s)
    ensures forall n, c :: n != temp ==> (MayRead(s, n, c) <==> MayRead(s0, n, c))
    ensures forall n :: n != temp ==> Reads(s, n) == Reads(s0, n)
  {
    forall n, c | n != temp ensures MayRead(s, n, c) <==> MayRead(s0, n, c) {
      SameBindingsReadTheSame(s0, s, n, c);
    }
  }

  function Unlinked(s: FsState, name: string): FsState {
    s.(dir := s.dir - {name}, past := s.past[name := MayBind(s, name) + {None}])
  }

  lemma UnlinkedIsWellFormed(s: FsState, name: string)
    requires WellFormed(s)
    ensures WellFormed(Unlinked(s, name))
  {}

  lemma UnlinkedIsInvisible(s0: FsState, s1: FsState, temp: string, ino: Ino)
    requires Staging(s0, s1, temp, ino)
    ensures var s := Unlinked(s1, temp);
            && WellFormed(s) && s.dir == s0.dir
            && (forall n, c :: n != temp ==> (MayRead(s, n, c) <==> MayRead(s0, n, c)))
            && (forall n :: n != temp || n in s0.dir ==> Reads(s, n) == Reads(s0, n))
  {
    hide MayRead, Shows;
    var s := Unlinked(s1, temp);
    StagingIsInvisible(s0, s1, temp, ino);
    UnlinkedIsWellFormed(s1, temp);
    hide WellFormed;
    forall n, c | n != temp ensures MayRead(s, n, c) <==> MayRead(s0, n, c) {
      SameBindingsReadTheSame(s0, s, n, c);
    }
  }

  function Renamed(s: FsState, from: string, to: string): FsState
    requires from in s.dir
  {
    s.(dir := s.dir[to := s.dir[from]] - {from},
       past := s.past[to := MayBind(s, to) + {Some(s.dir[from])}][from := MayBind(s, from) + {None}])
  }

  lemma RenamedIsWellFormed(s: FsState, from: string, to: string)
    requires WellFormed(s) && from in s.dir && from != to
    ensures WellFormed(Renamed(s, from, to))
  {}

  /** After the rename the target is the new file or, on the disk, may still be what it was. */
  lemma RenamedTarget(s0: FsState, s1: FsState, temp: string, path: string, ino: Ino)
    requires Staging(s0, s1, temp, ino) && temp != path && ino in s1.synced
    ensures var s := Renamed(s1, temp, path);
            && Reads(s, path) == Some(s1.data[ino]) && s.dir.Keys == s0.dir.Keys + {path}
            && (forall c :: MayRead(s, path, c) ==> MayRead(s0, path, c) || c == Some(s1.data[ino]))
  {
    var s := Renamed(s1, temp, path);
    forall c | MayRead(s, path, c) ensures MayRead(s0, path, c) || c == Some(s1.data[ino]) {
      var b :| b in MayBind(s, path) && Shows(s, b, c);
      if b in MayBind(s0, path) {
        assert Shows(s0, b, c);
      }
    }
  }

  /** No other name is affected by it. */
  lemma RenamedElsewhere(s0: FsState, s1: FsState, temp: string, path: string, ino: Ino)
    requires Staging(s0, s1, temp, ino) && temp != path
    ensures var s := Renamed(s1, temp, path);
            && WellFormed(s)
            && (forall n, c :: n != temp && n != path ==> (MayRead(s, n, c) <==> MayRead(s0, n, c)))
            && (forall n :: n != temp && n != path ==> Reads(s, n) == Reads(s0, n))
  {
    hide MayRead, Shows;
    var s := Renamed(s1, temp, path);
    StagingIsInvisible(s0, s1, temp, ino);
    RenamedIsWellFormed(s1, temp, path);
    hide WellFormed;
    forall n, c | n != temp && n != path ensures MayRead(s, n, c) <==> MayRead(s0, n, c) {
      SameBindingsReadTheSame(s0, s, n, c);
    }
  }

  /** A directory sync fixes each of its names at its current binding, which was possible before. */
  lemma SyncSettles(s0: FsState, s: FsState, dir: string)
    requires WellFormed(s0)
    requires s == s0.(past := map n | n in s0.past && DirOf(n) != dir :: s0.past[n])
    ensures WellFormed(s)
    ensures forall n, c :: DirOf(n) == dir && n in s.dir && s.dir[n] in s.synced && MayRead(s, n, c) ==> c == Reads(s, n)
    ensures forall n, c :: MayRead(s, n, c) ==> MayRead(s0, n, c)
  {
    forall n, c | MayRead(s, n, c) ensures MayRead(s0, n, c) {
      var b :| b in MayBind(s, n) && Shows(s, b, c);
      assert b in MayBind(s0, n) && Shows(s0, b, c);
    }
  }

  // ---- dsh_temp_for ----------------------------------------------------------------------

  /** strrchr: the last slash, if any. */
  function LastSlash(path: string): Option<nat>
    ensures LastSlash(path).Some? ==> LastSlash(path).value < |path| && path[LastSlash(path).value] == '/'
                                      && '/' !in path[LastSlash(path).value + 1..]
    ensures LastSlash(path).None? ==> '/' !in path
  {
    if path == "" then None
    else if path[|path|-1] == '/' then Some(|path|-1)
    else
      var at := LastSlash(path[..|path|-1]);
      assert at.Some? ==> path[at.value + 1..] == path[..|path|-1][at.value + 1..] + [path[|path|-1]];
      at
  }

  const SUFFIX := "/.dshpub."
  const TEMPLATE_SIZE := 16 // sizeof("/.dshpub.XXXXXX"), the NUL included

  /** The directory part that the template is appended to; None is the -1 return: no directory part,
      or no room in a buffer of `cap` bytes. */
  function TempDir(path: string, cap: nat): Option<string> {
    var slash := LastSlash(path);
    var dirlen := if slash.Some? then slash.value else 0;
    if dirlen == 0 || dirlen + TEMPLATE_SIZE > cap then None else Some(path[..dirlen])
  }

  function DirOf(path: string): string {
    var slash := LastSlash(path);
    if slash.Some? then path[..slash.value] else ""
  }

  /** A name mkstemp can pick for this directory. */
  predicate TempName(name: string, dir: string) {
    |name| == |dir| + |SUFFIX| + 6 && name[..|dir| + |SUFFIX|] == dir + SUFFIX && '/' !in name[|dir| + |SUFFIX|..]
  }

  /** The temp file is a sibling of the target, so the rename stays within one directory, and the
      directory synced afterwards (the temp template cut at its last slash) is the target's own. */
  lemma TempSharesDirectory(path: string, cap: nat, name: string)
    requires TempDir(path, cap).Some? && TempName(name, TempDir(path, cap).value)
    ensures DirOf(name) == DirOf(path) == TempDir(path, cap).value
  {
    var dir := TempDir(path, cap).value;
    assert name[|dir|] == (dir + SUFFIX)[|dir|] == '/';
    assert '/' in name;
    var slash := LastSlash(name).value;
    assert forall i :: |dir| < i < |dir| + |SUFFIX| ==> name[i] == (dir + SUFFIX)[i] != '/';
    assert forall i :: |dir| + |SUFFIX| <= i < |name| ==> name[i] == name[|dir| + |SUFFIX|..][i - |dir| - |SUFFIX|];
    assert slash == |dir|;
    assert name[..|dir|] == (dir + SUFFIX)[..|dir|];
  }

  // ---- the system calls -------------------------------------------------------------------

  /** `Lost`: the power went before the call took effect. */
  datatype Result<T> = Ok(value: T) | Error | Lost

  datatype PublishStep = TempPath | MakeTemp | WriteAndSync | RenameOver | SyncDir

  datatype Outcome = Published | Failed(step: PublishStep) | PowerLoss

  datatype WriteResult = Wrote(n: nat) | Interrupted | WriteError | PowerLost

  class Os {
    var s: FsState
    /** write(2) is not interrupted, and does not return 0, forever: how often it still may. */
    var stalls: nat
    /** Did an unlink of the running publish fail? */
    ghost var unlinkFailed: bool

    constructor (s: FsState, stalls: nat)
      ensures this.s == s && this.stalls == stalls
    {
      this.s, this.stalls := s, stalls;
    }

    /** A fresh file under a fresh sibling name. */
    method Mkstemp(dir: string) returns (r: Result<(string, Ino)>)
      requires WellFormed(s)
      modifies `s
      ensures r.Ok? ==>
                var (name, ino) := r.value;
                && TempName(name, dir) && name !in old(s).dir && ino !in old(s).data
                && s == old(s).(dir := old(s).dir[name := ino], data := old(s).data[ino := []],
                                past := old(s).past[name := MayBind(old(s), name) + {Some(ino)}], synced := old(s).synced - {ino})
      ensures !r.Ok? ==> s == old(s)
    {
      var name: string := *;
      var ino: Ino := *;
      var outcome: Result<()> := *;
      if outcome.Lost? { return Lost; }
      if outcome.Error? || !TempName(name, dir) || name in s.dir || ino in s.data { return Error; }
      s := s.(dir := s.dir[name := ino], data := s.data[ino := []],
              past := s.past[name := MayBind(s, name) + {Some(ino)}], synced := s.synced - {ino});
      r := Ok((name, ino));
    }

    /** Append a part of the bytes, of any length up to all of them. */
    method Write(ino: Ino, bytes: Bytes) returns (r: WriteResult)
      requires ino in s.data && bytes != []
      modifies `s, `stalls
      ensures r.Wrote? ==> r.n <= |bytes| && s == old(s).(data := old(s).data[ino := old(s).data[ino] + bytes[..r.n]], synced := old(s).synced - {ino})
      ensures !r.Wrote? ==> s == old(s)
      ensures stalls <= old(stalls)
      ensures r.Interrupted? || (r.Wrote? && r.n == 0) ==> stalls < old(stalls)
    {
      r := *;
      var n: int := *;
      if r.Wrote? { r := Wrote(if 0 <= n <= |bytes| then n else |bytes|); }
      if r.Interrupted? || r == Wrote(0) {
        if stalls == 0 { r := Wrote(|bytes|); } else { stalls := stalls - 1; }
      }
      if r.Wrote? {
        s := s.(data := s.data[ino := s.data[ino] + bytes[..r.n]], synced := s.synced - {ino});
      }
    }

    method Fsync(ino: Ino) returns (r: Result<()>)
      modifies `s
      ensures s == if r.Ok? then old(s).(synced := old(s).synced + {ino}) else old(s)
    {
      r := *;
      if r.Ok? { s := s.(synced := s.synced + {ino}); }
    }

    method Close() returns (r: Result<()>)
    {
      r := *;
    }

    /** rename(2) within a directory: the target's binding is replaced in one step. */
    method Rename(from: string, to: string) returns (r: Result<()>)
      requires from in s.dir
      modifies `s
      ensures s == if r.Ok? && from != to then Renamed(old(s), from, to) else old(s)
    {
      r := *;
      if r.Ok? && from != to { s := Renamed(s, from, to); }
    }

    method Unlink(name: string) returns (r: Result<()>)
      modifies `s, `unlinkFailed
      ensures unlinkFailed == (old(unlinkFailed) || r.Error?)
      ensures s == if r.Ok? then Unlinked(old(s), name) else old(s)
    {
      r := *;
      if r.Error? { unlinkFailed := true; }
      if r.Ok? { s := Unlinked(s, name); }
    }

    /** dsh_fs_fsync_dir: the directory's names are on disk as they are now. */
    method FsyncDir(dir: string) returns (r: Result<()>)
      modifies `s
      ensures s == if r.Ok? then old(s).(past := map n | n in old(s).past && DirOf(n) != dir :: old(s).past[n]) else old(s)
    {
      r := *;
      if r.Ok? { s := s.(past := map n | n in s.past && DirOf(n) != dir :: s.past[n]); }
    }

    // ---- dsh_write_all --------------------------------------------------------------------

    /** Short writes and EINTR included: Ok means exactly the bytes were appended, and in every case
        what was appended is a prefix of them. */
    method WriteAll(ino: Ino, bytes: Bytes) returns (r: Result<()>)
      requires ino in s.data
      modifies `s, `stalls
      ensures exists n :: 0 <= n <= |bytes| && s.data == old(s).data[ino := old(s).data[ino] + bytes[..n]] && (r.Ok? ==> n == |bytes|)
      ensures s == old(s).(data := s.data, synced := s.synced) && s.synced - {ino} == old(s).synced - {ino}
    {
      var at := 0;
      assert s.data[ino] + bytes[..0] == s.data[ino];
      while at < |bytes|
        invariant at <= |bytes|
        invariant s.data == old(s).data[ino := old(s).data[ino] + bytes[..at]]
        invariant s == old(s).(data := s.data, synced := s.synced) && s.synced - {ino} == old(s).synced - {ino}
        decreases stalls + |bytes| - at
      {
        var w := Write(ino, bytes[at..]);
        match w
        case Interrupted => continue;
        case WriteError => return Error;
        case PowerLost => return Lost;
        case Wrote(n) =>
          assert old(s).data[ino] + bytes[..at] + bytes[at..][..n] == old(s).data[ino] + bytes[..at + n];
          at := at + n;
      }
      r := Ok(());
    }

    /** Write, fsync and close the temp file: Ok means the complete content is on the disk. */
    method FillTemp(ghost s0: FsState, ghost temp: string, ino: Ino, bytes: Bytes) returns (r: Result<()>)
      requires Staging(s0, s, temp, ino) && s.data[ino] == []
      modifies `s, `stalls
      ensures Staging(s0, s, temp, ino)
      ensures r.Ok? ==> s.data[ino] == bytes && ino in s.synced
    {
      r := WriteAll(ino, bytes);
      assert forall i :: i != ino ==> (i in s.synced <==> i in s.synced - {ino});
      assert forall i :: i != ino ==> (i in old(s).synced <==> i in old(s).synced - {ino});
      assert Staging(s0, s, temp, ino);
      if r.Ok? {
        assert [] + bytes[..|bytes|] == bytes;
        r := Fsync(ino);
      }
      if r.Ok? { r := Close(); }
    }

    // ---- dsh_fs_publish_atomic --------------------------------------------------------------

    /** Whatever the outcome, and wherever the power goes, the target reads as it could have before or
        as the complete new content; Published makes that the new content for good; every failure
        before the rename leaves what processes see as it was, without a temp file unless removing it
        failed too; a failed directory sync comes after the target was replaced. A target that does
        not exist and is itself named like a temp file is outside the crash guarantee. */
    method PublishAtomic(path: string, bytes: Bytes) returns (r: Outcome)
      requires WellFormed(s)
      modifies this
      ensures WellFormed(s)
      ensures path in old(s).dir || !TempName(path, DirOf(path)) ==>
                forall c :: MayRead(s, path, c) ==> MayRead(old(s), path, c) || c == Some(bytes)
      ensures r.Published? ==> Reads(s, path) == Some(bytes) && forall c :: MayRead(s, path, c) ==> c == Some(bytes)
      ensures r.Failed? && r.step != SyncDir ==>
                && (!unlinkFailed ==> s.dir == old(s).dir)
                && (forall n :: n in old(s).dir ==> Reads(s, n) == Reads(old(s), n))
                && (forall n :: n in s.dir && n !in old(s).dir ==> TempName(n, DirOf(path)))
      ensures r == Failed(SyncDir) ==> Reads(s, path) == Some(bytes) && s.dir.Keys == old(s).dir.Keys + {path}
      ensures forall n :: n != path && !TempName(n, DirOf(path)) ==>
                Reads(s, n) == Reads(old(s), n) && forall c :: MayRead(s, n, c) ==> MayRead(old(s), n, c)
    {
      hide MayRead, Shows, MayBind;
      unlinkFailed := false;
      ghost var s0 := s;
      var dir := TempDir(path, 1024);
      if dir.None? { return Failed(TempPath); }
      var made := Mkstemp(dir.value);
      if made.Lost? { return PowerLoss; }
      if made.Error? { return Failed(MakeTemp); }
      var temp, ino := made.value.0, made.value.1;
      TempSharesDirectory(path, 1024, temp);
      assert Staging(s0, s, temp, ino);
      var wrote := FillTemp(s0, temp, ino, bytes);
      StagingIsInvisible(s0, s, temp, ino);
      ghost var s1 := s;
      if wrote.Lost? { return PowerLoss; }
      if wrote.Error? {
        var gone := Unlink(temp);
        if gone.Ok? { UnlinkedIsInvisible(s0, s1, temp, ino); }
        return if gone.Lost? then PowerLoss else Failed(WriteAndSync);
      }
      var renamed := Rename(temp, path);
      if renamed.Lost? { return PowerLoss; }
      if renamed.Error? {
        var gone := Unlink(temp);
        if gone.Ok? { UnlinkedIsInvisible(s0, s1, temp, ino); }
        return if gone.Lost? then PowerLoss else Failed(RenameOver);
      }
      if temp != path {
        RenamedTarget(s0, s1, temp, path, ino);
        RenamedElsewhere(s0, s1, temp, path, ino);
      }
      ghost var s2 := s;
      var settled := FsyncDir(dir.value);
      if settled.Lost? { return PowerLoss; }
      if settled.Error? { return Failed(SyncDir); }
      SyncSettles(s2, s, dir.value);
      r := Published;
    }

    /** A run of publishes to one target, successful or failing, crashing anywhere: the target always
        reads as it could have before the run or as one of the complete contents given so far. */
    method PublishInTurn(path: string, contents: seq<Bytes>) returns (done: nat)
      requires WellFormed(s) && !TempName(path, DirOf(path))
      modifies this
      ensures WellFormed(s) && done <= |contents|
      ensures forall c :: MayRead(s, path, c) ==> MayRead(old(s), path, c) || (c.Some? && c.value in contents[..done])
    {
      hide MayRead;
      done := 0;
      while done < |contents|
        invariant WellFormed(s) && done <= |contents|
        invariant forall c :: MayRead(s, path, c) ==> MayRead(old(s), path, c) || (c.Some? && c.value in contents[..done])
      {
        var r := PublishAtomic(path, contents[done]);
        assert contents[..done + 1] == contents[..done] + [contents[done]];
        done := done + 1;
        if r.PowerLoss? { return; }
      }
    }
  }
}
