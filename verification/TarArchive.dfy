/** Headers, archives and what reading back an archive gives. */
module TarArchive {
  import opened Wrappers
  import opened JsText
  import opened Tar

  function Zeros(n: nat): (r: Bytes)
    ensures |r| == n
  {
    seq(n, _ => 0)
  }

  /** asciiBytes: cut to len, each unit cut to a byte, filled with NULs. */
  function Ascii(t: Text, len: nat): (r: Bytes)
    ensures |r| == len
  {
    seq(len, i requires i >= 0 => if i < |t| then t[i] as int % 256 else 0)
  }

  function Field(v: nat, w: nat): (r: Bytes)
    requires w > 0
    ensures |r| == w
  {
    Fixed(v, w - 1) + [0]
  }

  /** Name, mode, uid, gid, size, mtime: the 148 bytes before the checksum field. */
  function Front(path: Text, size: nat): (r: Bytes)
    ensures |r| == 148
  {
    (Ascii(path, 100) + Field(420, 8) + Field(0, 8) + Field(0, 8)) + Field(size, 12) + Field(0, 12)
  }

  /** Type flag, empty link name, magic, version, nothing: the 356 bytes after it. */
  function Back(): (r: Bytes)
    ensures |r| == 356
  {
    ([ZERO] + Zeros(100)) + USTAR + ([0] + [ZERO, ZERO] + Zeros(247))
  }

  /** The sum of the first n bytes with the checksum field read as spaces. */
  function SumTo(head: Bytes, n: nat): nat
    requires n <= |head|
  {
    if n == 0 then 0
    else SumTo(head, n - 1) + if n - 1 < 148 || n - 1 >= 156 then head[n - 1] else 32
  }

  function Checksum(front: Bytes, back: Bytes): nat
    requires |front| == 148 && |back| == 356
  {
    SumTo(front + Zeros(8) + back, BLOCK)
  }

  function Header(path: Text, size: nat): (r: Bytes)
    ensures |r| == BLOCK
  {
    Front(path, size) + (Fixed(Checksum(Front(path, size), Back()), 6) + [0, 32]) + Back()
  }

  function Padded(n: nat): (r: nat)
    ensures r >= n && r % BLOCK == 0
  {
    if n % BLOCK == 0 then n else n + (BLOCK - n % BLOCK)
  }

  function Pad(bytes: Bytes): (r: Bytes)
    ensures |r| == Padded(|bytes|)
  {
    bytes + Zeros(Padded(|bytes|) - |bytes|)
  }

  function Entry(m: Member): Bytes {
    Header(m.path, |m.bytes|) + Pad(m.bytes)
  }

  function Entries(ms: seq<Member>): Bytes {
    if ms == [] then [] else Entry(ms[0]) + Entries(ms[1..])
  }

  /** The error of the first member that has one. */
  function Written(ms: seq<Member>): Result<Bytes, TarError> {
    if exists i :: 0 <= i < |ms| && MemberError(ms[i]).Some? then Failure(FirstError(ms))
    else Success(Entries(ms) + Zeros(2 * BLOCK))
  }

  function MemberError(m: Member): Option<TarError> {
    if !SafePath(m.path) then Some(UnsafePath)
    else if |m.bytes| >= Pow8(11) then Some(FieldOverflow)
    else None
  }

  function FirstError(ms: seq<Member>): TarError
    requires exists i :: 0 <= i < |ms| && MemberError(ms[i]).Some?
  {
    if MemberError(ms[0]).Some? then MemberError(ms[0]).value
    else
      assert exists i :: 0 <= i < |ms[1..]| && MemberError(ms[1..][i]).Some? by {
        var i :| 0 <= i < |ms| && MemberError(ms[i]).Some?;
        assert ms[1..][i - 1] == ms[i];
      }
      FirstError(ms[1..])
  }

  // ---- reading ------------------------------------------------------------------------------

  function CutAtZero(b: Bytes): Text {
    if b == [] || b[0] == 0 then [] else [b[0]] + CutAtZero(b[1..])
  }

  predicate AllZero(b: Bytes) {
    forall i :: 0 <= i < |b| ==> b[i] == 0
  }

  /** The checks of one header; the path and the size, None when it is NaN. */
  function ReadHeader(head: Bytes): Result<(Text, Option<int>), TarError>
    requires |head| == BLOCK
  {
    if ParseInt(head[148..154]) != Some(SumTo(head, BLOCK)) then Failure(ChecksumDrift)
    else if head[257..262] != USTAR then Failure(NotUstar)
    else if head[156] != ZERO && head[156] != 0 then Failure(UnsupportedType)
    else if !SafePath(CutAtZero(head[..100])) then Failure(UnsafePath)
    else Success((CutAtZero(head[..100]), ParseInt(CutAtNul(head[124..136]))))
  }

  function Size(size: Option<int>): nat
    requires size.Some? ==> size.value >= 0
  {
    if size.None? then 0 else size.value
  }

  function Upto(n: nat, b: Bytes): (r: nat)
    ensures r <= |b|
  {
    if n <= |b| then n else |b|
  }

  /** Read from a header on. Data cut off by the end of the archive is taken as it is. */
  function Read(b: Bytes): Result<seq<Member>, TarError>
    decreases |b|
  {
    if |b| < BLOCK || AllZero(b[..BLOCK]) then Success([])
    else
      match ReadHeader(b[..BLOCK])
      case Failure(e) => Failure(e)
      case Success((path, size)) =>
        if size.Some? && size.value < 0 then Failure(BadLength)
        else
          var n := Size(size);
          Prepend(Member(path, b[BLOCK..Upto(BLOCK + n, b)]), Read(b[Upto(BLOCK + Padded(n), b)..]))
  }

  function Prepend(m: Member, r: Result<seq<Member>, TarError>): Result<seq<Member>, TarError> {
    if r.Failure? then r else Success([m] + r.value)
  }

  function ReadArchive(b: Bytes): Result<seq<Member>, TarError> {
    if |b| % BLOCK != 0 then Failure(Unaligned)
    else if Read(b).Failure? then Read(b)
    else if Read(b).value == [] then Failure(NoMembers)
    else Read(b)
  }

  // ---- the header reads back ---------------------------------------------------------------------

  /** Equal outside the checksum field. */
  predicate SameButChecksum(g: Bytes, h: Bytes) {
    |g| == |h| && forall i :: 0 <= i < |g| && (i < 148 || i >= 156) ==> g[i] == h[i]
  }

  lemma {:induction false} SumIgnoresChecksum(g: Bytes, h: Bytes, n: nat)
    requires SameButChecksum(g, h) && n <= |g|
    ensures SumTo(g, n) == SumTo(h, n)
  {
    if n > 0 { SumIgnoresChecksum(g, h, n - 1); }
  }

  /** Six octal digits are enough for any sum. */
  lemma {:induction false} SumBound(head: Bytes, n: nat)
    requires n <= |head|
    ensures SumTo(head, n) <= 255 * n
  {
    if n > 0 { SumBound(head, n - 1); }
  }

  lemma Pow8Values()
    ensures Pow8(6) == 262144 && Pow8(11) == 8589934592
  {
    assert Pow8(5) == 32768 && Pow8(8) == 16777216;
  }

  lemma Middle(a: Bytes, b: Bytes, c: Bytes)
    ensures (a + b + c)[|a|..|a| + |b|] == b
    ensures (a + b + c)[..|a|] == a && (a + b + c)[|a| + |b|..] == c
  {}

  lemma FrontFields(path: Text, size: nat)
    ensures Front(path, size)[..100] == Ascii(path, 100)
    ensures Front(path, size)[124..136] == Fixed(size, 11) + [0]
  {
    hide Ascii, Fixed;
    var ids := Field(420, 8) + Field(0, 8) + Field(0, 8);
    var name := Ascii(path, 100);
    assert Front(path, size) == name + (ids + Field(size, 12) + Field(0, 12));
    Middle([], name, ids + Field(size, 12) + Field(0, 12));
    Middle(name + Field(420, 8) + Field(0, 8) + Field(0, 8), Field(size, 12), Field(0, 12));
  }

  lemma BackFields()
    ensures Back()[0] == ZERO && Back()[101..106] == USTAR
  {
    Middle([ZERO] + Zeros(100), USTAR, [0] + [ZERO, ZERO] + Zeros(247));
    assert Back()[0] == ([ZERO] + Zeros(100))[0];
  }

  lemma HeaderFields(path: Text, size: nat)
    ensures Header(path, size)[..100] == Ascii(path, 100)
    ensures Header(path, size)[124..136] == Fixed(size, 11) + [0]
    ensures Header(path, size)[148..154] == Fixed(SumTo(Header(path, size), BLOCK), 6)
    ensures Header(path, size)[156] == ZERO && Header(path, size)[257..262] == USTAR
  {
    var front, back := Front(path, size), Back();
    FrontFields(path, size);
    BackFields();
    hide Front, Back, Ascii, Fixed, SumTo;
    var sum := Checksum(front, back);
    var check := Fixed(sum, 6) + [0, 32];
    var h := front + check + back;
    Middle(front, check, back);
    assert h[..148] == front && h[148..156] == check && h[156..] == back;
    assert h[..100] == h[..148][..100] && h[124..136] == h[..148][124..136];
    assert h[148..154] == h[148..156][..6] == Fixed(sum, 6);
    assert h[156] == h[156..][0] && h[257..262] == h[156..][101..106];
    SumIgnoresChecksum(front + Zeros(8) + back, h, BLOCK);
  }

  /** What reading makes of a written name. */
  function Stored(path: Text): Text {
    CutAtZero(Ascii(path, 100))
  }

  lemma HeaderReads(path: Text, size: nat)
    requires size < Pow8(11)
    ensures ReadHeader(Header(path, size)) == if SafePath(Stored(path)) then Success((Stored(path), Some(size))) else Failure(UnsafePath)
    ensures !AllZero(Header(path, size))
  {
    var h := Header(path, size);
    HeaderFields(path, size);
    hide Header, SumTo, Fixed, CutAtZero, SafePath, Ascii, CutAtNul, ParseInt;
    Pow8Values();
    SumBound(h, BLOCK);
    var sum := SumTo(h, BLOCK);
    ParseFixed(sum, 6, []);
    assert Fixed(sum, 6) + [] == Fixed(sum, 6);
    ParseFixed(size, 11, [0]);
    ParseIntCut(h[124..136]);
    assert h[156] != 0;
  }

  // ---- round trip ------------------------------------------------------------------------------------

  /** An entry's pieces, whatever follows it. */
  lemma EntryPieces(m: Member, rest: Bytes)
    ensures
      var b, n := Entry(m) + rest, |m.bytes|;
      && b[..BLOCK] == Header(m.path, n) && b[BLOCK..Upto(BLOCK + n, b)] == m.bytes
      && b[Upto(BLOCK + Padded(n), b)..] == rest
  {
    hide Header, Padded;
    var head, data := Header(m.path, |m.bytes|), Pad(m.bytes);
    assert Entry(m) + rest == [] + head + (data + rest);
    Middle([], head, data + rest);
    Middle(head, m.bytes, Zeros(Padded(|m.bytes|) - |m.bytes|) + rest);
    Middle(head, data, rest);
    assert head + m.bytes + (Zeros(Padded(|m.bytes|) - |m.bytes|) + rest) == Entry(m) + rest;
    assert head + data + rest == Entry(m) + rest;
  }

  /** Reading one written entry, whatever follows it. */
  lemma ReadEntry(m: Member, rest: Bytes)
    requires |m.bytes| < Pow8(11)
    ensures Read(Entry(m) + rest)
         == if SafePath(Stored(m.path)) then Prepend(Member(Stored(m.path), m.bytes), Read(rest)) else Failure(UnsafePath)
  {
    HeaderReads(m.path, |m.bytes|);
    EntryPieces(m, rest);
    hide *;
    ReadStep(Entry(m) + rest, Stored(m.path), Some(|m.bytes|));
    SizeOfSome(|m.bytes|);
  }

  lemma SizeOfSome(n: nat)
    ensures Size(Some(n)) == n
  {}

  lemma ReadStep(b: Bytes, path: Text, size: Option<int>)
    requires |b| >= BLOCK && !AllZero(b[..BLOCK]) && (size.Some? ==> size.value >= 0)
    ensures ReadHeader(b[..BLOCK]) == Success((path, size)) ==>
              Read(b) == Prepend(Member(path, b[BLOCK..Upto(BLOCK + Size(size), b)]), Read(b[Upto(BLOCK + Padded(Size(size)), b)..]))
    ensures ReadHeader(b[..BLOCK]).Failure? ==> Read(b) == Failure(ReadHeader(b[..BLOCK]).error)
  {
    hide ReadHeader, AllZero, Padded, Prepend;
  }

  /** The members as reading gives them back. */
  function Renamed(ms: seq<Member>): seq<Member> {
    seq(|ms|, i requires 0 <= i < |ms| => Member(Stored(ms[i].path), ms[i].bytes))
  }

  predicate StoredSafely(ms: seq<Member>) {
    forall i :: 0 <= i < |ms| ==> SafePath(Stored(ms[i].path))
  }

  lemma ReadTerminator()
    ensures Read(Zeros(2 * BLOCK)) == Success([])
  {}

  lemma {:induction false} ReadEntries(ms: seq<Member>)
    requires forall i :: 0 <= i < |ms| ==> |ms[i].bytes| < Pow8(11)
    ensures Read(Entries(ms) + Zeros(2 * BLOCK)) == if StoredSafely(ms) then Success(Renamed(ms)) else Failure(UnsafePath)
  {
    hide Entry, Stored, SafePath, Pow8, Read, Zeros;
    var end := Zeros(2 * BLOCK);
    if ms == [] {
      assert Entries(ms) + end == end && Renamed(ms) == [];
      ReadTerminator();
    } else {
      assert Entries(ms) + end == Entry(ms[0]) + (Entries(ms[1..]) + end);
      ReadEntry(ms[0], Entries(ms[1..]) + end);
      ReadEntries(ms[1..]);
      assert Renamed(ms) == [Member(Stored(ms[0].path), ms[0].bytes)] + Renamed(ms[1..]);
      assert StoredSafely(ms) <==> SafePath(Stored(ms[0].path)) && StoredSafely(ms[1..]) by {
        assert forall i :: 1 <= i < |ms| ==> ms[i] == ms[1..][i - 1];
      }
    }
  }

  lemma EntryAligned(m: Member)
    ensures |Entry(m)| == BLOCK + Padded(|m.bytes|) && |Entry(m)| % BLOCK == 0
  {
    hide Header, Padded;
    AlignedSum(BLOCK, Padded(|m.bytes|));
  }

  lemma AlignedSum(x: nat, y: nat)
    requires x % BLOCK == 0 && y % BLOCK == 0
    ensures (x + y) % BLOCK == 0
  {}

  lemma {:induction false} EntriesAligned(ms: seq<Member>)
    ensures |Entries(ms)| % BLOCK == 0
  {
    hide Entry;
    if ms != [] {
      EntryAligned(ms[0]);
      EntriesAligned(ms[1..]);
      AlignedSum(|Entry(ms[0])|, |Entries(ms[1..])|);
    }
  }

  lemma WrittenShape(ms: seq<Member>)
    requires Written(ms).Success?
    ensures Written(ms).value == Entries(ms) + Zeros(2 * BLOCK) && |Written(ms).value| % BLOCK == 0
    ensures forall i :: 0 <= i < |ms| ==> |ms[i].bytes| < Pow8(11)
  {
    hide Pow8, Entries, SafePath;
    forall i | 0 <= i < |ms| ensures |ms[i].bytes| < Pow8(11) {
      assert MemberError(ms[i]).None?;
    }
    EntriesAligned(ms);
    AlignedSum(|Entries(ms)|, 2 * BLOCK);
  }

  /** Whatever can be written is read back under its stored names. */
  lemma ReadBack(ms: seq<Member>)
    requires Written(ms).Success?
    ensures ReadArchive(Written(ms).value)
         == if ms == [] then Failure(NoMembers)
            else if StoredSafely(ms) then Success(Renamed(ms))
            else Failure(UnsafePath)
  {
    hide Pow8, Entries, Read, Stored, SafePath, Written;
    WrittenShape(ms);
    ReadEntries(ms);
  }

  /** The names the header field holds: at most 100 one-byte characters, none of them NUL. */
  predicate Fits(path: Text) {
    |path| <= 100 && forall i :: 0 <= i < |path| ==> 0 < path[i] < 256
  }

  lemma {:induction false} CutAtZeroPrefix(b: Bytes)
    ensures |CutAtZero(b)| <= |b| && CutAtZero(b) == b[..|CutAtZero(b)|] && (forall i :: 0 <= i < |CutAtZero(b)| ==> b[i] != 0)
    ensures |CutAtZero(b)| < |b| ==> b[|CutAtZero(b)|] == 0
  {
    if b != [] && b[0] != 0 { CutAtZeroPrefix(b[1..]); }
  }

  /** A name survives the header exactly when it fits. */
  lemma StoredExactly(path: Text)
    ensures Stored(path) == path <==> Fits(path)
  {
    var field := Ascii(path, 100);
    var cut := |CutAtZero(field)|;
    CutAtZeroPrefix(field);
    if Fits(path) {
      assert forall i :: 0 <= i < |path| ==> field[i] == path[i];
      assert |path| < 100 ==> field[|path|] == 0;
      assert cut == |path|;
      assert field[..cut] == path;
    }
    if Stored(path) == path {
      assert forall i :: 0 <= i < |path| ==> path[i] == field[i];
    }
  }

  /** The round trip holds exactly for non-empty archives whose names fit. */
  lemma RoundTripExactly(ms: seq<Member>)
    requires Written(ms).Success?
    ensures ReadArchive(Written(ms).value) == Success(ms) <==> (ms != [] && forall i :: 0 <= i < |ms| ==> Fits(ms[i].path))
  {
    hide Entries, Read, Fits, Stored, ReadArchive;
    ReadBack(ms);
    forall i | 0 <= i < |ms|
      ensures MemberError(ms[i]).None? && (Stored(ms[i].path) == ms[i].path <==> Fits(ms[i].path))
    {
      StoredExactly(ms[i].path);
    }
    if ReadArchive(Written(ms).value) == Success(ms) {
      assert forall i :: 0 <= i < |ms| ==> Renamed(ms)[i] == ms[i];
    }
    if forall i :: 0 <= i < |ms| ==> Fits(ms[i].path) {
      assert Renamed(ms) == ms;
    }
  }

  /** What tarWrite refuses. */
  lemma WrittenExactly(ms: seq<Member>)
    ensures Written(ms).Success? <==> forall i :: 0 <= i < |ms| ==> SafePath(ms[i].path) && |ms[i].bytes| < Pow8(11)
  {
    hide SafePath, Pow8, Entries, FirstError;
  }

  // ---- damaged headers --------------------------------------------------------------------------------------

  function StepOver(b: Bytes): nat
    requires |b| >= BLOCK
  {
    match ReadHeader(b[..BLOCK])
    case Failure(_) => |b|
    case Success((_, size)) => if size.Some? && size.value < 0 then |b| else Upto(BLOCK + Padded(Size(size)), b)
  }

  /** The reader comes to a header at offset `at`. */
  predicate HeaderAt(b: Bytes, at: nat)
    decreases |b|
  {
    && |b| >= BLOCK && !AllZero(b[..BLOCK])
    && (at == 0 || (BLOCK <= StepOver(b) <= at && HeaderAt(b[StepOver(b)..], at - StepOver(b))))
  }

  lemma {:induction false} SumTellsByte(head: Bytes, i: nat, v: Byte, n: nat)
    requires i < |head| && (i < 148 || i >= 156) && n <= |head|
    ensures SumTo(head[i := v], n) == if i < n then SumTo(head, n) - head[i] + v else SumTo(head, n)
  {
    if n > 0 { SumTellsByte(head, i, v, n - 1); }
  }

  lemma {:induction false} NothingParsed(t: Bytes)
    requires AllZero(t)
    ensures ParseInt(t) == None
  {}

  lemma DamagedHeader(head: Bytes, i: nat, v: Byte)
    requires |head| == BLOCK && ReadHeader(head).Success?
    requires i < BLOCK && (i < 148 || i >= 156) && v != head[i]
    ensures !AllZero(head[i := v]) && ReadHeader(head[i := v]) == Failure(ChecksumDrift)
  {
    SumTellsByte(head, i, v, BLOCK);
    var check := head[148..154];
    assert head[i := v][148..154] == check;
    if AllZero(head[i := v]) {
      assert forall k :: 0 <= k < 6 ==> check[k] == head[i := v][148 + k];
      NothingParsed(check);
    }
  }

  lemma DamagedFirst(b: Bytes, i: nat, v: Byte)
    requires |b| >= BLOCK && !AllZero(b[..BLOCK]) && ReadHeader(b[..BLOCK]).Success?
    requires i < BLOCK && (i < 148 || i >= 156) && v != b[i]
    ensures Read(b[i := v]) == Failure(ChecksumDrift)
  {
    hide ReadHeader, AllZero;
    assert b[i := v][..BLOCK] == b[..BLOCK][i := v];
    DamagedHeader(b[..BLOCK], i, v);
  }

  lemma AcceptedHeader(b: Bytes)
    requires |b| >= BLOCK && !AllZero(b[..BLOCK]) && Read(b).Success?
    ensures ReadHeader(b[..BLOCK]).Success? && Read(b[StepOver(b)..]).Success?
  {
    hide ReadHeader, AllZero;
  }

  /** What goes wrong after the first entry goes wrong in the whole. */
  lemma LaterFailure(b: Bytes, c: Bytes, e: TarError)
    requires |b| == |c| >= BLOCK && c[..BLOCK] == b[..BLOCK] && !AllZero(b[..BLOCK]) && Read(b).Success?
    requires Read(c[StepOver(b)..]) == Failure(e)
    ensures Read(c) == Failure(e)
  {
    hide ReadHeader, AllZero;
  }

  /** Changing any one byte of any header, outside the checksum field, makes an accepted archive be
      rejected, as a checksum drift. */
  lemma {:induction false} DamageIsDetected(b: Bytes, at: nat, i: nat, v: Byte)
    requires Read(b).Success? && HeaderAt(b, at) && at + BLOCK <= |b|
    requires i < BLOCK && (i < 148 || i >= 156) && v != b[at + i]
    ensures Read(b[at + i := v]) == Failure(ChecksumDrift)
    decreases |b|
  {
    hide ReadHeader, AllZero, Read, StepOver;
    AcceptedHeader(b);
    if at == 0 {
      DamagedFirst(b, i, v);
    } else {
      var c, n := b[at + i := v], StepOver(b);
      DamageIsDetected(b[n..], at - n, i, v);
      assert c[..BLOCK] == b[..BLOCK];
      assert c[n..] == b[n..][at - n + i := v];
      LaterFailure(b, c, ChecksumDrift);
    }
  }

  /** Where the k-th member's header is written. */
  function Offset(ms: seq<Member>, k: nat): nat
    requires k <= |ms|
  {
    |Entries(ms[..k])|
  }

  lemma {:induction false} WrittenHeaders(ms: seq<Member>, k: nat, rest: Bytes)
    requires k < |ms| && StoredSafely(ms) && forall i :: 0 <= i < |ms| ==> |ms[i].bytes| < Pow8(11)
    ensures Offset(ms, k) + BLOCK <= |Entries(ms)|
    ensures HeaderAt(Entries(ms) + rest, Offset(ms, k))
  {
    hide Header, ReadHeader, SafePath, AllZero, Padded, Pow8, Stored;
    var m, tail := ms[0], Entries(ms[1..]) + rest;
    var b := Entries(ms) + rest;
    assert b == Header(m.path, |m.bytes|) + (Pad(m.bytes) + tail);
    assert b[..BLOCK] == Header(m.path, |m.bytes|);
    HeaderReads(m.path, |m.bytes|);
    assert SafePath(Stored(m.path));
    assert StepOver(b) == |Entry(m)|;
    assert b[|Entry(m)|..] == tail;
    if k > 0 {
      WrittenHeaders(ms[1..], k - 1, rest);
      assert ms[..k][1..] == ms[1..][..k - 1];
      assert Entries(ms[..k]) == Entry(m) + Entries(ms[1..][..k - 1]);
    } else {
      assert ms[..0] == [];
    }
  }

  /** No header of a written archive can lose or gain a byte value unnoticed. */
  lemma WrittenArchiveIsGuarded(ms: seq<Member>, k: nat, i: nat, v: Byte)
    requires Written(ms).Success? && StoredSafely(ms) && k < |ms|
    requires i < BLOCK && (i < 148 || i >= 156)
    ensures Offset(ms, k) + i < |Written(ms).value|
    ensures v != Written(ms).value[Offset(ms, k) + i] ==>
              ReadArchive(Written(ms).value[Offset(ms, k) + i := v]) == Failure(ChecksumDrift)
  {
    hide Entries, Read, Stored, SafePath, Pow8, HeaderAt, Written;
    WrittenShape(ms);
    var b := Written(ms).value;
    WrittenHeaders(ms, k, Zeros(2 * BLOCK));
    ReadEntries(ms);
    if v != b[Offset(ms, k) + i] { DamageIsDetected(b, Offset(ms, k), i, v); }
  }
}
