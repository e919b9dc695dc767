/** The loops of the archive writer and reader: buffers filled in place, offsets advanced. */
module TarMini {
  import opened Wrappers
  import opened JsText
  import opened Tar
  import opened TarArchive

  method AsciiBytes(text: Text, len: nat) returns (out: array<Byte>)
    ensures fresh(out) && out[..] == Ascii(text, len)
  {
    out := new Byte[len](_ => 0);
    var i := 0;
    while i < |text| && i < len
      invariant 0 <= i <= len && i <= |text|
      invariant forall k :: 0 <= k < len ==> out[k] == if k < i then text[k] as int % 256 else 0
    {
      out[i] := text[i] as int % 256;
      i := i + 1;
    }
  }

  /** `head.set(value, at)`. */
  method Put(head: array<Byte>, at: nat, value: Bytes)
    requires at + |value| <= head.Length
    modifies head
    ensures head[..] == old(head[..at]) + value + old(head[at + |value|..])
  {
    forall i | 0 <= i < |value| {
      head[at + i] := value[i];
    }
  }

  /** Extend a header that is filled up to `at`. */
  method Next(head: array<Byte>, ghost done: Bytes, at: nat, value: Bytes)
    requires |done| == at && at + |value| <= head.Length && head[..] == done + Zeros(head.Length - at)
    modifies head
    ensures head[..] == done + value + Zeros(head.Length - at - |value|)
  {
    ghost var was := head[..];
    Put(head, at, value);
    assert was[..at] == done;
    assert was[at + |value|..] == Zeros(head.Length - at - |value|);
  }

  /** The block of one member, or the overflow error. */
  method WriteHeader(path: Text, size: nat) returns (r: Option<Bytes>)
    ensures r == if size < Pow8(11) then Some(Header(path, size)) else None
  {
    var head := new Byte[BLOCK](_ => 0);
    var ok := WriteFront(head, path, size);
    if !ok { return None; }
    hide *;
    WriteBack(head, Front(path, size));
    WriteChecksum(head, Front(path, size));
    HeaderIs(path, size);
    r := Some(head[..]);
  }

  lemma HeaderIs(path: Text, size: nat)
    ensures Header(path, size) == Front(path, size) + (Fixed(Checksum(Front(path, size), Back()), 6) + [0, 32]) + Back()
  {}

  method WriteFront(head: array<Byte>, path: Text, size: nat) returns (ok: bool)
    requires head.Length == BLOCK && forall i :: 0 <= i < BLOCK ==> head[i] == 0
    modifies head
    ensures ok <==> size < Pow8(11)
    ensures ok ==> head[..] == Front(path, size) + Zeros(BLOCK - 148)
  {
    assert head[..] == [] + Zeros(BLOCK);
    OctalFields(size);
    FrontIs(path, size);
    hide *;
    var name := AsciiBytes(path, 100);
    Next(head, [], 0, name[..]);
    ghost var done := [] + name[..];
    Next(head, done, 100, Octal(420, 8).value);
    done := done + Field(420, 8);
    Next(head, done, 108, Octal(0, 8).value);
    done := done + Field(0, 8);
    Next(head, done, 116, Octal(0, 8).value);
    done := done + Field(0, 8);
    var field := Octal(size, 12);
    if field.None? { return false; }
    Next(head, done, 124, field.value);
    done := done + Field(size, 12);
    Next(head, done, 136, Octal(0, 12).value);
    ok := true;
  }

  lemma FrontIs(path: Text, size: nat)
    ensures Front(path, size)
         == [] + Ascii(path, 100) + Field(420, 8) + Field(0, 8) + Field(0, 8) + Field(size, 12) + Field(0, 12)
  {
    hide Ascii, Field;
  }

  lemma OctalFields(size: nat)
    ensures Octal(420, 8) == Some(Field(420, 8)) && Octal(0, 8) == Some(Field(0, 8)) && Octal(0, 12) == Some(Field(0, 12))
    ensures Octal(size, 12) == if size < Pow8(11) then Some(Field(size, 12)) else None
  {
    OctalExactly(size, 12);
    OctalExactly(420, 8);
    OctalExactly(0, 8);
    OctalExactly(0, 12);
    SmallPowers();
    hide Octal, Fixed, Pow8;
  }

  lemma SmallPowers()
    ensures Pow8(7) == 2097152 && Pow8(11) == 8589934592
  {
    Pow8Values();
    assert Pow8(7) == 8 * Pow8(6);
  }

  /** Type flag, magic and version. */
  method WriteBack(head: array<Byte>, ghost front: Bytes)
    requires |front| == 148 && head.Length == BLOCK && head[..] == front + Zeros(BLOCK - 148)
    modifies head
    ensures head[..] == front + Zeros(8) + Back()
  {
    ghost var done := front + Zeros(8);
    assert head[..] == done + Zeros(356);
    Next(head, done, 156, [ZERO]);
    done := done + [ZERO] + Zeros(100);
    assert head[..] == done + Zeros(255);
    Next(head, done, 257, USTAR + [0]);
    done := done + (USTAR + [0]);
    Next(head, done, 263, [ZERO, ZERO]);
    assert front + Zeros(8) + Back() == done + [ZERO, ZERO] + Zeros(247);
  }

  method Sum(head: Bytes) returns (sum: nat)
    requires |head| == BLOCK
    ensures sum == SumTo(head, BLOCK)
  {
    sum := 0;
    for i := 0 to BLOCK
      invariant sum == SumTo(head, i)
    {
      sum := sum + if i < 148 || i >= 156 then head[i] else 32;
    }
  }

  method WriteChecksum(head: array<Byte>, ghost front: Bytes)
    requires |front| == 148 && head.Length == BLOCK && head[..] == front + Zeros(8) + Back()
    modifies head
    ensures head[..] == front + (Fixed(Checksum(front, Back()), 6) + [0, 32]) + Back()
  {
    ghost var was := head[..];
    var sum := Sum(head[..]);
    SumBound(head[..], BLOCK);
    Pow8Values();
    PaddedDigits(sum, 6);
    hide Fixed, Back, SumTo, PadStart, Digits, Pow8;
    var chk := PadStart(Digits(sum), 6);
    Put(head, 148, chk + [0, 32]);
    assert was[..148] == front && was[156..] == Back();
  }

  /** pad2. */
  method Pad2(bytes: Bytes) returns (r: Bytes)
    ensures r == Pad(bytes)
  {
    var rest := |bytes| % BLOCK;
    if rest == 0 {
      assert bytes + Zeros(0) == bytes;
      return bytes;
    }
    var out := new Byte[|bytes| + (BLOCK - rest)](_ => 0);
    forall i | 0 <= i < |bytes| {
      out[i] := bytes[i];
    }
    r := out[..];
  }

  method TarWrite(members: seq<Member>) returns (r: Result<Bytes, TarError>)
    ensures r == Written(members)
  {
    hide *;
    var out: Bytes := [];
    var i := 0;
    EntriesNone(members);
    while i < |members|
      invariant 0 <= i <= |members|
      invariant forall k :: 0 <= k < i ==> MemberError(members[k]).None?
      invariant out == Entries(members[..i])
    {
      FirstErrorAt(members, i);
      var m := members[i];
      if !SafePath(m.path) { return Failure(UnsafePath); }
      var head := WriteHeader(m.path, |m.bytes|);
      if head.None? { return Failure(FieldOverflow); }
      var body := Pad2(m.bytes);
      EntriesNext(members, i);
      out := out + (head.value + body);
      i := i + 1;
    }
    assert members[..i] == members;
    WrittenAll(members);
    r := Success(out + Zeros(2 * BLOCK));
  }

  lemma EntriesNone(ms: seq<Member>)
    ensures Entries(ms[..0]) == []
  {}

  lemma WrittenAll(ms: seq<Member>)
    requires forall i :: 0 <= i < |ms| ==> MemberError(ms[i]).None?
    ensures Written(ms) == Success(Entries(ms) + Zeros(2 * BLOCK))
  {
    hide MemberError, Entries;
  }

  lemma FirstErrorAt(ms: seq<Member>, i: nat)
    requires i < |ms| && forall k :: 0 <= k < i ==> MemberError(ms[k]).None?
    ensures !SafePath(ms[i].path) ==> Written(ms) == Failure(UnsafePath)
    ensures SafePath(ms[i].path) && |ms[i].bytes| >= Pow8(11) ==> Written(ms) == Failure(FieldOverflow)
    ensures SafePath(ms[i].path) && |ms[i].bytes| < Pow8(11) ==> MemberError(ms[i]).None?
  {
    hide SafePath, Pow8, Entries;
    if MemberError(ms[i]).Some? { FirstErrorIs(ms, i); }
  }

  lemma {:induction false} FirstErrorIs(ms: seq<Member>, i: nat)
    requires i < |ms| && MemberError(ms[i]).Some? && forall k :: 0 <= k < i ==> MemberError(ms[k]).None?
    ensures FirstError(ms) == MemberError(ms[i]).value
  {
    hide MemberError;
    if i > 0 { FirstErrorIs(ms[1..], i - 1); }
  }

  lemma {:induction false} EntriesNext(ms: seq<Member>, i: nat)
    requires i < |ms|
    ensures Entries(ms[..i + 1]) == Entries(ms[..i]) + (Header(ms[i].path, |ms[i].bytes|) + Pad(ms[i].bytes))
  {
    hide Header, Pad;
    if i > 0 {
      EntriesNext(ms[1..], i - 1);
      assert ms[1..][..i - 1] == ms[..i][1..] && ms[1..][..i] == ms[..i + 1][1..];
      assert Entries(ms[..i + 1]) == Entry(ms[0]) + Entries(ms[..i + 1][1..]);
      assert Entries(ms[..i]) == Entry(ms[0]) + Entries(ms[..i][1..]);
    } else {
      var none: seq<Member> := [];
      assert ms[..1] == [ms[0]] && ms[..0] == none && [ms[0]][1..] == none;
      assert Entries([ms[0]]) == Entry(ms[0]) + Entries(none) == Entry(ms[0]);
    }
  }

  // ---- reading ---------------------------------------------------------------------------------

  method PathOf(head: Bytes) returns (path: Text)
    requires |head| == BLOCK
    ensures path == CutAtZero(head[..100])
  {
    path := [];
    var i := 0;
    while i < 100 && head[i] != 0
      invariant 0 <= i <= 100
      invariant CutAtZero(head[..100]) == path + CutAtZero(head[i..100])
    {
      assert head[i..100][1..] == head[i + 1..100];
      path := path + [head[i]];
      i := i + 1;
    }
    assert CutAtZero(head[i..100]) == [];
  }

  method ParseHeader(head: Bytes) returns (r: Result<(Text, Option<int>), TarError>)
    requires |head| == BLOCK
    ensures r == ReadHeader(head)
  {
    hide SumTo, CutAtZero, SafePath, ParseInt, CutAtNul;
    var stored := Sum(head);
    if ParseInt(head[148..154]) != Some(stored) { return Failure(ChecksumDrift); }
    if head[257..262] != USTAR { return Failure(NotUstar); }
    if head[156] != ZERO && head[156] != 0 { return Failure(UnsupportedType); }
    var path := PathOf(head);
    var size := ParseInt(CutAtNul(head[124..136]));
    if !SafePath(path) { return Failure(UnsafePath); }
    r := Success((path, size));
  }

  /** The member at offset `at` and the offset after it. */
  method ReadMember(bytes: Bytes, at: nat) returns (r: Result<(Member, nat), TarError>)
    requires at + BLOCK <= |bytes| && !AllZero(bytes[at..at + BLOCK])
    ensures r.Failure? ==> Read(bytes[at..]) == Failure(r.error)
    ensures r.Success? ==>
              r.value.1 > at && Read(bytes[at..]) == Prepend(r.value.0, Read(bytes[Upto(r.value.1, bytes)..]))
  {
    hide AllZero, Read, Prepend;
    ReadAt(bytes, at);
    var parsed := ParseHeader(bytes[at..at + BLOCK]);
    if parsed.Failure? { return Failure(parsed.error); }
    var (path, size) := parsed.value;
    if size.Some? && size.value < 0 { return Failure(BadLength); }
    var n := Size(size);
    r := Success((Member(path, bytes[at + BLOCK..Upto(at + BLOCK + n, bytes)]), at + BLOCK + Padded(n)));
  }

  lemma ReadAt(bytes: Bytes, at: nat)
    requires at + BLOCK <= |bytes| && !AllZero(bytes[at..at + BLOCK])
    ensures Read(bytes[at..])
         == match ReadHeader(bytes[at..at + BLOCK])
            case Failure(e) => Failure(e)
            case Success((path, size)) =>
              if size.Some? && size.value < 0 then Failure(BadLength)
              else Prepend(Member(path, bytes[at + BLOCK..Upto(at + BLOCK + Size(size), bytes)]),
                           Read(bytes[Upto(at + BLOCK + Padded(Size(size)), bytes)..]))
  {
    hide ReadHeader, AllZero, Padded, Prepend, Size;
    var rest, head := bytes[at..], bytes[at..at + BLOCK];
    assert rest[..BLOCK] == head;
    if ReadHeader(head).Success? {
      var (path, size) := ReadHeader(head).value;
      if !(size.Some? && size.value < 0) {
        var n := Size(size);
        ReadStep(rest, path, size);
        assert bytes[at + BLOCK..Upto(at + BLOCK + n, bytes)] == rest[BLOCK..Upto(BLOCK + n, rest)];
        assert rest[Upto(BLOCK + Padded(n), rest)..] == bytes[Upto(at + BLOCK + Padded(n), bytes)..];
      }
    }
  }

  method TarRead(bytes: Bytes) returns (r: Result<seq<Member>, TarError>)
    ensures r == ReadArchive(bytes)
  {
    if |bytes| % BLOCK != 0 { return Failure(Unaligned); }
    ArchiveIs(bytes);
    hide AllZero, Read, PrependAll, Prepend, ReadArchive;
    var members: seq<Member> := [];
    var at := 0;
    ghost var rest := bytes;
    PrependAllNone(Read(bytes));
    while at + BLOCK <= |bytes|
      invariant 0 <= at && rest == bytes[Upto(at, bytes)..]
      invariant Read(bytes) == PrependAll(members, Read(rest))
    {
      if AllZero(bytes[at..at + BLOCK]) { break; }
      var next := ReadMember(bytes, at);
      if next.Failure? {
        PrependAllFailed(members, next.error);
        return Failure(next.error);
      }
      var (m, after) := next.value;
      rest := bytes[Upto(after, bytes)..];
      PrependNext(members, m, Read(rest));
      members := members + [m];
      at := after;
    }
    ReadEnds(bytes, at);
    PrependAllNothing(members);
    if members == [] { return Failure(NoMembers); }
    r := Success(members);
  }

  lemma ArchiveIs(b: Bytes)
    ensures ReadArchive(b)
         == if |b| % BLOCK != 0 then Failure(Unaligned) else if Read(b) == Success([]) then Failure(NoMembers) else Read(b)
  {}

  lemma ReadEnds(bytes: Bytes, at: nat)
    requires at + BLOCK > |bytes| || AllZero(bytes[at..at + BLOCK])
    ensures Read(bytes[Upto(at, bytes)..]) == Success([])
  {
    hide AllZero;
    if at + BLOCK <= |bytes| { assert bytes[Upto(at, bytes)..][..BLOCK] == bytes[at..at + BLOCK]; }
  }

  function PrependAll(ms: seq<Member>, r: Result<seq<Member>, TarError>): Result<seq<Member>, TarError> {
    if r.Failure? then r else Success(ms + r.value)
  }

  lemma PrependAllNone(r: Result<seq<Member>, TarError>)
    ensures r == PrependAll([], r)
  {
    if r.Success? { assert [] + r.value == r.value; }
  }

  lemma PrependAllFailed(ms: seq<Member>, e: TarError)
    ensures PrependAll(ms, Failure(e)) == Failure(e)
  {}

  lemma PrependAllNothing(ms: seq<Member>)
    ensures PrependAll(ms, Success([])) == Success(ms)
  {
    assert ms + [] == ms;
  }

  lemma PrependNext(ms: seq<Member>, m: Member, r: Result<seq<Member>, TarError>)
    ensures PrependAll(ms, Prepend(m, r)) == PrependAll(ms + [m], r)
  {
    if r.Success? { assert ms + ([m] + r.value) == (ms + [m]) + r.value; }
  }
}
