/** The enclave's metadata: written into a buffer of a length computed beforehand, sealed, and restored
    (src/enclave/identity/Identity.cpp). */
module Metadata {
  import opened Bytes
  import opened Text
  import opened Json
  import opened JsonLayout
  import opened JsonRoundTrip
  import opened HandText
  import opened FileModel
  import opened StateText
  import opened Buffers
  import MerkleSeal

  const PAIR_LENGTH := 96
  const KEY_LENGTH := 64

  /** What is stored; the previous public key only after an upgrade. */
  datatype State = State(srd: seq<PathHashes>, keyPair: seq<Byte>, height: nat, account: string,
                         preKey: Option<seq<Byte>>, files: seq<FileEntry>)

  predicate GoodAccount(s: string) {
    Plain(s) && !(HASH_TAG <= s)
  }

  ghost predicate Proper(m: State) {
    && |m.keyPair| == PAIR_LENGTH && Int64(m.height) && GoodAccount(m.account)
    && (m.preKey.Some? ==> |m.preKey.value| == KEY_LENGTH)
    && PlainPaths(m.srd) && Ordered(m.srd) && FineFiles(m.files)
  }

  // ----- The text -----

  function KeyText(m: State): string {
    "\"id_key_pair\":\"" + Hex(m.keyPair) + "\","
  }

  function HeightText(m: State): string {
    "\"report_height\":" + Decimal(m.height) + ","
  }

  function AccountText(m: State): string {
    "\"chain_account_id\":\"" + m.account + "\","
  }

  function PreKeyText(m: State): string {
    if m.preKey.None? then "" else "\"pre_pub_key\":\"" + Hex(m.preKey.value) + "\","
  }

  const WORKLOAD_TITLE := "\"workload\":{"
  const FILES_TITLE := "\"files\":["

  /** What the buffer holds behind the private tag. */
  function MetaText(m: State): string {
    "{" + (WORKLOAD_TITLE + (SrdBody(m.srd) + ("}," + (KeyText(m) + (HeightText(m) + (AccountText(m) + (PreKeyText(m)
    + (FILES_TITLE + (FilesBody(m.files) + "]}")))))))))
  }

  /** The length of the buffer. */
  function BufferLength(m: State): nat {
    67 * HashNumber(m.srd) + 132 * |m.srd|
    + (23 + 5) + (8 + 5) + (11 + 3 + 256 + 3) + (13 + 3 + 20 + 1) + (16 + 3 + 64 + 3)
    + (if m.preKey.None? then 0 else 11 + 3 + 128 + 3) + (5 + 3)
    + 244 * |m.files|
  }

  /** How much of the buffer is left over, exactly. */
  lemma Leftover(m: State)
    requires Proper(m)
    ensures BufferLength(m) - (|PRIVATE_TAG| + |MetaText(m)|)
         == (126 * |m.srd| - PathLengths(m.srd)) + Filled(m.srd) + (if m.srd == [] then 0 else 1)
            + (30 * |m.files| - DigitsOf(m.files)) + (if m.files == [] then 0 else 1)
            + (20 - |Decimal(m.height)|) + (64 - |m.account|) + 64
  {
    hide *;
    ProperParts(m);
    SrdBodyLength(m.srd);
    FilesBodyLength(m.files);
    MetaLength(m);
    BufferSum(m);
    NothingCounts();
  }

  lemma NothingCounts()
    ensures PathLengths([]) == HashNumber([]) == Filled([]) == DigitsOf([]) == 0
  {
  }

  lemma ProperParts(m: State)
    requires Proper(m)
    ensures |m.keyPair| == PAIR_LENGTH == 96 && (m.preKey.Some? ==> |m.preKey.value| == KEY_LENGTH == 64) && FineFiles(m.files)
    ensures |PRIVATE_TAG| == 23
  {
  }

  lemma BufferSum(m: State)
    ensures BufferLength(m) == 67 * HashNumber(m.srd) + 132 * |m.srd| + 445 + (if m.preKey.None? then 0 else 145) + 244 * |m.files|
  {
  }

  lemma MetaLength(m: State)
    requires |m.keyPair| == 96 && (m.preKey.Some? ==> |m.preKey.value| == 64)
    ensures |MetaText(m)| == 274 + |SrdBody(m.srd)| + |Decimal(m.height)| + |m.account|
                             + (if m.preKey.None? then 0 else 145) + |FilesBody(m.files)|
  {
    hide SrdBody, FilesBody, Decimal, Hex;
  }

  /** Paths of at most 126 characters, an account id of at most 64 and numbers within their digits always fit. */
  lemma BufferSuffices(m: State)
    requires Proper(m) && PathsShort(m.srd) && |m.account| <= 64
    requires forall i :: 0 <= i < |m.files| ==> m.files[i].size < Pow10(12) && m.files[i].oldSize < Pow10(12) && m.files[i].blockNum < Pow10(6)
    ensures |PRIVATE_TAG| + |MetaText(m)| <= BufferLength(m)
  {
    hide *;
    Leftover(m);
    PathsFit(m.srd);
    DigitsFit(m.files);
    ProperHeight(m);
    HeightDigits(m.height);
  }

  lemma ProperHeight(m: State)
    requires Proper(m)
    ensures Int64(m.height)
  {
  }

  lemma HeightDigits(n: nat)
    requires Int64(n)
    ensures |Decimal(n)| <= 20
  {
    DecimalLength(n, 20);
    var p := Pow10(18);
    EighteenDigits();
    assert Pow10(19) == 10 * p && Pow10(20) == 10 * Pow10(19);
  }

  lemma EighteenDigits()
    ensures Pow10(18) == 1_000_000_000_000_000_000
  {
    assert Pow10(3) == 1000;
    assert Pow10(6) == 1_000_000;
    assert Pow10(9) == 1_000_000_000;
    assert Pow10(12) == 1_000_000_000_000;
    assert Pow10(15) == 1_000_000_000_000_000;
  }

  predicate PathsShort(srd: seq<PathHashes>) {
    forall i :: 0 <= i < |srd| ==> |srd[i].path| <= 126
  }

  lemma {:induction false} PathsFit(srd: seq<PathHashes>)
    requires PathsShort(srd)
    ensures PathLengths(srd) <= 126 * |srd|
  {
    if srd != [] {
      PathsFit(srd[1..]);
    }
  }

  lemma {:induction false} DigitsFit(files: seq<FileEntry>)
    requires forall i :: 0 <= i < |files| ==> files[i].size < Pow10(12) && files[i].oldSize < Pow10(12) && files[i].blockNum < Pow10(6)
    ensures DigitsOf(files) <= 30 * |files|
  {
    hide Pow10, Decimal;
    if files != [] {
      DecimalLength(files[0].size, 12);
      DecimalLength(files[0].oldSize, 12);
      DecimalLength(files[0].blockNum, 6);
      DigitsFit(files[1..]);
    }
  }

  /** The part of id_store_metadata that writes: every copy lies within the buffer, and what is handed on for
      sealing is the tag and the text. */
  method StoreMetadata(m: State) returns (data: string)
    requires Proper(m) && |PRIVATE_TAG| + |MetaText(m)| <= BufferLength(m)
    ensures data == PRIVATE_TAG + MetaText(m)
  {
    hide *;
    ProperParts(m);
    var buffer := new char[BufferLength(m)];
    ghost var whole := PRIVATE_TAG + MetaText(m);
    var offset: nat := Copy(buffer, 0, PRIVATE_TAG);
    assert buffer[..0] == "";
    EmptyLeft(PRIVATE_TAG);
    ghost var back := KeyText(m) + (HeightText(m) + (AccountText(m) + (PreKeyText(m) + (FILES_TITLE + (FilesBody(m.files) + "]}")))));
    MetaParts(m);
    offset := Append(buffer, offset, "{", WORKLOAD_TITLE + (SrdBody(m.srd) + ("}," + back)), whole);
    offset := Append(buffer, offset, WORKLOAD_TITLE, SrdBody(m.srd) + ("}," + back), whole);
    offset := AppendSrd(buffer, offset, m.srd, "}," + back, whole);
    offset := Append(buffer, offset, "},", back, whole);
    offset := Append(buffer, offset, KeyText(m),
                     HeightText(m) + (AccountText(m) + (PreKeyText(m) + (FILES_TITLE + (FilesBody(m.files) + "]}")))), whole);
    offset := Append(buffer, offset, HeightText(m), AccountText(m) + (PreKeyText(m) + (FILES_TITLE + (FilesBody(m.files) + "]}"))), whole);
    offset := Append(buffer, offset, AccountText(m), PreKeyText(m) + (FILES_TITLE + (FilesBody(m.files) + "]}")), whole);
    if m.preKey.Some? {
      offset := Append(buffer, offset, PreKeyText(m), FILES_TITLE + (FilesBody(m.files) + "]}"), whole);
    } else {
      NoPreKey(m);
      EmptyLeft(FILES_TITLE + (FilesBody(m.files) + "]}"));
    }
    offset := Append(buffer, offset, FILES_TITLE, FilesBody(m.files) + "]}", whole);
    offset := AppendFiles(buffer, offset, m.files, "]}", whole);
    EmptyRight("]}");
    offset := Append(buffer, offset, "]}", "", whole);
    EmptyRight(buffer[..offset]);
    data := buffer[..offset];
  }

  lemma NoPreKey(m: State)
    requires m.preKey.None?
    ensures PreKeyText(m) == ""
  {
  }

  lemma MetaParts(m: State)
    ensures MetaText(m) == "{" + (WORKLOAD_TITLE + (SrdBody(m.srd) + ("}," + (KeyText(m) + (HeightText(m) + (AccountText(m) + (PreKeyText(m)
                           + (FILES_TITLE + (FilesBody(m.files) + "]}")))))))))
  {
  }

  /** A copy of the next part of the whole. */
  method Append(buffer: array<char>, offset: nat, text: string, ghost rest: string, ghost whole: string) returns (next: nat)
    requires offset <= buffer.Length && |whole| <= buffer.Length && buffer[..offset] + (text + rest) == whole
    modifies buffer
    ensures next <= buffer.Length && buffer[..next] + rest == whole
  {
    Associative(buffer[..offset], text, rest);
    assert |buffer[..offset]| + |text| + |rest| == |whole|;
    next := Copy(buffer, offset, text);
  }

  lemma SrdBodyNext(srd: seq<PathHashes>, i: nat)
    requires i < |srd|
    ensures SrdBody(srd[i..]) == PathText(srd[i]) + ((if i != |srd| - 1 then "," else "") + SrdBody(srd[i + 1..]))
  {
    hide PathText;
    var rest := srd[i..];
    assert rest[0] == srd[i] && rest[1..] == srd[i + 1..];
    if i == |srd| - 1 {
      assert SrdBody(srd[i + 1..]) == "";
      EmptyRight(PathText(srd[i]));
    }
  }

  method AppendSrd(buffer: array<char>, offset: nat, srd: seq<PathHashes>, ghost rest: string, ghost whole: string) returns (next: nat)
    requires offset <= buffer.Length && |whole| <= buffer.Length && buffer[..offset] + (SrdBody(srd) + rest) == whole
    modifies buffer
    ensures next <= buffer.Length && buffer[..next] + rest == whole
  {
    hide SrdBody, PathText;
    next := offset;
    var i: nat := 0;
    assert srd[0..] == srd;
    while i < |srd|
      invariant i <= |srd| && next <= buffer.Length
      invariant buffer[..next] + (SrdBody(srd[i..]) + rest) == whole
    {
      SrdBodyNext(srd, i);
      ghost var behind := SrdBody(srd[i + 1..]);
      ghost var comma := if i != |srd| - 1 then "," else "";
      Associative(PathText(srd[i]), comma + behind, rest);
      Associative(comma, behind, rest);
      next := AppendPath(buffer, next, srd[i], comma + (behind + rest), whole);
      if i != |srd| - 1 {
        next := Append(buffer, next, ",", behind + rest, whole);
      } else {
        EmptyLeft(behind + rest);
      }
      i := i + 1;
    }
    NoSrd(srd);
    EmptyLeft(rest);
  }

  lemma NoSrd(srd: seq<PathHashes>)
    ensures SrdBody(srd[|srd|..]) == ""
  {
  }

  lemma PathParts(p: PathHashes, rest: string)
    ensures PathText(p) + rest == ("\"" + p.path + "\":[") + (HashList(p.hashes) + ("]" + rest))
  {
    hide HashList;
    PathRegroup("\"", p.path, "\":[", HashList(p.hashes), "]", rest);
  }

  lemma PathRegroup(a: string, b: string, c: string, d: string, e: string, rest: string)
    ensures (a + b + c + d + e) + rest == (a + b + c) + (d + (e + rest))
  {
  }

  method AppendPath(buffer: array<char>, offset: nat, p: PathHashes, ghost rest: string, ghost whole: string) returns (next: nat)
    requires offset <= buffer.Length && |whole| <= buffer.Length && buffer[..offset] + (PathText(p) + rest) == whole
    modifies buffer
    ensures next <= buffer.Length && buffer[..next] + rest == whole
  {
    hide HashList, PathText, QuotedHash;
    PathParts(p, rest);
    next := Append(buffer, offset, "\"" + p.path + "\":[", HashList(p.hashes) + ("]" + rest), whole);
    var j: nat := 0;
    assert p.hashes[0..] == p.hashes;
    while j < |p.hashes|
      invariant j <= |p.hashes| && next <= buffer.Length
      invariant buffer[..next] + (HashList(p.hashes[j..]) + ("]" + rest)) == whole
    {
      HashListNext(p.hashes, j);
      ghost var behind := HashList(p.hashes[j + 1..]);
      ghost var comma := if j != |p.hashes| - 1 then "," else "";
      Associative(QuotedHash(p.hashes[j]), comma + behind, "]" + rest);
      Associative(comma, behind, "]" + rest);
      next := Append(buffer, next, QuotedHash(p.hashes[j]), comma + (behind + ("]" + rest)), whole);
      if j != |p.hashes| - 1 {
        next := Append(buffer, next, ",", behind + ("]" + rest), whole);
      } else {
        EmptyLeft(behind + ("]" + rest));
      }
      j := j + 1;
    }
    NoHashes(p.hashes);
    EmptyLeft("]" + rest);
    next := Append(buffer, next, "]", rest, whole);
  }

  lemma NoHashes(hs: seq<Hash>)
    ensures HashList(hs[|hs|..]) == ""
  {
  }

  lemma HashListNext(hs: seq<Hash>, i: nat)
    requires i < |hs|
    ensures HashList(hs[i..]) == QuotedHash(hs[i]) + ((if i != |hs| - 1 then "," else "") + HashList(hs[i + 1..]))
  {
    hide QuotedHash;
    var rest := hs[i..];
    assert rest[0] == hs[i] && rest[1..] == hs[i + 1..];
    if i == |hs| - 1 {
      assert HashList(hs[i + 1..]) == "";
      EmptyRight(QuotedHash(hs[i]));
    }
  }

  method AppendFiles(buffer: array<char>, offset: nat, files: seq<FileEntry>, ghost rest: string, ghost whole: string) returns (next: nat)
    requires offset <= buffer.Length && |whole| <= buffer.Length && buffer[..offset] + (FilesBody(files) + rest) == whole
    modifies buffer
    ensures next <= buffer.Length && buffer[..next] + rest == whole
  {
    hide FilesBody, FileText;
    next := offset;
    var i: nat := 0;
    assert files[0..] == files;
    while i < |files|
      invariant i <= |files| && next <= buffer.Length
      invariant buffer[..next] + (FilesBody(files[i..]) + rest) == whole
    {
      FilesNext(files, i);
      ghost var behind := FilesBody(files[i + 1..]);
      ghost var comma := if i != |files| - 1 then "," else "";
      Associative(FileText(files[i]), comma + behind, rest);
      Associative(comma, behind, rest);
      next := Append(buffer, next, FileText(files[i]), comma + (behind + rest), whole);
      if i != |files| - 1 {
        next := Append(buffer, next, ",", behind + rest, whole);
      } else {
        EmptyLeft(behind + rest);
      }
      i := i + 1;
    }
    NoFiles(files);
    EmptyLeft(rest);
  }

  // ----- Restoring -----

  /** What comes back: the key pair and the previous key are cut to their lengths. */
  datatype Restore =
    | NoMetadata
    | BadSealData
    | BadKey
    | OverRead
    | Back(srd: Option<seq<RawHashes>>, files: Option<seq<Json>>, keyPair: seq<Byte>, height: int,
           preKey: Option<seq<Byte>>, account: string)

  function HasKey(j: Json, key: string): bool {
    j.Object? && KeyIn(j.fields, key)
  }

  /** What id_get_metadata makes of the key pair beside the one that is already present, if any. */
  datatype PairCheck = PairFine | PairInvalid | PairOther | PairOverRead

  function CheckPair(keyText: string, present: Option<seq<Byte>>): PairCheck {
    if |keyText| % 2 != 0 || |keyText| == 0 then PairInvalid
    else if present.None? then PairFine
    else if |keyText| < 2 * PAIR_LENGTH then PairOverRead
    else if Unhex(keyText)[..PAIR_LENGTH] == present.value then PairFine
    else PairOther
  }

  /** id_get_metadata and id_restore_metadata on unsealed data of the given size; the parser is given the memory
      behind the tag. The status of the check of the pair is only logged: the caller goes on with the metadata. */
  function RestoreMetadata(memory: string, size: nat, present: Option<seq<Byte>>): Restore {
    if size == 0 then NoMetadata
    else if |memory| < |PRIVATE_TAG| then OverRead
    else
      match LoadMemory(memory[|PRIVATE_TAG|..], size)
      case Fault => OverRead
      case Parsed(j, _) =>
        var keyText := ToText(Get(j, "id_key_pair"));
        if Size(j) <= 0 then NoMetadata
        else if CheckPair(keyText, present) == PairOverRead then OverRead
        else if HasKey(j, "workload") && Get(j, "workload").Object? && RestoreSrd(Get(j, "workload").fields).None? then BadSealData
        else if |keyText| % 2 != 0 || |keyText| == 0 then BadKey
        else if |keyText| < 2 * PAIR_LENGTH then OverRead
        else
          var preText := ToText(Get(j, "pre_pub_key"));
          var upgraded := HasKey(j, "pre_pub_key");
          if upgraded && (|preText| % 2 != 0 || |preText| == 0) then BadKey
          else if upgraded && |preText| < 2 * KEY_LENGTH then OverRead
          else
            Back(if HasKey(j, "workload") && Get(j, "workload").Object? then RestoreSrd(Get(j, "workload").fields) else None,
                 if HasKey(j, "files") && Get(j, "files").Array? then Some(Get(j, "files").items) else None,
                 Unhex(keyText)[..PAIR_LENGTH], ToInt(Get(j, "report_height")),
                 if upgraded then Some(Unhex(preText)[..KEY_LENGTH]) else None,
                 ToText(Get(j, "chain_account_id")))
  }

  // ----- The text is a layout -----

  function FrontMembers(m: State): (ms: seq<Member>)
    ensures |ms| == 4
  {
    [Tight("workload", SrdDoc(m.srd)), Tight("id_key_pair", DStr(Hex(m.keyPair))),
     Tight("report_height", DInt(m.height)), Tight("chain_account_id", DStr(m.account))]
  }

  function BackMembers(m: State): (ms: seq<Member>)
    ensures |ms| == if m.preKey.None? then 1 else 2
  {
    if m.preKey.None? then [Tight("files", FilesDoc(m.files))]
    else [Tight("pre_pub_key", DStr(Hex(m.preKey.value))), Tight("files", FilesDoc(m.files))]
  }

  function MetaMembers(m: State): seq<Member> {
    FrontMembers(m) + BackMembers(m)
  }

  lemma FlatFront(a: seq<Member>, b: seq<Member>)
    requires |a| == 4 && b != []
    ensures FlatMembers(a + b)
         == FlatMember(a[0]) + ("," + (FlatMember(a[1]) + ("," + (FlatMember(a[2]) + ("," + (FlatMember(a[3]) + ("," + FlatMembers(b))))))))
  {
    hide FlatMember, FlatMembers;
    var ms := a + b;
    assert ms[0..] == ms && ms[4..] == b;
    FlatFrom(ms, 0);
    FlatFrom(ms, 1);
    FlatFrom(ms, 2);
    FlatFrom(ms, 3);
  }

  lemma FlatBack(b: seq<Member>)
    requires |b| == 2
    ensures FlatMembers(b) == FlatMember(b[0]) + ("," + (FlatMember(b[1]) + "}"))
  {
    hide FlatMember, FlatMembers;
    assert b[0..] == b;
    FlatFrom(b, 0);
    FlatFrom(b, 1);
  }

  lemma TextOfPlain(s: string)
    requires Plain(s)
    ensures Flat(DStr(s)) == "\"" + s + "\""
  {
    EscapePlain(s);
  }

  /** Each part of the text is a pair and a comma. */
  lemma QuotedPart(part: string, key: string, value: string)
    requires part == "\"" + key + "\":\"" + value + "\"," && Plain(value)
    ensures part == FlatMember(Tight(key, DStr(value))) + ","
  {
    hide Flat, FlatMember, Plain;
    FlatTight(key, DStr(value));
    TextOfPlain(value);
    assert "\":\"" == "\":" + "\"" && "\"," == "\"" + ",";
    PartRegroup("\"", key, "\":", value, ",");
  }

  lemma PartRegroup(q: string, key: string, c: string, value: string, comma: string)
    ensures q + key + (c + q) + value + (q + comma) == (q + key + c + (q + value + q)) + comma
  {
  }

  lemma KeyPart(m: State)
    ensures KeyText(m) == FlatMember(Tight("id_key_pair", DStr(Hex(m.keyPair)))) + ","
  {
    hide Plain, FlatMember, Hex;
    HexIsPlain(Hex(m.keyPair));
    assert "\"id_key_pair\":\"" == "\"" + "id_key_pair" + "\":\"";
    QuotedPart(KeyText(m), "id_key_pair", Hex(m.keyPair));
  }

  lemma AccountPart(m: State)
    requires Plain(m.account)
    ensures AccountText(m) == FlatMember(Tight("chain_account_id", DStr(m.account))) + ","
  {
    hide Plain, FlatMember;
    assert "\"chain_account_id\":\"" == "\"" + "chain_account_id" + "\":\"";
    QuotedPart(AccountText(m), "chain_account_id", m.account);
  }

  lemma PreKeyPart(m: State)
    requires m.preKey.Some?
    ensures PreKeyText(m) == FlatMember(Tight("pre_pub_key", DStr(Hex(m.preKey.value)))) + ","
  {
    hide Plain, FlatMember, Hex;
    HexIsPlain(Hex(m.preKey.value));
    assert "\"pre_pub_key\":\"" == "\"" + "pre_pub_key" + "\":\"";
    QuotedPart(PreKeyText(m), "pre_pub_key", Hex(m.preKey.value));
  }

  lemma HeightPart(m: State)
    ensures HeightText(m) == FlatMember(Tight("report_height", DInt(m.height))) + ","
  {
    hide FlatMember, Decimal;
    FlatTight("report_height", DInt(m.height));
    assert "\"report_height\":" == "\"" + "report_height" + "\":";
  }

  lemma WorkloadPart(m: State)
    ensures WORKLOAD_TITLE + (SrdBody(m.srd) + "}") == FlatMember(Tight("workload", SrdDoc(m.srd)))
  {
    hide FlatMember, Flat, SrdBody;
    FlatTight("workload", SrdDoc(m.srd));
    SrdDocText(m.srd);
    assert WORKLOAD_TITLE == ("\"" + "workload" + "\":") + "{";
    TitleRegroup("\"" + "workload" + "\":", "{", SrdBody(m.srd), "}");
  }

  lemma FilesPart(m: State)
    requires FineFiles(m.files)
    ensures FILES_TITLE + (FilesBody(m.files) + "]") == FlatMember(Tight("files", FilesDoc(m.files)))
  {
    hide FlatMember, Flat, FilesBody;
    FlatTight("files", FilesDoc(m.files));
    FilesDocText(m.files);
    assert FILES_TITLE == ("\"" + "files" + "\":") + "[";
    TitleRegroup("\"" + "files" + "\":", "[", FilesBody(m.files), "]");
  }

  lemma TitleRegroup(a: string, b: string, c: string, d: string)
    ensures (a + b) + (c + d) == a + (b + c + d)
  {
  }

  lemma MetaDocText(m: State)
    requires Proper(m)
    ensures Flat(DObj(MetaMembers(m), "")) == MetaText(m)
  {
    hide *;
    ProperAccount(m);
    ProperParts(m);
    FrontAt(m);
    BackAt(m);
    MembersSplit(m);
    FlatObject(MetaMembers(m));
    FlatFront(FrontMembers(m), BackMembers(m));
    WorkloadPart(m);
    KeyPart(m);
    HeightPart(m);
    AccountPart(m);
    FilesPart(m);
    MetaParts(m);
    var a, back := FrontMembers(m), FlatMember(Tight("files", FilesDoc(m.files)));
    if m.preKey.Some? {
      PreKeyPart(m);
      FlatBack(BackMembers(m));
      MetaJoin(m, FlatMember(a[1]), FlatMember(a[2]), FlatMember(a[3]), FlatMember(Tight("pre_pub_key", DStr(Hex(m.preKey.value)))), back);
    } else {
      NoPreKey(m);
      FlatOne(Tight("files", FilesDoc(m.files)));
      MetaJoinShort(m, FlatMember(a[1]), FlatMember(a[2]), FlatMember(a[3]), back);
    }
  }

  lemma ProperAccount(m: State)
    requires Proper(m)
    ensures Plain(m.account) && !(HASH_TAG <= m.account)
  {
  }

  lemma FrontAt(m: State)
    ensures var a := FrontMembers(m);
            && a[0] == Tight("workload", SrdDoc(m.srd)) && a[1] == Tight("id_key_pair", DStr(Hex(m.keyPair)))
            && a[2] == Tight("report_height", DInt(m.height)) && a[3] == Tight("chain_account_id", DStr(m.account))
  {
    hide SrdDoc, Hex;
  }

  lemma BackAt(m: State)
    ensures var b := BackMembers(m);
            && (m.preKey.None? ==> b == [Tight("files", FilesDoc(m.files))])
            && (m.preKey.Some? ==> b[0] == Tight("pre_pub_key", DStr(Hex(m.preKey.value))) && b[1] == Tight("files", FilesDoc(m.files)))
  {
    hide FilesDoc, Hex;
  }

  lemma MembersSplit(m: State)
    ensures MetaMembers(m) == FrontMembers(m) + BackMembers(m) && MetaMembers(m) != []
  {
    hide FrontMembers, BackMembers;
  }

  lemma MetaJoin(m: State, k: string, h: string, a: string, pre: string, back: string)
    requires KeyText(m) == k + "," && HeightText(m) == h + "," && AccountText(m) == a + "," && PreKeyText(m) == pre + ","
    requires FILES_TITLE + (FilesBody(m.files) + "]") == back
    ensures var w := WORKLOAD_TITLE + (SrdBody(m.srd) + "}");
            "{" + (w + ("," + (k + ("," + (h + ("," + (a + ("," + (pre + ("," + (back + "}"))))))))))) == MetaText(m)
  {
    hide SrdBody, FilesBody, KeyText, HeightText, AccountText, PreKeyText;
    assert "}," == "}" + "," && "]}" == "]" + "}";
    JoinRegroup("{", WORKLOAD_TITLE, SrdBody(m.srd), "}", ",", k, h, a, pre, FILES_TITLE, FilesBody(m.files), "]");
  }

  lemma JoinRegroup(o: string, w: string, s: string, e: string, c: string, k: string, h: string, a: string, p: string,
                    t: string, f: string, b: string)
    ensures o + ((w + (s + e)) + (c + (k + (c + (h + (c + (a + (c + (p + (c + ((t + (f + b)) + e)))))))))))
         == o + (w + (s + ((e + c) + ((k + c) + ((h + c) + ((a + c) + ((p + c) + (t + (f + (b + e))))))))))
  {
  }

  lemma MetaJoinShort(m: State, k: string, h: string, a: string, back: string)
    requires KeyText(m) == k + "," && HeightText(m) == h + "," && AccountText(m) == a + "," && PreKeyText(m) == ""
    requires FILES_TITLE + (FilesBody(m.files) + "]") == back
    ensures var w := WORKLOAD_TITLE + (SrdBody(m.srd) + "}");
            "{" + (w + ("," + (k + ("," + (h + ("," + (a + ("," + (back + "}"))))))))) == MetaText(m)
  {
    hide SrdBody, FilesBody, KeyText, HeightText, AccountText, PreKeyText;
    assert "}," == "}" + "," && "]}" == "]" + "}";
    EmptyLeft(FILES_TITLE + (FilesBody(m.files) + "]}"));
    ShortRegroup("{", WORKLOAD_TITLE, SrdBody(m.srd), "}", ",", k, h, a, FILES_TITLE, FilesBody(m.files), "]");
  }

  lemma ShortRegroup(o: string, w: string, s: string, e: string, c: string, k: string, h: string, a: string,
                     t: string, f: string, b: string)
    ensures o + ((w + (s + e)) + (c + (k + (c + (h + (c + (a + (c + ((t + (f + b)) + e)))))))))
         == o + (w + (s + ((e + c) + ((k + c) + ((h + c) + ((a + c) + (t + (f + (b + e)))))))))
  {
  }

  // ----- The way back -----

  lemma MetaWords()
    ensures Word("workload") && Word("id_key_pair") && Word("report_height") && Word("chain_account_id")
    ensures Word("pre_pub_key") && Word("files")
  {
  }

  lemma ProperLists(m: State)
    requires Proper(m)
    ensures PlainPaths(m.srd) && Ordered(m.srd) && FineFiles(m.files) && Int64(m.height)
  {
  }

  lemma MetaFrontGood(m: State, ov: Overload)
    requires Proper(m)
    ensures forall i :: 0 <= i < 4 ==> GoodMember(FrontMembers(m)[i], ov)
  {
    hide *;
    ProperLists(m);
    ProperParts(m);
    ProperAccount(m);
    FrontAt(m);
    MetaWords();
    SrdDocGood(m.srd, ov);
    HexGood(Hex(m.keyPair), ov);
    IntGood(m.height, ov);
    PlainGood(m.account, ov);
    WordTight("workload", SrdDoc(m.srd), ov);
    WordTight("id_key_pair", DStr(Hex(m.keyPair)), ov);
    WordTight("report_height", DInt(m.height), ov);
    WordTight("chain_account_id", DStr(m.account), ov);
    forall i | 0 <= i < 4 ensures GoodMember(FrontMembers(m)[i], ov) {
      assert i == 0 || i == 1 || i == 2 || i == 3;
    }
  }

  lemma MetaBackGood(m: State, ov: Overload)
    requires Proper(m)
    ensures forall i :: 0 <= i < |BackMembers(m)| ==> GoodMember(BackMembers(m)[i], ov)
  {
    hide *;
    ProperLists(m);
    ProperParts(m);
    BackAt(m);
    MetaWords();
    FilesDocGood(m.files, ov);
    WordTight("files", FilesDoc(m.files), ov);
    if m.preKey.Some? {
      HexGood(Hex(m.preKey.value), ov);
      WordTight("pre_pub_key", DStr(Hex(m.preKey.value)), ov);
    }
  }

  lemma MetaDocGood(m: State, ov: Overload)
    requires Proper(m)
    ensures Good(DObj(MetaMembers(m), ""), ov)
  {
    hide FrontMembers, BackMembers, GoodMember, GoodMembers;
    MetaFrontGood(m, ov);
    MetaBackGood(m, ov);
    AllGood(MetaMembers(m), ov);
  }

  lemma MetaKeys(m: State)
    ensures DistinctMembers(MetaMembers(m))
    ensures (exists i :: 0 <= i < |MetaMembers(m)| && MetaMembers(m)[i].key == "pre_pub_key") <==> m.preKey.Some?
  {
    hide SrdDoc, FilesDoc, Hex;
    FrontAt(m);
    BackAt(m);
    var ms := MetaMembers(m);
    assert ms[0].key == "workload" && ms[1].key == "id_key_pair" && ms[2].key == "report_height" && ms[3].key == "chain_account_id";
    if m.preKey.Some? {
      assert ms[4].key == "pre_pub_key" && ms[5].key == "files";
    } else {
      assert ms[4].key == "files" && |ms| == 5;
    }
  }

  /** What the restoring enclave reads under each key. */
  ghost predicate HoldsMetadata(j: Json, m: State) {
    && j.Object? && j.fields != []
    && HasKey(j, "workload") && Get(j, "workload") == Object(SrdFields(m.srd))
    && ToText(Get(j, "id_key_pair")) == Hex(m.keyPair)
    && ToInt(Get(j, "report_height")) == m.height
    && ToText(Get(j, "chain_account_id")) == m.account
    && (HasKey(j, "pre_pub_key") <==> m.preKey.Some?)
    && (m.preKey.Some? ==> ToText(Get(j, "pre_pub_key")) == Hex(m.preKey.value))
    && HasKey(j, "files") && Get(j, "files") == Array(FileJsons(m.files))
  }

  lemma MetaDocReads(m: State)
    requires Proper(m)
    ensures HoldsMetadata(Value(DObj(MetaMembers(m), "")), m)
  {
    var j := Value(DObj(MetaMembers(m), ""));
    ReadFront(m, j);
    ReadBack(m, j);
    hide Get, Value, MetaMembers, ToText, ToInt, SrdFields, FileJsons, Hex;
  }

  lemma ReadFront(m: State, j: Json)
    requires Proper(m) && j == Value(DObj(MetaMembers(m), ""))
    ensures HasKey(j, "workload") && j.fields != [] && Get(j, "workload") == Object(SrdFields(m.srd))
    ensures ToText(Get(j, "id_key_pair")) == Hex(m.keyPair)
    ensures ToInt(Get(j, "report_height")) == m.height && ToText(Get(j, "chain_account_id")) == m.account
  {
    hide *;
    ProperLists(m);
    ProperParts(m);
    ProperAccount(m);
    FrontAt(m);
    MembersSplit(m);
    MetaKeys(m);
    var ms := MetaMembers(m);
    TightParts("workload", SrdDoc(m.srd));
    TightParts("id_key_pair", DStr(Hex(m.keyPair)));
    TightParts("report_height", DInt(m.height));
    TightParts("chain_account_id", DStr(m.account));
    MemberFound(ms, "", 0);
    MemberFound(ms, "", 1);
    MemberFound(ms, "", 2);
    MemberFound(ms, "", 3);
    SrdDocGood(m.srd, OfPointer);
    HexGood(Hex(m.keyPair), OfPointer);
    IntGood(m.height, OfPointer);
    PlainGood(m.account, OfPointer);
    KeysOfLayout(ms, "", "workload");
    assert ms[0].key == "workload";
    HasKeyIs(j, "workload");
  }

  lemma HasKeyIs(j: Json, key: string)
    ensures HasKey(j, key) <==> j.Object? && KeyIn(j.fields, key)
    ensures HasKey(j, key) ==> j.fields != []
  {
  }

  lemma ReadBack(m: State, j: Json)
    requires Proper(m) && j == Value(DObj(MetaMembers(m), ""))
    ensures HasKey(j, "files") && Get(j, "files") == Array(FileJsons(m.files))
    ensures HasKey(j, "pre_pub_key") <==> m.preKey.Some?
    ensures m.preKey.Some? ==> ToText(Get(j, "pre_pub_key")) == Hex(m.preKey.value)
  {
    hide *;
    ProperLists(m);
    ProperParts(m);
    BackAt(m);
    MembersSplit(m);
    MetaKeys(m);
    var ms := MetaMembers(m);
    var last := |ms| - 1;
    TightParts("files", FilesDoc(m.files));
    assert ms[last] == Tight("files", FilesDoc(m.files));
    MemberFound(ms, "", last);
    FilesDocGood(m.files, OfPointer);
    KeysOfLayout(ms, "", "files");
    assert ms[last].key == "files";
    HasKeyIs(j, "files");
    KeysOfLayout(ms, "", "pre_pub_key");
    HasKeyIs(j, "pre_pub_key");
    if m.preKey.Some? {
      assert ms[4] == Tight("pre_pub_key", DStr(Hex(m.preKey.value)));
      TightParts("pre_pub_key", DStr(Hex(m.preKey.value)));
      MemberFound(ms, "", 4);
      HexGood(Hex(m.preKey.value), OfPointer);
    }
  }

  lemma RestoreRead(j: Json, memory: string, size: nat, present: Option<seq<Byte>>, offset: nat, m: State)
    requires size > 0 && |memory| >= |PRIVATE_TAG| && ParseNext(memory[|PRIVATE_TAG|..], 0, OfPointer) == Parsed(j, offset)
    requires Proper(m) && HoldsMetadata(j, m)
    ensures RestoreMetadata(memory, size, present)
         == Back(Some(NonEmpty(m.srd)), Some(FileJsons(m.files)), m.keyPair, m.height, m.preKey, m.account)
  {
    hide ParseNext, Get, ToText, ToInt, Hex, Unhex, FileJsons, SrdFields, RestoreSrd, NonEmpty, HasKey, PlainPaths, Ordered, FineFiles;
    UnhexHex(m.keyPair);
    assert m.keyPair[..PAIR_LENGTH] == m.keyPair;
    RestoreSrdFields(m.srd);
    if m.preKey.Some? {
      UnhexHex(m.preKey.value);
      assert m.preKey.value[..KEY_LENGTH] == m.preKey.value;
    }
  }

  /** What was stored comes back: the lists without empty paths, the entries, the keys, the height and the account,
      whatever memory follows the unsealed data, and whatever other key pair the enclave already has. */
  lemma MetadataRoundTrip(m: State, rest: string, present: Option<seq<Byte>>)
    requires Proper(m)
    ensures RestoreMetadata(PRIVATE_TAG + MetaText(m) + rest, |PRIVATE_TAG + MetaText(m)|, present)
         == Back(Some(NonEmpty(m.srd)), Some(FileJsons(m.files)), m.keyPair, m.height, m.preKey, m.account)
  {
    hide *;
    var d := DObj(MetaMembers(m), "");
    MetaDocText(m);
    MetaDocGood(m, OfPointer);
    LoadFlat(d, rest, OfPointer);
    MetaDocReads(m);
    BehindTag(PRIVATE_TAG, MetaText(m), rest);
    TagNotEmpty();
    RestoreRead(Value(d), PRIVATE_TAG + MetaText(m) + rest, |PRIVATE_TAG + MetaText(m)|, present, |Flat(d)|, m);
  }

  /** Metadata with another key pair than the present one is noticed and restored all the same. */
  lemma OtherPairIsRestored(m: State, rest: string, present: seq<Byte>)
    requires Proper(m) && |present| == PAIR_LENGTH && present != m.keyPair
    ensures CheckPair(Hex(m.keyPair), Some(present)) == PairOther
    ensures var r := RestoreMetadata(PRIVATE_TAG + MetaText(m) + rest, |PRIVATE_TAG + MetaText(m)|, Some(present));
            r.Back? && r.keyPair == m.keyPair
  {
    hide Hex, Unhex, MetaText, RestoreMetadata, PlainPaths, Ordered, FineFiles;
    UnhexHex(m.keyPair);
    assert m.keyPair[..PAIR_LENGTH] == m.keyPair;
    MetadataRoundTrip(m, rest, Some(present));
  }

  lemma TagNotEmpty()
    ensures |PRIVATE_TAG| > 0
  {
  }

  lemma BehindTag(tag: string, text: string, rest: string)
    ensures (tag + text + rest)[|tag|..] == text + rest
  {
  }

  /** Written and read back in one go. */
  method StoreAndRestore(m: State, rest: string, present: Option<seq<Byte>>) returns (r: Restore)
    requires Proper(m) && PathsShort(m.srd) && |m.account| <= 64
    requires forall i :: 0 <= i < |m.files| ==> m.files[i].size < Pow10(12) && m.files[i].oldSize < Pow10(12) && m.files[i].blockNum < Pow10(6)
    ensures r == Back(Some(NonEmpty(m.srd)), Some(FileJsons(m.files)), m.keyPair, m.height, m.preKey, m.account)
  {
    hide *;
    BufferSuffices(m);
    var data := StoreMetadata(m);
    MetadataRoundTrip(m, rest, present);
    r := RestoreMetadata(data + rest, |data|, present);
  }

  /** Stored metadata passed off as the block of a file is never written out: unsealing it stops. */
  lemma MetadataIsNoBlock(m: State, data: seq<Byte>, files: MerkleSeal.Directory, name: string, u: MerkleSeal.Opener)
    requires var text := PRIVATE_TAG + MetaText(m); |data| == |text| && forall i :: 0 <= i < |data| ==> data[i] == text[i] as int % 256
    requires name in files && u.unseal(files[name]) == Some(data)
    ensures MerkleSeal.UnsealOne(files, name, u) == MerkleSeal.UnsealFault(MerkleSeal.MalwareBlock, files)
  {
    hide MetaText;
    forall i | 0 <= i < |PRIVATE_TAG| ensures data[i] == PRIVATE_TAG[i] as int {
      assert (PRIVATE_TAG + MetaText(m))[i] == PRIVATE_TAG[i];
      assert PRIVATE_TAG[i] as int < 256;
    }
  }

  /** The pair is found to be fine exactly when none is present or it is the present one. */
  lemma PairIsCompared(pair: seq<Byte>, present: Option<seq<Byte>>)
    requires |pair| == PAIR_LENGTH
    ensures CheckPair(Hex(pair), present) == if present.None? || present.value == pair then PairFine else PairOther
  {
    UnhexHex(pair);
    assert pair[..PAIR_LENGTH] == pair;
  }

  // ----- Why metadata is not restored -----

  /** In this order: a value without members, a key pair too short to be compared with the one present, lists that
      cannot be restored, then a pair or a previous key without bytes or too short. */
  lemma WhyNotRestored(memory: string, size: nat, present: Option<seq<Byte>>)
    requires size > 0 && |memory| >= |PRIVATE_TAG|
    ensures LoadMemory(memory[|PRIVATE_TAG|..], size).Fault? ==> RestoreMetadata(memory, size, present) == OverRead
    ensures LoadMemory(memory[|PRIVATE_TAG|..], size).Parsed? ==>
              var j, r := LoadMemory(memory[|PRIVATE_TAG|..], size).value, RestoreMetadata(memory, size, present);
              var pair, pre, space := ToText(Get(j, "id_key_pair")), ToText(Get(j, "pre_pub_key")), Get(j, "workload");
              var noPair, upgraded, noPre := NoBytes(Get(j, "id_key_pair")), HasKey(j, "pre_pub_key"), NoBytes(Get(j, "pre_pub_key"));
              var compared := !noPair && present.Some? && |pair| < 192;
              var noSpace := space.Object? && RestoreSrd(space.fields).None?;
              && (r == NoMetadata <==> Size(j) <= 0)
              && (r == BadSealData <==> Size(j) > 0 && !compared && noSpace)
              && (r == BadKey <==> Size(j) > 0 && !compared && !noSpace && (noPair || (|pair| >= 192 && upgraded && noPre)))
              && (r == OverRead <==> Size(j) > 0 && (compared || (!noSpace && !noPair && (|pair| < 192 || (upgraded && !noPre && |pre| < 128)))))
              && (r.Back? ==> (r.preKey.Some? <==> upgraded) && (r.srd.Some? <==> space.Object?) && (r.files.Some? <==> Get(j, "files").Array?))
  {
    hide LoadMemory, RestoreSrd, ToText, Unhex, KeyIn, Get;
    if LoadMemory(memory[|PRIVATE_TAG|..], size).Parsed? {
      var j := LoadMemory(memory[|PRIVATE_TAG|..], size).value;
      FoundHasKey(j, "workload");
      FoundHasKey(j, "files");
    }
  }

  lemma FoundHasKey(j: Json, key: string)
    ensures Get(j, key) != Null ==> HasKey(j, key)
  {
    if j.Object? {
      LookupHasKey(j.fields, key);
    }
  }

  lemma {:induction false} LookupHasKey(fields: seq<Field>, key: string)
    ensures Lookup(fields, key) != Null ==> KeyIn(fields, key)
  {
    if fields != [] && fields[0].key != key {
      LookupHasKey(fields[1..], key);
      KeyInCons(fields[0], fields[1..], key);
      assert fields == [fields[0]] + fields[1..];
    }
  }
}
