/** The upgrade data: written by the old enclave, sent in pieces, restored by the new one
    (src/enclave/identity/Identity.cpp, src/enclave/workload/Workload.cpp, src/app/process/Process.cpp). */
module Handoff {
  import opened Bytes
  import opened Text
  import opened Json
  import opened JsonLayout
  import opened JsonRoundTrip
  import opened HandText
  import opened FileModel
  import opened StateText
  import opened Buffers

  const KEY_LENGTH := 64
  const SIGNATURE_LENGTH := 64

  /** What the old enclave hands over. */
  datatype State = State(pubKey: seq<Byte>, height: nat, blockHash: string, srd: seq<PathHashes>, files: seq<FileEntry>)

  ghost predicate Proper(o: State) {
    && |o.pubKey| == KEY_LENGTH && Int64(o.height) && IsHashText(o.blockHash)
    && PlainPaths(o.srd) && Ordered(o.srd) && FineFiles(o.files)
  }

  // ----- The file list in its buffer -----

  /** The buffer's room for one entry. */
  const ITEM_LENGTH := 244

  /** The buffer is long enough exactly when the digits do not use up thirty for each entry: so never for no
      entries, and not when all entries use their budget. */
  lemma BufferFits(files: seq<FileEntry>)
    requires FineFiles(files)
    ensures |FilesText(files)| <= ITEM_LENGTH * |files| <==> DigitsOf(files) < 30 * |files|
  {
    FilesBodyLength(files);
    hide FilesBody;
  }

  method SerializeFile(files: seq<FileEntry>) returns (data: string)
    requires FineFiles(files) && DigitsOf(files) < 30 * |files|
    ensures data == FilesText(files)
  {
    hide FilesBody, FileText;
    BufferFits(files);
    var buffer := new char[ITEM_LENGTH * |files|];
    ghost var whole := FilesText(files);
    var offset: nat := Copy(buffer, 0, "[");
    var i: nat := 0;
    EmptyLeft("[");
    assert files[0..] == files;
    Associative("[", FilesBody(files), "]");
    while i < |files|
      invariant i <= |files| && offset <= buffer.Length
      invariant buffer[..offset] + (FilesBody(files[i..]) + "]") == whole
    {
      FilesNext(files, i);
      var text := FileText(files[i]);
      Associative(text, if i != |files| - 1 then "," else "", FilesBody(files[i + 1..]));
      if i != |files| - 1 {
        text := text + ",";
      } else {
        EmptyRight(text);
      }
      Associative(text, FilesBody(files[i + 1..]), "]");
      Associative(buffer[..offset], text, FilesBody(files[i + 1..]) + "]");
      offset := Copy(buffer, offset, text);
      i := i + 1;
    }
    NoFiles(files);
    EmptyLeft("]");
    offset := Copy(buffer, offset, "]");
    data := buffer[..offset];
  }

  // ----- The signed message and the text -----

  function TextBytes(s: string): (b: seq<Byte>)
    ensures |b| == |s|
  {
    seq(|s|, i requires 0 <= i < |s| => s[i] as int % 256)
  }

  function Message(pubKey: seq<Byte>, height: string, blockHash: string, srdRoot: Hash, fileRoot: Hash): seq<Byte> {
    pubKey + TextBytes(height) + TextBytes(blockHash) + srdRoot + fileRoot
  }

  /** What the old enclave signs. */
  function OldMessage(o: State, sha: seq<Byte> -> Hash): seq<Byte> {
    Message(o.pubKey, Decimal(o.height), o.blockHash, SrdRoot(o.srd, sha), FileRoot(FileJsons(o.files), sha))
  }

  function Quote(s: string): string {
    "\"" + s + "\""
  }

  /** The ten pieces in the order in which they are copied. */
  function UpgradePieces(o: State, files: string, sig: seq<Byte>, sha: seq<Byte> -> Hash): (p: seq<string>)
    ensures |p| == 10
  {
    ["{\"pub_key\":" + Quote(Hex(o.pubKey)),
     ",\"block_height\":" + Decimal(o.height),
     ",\"block_hash\":" + Quote(o.blockHash),
     ",\"upgrade_srd\":",
     SrdText(o.srd),
     ",\"upgrade_file\":",
     files,
     ",\"upgrade_srd_root\":" + Quote(Hex(SrdRoot(o.srd, sha))),
     ",\"upgrade_file_root\":" + Quote(Hex(FileRoot(FileJsons(o.files), sha))),
     ",\"upgrade_sig\":" + "\"" + Hex(sig) + "\"}"]
  }

  function Cat(pieces: seq<string>): string {
    if pieces == [] then "" else Cat(pieces[..|pieces| - 1]) + pieces[|pieces| - 1]
  }

  function UpgradeText(o: State, sig: seq<Byte>, sha: seq<Byte> -> Hash): string {
    Cat(UpgradePieces(o, FilesText(o.files), sig, sha))
  }

  lemma CatNext(pieces: seq<string>, i: nat)
    requires i < |pieces|
    ensures Cat(pieces[..i + 1]) == Cat(pieces[..i]) + pieces[i]
  {
    assert pieces[..i + 1][..i] == pieces[..i];
  }

  lemma {:induction false} CatPrefix(pieces: seq<string>, i: nat)
    requires i <= |pieces|
    ensures |Cat(pieces[..i])| <= |Cat(pieces)|
    decreases |pieces|
  {
    if i == |pieces| {
      assert pieces[..i] == pieces;
    } else {
      var n := |pieces| - 1;
      CatPrefix(pieces[..n], i);
      assert pieces[..n][..i] == pieces[..i];
    }
  }

  /** The buffer is as long as the pieces together, and they fill it. */
  method BuildUpgradeData(o: State, sig: seq<Byte>, sha: seq<Byte> -> Hash) returns (data: string)
    requires FineFiles(o.files) && DigitsOf(o.files) < 30 * |o.files|
    ensures data == UpgradeText(o, sig, sha)
  {
    hide UpgradePieces, FilesText, Cat, FineFiles, DigitsOf;
    var files := SerializeFile(o.files);
    var pieces := UpgradePieces(o, files, sig, sha);
    var buffer := new char[|Cat(pieces)|];
    var offset: nat, i: nat := 0, 0;
    NoPieces(pieces);
    while i < |pieces|
      invariant i <= |pieces| && offset <= buffer.Length && buffer[..offset] == Cat(pieces[..i])
    {
      CatNext(pieces, i);
      CatPrefix(pieces, i + 1);
      offset := Copy(buffer, offset, pieces[i]);
      i := i + 1;
    }
    assert pieces[..i] == pieces;
    data := buffer[..offset];
  }

  lemma NoPieces(pieces: seq<string>)
    ensures Cat(pieces[..0]) == ""
  {
  }

  // ----- Pieces of 4 MiB -----

  /** The application's copy of the upgrade data. */
  class EnclaveData {
    var upgradeData: string

    method Store(data: string, cover: bool)
      modifies this
      ensures upgradeData == if cover then data else old(upgradeData) + data
    {
      upgradeData := if cover then data else upgradeData + data;
    }

    /** store_large_data: whatever was stored before, afterwards it is the data. */
    method StoreLarge(data: string)
      modifies this
      ensures upgradeData == data
    {
      if |data| > THRESHOLD {
        var offset: nat := 0;
        var cover := true;
        while |data| > offset
          invariant offset <= |data|
          invariant cover <==> offset == 0
          invariant !cover ==> upgradeData == data[..offset]
        {
          var part := if |data| - offset < THRESHOLD then |data| - offset else THRESHOLD;
          assert data[..offset] + data[offset..offset + part] == data[..offset + part];
          assert data[0..part] == data[..part];
          Store(data[offset..offset + part], cover);
          offset := offset + part;
          cover := false;
        }
        assert data[..offset] == data;
      } else {
        Store(data, true);
      }
    }
  }

  // ----- Restoring -----

  datatype Outcome =
    | Restored(srd: seq<RawHashes>, files: seq<Json>, pubKey: seq<Byte>, height: string, blockHash: string)
    | Unexpected
    | SrdFailed
    | VerifyFailed
    | BadSrd
    | BadFile
    | OverRead
    | Overrun

  function FieldsOf(j: Json): seq<Field> {
    if j.Object? then j.fields else []
  }

  function FileItems(j: Json): seq<Json> {
    if j.Array? then j.items else if Size(j) > 0 then seq(Size(j), _ => Null) else []
  }

  /** id_restore_from_upgrade once all data is there, up to the entry to the network: the memory is the whole
      buffer, the size what was received. */
  function RestoreFrom(memory: string, size: nat, sha: seq<Byte> -> Hash, verify: (seq<Byte>, seq<Byte>, seq<Byte>) -> bool): Outcome {
    match LoadMemory(memory, size)
    case Fault => OverRead
    case Parsed(j, _) =>
      var height, hash := ToText(Get(j, "block_height")), ToText(Get(j, "block_hash"));
      var keyText := ToText(Get(j, "pub_key"));
      if |keyText| % 2 != 0 || |keyText| == 0 then Unexpected
      else if |keyText| < 2 * KEY_LENGTH then OverRead
      else
        var key := Unhex(keyText)[..KEY_LENGTH];
        match RestoreSrd(FieldsOf(Get(j, "upgrade_srd")))
        case None => SrdFailed
        case Some(srd) =>
          match CutLists(srd)
          case None => OverRead
          case Some(cut) =>
            var files := FileItems(Get(j, "upgrade_file"));
            var srdRoot, fileRoot := SrdRoot(cut, sha), FileRoot(files, sha);
            var sigText := ToText(Get(j, "upgrade_sig"));
            if |sigText| % 2 != 0 || |sigText| == 0 then Unexpected
            else if |sigText| < 2 * SIGNATURE_LENGTH then OverRead
            else if !verify(key, Message(key, height, hash, srdRoot, fileRoot), Unhex(sigText)[..SIGNATURE_LENGTH]) then VerifyFailed
            else if Hex(srdRoot) != ToText(Get(j, "upgrade_srd_root")) then BadSrd
            else if Hex(fileRoot) != ToText(Get(j, "upgrade_file_root")) then BadFile
            else Restored(srd, files, key, height, hash)
  }

  /** The new enclave while it receives. */
  class NewEnclave {
    var received: string
    var capacity: nat

    method Receive(data: string, total: nat, end: bool, sha: seq<Byte> -> Hash,
                   verify: (seq<Byte>, seq<Byte>, seq<Byte>) -> bool)
      returns (outcome: Option<Outcome>)
      modifies this
      ensures capacity == if old(received) == "" then total else old(capacity)
      ensures var all := old(received) + data;
              if |all| > capacity then outcome == Some(Overrun) && received == old(received)
              else if !end then outcome == None && received == all
              else outcome == Some(RestoreFrom(all + Zeros(capacity - |all|), |all|, sha, verify)) && received == ""
    {
      if received == "" {
        capacity := total;
      }
      if |received| + |data| > capacity {
        return Some(Overrun);
      }
      received := received + data;
      if !end {
        return None;
      }
      outcome := Some(RestoreFrom(received + Zeros(capacity - |received|), |received|, sha, verify));
      received := "";
    }
  }

  /** The loop of upgrade_try_restore, which has just started the enclave. An empty text sends nothing at all. */
  method SendAll(meta: string, enclave: NewEnclave, sha: seq<Byte> -> Hash, verify: (seq<Byte>, seq<Byte>, seq<Byte>) -> bool)
    returns (outcome: Option<Outcome>)
    requires enclave.received == ""
    modifies enclave
    ensures outcome == if meta == "" then None else Some(RestoreFrom(meta, |meta|, sha, verify))
  {
    hide RestoreFrom;
    outcome := None;
    var offset: nat := 0;
    while |meta| > offset
      invariant offset <= |meta| && outcome == None && (meta == "" || offset < |meta|)
      invariant enclave.received == meta[..offset] && (offset > 0 ==> enclave.capacity == |meta|)
    {
      var part := if |meta| - offset < THRESHOLD then |meta| - offset else THRESHOLD;
      var end := offset + part >= |meta|;
      assert meta[..offset] + meta[offset..offset + part] == meta[..offset + part];
      assert end ==> meta[..offset + part] == meta && meta + Zeros(0) == meta;
      outcome := enclave.Receive(meta[offset..offset + part], |meta|, end, sha, verify);
      if end {
        return;
      }
      offset := offset + part;
    }
  }

  // ----- The text is a layout -----

  function UpgradeMembers(o: State, sig: seq<Byte>, sha: seq<Byte> -> Hash): (ms: seq<Member>)
    ensures |ms| == 8
  {
    [Tight("pub_key", DStr(Hex(o.pubKey))),
     Tight("block_height", DInt(o.height)),
     Tight("block_hash", DStr(o.blockHash)),
     Tight("upgrade_srd", SrdDoc(o.srd)),
     Tight("upgrade_file", FilesDoc(o.files)),
     Tight("upgrade_srd_root", DStr(Hex(SrdRoot(o.srd, sha)))),
     Tight("upgrade_file_root", DStr(Hex(FileRoot(FileJsons(o.files), sha)))),
     Tight("upgrade_sig", DStr(Hex(sig)))]
  }

  /** Eight pairs between braces. */
  lemma EightMembers(ms: seq<Member>)
    requires |ms| == 8
    ensures Flat(DObj(ms, ""))
         == "{" + (FlatMember(ms[0]) + ("," + (FlatMember(ms[1]) + ("," + (FlatMember(ms[2]) + ("," + (FlatMember(ms[3]) + ("," + (FlatMember(ms[4])
                                                                                                                                   + ("," + (FlatMember(ms[5]) + ("," + (FlatMember(ms[6]) + ("," + (FlatMember(ms[7]) + "}")))))))))))))))
  {
    hide Flat, FlatMember, FlatMembers;
    FlatObject(ms);
    assert ms[0..] == ms;
    FlatFrom(ms, 0);
    FlatFrom(ms, 1);
    FlatFrom(ms, 2);
    FlatFrom(ms, 3);
    FlatFrom(ms, 4);
    FlatFrom(ms, 5);
    FlatFrom(ms, 6);
    FlatFrom(ms, 7);
  }

  lemma HexQuote(s: string)
    requires IsHex(s) && s != ""
    ensures Flat(DStr(s)) == Quote(s) && !(HASH_TAG <= s)
  {
    HexIsPlain(s);
    EscapePlain(s);
    assert s[0] != '$';
  }

  lemma CatTen(p: seq<string>)
    requires |p| == 10
    ensures Cat(p) == p[0] + p[1] + p[2] + p[3] + p[4] + p[5] + p[6] + p[7] + p[8] + p[9]
  {
    assert p[..10] == p;
    NoPieces(p);
    CatNext(p, 0);
    CatNext(p, 1);
    CatNext(p, 2);
    CatNext(p, 3);
    CatNext(p, 4);
    CatNext(p, 5);
    CatNext(p, 6);
    CatNext(p, 7);
    CatNext(p, 8);
    CatNext(p, 9);
    hide Cat;
    EmptyLeft(p[0]);
  }


  lemma UpgradeMemberAt(o: State, sig: seq<Byte>, sha: seq<Byte> -> Hash)
    ensures var ms := UpgradeMembers(o, sig, sha);
            && ms[0] == Tight("pub_key", DStr(Hex(o.pubKey))) && ms[1] == Tight("block_height", DInt(o.height))
            && ms[2] == Tight("block_hash", DStr(o.blockHash)) && ms[3] == Tight("upgrade_srd", SrdDoc(o.srd))
            && ms[4] == Tight("upgrade_file", FilesDoc(o.files))
            && ms[5] == Tight("upgrade_srd_root", DStr(Hex(SrdRoot(o.srd, sha))))
            && ms[6] == Tight("upgrade_file_root", DStr(Hex(FileRoot(FileJsons(o.files), sha))))
            && ms[7] == Tight("upgrade_sig", DStr(Hex(sig)))
  {
    hide SrdDoc, FilesDoc, SrdRoot, FileRoot, FileJsons, Hex;
  }

  lemma UpgradeDocText(o: State, sig: seq<Byte>, sha: seq<Byte> -> Hash)
    requires Proper(o) && |sig| == SIGNATURE_LENGTH
    ensures Flat(DObj(UpgradeMembers(o, sig, sha), "")) == UpgradeText(o, sig, sha)
  {
    var pub, hash, rootS, rootF, s := Hex(o.pubKey), o.blockHash, Hex(SrdRoot(o.srd, sha)), Hex(FileRoot(FileJsons(o.files), sha)), Hex(sig);
    HexQuote(pub);
    HexQuote(hash);
    HexQuote(rootS);
    HexQuote(rootF);
    HexQuote(s);
    SrdDocText(o.srd);
    FilesDocText(o.files);
    assert Flat(DInt(o.height)) == Decimal(o.height);
    UpgradeDocPieces(o, sig, sha);
  }

  lemma UpgradeDocPieces(o: State, sig: seq<Byte>, sha: seq<Byte> -> Hash)
    requires Flat(DStr(Hex(o.pubKey))) == Quote(Hex(o.pubKey)) && Flat(DStr(o.blockHash)) == Quote(o.blockHash)
    requires Flat(DStr(Hex(SrdRoot(o.srd, sha)))) == Quote(Hex(SrdRoot(o.srd, sha)))
    requires var r := Hex(FileRoot(FileJsons(o.files), sha)); Flat(DStr(r)) == Quote(r)
    requires Flat(DStr(Hex(sig))) == Quote(Hex(sig)) && Flat(DInt(o.height)) == Decimal(o.height)
    requires Flat(SrdDoc(o.srd)) == SrdText(o.srd) && Flat(FilesDoc(o.files)) == FilesText(o.files)
    ensures Flat(DObj(UpgradeMembers(o, sig, sha), "")) == UpgradeText(o, sig, sha)
  {
    hide Flat, FlatMember, Cat, SrdText, FilesText, Hex, Decimal, SrdRoot, FileRoot, SrdDoc, FilesDoc, Quote, Pair;
    var ms := UpgradeMembers(o, sig, sha);
    var p := UpgradePieces(o, FilesText(o.files), sig, sha);
    EightMembers(ms);
    UpgradeMemberAt(o, sig, sha);
    FlatTight("pub_key", DStr(Hex(o.pubKey)));
    FlatTight("block_height", DInt(o.height));
    FlatTight("block_hash", DStr(o.blockHash));
    FlatTight("upgrade_srd", SrdDoc(o.srd));
    FlatTight("upgrade_file", FilesDoc(o.files));
    FlatTight("upgrade_srd_root", DStr(Hex(SrdRoot(o.srd, sha))));
    FlatTight("upgrade_file_root", DStr(Hex(FileRoot(FileJsons(o.files), sha))));
    FlatTight("upgrade_sig", DStr(Hex(sig)));
    CatTen(p);
    TitlePieces(Quote(Hex(o.pubKey)), Decimal(o.height), Quote(o.blockHash), SrdText(o.srd), FilesText(o.files),
                Quote(Hex(SrdRoot(o.srd, sha))), Quote(Hex(FileRoot(FileJsons(o.files), sha))), Hex(sig));
  }

  lemma TitlePieces(pub: string, height: string, hash: string, srd: string, files: string, rootS: string, rootF: string, sig: string)
    ensures ("{\"pub_key\":" + pub) + (",\"block_height\":" + height) + (",\"block_hash\":" + hash) + ",\"upgrade_srd\":" + srd
            + ",\"upgrade_file\":" + files + (",\"upgrade_srd_root\":" + rootS) + (",\"upgrade_file_root\":" + rootF)
            + (",\"upgrade_sig\":" + "\"" + sig + "\"}")
         == "{" + (Pair("pub_key", pub) + ("," + (Pair("block_height", height) + ("," + (Pair("block_hash", hash)
                                                                                         + ("," + (Pair("upgrade_srd", srd) + ("," + (Pair("upgrade_file", files) + ("," + (Pair("upgrade_srd_root", rootS)
                                                                                                                                                                            + ("," + (Pair("upgrade_file_root", rootF) + ("," + (Pair("upgrade_sig", Quote(sig)) + "}")))))))))))))))
  {
    hide *;
    KeyTitles(pub, height);
    HashTitles(hash, srd);
    FileTitles(files, rootS);
    RootTitle(rootF);
    LastTitle(sig);
    PairsRegroup("{", ",", "}", "{\"pub_key\":" + pub, Pair("pub_key", pub), ",\"block_height\":" + height, Pair("block_height", height),
                 ",\"block_hash\":" + hash, Pair("block_hash", hash), ",\"upgrade_srd\":", srd, Pair("upgrade_srd", srd),
                 ",\"upgrade_file\":", files, Pair("upgrade_file", files), ",\"upgrade_srd_root\":" + rootS, Pair("upgrade_srd_root", rootS),
                 ",\"upgrade_file_root\":" + rootF, Pair("upgrade_file_root", rootF),
                 ",\"upgrade_sig\":" + "\"" + sig + "\"}", Pair("upgrade_sig", Quote(sig)));
  }

  lemma KeyTitles(pub: string, height: string)
    ensures "{\"pub_key\":" + pub == "{" + Pair("pub_key", pub)
    ensures ",\"block_height\":" + height == "," + Pair("block_height", height)
  {
    hide Pair;
    Title("{", "{\"pub_key\":", "pub_key", pub);
    Title(",", ",\"block_height\":", "block_height", height);
  }

  lemma HashTitles(hash: string, srd: string)
    ensures ",\"block_hash\":" + hash == "," + Pair("block_hash", hash)
    ensures ",\"upgrade_srd\":" + srd == "," + Pair("upgrade_srd", srd)
  {
    hide Pair;
    Title(",", ",\"block_hash\":", "block_hash", hash);
    Title(",", ",\"upgrade_srd\":", "upgrade_srd", srd);
  }

  lemma FileTitles(files: string, rootS: string)
    ensures ",\"upgrade_file\":" + files == "," + Pair("upgrade_file", files)
    ensures ",\"upgrade_srd_root\":" + rootS == "," + Pair("upgrade_srd_root", rootS)
  {
    hide Pair;
    Title(",", ",\"upgrade_file\":", "upgrade_file", files);
    Title(",", ",\"upgrade_srd_root\":", "upgrade_srd_root", rootS);
  }

  lemma RootTitle(rootF: string)
    ensures ",\"upgrade_file_root\":" + rootF == "," + Pair("upgrade_file_root", rootF)
  {
    hide Pair;
    Title(",", ",\"upgrade_file_root\":", "upgrade_file_root", rootF);
  }

  /** The first text of each pair of arguments is the piece, the second what it is in the layout. */
  lemma PairsRegroup(o: string, c: string, e: string, x1: string, a: string, x2: string, b: string, x3: string, k: string,
                     t: string, srd: string, d: string, u: string, files: string, f: string, x6: string, g: string,
                     x7: string, h: string, x8: string, i: string)
    requires x1 == o + a && x2 == c + b && x3 == c + k && t + srd == c + d && u + files == c + f
    requires x6 == c + g && x7 == c + h && x8 == c + i + e
    ensures x1 + x2 + x3 + t + srd + u + files + x6 + x7 + x8
         == o + (a + (c + (b + (c + (k + (c + (d + (c + (f + (c + (g + (c + (h + (c + (i + e)))))))))))))))
  {
    var x := x1 + x2 + x3;
    assert x + t + srd == x + (t + srd);
    var y := x + (c + d);
    assert y + u + files == y + (u + files);
    Regroup8(o, c, e, a, b, k, d, f, g, h, i);
  }

  lemma Regroup8(o: string, c: string, e: string, a: string, b: string, k: string, d: string, f: string, g: string, h: string, i: string)
    ensures (o + a) + (c + b) + (c + k) + (c + d) + (c + f) + (c + g) + (c + h) + (c + i + e)
         == o + (a + (c + (b + (c + (k + (c + (d + (c + (f + (c + (g + (c + (h + (c + (i + e)))))))))))))))
  {
  }

  lemma Title(start: string, title: string, key: string, value: string)
    requires title == start + "\"" + key + "\":"
    ensures title + value == start + Pair(key, value)
  {
    Associative4(start, "\"", key, "\":");
    assert "\"" + key + "\":" + value == Pair(key, value);
    Associative(start, "\"" + key + "\":", value);
  }

  lemma LastTitle(sig: string)
    ensures ",\"upgrade_sig\":" + "\"" + sig + "\"}" == "," + Pair("upgrade_sig", Quote(sig)) + "}"
  {
    assert ",\"upgrade_sig\":" == "," + ("\"" + "upgrade_sig" + "\":");
    assert "\"}" == "\"" + "}";
    LastPieces(",", "\"" + "upgrade_sig" + "\":", "\"", sig, "}");
  }

  lemma LastPieces(c: string, k: string, q: string, sig: string, e: string)
    ensures (c + k) + q + sig + (q + e) == c + (k + (q + sig + q)) + e
  {
  }

  // ----- The new enclave finds what the old one had -----

  lemma UpgradeKeys(ms: seq<Member>)
    requires |ms| == 8 && ms[0].key == "pub_key" && ms[1].key == "block_height" && ms[2].key == "block_hash"
    requires ms[3].key == "upgrade_srd" && ms[4].key == "upgrade_file" && ms[5].key == "upgrade_srd_root"
    requires ms[6].key == "upgrade_file_root" && ms[7].key == "upgrade_sig"
    ensures DistinctMembers(ms)
  {
    assert "upgrade_srd"[9] == 'r' && "upgrade_sig"[9] == 'i';
  }

  lemma UpgradeWords()
    ensures Word("pub_key") && Word("block_height") && Word("block_hash") && Word("upgrade_srd") && Word("upgrade_file")
    ensures Word("upgrade_srd_root") && Word("upgrade_file_root") && Word("upgrade_sig")
  {
  }

  lemma UpgradeDocGood(o: State, sig: seq<Byte>, sha: seq<Byte> -> Hash, ov: Overload)
    requires Proper(o) && |sig| == SIGNATURE_LENGTH
    ensures Good(DObj(UpgradeMembers(o, sig, sha), ""), ov)
  {
    hide *;
    ProperKey(o);
    UpgradeFrontGood(o, ov);
    UpgradeBackGood(o, sig, sha, ov);
    var ms := UpgradeMembers(o, sig, sha);
    UpgradeMemberAt(o, sig, sha);
    forall i | 0 <= i < |ms| ensures GoodMember(ms[i], ov) {
      assert i == 0 || i == 1 || i == 2 || i == 3 || i == 4 || i == 5 || i == 6 || i == 7;
    }
    AllGood(ms, ov);
    ObjectGood(ms, ov);
  }

  lemma UpgradeFrontGood(o: State, ov: Overload)
    requires Proper(o)
    ensures GoodMember(Tight("pub_key", DStr(Hex(o.pubKey))), ov) && GoodMember(Tight("block_height", DInt(o.height)), ov)
    ensures GoodMember(Tight("block_hash", DStr(o.blockHash)), ov) && GoodMember(Tight("upgrade_srd", SrdDoc(o.srd)), ov)
    ensures GoodMember(Tight("upgrade_file", FilesDoc(o.files)), ov)
  {
    hide Word, GoodMember, Good, Hex, SrdDoc, FilesDoc, PlainPaths, Ordered, FineFiles;
    UpgradeWords();
    HexGood(Hex(o.pubKey), ov);
    HexGood(o.blockHash, ov);
    IntGood(o.height, ov);
    SrdDocGood(o.srd, ov);
    FilesDocGood(o.files, ov);
    WordTight("pub_key", DStr(Hex(o.pubKey)), ov);
    WordTight("block_height", DInt(o.height), ov);
    WordTight("block_hash", DStr(o.blockHash), ov);
    WordTight("upgrade_srd", SrdDoc(o.srd), ov);
    WordTight("upgrade_file", FilesDoc(o.files), ov);
  }

  lemma UpgradeBackGood(o: State, sig: seq<Byte>, sha: seq<Byte> -> Hash, ov: Overload)
    requires |sig| == SIGNATURE_LENGTH
    ensures GoodMember(Tight("upgrade_srd_root", DStr(Hex(SrdRoot(o.srd, sha)))), ov)
    ensures GoodMember(Tight("upgrade_file_root", DStr(Hex(FileRoot(FileJsons(o.files), sha)))), ov)
    ensures GoodMember(Tight("upgrade_sig", DStr(Hex(sig))), ov)
  {
    hide Word, GoodMember, Good, Hex, SrdRoot, FileRoot, FileJsons;
    UpgradeWords();
    HexGood(Hex(SrdRoot(o.srd, sha)), ov);
    HexGood(Hex(FileRoot(FileJsons(o.files), sha)), ov);
    HexGood(Hex(sig), ov);
    WordTight("upgrade_srd_root", DStr(Hex(SrdRoot(o.srd, sha))), ov);
    WordTight("upgrade_file_root", DStr(Hex(FileRoot(FileJsons(o.files), sha))), ov);
    WordTight("upgrade_sig", DStr(Hex(sig)), ov);
  }

  lemma ObjectGood(ms: seq<Member>, ov: Overload)
    requires GoodMembers(ms, ov)
    ensures Good(DObj(ms, ""), ov)
  {
    hide GoodMembers;
  }

  /** What the new enclave reads under each key. */
  ghost predicate HoldsUpgrade(j: Json, o: State, sig: seq<Byte>, sha: seq<Byte> -> Hash) {
    && ToText(Get(j, "pub_key")) == Hex(o.pubKey)
    && ToText(Get(j, "block_height")) == Decimal(o.height)
    && ToText(Get(j, "block_hash")) == o.blockHash
    && Get(j, "upgrade_srd") == Object(SrdFields(o.srd))
    && Get(j, "upgrade_file") == Array(FileJsons(o.files))
    && ToText(Get(j, "upgrade_srd_root")) == Hex(SrdRoot(o.srd, sha))
    && ToText(Get(j, "upgrade_file_root")) == Hex(FileRoot(FileJsons(o.files), sha))
    && ToText(Get(j, "upgrade_sig")) == Hex(sig)
  }

  lemma UpgradeDocReads(o: State, sig: seq<Byte>, sha: seq<Byte> -> Hash)
    requires Proper(o) && |sig| == SIGNATURE_LENGTH
    ensures HoldsUpgrade(Value(DObj(UpgradeMembers(o, sig, sha), "")), o, sig, sha)
  {
    hide Good, Hex, SrdDoc, FilesDoc, SrdRoot, FileRoot, FileJsons, SrdFields, Value, Get, ToText, DistinctMembers, Decimal;
    var ms := UpgradeMembers(o, sig, sha);
    UpgradeMemberAt(o, sig, sha);
    UpgradeKeys(ms);
    MemberFound(ms, "", 0);
    MemberFound(ms, "", 1);
    MemberFound(ms, "", 2);
    MemberFound(ms, "", 3);
    MemberFound(ms, "", 4);
    MemberFound(ms, "", 5);
    MemberFound(ms, "", 6);
    MemberFound(ms, "", 7);
    HexGood(Hex(o.pubKey), OfPointer);
    HexGood(o.blockHash, OfPointer);
    HexGood(Hex(SrdRoot(o.srd, sha)), OfPointer);
    HexGood(Hex(FileRoot(FileJsons(o.files), sha)), OfPointer);
    HexGood(Hex(sig), OfPointer);
    IntGood(o.height, OfPointer);
    SrdDocGood(o.srd, OfPointer);
    FilesDocGood(o.files, OfPointer);
  }

  /** The roots compared are the old ones: there was no path, or some hash, or the digest of nothing is zero. */
  predicate RootSurvives(srd: seq<PathHashes>, sha: seq<Byte> -> Hash) {
    srd == [] || NonEmpty(srd) != [] || sha([]) == ZERO_HASH
  }

  lemma RestoreRead(j: Json, memory: string, size: nat, offset: nat, o: State, sig: seq<Byte>, sha: seq<Byte> -> Hash,
                    verify: (seq<Byte>, seq<Byte>, seq<Byte>) -> bool)
    requires size > 0 && ParseNext(memory, 0, OfPointer) == Parsed(j, offset) && HoldsUpgrade(j, o, sig, sha)
    requires |o.pubKey| == KEY_LENGTH && |sig| == SIGNATURE_LENGTH
    ensures var srd := NonEmpty(o.srd);
            var root := SrdRoot(srd, sha);
            RestoreFrom(memory, size, sha, verify)
            == if !verify(o.pubKey, Message(o.pubKey, Decimal(o.height), o.blockHash, root, FileRoot(FileJsons(o.files), sha)), sig)
            then VerifyFailed
            else if Hex(root) != Hex(SrdRoot(o.srd, sha)) then BadSrd
              else Restored(srd, FileJsons(o.files), o.pubKey, Decimal(o.height), o.blockHash)
  {
    hide ParseNext, Get, ToText, Hex, Unhex, Decimal, SrdRoot, FileRoot, FileJsons, SrdFields, RestoreSrd, CutLists, NonEmpty, Message;
    UnhexHex(o.pubKey);
    UnhexHex(sig);
    assert o.pubKey[..KEY_LENGTH] == o.pubKey && sig[..SIGNATURE_LENGTH] == sig;
    RestoreSrdFields(o.srd);
    CutWhole(NonEmpty(o.srd));
  }

  /** Reading the written text back leaves the check of the signature and the comparison of the space roots. */
  lemma ReadUpgrade(o: State, sig: seq<Byte>, sha: seq<Byte> -> Hash, rest: string,
                    verify: (seq<Byte>, seq<Byte>, seq<Byte>) -> bool)
    requires Proper(o) && |sig| == SIGNATURE_LENGTH
    ensures var srd := NonEmpty(o.srd);
            var root := SrdRoot(srd, sha);
            RestoreFrom(UpgradeText(o, sig, sha) + rest, |UpgradeText(o, sig, sha)|, sha, verify)
            == if !verify(o.pubKey, Message(o.pubKey, Decimal(o.height), o.blockHash, root, FileRoot(FileJsons(o.files), sha)), sig)
            then VerifyFailed
            else if Hex(root) != Hex(SrdRoot(o.srd, sha)) then BadSrd
              else Restored(srd, FileJsons(o.files), o.pubKey, Decimal(o.height), o.blockHash)
  {
    hide *;
    var d := DObj(UpgradeMembers(o, sig, sha), "");
    UpgradeDocText(o, sig, sha);
    UpgradeDocGood(o, sig, sha, OfPointer);
    LoadFlat(d, rest, OfPointer);
    UpgradeDocReads(o, sig, sha);
    ProperKey(o);
    TextNotEmpty(o, sig, sha);
    RestoreRead(Value(d), UpgradeText(o, sig, sha) + rest, |UpgradeText(o, sig, sha)|, |Flat(d)|, o, sig, sha, verify);
  }

  lemma MessageTells(pubKey: seq<Byte>, height: string, hash: string, a: Hash, b: Hash, files: Hash)
    ensures Message(pubKey, height, hash, a, files) == Message(pubKey, height, hash, b, files) <==> a == b
  {
    hide TextBytes;
    var front := pubKey + TextBytes(height) + TextBytes(hash);
    assert (front + a + files)[|front|..|front| + HASH_LENGTH] == a;
    assert (front + b + files)[|front|..|front| + HASH_LENGTH] == b;
  }

  /** The whole way: written, stored and sent in pieces, restored. With a signature that verifies for the signed
      message alone, the new enclave has the lists (without empty paths), the entries, the key, the height and the
      hash of the old one exactly when the space root survives the loss of empty paths; else it refuses. */
  lemma HandoffRestores(o: State, sig: seq<Byte>, sha: seq<Byte> -> Hash, rest: string,
                        verify: (seq<Byte>, seq<Byte>, seq<Byte>) -> bool)
    requires Proper(o) && |sig| == SIGNATURE_LENGTH
    requires forall m :: verify(o.pubKey, m, sig) <==> m == OldMessage(o, sha)
    ensures RestoreFrom(UpgradeText(o, sig, sha) + rest, |UpgradeText(o, sig, sha)|, sha, verify)
         == if RootSurvives(o.srd, sha) then Restored(NonEmpty(o.srd), FileJsons(o.files), o.pubKey, Decimal(o.height), o.blockHash)
            else VerifyFailed
  {
    hide *;
    ReadUpgrade(o, sig, sha, rest, verify);
    var old', new' := SrdRoot(o.srd, sha), SrdRoot(NonEmpty(o.srd), sha);
    MessageTells(o.pubKey, Decimal(o.height), o.blockHash, new', old', FileRoot(FileJsons(o.files), sha));
    OldMessageIs(o, sha);
    RootComparison(o.srd, sha);
  }

  lemma ProperKey(o: State)
    requires Proper(o)
    ensures |o.pubKey| == KEY_LENGTH
  {
  }

  lemma OldMessageIs(o: State, sha: seq<Byte> -> Hash)
    ensures OldMessage(o, sha) == Message(o.pubKey, Decimal(o.height), o.blockHash, SrdRoot(o.srd, sha), FileRoot(FileJsons(o.files), sha))
  {
  }

  lemma RootComparison(srd: seq<PathHashes>, sha: seq<Byte> -> Hash)
    ensures RootSurvives(srd, sha) <==> SrdRoot(NonEmpty(srd), sha) == SrdRoot(srd, sha)
  {
    hide NonEmpty, SrdRoot;
    SrdRootRestored(srd, sha);
  }

  lemma TextNotEmpty(o: State, sig: seq<Byte>, sha: seq<Byte> -> Hash)
    ensures UpgradeText(o, sig, sha) != ""
  {
    hide Hex, SrdText, FilesText, SrdRoot, FileRoot, FileJsons, Decimal;
    var p := UpgradePieces(o, FilesText(o.files), sig, sha);
    CatNext(p, 9);
    assert p[..10] == p;
  }

  /** From the old enclave through both applications into the new enclave. */
  method Upgrade(o: State, sig: seq<Byte>, sha: seq<Byte> -> Hash, verify: (seq<Byte>, seq<Byte>, seq<Byte>) -> bool,
                 app: EnclaveData, enclave: NewEnclave)
    returns (outcome: Option<Outcome>)
    requires Proper(o) && |sig| == SIGNATURE_LENGTH && DigitsOf(o.files) < 30 * |o.files|
    requires forall m :: verify(o.pubKey, m, sig) <==> m == OldMessage(o, sha)
    requires enclave.received == ""
    modifies app, enclave
    ensures outcome == Some(if RootSurvives(o.srd, sha) then
                              Restored(NonEmpty(o.srd), FileJsons(o.files), o.pubKey, Decimal(o.height), o.blockHash)
                            else VerifyFailed)
  {
    hide RestoreFrom, UpgradeText, DigitsOf, RootSurvives, OldMessage;
    ProperFiles(o);
    var data := BuildUpgradeData(o, sig, sha);
    app.StoreLarge(data);
    outcome := SendAll(app.upgradeData, enclave, sha, verify);
    TextNotEmpty(o, sig, sha);
    HandoffRestores(o, sig, sha, "", verify);
    EmptyRight(data);
  }

  lemma ProperFiles(o: State)
    requires Proper(o)
    ensures FineFiles(o.files)
  {
  }
}
