/** What the signature over the upgrade data covers (src/enclave/identity/Identity.cpp, src/enclave/workload/Workload.cpp). */
module HandoffSeal {
  import opened Bytes
  import opened Text
  import opened Json
  import opened FileModel
  import opened StateText
  import opened Handoff

  // ----- The bytes of the message -----

  /** Key, height, hash and the two roots stand one behind the other. */
  lemma MessageParts(pubKey: seq<Byte>, height: string, hash: string, srdRoot: Hash, fileRoot: Hash)
    requires |pubKey| == 64 && |hash| == 64
    ensures var m, n := Message(pubKey, height, hash, srdRoot, fileRoot), |height|;
            && |m| == 192 + n
            && m[..64] == pubKey
            && (forall i :: 0 <= i < n ==> m[64 + i] == height[i] as int % 256)
            && (forall i :: 0 <= i < 64 ==> m[64 + n + i] == hash[i] as int % 256)
            && m[128 + n..160 + n] == srdRoot
            && m[160 + n..] == fileRoot
  {
  }

  /** Texts whose characters fit a byte, as all texts of the source do. */
  predicate Narrow(s: string) {
    forall i :: 0 <= i < |s| ==> s[i] as int < 256
  }

  lemma {:induction false} TextBytesTell(s: string, t: string)
    requires Narrow(s) && Narrow(t) && TextBytes(s) == TextBytes(t)
    ensures s == t
  {
    assert |s| == |t|;
    forall i | 0 <= i < |s| ensures s[i] == t[i] {
      assert TextBytes(s)[i] == TextBytes(t)[i];
    }
  }

  /** Messages are equal exactly when the five parts are, for keys and hashes of the right length. */
  lemma MessageTellsParts(a: seq<Byte>, ah: string, ab: string, as': Hash, af: Hash,
                          b: seq<Byte>, bh: string, bb: string, bs: Hash, bf: Hash)
    requires |a| == |b| == |ab| == |bb| == 64 && Narrow(ah) && Narrow(ab) && Narrow(bh) && Narrow(bb)
    ensures Message(a, ah, ab, as', af) == Message(b, bh, bb, bs, bf) <==> a == b && ah == bh && ab == bb && as' == bs && af == bf
  {
    hide Narrow;
    MessageFields(a, ah, ab, as', af);
    MessageFields(b, bh, bb, bs, bf);
    hide Message, TextBytes;
    if Message(a, ah, ab, as', af) == Message(b, bh, bb, bs, bf) {
      assert |ah| == |bh|;
      TextBytesTell(ah, bh);
      TextBytesTell(ab, bb);
    }
  }

  lemma MessageFields(pubKey: seq<Byte>, height: string, hash: string, srdRoot: Hash, fileRoot: Hash)
    requires |pubKey| == 64 && |hash| == 64
    ensures var m, n := Message(pubKey, height, hash, srdRoot, fileRoot), |height|;
            && |m| == 192 + n && m[..64] == pubKey && m[64..64 + n] == TextBytes(height) && m[64 + n..128 + n] == TextBytes(hash)
            && m[128 + n..160 + n] == srdRoot && m[160 + n..] == fileRoot
  {
    hide TextBytes;
  }

  // ----- The bytes under the roots -----

  /** All hashes of the lists, path by path. */
  function AllHashes(srd: seq<PathHashes>): seq<Hash> {
    if srd == [] then [] else srd[0].hashes + AllHashes(srd[1..])
  }

  /** Hash k of path i comes after all hashes of the paths before and the first k of its own. */
  lemma {:induction false} AllHashesAt(srd: seq<PathHashes>, i: nat, k: nat)
    requires i < |srd| && k < |srd[i].hashes|
    ensures HashNumber(srd[..i]) + k < |AllHashes(srd)| == HashNumber(srd)
    ensures AllHashes(srd)[HashNumber(srd[..i]) + k] == srd[i].hashes[k]
  {
    AllHashesNumber(srd[1..]);
    if i > 0 {
      AllHashesAt(srd[1..], i - 1, k);
      assert srd[..i][1..] == srd[1..][..i - 1] && srd[..i][0] == srd[0];
    }
  }

  lemma {:induction false} AllHashesNumber(srd: seq<PathHashes>)
    ensures |AllHashes(srd)| == HashNumber(srd)
  {
    if srd != [] {
      AllHashesNumber(srd[1..]);
    }
  }

  function FileHashes(files: seq<FileEntry>): (hs: seq<Hash>)
    ensures |hs| == |files| && forall n :: 0 <= n < |files| ==> hs[n] == files[n].hash
  {
    seq(|files|, n requires 0 <= n < |files| => files[n].hash)
  }

  /** The bytes are those of the hashes, each in its 32 places. */
  ghost predicate BytesOf(bytes: seq<Byte>, hs: seq<Hash>) {
    |bytes| == 32 * |hs| && forall n :: 0 <= n < |hs| ==> bytes[32 * n..32 * n + 32] == hs[n]
  }

  lemma {:induction false} HashBytesAt(hs: seq<Hash>)
    ensures BytesOf(HashBytesOf(hs), hs)
  {
    if hs != [] {
      HashBytesAt(hs[1..]);
      BytesBehind(hs[0], HashBytesOf(hs[1..]), hs[1..]);
      assert hs == [hs[0]] + hs[1..];
    }
  }

  lemma BytesBehind(h: Hash, bytes: seq<Byte>, hs: seq<Hash>)
    requires BytesOf(bytes, hs)
    ensures BytesOf(h + bytes, [h] + hs)
  {
    var all := [h] + hs;
    forall n | 0 <= n < |all| ensures (h + bytes)[32 * n..32 * n + 32] == all[n] {
      if n > 0 {
        assert (h + bytes)[32 * n..32 * n + 32] == bytes[32 * (n - 1)..32 * (n - 1) + 32];
      }
    }
  }

  lemma BytesJoin(a: seq<Byte>, hs: seq<Hash>, b: seq<Byte>, ts: seq<Hash>)
    requires BytesOf(a, hs) && BytesOf(b, ts)
    ensures BytesOf(a + b, hs + ts)
  {
    var all := hs + ts;
    forall n | 0 <= n < |all| ensures (a + b)[32 * n..32 * n + 32] == all[n] {
      if n < |hs| {
        assert (a + b)[32 * n..32 * n + 32] == a[32 * n..32 * n + 32];
      } else {
        var k := n - |hs|;
        assert (a + b)[32 * n..32 * n + 32] == b[32 * k..32 * k + 32];
      }
    }
  }

  lemma {:induction false} SrdBytesAt(srd: seq<PathHashes>)
    ensures BytesOf(SrdBytes(srd), AllHashes(srd))
  {
    hide BytesOf;
    if srd == [] {
      assert BytesOf([], []) by { HashBytesAt([]); }
    } else {
      HashBytesAt(srd[0].hashes);
      SrdBytesAt(srd[1..]);
      BytesJoin(HashBytesOf(srd[0].hashes), srd[0].hashes, SrdBytes(srd[1..]), AllHashes(srd[1..]));
    }
  }

  lemma {:induction false} FileBytesAt(files: seq<FileEntry>)
    ensures BytesOf(FileBytes(FileJsons(files)), FileHashes(files))
  {
    hide BytesOf;
    if files == [] {
      assert BytesOf([], []) by { HashBytesAt([]); }
    } else {
      FileBytesAt(files[1..]);
      HashOfEntry(files[0]);
      assert FileJsons(files)[1..] == FileJsons(files[1..]);
      BytesBehind(files[0].hash, FileBytes(FileJsons(files[1..])), FileHashes(files[1..]));
      assert FileHashes(files) == [files[0].hash] + FileHashes(files[1..]);
    }
  }

  lemma HashOfEntry(f: FileEntry)
    ensures Get(FileJson(f), "hash") == HashValue(f.hash)
  {
    var fs := FileJson(f).fields;
    assert fs[0].key == "block_num" && |"block_num"| != |"hash"|;
    assert fs[1..][0] == Field("hash", HashValue(f.hash));
    assert Lookup(fs[1..], "hash") == HashValue(f.hash);
    assert Lookup(fs, "hash") == Lookup(fs[1..], "hash");
  }

  lemma BytesTell(bytes: seq<Byte>, hs: seq<Hash>, bytes': seq<Byte>, hs': seq<Hash>)
    requires BytesOf(bytes, hs) && BytesOf(bytes', hs')
    ensures bytes == bytes' <==> hs == hs'
  {
    if bytes == bytes' {
      assert |hs| == |hs'|;
      forall n | 0 <= n < |hs| ensures hs[n] == hs'[n] {
      }
    }
    if hs == hs' {
      forall j | 0 <= j < |bytes| ensures bytes[j] == bytes'[j] {
        var n := j / 32;
        assert bytes[32 * n..32 * n + 32] == hs[n] == bytes'[32 * n..32 * n + 32];
        assert bytes[32 * n..32 * n + 32][j - 32 * n] == bytes'[32 * n..32 * n + 32][j - 32 * n];
      }
    }
  }

  /** Two different byte strings with one digest, or one with the digest that stands for nothing. */
  predicate Collision(a: seq<Byte>, b: seq<Byte>, sha: seq<Byte> -> Hash) {
    a != b && (sha(a) == sha(b) || sha(a) == ZERO_HASH || sha(b) == ZERO_HASH)
  }

  lemma SrdRootTells(a: seq<PathHashes>, b: seq<PathHashes>, sha: seq<Byte> -> Hash)
    requires SrdRoot(a, sha) == SrdRoot(b, sha)
    ensures AllHashes(a) == AllHashes(b) || Collision(SrdBytes(a), SrdBytes(b), sha)
  {
    SrdBytesAt(a);
    SrdBytesAt(b);
    BytesTell(SrdBytes(a), AllHashes(a), SrdBytes(b), AllHashes(b));
    hide AllHashes, BytesOf;
  }

  lemma FileRootTells(a: seq<FileEntry>, b: seq<FileEntry>, sha: seq<Byte> -> Hash)
    requires FileRoot(FileJsons(a), sha) == FileRoot(FileJsons(b), sha)
    ensures FileHashes(a) == FileHashes(b) || Collision(FileBytes(FileJsons(a)), FileBytes(FileJsons(b)), sha)
  {
    FileBytesAt(a);
    FileBytesAt(b);
    BytesTell(FileBytes(FileJsons(a)), FileHashes(a), FileBytes(FileJsons(b)), FileHashes(b));
    hide FileHashes, BytesOf;
  }

  // ----- What the new enclave accepts -----

  /** Whatever text arrives: where only the old enclave's message has signatures that verify, a restored state has its
      key, its height and hash one behind the other, and lists and entries with its two roots. */
  lemma AcceptedIsSigned(memory: string, size: nat, o: State, sha: seq<Byte> -> Hash, verify: (seq<Byte>, seq<Byte>, seq<Byte>) -> bool)
    requires Proper(o)
    requires forall k, m, s :: verify(k, m, s) ==> k == o.pubKey && m == OldMessage(o, sha)
    ensures var r := RestoreFrom(memory, size, sha, verify);
            r.Restored? ==>
              && r.pubKey == o.pubKey
              && TextBytes(r.height + r.blockHash) == TextBytes(Decimal(o.height) + o.blockHash)
              && CutLists(r.srd).Some? && SrdRoot(CutLists(r.srd).value, sha) == SrdRoot(o.srd, sha)
              && FileRoot(r.files, sha) == FileRoot(FileJsons(o.files), sha)
  {
    hide LoadMemory, SrdRoot, FileRoot, FileJsons, CutLists, RestoreSrd, Decimal, Get, ToText, Hex, Unhex, PlainPaths, Ordered, FineFiles, Message, TextBytes;
    var r := RestoreFrom(memory, size, sha, verify);
    if r.Restored? {
      var srdRoot, fileRoot := SrdRoot(CutLists(r.srd).value, sha), FileRoot(r.files, sha);
      assert Message(r.pubKey, r.height, r.blockHash, srdRoot, fileRoot) == OldMessage(o, sha);
      SameTail(o.pubKey, r.height, r.blockHash, srdRoot, fileRoot, Decimal(o.height), o.blockHash, SrdRoot(o.srd, sha),
               FileRoot(FileJsons(o.files), sha));
    }
  }

  lemma SameTail(key: seq<Byte>, h: string, b: string, s: Hash, f: Hash, h': string, b': string, s': Hash, f': Hash)
    requires Message(key, h, b, s, f) == Message(key, h', b', s', f')
    ensures TextBytes(h + b) == TextBytes(h' + b') && s == s' && f == f'
  {
    OneMiddle(key, h, b, s, f);
    OneMiddle(key, h', b', s', f');
    hide TextBytes;
    var m, n, k := Message(key, h, b, s, f), |h| + |b|, |key|;
    assert m[k..k + n] == TextBytes(h + b) && m[k + n..k + n + 32] == s && m[k + n + 32..] == f;
    assert m[k..k + n] == TextBytes(h' + b') && m[k + n..k + n + 32] == s' && m[k + n + 32..] == f';
  }

  lemma OneMiddle(key: seq<Byte>, h: string, b: string, s: Hash, f: Hash)
    ensures Message(key, h, b, s, f) == key + TextBytes(h + b) + s + f
  {
    assert TextBytes(h) + TextBytes(b) == TextBytes(h + b);
    Associative(key, TextBytes(h), TextBytes(b));
  }

  /** The upgrade data of another state with the old one's signature. */
  function Relabelled(o: State, sig: seq<Byte>, sha: seq<Byte> -> Hash, rest: string,
                      verify: (seq<Byte>, seq<Byte>, seq<Byte>) -> bool): Outcome {
    RestoreFrom(UpgradeText(o, sig, sha) + rest, |UpgradeText(o, sig, sha)|, sha, verify)
  }

  lemma RelabelledIs(o: State, sig: seq<Byte>, sha: seq<Byte> -> Hash, rest: string,
                     verify: (seq<Byte>, seq<Byte>, seq<Byte>) -> bool)
    ensures Relabelled(o, sig, sha, rest, verify) == RestoreFrom(UpgradeText(o, sig, sha) + rest, |UpgradeText(o, sig, sha)|, sha, verify)
  {
    hide RestoreFrom, UpgradeText;
  }

  /** The data of a state p is restored under the signature of o exactly when key, height, block hash and both roots
      agree, and nothing else of p is looked at; otherwise it fails to verify or the space root is refused. */
  lemma OnlyTheSignedIsRestored(o: State, p: State, sig: seq<Byte>, sha: seq<Byte> -> Hash, rest: string,
                                verify: (seq<Byte>, seq<Byte>, seq<Byte>) -> bool)
    requires Proper(o) && Proper(p) && |sig| == SIGNATURE_LENGTH
    requires forall k, m :: verify(k, m, sig) <==> k == o.pubKey && m == OldMessage(o, sha)
    ensures var r := Relabelled(p, sig, sha, rest, verify);
            var agree := p.pubKey == o.pubKey && p.height == o.height && p.blockHash == o.blockHash
                         && SrdRoot(NonEmpty(p.srd), sha) == SrdRoot(o.srd, sha)
                         && FileRoot(FileJsons(p.files), sha) == FileRoot(FileJsons(o.files), sha);
            && (!agree ==> r == VerifyFailed)
            && (agree ==> r == if RootSurvives(p.srd, sha) then Restored(NonEmpty(p.srd), FileJsons(p.files), p.pubKey, Decimal(p.height), p.blockHash)
                               else BadSrd)
  {
    hide *;
    assert Relabelled(p, sig, sha, rest, verify) == RestoreFrom(UpgradeText(p, sig, sha) + rest, |UpgradeText(p, sig, sha)|, sha, verify) by {
      RelabelledIs(p, sig, sha, rest, verify);
    }
    ReadUpgrade(p, sig, sha, rest, verify);
    OldMessageIs(o, sha);
    ProperTexts(o);
    ProperTexts(p);
    MessageTellsParts(p.pubKey, Decimal(p.height), p.blockHash, SrdRoot(NonEmpty(p.srd), sha), FileRoot(FileJsons(p.files), sha),
                      o.pubKey, Decimal(o.height), o.blockHash, SrdRoot(o.srd, sha), FileRoot(FileJsons(o.files), sha));
    DecimalTells(p.height, o.height);
    RootComparison(p.srd, sha);
    HexTells(SrdRoot(NonEmpty(p.srd), sha), SrdRoot(p.srd, sha));
  }

  lemma ProperTexts(o: State)
    requires Proper(o)
    ensures |o.pubKey| == 64 && |o.blockHash| == 64 && Narrow(o.blockHash) && Narrow(Decimal(o.height))
  {
    hide PlainPaths, Ordered, FineFiles, Decimal;
    DecimalIsNarrow(o.height);
  }

  lemma DecimalIsNarrow(n: nat)
    ensures Narrow(Decimal(n))
  {
    hide Decimal;
  }

  lemma DecimalTells(m: nat, n: nat)
    ensures Decimal(m) == Decimal(n) <==> m == n
  {
    hide Decimal;
    if Decimal(m) == Decimal(n) {
      DecimalInjective(m, n);
    }
  }

  lemma HexTells(a: Hash, b: Hash)
    ensures Hex(a) == Hex(b) <==> a == b
  {
    UnhexHex(a);
    UnhexHex(b);
  }

  /** For hashes without collisions among the four strings: nothing of another state is restored but what has the old
      key, height, block hash, the same hashes in all lists and the same hashes of all entries, in order. */
  lemma RestoredHasTheHashes(o: State, p: State, sig: seq<Byte>, sha: seq<Byte> -> Hash, rest: string,
                             verify: (seq<Byte>, seq<Byte>, seq<Byte>) -> bool)
    requires Proper(o) && Proper(p) && |sig| == SIGNATURE_LENGTH
    requires forall k, m :: verify(k, m, sig) <==> k == o.pubKey && m == OldMessage(o, sha)
    ensures Relabelled(p, sig, sha, rest, verify).Restored? ==>
              && p.pubKey == o.pubKey && p.height == o.height && p.blockHash == o.blockHash
              && (AllHashes(p.srd) == AllHashes(o.srd) || Collision(SrdBytes(p.srd), SrdBytes(o.srd), sha))
              && (FileHashes(p.files) == FileHashes(o.files)
                  || Collision(FileBytes(FileJsons(p.files)), FileBytes(FileJsons(o.files)), sha))
  {
    hide *;
    OnlyTheSignedIsRestored(o, p, sig, sha, rest, verify);
    if Relabelled(p, sig, sha, rest, verify).Restored? {
      RootComparison(p.srd, sha);
      SrdRootTells(p.srd, o.srd, sha);
      FileRootTells(p.files, o.files, sha);
    }
  }

  // ----- Why a text is refused -----

  /** In this order: a key without bytes or too short, lists that cannot be restored or have a short hash, a signature
      without bytes or too short; then the signature, the space root and the file root. */
  lemma WhyRefused(memory: string, size: nat, sha: seq<Byte> -> Hash, verify: (seq<Byte>, seq<Byte>, seq<Byte>) -> bool)
    ensures LoadMemory(memory, size).Fault? ==> RestoreFrom(memory, size, sha, verify) == OverRead
    ensures LoadMemory(memory, size).Parsed? ==>
              var j, r := LoadMemory(memory, size).value, RestoreFrom(memory, size, sha, verify);
              var key, sig, lists := ToText(Get(j, "pub_key")), ToText(Get(j, "upgrade_sig")), RestoreSrd(FieldsOf(Get(j, "upgrade_srd")));
              var cut := if lists.None? then None else CutLists(lists.value);
              var noKey, noSig := NoBytes(Get(j, "pub_key")), NoBytes(Get(j, "upgrade_sig"));
              && (r == Unexpected <==> noKey || (|key| >= 128 && cut.Some? && noSig))
              && (r == SrdFailed <==> !noKey && |key| >= 128 && lists.None?)
              && (r == OverRead <==> !noKey && (|key| < 128 || (lists.Some? && (cut.None? || (!noSig && |sig| < 128)))))
              && (!noKey && |key| >= 128 && cut.Some? && !noSig && |sig| >= 128 ==>
                    var files := FileItems(Get(j, "upgrade_file"));
                    var srdRoot, fileRoot := SrdRoot(cut.value, sha), FileRoot(files, sha);
                    var signed := verify(Unhex(key)[..64], Message(Unhex(key)[..64], ToText(Get(j, "block_height")), ToText(Get(j, "block_hash")), srdRoot, fileRoot),
                                         Unhex(sig)[..64]);
                    && (r == VerifyFailed <==> !signed)
                    && (r == BadSrd <==> signed && ToText(Get(j, "upgrade_srd_root")) != Hex(srdRoot))
                    && (r == BadFile <==> signed && ToText(Get(j, "upgrade_srd_root")) == Hex(srdRoot)
                                          && ToText(Get(j, "upgrade_file_root")) != Hex(fileRoot))
                    && (r.VerifyFailed? || r.BadSrd? || r.BadFile? || (r.Restored? && r.srd == lists.value && r.files == files)))
  {
    hide LoadMemory, SrdRoot, FileRoot, CutLists, RestoreSrd, Get, ToText, Hex, Unhex, Message, FileItems, FieldsOf;
  }

  /** The entries that come back: the items of an array, and for any other value as many nulls as it claims. */
  lemma EntriesRead(j: Json)
    ensures |FileItems(j)| == if Size(j) > 0 then Size(j) else 0
    ensures forall i :: 0 <= i < |FileItems(j)| ==> FileItems(j)[i] == if j.Array? then j.items[i] else Null
  {
  }
}
