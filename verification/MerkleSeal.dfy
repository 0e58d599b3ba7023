/** Sealing a tree of blocks in place and unsealing the directory again (src/enclave/storage/Storage.cpp). */
module MerkleSeal {
  import opened Bytes
  import opened Text
  import opened MerkleText

  type Directory = map<string, seq<Byte>>

  /** The digest and the sealing of block number k; sealing the same data twice may differ. */
  datatype Crypto = Crypto(sha: seq<Byte> -> Hash, seal: (nat, seq<Byte>) -> seq<Byte>)

  /** NoHashBytes: an empty or odd hash text; ShortHash: one of less than 64 characters, compared past its end. */
  datatype SealError = NoSuchFile | SizeError | NoHashBytes | ShortHash | UnexpectedBlock | UnsealFailed | MalwareBlock

  /** What the recursion threads through by reference. */
  datatype Progress = Progress(files: Directory, text: string, size: nat, blocks: nat)

  /** The tree with its new hashes (and old sizes), and the tree the text describes. */
  datatype Outcome =
    | Failed(error: SealError, files: Directory)
    | Sealed(tree: Tree, stored: Tree, now: Progress)

  datatype LinksOutcome =
    | LinksFailed(error: SealError, files: Directory)
    | LinksSealed(done: seq<Tree>, stored: seq<Tree>, now: Progress)

  function BlockName(k: nat, hash: string): string {
    Decimal(k) + "_" + hash
  }

  /** A tree in which every count that is not zero is the number of links, as the check before sealing leaves it;
      the hash texts may be any. */
  predicate Shaped(t: Tree)
    decreases t, 0
  {
    t.Node? ==> t.links != [] && ShapedLinks(t.links)
  }

  predicate ShapedLinks(ls: seq<Tree>)
    decreases ls, 1
  {
    ls == [] || (Shaped(ls[0]) && ShapedLinks(ls[1..]))
  }

  /** ocall_replace_file: the new file is saved, then the old one deleted. */
  function Replace(files: Directory, from: string, to: string, data: seq<Byte>): Directory {
    files[to := data] - {from}
  }

  function SealLeaf(t: Tree, st: Progress, c: Crypto): Outcome
    requires t.Leaf?
  {
    var name := BlockName(st.blocks, t.hash);
    if name !in st.files then Failed(NoSuchFile, st.files)
    else
      var data := st.files[name];
      if t.size != |data| then Failed(SizeError, st.files)
      else if |t.hash| % 2 != 0 || |t.hash| == 0 then Failed(NoHashBytes, st.files)
      else if |t.hash| < 2 * HASH_LENGTH then Failed(ShortHash, st.files)
      else if Unhex(t.hash)[..HASH_LENGTH] != c.sha(data) then Failed(UnexpectedBlock, st.files)
      else
        var sealed := c.seal(st.blocks, data);
        var hash := Hex(c.sha(sealed));
        var files := Replace(st.files, name, BlockName(st.blocks, hash), sealed);
        Sealed(Leaf(hash, t.size), Leaf(hash, |sealed|),
               Progress(files, st.text + Render(Leaf(hash, |sealed|)), st.size + |sealed|, st.blocks + 1))
  }

  function SealNode(t: Tree, st: Progress, c: Crypto): Outcome
    requires Shaped(t)
    decreases t, 0
  {
    match t
    case Leaf(_, _) => SealLeaf(t, st, c)
    case Node(ls, _, size) =>
      match SealLinks(ls, [], [], st.(text := st.text + LINKS_HEAD, size := 0), c)
      case LinksFailed(e, files) => Failed(e, files)
      case LinksSealed(done, stored, now) =>
        var hash := Hex(c.sha(HashBytes(done)));
        Sealed(Node(done, hash, size), Node(stored, hash, now.size),
               now.(text := now.text + "]," + Head(|ls|) + Rest(hash, now.size), size := st.size + now.size))
  }

  /** The hashes of the children, as bytes, one after the other. */
  function HashBytes(ls: seq<Tree>): seq<Byte> {
    if ls == [] then []
    else (if |ls[0].hash| % 2 == 0 then Unhex(ls[0].hash) else []) + HashBytes(ls[1..])
  }

  /** The loop over the links; done and stored are the links finished so far. */
  function SealLinks(ls: seq<Tree>, done: seq<Tree>, stored: seq<Tree>, st: Progress, c: Crypto): LinksOutcome
    requires ShapedLinks(ls)
    decreases ls, 1
  {
    if ls == [] then LinksSealed(done, stored, st)
    else
      match SealNode(ls[0], st, c)
      case Failed(e, files) => LinksFailed(e, files)
      case Sealed(t, s, now) =>
        SealLinks(ls[1..], done + [t], stored + [s],
                  if |ls| == 1 then now else now.(text := now.text + ","), c)
  }

  // ----- Unsealing -----

  predicate Private(data: seq<Byte>) {
    |data| >= |PRIVATE_TAG| && forall i :: 0 <= i < |PRIVATE_TAG| ==> data[i] == PRIVATE_TAG[i] as int
  }

  /** Up to the first underscore a name is its block number. */
  function TagLength(name: string): (k: nat)
    ensures k <= |name|
    ensures k < |name| ==> name[k] == '_'
    ensures forall i :: 0 <= i < k ==> name[i] != '_'
  {
    if name == "" || name[0] == '_' then 0 else 1 + TagLength(name[1..])
  }

  datatype Opener = Opener(sha: seq<Byte> -> Hash, unseal: seq<Byte> -> Option<seq<Byte>>)

  datatype UnsealOutcome = UnsealFault(error: SealError, files: Directory) | Unsealed(files: Directory)

  function UnsealOne(files: Directory, name: string, u: Opener): UnsealOutcome {
    if name !in files then UnsealFault(NoSuchFile, files)
    else
      match u.unseal(files[name])
      case None => UnsealFault(UnsealFailed, files)
      case Some(data) =>
        if Private(data) then UnsealFault(MalwareBlock, files)
        else Unsealed(Replace(files, name, name[..TagLength(name)] + "_" + Hex(u.sha(data)), data))
  }

  /** The files in the order in which the caller lists them. */
  function UnsealAll(files: Directory, names: seq<string>, u: Opener): UnsealOutcome
    decreases |names|
  {
    if names == [] then Unsealed(files)
    else
      match UnsealOne(files, names[0], u)
      case UnsealFault(e, f) => UnsealFault(e, f)
      case Unsealed(f) => UnsealAll(f, names[1..], u)
  }

  /** The directory of a file and the two methods that rewrite it. */
  class Vault {
    var files: Directory

    /** _storage_seal_file: the string and the two counters come in and go out as the reference parameters do. */
    method SealFile(t: Tree, text: string, nodeSize: nat, blockNum: nat, c: Crypto)
      returns (error: Option<SealError>, t': Tree, text': string, nodeSize': nat, blockNum': nat, ghost stored: Tree)
      requires Shaped(t)
      modifies this
      ensures var o := SealNode(t, Progress(old(files), text, nodeSize, blockNum), c);
              && files == (if o.Failed? then o.files else o.now.files)
              && (error == if o.Failed? then Some(o.error) else None)
              && (o.Sealed? ==> t' == o.tree && stored == o.stored && text' == o.now.text
                                && nodeSize' == o.now.size && blockNum' == o.now.blocks)
      decreases t
    {
      error, t', text', nodeSize', blockNum', stored := None, t, text, nodeSize, blockNum, t;
      if t.Leaf? {
        var name := BlockName(blockNum, t.hash);
        if name !in files {
          return Some(NoSuchFile), t, text, nodeSize, blockNum, t;
        }
        var data := files[name];
        if t.size != |data| {
          return Some(SizeError), t, text, nodeSize, blockNum, t;
        }
        if |t.hash| % 2 != 0 || |t.hash| == 0 {
          return Some(NoHashBytes), t, text, nodeSize, blockNum, t;
        }
        if |t.hash| < 2 * HASH_LENGTH {
          return Some(ShortHash), t, text, nodeSize, blockNum, t;
        }
        if Unhex(t.hash)[..HASH_LENGTH] != c.sha(data) {
          return Some(UnexpectedBlock), t, text, nodeSize, blockNum, t;
        }
        var sealed := c.seal(blockNum, data);
        var hash := HexstringSafe(c.sha(sealed));
        files := Replace(files, name, BlockName(blockNum, hash), sealed);
        t', stored := Leaf(hash, t.size), Leaf(hash, |sealed|);
        text' := text + Render(Leaf(hash, |sealed|));
        nodeSize', blockNum' := nodeSize + |sealed|, blockNum + 1;
        return;
      }
      ghost var start := Progress(files, text + LINKS_HEAD, 0, blockNum);
      text' := text + LINKS_HEAD;
      var curSize: nat := 0;
      var done: seq<Tree> := [];
      ghost var storedLinks: seq<Tree> := [];
      var hashes: seq<Byte> := [];
      var i: nat := 0;
      while i < |t.links|
        invariant i <= |t.links|
        invariant ShapedLinks(t.links[i..])
        invariant SealLinks(t.links, [], [], start, c)
               == SealLinks(t.links[i..], done, storedLinks, Progress(files, text', curSize, blockNum'), c)
        invariant hashes == HashBytes(done)
      {
        assert t.links[i..][1..] == t.links[i + 1..];
        var e, child, more, cur, num;
        ghost var s;
        e, child, more, cur, num, s := SealFile(t.links[i], text', curSize, blockNum', c);
        if e.Some? {
          return e, t, text, nodeSize, blockNum, t;
        }
        text', curSize, blockNum' := more, cur, num;
        HashBytesSnoc(done, child);
        hashes := hashes + (if |child.hash| % 2 == 0 then Unhex(child.hash) else []);
        done, storedLinks := done + [child], storedLinks + [s];
        if i + 1 != |t.links| {
          text' := text' + ",";
        }
        i := i + 1;
      }
      var hash := HexstringSafe(c.sha(hashes));
      t', stored := Node(done, hash, t.size), Node(storedLinks, hash, curSize);
      text' := text' + "]," + Head(|t.links|) + Rest(hash, curSize);
      nodeSize' := nodeSize + curSize;
    }

    /** storage_unseal_file, from the list of names to the directory before its renaming. */
    method UnsealFile(names: seq<string>, u: Opener) returns (error: Option<SealError>)
      modifies this
      ensures var o := UnsealAll(old(files), names, u);
              files == o.files && error == if o.UnsealFault? then Some(o.error) else None
    {
      var i: nat := 0;
      while i < |names|
        invariant i <= |names|
        invariant UnsealAll(old(files), names, u) == UnsealAll(files, names[i..], u)
      {
        assert names[i..][1..] == names[i + 1..];
        var path := names[i];
        if path !in files {
          return Some(NoSuchFile);
        }
        var tag := path[..TagLength(path)];
        var decrypted := u.unseal(files[path]);
        if decrypted.None? {
          return Some(UnsealFailed);
        }
        if Private(decrypted.value) {
          return Some(MalwareBlock);
        }
        var hash := HexstringSafe(u.sha(decrypted.value));
        files := Replace(files, path, tag + "_" + hash, decrypted.value);
        i := i + 1;
      }
      error := None;
    }
  }

  lemma {:induction false} HashBytesSnoc(ls: seq<Tree>, t: Tree)
    ensures HashBytes(ls + [t]) == HashBytes(ls) + (if |t.hash| % 2 == 0 then Unhex(t.hash) else [])
  {
    hide Unhex;
    if ls == [] {
      assert ls + [t] == [t] && HashBytes([t][1..]) == [];
    } else {
      HashBytesSnoc(ls[1..], t);
      assert (ls + [t])[1..] == ls[1..] + [t];
    }
  }
}
