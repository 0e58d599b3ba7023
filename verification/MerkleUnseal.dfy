/** Unsealing what sealing left, in any order of the files, gives the original directory back. */
module MerkleUnseal {
  import opened Bytes
  import opened Text
  import opened MerkleText
  import opened MerkleScan
  import opened MerkleSeal
  import opened MerkleFiles

  /** The blocks in p are open again, the others still sealed. */
  function Mixed<T>(open: seq<T>, sealed: seq<T>, p: set<nat>): (r: seq<T>)
    requires |open| == |sealed|
    ensures |r| == |open|
  {
    seq(|open|, k requires 0 <= k < |open| => if k in p then open[k] else sealed[k])
  }

  /** Contents and digests of some blocks, and what the blocks are when sealed. */
  ghost predicate Pairs(hs: seq<string>, ds: seq<seq<Byte>>, hs': seq<string>, ds': seq<seq<Byte>>, u: Opener) {
    && |hs| == |ds| == |hs'| == |ds'|
    && forall k :: 0 <= k < |hs| ==> u.unseal(ds'[k]) == Some(ds[k]) && hs[k] == Hex(u.sha(ds[k]))
  }

  /** The names are, once each, those of the sealed blocks outside p. */
  ghost predicate Lists(names: seq<string>, hs': seq<string>, p: set<nat>) {
    && (forall i, j :: 0 <= i < j < |names| ==> names[i] != names[j])
    && (forall n :: n in names <==> exists k: nat :: k < |hs'| && k !in p && n == BlockName(k, hs'[k]))
  }

  ghost predicate NoPrivate(ds: seq<seq<Byte>>, p: set<nat>) {
    forall k: nat :: k < |ds| && k !in p ==> !Private(ds[k])
  }

  /** The blocks outside p that unsealing would put under the name they have. */
  function Same(hs: seq<string>, hs': seq<string>, p: set<nat>): set<nat>
    requires |hs| == |hs'|
  {
    set k: nat | k < |hs| && k !in p && hs[k] == hs'[k]
  }

  lemma ListsNext(names: seq<string>, hs': seq<string>, p: set<nat>, k: nat)
    requires Lists(names, hs', p) && names != [] && k < |hs'| && k !in p && names[0] == BlockName(k, hs'[k])
    ensures Lists(names[1..], hs', p + {k})
  {
    hide BlockName;
    forall n ensures n in names[1..] <==> exists j: nat :: j < |hs'| && j !in p + {k} && n == BlockName(j, hs'[j]) {
      if n in names[1..] {
        var i :| 0 <= i < |names| - 1 && names[1..][i] == n;
        assert names[i + 1] == n && n != names[0] && n in names;
        var j: nat :| j < |hs'| && j !in p && n == BlockName(j, hs'[j]);
        assert j != k;
      }
      if j: nat :| j < |hs'| && j !in p + {k} && n == BlockName(j, hs'[j]) {
        assert n in names;
        if n == names[0] {
          BlockNameInjective(j, hs'[j], k, hs'[k]);
        }
        var i :| 0 <= i < |names| && names[i] == n;
        assert names[1..][i - 1] == n;
      }
    }
  }

  lemma UnsealBlock(files: Directory, hs: seq<string>, ds: seq<seq<Byte>>, hs': seq<string>, ds': seq<seq<Byte>>,
                    p: set<nat>, lost: set<nat>, k: nat, u: Opener)
    requires Pairs(hs, ds, hs', ds', u) && k < |hs| && k !in p && lost <= p
    requires HoldsBut(files, Mixed(hs, hs', p), Mixed(ds, ds', p), lost)
    ensures var o := UnsealOne(files, BlockName(k, hs'[k]), u);
            && (o.Unsealed? <==> !Private(ds[k]))
            && (o.UnsealFault? ==> o.error == MalwareBlock)
            && (o.Unsealed? ==> HoldsBut(o.files, Mixed(hs, hs', p + {k}), Mixed(ds, ds', p + {k}),
                                         if hs[k] == hs'[k] then lost + {k} else lost))
  {
    hide HoldsBut, Private, BlockName, UnsealOne, Hex;
    var h, d := Mixed(hs, hs', p), Mixed(ds, ds', p);
    assert h[k] == hs'[k] && d[k] == ds'[k];
    HoldsAt(files, h, d, lost, k);
    UnsealsTo(files, k, hs'[k], ds[k], u);
    if !Private(ds[k]) {
      ReplaceBlock(files, h, d, lost, k, hs[k], ds[k]);
      assert h[k := hs[k]] == Mixed(hs, hs', p + {k});
      assert d[k := ds[k]] == Mixed(ds, ds', p + {k});
    }
  }

  lemma UnsealsTo(files: Directory, k: nat, h: string, d: seq<Byte>, u: Opener)
    requires BlockName(k, h) in files && u.unseal(files[BlockName(k, h)]) == Some(d)
    ensures UnsealOne(files, BlockName(k, h), u)
         == if Private(d) then UnsealFault(MalwareBlock, files)
            else Unsealed(Replace(files, BlockName(k, h), BlockName(k, Hex(u.sha(d))), d))
  {
    hide TagLength, Private, Replace, Hex, Decimal;
    TagOfBlock(k, h);
  }

  lemma NothingListed(hs': seq<string>, p: set<nat>)
    requires Lists([], hs', p)
    ensures forall k: nat :: k < |hs'| ==> k in p
  {
    forall k: nat | k < |hs'| ensures k in p {
      var n := BlockName(k, hs'[k]);
      assert n !in [];
    }
  }

  lemma SameNext(hs: seq<string>, hs': seq<string>, p: set<nat>, k: nat)
    requires k < |hs| == |hs'| && k !in p
    ensures Same(hs, hs', p) == Same(hs, hs', p + {k}) + if hs[k] == hs'[k] then {k} else {}
  {
  }

  /** From any intermediate directory, unsealing the files listed in any order succeeds exactly when none of them
      carries the private tag; a block that keeps its name is lost. */
  lemma {:induction false} UnsealRest(files: Directory, names: seq<string>, hs: seq<string>, ds: seq<seq<Byte>>,
                                      hs': seq<string>, ds': seq<seq<Byte>>, p: set<nat>, lost: set<nat>, u: Opener)
    requires Pairs(hs, ds, hs', ds', u) && Lists(names, hs', p) && lost <= p
    requires HoldsBut(files, Mixed(hs, hs', p), Mixed(ds, ds', p), lost)
    ensures var o := UnsealAll(files, names, u);
            && (o.Unsealed? <==> NoPrivate(ds, p))
            && (o.UnsealFault? ==> o.error == MalwareBlock)
            && (o.Unsealed? ==> HoldsBut(o.files, hs, ds, lost + Same(hs, hs', p)))
    decreases |names|
  {
    hide BlockName, UnsealOne, HoldsBut, Same;
    if names == [] {
      NothingListed(hs', p);
      assert Mixed(hs, hs', p) == hs && Mixed(ds, ds', p) == ds;
      NothingSame(hs, hs', p);
      assert lost + {} == lost;
    } else {
      assert names[0] in names;
      var k: nat :| k < |hs'| && k !in p && names[0] == BlockName(k, hs'[k]);
      UnsealBlock(files, hs, ds, hs', ds', p, lost, k, u);
      var o := UnsealOne(files, names[0], u);
      if o.Unsealed? {
        var lost' := if hs[k] == hs'[k] then lost + {k} else lost;
        ListsNext(names, hs', p, k);
        SameNext(hs, hs', p, k);
        UnsealRest(o.files, names[1..], hs, ds, hs', ds', p + {k}, lost', u);
        assert lost' + Same(hs, hs', p + {k}) == lost + Same(hs, hs', p);
      }
    }
  }

  lemma NothingSame(hs: seq<string>, hs': seq<string>, p: set<nat>)
    requires |hs| == |hs'| && forall k: nat :: k < |hs'| ==> k in p
    ensures Same(hs, hs', p) == {}
  {
  }

  /** Sealing a whole directory that is as its tree says: all blocks are there and sealed exactly when none collides. */
  lemma SealDirectory(t: Tree, st: Progress, ds: seq<seq<Byte>>, c: Crypto)
    requires Shaped(t) && st.blocks == 0 && Holds(st.files, Leaves(t), ds)
    requires Intact(Leaves(t), LeafSizes(t), ds, 0, c)
    ensures SealNode(t, st, c).Sealed?
    ensures var f, hs := SealNode(t, st, c).now.files, Leaves(t);
            && |hs| == |ds|
            && HoldsBut(f, HashesAfter(hs, ds, 0, |hs|, c), DataAfter(ds, 0, |hs|, c), Lost(hs, ds, |hs|, c))
            && (Holds(f, HashesAfter(hs, ds, 0, |hs|, c), DataAfter(ds, 0, |hs|, c)) <==> NoCollision(hs, ds, c))
  {
    hide *;
    var hs := Leaves(t);
    NothingSealed(st.files, hs, ds, c);
    SealNodeFiles(t, st, c, hs, ds);
    AllSealed(SealNode(t, st, c).now.files, hs, ds, c);
  }

  /** Sealing loses the file of block k exactly when the block collides. */
  lemma SealingLoses(t: Tree, st: Progress, ds: seq<seq<Byte>>, k: nat, c: Crypto)
    requires Shaped(t) && st.blocks == 0 && Holds(st.files, Leaves(t), ds)
    requires Intact(Leaves(t), LeafSizes(t), ds, 0, c) && k < |Leaves(t)|
    ensures SealNode(t, st, c).Sealed? && |Leaves(t)| == |ds|
    ensures Collides(Leaves(t), ds, k, c) <==> forall h :: BlockName(k, h) !in SealNode(t, st, c).now.files
  {
    hide *;
    SealDirectory(t, st, ds, c);
    var hs := Leaves(t);
    LostIs(hs, ds, |hs|, k, c);
    LostIsGone(SealNode(t, st, c).now.files, HashesAfter(hs, ds, 0, |hs|, c), DataAfter(ds, 0, |hs|, c), Lost(hs, ds, |hs|, c), k);
  }

  lemma LostIs(hs: seq<string>, ds: seq<seq<Byte>>, b: nat, k: nat, c: Crypto)
    requires k < b <= |hs| == |ds|
    ensures k in Lost(hs, ds, b, c) <==> Collides(hs, ds, k, c)
  {
  }

  lemma NothingSealed(files: Directory, hs: seq<string>, ds: seq<seq<Byte>>, c: Crypto)
    requires Holds(files, hs, ds)
    ensures |hs| == |ds| && Under(files, hs, ds, 0, c) && StandsAt(hs, 0, hs)
  {
    hide SealedHash, BlockName;
    assert HashesAfter(hs, ds, 0, 0, c) == hs && DataAfter(ds, 0, 0, c) == ds && Lost(hs, ds, 0, c) == {};
  }

  lemma AllSealed(files: Directory, hs: seq<string>, ds: seq<seq<Byte>>, c: Crypto)
    requires Under(files, hs, ds, |hs|, c)
    ensures |hs| == |ds|
    ensures HoldsBut(files, HashesAfter(hs, ds, 0, |hs|, c), DataAfter(ds, 0, |hs|, c), Lost(hs, ds, |hs|, c))
    ensures Holds(files, HashesAfter(hs, ds, 0, |hs|, c), DataAfter(ds, 0, |hs|, c)) <==> NoCollision(hs, ds, c)
  {
    hide SealedHash, BlockName, HashesAfter, DataAfter;
    var hs', ds', lost := HashesAfter(hs, ds, 0, |hs|, c), DataAfter(ds, 0, |hs|, c), Lost(hs, ds, |hs|, c);
    if NoCollision(hs, ds, c) {
      assert lost == {};
    }
    if Holds(files, hs', ds') {
      forall k: nat | k < |hs| ensures !Collides(hs, ds, k, c) {
        assert BlockName(k, hs'[k]) in files;
        LostIsGone(files, hs', ds', lost, k);
        LostIs(hs, ds, |hs|, k, c);
      }
    }
  }

  /** The names are, in some order, the files of the directory. */
  ghost predicate ListingOf(names: seq<string>, files: Directory) {
    Distinct(names) && forall n :: n in names <==> n in files
  }

  ghost predicate Unseals(u: Opener, c: Crypto, ds: seq<seq<Byte>>) {
    u.sha == c.sha && forall k :: 0 <= k < |ds| ==> u.unseal(c.seal(k, ds[k])) == Some(ds[k])
  }

  /** Every hash is the text that the digest of the block is written as. */
  ghost predicate Canonical(hs: seq<string>, ds: seq<seq<Byte>>, c: Crypto) {
    |hs| == |ds| && forall k :: 0 <= k < |hs| ==> hs[k] == Hex(c.sha(ds[k]))
  }

  lemma IntactIsCanonical(t: Tree, ds: seq<seq<Byte>>, c: Crypto)
    requires WellFormed(t) && Intact(Leaves(t), LeafSizes(t), ds, 0, c) && |Leaves(t)| == |ds|
    ensures Canonical(Leaves(t), ds, c)
  {
    var hs := Leaves(t);
    LeafHashes(t);
    LeafSizesLength(t);
    hide Leaves, LeafSizes, Hex;
    forall k | 0 <= k < |hs| ensures hs[k] == Hex(c.sha(ds[k])) {
      HexUnhex(hs[k]);
      assert IntactBlock(hs[k], LeafSizes(t)[k], ds[0 + k], c);
      assert Unhex(hs[k])[..HASH_LENGTH] == Unhex(hs[k]);
    }
  }

  function Digests(ds: seq<seq<Byte>>, sha: seq<Byte> -> Hash): (hs: seq<string>)
    ensures |hs| == |ds|
  {
    seq(|ds|, k requires 0 <= k < |ds| => Hex(sha(ds[k])))
  }

  /** Seal a tree whose directory is intact, list the sealed files in any order and unseal them: it is refused exactly
      when a block that is still there carries the private tag, and the directory is what it was exactly when no block
      collides, none is private and every hash is written as the digest is. */
  lemma SealThenUnseal(t: Tree, st: Progress, ds: seq<seq<Byte>>, names: seq<string>, c: Crypto, u: Opener)
    requires Shaped(t) && st.blocks == 0 && Holds(st.files, Leaves(t), ds) && Unseals(u, c, ds)
    requires Intact(Leaves(t), LeafSizes(t), ds, 0, c)
    ensures SealNode(t, st, c).Sealed? && |Leaves(t)| == |ds|
    ensures ListingOf(names, SealNode(t, st, c).now.files) ==>
              var o, hs := UnsealAll(SealNode(t, st, c).now.files, names, u), Leaves(t);
              && (o.Unsealed? <==> NoPrivate(ds, Lost(hs, ds, |hs|, c)))
              && (o.UnsealFault? ==> o.error == MalwareBlock)
              && (o == Unsealed(st.files) <==> NoCollision(hs, ds, c) && NoPrivate(ds, {}) && Canonical(hs, ds, c))
  {
    hide *;
    SealDirectory(t, st, ds, c);
    if ListingOf(names, SealNode(t, st, c).now.files) {
      UnsealListing(SealNode(t, st, c).now.files, names, Leaves(t), ds, c, u);
      Restored(st.files, Leaves(t), ds, UnsealAll(SealNode(t, st, c).now.files, names, u), c);
    }
  }

  lemma UnsealListing(files: Directory, names: seq<string>, hs: seq<string>, ds: seq<seq<Byte>>, c: Crypto, u: Opener)
    requires |hs| == |ds| && Unseals(u, c, ds) && ListingOf(names, files)
    requires HoldsBut(files, HashesAfter(hs, ds, 0, |hs|, c), DataAfter(ds, 0, |hs|, c), Lost(hs, ds, |hs|, c))
    ensures var o, lost := UnsealAll(files, names, u), Lost(hs, ds, |hs|, c);
            && (o.Unsealed? <==> NoPrivate(ds, lost))
            && (o.UnsealFault? ==> o.error == MalwareBlock)
            && (o.Unsealed? ==> HoldsBut(o.files, Digests(ds, c.sha), ds,
                                         lost + Same(Digests(ds, c.sha), HashesAfter(hs, ds, 0, |hs|, c), lost)))
  {
    var open, hs', ds', lost := Digests(ds, c.sha), HashesAfter(hs, ds, 0, |hs|, c), DataAfter(ds, 0, |hs|, c), Lost(hs, ds, |hs|, c);
    assert Pairs(open, ds, hs', ds', u);
    hide Digests, HashesAfter, DataAfter, Lost, UnsealAll, NoPrivate, Same, Pairs;
    ListsSealed(files, names, hs', ds', lost);
    HoldsMixed(files, open, ds, hs', ds', lost);
    UnsealRest(files, names, open, ds, hs', ds', lost, lost, u);
  }

  /** What the lost blocks would be does not matter. */
  lemma HoldsMixed(files: Directory, hs: seq<string>, ds: seq<seq<Byte>>, hs': seq<string>, ds': seq<seq<Byte>>, lost: set<nat>)
    requires |hs| == |ds| == |hs'| && HoldsBut(files, hs', ds', lost)
    ensures HoldsBut(files, Mixed(hs, hs', lost), Mixed(ds, ds', lost), lost)
  {
    hide BlockName;
    var h := Mixed(hs, hs', lost);
    forall n | n in files ensures exists k: nat :: k < |h| && k !in lost && n == BlockName(k, h[k]) {
      var k: nat :| k < |hs'| && k !in lost && n == BlockName(k, hs'[k]);
      assert h[k] == hs'[k];
    }
  }

  lemma ListsSealed(files: Directory, names: seq<string>, hs': seq<string>, ds': seq<seq<Byte>>, lost: set<nat>)
    requires HoldsBut(files, hs', ds', lost) && ListingOf(names, files)
    ensures Lists(names, hs', lost)
  {
    hide BlockName;
  }

  lemma Restored(files: Directory, hs: seq<string>, ds: seq<seq<Byte>>, o: UnsealOutcome, c: Crypto)
    requires |hs| == |ds| && Holds(files, hs, ds)
    requires o.Unsealed? <==> NoPrivate(ds, Lost(hs, ds, |hs|, c))
    requires o.Unsealed? ==> HoldsBut(o.files, Digests(ds, c.sha), ds, Lost(hs, ds, |hs|, c)
                                      + Same(Digests(ds, c.sha), HashesAfter(hs, ds, 0, |hs|, c), Lost(hs, ds, |hs|, c)))
    ensures o == Unsealed(files) <==> NoCollision(hs, ds, c) && NoPrivate(ds, {}) && Canonical(hs, ds, c)
  {
    var lost := Lost(hs, ds, |hs|, c);
    if NoCollision(hs, ds, c) && NoPrivate(ds, {}) && Canonical(hs, ds, c) {
      AllRestored(files, hs, ds, o, c);
    }
    if o == Unsealed(files) {
      forall k: nat | k < |hs| ensures hs[k] == Hex(c.sha(ds[k])) && k !in lost {
        RestoredAt(files, hs, ds, Digests(ds, c.sha), lost + Same(Digests(ds, c.sha), HashesAfter(hs, ds, 0, |hs|, c), lost), k);
      }
    }
  }

  lemma AllRestored(files: Directory, hs: seq<string>, ds: seq<seq<Byte>>, o: UnsealOutcome, c: Crypto)
    requires NoCollision(hs, ds, c) && NoPrivate(ds, {}) && Canonical(hs, ds, c) && Holds(files, hs, ds)
    requires o.Unsealed? <==> NoPrivate(ds, Lost(hs, ds, |hs|, c))
    requires o.Unsealed? ==> HoldsBut(o.files, Digests(ds, c.sha), ds, Lost(hs, ds, |hs|, c)
                                      + Same(Digests(ds, c.sha), HashesAfter(hs, ds, 0, |hs|, c), Lost(hs, ds, |hs|, c)))
    ensures o == Unsealed(files)
  {
    hide Hex, SealedHash, HoldsBut, Private;
    var lost := Lost(hs, ds, |hs|, c);
    assert lost == {};
    assert Digests(ds, c.sha) == hs;
    assert Same(hs, HashesAfter(hs, ds, 0, |hs|, c), {}) == {};
    assert lost + {} == {};
    HoldsUnique(o.files, files, hs, ds);
  }

  lemma RestoredAt(files: Directory, hs: seq<string>, ds: seq<seq<Byte>>, open: seq<string>, lost: set<nat>, k: nat)
    requires Holds(files, hs, ds) && HoldsBut(files, open, ds, lost) && k < |hs|
    ensures k !in lost && hs[k] == open[k]
  {
    hide BlockName;
    HoldsAt(files, hs, ds, {}, k);
    assert BlockName(k, hs[k]) in files;
    var j: nat :| j < |open| && j !in lost && BlockName(k, hs[k]) == BlockName(j, open[j]);
    BlockNameInjective(k, hs[k], j, open[j]);
  }

  // ----- What counts as private -----

  /** The bytes as characters. */
  function Chars(data: seq<Byte>): (s: string)
    ensures |s| == |data|
  {
    seq(|data|, i requires 0 <= i < |data| => data[i] as char)
  }

  /** Exactly the blocks that start with the tag are refused, and they stay as they are. */
  lemma TaggedIsRefused(files: Directory, name: string, u: Opener)
    requires name in files && u.unseal(files[name]).Some?
    ensures UnsealOne(files, name, u) == UnsealFault(MalwareBlock, files) <==>
            "&+CRUSTSWORKERPRIVATE+&" <= Chars(u.unseal(files[name]).value)
  {
    var data := u.unseal(files[name]).value;
    var s := Chars(data);
    if PRIVATE_TAG <= s {
      assert forall i :: 0 <= i < |PRIVATE_TAG| ==> s[i] == PRIVATE_TAG[i];
    }
    if Private(data) {
      assert s[..|PRIVATE_TAG|] == PRIVATE_TAG;
    }
  }

  /** What else stops the unsealing of a file: that it is not there, or that it cannot be opened. */
  lemma UnopenedIsRefused(files: Directory, name: string, u: Opener)
    ensures UnsealOne(files, name, u) == UnsealFault(NoSuchFile, files) <==> name !in files
    ensures UnsealOne(files, name, u) == UnsealFault(UnsealFailed, files) <==> name in files && u.unseal(files[name]).None?
    ensures UnsealOne(files, name, u).UnsealFault? ==> UnsealOne(files, name, u).files == files
  {
    hide Private, Replace, TagLength;
  }

  /** Unsealing stops at the first file that is refused, with the files before it already open. */
  lemma {:induction false} UnsealAllStops(files: Directory, names: seq<string>, u: Opener) returns (k: nat, before: Directory)
    requires UnsealAll(files, names, u).UnsealFault?
    ensures k < |names| && UnsealAll(files, names[..k], u) == Unsealed(before)
    ensures UnsealOne(before, names[k], u) == UnsealAll(files, names, u)
    decreases |names|
  {
    hide UnsealOne;
    k, before := 0, files;
    var o := UnsealOne(files, names[0], u);
    if o.Unsealed? {
      var j, b := UnsealAllStops(o.files, names[1..], u);
      k, before := j + 1, b;
      assert names[..k][1..] == names[1..][..j];
    }
  }
}
