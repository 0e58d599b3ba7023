/** The directory of blocks under sealing and unsealing: unsealing in any order undoes sealing. */
module MerkleFiles {
  import opened Bytes
  import opened Text
  import opened MerkleText
  import opened MerkleSeal

  /** The directory holds one file k_hash for each block k that is not lost, and no other. */
  ghost predicate HoldsBut(files: Directory, hs: seq<string>, ds: seq<seq<Byte>>, lost: set<nat>) {
    && |hs| == |ds|
    && (forall k: nat :: k < |hs| && k !in lost ==> BlockName(k, hs[k]) in files && files[BlockName(k, hs[k])] == ds[k])
    && (forall n <- files :: exists k: nat :: k < |hs| && k !in lost && n == BlockName(k, hs[k]))
  }

  ghost predicate Holds(files: Directory, hs: seq<string>, ds: seq<seq<Byte>>) {
    HoldsBut(files, hs, ds, {})
  }

  lemma HoldsUnique(f: Directory, g: Directory, hs: seq<string>, ds: seq<seq<Byte>>)
    requires Holds(f, hs, ds) && Holds(g, hs, ds)
    ensures f == g
  {
    hide BlockName;
    assert f.Keys == g.Keys by {
      forall n ensures n in f <==> n in g {
        if n in f {
          var k: nat :| k < |hs| && n == BlockName(k, hs[k]);
        }
        if n in g {
          var k: nat :| k < |hs| && n == BlockName(k, hs[k]);
        }
      }
    }
    forall n | n in f ensures f[n] == g[n] {
      var k: nat :| k < |hs| && n == BlockName(k, hs[k]);
    }
  }

  lemma TagOfBlock(k: nat, h: string)
    ensures TagLength(BlockName(k, h)) == |Decimal(k)|
    ensures BlockName(k, h)[..|Decimal(k)|] == Decimal(k)
  {
    var n, d := BlockName(k, h), Decimal(k);
    assert n == d + ("_" + h);
    assert n[|d|] == '_';
    assert forall i :: 0 <= i < |d| ==> n[i] == d[i] && d[i] != '_';
  }

  lemma BlockNameInjective(j: nat, g: string, k: nat, h: string)
    requires BlockName(j, g) == BlockName(k, h)
    ensures j == k && g == h
  {
    TagOfBlock(j, g);
    TagOfBlock(k, h);
    DecimalInjective(j, k);
    assert BlockName(j, g)[|Decimal(j)| + 1..] == g;
    assert BlockName(k, h)[|Decimal(k)| + 1..] == h;
  }

  /** The file of block k goes to the name with another hash; under the same name it is lost, as what was saved is
      deleted right away. */
  lemma ReplaceBlock(files: Directory, hs: seq<string>, ds: seq<seq<Byte>>, lost: set<nat>, k: nat, h: string, d: seq<Byte>)
    requires HoldsBut(files, hs, ds, lost) && k < |hs| && k !in lost
    ensures HoldsBut(Replace(files, BlockName(k, hs[k]), BlockName(k, h), d), hs[k := h], ds[k := d],
                     if h == hs[k] then lost + {k} else lost)
  {
    hide BlockName;
    var g, from, to := Replace(files, BlockName(k, hs[k]), BlockName(k, h), d), BlockName(k, hs[k]), BlockName(k, h);
    var hs', ds', lost' := hs[k := h], ds[k := d], if h == hs[k] then lost + {k} else lost;
    if from == to {
      BlockNameInjective(k, hs[k], k, h);
    }
    forall j: nat | j < |hs'| && j !in lost' ensures BlockName(j, hs'[j]) in g && g[BlockName(j, hs'[j])] == ds'[j] {
      if j != k {
        if BlockName(j, hs[j]) == from {
          BlockNameInjective(j, hs[j], k, hs[k]);
        }
        if BlockName(j, hs[j]) == to {
          BlockNameInjective(j, hs[j], k, h);
        }
      }
    }
    forall n | n in g ensures exists j: nat :: j < |hs'| && j !in lost' && n == BlockName(j, hs'[j]) {
      if n == to {
        assert n == BlockName(k, hs'[k]);
      } else {
        var j: nat :| j < |hs| && j !in lost && n == BlockName(j, hs[j]);
        assert j != k && hs'[j] == hs[j];
      }
    }
  }

  /** A block has no file, whatever the hash, exactly when it is lost. */
  lemma LostIsGone(files: Directory, hs: seq<string>, ds: seq<seq<Byte>>, lost: set<nat>, k: nat)
    requires HoldsBut(files, hs, ds, lost) && k < |hs|
    ensures k in lost <==> forall h :: BlockName(k, h) !in files
  {
    hide BlockName;
    forall h | BlockName(k, h) in files ensures k !in lost {
      var j: nat :| j < |hs| && j !in lost && BlockName(k, h) == BlockName(j, hs[j]);
      BlockNameInjective(k, h, j, hs[j]);
    }
  }

  // ----- Sealing -----

  function SealedHash(k: nat, d: seq<Byte>, c: Crypto): string {
    Hex(c.sha(c.seal(k, d)))
  }

  /** The hashes and contents once the blocks from a to b are sealed. */
  function HashesAfter(hs: seq<string>, ds: seq<seq<Byte>>, a: nat, b: nat, c: Crypto): (r: seq<string>)
    requires |hs| == |ds|
    ensures |r| == |hs|
  {
    seq(|hs|, k requires 0 <= k < |hs| => if a <= k < b then SealedHash(k, ds[k], c) else hs[k])
  }

  function DataAfter(ds: seq<seq<Byte>>, a: nat, b: nat, c: Crypto): (r: seq<seq<Byte>>)
    ensures |r| == |ds|
  {
    seq(|ds|, k requires 0 <= k < |ds| => if a <= k < b then c.seal(k, ds[k]) else ds[k])
  }

  /** The hashes of the blocks from a to b once they are sealed. */
  function SealedHashes(ds: seq<seq<Byte>>, a: nat, b: nat, c: Crypto): (r: seq<string>)
    requires a <= b <= |ds|
    ensures |r| == b - a
    decreases b - a
  {
    if a == b then [] else [SealedHash(a, ds[a], c)] + SealedHashes(ds, a + 1, b, c)
  }

  lemma {:induction false} SealedHashesJoin(ds: seq<seq<Byte>>, a: nat, m: nat, b: nat, c: Crypto)
    requires a <= m <= b <= |ds|
    ensures SealedHashes(ds, a, b, c) == SealedHashes(ds, a, m, c) + SealedHashes(ds, m, b, c)
    decreases m - a
  {
    hide SealedHash;
    if a == m {
      EmptyLeft(SealedHashes(ds, m, b, c));
    } else {
      SealedHashesJoin(ds, a + 1, m, b, c);
      Associative([SealedHash(a, ds[a], c)], SealedHashes(ds, a + 1, m, c), SealedHashes(ds, m, b, c));
    }
  }

  /** Sealing would put the block under the name it has. */
  predicate Collides(hs: seq<string>, ds: seq<seq<Byte>>, k: nat, c: Crypto)
    requires |hs| == |ds| && k < |hs|
  {
    SealedHash(k, ds[k], c) == hs[k]
  }

  ghost predicate NoCollision(hs: seq<string>, ds: seq<seq<Byte>>, c: Crypto) {
    |hs| == |ds| && forall k: nat :: k < |hs| ==> !Collides(hs, ds, k, c)
  }

  /** The blocks that sealing the first b loses. */
  function Lost(hs: seq<string>, ds: seq<seq<Byte>>, b: nat, c: Crypto): set<nat>
    requires b <= |hs| == |ds|
  {
    set k: nat | k < b && Collides(hs, ds, k, c)
  }

  function LeafSizes(t: Tree): seq<nat>
    decreases t, 0
  {
    match t
    case Leaf(_, n) => [n]
    case Node(ls, _, _) => LeafSizesOf(ls)
  }

  function LeafSizesOf(ls: seq<Tree>): seq<nat>
    decreases ls, 1
  {
    if ls == [] then [] else LeafSizes(ls[0]) + LeafSizesOf(ls[1..])
  }

  predicate IntactBlock(h: string, n: nat, d: seq<Byte>, c: Crypto) {
    |h| % 2 == 0 && |h| >= 2 * HASH_LENGTH && n == |d| && Unhex(h)[..HASH_LENGTH] == c.sha(d)
  }

  /** The blocks of the directory from the given one on are as the tree describes them. */
  ghost predicate Intact(hashes: seq<string>, sizes: seq<nat>, ds: seq<seq<Byte>>, from: nat, c: Crypto) {
    && |hashes| == |sizes| && from + |hashes| <= |ds|
    && forall i :: 0 <= i < |hashes| ==> IntactBlock(hashes[i], sizes[i], ds[from + i], c)
  }

  /** The state of the directory in the middle of sealing the blocks hs, ds: the first b are done. */
  ghost predicate Under(files: Directory, hs: seq<string>, ds: seq<seq<Byte>>, b: nat, c: Crypto) {
    |hs| == |ds| && b <= |hs| && HoldsBut(files, HashesAfter(hs, ds, 0, b, c), DataAfter(ds, 0, b, c), Lost(hs, ds, b, c))
  }

  lemma AfterNext(hs: seq<string>, ds: seq<seq<Byte>>, b: nat, c: Crypto)
    requires |hs| == |ds| && b < |hs|
    ensures HashesAfter(hs, ds, 0, b, c)[b] == hs[b] && DataAfter(ds, 0, b, c)[b] == ds[b]
    ensures HashesAfter(hs, ds, 0, b, c)[b := SealedHash(b, ds[b], c)] == HashesAfter(hs, ds, 0, b + 1, c)
    ensures DataAfter(ds, 0, b, c)[b := c.seal(b, ds[b])] == DataAfter(ds, 0, b + 1, c)
  {
    hide SealedHash;
  }

  lemma HoldsAt(files: Directory, hs: seq<string>, ds: seq<seq<Byte>>, lost: set<nat>, k: nat)
    requires HoldsBut(files, hs, ds, lost) && k < |hs| && k !in lost
    ensures BlockName(k, hs[k]) in files && files[BlockName(k, hs[k])] == ds[k]
  {
    hide BlockName;
  }

  lemma LostNext(hs: seq<string>, ds: seq<seq<Byte>>, b: nat, c: Crypto)
    requires b < |hs| == |ds|
    ensures b !in Lost(hs, ds, b, c)
    ensures Lost(hs, ds, b + 1, c) == if SealedHash(b, ds[b], c) == hs[b] then Lost(hs, ds, b, c) + {b} else Lost(hs, ds, b, c)
  {
    hide SealedHash;
  }

  lemma UnderNext(files: Directory, hs: seq<string>, ds: seq<seq<Byte>>, b: nat, c: Crypto)
    requires |hs| == |ds| && b < |hs| && Under(files, hs, ds, b, c)
    ensures BlockName(b, hs[b]) in files && files[BlockName(b, hs[b])] == ds[b]
    ensures Under(Replace(files, BlockName(b, hs[b]), BlockName(b, SealedHash(b, ds[b], c)), c.seal(b, ds[b])), hs, ds, b + 1, c)
  {
    var h, d := HashesAfter(hs, ds, 0, b, c), DataAfter(ds, 0, b, c);
    AfterNext(hs, ds, b, c);
    LostNext(hs, ds, b, c);
    hide BlockName, Replace, HoldsBut, SealedHash, HashesAfter, DataAfter, Lost;
    ReplaceBlock(files, h, d, Lost(hs, ds, b, c), b, SealedHash(b, ds[b], c), c.seal(b, ds[b]));
    HoldsAt(files, h, d, Lost(hs, ds, b, c), b);
  }

  predicate StandsAt<T(==)>(s: seq<T>, b: nat, x: seq<T>) {
    b + |x| <= |s| && s[b..b + |x|] == x
  }

  lemma {:induction false} LeafSizesLength(t: Tree)
    ensures |LeafSizes(t)| == |Leaves(t)|
    decreases t, 0
  {
    match t
    case Leaf(_, _) =>
    case Node(ls, _, _) => LeafSizesOfLength(ls);
  }

  lemma {:induction false} LeafSizesOfLength(ls: seq<Tree>)
    ensures |LeafSizesOf(ls)| == |LeavesOf(ls)|
    decreases ls, 1
  {
    if ls != [] {
      LeafSizesLength(ls[0]);
      LeafSizesOfLength(ls[1..]);
    }
  }

  /** Sealing a subtree succeeds exactly when its blocks are intact, and then just they are sealed, of which those
      that collide are lost. */
  lemma {:induction false} SealNodeFiles(t: Tree, st: Progress, c: Crypto, hs: seq<string>, ds: seq<seq<Byte>>)
    requires Shaped(t) && Under(st.files, hs, ds, st.blocks, c)
    requires |hs| == |ds| && StandsAt(hs, st.blocks, Leaves(t))
    ensures var o := SealNode(t, st, c);
            && (o.Sealed? <==> Intact(Leaves(t), LeafSizes(t), ds, st.blocks, c))
            && (o.Sealed? ==>
                  && Under(o.now.files, hs, ds, o.now.blocks, c) && o.now.blocks == st.blocks + |Leaves(t)|
                  && Leaves(o.stored) == SealedHashes(ds, st.blocks, o.now.blocks, c))
    decreases t, 0
  {
    hide *;
    match t
    case Leaf(_, _) =>
      SealLeafFiles(t, st, c, hs, ds);
    case Node(ls, _, _) =>
      NodeUnfold(t, st, c);
      SealLinksFiles(ls, [], [], st.(text := st.text + LINKS_HEAD, size := 0), c, hs, ds);
      var o := SealNode(t, st, c);
      if o.Sealed? {
        SealedFromNone(o, SealLinks(ls, [], [], st.(text := st.text + LINKS_HEAD, size := 0), c).now,
                       st.blocks, st.blocks + |LeavesOf(ls)|, c, hs, ds);
      }
  }

  lemma SealLeafFiles(t: Tree, st: Progress, c: Crypto, hs: seq<string>, ds: seq<seq<Byte>>)
    requires t.Leaf? && Under(st.files, hs, ds, st.blocks, c)
    requires |hs| == |ds| && StandsAt(hs, st.blocks, Leaves(t))
    ensures var o := SealNode(t, st, c);
            && (o.Sealed? <==> Intact(Leaves(t), LeafSizes(t), ds, st.blocks, c))
            && (o.Sealed? ==>
                  && Under(o.now.files, hs, ds, o.now.blocks, c) && o.now.blocks == st.blocks + |Leaves(t)|
                  && Leaves(o.stored) == SealedHashes(ds, st.blocks, o.now.blocks, c))
  {
    hide Under, Intact, Hex, Replace, BlockName, Render;
    BlockCount(hs, ds, st.blocks, Leaves(t));
    var b := st.blocks;
    assert hs[b] == hs[b..b + 1][0] == t.hash;
    UnderNext(st.files, hs, ds, b, c);
    IntactOne(t.hash, t.size, ds, b, c);
    assert SealedHashes(ds, b, b + 1, c) == [SealedHash(b, ds[b], c)];
  }

  lemma NodeUnfold(t: Tree, st: Progress, c: Crypto)
    requires Shaped(t) && t.Node?
    ensures ShapedLinks(t.links) && Leaves(t) == LeavesOf(t.links) && LeafSizes(t) == LeafSizesOf(t.links)
    ensures var o, i := SealNode(t, st, c), SealLinks(t.links, [], [], st.(text := st.text + LINKS_HEAD, size := 0), c);
            && (o.Sealed? <==> i.LinksSealed?)
            && (o.Sealed? ==> o.now.files == i.now.files && o.now.blocks == i.now.blocks && Leaves(o.stored) == LeavesOf(i.stored))
    ensures LeavesOf([]) == []
  {
    hide SealLinks, HashBytes, Hex, Head, Rest;
  }

  lemma SealedFromNone(o: Outcome, now: Progress, b: nat, e: nat, c: Crypto, hs: seq<string>, ds: seq<seq<Byte>>)
    requires o.Sealed? && now.files == o.now.files && now.blocks == o.now.blocks
    requires SealedUpTo(now, Leaves(o.stored), [], b, e, c, hs, ds)
    ensures o.now.blocks == e
    ensures b <= o.now.blocks <= |ds| && Leaves(o.stored) == SealedHashes(ds, b, o.now.blocks, c)
    ensures Under(o.now.files, hs, ds, o.now.blocks, c)
  {
    hide Leaves, SealedHashes, Under;
    EmptyLeft(SealedHashes(ds, b, o.now.blocks, c));
  }

  lemma IntactOne(h: string, n: nat, ds: seq<seq<Byte>>, b: nat, c: Crypto)
    requires b < |ds|
    ensures Intact([h], [n], ds, b, c) <==> IntactBlock(h, n, ds[b], c)
  {
    hide IntactBlock;
    var hashes, sizes := [h], [n];
    if Intact(hashes, sizes, ds, b, c) {
      assert IntactBlock(hashes[0], sizes[0], ds[b + 0], c);
    }
    if IntactBlock(h, n, ds[b], c) {
      forall i | 0 <= i < 1 ensures IntactBlock(hashes[i], sizes[i], ds[b + i], c) {
        assert hashes[i] == h && sizes[i] == n && ds[b + i] == ds[b];
      }
    }
  }

  lemma IntactSplit(h1: seq<string>, s1: seq<nat>, h2: seq<string>, s2: seq<nat>, ds: seq<seq<Byte>>, b: nat, c: Crypto)
    requires |h1| == |s1| && |h2| == |s2| && b + |h1| + |h2| <= |ds|
    ensures Intact(h1 + h2, s1 + s2, ds, b, c) <==> Intact(h1, s1, ds, b, c) && Intact(h2, s2, ds, b + |h1|, c)
  {
    hide IntactBlock;
    var h, s := h1 + h2, s1 + s2;
    if Intact(h, s, ds, b, c) {
      forall i | 0 <= i < |h1| ensures IntactBlock(h1[i], s1[i], ds[b + i], c) {
        assert h[i] == h1[i] && s[i] == s1[i];
      }
      forall i | 0 <= i < |h2| ensures IntactBlock(h2[i], s2[i], ds[b + |h1| + i], c) {
        assert h[|h1| + i] == h2[i] && s[|h1| + i] == s2[i] && ds[b + (|h1| + i)] == ds[b + |h1| + i];
      }
    }
    if Intact(h1, s1, ds, b, c) && Intact(h2, s2, ds, b + |h1|, c) {
      forall i | 0 <= i < |h| ensures IntactBlock(h[i], s[i], ds[b + i], c) {
        if i >= |h1| {
          assert h[i] == h2[i - |h1|] && s[i] == s2[i - |h1|] && ds[b + |h1| + (i - |h1|)] == ds[b + i];
        }
      }
    }
  }

  lemma SliceSplit<T>(s: seq<T>, b: nat, x: seq<T>, y: seq<T>)
    requires StandsAt(s, b, x + y)
    ensures StandsAt(s, b, x) && StandsAt(s, b + |x|, y) && b + |x| + |y| <= |s|
  {
    assert s[b..b + |x|] == s[b..b + |x + y|][..|x|];
    assert s[b + |x|..b + |x| + |y|] == s[b..b + |x + y|][|x|..];
  }

  lemma {:induction false} LeavesSnoc(ls: seq<Tree>, t: Tree)
    ensures LeavesOf(ls + [t]) == LeavesOf(ls) + Leaves(t)
  {
    hide Leaves;
    if ls == [] {
      assert ls + [t] == [t] && LeavesOf([t][1..]) == [];
      EmptyRight(Leaves(t));
    } else {
      LeavesSnoc(ls[1..], t);
      assert (ls + [t])[1..] == ls[1..] + [t];
      Associative(Leaves(ls[0]), LeavesOf(ls[1..]), Leaves(t));
    }
  }

  /** The blocks from b to e are sealed, and hashes ends with theirs. */
  ghost predicate SealedUpTo(now: Progress, hashes: seq<string>, before: seq<string>, b: nat, e: nat, c: Crypto,
                             hs: seq<string>, ds: seq<seq<Byte>>)
  {
    && b <= e == now.blocks <= |ds| && Under(now.files, hs, ds, e, c)
    && hashes == before + SealedHashes(ds, b, e, c)
  }

  lemma SealLinksStep(ls: seq<Tree>, done: seq<Tree>, stored: seq<Tree>, st: Progress, c: Crypto)
    requires ShapedLinks(ls) && ls != []
    ensures var o := SealNode(ls[0], st, c);
            SealLinks(ls, done, stored, st, c)
            == if o.Failed? then LinksFailed(o.error, o.files)
            else SealLinks(ls[1..], done + [o.tree], stored + [o.stored],
                           if |ls| == 1 then o.now else o.now.(text := o.now.text + ","), c)
  {
    hide SealNode;
  }

  lemma BlockCount(hs: seq<string>, ds: seq<seq<Byte>>, b: nat, x: seq<string>)
    requires |hs| == |ds| && StandsAt(hs, b, x)
    ensures b + |x| <= |ds|
  {
  }

  /** Sealing links succeeds exactly when their blocks are intact, and then just they are sealed. */
  lemma {:induction false} SealLinksFiles(ls: seq<Tree>, done: seq<Tree>, stored: seq<Tree>, st: Progress, c: Crypto,
                                          hs: seq<string>, ds: seq<seq<Byte>>)
    requires ShapedLinks(ls) && Under(st.files, hs, ds, st.blocks, c)
    requires |hs| == |ds| && StandsAt(hs, st.blocks, LeavesOf(ls))
    ensures var o, b := SealLinks(ls, done, stored, st, c), st.blocks;
            && (o.LinksSealed? <==> Intact(LeavesOf(ls), LeafSizesOf(ls), ds, b, c))
            && (o.LinksSealed? ==>
                  SealedUpTo(o.now, LeavesOf(o.stored), LeavesOf(stored), b, b + |LeavesOf(ls)|, c, hs, ds))
    decreases ls, 1
  {
    hide *;
    BlockCount(hs, ds, st.blocks, LeavesOf(ls));
    if ls == [] {
      NoLinks(ls, done, stored, st, c, hs, ds);
    } else {
      LinksUnfold(ls);
      SliceSplit(hs, st.blocks, Leaves(ls[0]), LeavesOf(ls[1..]));
      SealNodeFiles(ls[0], st, c, hs, ds);
      SealLinksStep(ls, done, stored, st, c);
      LeafSizesLength(ls[0]);
      LeafSizesOfLength(ls[1..]);
      IntactSplit(Leaves(ls[0]), LeafSizes(ls[0]), LeavesOf(ls[1..]), LeafSizesOf(ls[1..]), ds, st.blocks, c);
      var o := SealNode(ls[0], st, c);
      if o.Sealed? {
        var next := if |ls| == 1 then o.now else o.now.(text := o.now.text + ",");
        SealLinksFiles(ls[1..], done + [o.tree], stored + [o.stored], next, c, hs, ds);
        var end := SealLinks(ls, done, stored, st, c);
        if end.LinksSealed? {
          var m := st.blocks + |Leaves(ls[0])|;
          SealedFurther(end, stored, o.stored, st.blocks, m, m + |LeavesOf(ls[1..])|, c, hs, ds);
        }
      }
    }
  }

  lemma NoLinks(ls: seq<Tree>, done: seq<Tree>, stored: seq<Tree>, st: Progress, c: Crypto,
                hs: seq<string>, ds: seq<seq<Byte>>)
    requires ls == [] && |hs| == |ds| && Under(st.files, hs, ds, st.blocks, c)
    ensures Intact(LeavesOf(ls), LeafSizesOf(ls), ds, st.blocks, c)
    ensures var o := SealLinks(ls, done, stored, st, c);
            o.LinksSealed? && SealedUpTo(o.now, LeavesOf(o.stored), LeavesOf(stored), st.blocks, st.blocks + |LeavesOf(ls)|, c, hs, ds)
  {
    hide HashesAfter, DataAfter, HoldsBut, Unhex;
    EmptyRight(LeavesOf(stored));
  }

  lemma LinksUnfold(ls: seq<Tree>)
    requires ShapedLinks(ls) && ls != []
    ensures Shaped(ls[0]) && ShapedLinks(ls[1..])
    ensures LeavesOf(ls) == Leaves(ls[0]) + LeavesOf(ls[1..]) && LeafSizesOf(ls) == LeafSizes(ls[0]) + LeafSizesOf(ls[1..])
  {
  }

  lemma SealedFurther(o: LinksOutcome, stored: seq<Tree>, s: Tree, b: nat, m: nat, e: nat, c: Crypto,
                      hs: seq<string>, ds: seq<seq<Byte>>)
    requires o.LinksSealed? && b <= m <= e <= |ds| && Leaves(s) == SealedHashes(ds, b, m, c)
    requires SealedUpTo(o.now, LeavesOf(o.stored), LeavesOf(stored + [s]), m, e, c, hs, ds)
    ensures SealedUpTo(o.now, LeavesOf(o.stored), LeavesOf(stored), b, e, c, hs, ds)
  {
    hide Leaves, LeavesOf, SealedHashes, Under;
    LeavesSnoc(stored, s);
    SealedHashesJoin(ds, b, m, e, c);
    Associative(LeavesOf(stored), SealedHashes(ds, b, m, c), SealedHashes(ds, m, e, c));
  }

  // ----- Where sealing stops -----

  /** What is wrong with the block: its size, then the form of its hash, then its digest. */
  predicate Explains(error: SealError, h: string, n: nat, d: seq<Byte>) {
    && (error == SizeError <==> n != |d|)
    && (error == NoHashBytes <==> n == |d| && (|h| % 2 != 0 || h == ""))
    && (error == ShortHash <==> n == |d| && |h| % 2 == 0 && 0 < |h| < 64)
    && (error == UnexpectedBlock <==> n == |d| && |h| % 2 == 0 && |h| >= 64)
  }

  /** Block k is the first that is not intact, the error says why, and exactly the blocks before it are sealed. */
  ghost predicate StopsAt(error: SealError, files: Directory, hashes: seq<string>, sizes: seq<nat>, b: nat, k: nat, c: Crypto,
                          hs: seq<string>, ds: seq<seq<Byte>>)
  {
    && k < |hashes| == |sizes| && b + |hashes| <= |ds|
    && (forall i :: 0 <= i < k ==> IntactBlock(hashes[i], sizes[i], ds[b + i], c))
    && !IntactBlock(hashes[k], sizes[k], ds[b + k], c)
    && Explains(error, hashes[k], sizes[k], ds[b + k])
    && Under(files, hs, ds, b + k, c)
  }

  /** A subtree that is not sealed stops at its first block that is not intact: the blocks before it stay sealed. */
  lemma {:induction false} SealNodeStops(t: Tree, st: Progress, c: Crypto, hs: seq<string>, ds: seq<seq<Byte>>) returns (k: nat)
    requires Shaped(t) && Under(st.files, hs, ds, st.blocks, c) && SealNode(t, st, c).Failed?
    requires |hs| == |ds| && StandsAt(hs, st.blocks, Leaves(t))
    ensures var o := SealNode(t, st, c); StopsAt(o.error, o.files, Leaves(t), LeafSizes(t), st.blocks, k, c, hs, ds)
    decreases t, 0
  {
    hide *;
    match t
    case Leaf(_, _) =>
      k := 0;
      LeafStops(t, st, c, hs, ds);
    case Node(ls, _, _) =>
      NodeUnfold(t, st, c);
      NodeFails(t, st, c);
      k := SealLinksStop(ls, [], [], st.(text := st.text + LINKS_HEAD, size := 0), c, hs, ds);
  }

  lemma LeafStops(t: Tree, st: Progress, c: Crypto, hs: seq<string>, ds: seq<seq<Byte>>)
    requires t.Leaf? && Under(st.files, hs, ds, st.blocks, c) && SealNode(t, st, c).Failed?
    requires |hs| == |ds| && StandsAt(hs, st.blocks, Leaves(t))
    ensures var o := SealNode(t, st, c); StopsAt(o.error, o.files, Leaves(t), LeafSizes(t), st.blocks, 0, c, hs, ds)
  {
    hide Under, Hex, Replace, BlockName, Render, Unhex;
    BlockCount(hs, ds, st.blocks, Leaves(t));
    assert hs[st.blocks] == hs[st.blocks..st.blocks + 1][0] == t.hash;
    UnderNext(st.files, hs, ds, st.blocks, c);
  }

  lemma NodeFails(t: Tree, st: Progress, c: Crypto)
    requires Shaped(t) && t.Node? && SealNode(t, st, c).Failed?
    ensures var o, i := SealNode(t, st, c), SealLinks(t.links, [], [], st.(text := st.text + LINKS_HEAD, size := 0), c);
            i.LinksFailed? && o.error == i.error && o.files == i.files
  {
    hide SealLinks, HashBytes, Hex, Head, Rest;
  }

  lemma {:induction false} SealLinksStop(ls: seq<Tree>, done: seq<Tree>, stored: seq<Tree>, st: Progress, c: Crypto,
                                         hs: seq<string>, ds: seq<seq<Byte>>) returns (k: nat)
    requires ShapedLinks(ls) && Under(st.files, hs, ds, st.blocks, c) && SealLinks(ls, done, stored, st, c).LinksFailed?
    requires |hs| == |ds| && StandsAt(hs, st.blocks, LeavesOf(ls))
    ensures var o := SealLinks(ls, done, stored, st, c);
            StopsAt(o.error, o.files, LeavesOf(ls), LeafSizesOf(ls), st.blocks, k, c, hs, ds)
    decreases ls, 1
  {
    hide *;
    k := 0;
    if ls == [] {
      NoLinks(ls, done, stored, st, c, hs, ds);
    } else {
      BlockCount(hs, ds, st.blocks, LeavesOf(ls));
      LinksUnfold(ls);
      SliceSplit(hs, st.blocks, Leaves(ls[0]), LeavesOf(ls[1..]));
      SealNodeFiles(ls[0], st, c, hs, ds);
      SealLinksStep(ls, done, stored, st, c);
      LeafSizesLength(ls[0]);
      LeafSizesOfLength(ls[1..]);
      var o := SealNode(ls[0], st, c);
      if o.Failed? {
        k := SealNodeStops(ls[0], st, c, hs, ds);
        StopsBefore(o.error, o.files, Leaves(ls[0]), LeafSizes(ls[0]), LeavesOf(ls[1..]), LeafSizesOf(ls[1..]), st.blocks, k, c, hs, ds);
      } else {
        var next := if |ls| == 1 then o.now else o.now.(text := o.now.text + ",");
        var j := SealLinksStop(ls[1..], done + [o.tree], stored + [o.stored], next, c, hs, ds);
        var end := SealLinks(ls, done, stored, st, c);
        k := |Leaves(ls[0])| + j;
        StopsBehind(end.error, end.files, Leaves(ls[0]), LeafSizes(ls[0]), LeavesOf(ls[1..]), LeafSizesOf(ls[1..]), st.blocks, j, c, hs, ds);
      }
    }
  }

  lemma StopsBefore(error: SealError, files: Directory, h1: seq<string>, s1: seq<nat>, h2: seq<string>, s2: seq<nat>,
                    b: nat, k: nat, c: Crypto, hs: seq<string>, ds: seq<seq<Byte>>)
    requires StopsAt(error, files, h1, s1, b, k, c, hs, ds) && |h2| == |s2| && b + |h1 + h2| <= |ds|
    ensures StopsAt(error, files, h1 + h2, s1 + s2, b, k, c, hs, ds)
  {
    hide IntactBlock, Explains, Under;
  }

  lemma StopsBehind(error: SealError, files: Directory, h1: seq<string>, s1: seq<nat>, h2: seq<string>, s2: seq<nat>,
                    b: nat, j: nat, c: Crypto, hs: seq<string>, ds: seq<seq<Byte>>)
    requires StopsAt(error, files, h2, s2, b + |h1|, j, c, hs, ds) && |h1| == |s1| && Intact(h1, s1, ds, b, c)
    ensures StopsAt(error, files, h1 + h2, s1 + s2, b, |h1| + j, c, hs, ds)
  {
    hide IntactBlock, Explains, Under;
    var h, s := h1 + h2, s1 + s2;
    forall i | 0 <= i < |h1| + j ensures IntactBlock(h[i], s[i], ds[b + i], c) {
      if i >= |h1| {
        assert h[i] == h2[i - |h1|] && s[i] == s2[i - |h1|] && ds[b + |h1| + (i - |h1|)] == ds[b + i];
      }
    }
    assert ds[b + (|h1| + j)] == ds[b + |h1| + j];
  }
}
