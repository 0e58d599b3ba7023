/** What sealing keeps of a tree: its shape, the text it leaves, block count, sizes and inner hashes. */
module MerkleShape {
  import opened Bytes
  import opened Text
  import opened MerkleText
  import opened MerkleSeal

  /** Same tree, whatever the hashes and sizes. */
  predicate SameShape(a: Tree, b: Tree)
    decreases a, 0
  {
    (a.Leaf? && b.Leaf?) || (a.Node? && b.Node? && SameShapes(a.links, b.links))
  }

  predicate SameShapes(a: seq<Tree>, b: seq<Tree>)
    decreases a, 1
  {
    |a| == |b| && (a == [] || (SameShape(a[0], b[0]) && SameShapes(a[1..], b[1..])))
  }

  /** Same hashes, and the sizes of t: what the caller finds in its tree afterwards. */
  predicate Rehashed(t: Tree, tree: Tree, stored: Tree)
    decreases t, 0
  {
    && tree.hash == stored.hash && tree.size == t.size
    && ((t.Leaf? && tree.Leaf? && stored.Leaf?)
        || (t.Node? && tree.Node? && stored.Node? && RehashedLinks(t.links, tree.links, stored.links)))
  }

  predicate RehashedLinks(ts: seq<Tree>, trees: seq<Tree>, stored: seq<Tree>)
    decreases ts, 1
  {
    && |ts| == |trees| == |stored|
    && (ts == [] || (Rehashed(ts[0], trees[0], stored[0]) && RehashedLinks(ts[1..], trees[1..], stored[1..])))
  }

  /** Every inner hash is the digest of the hashes below it. */
  ghost predicate HashesUp(t: Tree, sha: seq<Byte> -> Hash)
    decreases t, 0
  {
    t.Node? ==> t.hash == Hex(sha(HashBytes(t.links))) && HashesUpLinks(t.links, sha)
  }

  ghost predicate HashesUpLinks(ls: seq<Tree>, sha: seq<Byte> -> Hash)
    decreases ls, 1
  {
    ls == [] || (HashesUp(ls[0], sha) && HashesUpLinks(ls[1..], sha))
  }

  /** Every size is the sum of the leaf sizes below it. */
  predicate SizesUp(t: Tree)
    decreases t, 0
  {
    t.Node? ==> t.size == SumSizes(t.links) && SizesUpLinks(t.links)
  }

  predicate SizesUpLinks(ls: seq<Tree>)
    decreases ls, 1
  {
    ls == [] || (SizesUp(ls[0]) && SizesUpLinks(ls[1..]))
  }

  function SumSizes(ls: seq<Tree>): nat {
    if ls == [] then 0 else ls[0].size + SumSizes(ls[1..])
  }

  /** The text ends exactly with the stored tree, and the counters tell its leaves and bytes. */
  ghost predicate SealedWell(t: Tree, st: Progress, c: Crypto, tree: Tree, stored: Tree, now: Progress) {
    && SameShape(t, stored) && WellFormed(stored) && Rehashed(t, tree, stored)
    && HashesUp(stored, c.sha) && SizesUp(stored)
    && now.text == st.text + Render(stored)
    && now.size == st.size + stored.size
    && now.blocks == st.blocks + |Leaves(t)|
    && |Leaves(stored)| == |Leaves(t)|
  }

  ghost predicate SealedLinksWell(ts: seq<Tree>, st: Progress, c: Crypto, trees: seq<Tree>, stored: seq<Tree>, now: Progress) {
    && SameShapes(ts, stored) && WellFormedLinks(stored) && RehashedLinks(ts, trees, stored)
    && HashesUpLinks(stored, c.sha) && SizesUpLinks(stored)
    && now.text == st.text + RenderLinks(stored)
    && now.size == st.size + SumSizes(stored)
    && now.blocks == st.blocks + |LeavesOf(ts)|
    && |LeavesOf(stored)| == |LeavesOf(ts)|
  }

  /** Sealing keeps the shape, rehashes bottom up, counts the leaves and sums the sealed sizes, and
      what it appends to the text is the rendering of the stored tree. */
  lemma {:induction false} SealNodeWell(t: Tree, st: Progress, c: Crypto)
    requires Shaped(t) && SealNode(t, st, c).Sealed?
    ensures var o := SealNode(t, st, c); SealedWell(t, st, c, o.tree, o.stored, o.now)
    decreases t, 0
  {
    match t
    case Leaf(_, _) =>
    case Node(ls, _, size) =>
      var st' := st.(text := st.text + LINKS_HEAD, size := 0);
      var ds, ss := SealLinksWell(ls, [], [], st', c);
      var o := SealLinks(ls, [], [], st', c);
      EmptyLeft(ds);
      EmptyLeft(ss);
      NodeSealed(t, st, c, o.done, o.stored, o.now);
  }

  lemma NodeSealed(t: Tree, st: Progress, c: Crypto, done: seq<Tree>, stored: seq<Tree>, now: Progress)
    requires t.Node? && t.links != []
    requires SealedLinksWell(t.links, st.(text := st.text + LINKS_HEAD, size := 0), c, done, stored, now)
    ensures var hash := Hex(c.sha(HashBytes(done)));
            SealedWell(t, st, c, Node(done, hash, t.size), Node(stored, hash, now.size),
                       now.(text := now.text + "]," + Head(|t.links|) + Rest(hash, now.size), size := st.size + now.size))
  {
    var hash := Hex(c.sha(HashBytes(done)));
    SameHashBytes(t.links, done, stored);
    NodeText(stored, hash, now.size);
    ShapesLength(t.links, stored);
    hide Render, RenderLinks, HashBytes, Head, Rest, SameShapes, RehashedLinks, HashesUpLinks, SizesUpLinks, WellFormedLinks;
    Associative4(st.text + LINKS_HEAD + RenderLinks(stored), "],", Head(|stored|), Rest(hash, now.size));
    Associative4(st.text, LINKS_HEAD, RenderLinks(stored), "]," + Head(|stored|) + Rest(hash, now.size));
    Associative(st.text, LINKS_HEAD + RenderLinks(stored), "]," + Head(|stored|) + Rest(hash, now.size));
    Associative(LINKS_HEAD, RenderLinks(stored), "]," + Head(|stored|) + Rest(hash, now.size));
  }

  lemma ShapesLength(a: seq<Tree>, b: seq<Tree>)
    requires SameShapes(a, b)
    ensures |a| == |b|
  {
  }

  lemma {:induction false} SameHashBytes(ts: seq<Tree>, trees: seq<Tree>, stored: seq<Tree>)
    requires RehashedLinks(ts, trees, stored)
    ensures HashBytes(trees) == HashBytes(stored)
  {
    if ts != [] {
      SameHashBytes(ts[1..], trees[1..], stored[1..]);
    }
  }

  lemma {:induction false} SealLinksWell(ls: seq<Tree>, done: seq<Tree>, stored: seq<Tree>, st: Progress, c: Crypto)
    returns (ds: seq<Tree>, ss: seq<Tree>)
    requires ShapedLinks(ls) && SealLinks(ls, done, stored, st, c).LinksSealed?
    ensures var o := SealLinks(ls, done, stored, st, c);
            o.done == done + ds && o.stored == stored + ss && SealedLinksWell(ls, st, c, ds, ss, o.now)
    decreases ls, 1
  {
    if ls == [] {
      ds, ss := [], [];
      EmptyRight(st.text);
    } else {
      SealNodeWell(ls[0], st, c);
      var o := SealNode(ls[0], st, c);
      var next := if |ls| == 1 then o.now else o.now.(text := o.now.text + ",");
      ds, ss := SealLinksWell(ls[1..], done + [o.tree], stored + [o.stored], next, c);
      Associative(done, [o.tree], ds);
      Associative(stored, [o.stored], ss);
      LinksSealedMore(ls, st, c, o.tree, o.stored, o.now, ds, ss, next, SealLinks(ls, done, stored, st, c).now);
      ds, ss := [o.tree] + ds, [o.stored] + ss;
    }
  }

  lemma LinksSealedMore(ls: seq<Tree>, st: Progress, c: Crypto, t: Tree, s: Tree, mid: Progress,
                        ds: seq<Tree>, ss: seq<Tree>, next: Progress, now: Progress)
    requires ls != [] && SealedWell(ls[0], st, c, t, s, mid)
    requires next == if |ls| == 1 then mid else mid.(text := mid.text + ",")
    requires SealedLinksWell(ls[1..], next, c, ds, ss, now)
    ensures SealedLinksWell(ls, st, c, [t] + ds, [s] + ss, now)
  {
    ShapesLength(ls[1..], ss);
    assert ([s] + ss)[1..] == ss && ([t] + ds)[1..] == ds;
    hide Render, SameShape, Rehashed, HashesUp, SizesUp, WellFormed;
    if |ls| == 1 {
      assert ss == [] && LeavesOf(ss) == [];
      EmptyRight(mid.text);
    } else {
      Associative4(st.text, Render(s), ",", RenderLinks(ss));
      Associative(Render(s), ",", RenderLinks(ss));
    }
  }
}
