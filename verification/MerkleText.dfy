/** The tree text that sealing stores and the substring scan by which validation finds a block
    (src/enclave/storage/Storage.cpp, src/enclave/validator/Validator.cpp). */
module MerkleText {
  import opened Bytes
  import opened Text

  datatype Tree =
    | Leaf(hash: string, size: nat)
    | Node(links: seq<Tree>, hash: string, size: nat)

  const LEAF_TAG := "\"links_num\":0,\"hash\":\""
  const SIZE_TAG := "\",\"size\""
  const LINKS_HEAD := "{\"links\": ["

  predicate WellFormed(t: Tree)
    decreases t, 0
  {
    IsHashText(t.hash) && (t.Node? ==> t.links != [] && WellFormedLinks(t.links))
  }

  predicate WellFormedLinks(ls: seq<Tree>)
    decreases ls, 1
  {
    ls == [] || (WellFormed(ls[0]) && WellFormedLinks(ls[1..]))
  }

  /** The hashes of the leaves, left to right. */
  function Leaves(t: Tree): (r: seq<string>)
    decreases t, 0
  {
    match t
    case Leaf(h, _) => [h]
    case Node(ls, _, _) => LeavesOf(ls)
  }

  function LeavesOf(ls: seq<Tree>): seq<string>
    decreases ls, 1
  {
    if ls == [] then [] else Leaves(ls[0]) + LeavesOf(ls[1..])
  }

  // ----- The text -----

  function Head(n: nat): string {
    "\"links_num\":" + Decimal(n)
  }

  function Rest(hash: string, size: nat): string {
    ",\"hash\":\"" + hash + "\",\"size\":" + Decimal(size) + "}"
  }

  function Render(t: Tree): (s: string)
    ensures |s| > 1 && s[0] == '{' && s[|s| - 1] == '}'
    decreases t, 0
  {
    match t
    case Leaf(h, n) => "{" + Head(0) + Rest(h, n)
    case Node(ls, h, n) => LINKS_HEAD + RenderLinks(ls) + "]," + Head(|ls|) + Rest(h, n)
  }

  function RenderLinks(ls: seq<Tree>): string
    decreases ls, 1
  {
    if ls == [] then ""
    else if |ls| == 1 then Render(ls[0])
    else Render(ls[0]) + ("," + RenderLinks(ls[1..]))
  }

  // ----- Where the tag of a leaf stands -----

  /** The positions of the leaf tags in a rendered tree that starts at o. */
  function LeafPos(t: Tree, o: nat): (r: seq<nat>)
    decreases t, 0
  {
    match t
    case Leaf(_, _) => [o + 1]
    case Node(ls, _, _) => LinksPos(ls, o + |LINKS_HEAD|)
  }

  function LinksPos(ls: seq<Tree>, o: nat): (r: seq<nat>)
    decreases ls, 1
  {
    if ls == [] then [] else LeafPos(ls[0], o) + LinksPos(ls[1..], o + |Render(ls[0])| + 1)
  }

  /** A tag and the hash behind it. */
  const LEAF_SPAN := |LEAF_TAG| + 2 * HASH_LENGTH

  ghost predicate Spaced(ps: seq<nat>, from: nat, to: nat) {
    && (forall i :: 0 <= i < |ps| ==> from < ps[i] && ps[i] + LEAF_SPAN < to)
    && (forall i, j :: 0 <= i < j < |ps| ==> ps[i] + LEAF_SPAN < ps[j])
  }

  lemma SpacedConcat(a: seq<nat>, b: seq<nat>, from: nat, m: nat, m': nat, to: nat)
    requires from <= m <= m' <= to && Spaced(a, from, m) && Spaced(b, m', to)
    ensures Spaced(a + b, from, to)
  {
  }

  lemma {:induction false} LeafPosSpaced(t: Tree, o: nat)
    requires WellFormed(t)
    ensures Spaced(LeafPos(t, o), o, o + |Render(t)|) && |LeafPos(t, o)| == |Leaves(t)|
    decreases t, 0
  {
    match t
    case Leaf(_, _) =>
      assert |Head(0)| == 13;
    case Node(ls, _, _) =>
      LinksPosSpaced(ls, o + |LINKS_HEAD|);
  }

  lemma {:induction false} LinksPosSpaced(ls: seq<Tree>, o: nat)
    requires WellFormedLinks(ls)
    ensures Spaced(LinksPos(ls, o), o, o + |RenderLinks(ls)|) && |LinksPos(ls, o)| == |LeavesOf(ls)|
    decreases ls, 1
  {
    hide *;
    if ls == [] {
      NoLinks(o);
      NoneSpaced(o, o);
    } else {
      var m := o + |Render(ls[0])|;
      LinksUnfold(ls, o);
      LeafPosSpaced(ls[0], o);
      if |ls| == 1 {
        NoLinks(m + 1);
        EmptyRight(LeafPos(ls[0], o));
      } else {
        LinksPosSpaced(ls[1..], m + 1);
        SpacedConcat(LeafPos(ls[0], o), LinksPos(ls[1..], m + 1), o, m, m + 1, m + 1 + |RenderLinks(ls[1..])|);
      }
    }
  }

  lemma NoLinks(o: nat)
    ensures LinksPos([], o) == [] && LeavesOf([]) == [] && RenderLinks([]) == ""
  {
  }

  lemma LinksUnfold(ls: seq<Tree>, o: nat)
    requires ls != [] && WellFormedLinks(ls)
    ensures WellFormed(ls[0]) && WellFormedLinks(ls[1..])
    ensures LinksPos(ls, o) == LeafPos(ls[0], o) + LinksPos(ls[1..], o + |Render(ls[0])| + 1)
    ensures LeavesOf(ls) == Leaves(ls[0]) + LeavesOf(ls[1..])
    ensures |ls| == 1 ==> ls[1..] == [] && RenderLinks(ls) == Render(ls[0])
    ensures |ls| > 1 ==> |RenderLinks(ls)| == |Render(ls[0])| + 1 + |RenderLinks(ls[1..])|
  {
    hide Render, LeafPos, Leaves, WellFormed;
  }

  lemma NoneSpaced(from: nat, to: nat)
    ensures Spaced([], from, to)
  {
  }

  /** The text of leaf k: its tag, its hash and the size tag. */
  ghost predicate LeafText(s: string, ps: seq<nat>, hashes: seq<string>) {
    |ps| == |hashes| && forall k :: 0 <= k < |ps| ==> At(s, ps[k], LEAF_TAG + hashes[k] + SIZE_TAG)
  }

  lemma TagText()
    ensures Head(0) + ",\"hash\":\"" == LEAF_TAG && "\",\"size\":" == SIZE_TAG + ":"
  {
    assert Decimal(0) == "0";
  }

  lemma LeafParts(h: string, n: nat)
    ensures Render(Leaf(h, n)) == "{" + ((LEAF_TAG + h + SIZE_TAG) + (":" + Decimal(n) + "}"))
  {
    TagText();
    var head, d := Head(0), Decimal(n);
    hide Head, Decimal;
    LeafRegroup(head, ",\"hash\":\"", h, SIZE_TAG, ":", d, "}");
    Associative("{", head, ",\"hash\":\"" + h + "\",\"size\":" + d + "}");
  }

  lemma LeafRegroup(head: string, key: string, h: string, sz: string, colon: string, d: string, close: string)
    ensures head + (key + h + (sz + colon) + d + close) == (head + key) + h + sz + (colon + d + close)
  {
    Associative4(key + h, sz + colon, d, close);
    Associative(sz, colon, d + close);
    Associative(colon, d, close);
    var back := colon + d + close;
    Associative(key + h, sz, back);
    Associative(key, h, sz);
    Associative4(head, key, h, sz + back);
    Associative4(head + key, h, sz, back);
    Associative(key, h, sz + back);
    Associative(head + key, h, sz);
  }

  lemma {:induction false} LeafTexts(s: string, o: nat, t: Tree)
    requires WellFormed(t) && At(s, o, Render(t))
    ensures LeafText(s, LeafPos(t, o), Leaves(t))
    decreases t, 0
  {
    match t
    case Leaf(h, n) =>
      LeafParts(h, n);
      var mine := LEAF_TAG + h + SIZE_TAG;
      AtConcat(s, o, "{", mine + (":" + Decimal(n) + "}"));
      AtConcat(s, o + 1, mine, ":" + Decimal(n) + "}");
    case Node(ls, h, n) =>
      NodeParts(s, o, ls, h, n);
      LinksTexts(s, o + |LINKS_HEAD|, ls);
  }

  lemma NodeParts(s: string, o: nat, ls: seq<Tree>, h: string, n: nat)
    requires At(s, o, Render(Node(ls, h, n)))
    ensures At(s, o, LINKS_HEAD) && At(s, o + |LINKS_HEAD|, RenderLinks(ls))
    ensures At(s, o + |LINKS_HEAD| + |RenderLinks(ls)|, "]," + Head(|ls|) + Rest(h, n))
  {
    NodeText(ls, h, n);
    hide Render, RenderLinks, Head, Rest, At;
    var a, b, c := LINKS_HEAD, RenderLinks(ls), "]," + Head(|ls|) + Rest(h, n);
    AtConcat(s, o, a + b, c);
    AtConcat(s, o, a, b);
  }

  lemma NodeText(ls: seq<Tree>, h: string, n: nat)
    ensures Render(Node(ls, h, n)) == (LINKS_HEAD + RenderLinks(ls)) + ("]," + Head(|ls|) + Rest(h, n))
  {
    hide RenderLinks, Head, Rest;
    Associative4(LINKS_HEAD + RenderLinks(ls), "],", Head(|ls|), Rest(h, n));
  }

  lemma {:induction false} LinksTexts(s: string, o: nat, ls: seq<Tree>)
    requires WellFormedLinks(ls) && At(s, o, RenderLinks(ls))
    ensures LeafText(s, LinksPos(ls, o), LeavesOf(ls))
    decreases ls, 1
  {
    hide Render, At, LeafPos, Leaves, LeafText, WellFormed;
    if ls == [] {
      NoLeafText(s);
    } else {
      LinkParts(s, o, ls);
      LeafTexts(s, o, ls[0]);
      var m := o + |Render(ls[0])| + 1;
      if |ls| > 1 {
        LinksTexts(s, m, ls[1..]);
      } else {
        assert LinksPos(ls[1..], m) == [] && LeavesOf(ls[1..]) == [];
        NoLeafText(s);
      }
      LeafTextConcat(s, LeafPos(ls[0], o), LinksPos(ls[1..], m), Leaves(ls[0]), LeavesOf(ls[1..]));
    }
  }

  lemma NoLeafText(s: string)
    ensures LeafText(s, [], [])
  {
  }

  lemma LeafTextConcat(s: string, ps: seq<nat>, qs: seq<nat>, hs: seq<string>, gs: seq<string>)
    requires LeafText(s, ps, hs) && LeafText(s, qs, gs)
    ensures LeafText(s, ps + qs, hs + gs)
  {
    hide At;
  }

  lemma LinkParts(s: string, o: nat, ls: seq<Tree>)
    requires ls != [] && At(s, o, RenderLinks(ls))
    ensures At(s, o, Render(ls[0]))
    ensures |ls| > 1 ==>
              At(s, o + |Render(ls[0])|, ",") && At(s, o + |Render(ls[0])| + 1, RenderLinks(ls[1..]))
  {
    hide Render, At;
    if |ls| > 1 {
      AtConcat(s, o, Render(ls[0]), "," + RenderLinks(ls[1..]));
      AtConcat(s, o + |Render(ls[0])|, ",", RenderLinks(ls[1..]));
    }
  }

  /** What a match of the tag needs: no brace in it, and an underscore seven characters on. */
  lemma TagChars(s: string, p: nat)
    requires At(s, p, LEAF_TAG)
    ensures p + |LEAF_TAG| <= |s|
    ensures forall q :: p <= q < p + |LEAF_TAG| ==> s[q] != '{' && s[q] != '}'
    ensures s[p] == '\"' && s[p + 1] == 'l' && s[p + 6] == '_' && s[p + 12] == '0'
  {
    forall q | p <= q < p + |LEAF_TAG| ensures s[q] == LEAF_TAG[q - p] {
      AtIndex(s, p, LEAF_TAG, q - p);
    }
    assert LEAF_TAG[0] == '\"' && LEAF_TAG[1] == 'l' && LEAF_TAG[6] == '_' && LEAF_TAG[12] == '0';
  }

  /** Inside a stretch that ends with a closing brace a match ends before it. */
  lemma TagInside(s: string, p: nat, e: nat)
    requires At(s, p, LEAF_TAG) && p < e <= |s| && s[e - 1] == '}'
    ensures p + |LEAF_TAG| < e
  {
    TagChars(s, p);
  }

  /** In the stretch from a to e only position u holds an underscore. */
  ghost predicate OneUnderscore(s: string, a: nat, e: nat, u: nat) {
    e <= |s| && forall i :: a <= i < e && s[i] == '_' ==> i == u
  }

  lemma TailUnderscore(s: string, o: nat, k: nat, hash: string, size: nat)
    requires IsHashText(hash) && At(s, o, Head(k) + Rest(hash, size))
    ensures OneUnderscore(s, o, o + |Head(k) + Rest(hash, size)|, o + 6)
    ensures s[o + |Head(k) + Rest(hash, size)| - 1] == '}'
    ensures |Head(k)| > 12 && s[o + 12] == Decimal(k)[0]
  {
    var x := Head(k) + Rest(hash, size);
    AtIndex(s, o, x, |x| - 1);
    AtIndex(s, o, x, 12);
    assert x[12] == Head(k)[12];
    forall i | o <= i < o + |x| && i != o + 6 ensures s[i] != '_' {
      AtIndex(s, o, x, i - o);
      TailChars(k, hash, size, i - o);
    }
  }

  lemma RestChars(hash: string, size: nat)
    requires IsHashText(hash)
    ensures '_' !in Rest(hash, size)
  {
    assert '_' !in hash && '_' !in Decimal(size);
    assert '_' !in ",\"hash\":\"" && '_' !in "\",\"size\":";
  }

  lemma HeadChars(k: nat, i: nat)
    requires i < |Head(k)| && i != 6
    ensures Head(k)[i] != '_'
  {
    var lit := "\"links_num\":";
    if i < |lit| {
      assert Head(k)[i] == lit[i];
    } else {
      assert Head(k)[i] == Decimal(k)[i - |lit|];
    }
  }

  lemma TailChars(k: nat, hash: string, size: nat, i: nat)
    requires IsHashText(hash) && i < |Head(k) + Rest(hash, size)| && i != 6
    ensures (Head(k) + Rest(hash, size))[i] != '_'
  {
    var h := Head(k);
    if i < |h| {
      HeadChars(k, i);
    } else {
      RestChars(hash, size);
      hide Rest;
      assert (h + Rest(hash, size))[i] == Rest(hash, size)[i - |h|];
    }
  }

  /** All and only the positions of LeafPos match the tag. */
  lemma {:induction false} TagsExactly(s: string, o: nat, t: Tree, p: nat)
    requires WellFormed(t) && At(s, o, Render(t)) && o <= p < o + |Render(t)|
    ensures At(s, p, LEAF_TAG) <==> p in LeafPos(t, o)
    decreases t, 3
  {
    if p in LeafPos(t, o) {
      LeafTexts(s, o, t);
      var k :| 0 <= k < |LeafPos(t, o)| && LeafPos(t, o)[k] == p;
      AtConcat(s, p, LEAF_TAG + Leaves(t)[k], SIZE_TAG);
      AtConcat(s, p, LEAF_TAG, Leaves(t)[k]);
    }
    if At(s, p, LEAF_TAG) {
      TagInTree(s, o, t, p);
    }
  }

  lemma {:induction false} TagInTree(s: string, o: nat, t: Tree, p: nat)
    requires WellFormed(t) && At(s, o, Render(t)) && o <= p < o + |Render(t)|
    requires At(s, p, LEAF_TAG)
    ensures p in LeafPos(t, o)
    decreases t, 2
  {
    match t
    case Leaf(h, n) =>
      TagInLeaf(s, o, h, n, p);
    case Node(ls, h, n) =>
      NodeParts(s, o, ls, h, n);
      hide Render, Head, Rest, At;
        if p < o + |LINKS_HEAD| {
          HeadHasNoTag(s, o, p);
        } else if p < o + |LINKS_HEAD| + |RenderLinks(ls)| {
          LinksExactly(s, o + |LINKS_HEAD|, ls, p);
        } else {
          NodeLength(ls, h, n);
          SuffixHasNoTag(s, o + |LINKS_HEAD| + |RenderLinks(ls)|, |ls|, h, n, p);
        }
  }

  lemma NodeLength(ls: seq<Tree>, h: string, n: nat)
    ensures |Render(Node(ls, h, n))| == |LINKS_HEAD| + |RenderLinks(ls)| + |"]," + Head(|ls|) + Rest(h, n)|
  {
  }

  lemma TagInLeaf(s: string, o: nat, h: string, n: nat, p: nat)
    requires IsHashText(h) && At(s, o, Render(Leaf(h, n))) && o <= p < o + |Render(Leaf(h, n))|
    requires At(s, p, LEAF_TAG)
    ensures p == o + 1
  {
    hide *;
    var x := Head(0) + Rest(h, n);
    LeafBehindBrace(h, n);
    AtConcat(s, o, "{", x);
    AtIndex(s, o, "{", 0);
    TagChars(s, p);
    TailUnderscore(s, o + 1, 0, h, n);
    TagInside(s, p, o + 1 + |x|);
    TheUnderscore(s, o + 1, o + 1 + |x|, o + 7, p + 6);
  }

  lemma LeafBehindBrace(h: string, n: nat)
    ensures Render(Leaf(h, n)) == "{" + (Head(0) + Rest(h, n)) && |LEAF_TAG| > 6
  {
    hide Head, Rest;
    assert "{" + Head(0) + Rest(h, n) == "{" + (Head(0) + Rest(h, n));
  }

  lemma TheUnderscore(s: string, a: nat, e: nat, u: nat, i: nat)
    requires OneUnderscore(s, a, e, u) && a <= i < e && s[i] == '_'
    ensures i == u
  {
  }

  lemma HeadHasNoTag(s: string, o: nat, p: nat)
    requires At(s, o, LINKS_HEAD) && o <= p < o + |LINKS_HEAD|
    ensures !At(s, p, LEAF_TAG)
  {
    if At(s, p, LEAF_TAG) {
      TagChars(s, p);
      AtIndex(s, o, LINKS_HEAD, p - o);
      assert p == o + 1 || p == o + 7;
      AtIndex(s, o, LINKS_HEAD, p - o + (if p == o + 1 then 6 else 1));
    }
  }

  lemma SuffixHasNoTag(s: string, o: nat, k: nat, h: string, n: nat, p: nat)
    requires k > 0 && IsHashText(h) && At(s, o, "]," + Head(k) + Rest(h, n))
    requires o <= p < o + |"]," + Head(k) + Rest(h, n)|
    ensures !At(s, p, LEAF_TAG)
  {
    if At(s, p, LEAF_TAG) {
      var x := Head(k) + Rest(h, n);
      assert "]," + Head(k) + Rest(h, n) == "]," + x;
      AtConcat(s, o, "],", x);
      AtIndex(s, o, "],", 0);
      AtIndex(s, o, "],", 1);
      TagChars(s, p);
      TailUnderscore(s, o + 2, k, h, n);
      TagInside(s, p, o + 2 + |x|);
    }
  }

  lemma {:induction false} LinksExactly(s: string, o: nat, ls: seq<Tree>, p: nat)
    requires WellFormedLinks(ls) && At(s, o, RenderLinks(ls)) && o <= p < o + |RenderLinks(ls)|
    ensures At(s, p, LEAF_TAG) ==> p in LinksPos(ls, o)
    decreases ls, 1
  {
    hide Render, LeafPos, WellFormed, At;
    LinkParts(s, o, ls);
    var m := o + |Render(ls[0])|;
    if p < m {
      TagsExactly(s, o, ls[0], p);
    } else if At(s, p, LEAF_TAG) {
      AtIndex(s, m, ",", 0);
      TagChars(s, p);
      LinksExactly(s, m + 1, ls[1..], p);
    }
  }
}
