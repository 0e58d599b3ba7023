/** The loop of validate_meaningful_file that reads leaf hashes out of the tree text. */
module MerkleScan {
  import opened Bytes
  import opened Text
  import opened MerkleText

  /** std::string::find. */
  function Find(s: string, tag: string, from: nat): (r: Option<nat>)
    requires tag != ""
    ensures r.Some? ==> from <= r.value && At(s, r.value, tag)
                        && forall q :: from <= q < r.value ==> !At(s, q, tag)
    ensures r.None? ==> forall q :: from <= q ==> !At(s, q, tag)
    decreases |s| - from
  {
    if from >= |s| then None
    else if At(s, from, tag) then Some(from)
    else Find(s, tag, from + 1)
  }

  datatype Cursor = Cursor(pos: nat, seen: nat)

  /** The do-while loop: on from match to match until the wanted one is behind the cursor. */
  function Advance(text: string, c: Cursor, wanted: nat): (r: Option<Cursor>)
    ensures r.Some? ==> c.pos < r.value.pos <= |text|
    decreases |text| - c.pos
  {
    match Find(text, LEAF_TAG, c.pos)
    case None => None
    case Some(p) =>
      var next := Cursor(p + |LEAF_TAG|, c.seen + 1);
      if c.seen < wanted then Advance(text, next, wanted) else Some(next)
  }

  /** None when a block is not found. */
  function Scan(text: string, c: Cursor, wanted: seq<nat>): Option<seq<string>>
    decreases |wanted|
  {
    if wanted == [] then Some([])
    else match Advance(text, c, wanted[0])
         case None => None
         case Some(a) =>
           match Find(text, SIZE_TAG, a.pos)
           case None => None
           case Some(e) =>
             Prepend([text[a.pos..e]], Scan(text, Cursor(e, a.seen), wanted[1..]))
  }

  method AdvanceCursor(text: string, c: Cursor, wanted: nat) returns (r: Option<Cursor>)
    ensures r == Advance(text, c, wanted)
  {
    var spos: nat, seen: nat := c.pos, c.seen;
    while true
      invariant Advance(text, Cursor(spos, seen), wanted) == Advance(text, c, wanted)
      decreases |text| - spos
    {
      var p := Find(text, LEAF_TAG, spos);
      if p.None? {
        return None;
      }
      spos, seen := p.value + |LEAF_TAG|, seen + 1;
      if seen > wanted {
        return Some(Cursor(spos, seen));
      }
    }
  }

  method ScanLeaves(text: string, wanted: seq<nat>) returns (hashes: Option<seq<string>>)
    ensures hashes == Scan(text, Cursor(0, 0), wanted)
  {
    var at := Cursor(0, 0);
    var found: seq<string> := [];
    var i: nat := 0;
    EmptyLeftAll(Scan(text, at, wanted));
    while i < |wanted|
      invariant i <= |wanted|
      invariant Scan(text, Cursor(0, 0), wanted) == Prepend(found, Scan(text, at, wanted[i..]))
    {
      hide Advance, Find;
      var a := AdvanceCursor(text, at, wanted[i]);
      if a.None? {
        return None;
      }
      var e := Find(text, SIZE_TAG, a.value.pos);
      if e.None? {
        return None;
      }
      assert wanted[i..][1..] == wanted[i + 1..];
      PrependTwice(found, text[a.value.pos..e.value], Scan(text, Cursor(e.value, a.value.seen), wanted[i + 1..]));
      found := found + [text[a.value.pos..e.value]];
      at := Cursor(e.value, a.value.seen);
      i := i + 1;
    }
    EmptyRight(found);
    hashes := Some(found);
  }

  function Prepend(found: seq<string>, rest: Option<seq<string>>): Option<seq<string>> {
    match rest case None => None case Some(r) => Some(found + r)
  }

  lemma EmptyLeftAll(rest: Option<seq<string>>)
    ensures Prepend([], rest) == rest
  {
    if rest.Some? {
      EmptyLeft(rest.value);
    }
  }

  lemma PrependTwice(found: seq<string>, h: string, rest: Option<seq<string>>)
    ensures Prepend(found, Prepend([h], rest)) == Prepend(found + [h], rest)
  {
    if rest.Some? {
      Associative(found, [h], rest.value);
    }
  }

  // ----- On a rendered tree -----

  predicate Ascending(wanted: seq<nat>) {
    forall i, j :: 0 <= i < j < |wanted| ==> wanted[i] < wanted[j]
  }

  /** The cursor stands between match seen - 1 and match seen. */
  ghost predicate Between(c: Cursor, ps: seq<nat>) {
    && c.seen <= |ps|
    && (c.seen > 0 ==> ps[c.seen - 1] < c.pos)
    && (c.seen < |ps| ==> c.pos <= ps[c.seen])
  }

  /** The positions ps are those where the tag stands, with room for a hash between two of them. */
  ghost predicate Marked(text: string, ps: seq<nat>) {
    && (forall p: nat :: At(text, p, LEAF_TAG) <==> p in ps)
    && (forall i, j :: 0 <= i < j < |ps| ==> ps[i] + LEAF_SPAN < ps[j])
  }

  lemma FindNext(text: string, ps: seq<nat>, c: Cursor)
    requires Marked(text, ps) && Between(c, ps)
    ensures Find(text, LEAF_TAG, c.pos) == if c.seen < |ps| then Some(ps[c.seen]) else None
  {
    hide At;
    var r := Find(text, LEAF_TAG, c.pos);
    if r.Some? {
      assert r.value in ps;
      var k :| 0 <= k < |ps| && ps[k] == r.value;
      assert c.seen <= k;
    }
    if c.seen < |ps| {
      assert ps[c.seen] in ps;
    }
  }

  lemma TreeMarked(t: Tree)
    requires WellFormed(t)
    ensures Marked(Render(t), LeafPos(t, 0)) && |LeafPos(t, 0)| == |Leaves(t)|
  {
    var text := Render(t);
    LeafPosSpaced(t, 0);
    assert At(text, 0, text);
    forall p: nat ensures At(text, p, LEAF_TAG) <==> p in LeafPos(t, 0) {
      if p < |text| {
        TagsExactly(text, 0, t, p);
      }
    }
  }

  lemma {:induction false} AdvanceTo(text: string, ps: seq<nat>, c: Cursor, wanted: nat)
    requires Marked(text, ps) && Between(c, ps) && c.seen <= wanted
    ensures Advance(text, c, wanted) ==
            if wanted < |ps| then Some(Cursor(ps[wanted] + |LEAF_TAG|, wanted + 1)) else None
    decreases wanted - c.seen
  {
    hide Find, At, Marked, Between;
    FindNext(text, ps, c);
    if c.seen < |ps| && c.seen < wanted {
      BetweenNext(text, ps, c);
      AdvanceTo(text, ps, Cursor(ps[c.seen] + |LEAF_TAG|, c.seen + 1), wanted);
    }
  }

  lemma BetweenNext(text: string, ps: seq<nat>, c: Cursor)
    requires Marked(text, ps) && Between(c, ps) && c.seen < |ps|
    ensures Between(Cursor(ps[c.seen] + |LEAF_TAG|, c.seen + 1), ps)
  {
    hide At;
  }

  /** Behind the tag of a leaf the next size tag ends its hash. */
  lemma ReadLeaf(text: string, p: nat, h: string)
    requires IsHashText(h) && At(text, p, LEAF_TAG + h + SIZE_TAG)
    ensures var a := p + |LEAF_TAG|;
            && a + |h| <= |text| && Find(text, SIZE_TAG, a) == Some(a + |h|)
            && text[a..a + |h|] == h
  {
    hide At, Find;
    AtConcat(text, p, LEAF_TAG + h, SIZE_TAG);
    AtConcat(text, p, LEAF_TAG, h);
    var a := p + |LEAF_TAG|;
    AtSlice(text, a, h);
    forall q | a <= q < a + |h| ensures !At(text, q, SIZE_TAG) {
      NoTagInHash(text, a, h, q);
    }
  }

  lemma AtSlice(s: string, o: nat, t: string)
    requires At(s, o, t)
    ensures o + |t| <= |s| && s[o..o + |t|] == t
  {
  }

  lemma NoTagInHash(text: string, a: nat, h: string, q: nat)
    requires IsHashText(h) && At(text, a, h) && a <= q < a + |h|
    ensures !At(text, q, SIZE_TAG)
  {
    AtIndex(text, a, h, q - a);
    hide At;
    if At(text, q, SIZE_TAG) {
      AtIndex(text, q, SIZE_TAG, 0);
    }
  }

  lemma {:induction false} LeafHashes(t: Tree)
    requires WellFormed(t)
    ensures forall k :: 0 <= k < |Leaves(t)| ==> IsHashText(Leaves(t)[k])
    decreases t, 0
  {
    match t
    case Leaf(_, _) =>
    case Node(ls, _, _) => LinkHashes(ls);
  }

  lemma {:induction false} LinkHashes(ls: seq<Tree>)
    requires WellFormedLinks(ls)
    ensures forall k :: 0 <= k < |LeavesOf(ls)| ==> IsHashText(LeavesOf(ls)[k])
    decreases ls, 1
  {
    if ls != [] {
      LeafHashes(ls[0]);
      LinkHashes(ls[1..]);
    }
  }

  /** The scan reads the wanted leaves, or fails if one of them is none. */
  ghost predicate FindsHashes(r: Option<seq<string>>, hashes: seq<string>, wanted: seq<nat>) {
    && (r.Some? <==> forall i :: 0 <= i < |wanted| ==> wanted[i] < |hashes|)
    && (r.Some? ==> |r.value| == |wanted| && forall i :: 0 <= i < |wanted| ==> r.value[i] == hashes[wanted[i]])
  }

  lemma {:induction false} ScanFrom(text: string, ps: seq<nat>, hashes: seq<string>, c: Cursor, wanted: seq<nat>)
    requires Marked(text, ps) && LeafText(text, ps, hashes) && Between(c, ps)
    requires forall k :: 0 <= k < |hashes| ==> IsHashText(hashes[k])
    requires Ascending(wanted) && (wanted != [] ==> c.seen <= wanted[0])
    ensures FindsHashes(Scan(text, c, wanted), hashes, wanted)
    decreases |wanted|
  {
    hide At, Find, Advance;
    if wanted != [] {
      var w, rest := wanted[0], wanted[1..];
      AdvanceTo(text, ps, c, w);
      if w < |ps| {
        ReadLeaf(text, ps[w], hashes[w]);
        var next := Cursor(ps[w] + LEAF_SPAN, w + 1);
        ScanFrom(text, ps, hashes, next, rest);
        ReadsOneMore(Scan(text, next, rest), hashes, wanted);
      }
    }
  }

  lemma ReadsOneMore(r: Option<seq<string>>, hashes: seq<string>, wanted: seq<nat>)
    requires wanted != [] && wanted[0] < |hashes| && FindsHashes(r, hashes, wanted[1..])
    ensures FindsHashes(Prepend([hashes[wanted[0]]], r), hashes, wanted)
  {
    assert forall i :: 1 <= i < |wanted| ==> wanted[i] == wanted[1..][i - 1];
    if forall i :: 0 <= i < |wanted[1..]| ==> wanted[1..][i] < |hashes| {
      assert forall i :: 0 <= i < |wanted| ==> wanted[i] < |hashes|;
    } else {
      var i :| 0 <= i < |wanted[1..]| && wanted[1..][i] >= |hashes|;
      assert wanted[i + 1] >= |hashes|;
    }
  }

  /** For any ascending set of block indexes the scan of a rendered tree reads the hashes of exactly
      those leaves; it reports "not found" exactly when an index is no leaf index. */
  lemma ScanReadsLeaves(t: Tree, wanted: seq<nat>)
    requires WellFormed(t) && Ascending(wanted)
    ensures FindsHashes(Scan(Render(t), Cursor(0, 0), wanted), Leaves(t), wanted)
  {
    TreeMarked(t);
    LeafHashes(t);
    assert At(Render(t), 0, Render(t));
    LeafTexts(Render(t), 0, t);
    ScanFrom(Render(t), LeafPos(t, 0), Leaves(t), Cursor(0, 0), wanted);
  }
}
