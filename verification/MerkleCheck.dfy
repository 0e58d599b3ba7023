/** validate_merkletree_json, and that it accepts what sealing stores (src/enclave/utils/EUtils.cpp). */
module MerkleCheck {
  import opened Bytes
  import opened Text
  import opened Json
  import opened JsonLayout
  import opened JsonRoundTrip
  import opened HandText
  import opened MerkleText
  import opened MerkleSeal
  import opened MerkleShape

  /** OverRead: a hash text of less than 64 characters is read past its end. */
  datatype Verdict = Success | InvalidTree | MallocFailed | OverRead

  datatype Children = Rejected(verdict: Verdict) | Hashes(bytes: seq<Byte>)

  function Validate(j: Json, sha: seq<Byte> -> Hash): Verdict
    decreases j, 0
  {
    var n := ToInt(Get(j, "links_num"));
    var links := Get(j, "links");
    if n == 0 then Success
    else if n != Size(links) then InvalidTree
    else if n < 0 then MallocFailed
    else if !links.Array? then OverRead
    else
      LookupIsField(j.fields, "links");
      match ValidateLinks(links.items, [], sha)
      case Rejected(v) => v
      case Hashes(bytes) =>
        var hash := ToText(Get(j, "hash"));
        if |hash| < 2 * HASH_LENGTH then OverRead
        else if Unhex(hash[..2 * HASH_LENGTH]) == sha(bytes) then Success
        else InvalidTree
  }

  function ValidateLinks(items: seq<Json>, bytes: seq<Byte>, sha: seq<Byte> -> Hash): Children
    decreases items, 1
  {
    if items == [] then Hashes(bytes)
    else
      var v := Validate(items[0], sha);
      var hash := ToText(Get(items[0], "hash"));
      if v == OverRead then Rejected(OverRead)
      else if v != Success then Rejected(InvalidTree)
      else if |hash| < 2 * HASH_LENGTH then Rejected(OverRead)
      else ValidateLinks(items[1..], bytes + Unhex(hash[..2 * HASH_LENGTH]), sha)
  }

  method ValidateTree(j: Json, sha: seq<Byte> -> Hash) returns (verdict: Verdict)
    ensures verdict == Validate(j, sha)
    decreases j
  {
    hide ToText, Unhex, Lookup;
    var n := ToInt(Get(j, "links_num"));
    if n == 0 {
      return Success;
    }
    var links := Get(j, "links");
    if n != Size(links) {
      return InvalidTree;
    }
    if n < 0 {
      return MallocFailed;
    }
    if !links.Array? {
      return OverRead;
    }
    LookupIsField(j.fields, "links");
    var bytes: seq<Byte> := [];
    var i: nat := 0;
    while i < |links.items|
      invariant i <= |links.items|
      invariant ValidateLinks(links.items, [], sha) == ValidateLinks(links.items[i..], bytes, sha)
    {
      assert links.items[i..][1..] == links.items[i + 1..];
      var v := ValidateTree(links.items[i], sha);
      if v != Success {
        return if v == OverRead then OverRead else InvalidTree;
      }
      var hash := ToText(Get(links.items[i], "hash"));
      if |hash| < 2 * HASH_LENGTH {
        return OverRead;
      }
      bytes := bytes + Unhex(hash[..2 * HASH_LENGTH]);
      i := i + 1;
    }
    var own := ToText(Get(j, "hash"));
    if |own| < 2 * HASH_LENGTH {
      return OverRead;
    }
    verdict := if Unhex(own[..2 * HASH_LENGTH]) == sha(bytes) then Success else InvalidTree;
  }

  // ----- The value a rendered tree is read as -----

  function Common(links: nat, hash: string, size: nat): (ms: seq<Member>)
    ensures |ms| == 3
  {
    [Tight("links_num", DInt(links))] + ([Tight("hash", DStr(hash))] + [Tight("size", DInt(size))])
  }

  function LinksMember(elems: seq<Elem>): Member {
    Member("", "links", "", " ", DArr(elems, ""), "")
  }

  function TreeDoc(t: Tree): Doc
    decreases t, 0
  {
    match t
    case Leaf(h, n) => DObj(Common(0, h, n), "")
    case Node(ls, h, n) => DObj([LinksMember(TreeElems(ls))] + Common(|ls|, h, n), "")
  }

  function TreeElems(ls: seq<Tree>): (es: seq<Elem>)
    ensures |es| == |ls|
    decreases ls, 1
  {
    if ls == [] then [] else [Elem("", TreeDoc(ls[0]), "")] + TreeElems(ls[1..])
  }

  lemma CommonText(links: nat, hash: string, size: nat)
    requires IsHashText(hash)
    ensures FlatMembers(Common(links, hash, size)) == Head(links) + Rest(hash, size)
  {
    FlatTight("links_num", DInt(links));
    FlatTight("hash", DStr(hash));
    FlatTight("size", DInt(size));
    FlatOne(Tight("size", DInt(size)));
    FlatCons(Tight("hash", DStr(hash)), [Tight("size", DInt(size))]);
    FlatCons(Tight("links_num", DInt(links)), [Tight("hash", DStr(hash))] + [Tight("size", DInt(size))]);
    HexIsPlain(hash);
    EscapePlain(hash);
    assert Flat(DStr(hash)) == "\"" + hash + "\"";
    CommonPieces(Decimal(links), hash, Decimal(size));
  }

  lemma CommonPieces(links: string, hash: string, size: string)
    ensures Pair("links_num", links) + ("," + (Pair("hash", "\"" + hash + "\"") + ("," + (Pair("size", size) + "}"))))
         == "\"links_num\":" + links + (",\"hash\":\"" + hash + "\",\"size\":" + size + "}")
  {
    var q, c, k, e := "\"", ",", "\"hash\":", "}";
    assert "\"" + "links_num" + "\":" == "\"links_num\":";
    assert "\"" + "hash" + "\":" == k;
    assert "\"" + "size" + "\":" == "\"size\":";
    assert ",\"hash\":\"" == c + k + q;
    assert "\",\"size\":" == q + c + "\"size\":";
    Pieces("\"links_num\":", links, c, k, q, hash, "\"size\":", size, e);
  }

  lemma Pieces(a: string, links: string, c: string, k: string, q: string, hash: string, z: string, size: string, e: string)
    ensures (a + links) + (c + ((k + (q + hash + q)) + (c + ((z + size) + e))))
         == a + links + ((c + k + q) + hash + (q + c + z) + size + e)
  {
  }

  lemma {:induction false} TreeDocText(t: Tree)
    requires WellFormed(t)
    ensures Flat(TreeDoc(t)) == Render(t)
    decreases t, 0
  {
    hide Flat, FlatMembers, FlatElems, FlatMember, Common, Head, Rest, RenderLinks, LinksMember, TreeElems;
    match t
    case Leaf(h, n) =>
      CommonText(0, h, n);
      FlatObject(Common(0, h, n));
      LeafText3("{", Head(0), Rest(h, n));
    case Node(ls, h, n) =>
      CommonText(|ls|, h, n);
      TreeElemsText(ls);
      var m, c := LinksMember(TreeElems(ls)), Common(|ls|, h, n);
      FlatCons(m, c);
      FlatObject([m] + c);
      LinksMemberText(TreeElems(ls));
      NodePieces(RenderLinks(ls), Head(|ls|), Rest(h, n));
  }

  lemma LeafText3(open: string, head: string, rest: string)
    ensures open + (head + rest) == open + head + rest
  {
  }

  lemma LinksMemberText(es: seq<Elem>)
    requires es != []
    ensures FlatMember(LinksMember(es)) == "\"links\": [" + FlatElems(es)
  {
    hide FlatElems;
    var x := FlatElems(es);
    assert "" + "\"" + "links" + "\"" + "" + ":" + " " == "\"links\": ";
    assert "\"links\": [" == "\"links\": " + "[";
    Associative("\"links\": ", "[", x);
    EmptyRight("\"links\": " + ("[" + x));
  }

  lemma NodePieces(links: string, head: string, rest: string)
    ensures "{" + (("\"links\": [" + (links + "]")) + ("," + (head + rest))) == LINKS_HEAD + links + "]," + head + rest
  {
    var a, b := "{", "\"links\": [";
    assert LINKS_HEAD == a + b;
    assert "]," == "]" + ",";
    NodePieces6(a, b, links, "]", ",", head, rest);
  }

  lemma NodePieces6(a: string, b: string, links: string, c: string, d: string, head: string, rest: string)
    ensures a + ((b + (links + c)) + (d + (head + rest))) == (a + b) + links + (c + d) + head + rest
  {
  }

  lemma {:induction false} TreeElemsText(ls: seq<Tree>)
    requires WellFormedLinks(ls) && ls != []
    ensures FlatElems(TreeElems(ls)) == RenderLinks(ls) + "]"
    decreases ls, 1
  {
    hide TreeDoc, Flat, Render, WellFormed;
    TreeDocText(ls[0]);
    var x := Render(ls[0]);
    EmptyLeft(x);
    EmptyRight(x);
    if |ls| > 1 {
      TreeElemsText(ls[1..]);
      assert TreeElems(ls)[1..] == TreeElems(ls[1..]);
      ElemPieces(x, ",", RenderLinks(ls[1..]), "]");
    }
  }

  /** Counts and sizes are 64-bit numbers. */
  predicate Fits(t: Tree)
    decreases t, 0
  {
    Int64(t.size) && (t.Node? ==> Int64(|t.links|) && FitsAll(t.links))
  }

  predicate FitsAll(ls: seq<Tree>)
    decreases ls, 1
  {
    ls == [] || (Fits(ls[0]) && FitsAll(ls[1..]))
  }

  lemma CommonGood(links: nat, hash: string, size: nat, ov: Overload)
    requires IsHashText(hash) && Int64(links) && Int64(size)
    ensures GoodMembers(Common(links, hash, size), ov)
  {
    hide GoodMember, Plain;
    var a, b, c := Tight("links_num", DInt(links)), Tight("hash", DStr(hash)), Tight("size", DInt(size));
    CommonMembersGood(links, hash, size, ov);
    EmptyRight([c]);
    GoodCons(c, [], ov);
    GoodCons(b, [c], ov);
    GoodCons(a, [b] + [c], ov);
  }

  lemma CommonMembersGood(links: nat, hash: string, size: nat, ov: Overload)
    requires IsHashText(hash) && Int64(links) && Int64(size)
    ensures GoodMember(Tight("links_num", DInt(links)), ov) && GoodMember(Tight("hash", DStr(hash)), ov)
    ensures GoodMember(Tight("size", DInt(size)), ov)
  {
    hide GoodMember;
    assert hash[0] != '$';
    GoodTight("links_num", DInt(links), ov);
    GoodTight("hash", DStr(hash), ov);
    GoodTight("size", DInt(size), ov);
  }

  lemma {:induction false} TreeDocGood(t: Tree, ov: Overload)
    requires WellFormed(t) && Fits(t)
    ensures Good(TreeDoc(t), ov)
    decreases t, 0
  {
    match t
    case Leaf(h, n) =>
      CommonGood(0, h, n, ov);
    case Node(ls, h, n) =>
      CommonGood(|ls|, h, n, ov);
      TreeElemsGood(ls, ov);
      LinksMemberGood(TreeElems(ls), ov);
      GoodCons(LinksMember(TreeElems(ls)), Common(|ls|, h, n), ov);
  }

  lemma LinksMemberGood(es: seq<Elem>, ov: Overload)
    requires GoodElems(es, ov)
    ensures GoodMember(LinksMember(es), ov)
  {
    hide GoodElems;
    assert Plain("links");
  }

  lemma {:induction false} TreeElemsGood(ls: seq<Tree>, ov: Overload)
    requires WellFormedLinks(ls) && FitsAll(ls)
    ensures GoodElems(TreeElems(ls), ov)
    decreases ls, 1
  {
    if ls != [] {
      TreeDocGood(ls[0], ov);
      TreeElemsGood(ls[1..], ov);
      hide TreeDoc, Good, WellFormed;
      assert TreeElems(ls)[1..] == TreeElems(ls[1..]);
    }
  }

  /** What the reader finds in a value j for the tree t. */
  ghost predicate Represents(j: Json, t: Tree)
    decreases t, 0
  {
    && j.Object? && Lookup(j.fields, "hash") == String(t.hash)
    && (t.Leaf? ==> Lookup(j.fields, "links_num") == Integral(0))
    && (t.Node? ==>
          && Lookup(j.fields, "links_num") == Integral(|t.links|)
          && Lookup(j.fields, "links").Array?
          && RepresentsAll(Lookup(j.fields, "links").items, t.links))
  }

  ghost predicate RepresentsAll(items: seq<Json>, ls: seq<Tree>)
    decreases ls, 1
  {
    |items| == |ls| && (ls == [] || (Represents(items[0], ls[0]) && RepresentsAll(items[1..], ls[1..])))
  }

  lemma CommonLookup(acc: seq<Field>, links: nat, hash: string, size: nat)
    ensures var fs := PutAll(acc, MemberValues(Common(links, hash, size)));
            && Lookup(fs, "links_num") == Integral(links) && Lookup(fs, "hash") == String(hash)
            && Lookup(fs, "links") == Lookup(acc, "links")
  {
    var a, b, c := Field("links_num", Integral(links)), Field("hash", String(hash)), Field("size", Integral(size));
    var m1, m2, m3 := Tight("links_num", DInt(links)), Tight("hash", DStr(hash)), Tight("size", DInt(size));
    var fs := MemberValues(Common(links, hash, size));
    ValuesCons(m1, [m2] + [m3]);
    ValuesCons(m2, [m3]);
    assert [m3] + [] == [m3];
    ValuesCons(m3, []);
    assert fs == [a, b, c];
    CommonLast(a, b, c, "links_num", Lookup(acc, "links_num"));
    CommonLast(a, b, c, "hash", Lookup(acc, "hash"));
    CommonLast(a, b, c, "links", Lookup(acc, "links"));
    LookupPutAll(acc, fs, "links_num");
    LookupPutAll(acc, fs, "hash");
    LookupPutAll(acc, fs, "links");
  }

  lemma CommonLast(a: Field, b: Field, c: Field, key: string, otherwise: Json)
    ensures LastOf([a, b, c], key, otherwise)
         == if c.key == key then c.value else if b.key == key then b.value else if a.key == key then a.value else otherwise
  {
    assert [a, b, c][1..] == [b, c] && [b, c][1..] == [c] && [c][1..] == [];
    var x := if a.key == key then a.value else otherwise;
    var y := if b.key == key then b.value else x;
    assert LastOf([a, b, c], key, otherwise) == LastOf([b, c], key, x) == LastOf([c], key, y);
    assert LastOf([c], key, y) == LastOf([], key, if c.key == key then c.value else y);
  }

  lemma {:induction false} TreeDocValue(t: Tree)
    ensures Represents(Value(TreeDoc(t)), t)
    decreases t, 0
  {
    match t
    case Leaf(h, n) =>
      CommonLookup([], 0, h, n);
    case Node(ls, h, n) =>
      TreeElemsValue(ls);
      var m := LinksMember(TreeElems(ls));
      var f := Field("links", Array(ElemValues(TreeElems(ls))));
      ValuesCons(m, Common(|ls|, h, n));
      CommonLookup([f], |ls|, h, n);
      assert Put([], f.key, f.value) == [f];
      PutAllCons([], f, MemberValues(Common(|ls|, h, n)));
  }

  lemma PutAllCons(acc: seq<Field>, f: Field, fs: seq<Field>)
    ensures PutAll(acc, [f] + fs) == PutAll(Put(acc, f.key, f.value), fs)
  {
    assert ([f] + fs)[1..] == fs;
  }

  lemma {:induction false} TreeElemsValue(ls: seq<Tree>)
    ensures RepresentsAll(ElemValues(TreeElems(ls)), ls)
    decreases ls, 1
  {
    if ls != [] {
      TreeDocValue(ls[0]);
      TreeElemsValue(ls[1..]);
      hide TreeDoc, Value, Represents;
      assert TreeElems(ls)[1..] == TreeElems(ls[1..]);
      assert ElemValues(TreeElems(ls))[1..] == ElemValues(TreeElems(ls[1..]));
    }
  }

  /** The stored text is read back as the stored tree, whatever follows it in memory. */
  lemma ReadTree(t: Tree, rest: string, ov: Overload)
    requires WellFormed(t) && Fits(t)
    ensures var r := ParseNext(Render(t) + rest, 0, ov);
            r.Parsed? && r.offset == |Render(t)| && Represents(r.value, t)
  {
    TreeDocText(t);
    TreeDocGood(t, ov);
    TreeDocValue(t);
    hide Represents, Value, Render, TreeDoc, Good, Flat;
    assert !TreeDoc(t).DInt? by { TreeDocIsObject(t); }
    LoadFlat(TreeDoc(t), rest, ov);
  }

  lemma TreeDocIsObject(t: Tree)
    ensures TreeDoc(t).DObj?
  {
  }

  // ----- The check accepts exactly the trees whose hashes go up -----

  lemma {:induction false} ValidateRead(j: Json, t: Tree, sha: seq<Byte> -> Hash)
    requires Represents(j, t) && WellFormed(t)
    ensures Validate(j, sha) == if HashesUp(t, sha) then Success else InvalidTree
    decreases t, 0
  {
    if t.Node? {
      var items := Lookup(j.fields, "links").items;
      ValidateLinksRead(items, t.links, [], sha);
      HashTextRead(t.hash);
      EmptyLeft(HashBytes(t.links));
      RepresentsLength(items, t.links);
      SameHash(t.hash, sha(HashBytes(t.links)));
    }
  }

  lemma RepresentsLength(items: seq<Json>, ls: seq<Tree>)
    requires RepresentsAll(items, ls)
    ensures |items| == |ls|
  {
  }

  lemma HashTextRead(h: string)
    requires IsHashText(h)
    ensures ToText(String(h)) == h && h[..2 * HASH_LENGTH] == h
  {
    HexIsPlain(h);
    EscapePlain(h);
  }

  lemma SameHash(h: string, b: Hash)
    requires IsHashText(h)
    ensures Unhex(h) == b <==> h == Hex(b)
  {
    HexUnhex(h);
    UnhexHex(b);
  }

  lemma {:induction false} ValidateLinksRead(items: seq<Json>, ls: seq<Tree>, bytes: seq<Byte>, sha: seq<Byte> -> Hash)
    requires RepresentsAll(items, ls) && WellFormedLinks(ls)
    ensures ValidateLinks(items, bytes, sha)
         == if HashesUpLinks(ls, sha) then Hashes(bytes + HashBytes(ls)) else Rejected(InvalidTree)
    decreases ls, 1
  {
    if ls == [] {
      EmptyRight(bytes);
    } else {
      ValidateRead(items[0], ls[0], sha);
      HashTextRead(ls[0].hash);
      ValidateLinksRead(items[1..], ls[1..], bytes + Unhex(ls[0].hash), sha);
      Associative(bytes, Unhex(ls[0].hash), HashBytes(ls[1..]));
    }
  }

  /** Sealing leaves a text that reads back as a valid tree with the root hash the caller is given. */
  lemma SealedPasses(t: Tree, st: Progress, c: Crypto, rest: string, ov: Overload)
    requires Shaped(t) && SealNode(t, st, c).Sealed? && st.text == ""
    requires Fits(SealNode(t, st, c).stored)
    ensures var o := SealNode(t, st, c);
            var r := ParseNext(o.now.text + rest, 0, ov);
            && r.Parsed? && r.offset == |o.now.text|
            && Validate(r.value, c.sha) == Success
            && ToText(Get(r.value, "hash")) == o.tree.hash
  {
    SealNodeWell(t, st, c);
    var o := SealNode(t, st, c);
    EmptyLeft(Render(o.stored));
    ReadTree(o.stored, rest, ov);
    var r := ParseNext(o.now.text + rest, 0, ov);
    ValidateRead(r.value, o.stored, c.sha);
    HashTextRead(o.stored.hash);
  }

  // ----- What the other verdicts mean -----

  /** Only a negative count beside links without a size asks for negative memory. */
  lemma MallocFailsWhen(j: Json, sha: seq<Byte> -> Hash)
    ensures Validate(j, sha) == MallocFailed <==> ToInt(Get(j, "links_num")) == -1 == Size(Get(j, "links"))
  {
    hide ToText, Unhex, Lookup;
    var n, links := ToInt(Get(j, "links_num")), Get(j, "links");
    if n != 0 && n == Size(links) && n > 0 && links.Array? {
      LookupIsField(j.fields, "links");
      NoMallocInside(links.items, [], sha);
    }
  }

  lemma {:induction false} NoMallocInside(items: seq<Json>, bytes: seq<Byte>, sha: seq<Byte> -> Hash)
    ensures ValidateLinks(items, bytes, sha) != Rejected(MallocFailed) && ValidateLinks(items, bytes, sha) != Rejected(Success)
    decreases |items|
  {
    hide Validate, ToText, Unhex, Lookup;
    if items != [] && |ToText(Get(items[0], "hash"))| >= 2 * HASH_LENGTH {
      NoMallocInside(items[1..], bytes + Unhex(ToText(Get(items[0], "hash"))[..2 * HASH_LENGTH]), sha);
    }
  }

  /** Every inner node's links are an array, and the node and its links have hash texts of 64 characters or more. */
  predicate Legible(j: Json)
    decreases j, 0
  {
    var links := Get(j, "links");
    ToInt(Get(j, "links_num")) > 0 && Size(links) == ToInt(Get(j, "links_num")) ==>
      && links.Array? && |ToText(Get(j, "hash"))| >= 64
      && (LookupIsField(j.fields, "links"); LegibleAll(links.items))
  }

  predicate LegibleAll(items: seq<Json>)
    decreases items, 1
  {
    items == [] || (Legible(items[0]) && |ToText(Get(items[0], "hash"))| >= 64 && LegibleAll(items[1..]))
  }

  /** On a legible tree nothing is read past its end, and the verdict is success or an invalid tree. */
  lemma {:induction false} LegibleIsSafe(j: Json, sha: seq<Byte> -> Hash)
    requires Legible(j)
    ensures Validate(j, sha) != OverRead
    decreases j, 0
  {
    hide ToText, Unhex, Lookup;
    var n, links := ToInt(Get(j, "links_num")), Get(j, "links");
    if n > 0 && n == Size(links) {
      LookupIsField(j.fields, "links");
      LinksAreSafe(links.items, [], sha);
    }
  }

  lemma {:induction false} LinksAreSafe(items: seq<Json>, bytes: seq<Byte>, sha: seq<Byte> -> Hash)
    requires LegibleAll(items)
    ensures ValidateLinks(items, bytes, sha) != Rejected(OverRead)
    decreases items, 1
  {
    hide ToText, Unhex, Lookup;
    if items != [] {
      LegibleIsSafe(items[0], sha);
      LinksAreSafe(items[1..], bytes + Unhex(ToText(Get(items[0], "hash"))[..2 * HASH_LENGTH]), sha);
    }
  }
}
