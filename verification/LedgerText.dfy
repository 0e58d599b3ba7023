/** The texts of the added and the deleted files are read back as the reported files, in order. */
module LedgerText {
  import opened Bytes
  import opened Text
  import opened Json
  import opened JsonLayout
  import opened JsonRoundTrip
  import opened HandText
  import opened FileModel
  import opened Ledger

  function ReportedMembers(f: FileEntry): seq<Member> {
    [Tight("hash", DStr(Hex(f.oldHash)))] + [Tight("size", DInt(f.oldSize))]
  }

  function ReportedElems(items: seq<Item>): (es: seq<Elem>)
    ensures |es| == |items|
  {
    if items == [] then [] else [Elem("", DObj(ReportedMembers(items[0].file), ""), "")] + ReportedElems(items[1..])
  }

  /** The value of one list: an object with old hash and old size for each file. */
  function ReportedValues(items: seq<Item>): seq<Json> {
    if items == [] then []
    else [Object([Field("hash", String(Hex(items[0].file.oldHash))), Field("size", Integral(items[0].file.oldSize))])]
         + ReportedValues(items[1..])
  }

  lemma ReportedTextFlat(f: FileEntry)
    ensures Flat(DObj(ReportedMembers(f), "")) == ReportedText(f)
  {
    var h, n := Hex(f.oldHash), Decimal(f.oldSize);
    var a, b := Tight("hash", DStr(h)), Tight("size", DInt(f.oldSize));
    FlatTight("hash", DStr(h));
    FlatTight("size", DInt(f.oldSize));
    FlatOne(b);
    FlatCons(a, [b]);
    FlatObject([a] + [b]);
    HexIsPlain(h);
    EscapePlain(h);
    assert Flat(DStr(h)) == "\"" + h + "\"";
    FilePieces(h, n);
  }

  lemma FilePieces(h: string, n: string)
    ensures "{" + (Pair("hash", "\"" + h + "\"") + ("," + (Pair("size", n) + "}")))
         == "{\"hash\":\"" + h + "\",\"size\":" + n + "}"
  {
    assert "\"" + "hash" + "\":" == "\"hash\":";
    assert "\"" + "size" + "\":" == "\"size\":";
    assert "{\"hash\":\"" == "{" + ("\"hash\":" + "\"");
    assert "\",\"size\":" == "\"" + ("," + "\"size\":");
    Pieces("{", "\"hash\":", "\"", h, ",", "\"size\":", n, "}");
  }

  lemma Pieces(a: string, k: string, q: string, h: string, c: string, z: string, n: string, e: string)
    ensures a + ((k + (q + h + q)) + (c + ((z + n) + e))) == (a + (k + q)) + h + (q + (c + z)) + n + e
  {
  }

  /** The elements with commas between them. */
  function Joined(items: seq<Item>): string
    requires items != []
  {
    if |items| == 1 then ReportedText(items[0].file) else ReportedText(items[0].file) + ("," + Joined(items[1..]))
  }

  lemma {:induction false} JoinedSnoc(items: seq<Item>, it: Item)
    requires items != []
    ensures Joined(items + [it]) == Joined(items) + ("," + ReportedText(it.file))
  {
    hide ReportedText;
    assert (items + [it])[1..] == items[1..] + [it];
    if |items| == 1 {
      assert items[1..] + [it] == [it];
    } else {
      JoinedSnoc(items[1..], it);
      Regroup(ReportedText(items[0].file), ",", Joined(items[1..]), ReportedText(it.file));
    }
  }

  lemma Regroup(a: string, c: string, b: string, d: string)
    ensures a + (c + (b + (c + d))) == (a + (c + b)) + (c + d)
  {
  }

  lemma {:induction false} OpenListJoined(items: seq<Item>)
    requires items != []
    ensures OpenList(items) == "[" + Joined(items)
  {
    hide ReportedText;
    var n := |items| - 1;
    if n > 0 {
      OpenListJoined(items[..n]);
      JoinedSnoc(items[..n], items[n]);
      assert items == items[..n] + [items[n]];
      OpenPieces("[", Joined(items[..n]), ",", ReportedText(items[n].file));
    }
  }

  lemma OpenPieces(a: string, b: string, c: string, d: string)
    ensures (a + b) + c + d == a + (b + (c + d))
  {
  }

  lemma {:induction false} ElemsJoined(items: seq<Item>)
    requires items != []
    ensures FlatElems(ReportedElems(items)) == Joined(items) + "]"
  {
    hide ReportedText, Flat, ReportedMembers;
    ReportedTextFlat(items[0].file);
    var es, x := ReportedElems(items), ReportedText(items[0].file);
    EmptyLeft(x);
    EmptyRight(x);
    if |items| > 1 {
      ElemsJoined(items[1..]);
      assert es[1..] == ReportedElems(items[1..]);
      ElemPieces(x, ",", Joined(items[1..]), "]");
    }
  }

  lemma ListFlat(items: seq<Item>)
    ensures Flat(DArr(ReportedElems(items), "")) == OpenList(items) + "]"
  {
    hide ReportedText, ReportedMembers, Joined;
    if items == [] {
      assert ReportedElems(items) == [] && OpenList(items) == "[";
      assert "[" + ("" + "]") == "[" + "]";
    } else {
      ElemsJoined(items);
      OpenListJoined(items);
      Associative("[", Joined(items), "]");
    }
  }

  predicate SizesFit(items: seq<Item>) {
    forall i :: 0 <= i < |items| ==> Int64(items[i].file.oldSize)
  }

  lemma MembersGood(f: FileEntry, ov: Overload)
    requires Int64(f.oldSize)
    ensures Good(DObj(ReportedMembers(f), ""), ov)
    ensures Value(DObj(ReportedMembers(f), ""))
         == Object([Field("hash", String(Hex(f.oldHash))), Field("size", Integral(f.oldSize))])
  {
    var h := Hex(f.oldHash);
    var a, b := Tight("hash", DStr(h)), Tight("size", DInt(f.oldSize));
    var x, y := Field("hash", String(h)), Field("size", Integral(f.oldSize));
    MemberGood(f, ov);
    EmptyRight([b]);
    GoodCons(b, [], ov);
    GoodCons(a, [b], ov);
    ValuesCons(b, []);
    ValuesCons(a, [b]);
    assert MemberValues([a] + [b]) == [x] + [y];
    assert [x, y] == [] + ([x] + [y]);
    assert StrLess("hash", "size");
    assert KeysAscend([x, y]);
    PutAllAscending([], [x] + [y]);
  }

  lemma MemberGood(f: FileEntry, ov: Overload)
    requires Int64(f.oldSize)
    ensures GoodMember(Tight("hash", DStr(Hex(f.oldHash))), ov) && GoodMember(Tight("size", DInt(f.oldSize)), ov)
  {
    hide GoodMember;
    assert Hex(f.oldHash)[0] != '$';
    assert "hash"[0] == 'h' && "size"[0] == 's';
    GoodTight("hash", DStr(Hex(f.oldHash)), ov);
    GoodTight("size", DInt(f.oldSize), ov);
  }

  lemma {:induction false} ListGood(items: seq<Item>, ov: Overload)
    requires SizesFit(items)
    ensures GoodElems(ReportedElems(items), ov) && ElemValues(ReportedElems(items)) == ReportedValues(items)
  {
    hide ReportedMembers, Good, Value;
    if items != [] {
      MembersGood(items[0].file, ov);
      ListGood(items[1..], ov);
      assert ReportedElems(items)[1..] == ReportedElems(items[1..]);
    }
  }

  /** Both lists of a report are JSON arrays of exactly the reported files. */
  lemma ListReadsBack(items: seq<Item>, rest: string, ov: Overload)
    requires SizesFit(items)
    ensures var text := OpenList(items) + "]";
            ParseNext(text + rest, 0, ov) == Parsed(Array(ReportedValues(items)), |text|)
  {
    hide ReportedElems, FlatElems, OpenList, GoodElems, ElemValues, ParseNext;
    ListFlat(items);
    ListGood(items, ov);
    LoadFlat(DArr(ReportedElems(items), ""), rest, ov);
  }
}
