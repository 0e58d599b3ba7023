/** The texts of the space lists and the file list that metadata and upgrade data are made of
    (src/enclave/workload/Workload.cpp, src/enclave/identity/Identity.cpp). */
module StateText {
  import opened Bytes
  import opened Text
  import opened Json
  import opened JsonLayout
  import opened JsonRoundTrip
  import opened HandText
  import opened FileModel
  import SrdDecrease

  /** An entry of srd_path2hashs_m, which is listed in map order. */
  datatype Listed<+H> = Listed(path: string, hashes: seq<H>)

  type PathHashes = Listed<Hash>

  /** A list read from a text, whose hashes may have any length. */
  type RawHashes = Listed<seq<Byte>>

  ghost predicate Ordered(srd: seq<PathHashes>) {
    forall i, j :: 0 <= i < j < |srd| ==> StrLess(srd[i].path, srd[j].path)
  }

  /** Paths that a key can hold: no character that needs an escape, no hash tag in front. */
  predicate PlainPaths(srd: seq<PathHashes>) {
    forall i :: 0 <= i < |srd| ==> Plain(srd[i].path) && !(HASH_TAG <= srd[i].path)
  }

  // ----- The space lists -----

  function QuotedHash(h: Hash): (s: string)
    ensures |s| == 2 * HASH_LENGTH + 2
  {
    "\"" + Hex(h) + "\""
  }

  function HashList(hs: seq<Hash>): (s: string)
    ensures |s| == if hs == [] then 0 else 67 * |hs| - 1
  {
    if hs == [] then "" else if |hs| == 1 then QuotedHash(hs[0]) else QuotedHash(hs[0]) + ("," + HashList(hs[1..]))
  }

  function PathText(p: PathHashes): (s: string)
    ensures |s| == |p.path| + 5 + |HashList(p.hashes)|
  {
    "\"" + p.path + "\":[" + HashList(p.hashes) + "]"
  }

  function SrdBody(srd: seq<PathHashes>): string {
    if srd == [] then "" else if |srd| == 1 then PathText(srd[0]) else PathText(srd[0]) + ("," + SrdBody(srd[1..]))
  }

  function SrdText(srd: seq<PathHashes>): string {
    "{" + SrdBody(srd) + "}"
  }

  function HashElems(hs: seq<Hash>): (es: seq<Elem>)
    ensures |es| == |hs|
  {
    if hs == [] then [] else [Elem("", DStr(Hex(hs[0])), "")] + HashElems(hs[1..])
  }

  function PathMember(p: PathHashes): Member {
    Tight(p.path, DArr(HashElems(p.hashes), ""))
  }

  function PathMembers(srd: seq<PathHashes>): (ms: seq<Member>)
    ensures |ms| == |srd|
  {
    if srd == [] then [] else [PathMember(srd[0])] + PathMembers(srd[1..])
  }

  function SrdDoc(srd: seq<PathHashes>): Doc {
    DObj(PathMembers(srd), "")
  }

  lemma HexDoc(h: Hash)
    ensures Flat(DStr(Hex(h))) == QuotedHash(h) && !(HASH_TAG <= Hex(h))
  {
    HexIsPlain(Hex(h));
    EscapePlain(Hex(h));
    assert Hex(h)[0] != '$';
  }

  lemma {:induction false} HashElemsText(hs: seq<Hash>)
    requires hs != []
    ensures FlatElems(HashElems(hs)) == HashList(hs) + "]"
  {
    hide Flat, QuotedHash;
    HexDoc(hs[0]);
    var es, x := HashElems(hs), QuotedHash(hs[0]);
    EmptyLeft(x);
    EmptyRight(x);
    if |hs| > 1 {
      HashElemsText(hs[1..]);
      assert es[1..] == HashElems(hs[1..]);
      ElemPieces(x, ",", HashList(hs[1..]), "]");
    }
  }

  lemma HashArrayText(hs: seq<Hash>)
    ensures Flat(DArr(HashElems(hs), "")) == "[" + HashList(hs) + "]"
  {
    hide FlatElems, QuotedHash;
    if hs == [] {
      assert HashElems(hs) == [] && HashList(hs) == "";
      Empties("[", "]");
    } else {
      HashElemsText(hs);
      Associative("[", HashList(hs), "]");
    }
  }

  lemma Empties(a: string, b: string)
    ensures a + ("" + b) == a + "" + b
  {
  }

  lemma PathMemberText(p: PathHashes)
    ensures FlatMember(PathMember(p)) == PathText(p)
  {
    hide Flat, HashElems, HashList;
    FlatTight(p.path, DArr(HashElems(p.hashes), ""));
    HashArrayText(p.hashes);
    assert "\":[" == "\":" + "[";
    PathPieces("\"", p.path, "\":", "[", HashList(p.hashes), "]");
  }

  lemma PathPieces(q: string, path: string, c: string, o: string, list: string, e: string)
    ensures (q + path + c) + (o + list + e) == q + path + (c + o) + list + e
  {
  }

  lemma {:induction false} PathMembersText(srd: seq<PathHashes>)
    requires srd != []
    ensures FlatMembers(PathMembers(srd)) == SrdBody(srd) + "}"
  {
    hide FlatMember, PathText, PathMember;
    PathMemberText(srd[0]);
    var ms := PathMembers(srd);
    if |srd| > 1 {
      PathMembersText(srd[1..]);
      assert ms[1..] == PathMembers(srd[1..]);
      ElemPieces(PathText(srd[0]), ",", SrdBody(srd[1..]), "}");
    }
  }

  lemma SrdDocText(srd: seq<PathHashes>)
    ensures Flat(SrdDoc(srd)) == SrdText(srd)
  {
    hide FlatMembers, PathMember, PathText;
    if srd == [] {
      assert PathMembers(srd) == [] && SrdBody(srd) == "";
      Empties("{", "}");
    } else {
      PathMembersText(srd);
      Associative("{", SrdBody(srd), "}");
    }
  }

  function HashItems(hs: seq<Hash>): (r: seq<Json>)
    ensures |r| == |hs|
  {
    if hs == [] then [] else [String(Hex(hs[0]))] + HashItems(hs[1..])
  }

  function SrdFields(srd: seq<PathHashes>): (fs: seq<Field>)
    ensures |fs| == |srd|
    ensures forall i :: 0 <= i < |srd| ==> fs[i].key == srd[i].path
  {
    if srd == [] then [] else [Field(srd[0].path, Array(HashItems(srd[0].hashes)))] + SrdFields(srd[1..])
  }

  lemma {:induction false} HashElemsGood(hs: seq<Hash>, ov: Overload)
    ensures GoodElems(HashElems(hs), ov) && ElemValues(HashElems(hs)) == HashItems(hs)
  {
    if hs != [] {
      HexDoc(hs[0]);
      HashElemsGood(hs[1..], ov);
      hide Hex;
      assert HashElems(hs)[1..] == HashElems(hs[1..]);
    }
  }

  lemma {:induction false} PathMembersGood(srd: seq<PathHashes>, ov: Overload)
    requires PlainPaths(srd)
    ensures GoodMembers(PathMembers(srd), ov) && MemberValues(PathMembers(srd)) == SrdFields(srd)
  {
    hide HashElems, ElemValues, GoodElems, HashItems, Plain;
    if srd != [] {
      HashElemsGood(srd[0].hashes, ov);
      PlainLasts(srd[0].path);
      assert GoodMember(PathMember(srd[0]), ov);
      PathMembersGood(srd[1..], ov);
      assert PathMembers(srd)[1..] == PathMembers(srd[1..]);
    }
  }

  lemma SrdDocGood(srd: seq<PathHashes>, ov: Overload)
    requires PlainPaths(srd) && Ordered(srd)
    ensures Good(SrdDoc(srd), ov) && Value(SrdDoc(srd)) == Object(SrdFields(srd))
  {
    hide PathMembers, MemberValues, GoodMembers, SrdFields, PutAll, StrLess;
    PathMembersGood(srd, ov);
    EmptyLeft(SrdFields(srd));
    assert KeysAscend(SrdFields(srd));
    PutAllAscending([], SrdFields(srd));
  }

  // ----- Restoring the space lists -----

  /** The hashes of one path, of whatever length; None where a text is empty or odd. */
  function RestoreHashes(items: seq<Json>): Option<seq<seq<Byte>>> {
    if items == [] then Some([])
    else
      var hex := ToText(items[0]);
      if |hex| % 2 != 0 || |hex| == 0 then None
      else match RestoreHashes(items[1..])
           case None => None
           case Some(hs) => Some([Unhex(hex)] + hs)
  }

  /** A value that is no array but claims a size yields empty texts, which are refused. */
  function ItemsOf(j: Json): Option<seq<Json>> {
    if j.Array? then Some(j.items) else if Size(j) > 0 then None else Some([])
  }

  /** restore_srd: a path without hashes does not come back. */
  function RestoreSrd(fs: seq<Field>): Option<seq<RawHashes>> {
    if fs == [] then Some([])
    else
      match ItemsOf(fs[0].value)
      case None => None
      case Some(items) =>
        match RestoreHashes(items)
        case None => None
        case Some(hs) =>
          match RestoreSrd(fs[1..])
          case None => None
          case Some(rest) => Some(if hs == [] then rest else [Listed(fs[0].key, hs)] + rest)
  }

  method RestoreHashList(items: seq<Json>) returns (hs: Option<seq<seq<Byte>>>)
    ensures hs == RestoreHashes(items)
  {
    var done: seq<seq<Byte>> := [];
    var i: nat := 0;
    PrefixNone(RestoreHashes(items));
    while i < |items|
      invariant i <= |items|
      invariant RestoreHashes(items) == Prefixed(done, RestoreHashes(items[i..]))
    {
      hide ToText, Unhex;
      assert items[i..][1..] == items[i + 1..] && items[i..][0] == items[i];
      var hex := ToText(items[i]);
      if |hex| % 2 != 0 || |hex| == 0 {
        return None;
      }
      var h := Unhex(hex);
      PrefixMore(done, h, RestoreHashes(items[i + 1..]));
      done := done + [h];
      i := i + 1;
    }
    EmptyRight(done);
    hs := Some(done);
  }

  function Prefixed<T>(done: seq<T>, rest: Option<seq<T>>): Option<seq<T>> {
    match rest case None => None case Some(r) => Some(done + r)
  }

  lemma PrefixNone<T>(rest: Option<seq<T>>)
    ensures Prefixed([], rest) == rest
  {
    if rest.Some? {
      EmptyLeft(rest.value);
    }
  }

  lemma PrefixMore<T>(done: seq<T>, x: T, rest: Option<seq<T>>)
    ensures Prefixed(done + [x], rest) == Prefixed(done, match rest case None => None case Some(r) => Some([x] + r))
  {
    if rest.Some? {
      Associative(done, [x], rest.value);
    }
  }

  function NonEmpty(srd: seq<PathHashes>): seq<PathHashes> {
    if srd == [] then [] else if srd[0].hashes == [] then NonEmpty(srd[1..]) else [srd[0]] + NonEmpty(srd[1..])
  }

  lemma {:induction false} RestoreHashItems(hs: seq<Hash>)
    ensures RestoreHashes(HashItems(hs)) == Some(hs)
  {
    if hs != [] {
      RestoreHashItems(hs[1..]);
      HexIsPlain(Hex(hs[0]));
      EscapePlain(Hex(hs[0]));
      UnhexHex(hs[0]);
      assert hs == [hs[0]] + hs[1..];
    }
  }

  /** The lists come back, without the empty ones. */
  lemma {:induction false} RestoreSrdFields(srd: seq<PathHashes>)
    ensures RestoreSrd(SrdFields(srd)) == Some(NonEmpty(srd))
  {
    hide RestoreHashes, HashItems;
    if srd != [] {
      RestoreHashItems(srd[0].hashes);
      RestoreSrdFields(srd[1..]);
      assert SrdFields(srd)[1..] == SrdFields(srd[1..]);
    }
  }

  /** A text that yields no bytes. */
  predicate NoBytes(j: Json) {
    |ToText(j)| % 2 != 0 || ToText(j) == ""
  }

  lemma {:induction false} RestoreHashesIs(items: seq<Json>)
    ensures var r := RestoreHashes(items);
            && (r.None? <==> exists i :: 0 <= i < |items| && NoBytes(items[i]))
            && (r.Some? ==> |r.value| == |items| && forall i :: 0 <= i < |items| ==> |ToText(items[i])| % 2 == 0 && r.value[i] == Unhex(ToText(items[i])))
  {
    hide ToText, Unhex;
    if items != [] {
      RestoreHashesIs(items[1..]);
      if i :| 0 <= i < |items| - 1 && NoBytes(items[1..][i]) {
        assert NoBytes(items[i + 1]);
      }
      assert NoBytes(items[0]) ==> RestoreHashes(items).None?;
      forall i | 0 < i < |items| ensures items[i] == items[1..][i - 1] {
      }
    }
  }

  /** What makes a restore fail: a hash without bytes, or a value that is no array and still has a size. */
  ghost predicate BadList(j: Json) {
    if j.Array? then exists i :: 0 <= i < |j.items| && NoBytes(j.items[i]) else Size(j) > 0
  }

  ghost predicate IsList(l: RawHashes, f: Field) {
    && f.value.Array? && l.path == f.key && |l.hashes| == |f.value.items|
    && forall i :: 0 <= i < |l.hashes| ==> |ToText(f.value.items[i])| % 2 == 0 && l.hashes[i] == Unhex(ToText(f.value.items[i]))
  }

  predicate Listing(f: Field) {
    f.value.Array? && f.value.items != []
  }

  ghost predicate Stand(srd: seq<RawHashes>, fs: seq<Field>, at: seq<nat>) {
    |at| == |srd| && forall k :: 0 <= k < |at| ==> at[k] < |fs| && IsList(srd[k], fs[at[k]])
  }

  ghost predicate Rising(at: seq<nat>) {
    forall j, k :: 0 <= j < k < |at| ==> at[j] < at[k]
  }

  ghost predicate AllOf(fs: seq<Field>, at: seq<nat>) {
    forall i: nat :: i in at <==> i < |fs| && Listing(fs[i])
  }

  /** The lists stand for the fields at the ascending positions given, which are those of all arrays with an item. */
  ghost predicate ListsAt(srd: seq<RawHashes>, fs: seq<Field>, at: seq<nat>) {
    Stand(srd, fs, at) && Rising(at) && AllOf(fs, at)
  }

  /** A restore fails exactly when some list is bad; else it has, in order, the bytes of every list with an item. */
  lemma {:induction false} RestoreSrdIs(fs: seq<Field>) returns (at: seq<nat>)
    ensures RestoreSrd(fs).None? <==> exists i :: 0 <= i < |fs| && BadList(fs[i].value)
    ensures RestoreSrd(fs).Some? ==> ListsAt(RestoreSrd(fs).value, fs, at)
  {
    hide BadList, IsList, RestoreHashes, ListsAt, ItemsOf;
    at := [];
    if fs == [] {
      NoListsAt();
    } else {
      var later := RestoreSrdIs(fs[1..]);
      OneList(fs[0]);
      SomeBad(fs);
      if RestoreSrd(fs).Some? {
        at := MoreLists(RestoreSrd(fs[1..]).value, fs, later, RestoreHashes(ItemsOf(fs[0].value).value).value);
      }
    }
  }

  lemma NoListsAt()
    ensures ListsAt([], [], [])
  {
  }

  lemma SomeBad(fs: seq<Field>)
    requires fs != []
    ensures (exists i :: 0 <= i < |fs| && BadList(fs[i].value)) <==>
            BadList(fs[0].value) || exists i :: 0 <= i < |fs[1..]| && BadList(fs[1..][i].value)
  {
    hide BadList;
    var rest := fs[1..];
    if i :| 0 <= i < |fs| && BadList(fs[i].value) {
      if i > 0 {
        assert rest[i - 1] == fs[i];
      }
    }
    if i :| 0 <= i < |rest| && BadList(rest[i].value) {
      assert fs[i + 1] == rest[i];
    }
  }

  function Moved(later: seq<nat>): (at: seq<nat>)
    ensures |at| == |later| && forall k :: 0 <= k < |later| ==> at[k] == later[k] + 1
  {
    seq(|later|, k requires 0 <= k < |later| => later[k] + 1)
  }

  lemma MoreLists(rest: seq<RawHashes>, fs: seq<Field>, later: seq<nat>, hs: seq<seq<Byte>>) returns (at: seq<nat>)
    requires fs != [] && ListsAt(rest, fs[1..], later)
    requires hs == [] <==> !Listing(fs[0])
    requires hs != [] ==> IsList(Listed(fs[0].key, hs), fs[0])
    ensures ListsAt(if hs == [] then rest else [Listed(fs[0].key, hs)] + rest, fs, at)
  {
    hide IsList, Listing, Stand, Rising, AllOf, Moved;
    at := if hs == [] then Moved(later) else [0] + Moved(later);
    MovedStand(rest, fs, later);
    MovedRises(later);
    MovedAll(fs, later);
    if hs != [] {
      FirstStands(Listed(fs[0].key, hs), rest, fs, Moved(later));
    }
  }

  lemma MovedStand(rest: seq<RawHashes>, fs: seq<Field>, later: seq<nat>)
    requires fs != [] && Stand(rest, fs[1..], later)
    ensures Stand(rest, fs, Moved(later))
  {
    hide IsList;
    forall k | 0 <= k < |later| ensures Moved(later)[k] < |fs| && IsList(rest[k], fs[Moved(later)[k]]) {
      assert fs[Moved(later)[k]] == fs[1..][later[k]];
    }
  }

  lemma FirstStands(l: RawHashes, rest: seq<RawHashes>, fs: seq<Field>, at: seq<nat>)
    requires fs != [] && Stand(rest, fs, at) && IsList(l, fs[0])
    ensures Stand([l] + rest, fs, [0] + at)
  {
    hide IsList;
  }

  lemma MovedRises(later: seq<nat>)
    requires Rising(later)
    ensures Rising(Moved(later)) && Rising([0] + Moved(later))
  {
  }

  lemma MovedAll(fs: seq<Field>, later: seq<nat>)
    requires fs != [] && AllOf(fs[1..], later)
    ensures AllOf(fs, if Listing(fs[0]) then [0] + Moved(later) else Moved(later))
  {
    hide Listing;
    forall i: nat ensures i in Moved(later) <==> 0 < i < |fs| && Listing(fs[i]) {
      Shifted(later, Moved(later), i);
      assert 0 < i < |fs| ==> fs[i] == fs[1..][i - 1];
    }
  }

  lemma Shifted(later: seq<nat>, moved: seq<nat>, i: nat)
    requires |moved| == |later| && forall k :: 0 <= k < |later| ==> moved[k] == later[k] + 1
    ensures i in moved <==> i > 0 && i - 1 in later
  {
    if i > 0 && i - 1 in later {
      var k :| 0 <= k < |later| && later[k] == i - 1;
      assert moved[k] == i;
    }
  }

  lemma OneList(f: Field)
    ensures BadList(f.value) <==> ItemsOf(f.value).None? || RestoreHashes(ItemsOf(f.value).value).None?
    ensures !BadList(f.value) ==>
              var hs := RestoreHashes(ItemsOf(f.value).value).value;
              && (hs == [] <==> !Listing(f))
              && (hs != [] ==> IsList(Listed(f.key, hs), f))
  {
    hide NoBytes, ToText, Unhex;
    if ItemsOf(f.value).Some? {
      RestoreHashesIs(ItemsOf(f.value).value);
    }
  }

  /** The 32 bytes that are copied from every hash; None where a shorter one is over-read. */
  function CutHashes(hs: seq<seq<Byte>>): Option<seq<Hash>> {
    if hs == [] then Some([])
    else if |hs[0]| < HASH_LENGTH then None
    else match CutHashes(hs[1..])
         case None => None
         case Some(rest) => Some([hs[0][..HASH_LENGTH]] + rest)
  }

  function CutLists(srd: seq<RawHashes>): Option<seq<PathHashes>> {
    if srd == [] then Some([])
    else
      match CutHashes(srd[0].hashes)
      case None => None
      case Some(hs) =>
        match CutLists(srd[1..])
        case None => None
        case Some(rest) => Some([Listed(srd[0].path, hs)] + rest)
  }

  lemma {:induction false} CutHashesIs(hs: seq<seq<Byte>>)
    ensures CutHashes(hs).None? <==> exists i :: 0 <= i < |hs| && |hs[i]| < 32
    ensures CutHashes(hs).Some? ==>
              var r := CutHashes(hs).value; |r| == |hs| && forall i :: 0 <= i < |hs| ==> |hs[i]| >= 32 && r[i] == hs[i][..32]
  {
    if hs != [] {
      CutHashesIs(hs[1..]);
      assert forall i :: 0 < i < |hs| ==> hs[i] == hs[1..][i - 1];
      if i :| 0 <= i < |hs| - 1 && |hs[1..][i]| < 32 {
        assert |hs[i + 1]| < 32;
      }
    }
  }

  /** Cutting fails exactly when some hash is shorter than 32 bytes. */
  lemma {:induction false} CutListsIs(srd: seq<RawHashes>)
    ensures CutLists(srd).None? <==> exists i, k :: 0 <= i < |srd| && 0 <= k < |srd[i].hashes| && |srd[i].hashes[k]| < 32
    ensures CutLists(srd).Some? ==>
              var r := CutLists(srd).value;
              |r| == |srd| && forall i :: 0 <= i < |srd| ==>
                                            r[i].path == srd[i].path && |r[i].hashes| == |srd[i].hashes|
                                            && forall k :: 0 <= k < |srd[i].hashes| ==> |srd[i].hashes[k]| >= 32 && r[i].hashes[k] == srd[i].hashes[k][..32]
  {
    hide CutHashes;
    if srd != [] {
      CutHashesIs(srd[0].hashes);
      CutListsIs(srd[1..]);
      assert forall i :: 0 < i < |srd| ==> srd[i] == srd[1..][i - 1];
      if i, k :| 0 <= i < |srd| - 1 && 0 <= k < |srd[1..][i].hashes| && |srd[1..][i].hashes[k]| < 32 {
        assert |srd[i + 1].hashes[k]| < 32;
      }
    }
  }

  lemma {:induction false} CutWholeHashes(hs: seq<Hash>)
    ensures CutHashes(hs) == Some(hs)
  {
    if hs != [] {
      CutWholeHashes(hs[1..]);
      assert hs[0][..HASH_LENGTH] == hs[0] && hs == [hs[0]] + hs[1..];
    }
  }

  lemma {:induction false} CutWhole(srd: seq<PathHashes>)
    ensures CutLists(srd) == Some(srd)
  {
    if srd != [] {
      CutWholeHashes(srd[0].hashes);
      CutWhole(srd[1..]);
      assert srd == [srd[0]] + srd[1..];
    }
  }

  // ----- The object that is restored, with its record of assigned space -----

  /** The record once the number of hashes of every restored path is written into it. */
  function Assigned(before: SrdDecrease.Record, srd: seq<RawHashes>): SrdDecrease.Record {
    if srd == [] then before
    else
      var n := |srd| - 1;
      Assigned(before, srd[..n])[srd[n].path := |srd[n].hashes|]
  }

  /** The lists and the record of the Workload object. */
  class SpaceLists {
    var srd: seq<RawHashes>
    var record: SrdDecrease.Record

    /** restore_srd: a failure leaves no list at all, and the record as it was. */
    method RestoreLists(fs: seq<Field>) returns (ok: bool)
      modifies this
      ensures ok == RestoreSrd(fs).Some?
      ensures srd == if ok then RestoreSrd(fs).value else []
      ensures record == if ok then Assigned(old(record), RestoreSrd(fs).value) else old(record)
    {
      srd := [];
      var i: nat := 0;
      PrefixNone(RestoreSrd(fs));
      while i < |fs|
        invariant i <= |fs| && record == old(record)
        invariant RestoreSrd(fs) == Prefixed(srd, RestoreSrd(fs[i..]))
      {
        hide ToText, Assigned;
        assert fs[i..][1..] == fs[i + 1..] && fs[i..][0] == fs[i];
        var items := ItemsOf(fs[i].value);
        if items.None? {
          srd := [];
          return false;
        }
        var hs := RestoreHashList(items.value);
        if hs.None? {
          srd := [];
          return false;
        }
        if hs.value != [] {
          PrefixMore(srd, Listed(fs[i].key, hs.value), RestoreSrd(fs[i + 1..]));
          srd := srd + [Listed(fs[i].key, hs.value)];
        }
        i := i + 1;
      }
      EmptyRight(srd);
      Record();
      ok := true;
    }

    method Record()
      modifies this`record
      ensures record == Assigned(old(record), srd)
    {
      var i: nat := 0;
      while i < |srd|
        invariant i <= |srd| && record == Assigned(old(record), srd[..i])
      {
        assert srd[..i + 1][..i] == srd[..i];
        record := record[srd[i].path := |srd[i].hashes|];
        i := i + 1;
      }
      assert srd[..i] == srd;
    }
  }

  /** The restored paths are keys of the object, in their order, and none is without hashes. */
  lemma {:induction false} RestoredPaths(fs: seq<Field>)
    requires KeysAscend(fs) && RestoreSrd(fs).Some?
    ensures var srd := RestoreSrd(fs).value;
            && (forall l <- srd :: l.hashes != [] && exists i :: 0 <= i < |fs| && fs[i].key == l.path)
            && (forall i, j :: 0 <= i < j < |srd| ==> StrLess(srd[i].path, srd[j].path))
  {
    hide StrLess, RestoreHashes, ItemsOf;
    if fs != [] {
      RestoredPaths(fs[1..]);
      var rest, srd := RestoreSrd(fs[1..]).value, RestoreSrd(fs).value;
      forall l | l in rest ensures exists i :: 0 < i < |fs| && fs[i].key == l.path {
        var i :| 0 <= i < |fs| - 1 && fs[1..][i].key == l.path;
        assert fs[i + 1].key == l.path;
      }
      if srd != rest {
        assert srd[0].path == fs[0].key && srd[1..] == rest;
        forall j | 0 < j < |srd| ensures srd[j] == rest[j - 1] && StrLess(srd[0].path, srd[j].path) {
          assert rest[j - 1] in rest;
        }
      }
    }
  }

  lemma {:induction false} AssignedAt(before: SrdDecrease.Record, srd: seq<RawHashes>, path: string)
    requires forall i, j :: 0 <= i < j < |srd| ==> srd[i].path != srd[j].path
    ensures (forall l <- srd :: l.path != path) ==>
              SrdDecrease.Recorded(Assigned(before, srd), path) == SrdDecrease.Recorded(before, path)
    ensures forall l <- srd :: l.path == path ==> SrdDecrease.Recorded(Assigned(before, srd), path) == |l.hashes|
  {
    if srd != [] {
      var n := |srd| - 1;
      AssignedAt(before, srd[..n], path);
      assert srd == srd[..n] + [srd[n]];
      assert forall l <- srd[..n] :: l.path != srd[n].path;
    }
  }

  lemma StrLessDiffers(s: string, t: string)
    requires StrLess(s, t)
    ensures s != t
  {
  }

  /** After a restore the record of every restored path is the number of its hashes, and that of any other path, be it
      one whose list was empty, is the old one. */
  lemma RestoredRecord(fs: seq<Field>, before: SrdDecrease.Record, path: string)
    requires KeysAscend(fs) && RestoreSrd(fs).Some?
    ensures var srd := RestoreSrd(fs).value;
            && (forall l <- srd :: l.path == path ==> SrdDecrease.Recorded(Assigned(before, srd), path) == |l.hashes|)
            && ((forall l <- srd :: l.path != path) ==>
                  SrdDecrease.Recorded(Assigned(before, srd), path) == SrdDecrease.Recorded(before, path))
  {
    hide StrLess, Assigned, RestoreSrd;
    RestoredPaths(fs);
    var srd := RestoreSrd(fs).value;
    forall i, j | 0 <= i < j < |srd| ensures srd[i].path != srd[j].path {
      StrLessDiffers(srd[i].path, srd[j].path);
    }
    AssignedAt(before, srd, path);
  }

  // ----- The roots -----

  function HashBytesOf(hs: seq<Hash>): seq<Byte> {
    if hs == [] then [] else hs[0] + HashBytesOf(hs[1..])
  }

  function SrdBytes(srd: seq<PathHashes>): seq<Byte> {
    if srd == [] then [] else HashBytesOf(srd[0].hashes) + SrdBytes(srd[1..])
  }

  function SrdRoot(srd: seq<PathHashes>, sha: seq<Byte> -> Hash): Hash {
    if srd == [] then ZERO_HASH else sha(SrdBytes(srd))
  }

  lemma {:induction false} NonEmptyBytes(srd: seq<PathHashes>)
    ensures SrdBytes(NonEmpty(srd)) == SrdBytes(srd)
    ensures NonEmpty(srd) == [] <==> SrdBytes(srd) == []
    ensures NonEmpty(srd) == [] <==> forall i :: 0 <= i < |srd| ==> srd[i].hashes == []
  {
    if srd != [] {
      NonEmptyBytes(srd[1..]);
      if srd[0].hashes == [] {
        EmptyLeft(SrdBytes(srd[1..]));
        assert forall i :: 1 <= i < |srd| ==> srd[i] == srd[1..][i - 1];
        assert NonEmpty(srd) == [] ==> forall i :: 0 <= i < |srd| ==> srd[i].hashes == [];
        if forall i :: 0 <= i < |srd| ==> srd[i].hashes == [] {
          forall i | 0 <= i < |srd| - 1 ensures srd[1..][i].hashes == [] {
            assert srd[1..][i] == srd[i + 1];
          }
        }
      }
    }
  }

  /** The restored root is the old one exactly when there was no path at all or some hash, or the digest of
      nothing happened to be zero. */
  lemma SrdRootRestored(srd: seq<PathHashes>, sha: seq<Byte> -> Hash)
    ensures SrdRoot(NonEmpty(srd), sha) == SrdRoot(srd, sha) <==>
            srd == [] || NonEmpty(srd) != [] || sha([]) == ZERO_HASH
  {
    NonEmptyBytes(srd);
  }

  function FileRoot(files: seq<Json>, sha: seq<Byte> -> Hash): Hash {
    if files == [] then ZERO_HASH else sha(FileBytes(files))
  }

  /** ToBytes of the hash of each entry. */
  function FileBytes(files: seq<Json>): seq<Byte> {
    if files == [] then []
    else (var h := Get(files[0], "hash"); if h.HashValue? then h.hash else []) + FileBytes(files[1..])
  }

  // ----- The file list -----

  predicate FineFile(f: FileEntry) {
    && Int64(f.size) && Int64(f.oldSize) && Int64(f.blockNum)
    && IsDigit(f.current) && IsDigit(f.waiting) && IsDigit(f.origin)
  }

  predicate FineFiles(files: seq<FileEntry>) {
    forall i :: 0 <= i < |files| ==> FineFile(files[i])
  }

  /** The dump of an entry after the three remove_char calls. */
  function FileText(f: FileEntry): string {
    Strip(Dump(FileJson(f), 1))
  }

  function FilesBody(files: seq<FileEntry>): string {
    if files == [] then "" else if |files| == 1 then FileText(files[0]) else FileText(files[0]) + ("," + FilesBody(files[1..]))
  }

  function FilesText(files: seq<FileEntry>): string {
    "[" + FilesBody(files) + "]"
  }

  function FileMembers(f: FileEntry): seq<Member> {
    [Tight("block_num", DInt(f.blockNum))] + ([Tight("hash", DHash(f.hash))] + ([Tight("old_hash", DHash(f.oldHash))]
                                                                                + ([Tight("old_size", DInt(f.oldSize))] + ([Tight("size", DInt(f.size))] + [Tight("status", DStr(StatusText(f)))]))))
  }

  function FileFields(f: FileEntry): seq<Field> {
    [Field("block_num", Integral(f.blockNum))] + ([Field("hash", HashValue(f.hash))] + ([Field("old_hash", HashValue(f.oldHash))]
                                                                                        + ([Field("old_size", Integral(f.oldSize))] + ([Field("size", Integral(f.size))] + [Field("status", String(StatusText(f)))]))))
  }

  lemma FileJsonFields(f: FileEntry)
    ensures FileJson(f) == Object(FileFields(f))
  {
    hide StatusText;
  }

  lemma SqueezeCons(f: Field, fs: seq<Field>)
    ensures SqueezeMembers(DumpMembers([f] + fs, 1))
         == [Tight(f.key, Squeeze(DumpDoc(f.value, 2)))] + SqueezeMembers(DumpMembers(fs, 1))
  {
    hide Squeeze, DumpDoc, Pad;
    assert ([f] + fs)[1..] == fs;
    var ms := DumpMembers([f] + fs, 1);
    assert ms[1..] == DumpMembers(fs, 1);
  }

  lemma FileDocIs(f: FileEntry)
    ensures Squeeze(DumpDoc(FileJson(f), 1)) == DObj(FileMembers(f), "")
  {
    FileJsonFields(f);
    ObjectSqueeze(FileFields(f));
    hide StatusText, DumpMembers, SqueezeMembers;
    var a, b, c := Field("block_num", Integral(f.blockNum)), Field("hash", HashValue(f.hash)), Field("old_hash", HashValue(f.oldHash));
    var d, e, g := Field("old_size", Integral(f.oldSize)), Field("size", Integral(f.size)), Field("status", String(StatusText(f)));
    EmptyRight([g]);
    SqueezeCons(g, []);
    NoMembers();
    SqueezeCons(e, [g]);
    SqueezeCons(d, [e] + [g]);
    SqueezeCons(c, [d] + ([e] + [g]));
    SqueezeCons(b, [c] + ([d] + ([e] + [g])));
    SqueezeCons(a, [b] + ([c] + ([d] + ([e] + [g]))));
    EmptyRight([Tight("status", DStr(StatusText(f)))]);
  }

  lemma NoMembers()
    ensures SqueezeMembers(DumpMembers([], 1)) == []
  {
  }

  lemma ObjectSqueeze(fs: seq<Field>)
    ensures Squeeze(DumpDoc(Object(fs), 1)) == DObj(SqueezeMembers(DumpMembers(fs, 1)), "")
  {
    hide DumpMembers, SqueezeMembers;
  }

  lemma StatusFine(f: FileEntry)
    requires FineFile(f)
    ensures Plain(StatusText(f)) && Solid(StatusText(f)) && !(HASH_TAG <= StatusText(f))
  {
    var s := StatusText(f);
    assert |s| == 3 && s[0] == f.current && s[1] == f.waiting && s[2] == f.origin;
  }

  lemma FileWords()
    ensures Word("block_num") && Word("hash") && Word("old_hash") && Word("old_size") && Word("size") && Word("status")
  {
  }

  lemma FileJsonFine(f: FileEntry, ov: Overload)
    requires FineFile(f)
    ensures Sound(FileJson(f), ov) && Strippable(FileJson(f))
  {
    FileJsonFields(f);
    FileFieldsFine(f, ov);
    FileKeysAscend(f);
    hide FileFields, FileJson, SoundFields, StrippableFields, KeysAscend;
  }

  lemma FileFieldsFine(f: FileEntry, ov: Overload)
    requires FineFile(f)
    ensures SoundFields(FileFields(f), ov) && StrippableFields(FileFields(f))
  {
    hide StatusText, SoundFields, StrippableFields, Word, Plain, Solid;
    FileWords();
    StatusFine(f);
    NothingSound(ov);
    var a, b, c := Field("block_num", Integral(f.blockNum)), Field("hash", HashValue(f.hash)), Field("old_hash", HashValue(f.oldHash));
    var d, e, g := Field("old_size", Integral(f.oldSize)), Field("size", Integral(f.size)), Field("status", String(StatusText(f)));
    EmptyRight([g]);
    SoundCons(g, [], ov);
    SoundCons(e, [g], ov);
    SoundCons(d, [e] + [g], ov);
    SoundCons(c, [d] + ([e] + [g]), ov);
    SoundCons(b, [c] + ([d] + ([e] + [g])), ov);
    SoundCons(a, [b] + ([c] + ([d] + ([e] + [g]))), ov);
    StrippableCons(g, []);
    StrippableCons(e, [g]);
    StrippableCons(d, [e] + [g]);
    StrippableCons(c, [d] + ([e] + [g]));
    StrippableCons(b, [c] + ([d] + ([e] + [g])));
    StrippableCons(a, [b] + ([c] + ([d] + ([e] + [g]))));
  }

  lemma NothingSound(ov: Overload)
    ensures SoundFields([], ov) && StrippableFields([])
  {
  }

  lemma FileKeysAscend(f: FileEntry)
    ensures KeysAscend(FileFields(f))
  {
    hide StatusText, StrLess;
    KeyOrder();
    StrLessTransitive("block_num", "hash", "old_hash");
    StrLessTransitive("block_num", "old_hash", "old_size");
    StrLessTransitive("block_num", "old_size", "size");
    StrLessTransitive("block_num", "size", "status");
    StrLessTransitive("hash", "old_hash", "old_size");
    StrLessTransitive("hash", "old_size", "size");
    StrLessTransitive("hash", "size", "status");
    StrLessTransitive("old_hash", "old_size", "size");
    StrLessTransitive("old_hash", "size", "status");
    StrLessTransitive("old_size", "size", "status");
    var fs := FileFields(f);
    assert |fs| == 6;
    assert fs[0].key == "block_num" && fs[1].key == "hash" && fs[2].key == "old_hash";
    assert fs[3].key == "old_size" && fs[4].key == "size" && fs[5].key == "status";
  }

  lemma KeyOrder()
    ensures StrLess("block_num", "hash") && StrLess("hash", "old_hash") && StrLess("old_hash", "old_size")
    ensures StrLess("old_size", "size") && StrLess("size", "status")
  {
    SharedPrefix("old_", "hash", "size");
    assert "old_hash" == "old_" + "hash" && "old_size" == "old_" + "size";
    SharedPrefix("s", "ize", "tatus");
    assert "size" == "s" + "ize" && "status" == "s" + "tatus";
  }

  /** The stored text of an entry is one layout of its value. */
  lemma FileDocText(f: FileEntry, ov: Overload)
    requires FineFile(f)
    ensures var d := DObj(FileMembers(f), "");
            Flat(d) == FileText(f) && Good(d, ov) && Value(d) == FileJson(f)
  {
    hide FileMembers, FileJson, Flat, Strip, Dump, Good, Value, Squeeze, DumpDoc, Sound, Strippable, Loose;
    FileDocIs(f);
    FileJsonFine(f, ov);
    FlatDump(FileJson(f), 1);
    ValueDump(FileJson(f), 1, ov);
    LooseDump(FileJson(f), 1);
    StripFlat(DumpDoc(FileJson(f), 1));
    SqueezeKeeps(DumpDoc(FileJson(f), 1), ov);
  }

  lemma MemberLength(key: string, doc: Doc)
    ensures |FlatMember(Tight(key, doc))| == |key| + 3 + |Flat(doc)|
  {
    hide Flat;
  }

  /** The digits of the three numbers. */
  function Digits(f: FileEntry): nat {
    |Decimal(f.size)| + |Decimal(f.oldSize)| + |Decimal(f.blockNum)|
  }

  lemma FileTextLength(f: FileEntry)
    requires FineFile(f)
    ensures |FileText(f)| == 213 + Digits(f)
  {
    FileDocText(f, OfString);
    StatusFine(f);
    EscapePlain(StatusText(f));
    ScalarLengths(f);
    hide FileText, Flat, FlatMembers, FlatMember, StatusText, Decimal;
    var a, b, c := Tight("block_num", DInt(f.blockNum)), Tight("hash", DHash(f.hash)), Tight("old_hash", DHash(f.oldHash));
    var d, e, g := Tight("old_size", DInt(f.oldSize)), Tight("size", DInt(f.size)), Tight("status", DStr(StatusText(f)));
    MemberLength("block_num", DInt(f.blockNum));
    MemberLength("hash", DHash(f.hash));
    MemberLength("old_hash", DHash(f.oldHash));
    MemberLength("old_size", DInt(f.oldSize));
    MemberLength("size", DInt(f.size));
    MemberLength("status", DStr(StatusText(f)));
    FlatOne(g);
    FlatCons(e, [g]);
    FlatCons(d, [e] + [g]);
    FlatCons(c, [d] + ([e] + [g]));
    FlatCons(b, [c] + ([d] + ([e] + [g])));
    FlatCons(a, [b] + ([c] + ([d] + ([e] + [g]))));
    FlatObject(FileMembers(f));
  }

  lemma ScalarLengths(f: FileEntry)
    requires JsonEscape(StatusText(f)) == StatusText(f)
    ensures Flat(DInt(f.blockNum)) == Decimal(f.blockNum) && Flat(DInt(f.size)) == Decimal(f.size)
    ensures Flat(DInt(f.oldSize)) == Decimal(f.oldSize)
    ensures |Flat(DHash(f.hash))| == |Flat(DHash(f.oldHash))| == 72
    ensures |Flat(DStr(StatusText(f)))| == 5
  {
    assert |HASH_TAG| == 6;
  }

  function FileElems(files: seq<FileEntry>): (es: seq<Elem>)
    ensures |es| == |files|
  {
    if files == [] then [] else [Elem("", DObj(FileMembers(files[0]), ""), "")] + FileElems(files[1..])
  }

  function FileJsons(files: seq<FileEntry>): (r: seq<Json>)
    ensures |r| == |files|
  {
    if files == [] then [] else [FileJson(files[0])] + FileJsons(files[1..])
  }

  function FilesDoc(files: seq<FileEntry>): Doc {
    DArr(FileElems(files), "")
  }

  lemma {:induction false} FileElemsText(files: seq<FileEntry>)
    requires files != [] && FineFiles(files)
    ensures FlatElems(FileElems(files)) == FilesBody(files) + "]"
  {
    hide Flat, FileText, FileMembers;
    FileDocText(files[0], OfString);
    var es, x := FileElems(files), FileText(files[0]);
    EmptyLeft(x);
    EmptyRight(x);
    if |files| > 1 {
      FileElemsText(files[1..]);
      assert es[1..] == FileElems(files[1..]);
      ElemPieces(x, ",", FilesBody(files[1..]), "]");
    }
  }

  lemma FilesDocText(files: seq<FileEntry>)
    requires FineFiles(files)
    ensures Flat(FilesDoc(files)) == FilesText(files)
  {
    hide FlatElems, FileMembers, FileText;
    if files == [] {
      assert FileElems(files) == [] && FilesBody(files) == "";
      Empties("[", "]");
    } else {
      FileElemsText(files);
      Associative("[", FilesBody(files), "]");
    }
  }

  lemma {:induction false} FileElemsGood(files: seq<FileEntry>, ov: Overload)
    requires FineFiles(files)
    ensures GoodElems(FileElems(files), ov) && ElemValues(FileElems(files)) == FileJsons(files)
  {
    hide FileMembers, FileJson, Good, Value;
    if files != [] {
      FileDocText(files[0], ov);
      FileElemsGood(files[1..], ov);
      assert FileElems(files)[1..] == FileElems(files[1..]);
    }
  }

  lemma FilesDocGood(files: seq<FileEntry>, ov: Overload)
    requires FineFiles(files)
    ensures Good(FilesDoc(files), ov) && Value(FilesDoc(files)) == Array(FileJsons(files))
  {
    hide FileElems, GoodElems, ElemValues, FileJsons;
    FileElemsGood(files, ov);
  }

  // ----- Lengths -----

  function DigitsOf(files: seq<FileEntry>): nat {
    if files == [] then 0 else Digits(files[0]) + DigitsOf(files[1..])
  }

  lemma {:induction false} FilesBodyLength(files: seq<FileEntry>)
    requires FineFiles(files)
    ensures |FilesBody(files)| == if files == [] then 0 else 214 * |files| - 1 + DigitsOf(files)
  {
    hide FileText, Digits;
    if files != [] {
      FileTextLength(files[0]);
      FilesBodyLength(files[1..]);
    }
  }

  function PathLengths(srd: seq<PathHashes>): nat {
    if srd == [] then 0 else |srd[0].path| + PathLengths(srd[1..])
  }

  function HashNumber(srd: seq<PathHashes>): nat {
    if srd == [] then 0 else |srd[0].hashes| + HashNumber(srd[1..])
  }

  /** The paths that have hashes. */
  function Filled(srd: seq<PathHashes>): nat {
    if srd == [] then 0 else (if srd[0].hashes == [] then 0 else 1) + Filled(srd[1..])
  }

  lemma {:induction false} SrdBodyLength(srd: seq<PathHashes>)
    ensures |SrdBody(srd)| == if srd == [] then 0 else PathLengths(srd) + 6 * |srd| + 67 * HashNumber(srd) - Filled(srd) - 1
  {
    hide PathText, HashList;
    if srd != [] {
      SrdBodyLength(srd[1..]);
      PathLength(srd[0]);
    }
  }

  lemma PathLength(p: PathHashes)
    ensures |PathText(p)| == |p.path| + 5 + if p.hashes == [] then 0 else 67 * |p.hashes| - 1
  {
  }

  // ----- Element by element, key by key -----

  lemma FilesNext(files: seq<FileEntry>, i: nat)
    requires i < |files|
    ensures FilesBody(files[i..]) == FileText(files[i]) + ((if i != |files| - 1 then "," else "") + FilesBody(files[i + 1..]))
  {
    hide FileText;
    var rest := files[i..];
    assert rest[0] == files[i] && rest[1..] == files[i + 1..];
    if i == |files| - 1 {
      assert FilesBody(files[i + 1..]) == "";
      EmptyRight(FileText(files[i]));
    }
  }

  lemma NoFiles(files: seq<FileEntry>)
    ensures FilesBody(files[|files|..]) == ""
  {
  }

  lemma WordTight(key: string, doc: Doc, ov: Overload)
    requires Word(key) && Good(doc, ov)
    ensures GoodMember(Tight(key, doc), ov)
  {
    hide Good;
    WordIsFine(key);
  }

  lemma HexGood(s: string, ov: Overload)
    requires IsHex(s) && s != ""
    ensures Good(DStr(s), ov) && Value(DStr(s)) == String(s) && ToText(String(s)) == s
  {
    HexIsPlain(s);
    EscapePlain(s);
    assert s[0] != '$';
  }

  lemma PlainGood(s: string, ov: Overload)
    requires Plain(s) && !(HASH_TAG <= s)
    ensures Good(DStr(s), ov) && Value(DStr(s)) == String(s) && ToText(String(s)) == s
  {
    EscapePlain(s);
  }

  lemma IntGood(n: nat, ov: Overload)
    requires Int64(n)
    ensures Good(DInt(n), ov) && Value(DInt(n)) == Integral(n) && ToInt(Integral(n)) == n && ToText(Integral(n)) == Decimal(n)
  {
  }
}
