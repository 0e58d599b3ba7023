/** JSON texts that the source appends piece by piece instead of printing a value. */
module HandText {
  import opened Bytes
  import opened Text
  import opened Json
  import opened JsonLayout

  function Pair(key: string, text: string): string {
    "\"" + key + "\":" + text
  }

  /** A member without blanks. */
  function Tight(key: string, doc: Doc): Member {
    Member("", key, "", "", doc, "")
  }

  lemma FlatTight(key: string, doc: Doc)
    ensures FlatMember(Tight(key, doc)) == Pair(key, Flat(doc))
  {
    hide Flat;
    TightText("\"", key, ":", Flat(doc), "\":");
  }

  lemma TightText(quote: string, key: string, colon: string, text: string, close: string)
    requires close == quote + colon
    ensures "" + quote + key + quote + "" + colon + "" + text + "" == quote + key + close + text
  {
  }

  lemma FlatOne(m: Member)
    ensures FlatMembers([m]) == FlatMember(m) + "}"
  {
    hide FlatMember;
  }

  lemma FlatCons(m: Member, ms: seq<Member>)
    requires ms != []
    ensures FlatMembers([m] + ms) == FlatMember(m) + ("," + FlatMembers(ms))
  {
    hide FlatMember;
    assert ([m] + ms)[1..] == ms;
  }

  lemma FlatFrom(ms: seq<Member>, i: nat)
    requires i < |ms|
    ensures FlatMembers(ms[i..]) == FlatMember(ms[i]) + if i == |ms| - 1 then "}" else "," + FlatMembers(ms[i + 1..])
  {
    hide FlatMember;
    assert ms[i..][0] == ms[i] && ms[i..][1..] == ms[i + 1..];
  }

  lemma ValuesCons(m: Member, ms: seq<Member>)
    ensures MemberValues([m] + ms) == [Field(m.key, Value(m.doc))] + MemberValues(ms)
  {
    hide Value;
    assert ([m] + ms)[1..] == ms;
  }

  lemma GoodCons(m: Member, ms: seq<Member>, ov: Overload)
    ensures GoodMembers([m] + ms, ov) <==> GoodMember(m, ov) && GoodMembers(ms, ov)
  {
    hide GoodMember;
    assert ([m] + ms)[1..] == ms;
  }

  lemma GoodTight(key: string, doc: Doc, ov: Overload)
    requires Plain(key) && key != "" && key[0] != '$' && Good(doc, ov)
    ensures GoodMember(Tight(key, doc), ov)
  {
    PlainLasts(key);
    hide Good;
  }

  lemma FlatObject(ms: seq<Member>)
    requires ms != []
    ensures Flat(DObj(ms, "")) == "{" + FlatMembers(ms)
  {
    hide FlatMembers;
  }

  lemma ElemPieces(a: string, b: string, c: string, d: string)
    ensures a + (b + (c + d)) == (a + (b + c)) + d
  {
  }

  lemma {:induction false} MemberValueAt(ms: seq<Member>, i: nat)
    requires i < |ms|
    ensures MemberValues(ms)[i] == Field(ms[i].key, Value(ms[i].doc))
  {
    hide Value;
    if i > 0 {
      MemberValueAt(ms[1..], i - 1);
    }
  }

  ghost predicate DistinctMembers(ms: seq<Member>) {
    forall i, j :: 0 <= i < j < |ms| ==> ms[i].key != ms[j].key
  }

  /** What a reader of the object finds under the key of member i. */
  lemma MemberFound(ms: seq<Member>, inner: string, i: nat)
    requires DistinctMembers(ms) && i < |ms|
    ensures Get(Value(DObj(ms, inner)), ms[i].key) == Value(ms[i].doc)
  {
    var fs := MemberValues(ms);
    forall j | 0 <= j < |fs| ensures fs[j] == Field(ms[j].key, Value(ms[j].doc)) {
      MemberValueAt(ms, j);
    }
    hide MemberValues;
    LastOfDistinct(fs, i, Null);
    LookupPutAll([], fs, ms[i].key);
  }

  lemma {:induction false} AllGood(ms: seq<Member>, ov: Overload)
    requires forall i :: 0 <= i < |ms| ==> GoodMember(ms[i], ov)
    ensures GoodMembers(ms, ov)
  {
    hide GoodMember;
    if ms != [] {
      AllGood(ms[1..], ov);
    }
  }

  predicate KeyIn(fields: seq<Field>, key: string) {
    exists i :: 0 <= i < |fields| && fields[i].key == key
  }

  lemma {:induction false} PutKeys(fields: seq<Field>, key: string, value: Json, k: string)
    ensures KeyIn(Put(fields, key, value), k) <==> KeyIn(fields, k) || k == key
  {
    var r := Put(fields, key, value);
    if fields == [] {
      assert r[0].key == key;
    } else if fields[0].key == key {
      assert r[0].key == key;
      assert forall i :: 1 <= i < |fields| ==> r[i] == fields[i];
    } else if StrLess(key, fields[0].key) {
      assert r[0].key == key;
      assert forall i :: 0 <= i < |fields| ==> r[i + 1] == fields[i];
    } else {
      PutKeys(fields[1..], key, value, k);
      KeyInCons(fields[0], fields[1..], k);
      KeyInCons(fields[0], Put(fields[1..], key, value), k);
      assert fields == [fields[0]] + fields[1..];
    }
  }

  lemma KeyInCons(f: Field, fs: seq<Field>, k: string)
    ensures KeyIn([f] + fs, k) <==> f.key == k || KeyIn(fs, k)
  {
    var all := [f] + fs;
    assert all[0] == f;
    assert forall i :: 0 <= i < |fs| ==> all[i + 1] == fs[i];
    if KeyIn(all, k) {
      var i :| 0 <= i < |all| && all[i].key == k;
      assert i == 0 || fs[i - 1].key == k;
    }
  }

  lemma {:induction false} PutAllKeys(acc: seq<Field>, fields: seq<Field>, k: string)
    ensures KeyIn(PutAll(acc, fields), k) <==> KeyIn(acc, k) || KeyIn(fields, k)
    decreases fields
  {
    hide Put, KeyIn;
    if fields == [] {
      NoKey(k);
    } else {
      PutKeys(acc, fields[0].key, fields[0].value, k);
      PutAllKeys(Put(acc, fields[0].key, fields[0].value), fields[1..], k);
      KeyInCons(fields[0], fields[1..], k);
      HeadTail(fields);
    }
  }

  lemma NoKey(k: string)
    ensures !KeyIn([], k)
  {
  }

  /** The object has the keys of the layout. */
  lemma KeysOfLayout(ms: seq<Member>, inner: string, key: string)
    ensures Value(DObj(ms, inner)).Object?
    ensures KeyIn(Value(DObj(ms, inner)).fields, key) <==> exists i :: 0 <= i < |ms| && ms[i].key == key
  {
    var fs := MemberValues(ms);
    forall j | 0 <= j < |fs| ensures fs[j].key == ms[j].key {
      MemberValueAt(ms, j);
    }
    hide MemberValues, PutAll;
    NoKey(key);
    PutAllKeys([], fs, key);
  }

  lemma TightParts(key: string, doc: Doc)
    ensures Tight(key, doc).key == key && Tight(key, doc).doc == doc
  {
  }
}
