/** Load inverts dump exactly on the sound containers, before and after the blanks are stripped. */
module JsonExact {
  import opened Bytes
  import opened Text
  import opened Json
  import opened JsonLayout
  import opened JsonRoundTrip
  import opened HandText

  // ----- What the parser can make at all -----

  /** Every key is an escaped text; a clean value comes from a text without blanks and escapes. */
  predicate Fine(j: Json, clean: bool)
    decreases j, 0
  {
    match j
    case Object(fs) => FineFields(fs, clean)
    case Array(items) => FineItems(items, clean)
    case String(t) => clean ==> Plain(t) && Solid(t)
    case _ => true
  }

  predicate FineFields(fs: seq<Field>, clean: bool)
    decreases fs, 1
  {
    fs == [] || (FineKey(fs[0].key, clean) && Fine(fs[0].value, clean) && FineFields(fs[1..], clean))
  }

  predicate FineItems(items: seq<Json>, clean: bool)
    decreases items, 1
  {
    items == [] || (Fine(items[0], clean) && FineItems(items[1..], clean))
  }

  predicate FineKey(k: string, clean: bool) {
    Escaped(k) && (clean ==> Solid(k))
  }

  /** A character of a text without blanks and escapes. */
  predicate Clear(c: char) {
    c == '\"' || (EscapeChar(c) == [c] && c != ' ')
  }

  predicate ClearUpTo(s: string, lim: nat) {
    forall i :: 0 <= i < lim && i < |s| ==> Clear(s[i])
  }

  lemma {:induction false} ScanClear(s: string, i: nat, val: string, lim: nat)
    requires i <= |s| && ClearUpTo(s, lim) && Plain(val) && Solid(val)
    ensures var r := ScanString(s, i, val); r.Closed? && r.next <= lim ==> Plain(r.text) && Solid(r.text)
    decreases |s| - i
  {
    if i < |s| && s[i] != '\"' && ScanString(s, i, val).Closed? && ScanString(s, i, val).next <= lim {
      ScanMoves(s, i, val);
      assert Clear(s[i]);
      ScanClear(s, i + 1, val + [s[i]], lim);
    }
  }

  lemma ScanMoves(s: string, i: nat, val: string)
    requires i < |s| && s[i] != '\"' && ScanString(s, i, val).Closed?
    ensures i < ScanString(s, i, val).next
  {
  }

  lemma FineString(s: string, p: nat, lim: nat, clean: bool)
    requires p < |s| && s[p] == '\"' && (clean ==> ClearUpTo(s, lim))
    ensures var r := ParseString(s, p); r.Parsed? && (clean ==> r.offset <= lim) ==> Fine(r.value, clean)
  {
    hide ScanString, Unhex;
    if clean {
      ScanClear(s, p + 1, "", lim);
    }
  }

  lemma TextIsFine(j: Json, clean: bool)
    requires Fine(j, clean)
    ensures FineKey(ToText(j), clean)
  {
    match j
    case String(t) =>
      EscapeIsEscaped(t);
      if clean {
        EscapePlain(t);
      }
    case HashValue(h) =>
      HexIsPlain(Hex(h));
      PlainIsEscaped(Hex(h));
    case Integral(n) =>
      NumberIsPlain(n);
      PlainIsEscaped(IntText(n));
    case _ =>
  }

  lemma NumberIsPlain(n: int)
    ensures Plain(IntText(n)) && Solid(IntText(n))
  {
  }

  lemma {:induction false} PutFine(fs: seq<Field>, key: string, value: Json, clean: bool)
    requires FineFields(fs, clean) && FineKey(key, clean) && Fine(value, clean)
    ensures FineFields(Put(fs, key, value), clean)
  {
    hide Fine, FineKey, StrLess;
    if fs != [] {
      if fs[0].key == key {
        assert Put(fs, key, value)[1..] == fs[1..];
      } else if StrLess(key, fs[0].key) {
        assert Put(fs, key, value)[1..] == fs;
      } else {
        PutFine(fs[1..], key, value, clean);
        assert Put(fs, key, value)[1..] == Put(fs[1..], key, value);
      }
    }
  }

  lemma {:induction false} MoreFine(items: seq<Json>, j: Json, clean: bool)
    requires FineItems(items, clean) && Fine(j, clean)
    ensures FineItems(items + [j], clean)
  {
    hide Fine;
    if items == [] {
      assert items + [j] == [j] && [j][1..] == [];
    } else {
      MoreFine(items[1..], j, clean);
      assert (items + [j])[1..] == items[1..] + [j];
    }
  }

  /** Whatever the parser returns is fine, and clean if the text up to its end is. */
  lemma {:induction false} ParsedIsFine(s: string, o: nat, ov: Overload, lim: nat, clean: bool)
    requires o <= |s| && (clean ==> ClearUpTo(s, lim))
    ensures var r := ParseNext(s, o, ov); r.Parsed? && (clean ==> r.offset <= lim) ==> Fine(r.value, clean)
    decreases |s| - o, 3
  {
    hide SkipWs, ParseArray, ParseObject, ParseScalar, ClearUpTo;
    var p := SkipWs(s, o);
    if p < |s| {
      if s[p] == '[' {
        ArrayIsFine(s, p, ov, lim, clean);
      } else if s[p] == '{' {
        ObjectIsFine(s, p, ov, lim, clean);
      } else {
        ScalarIsFine(s, p, ov, lim, clean);
      }
    }
  }

  lemma ScalarIsFine(s: string, p: nat, ov: Overload, lim: nat, clean: bool)
    requires p < |s| && (clean ==> ClearUpTo(s, lim))
    ensures var r := ParseScalar(s, p, ov); r.Parsed? && (clean ==> r.offset <= lim) ==> Fine(r.value, clean)
  {
    hide ParseString, ClearUpTo;
    if s[p] == '\"' {
      FineString(s, p, lim, clean);
    }
  }

  lemma {:induction false} ArrayIsFine(s: string, p: nat, ov: Overload, lim: nat, clean: bool)
    requires p < |s| && (clean ==> ClearUpTo(s, lim))
    ensures var r := ParseArray(s, p, ov); r.Parsed? && (clean ==> r.offset <= lim) ==> Fine(r.value, clean)
    decreases |s| - p, 1
  {
    hide SkipWs, ParseItems, ClearUpTo;
    var q := SkipWs(s, p + 1);
    if q < |s| && s[q] != ']' {
      ItemsAreFine(s, q, [], ov, lim, clean);
    }
  }

  lemma {:induction false} ItemsAreFine(s: string, o: nat, acc: seq<Json>, ov: Overload, lim: nat, clean: bool)
    requires o <= |s| && (clean ==> ClearUpTo(s, lim)) && FineItems(acc, clean)
    ensures var r := ParseItems(s, o, acc, ov); r.Parsed? && (clean ==> r.offset <= lim) ==> Fine(r.value, clean)
    decreases |s| - o, 4
  {
    hide SkipWs, ParseNext, ClearUpTo, Fine, FineItems;
    ParsedIsFine(s, o, ov, lim, clean);
    var v := ParseNext(s, o, ov);
    NothingIsFine(clean);
    if v.Parsed? && (clean ==> v.offset <= lim) {
      var e := SkipWs(s, v.offset);
      MoreFine(acc, v.value, clean);
      ItemsFine(acc + [v.value], clean);
      if e < |s| && s[e] == ',' {
        ItemsAreFine(s, e + 1, acc + [v.value], ov, lim, clean);
      }
    }
  }

  lemma ItemsFine(items: seq<Json>, clean: bool)
    requires FineItems(items, clean)
    ensures Fine(Array(items), clean)
  {
  }

  lemma NothingIsFine(clean: bool)
    ensures Fine(Array([]), clean)
  {
  }

  lemma {:induction false} ObjectIsFine(s: string, p: nat, ov: Overload, lim: nat, clean: bool)
    requires p < |s| && (clean ==> ClearUpTo(s, lim))
    ensures var r := ParseObject(s, p, ov); r.Parsed? && (clean ==> r.offset <= lim) ==> Fine(r.value, clean)
    decreases |s| - p, 1
  {
    hide SkipWs, ParseMembers, ClearUpTo;
    var q := SkipWs(s, p + 1);
    if q < |s| && s[q] != '}' {
      MembersAreFine(s, q, [], ov, lim, clean);
    }
  }

  lemma {:induction false} MemberIsFine(s: string, o: nat, acc: seq<Field>, ov: Overload, lim: nat, clean: bool)
    requires o <= |s| && (clean ==> ClearUpTo(s, lim)) && FineFields(acc, clean)
    ensures var r := ParseMember(s, o, acc, ov); !r.NoMember? && (clean ==> r.offset <= lim) ==> FineFields(r.fields, clean)
    decreases |s| - o, 4
  {
    hide SkipWs, ParseNext, ClearUpTo, Put, ToText, Fine, FineKey;
    ParsedIsFine(s, o, ov, lim, clean);
    var key := ParseNext(s, o, ov);
    if key.Parsed? {
      var c := SkipWs(s, key.offset);
      if c < |s| && s[c] == ':' {
        ParsedIsFine(s, SkipWs(s, c + 1), ov, lim, clean);
        var v := ParseNext(s, SkipWs(s, c + 1), ov);
        if v.Parsed? && (clean ==> v.offset <= lim) {
          TextIsFine(key.value, clean);
          PutFine(acc, ToText(key.value), v.value, clean);
        }
      }
    }
  }

  lemma {:induction false} MembersAreFine(s: string, o: nat, acc: seq<Field>, ov: Overload, lim: nat, clean: bool)
    requires o <= |s| && (clean ==> ClearUpTo(s, lim)) && FineFields(acc, clean)
    ensures var r := ParseMembers(s, o, acc, ov); r.Parsed? && (clean ==> r.offset <= lim) ==> Fine(r.value, clean)
    decreases |s| - o, 5
  {
    hide ParseMember, ClearUpTo;
    MemberIsFine(s, o, acc, ov, lim, clean);
    var m := ParseMember(s, o, acc, ov);
    if m.Comma? && (clean ==> m.offset <= lim) {
      MembersAreFine(s, m.offset, m.fields, ov, lim, clean);
    }
  }

  // ----- A layout that is seen as its value is sound -----

  /** What the program can build: objects in key order, 64-bit integers. */
  ghost predicate Built(j: Json)
    decreases j, 0
  {
    match j
    case Object(fs) => KeysAscend(fs) && BuiltFields(fs)
    case Array(items) => BuiltItems(items)
    case Integral(n) => Int64(n)
    case _ => true
  }

  ghost predicate BuiltFields(fs: seq<Field>)
    decreases fs, 1
  {
    fs == [] || (Built(fs[0].value) && BuiltFields(fs[1..]))
  }

  ghost predicate BuiltItems(items: seq<Json>)
    decreases items, 1
  {
    items == [] || (Built(items[0]) && BuiltItems(items[1..]))
  }

  lemma {:induction false} BasicDump(j: Json, depth: nat)
    requires depth > 0 && Built(j) && Fine(j, false)
    ensures Basic(DumpDoc(j, depth))
    decreases j, 0
  {
    hide Pad, Blank;
    match j
    case Object(fs) =>
      PadBlank(depth - 1);
      BlankInner(Pad(depth - 1));
      BasicDumpMembers(fs, depth);
    case Array(items) =>
      PadBlank(0);
      BlankInner(Pad(0));
      BasicDumpElems(items, depth, "");
    case _ =>
  }

  lemma {:induction false} BasicDumpMembers(fs: seq<Field>, depth: nat)
    requires depth > 0 && BuiltFields(fs) && FineFields(fs, false)
    ensures BasicMembers(DumpMembers(fs, depth))
    decreases fs, 1
  {
    if fs != [] {
      hide Escaped;
      BasicDump(fs[0].value, depth + 1);
      PadBlank(depth);
      PadBlank(depth - 1);
      BasicDumpMembers(fs[1..], depth);
      assert DumpMembers(fs, depth)[1..] == DumpMembers(fs[1..], depth);
    }
  }

  lemma {:induction false} BasicDumpElems(items: seq<Json>, depth: nat, pre: string)
    requires depth > 0 && BuiltItems(items) && FineItems(items, false) && Blank(pre)
    ensures BasicElems(DumpElems(items, depth, pre))
    decreases items, 1
  {
    if items != [] {
      BasicDump(items[0], depth + 1);
      BasicDumpElems(items[1..], depth, " ");
      assert DumpElems(items, depth, pre)[1..] == DumpElems(items[1..], depth, " ");
    }
  }

  /** A key with the tag in front is read as a shorter one, or as one without the tag. */
  lemma TaggedKeyShrinks(k: string)
    requires Escaped(k) && HASH_TAG <= k && SeenKey(k).Some?
    ensures |SeenKey(k).value| < |k| || !(HASH_TAG <= SeenKey(k).value)
  {
    hide *;
    var t := KeyText(k);
    EscapedText(k);
    TagIsPlain();
    PlainPrefix(HASH_TAG, t);
    SeenKeyIs(k);
    TaggedText(t);
    var rest := t[|HASH_TAG|..];
    EscapeConcat(HASH_TAG, rest);
    EscapePlain(HASH_TAG);
    if h: Hash :| Interpret(t) == Some(HashValue(h)) {
      HexHasNoTag(h);
    }
  }

  lemma EscapedText(k: string)
    requires Escaped(k)
    ensures JsonEscape(KeyText(k)) == k
  {
    EscapeUnescaped(k);
  }

  lemma TagIsPlain()
    ensures Plain(HASH_TAG) && HASH_TAG != ""
  {
  }

  lemma SeenKeyIs(k: string)
    ensures SeenKey(k) == match Interpret(KeyText(k)) case None => None case Some(j) => Some(ToText(j))
    ensures forall t :: ToText(String(t)) == JsonEscape(t)
    ensures forall h: Hash :: ToText(HashValue(h)) == Hex(h)
  {
    hide Interpret, KeyText, Hex;
  }

  lemma TaggedText(t: string)
    requires HASH_TAG <= t
    ensures t == HASH_TAG + t[|HASH_TAG|..]
    ensures Interpret(t) == None || Interpret(t) == Some(String(t[|HASH_TAG|..])) || exists h: Hash :: Interpret(t) == Some(HashValue(h))
  {
    hide Unhex;
  }

  lemma {:induction false} EscapeConcat(a: string, b: string)
    ensures JsonEscape(a + b) == JsonEscape(a) + JsonEscape(b)
  {
    if a == "" {
      assert a + b == b;
    } else {
      EscapeConcat(a[1..], b);
      assert (a + b)[1..] == a[1..] + b;
      Associative(EscapeChar(a[0]), JsonEscape(a[1..]), JsonEscape(b));
    }
  }

  /** Of the tagged keys a longest one. */
  lemma {:induction false} LongestTagged(fs: seq<Field>, i: nat) returns (m: nat)
    requires i < |fs| && HASH_TAG <= fs[i].key
    ensures m < |fs| && HASH_TAG <= fs[m].key
    ensures forall k :: 0 <= k < |fs| && HASH_TAG <= fs[k].key ==> |fs[k].key| <= |fs[m].key|
  {
    m := i;
    var k := 0;
    while k < |fs|
      invariant 0 <= k <= |fs| && m < |fs| && HASH_TAG <= fs[m].key
      invariant forall n :: 0 <= n < k && HASH_TAG <= fs[n].key ==> |fs[n].key| <= |fs[m].key|
    {
      if HASH_TAG <= fs[k].key && |fs[k].key| > |fs[m].key| {
        m := k;
      }
      k := k + 1;
    }
  }

  /** The fields as they are seen, one by one. */
  lemma {:induction false} SeenFieldAt(fs: seq<Field>, depth: nat, ov: Overload, i: nat)
    requires depth > 0 && i < |fs| && SeenFields(DumpMembers(fs, depth), ov).Some?
    ensures var g := SeenFields(DumpMembers(fs, depth), ov).value[i];
            SeenKey(fs[i].key) == Some(g.key) && Seen(DumpDoc(fs[i].value, depth + 1), ov) == Some(g.value)
    decreases fs
  {
    hide SeenKey, Seen, DumpDoc, Pad;
    assert DumpMembers(fs, depth)[1..] == DumpMembers(fs[1..], depth);
    if i > 0 {
      SeenFieldAt(fs[1..], depth, ov, i - 1);
    }
  }

  lemma {:induction false} SeenItemAt(items: seq<Json>, depth: nat, pre: string, ov: Overload, i: nat)
    requires depth > 0 && i < |items| && SeenElems(DumpElems(items, depth, pre), ov).Some?
    ensures Seen(DumpDoc(items[i], depth + 1), ov) == Some(SeenElems(DumpElems(items, depth, pre), ov).value[i])
    decreases items
  {
    hide Seen, DumpDoc;
    assert DumpElems(items, depth, pre)[1..] == DumpElems(items[1..], depth, " ");
    if i > 0 {
      SeenItemAt(items[1..], depth, " ", ov, i - 1);
    }
  }

  /** An object that is seen as itself has no tagged key: the longest one would have to come from a longer one. */
  lemma NoTaggedKey(fs: seq<Field>, depth: nat, ov: Overload, i: nat)
    requires depth > 0 && i < |fs| && FineFields(fs, false)
    requires SeenFields(DumpMembers(fs, depth), ov).Some? && PutAll([], SeenFields(DumpMembers(fs, depth), ov).value) == fs
    ensures !(HASH_TAG <= fs[i].key)
  {
    hide *;
    if HASH_TAG <= fs[i].key {
      var m := LongestTagged(fs, i);
      var gs := SeenFields(DumpMembers(fs, depth), ov).value;
      var n := ComesFrom(gs, fs, m);
      SeenFieldAt(fs, depth, ov, n);
      FineFieldAt(fs, false, n);
      if HASH_TAG <= fs[n].key {
        TaggedKeyShrinks(fs[n].key);
      } else {
        EscapedLasts(fs[n].key);
        LastingKey(fs[n].key);
      }
    }
  }

  lemma EscapedLasts(k: string)
    requires FineKey(k, false) && !(HASH_TAG <= k)
    ensures Lasting(k)
  {
    hide Escaped;
  }

  lemma {:induction false} FineFieldAt(fs: seq<Field>, clean: bool, i: nat)
    requires FineFields(fs, clean) && i < |fs|
    ensures FineKey(fs[i].key, clean) && Escaped(fs[i].key) && Fine(fs[i].value, clean)
  {
    hide Escaped, Fine;
    if i > 0 {
      FineFieldAt(fs[1..], clean, i - 1);
    }
  }

  lemma ComesFrom(gs: seq<Field>, fs: seq<Field>, m: nat) returns (n: nat)
    requires PutAll([], gs) == fs && m < |fs|
    ensures n < |gs| && gs[n].key == fs[m].key
  {
    hide PutAll;
    PutAllKeys([], gs, fs[m].key);
    assert KeyIn(fs, fs[m].key);
    assert !KeyIn([], fs[m].key);
    n :| 0 <= n < |gs| && gs[n].key == fs[m].key;
  }

  lemma {:induction false} SeenIsSound(j: Json, depth: nat, ov: Overload)
    requires depth > 0 && Built(j) && Fine(j, false) && Seen(DumpDoc(j, depth), ov) == Some(j)
    ensures Sound(j, ov)
    decreases j, 0
  {
    hide SeenElems, SeenFields, FineFields, FineItems, BuiltFields, BuiltItems, PutAll, KeysAscend, SoundFields, SoundItems, Pad;
    match j
    case Object(fs) =>
      var gs := SeenFields(DumpMembers(fs, depth), ov).value;
      SeenKeysStay(fs, gs, depth, ov);
      FieldsAreSound(fs, fs, depth, ov);
    case Array(items) =>
      ItemsAreSound(items, items, depth, "", ov);
    case String(t) =>
      if HASH_TAG <= t {
        TaggedIsAltered(t);
      }
    case _ =>
  }

  lemma SeenKeysStay(fs: seq<Field>, gs: seq<Field>, depth: nat, ov: Overload)
    requires depth > 0 && KeysAscend(fs) && FineFields(fs, false)
    requires SeenFields(DumpMembers(fs, depth), ov) == Some(gs) && PutAll([], gs) == fs
    ensures gs == fs && forall i :: 0 <= i < |fs| ==> Lasting(fs[i].key)
  {
    hide *;
    forall i | 0 <= i < |fs| ensures Lasting(fs[i].key) && gs[i].key == fs[i].key {
      NoTaggedKey(fs, depth, ov, i);
      FineFieldAt(fs, false, i);
      EscapedLasts(fs[i].key);
      LastingKey(fs[i].key);
      SeenFieldAt(fs, depth, ov, i);
    }
    SameKeysAscend(fs, gs);
    EmptyLeft(gs);
    PutAllAscending([], gs);
  }

  lemma SameKeysAscend(fs: seq<Field>, gs: seq<Field>)
    requires KeysAscend(fs) && |gs| == |fs| && forall i :: 0 <= i < |fs| ==> gs[i].key == fs[i].key
    ensures KeysAscend([] + gs)
  {
    hide StrLess;
    EmptyLeft(gs);
  }

  lemma {:induction false} FieldsAreSound(fs: seq<Field>, gs: seq<Field>, depth: nat, ov: Overload)
    requires depth > 0 && BuiltFields(fs) && FineFields(fs, false) && gs == fs
    requires SeenFields(DumpMembers(fs, depth), ov) == Some(gs) && forall i :: 0 <= i < |fs| ==> Lasting(fs[i].key)
    ensures SoundFields(fs, ov)
    decreases fs, 1
  {
    hide Seen, SeenKey, Lasting, Sound, Built, Fine, FineKey, Pad, DumpDoc;
    if fs != [] {
      SeenFieldAt(fs, depth, ov, 0);
      SeenIsSound(fs[0].value, depth + 1, ov);
      assert DumpMembers(fs, depth)[1..] == DumpMembers(fs[1..], depth);
      FieldsAreSound(fs[1..], gs[1..], depth, ov);
    }
  }

  lemma {:induction false} ItemsAreSound(items: seq<Json>, vs: seq<Json>, depth: nat, pre: string, ov: Overload)
    requires depth > 0 && BuiltItems(items) && FineItems(items, false) && vs == items
    requires SeenElems(DumpElems(items, depth, pre), ov) == Some(vs)
    ensures SoundItems(items, ov)
    decreases items, 1
  {
    hide Seen, Sound, Built, Fine, DumpDoc;
    if items != [] {
      SeenItemAt(items, depth, pre, ov, 0);
      SeenIsSound(items[0], depth + 1, ov);
      assert DumpElems(items, depth, pre)[1..] == DumpElems(items[1..], depth, " ");
      ItemsAreSound(items[1..], vs[1..], depth, " ", ov);
    }
  }

  // ----- Main results -----

  /** A container that the program can build is read back from its printed text, up to its end, exactly when it is
      sound: no string or key has the hash tag in front, every key is an escaped text, and for the pointer form there is
      no null. */
  lemma LoadDumpExactly(j: Json, rest: string, ov: Overload)
    requires Built(j) && (j.Object? || j.Array?)
    ensures ParseNext(Dump(j, 1) + rest, 0, ov) == Parsed(j, |Dump(j, 1)|) <==> Sound(j, ov)
  {
    hide *;
    var s := Dump(j, 1) + rest;
    if Sound(j, ov) {
      LoadDump(j, rest, ov);
    }
    if ParseNext(s, 0, ov) == Parsed(j, |Dump(j, 1)|) {
      ParsedIsFine(s, 0, ov, 0, false);
      BasicDump(j, 1);
      FlatDump(j, 1);
      AtFront(Dump(j, 1), rest);
      ContainerEnds(s, |Dump(j, 1)|, j, 1);
      ParseLayout(s, 0, DumpDoc(j, 1), ov);
      ReadIsSeen(s, ParseNext(s, 0, ov), |Dump(j, 1)|, Seen(DumpDoc(j, 1), ov), j);
      SeenIsSound(j, 1, ov);
    }
  }

  lemma AtFront(a: string, b: string)
    ensures At(a + b, 0, a)
  {
  }

  lemma ContainerEnds(s: string, e: nat, j: Json, depth: nat)
    requires depth > 0 && (j.Object? || j.Array?)
    ensures Ends(s, e, DumpDoc(j, depth))
  {
  }

  lemma ReadIsSeen(s: string, r: Parse, end: nat, seen: Option<Json>, j: Json)
    requires Outcome(s, r, end, seen) && r == Parsed(j, end)
    ensures seen == Some(j)
  {
  }

  // ----- The stripped text -----

  /** No control character but the newline. */
  predicate Printable(x: string) {
    forall i :: 0 <= i < |x| ==> EscapeChar(x[i]) == [x[i]] || x[i] == '\"' || x[i] == '\\' || x[i] == '\n'
  }

  lemma PrintableConcat(a: string, b: string)
    requires Printable(a) && Printable(b)
    ensures Printable(a + b)
  {
  }

  lemma {:induction false} EscapedPrintable(k: string)
    requires Escaped(k)
    ensures Printable(k)
  {
    if k != "" {
      if k[0] == '\\' && |k| > 1 && k[1] in "\"\\bfnrt" && Escaped(k[2..]) {
        EscapedPrintable(k[2..]);
        assert forall i :: 2 <= i < |k| ==> k[i] == k[2..][i - 2];
      } else {
        EscapedPrintable(k[1..]);
        assert forall i :: 1 <= i < |k| ==> k[i] == k[1..][i - 1];
      }
    }
  }

  lemma {:induction false} PadPrintable(depth: nat)
    ensures Printable(Pad(depth))
  {
    if depth > 0 {
      PadPrintable(depth - 1);
    }
  }

  lemma Symbols()
    ensures Printable("null") && Printable("true") && Printable("false") && Printable("{\n") && Printable("\n") && Printable("}")
    ensures Printable("[") && Printable("]") && Printable("\"") && Printable("\" : ") && Printable(",\n") && Printable(", ") && Printable("")
    ensures Printable(HASH_TAG)
  {
    Letters();
    assert Printable("\"") && Printable("\n");
    PrintableConcat("{", "\n");
    PrintableConcat(",", "\n");
    PrintableConcat("\"", " : ");
    assert "{\n" == "{" + "\n" && ",\n" == "," + "\n" && "\" : " == "\"" + " : ";
  }

  lemma Letters()
    ensures Printable("null") && Printable("true") && Printable("false") && Printable("{") && Printable("}")
    ensures Printable("[") && Printable("]") && Printable(" : ") && Printable(",") && Printable(", ") && Printable("")
    ensures Printable(HASH_TAG)
  {
    hide Printable;
    Words();
    Marks();
    TagIsPlain();
    PlainPrintable(HASH_TAG);
  }

  lemma Words()
    ensures Printable("null") && Printable("true") && Printable("false")
  {
    hide Printable;
    assert Plain("null");
    assert Plain("true");
    assert Plain("false");
    PlainPrintable("null");
    PlainPrintable("true");
    PlainPrintable("false");
  }

  lemma Marks()
    ensures Printable("{") && Printable("}") && Printable("[") && Printable("]") && Printable(",") && Printable("")
    ensures Printable(" : ") && Printable(", ")
  {
  }

  lemma PlainPrintable(x: string)
    requires Plain(x)
    ensures Printable(x)
  {
  }

  lemma {:induction false} DumpPrintable(j: Json, depth: nat)
    requires depth > 0 && Fine(j, false)
    ensures Printable(Dump(j, depth))
    decreases j, 0
  {
    hide Printable, Pad, Hex, JsonEscape, IntText, Escaped, DumpFields, DumpItems;
    Symbols();
    match j
    case Object(fs) =>
      FieldsPrintable(fs, depth);
      PadPrintable(depth - 1);
      PrintableConcat("{\n", DumpFields(fs, depth));
      PrintableConcat("{\n" + DumpFields(fs, depth), "\n");
      PrintableConcat("{\n" + DumpFields(fs, depth) + "\n", Pad(depth - 1));
      PrintableConcat("{\n" + DumpFields(fs, depth) + "\n" + Pad(depth - 1), "}");
    case Array(items) =>
      ItemsPrintable(items, depth);
      PrintableConcat("[", DumpItems(items, depth));
      PrintableConcat("[" + DumpItems(items, depth), "]");
    case HashValue(h) =>
      HexIsPlain(Hex(h));
      PlainPrintable(Hex(h));
      PrintableConcat("\"", HASH_TAG);
      PrintableConcat("\"" + HASH_TAG, Hex(h));
      PrintableConcat("\"" + HASH_TAG + Hex(h), "\"");
    case String(t) =>
      EscapeIsEscaped(t);
      EscapedPrintable(JsonEscape(t));
      PrintableConcat("\"", JsonEscape(t));
      PrintableConcat("\"" + JsonEscape(t), "\"");
    case Integral(n) =>
      NumberIsPlain(n);
      PlainPrintable(IntText(n));
    case _ =>
  }

  lemma {:induction false} FieldsPrintable(fs: seq<Field>, depth: nat)
    requires depth > 0 && FineFields(fs, false)
    ensures Printable(DumpFields(fs, depth))
    decreases fs, 1
  {
    hide Printable, Pad, Dump, Escaped, Fine;
    Symbols();
    if fs != [] {
      var p, k, v := Pad(depth), fs[0].key, Dump(fs[0].value, depth + 1);
      DumpPrintable(fs[0].value, depth + 1);
      PadPrintable(depth);
      EscapedPrintable(k);
      PrintableConcat(p, "\"");
      PrintableConcat(p + "\"", k);
      PrintableConcat(p + "\"" + k, "\" : ");
      PrintableConcat(p + "\"" + k + "\" : ", v);
      if |fs| == 1 {
        PrintableConcat(p + "\"" + k + "\" : " + v, "");
      } else {
        FieldsPrintable(fs[1..], depth);
        PrintableConcat(",\n", DumpFields(fs[1..], depth));
        PrintableConcat(p + "\"" + k + "\" : " + v, ",\n" + DumpFields(fs[1..], depth));
      }
    }
  }

  lemma {:induction false} ItemsPrintable(items: seq<Json>, depth: nat)
    requires depth > 0 && FineItems(items, false)
    ensures Printable(DumpItems(items, depth))
    decreases items, 1
  {
    hide Printable, Dump, Fine;
    Symbols();
    if items != [] {
      var v := Dump(items[0], depth + 1);
      DumpPrintable(items[0], depth + 1);
      if |items| == 1 {
        PrintableConcat(v, "");
      } else {
        ItemsPrintable(items[1..], depth);
        PrintableConcat(", ", DumpItems(items[1..], depth));
        PrintableConcat(v, ", " + DumpItems(items[1..], depth));
      }
    }
  }

  lemma {:induction false} RemovedFrom(s: string, c: char)
    ensures forall x <- RemoveChar(s, c) :: x in s
  {
    if s != "" {
      RemovedFrom(s[1..], c);
    }
  }

  lemma StripClears(x: string, rest: string)
    requires Printable(x)
    ensures ClearUpTo(Strip(x) + rest, |Strip(x)|)
  {
    var a := RemoveChar(x, '\n');
    var b := RemoveChar(a, '\\');
    var c := RemoveChar(b, ' ');
    RemovedFrom(x, '\n');
    RemovedFrom(a, '\\');
    RemovedFrom(b, ' ');
    hide RemoveChar;
    forall i | 0 <= i < |c| ensures Clear((c + rest)[i]) {
      assert c[i] in c && c[i] in b && c[i] in a && c[i] in x;
    }
  }

  lemma {:induction false} CleanIsStrippable(j: Json)
    requires Fine(j, true)
    ensures Strippable(j)
    decreases j, 0
  {
    match j
    case Object(fs) => CleanFieldsStrippable(fs);
    case Array(items) => CleanItemsStrippable(items);
    case _ =>
  }

  lemma {:induction false} CleanFieldsStrippable(fs: seq<Field>)
    requires FineFields(fs, true)
    ensures StrippableFields(fs)
    decreases fs, 1
  {
    if fs != [] {
      CleanIsStrippable(fs[0].value);
      CleanFieldsStrippable(fs[1..]);
    }
  }

  lemma {:induction false} CleanItemsStrippable(items: seq<Json>)
    requires FineItems(items, true)
    ensures StrippableItems(items)
    decreases items, 1
  {
    if items != [] {
      CleanIsStrippable(items[0]);
      CleanItemsStrippable(items[1..]);
    }
  }

  lemma {:induction false} SqueezeSeen(d: Doc, ov: Overload)
    requires Basic(d)
    ensures Basic(Squeeze(d)) && Seen(Squeeze(d), ov) == Seen(d, ov)
    decreases d, 0
  {
    match d
    case DArr(es, _) => SqueezeElemsSeen(es, ov);
    case DObj(ms, _) => SqueezeMembersSeen(ms, ov);
    case _ =>
  }

  lemma {:induction false} SqueezeElemsSeen(es: seq<Elem>, ov: Overload)
    requires BasicElems(es)
    ensures BasicElems(SqueezeElems(es)) && SeenElems(SqueezeElems(es), ov) == SeenElems(es, ov)
    decreases es, 1
  {
    if es != [] {
      SqueezeSeen(es[0].doc, ov);
      SqueezeElemsSeen(es[1..], ov);
      assert SqueezeElems(es)[1..] == SqueezeElems(es[1..]);
    }
  }

  lemma {:induction false} SqueezeMembersSeen(ms: seq<Member>, ov: Overload)
    requires BasicMembers(ms)
    ensures BasicMembers(SqueezeMembers(ms)) && SeenFields(SqueezeMembers(ms), ov) == SeenFields(ms, ov)
    decreases ms, 1
  {
    hide SeenKey, Escaped;
    if ms != [] {
      SqueezeSeen(ms[0].doc, ov);
      SqueezeMembersSeen(ms[1..], ov);
      assert SqueezeMembers(ms)[1..] == SqueezeMembers(ms[1..]);
    }
  }

  /** After the three remove_char calls it is read back exactly when it is sound and no text in it holds a blank or a
      character that is escaped. */
  lemma LoadStrippedDumpExactly(j: Json, rest: string, ov: Overload)
    requires Built(j) && (j.Object? || j.Array?)
    ensures ParseNext(Strip(Dump(j, 1)) + rest, 0, ov) == Parsed(j, |Strip(Dump(j, 1))|) <==> Sound(j, ov) && Strippable(j)
  {
    hide *;
    var t := Strip(Dump(j, 1));
    var s := t + rest;
    if Sound(j, ov) && Strippable(j) {
      LoadStrippedDump(j, rest, ov);
    }
    if ParseNext(s, 0, ov) == Parsed(j, |t|) {
      ParsedIsFine(s, 0, ov, 0, false);
      DumpPrintable(j, 1);
      StripClears(Dump(j, 1), rest);
      ParsedIsFine(s, 0, ov, |t|, true);
      CleanIsStrippable(j);
      LooseDump(j, 1);
      FlatDump(j, 1);
      var d := DumpDoc(j, 1);
      StripFlat(d);
      BasicDump(j, 1);
      SqueezeSeen(d, ov);
      AtFront(t, rest);
      SqueezedEnds(s, |t|, j, 1);
      ParseLayout(s, 0, Squeeze(d), ov);
      ReadIsSeen(s, ParseNext(s, 0, ov), |t|, Seen(d, ov), j);
      SeenIsSound(j, 1, ov);
    }
  }

  lemma SqueezedEnds(s: string, e: nat, j: Json, depth: nat)
    requires depth > 0 && (j.Object? || j.Array?)
    ensures Ends(s, e, Squeeze(DumpDoc(j, depth)))
  {
  }
}
