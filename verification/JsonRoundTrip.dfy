/** Load inverts dump, before and after the blanks are stripped. */
module JsonRoundTrip {
  import opened Bytes
  import opened Text
  import opened Json
  import opened JsonLayout

  /** The values the printer and the parser agree on. */
  ghost predicate Sound(j: Json, ov: Overload)
    decreases j, 0
  {
    match j
    case Null => ov.OfString?
    case Object(fs) => KeysAscend(fs) && SoundFields(fs, ov)
    case Array(items) => SoundItems(items, ov)
    case String(t) => !(HASH_TAG <= t)
    case Integral(n) => Int64(n)
    case _ => true
  }

  ghost predicate SoundFields(fs: seq<Field>, ov: Overload)
    decreases fs, 1
  {
    fs == [] || (Lasting(fs[0].key) && Sound(fs[0].value, ov) && SoundFields(fs[1..], ov))
  }

  ghost predicate SoundItems(items: seq<Json>, ov: Overload)
    decreases items, 1
  {
    items == [] || (Sound(items[0], ov) && SoundItems(items[1..], ov))
  }

  // ----- The layout dump chooses -----

  function DumpDoc(j: Json, depth: nat): Doc
    requires depth > 0
    decreases j, 0
  {
    match j
    case Null => DNull
    case Object(fs) => DObj(DumpMembers(fs, depth), "\n\n" + Pad(depth - 1))
    case Array(items) => DArr(DumpElems(items, depth, ""), "")
    case HashValue(h) => DHash(h)
    case String(t) => DStr(t)
    case Integral(n) => DInt(n)
    case Boolean(b) => DBool(b)
  }

  function DumpMembers(fs: seq<Field>, depth: nat): (ms: seq<Member>)
    requires depth > 0
    ensures |ms| == |fs|
    decreases fs, 1
  {
    if fs == [] then []
    else [Member("\n" + Pad(depth), fs[0].key, " ", " ", DumpDoc(fs[0].value, depth + 1),
                 if |fs| == 1 then "\n" + Pad(depth - 1) else "")] + DumpMembers(fs[1..], depth)
  }

  function DumpElems(items: seq<Json>, depth: nat, pre: string): (es: seq<Elem>)
    requires depth > 0
    ensures |es| == |items|
    decreases items, 1
  {
    if items == [] then [] else [Elem(pre, DumpDoc(items[0], depth + 1), "")] + DumpElems(items[1..], depth, " ")
  }

  lemma {:induction false} PadBlank(depth: nat)
    ensures Blank(Pad(depth)) && SpacesOnly(Pad(depth))
  {
    if depth > 0 {
      PadBlank(depth - 1);
    }
  }

  lemma {:induction false} FlatDump(j: Json, depth: nat)
    requires depth > 0
    ensures Flat(DumpDoc(j, depth)) == Dump(j, depth)
    decreases j, 0
  {
    match j
    case Object(fs) =>
      if fs == [] {
        EmptyObjectText(Pad(depth - 1));
      } else {
        FlatDumpMembers(fs, depth);
        ObjectText(DumpFields(fs, depth), Pad(depth - 1));
      }
    case Array(items) =>
      if items != [] {
        FlatDumpElems(items, depth, "");
        ArrayText(DumpItems(items, depth));
      }
    case _ =>
  }

  lemma EmptyObjectText(p: string)
    ensures "{" + (("\n\n" + p) + "}") == "{\n" + "" + "\n" + p + "}"
  {
  }

  lemma ObjectText(body: string, p: string)
    ensures "{" + ("\n" + body + "\n" + p + "}") == "{\n" + body + "\n" + p + "}"
  {
  }

  lemma ArrayText(body: string)
    ensures "[" + ("" + body + "]") == "[" + body + "]"
  {
  }

  lemma FieldsText(head: string, rest: string, p: string)
    ensures ("\n" + head + "") + ("," + ("\n" + rest + "\n" + p + "}"))
         == "\n" + (head + (",\n" + rest)) + "\n" + p + "}"
  {
    assert ",\n" == "," + "\n";
    var tail := "\n" + p + "}";
    assert ("\n" + head + "") == "\n" + head;
    assert "\n" + rest + "\n" + p + "}" == "\n" + rest + tail;
    assert "\n" + (head + (",\n" + rest)) + "\n" + p + "}" == "\n" + (head + (",\n" + rest)) + tail;
  }

  lemma LastFieldText(head: string, p: string)
    ensures ("\n" + head + ("\n" + p)) + "}" == "\n" + head + "\n" + p + "}"
  {
  }

  lemma {:induction false} FlatDumpMembers(fs: seq<Field>, depth: nat)
    requires depth > 0 && fs != []
    ensures FlatMembers(DumpMembers(fs, depth)) == "\n" + DumpFields(fs, depth) + "\n" + Pad(depth - 1) + "}"
    decreases fs, 1
  {
    FlatDump(fs[0].value, depth + 1);
    hide Dump, DumpDoc, FlatMember, Pad;
    var ms := DumpMembers(fs, depth);
    var head := Pad(depth) + "\"" + fs[0].key + "\" : " + Dump(fs[0].value, depth + 1);
    FlatMemberOfDump(fs[0].key, fs[0].value, depth, ms[0].post);
    if |fs| == 1 {
      assert DumpFields(fs, depth) == head + "" == head;
      LastFieldText(head, Pad(depth - 1));
    } else {
      FlatDumpMembers(fs[1..], depth);
      assert ms[1..] == DumpMembers(fs[1..], depth);
      FieldsText(head, DumpFields(fs[1..], depth), Pad(depth - 1));
    }
  }

  lemma FlatMemberOfDump(key: string, value: Json, depth: nat, post: string)
    requires depth > 0 && Flat(DumpDoc(value, depth + 1)) == Dump(value, depth + 1)
    ensures FlatMember(Member("\n" + Pad(depth), key, " ", " ", DumpDoc(value, depth + 1), post))
         == "\n" + (Pad(depth) + "\"" + key + "\" : " + Dump(value, depth + 1)) + post
  {
    hide Dump, DumpDoc, Flat, Pad;
    var p, v := Pad(depth), Dump(value, depth + 1);
    assert ("\n" + p) + "\"" + key + "\"" + " " + ":" + " " + v == "\n" + (p + "\"" + key + "\" : " + v);
  }

  lemma ItemsText(pre: string, head: string, rest: string)
    ensures (pre + head + "") + ("," + (" " + rest + "]")) == pre + (head + (", " + rest)) + "]"
  {
    assert ", " + rest == "," + (" " + rest);
  }

  lemma {:induction false} FlatDumpElems(items: seq<Json>, depth: nat, pre: string)
    requires depth > 0 && items != []
    ensures FlatElems(DumpElems(items, depth, pre)) == pre + DumpItems(items, depth) + "]"
    decreases items, 1
  {
    FlatDump(items[0], depth + 1);
    hide Dump, DumpDoc, Flat;
    var es := DumpElems(items, depth, pre);
    var head := Dump(items[0], depth + 1);
    if |items| == 1 {
      assert DumpItems(items, depth) == head;
    } else {
      FlatDumpElems(items[1..], depth, " ");
      assert es[1..] == DumpElems(items[1..], depth, " ");
      var rest := DumpItems(items[1..], depth);
      ItemsText(pre, head, rest);
    }
  }

  lemma {:induction false} ValueDump(j: Json, depth: nat, ov: Overload)
    requires depth > 0 && Sound(j, ov)
    ensures Value(DumpDoc(j, depth)) == j && Good(DumpDoc(j, depth), ov)
    decreases j, 0
  {
    hide Pad, Blank, PutAll;
    match j
    case Object(fs) =>
      PadBlank(depth - 1);
      BlankInner(Pad(depth - 1));
      ValueDumpMembers(fs, depth, ov);
      assert [] + fs == fs;
      PutAllAscending([], fs);
    case Array(items) =>
      PadBlank(0);
      BlankInner(Pad(0));
      ValueDumpElems(items, depth, "", ov);
    case _ =>
  }

  lemma BlankInner(p: string)
    requires Blank(p)
    ensures Blank("\n\n" + p) && Blank("")
  {
  }

  lemma {:induction false} ValueDumpMembers(fs: seq<Field>, depth: nat, ov: Overload)
    requires depth > 0 && SoundFields(fs, ov)
    ensures MemberValues(DumpMembers(fs, depth)) == fs && GoodMembers(DumpMembers(fs, depth), ov)
    decreases fs, 1
  {
    if fs != [] {
      ValueDump(fs[0].value, depth + 1, ov);
      PadBlank(depth);
      PadBlank(depth - 1);
      ValueDumpMembers(fs[1..], depth, ov);
      assert DumpMembers(fs, depth)[1..] == DumpMembers(fs[1..], depth);
      assert fs == [fs[0]] + fs[1..];
    }
  }

  lemma {:induction false} ValueDumpElems(items: seq<Json>, depth: nat, pre: string, ov: Overload)
    requires depth > 0 && SoundItems(items, ov) && Blank(pre)
    ensures ElemValues(DumpElems(items, depth, pre)) == items && GoodElems(DumpElems(items, depth, pre), ov)
    decreases items, 1
  {
    if items != [] {
      ValueDump(items[0], depth + 1, ov);
      ValueDumpElems(items[1..], depth, " ", ov);
      assert DumpElems(items, depth, pre)[1..] == DumpElems(items[1..], depth, " ");
      assert items == [items[0]] + items[1..];
    }
  }

  // ----- Stripping blanks -----

  /** The three remove_char calls every stored text goes through. */
  function Strip(s: string): string {
    RemoveChar(RemoveChar(RemoveChar(s, '\n'), '\\'), ' ')
  }

  lemma StripConcat(a: string, b: string)
    ensures Strip(a + b) == Strip(a) + Strip(b)
  {
    RemoveCharConcat(a, b, '\n');
    RemoveCharConcat(RemoveChar(a, '\n'), RemoveChar(b, '\n'), '\\');
    RemoveCharConcat(RemoveChar(RemoveChar(a, '\n'), '\\'), RemoveChar(RemoveChar(b, '\n'), '\\'), ' ');
  }

  predicate Solid(s: string) {
    '\n' !in s && '\\' !in s && ' ' !in s
  }

  predicate SpacesOnly(s: string) {
    forall i :: 0 <= i < |s| ==> s[i] == ' ' || s[i] == '\n'
  }

  lemma StripSolid(s: string)
    requires Solid(s)
    ensures Strip(s) == s
  {
    RemoveCharAbsent(s, '\n');
    RemoveCharAbsent(s, '\\');
    RemoveCharAbsent(s, ' ');
  }

  lemma {:induction false} StripSpaces(s: string)
    requires SpacesOnly(s)
    ensures Strip(s) == ""
  {
    if s != "" {
      StripSpaces(s[1..]);
      assert s == [s[0]] + s[1..];
      StripConcat([s[0]], s[1..]);
      StripOneSpace(s[0]);
    }
  }

  lemma StripOneSpace(c: char)
    requires c == ' ' || c == '\n'
    ensures Strip([c]) == ""
  {
    assert RemoveChar("", '\\') == "" && RemoveChar("", ' ') == "";
    if c == '\n' {
      assert RemoveChar([c], '\n') == RemoveChar([c][1..], '\n') == "";
    } else {
      RemoveCharAbsent([c], '\n');
      RemoveCharAbsent([c], '\\');
      assert RemoveChar([c], ' ') == RemoveChar([c][1..], ' ') == "";
    }
  }

  function Squeeze(d: Doc): Doc
    decreases d, 0
  {
    match d
    case DArr(es, _) => DArr(SqueezeElems(es), "")
    case DObj(ms, _) => DObj(SqueezeMembers(ms), "")
    case _ => d
  }

  function SqueezeElems(es: seq<Elem>): (r: seq<Elem>)
    ensures |r| == |es|
    decreases es, 1
  {
    if es == [] then [] else [Elem("", Squeeze(es[0].doc), "")] + SqueezeElems(es[1..])
  }

  function SqueezeMembers(ms: seq<Member>): (r: seq<Member>)
    ensures |r| == |ms|
    decreases ms, 1
  {
    if ms == [] then [] else [Member("", ms[0].key, "", "", Squeeze(ms[0].doc), "")] + SqueezeMembers(ms[1..])
  }

  /** Layouts the stripping leaves readable: blanks are spaces and newlines, texts contain neither
      blanks nor characters that are escaped. */
  predicate Loose(d: Doc)
    decreases d, 0
  {
    match d
    case DStr(t) => Plain(t) && Solid(t)
    case DArr(es, w) => SpacesOnly(w) && LooseElems(es)
    case DObj(ms, w) => SpacesOnly(w) && LooseMembers(ms)
    case _ => true
  }

  predicate LooseElems(es: seq<Elem>)
    decreases es, 1
  {
    es == [] || (SpacesOnly(es[0].pre) && Loose(es[0].doc) && SpacesOnly(es[0].post) && LooseElems(es[1..]))
  }

  predicate LooseMembers(ms: seq<Member>)
    decreases ms, 1
  {
    ms == [] || (LooseMember(ms[0]) && LooseMembers(ms[1..]))
  }

  predicate LooseMember(m: Member)
    decreases m, 1
  {
    SpacesOnly(m.pre) && SpacesOnly(m.mid) && SpacesOnly(m.sep) && SpacesOnly(m.post) && Solid(m.key) && Loose(m.doc)
  }

  lemma SolidScalar(d: Doc)
    requires Loose(d) && !d.DArr? && !d.DObj?
    ensures Solid(Flat(d))
  {
    match d
    case DHash(h) =>
      assert Solid(HASH_TAG) && Solid(Hex(h));
    case DStr(t) =>
      EscapePlain(t);
    case _ =>
  }

  lemma {:induction false} StripFlat(d: Doc)
    requires Loose(d)
    ensures Strip(Flat(d)) == Flat(Squeeze(d))
    decreases d, 0
  {
    match d
    case DArr(es, w) =>
      StripSolid("[");
      if es == [] {
        StripConcat("[", w + "]");
        StripConcat(w, "]");
        StripSpaces(w);
        StripSolid("]");
      } else {
        StripConcat("[", FlatElems(es));
        StripElems(es);
      }
    case DObj(ms, w) =>
      StripSolid("{");
      if ms == [] {
        StripConcat("{", w + "}");
        StripConcat(w, "}");
        StripSpaces(w);
        StripSolid("}");
      } else {
        StripConcat("{", FlatMembers(ms));
        StripMembers(ms);
      }
    case _ =>
      SolidScalar(d);
      StripSolid(Flat(d));
  }

  lemma StripAround(pre: string, body: string, post: string)
    requires SpacesOnly(pre) && SpacesOnly(post)
    ensures Strip(pre + body + post) == Strip(body)
  {
    StripConcat(pre + body, post);
    StripConcat(pre, body);
    StripSpaces(pre);
    StripSpaces(post);
  }

  lemma {:induction false} StripElems(es: seq<Elem>)
    requires es != [] && LooseElems(es)
    ensures Strip(FlatElems(es)) == FlatElems(SqueezeElems(es))
    decreases es, 1
  {
    hide Flat, Strip, Squeeze, Loose;
    var e := es[0];
    var body := e.pre + Flat(e.doc) + e.post;
    StripFlat(e.doc);
    StripAround(e.pre, Flat(e.doc), e.post);
    var sq := SqueezeElems(es);
    assert "" + Flat(sq[0].doc) + "" == Flat(sq[0].doc);
    if |es| == 1 {
      StripConcat(body, "]");
      StripSolid("]");
    } else {
      StripElems(es[1..]);
      assert sq[1..] == SqueezeElems(es[1..]);
      StripConcat(body, "," + FlatElems(es[1..]));
      StripConcat(",", FlatElems(es[1..]));
      StripSolid(",");
    }
  }

  lemma {:induction false} StripMember(m: Member)
    requires LooseMember(m)
    ensures Strip(FlatMember(m)) == "\"" + m.key + "\":" + Flat(Squeeze(m.doc))
    decreases m, 1
  {
    hide Flat, Strip, Squeeze, Loose;
    var quoted := "\"" + m.key + "\"";
    assert Solid(quoted);
    StripSolid(quoted);
    StripSolid(":");
    StripFlat(m.doc);
    StripAround(m.pre, quoted, m.mid);
    StripAround(m.sep, Flat(m.doc), m.post);
    var left, right := m.pre + quoted + m.mid, m.sep + Flat(m.doc) + m.post;
    assert FlatMember(m) == left + ":" + right;
    StripConcat(left + ":", right);
    StripConcat(left, ":");
    assert quoted + ":" == "\"" + m.key + "\":";
  }

  lemma SqueezedMember(m: Member)
    ensures FlatMember(Member("", m.key, "", "", Squeeze(m.doc), "")) == "\"" + m.key + "\":" + Flat(Squeeze(m.doc))
  {
  }

  lemma {:induction false} StripMembers(ms: seq<Member>)
    requires ms != [] && LooseMembers(ms)
    ensures Strip(FlatMembers(ms)) == FlatMembers(SqueezeMembers(ms))
    decreases ms, 2
  {
    hide Flat, FlatMember, Strip, Squeeze, Loose, LooseMember;
    StripMember(ms[0]);
    SqueezedMember(ms[0]);
    var sq := SqueezeMembers(ms);
    if |ms| == 1 {
      StripConcat(FlatMember(ms[0]), "}");
      StripSolid("}");
    } else {
      StripMembers(ms[1..]);
      assert sq[1..] == SqueezeMembers(ms[1..]);
      StripConcat(FlatMember(ms[0]), "," + FlatMembers(ms[1..]));
      StripConcat(",", FlatMembers(ms[1..]));
      StripSolid(",");
    }
  }

  /** Squeezing keeps the value and stays readable. */
  lemma {:induction false} SqueezeKeeps(d: Doc, ov: Overload)
    requires Good(d, ov)
    ensures Value(Squeeze(d)) == Value(d) && Good(Squeeze(d), ov)
    decreases d, 0
  {
    match d
    case DArr(es, _) => SqueezeKeepsElems(es, ov);
    case DObj(ms, _) => SqueezeKeepsMembers(ms, ov);
    case _ =>
  }

  lemma {:induction false} SqueezeKeepsElems(es: seq<Elem>, ov: Overload)
    requires GoodElems(es, ov)
    ensures ElemValues(SqueezeElems(es)) == ElemValues(es) && GoodElems(SqueezeElems(es), ov)
    decreases es, 1
  {
    if es != [] {
      SqueezeKeeps(es[0].doc, ov);
      SqueezeKeepsElems(es[1..], ov);
      assert SqueezeElems(es)[1..] == SqueezeElems(es[1..]);
    }
  }

  lemma {:induction false} SqueezeKeepsMembers(ms: seq<Member>, ov: Overload)
    requires GoodMembers(ms, ov)
    ensures MemberValues(SqueezeMembers(ms)) == MemberValues(ms) && GoodMembers(SqueezeMembers(ms), ov)
    decreases ms, 1
  {
    if ms != [] {
      SqueezeKeeps(ms[0].doc, ov);
      SqueezeKeepsMembers(ms[1..], ov);
      assert SqueezeMembers(ms)[1..] == SqueezeMembers(ms[1..]);
    }
  }

  /** No text needs an escape or contains a space. */
  ghost predicate Strippable(j: Json)
    decreases j, 0
  {
    match j
    case Object(fs) => StrippableFields(fs)
    case Array(items) => StrippableItems(items)
    case String(t) => Plain(t) && Solid(t)
    case _ => true
  }

  ghost predicate StrippableFields(fs: seq<Field>)
    decreases fs, 1
  {
    fs == [] || (Solid(fs[0].key) && Strippable(fs[0].value) && StrippableFields(fs[1..]))
  }

  ghost predicate StrippableItems(items: seq<Json>)
    decreases items, 1
  {
    items == [] || (Strippable(items[0]) && StrippableItems(items[1..]))
  }

  lemma {:induction false} LooseDump(j: Json, depth: nat)
    requires depth > 0 && Strippable(j)
    ensures Loose(DumpDoc(j, depth))
    decreases j, 0
  {
    hide Pad, SpacesOnly;
    SpacesOnlyTexts(Pad(depth - 1));
    match j
    case Object(fs) =>
      PadBlank(depth - 1);
      LooseDumpMembers(fs, depth);
    case Array(items) =>
      LooseDumpElems(items, depth, "");
    case _ =>
  }

  lemma SpacesOnlyTexts(p: string)
    ensures SpacesOnly("") && SpacesOnly(" ")
    ensures SpacesOnly(p) ==> SpacesOnly("\n\n" + p) && SpacesOnly("\n" + p)
  {
  }

  lemma {:induction false} LooseDumpMembers(fs: seq<Field>, depth: nat)
    requires depth > 0 && StrippableFields(fs)
    ensures LooseMembers(DumpMembers(fs, depth))
    decreases fs, 1
  {
    hide Pad, SpacesOnly, DumpDoc, Loose;
    if fs != [] {
      LooseDump(fs[0].value, depth + 1);
      PadBlank(depth);
      PadBlank(depth - 1);
      SpacesOnlyTexts(Pad(depth));
      SpacesOnlyTexts(Pad(depth - 1));
      LooseDumpMembers(fs[1..], depth);
      assert DumpMembers(fs, depth)[1..] == DumpMembers(fs[1..], depth);
    }
  }

  lemma {:induction false} LooseDumpElems(items: seq<Json>, depth: nat, pre: string)
    requires depth > 0 && StrippableItems(items) && SpacesOnly(pre)
    ensures LooseElems(DumpElems(items, depth, pre))
    decreases items, 1
  {
    if items != [] {
      LooseDump(items[0], depth + 1);
      LooseDumpElems(items[1..], depth, " ");
      assert DumpElems(items, depth, pre)[1..] == DumpElems(items[1..], depth, " ");
    }
  }

  // ----- Keys that are words, objects field by field -----

  predicate Word(k: string) {
    k != "" && forall i :: 0 <= i < |k| ==> 'a' <= k[i] <= 'z' || k[i] == '_'
  }

  lemma WordIsFine(k: string)
    requires Word(k)
    ensures Lasting(k) && Solid(k)
  {
    assert k[0] != HASH_TAG[0];
    PlainLasts(k);
  }

  lemma SoundCons(f: Field, fs: seq<Field>, ov: Overload)
    requires Word(f.key) && Sound(f.value, ov) && SoundFields(fs, ov)
    ensures SoundFields([f] + fs, ov)
  {
    hide Sound, Word;
    WordIsFine(f.key);
    assert ([f] + fs)[1..] == fs;
  }

  lemma StrippableCons(f: Field, fs: seq<Field>)
    requires Word(f.key) && Strippable(f.value) && StrippableFields(fs)
    ensures StrippableFields([f] + fs)
  {
    hide Strippable, Word;
    WordIsFine(f.key);
    assert ([f] + fs)[1..] == fs;
  }

  lemma {:induction false} SharedPrefix(p: string, a: string, b: string)
    requires a != "" && b != "" && a[0] < b[0]
    ensures StrLess(p + a, p + b)
  {
    if p == "" {
      assert p + a == a && p + b == b;
    } else {
      SharedPrefix(p[1..], a, b);
      assert (p + a)[1..] == p[1..] + a && (p + b)[1..] == p[1..] + b;
    }
  }

  // ----- Main results -----

  /** A container is read back from its printed text, whatever memory follows it: the parser stops
      at the closing character, so neither overload reads past the text. */
  lemma LoadDump(j: Json, rest: string, ov: Overload)
    requires Sound(j, ov) && (j.Object? || j.Array?)
    ensures ParseNext(Dump(j, 1) + rest, 0, ov) == Parsed(j, |Dump(j, 1)|)
  {
    FlatDump(j, 1);
    ValueDump(j, 1, ov);
    LoadFlat(DumpDoc(j, 1), rest, ov);
  }

  lemma LoadFlat(d: Doc, rest: string, ov: Overload)
    requires Good(d, ov) && !d.DInt?
    ensures ParseNext(Flat(d) + rest, 0, ov) == Parsed(Value(d), |Flat(d)|)
  {
    assert At(Flat(d) + rest, 0, Flat(d));
    ParseDoc(Flat(d) + rest, 0, d, ov);
  }

  /** The same after the three remove_char calls, when no text contains a space or an escaped character. */
  lemma LoadStrippedDump(j: Json, rest: string, ov: Overload)
    requires Sound(j, ov) && Strippable(j) && (j.Object? || j.Array?)
    ensures ParseNext(Strip(Dump(j, 1)) + rest, 0, ov) == Parsed(j, |Strip(Dump(j, 1))|)
  {
    var d := DumpDoc(j, 1);
    FlatDump(j, 1);
    ValueDump(j, 1, ov);
    LooseDump(j, 1);
    StripFlat(d);
    SqueezeKeeps(d, ov);
    LoadFlat(Squeeze(d), rest, ov);
  }

  /** A string survives exactly when it does not start with the hash tag. */
  lemma StringSurvives(t: string, depth: nat, rest: string, ov: Overload)
    requires depth > 0
    ensures ParseNext(Dump(String(t), depth) + rest, 0, ov) == Parsed(String(t), |Dump(String(t), depth)|)
       <==> !(HASH_TAG <= t)
  {
    var s := Quoted(t) + rest;
    assert At(s, 0, Quoted(t));
    if HASH_TAG <= t {
      ScanEscaped(s, 1, t, "") by {
        assert Quoted(t) == "\"" + (JsonEscape(t) + "\"");
        AtConcat(s, 0, "\"", JsonEscape(t) + "\"");
      }
      assert "" + t == t && s[0] == '\"';
      TaggedIsAltered(t);
    } else {
      LoadFlat(DStr(t), rest, ov);
    }
  }

  lemma TaggedIsAltered(t: string)
    requires HASH_TAG <= t
    ensures Interpret(t) != Some(String(t))
  {
    assert |t[|HASH_TAG|..]| < |t|;
  }

  lemma {:induction false} EscapeGrows(k: string)
    ensures |JsonEscape(k)| >= |k|
    ensures |JsonEscape(k)| == |k| <==> Plain(k)
  {
    if k != "" {
      EscapeGrows(k[1..]);
      assert k == [k[0]] + k[1..];
      assert Plain(k) <==> EscapeChar(k[0]) == [k[0]] && Plain(k[1..]);
      assert |EscapeChar(k[0])| == 1 <==> EscapeChar(k[0]) == [k[0]];
    }
  }

  lemma {:induction false} ScanRaw(s: string, i: nat, k: string, val: string)
    requires At(s, i, k + "\"") && '\"' !in k && '\\' !in k
    ensures ScanString(s, i, val) == Closed(val + k, i + |k| + 1)
    decreases |k|
  {
    AtIndex(s, i, k + "\"", 0);
    if k == "" {
      assert val + k == val;
    } else {
      assert k + "\"" == [k[0]] + (k[1..] + "\"");
      AtConcat(s, i, [k[0]], k[1..] + "\"");
      ScanRaw(s, i + 1, k[1..], val + [k[0]]);
      assert (val + [k[0]]) + k[1..] == val + k;
    }
  }

  lemma ParseRawKey(s: string, o: nat, k: string, ov: Overload)
    requires '\"' !in k && '\\' !in k && !(HASH_TAG <= k)
    requires At(s, o, "\"" + k + "\"")
    ensures ParseNext(s, o, ov) == Parsed(String(k), o + |k| + 2)
  {
    hide ScanString, At;
    assert "\"" + k + "\"" == "\"" + (k + "\"");
    AtConcat(s, o, "\"", k + "\"");
    AtIndex(s, o, "\"", 0);
    ScanRaw(s, o + 1, k, "");
    EmptyLeft(k);
    assert SkipWs(s, o) == o;
  }

  /** A key is printed raw but read through ToString, which escapes it: of the keys without quote,
      backslash and tag, exactly the plain ones survive. */
  lemma RawKeySurvives(k: string, s: string, o: nat, ov: Overload)
    requires '\"' !in k && '\\' !in k && !(HASH_TAG <= k)
    requires At(s, o, "\"" + k + "\"")
    ensures ParseNext(s, o, ov) == Parsed(String(k), o + |k| + 2)
    ensures ToText(String(k)) == k <==> Plain(k)
  {
    ParseRawKey(s, o, k, ov);
    EscapeGrows(k);
    if Plain(k) {
      EscapePlain(k);
    }
  }

  /** A key is printed raw and read back as the text of what the parser finds: it survives exactly when it is an escaped
      text, quotes and backslashes included, without the tag in front. */
  lemma KeySurvives(k: string, s: string, o: nat, ov: Overload)
    requires At(s, o, "\"" + k + "\"")
    ensures ParseNext(s, o, ov).Parsed? && ToText(ParseNext(s, o, ov).value) == k <==> Lasting(k)
    ensures Lasting(k) ==> ParseNext(s, o, ov) == Parsed(String(Unescaped(k)), o + |k| + 2)
  {
    hide ParseNext, ScanString, At, Escaped, Unescaped, JsonEscape, Interpret;
    KeyIsString(k, s, o, ov);
    assert Plain(HASH_TAG);
    if Escaped(k) && !(HASH_TAG <= k) {
      EscapeUnescaped(k);
      ReadsEscaped(Unescaped(k), k, s, o);
      PlainPrefix(HASH_TAG, Unescaped(k));
      NoTag(Unescaped(k));
    }
    if ParseString(s, o).Parsed? && ToText(ParseString(s, o).value) == k {
      KeyIsEscaped(k, s, o);
    }
  }

  lemma NoTag(v: string)
    requires !(HASH_TAG <= v)
    ensures Interpret(v) == Some(String(v))
  {
  }

  lemma KeyIsString(k: string, s: string, o: nat, ov: Overload)
    requires At(s, o, "\"" + k + "\"")
    ensures o < |s| && s[o] == '\"' && At(s, o + 1, k + "\"") && ParseNext(s, o, ov) == ParseString(s, o)
  {
    hide ParseString;
    assert "\"" + k + "\"" == "\"" + (k + "\"");
    AtConcat(s, o, "\"", k + "\"");
    AtIndex(s, o, "\"", 0);
    assert SkipWs(s, o) == o;
  }

  lemma ReadsEscaped(t: string, k: string, s: string, o: nat)
    requires o < |s| && At(s, o + 1, k + "\"") && k == JsonEscape(t)
    ensures ScanString(s, o + 1, "") == Closed(t, o + |k| + 2)
  {
    hide ScanString, JsonEscape;
    ScanEscaped(s, o + 1, t, "");
    EmptyLeft(t);
  }

  lemma KeyIsEscaped(k: string, s: string, o: nat)
    requires o < |s| && s[o] == '\"' && At(s, o + 1, k + "\"") && ParseString(s, o).Parsed? && ToText(ParseString(s, o).value) == k
    ensures Escaped(k) && !(HASH_TAG <= k)
  {
    hide ScanString, At, Escaped, JsonEscape, Hex, Unhex;
    assert Plain(HASH_TAG);
    var j := ParseString(s, o).value;
    match j
    case String(w) =>
      EscapeIsEscaped(w);
      PlainPrefix(HASH_TAG, w);
      ReadsEscaped(w, k, s, o);
      assert Interpret(w) == Some(String(w));
    case HashValue(h) =>
      HexIsPlain(k);
      EscapePlain(k);
      EscapeIsEscaped(k);
      ReadsEscaped(k, k, s, o);
      assert Interpret(k) == Some(HashValue(h));
      HexHasNoTag(h);
    case _ =>
  }

  lemma HexHasNoTag(h: Hash)
    ensures !(HASH_TAG <= Hex(h))
  {
    assert IsHexDigit(Hex(h)[0]);
  }

  /** How dump lays out an object: a line for its member, two blanks for each level, a blank on both sides of the
      colon. */
  lemma DumpOneMember(key: string, value: Json)
    ensures Dump(Object([Field(key, value)]), 2) == "{\n    \"" + key + "\" : " + Dump(value, 3) + "\n  }"
  {
    PadTwo();
    hide Pad;
    var fs := [Field(key, value)];
    assert DumpFields(fs, 2) == Pad(2) + "\"" + key + "\" : " + Dump(value, 3) + "";
    Regroup("{\n", Pad(2), "\"", key, "\" : ", Dump(value, 3), "\n", Pad(1), "}");
    assert "{\n" + Pad(2) + "\"" == "{\n    \"" && "\n" + Pad(1) + "}" == "\n  }";
  }

  lemma PadTwo()
    ensures Pad(1) == "  " && Pad(2) == "    "
  {
  }

  lemma Regroup(a: string, b: string, c: string, d: string, e: string, f: string, g: string, h: string, i: string)
    ensures a + (b + c + d + e + f + "") + g + h + i == (a + b + c) + d + e + f + (g + h + i)
  {
  }
}
