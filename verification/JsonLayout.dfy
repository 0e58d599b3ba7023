/** Every layout of a JSON text, and the theorem that the parser reads each one back. */
module JsonLayout {
  import opened Bytes
  import opened Text
  import opened Json

  /** A JSON text with its white space. Keys are written raw, strings escaped. */
  datatype Doc =
    | DNull
    | DBool(flag: bool)
    | DInt(number: int)
    | DHash(hash: Hash)
    | DStr(text: string)
    | DArr(elems: seq<Elem>, inner: string)
    | DObj(members: seq<Member>, inner: string)

  datatype Elem = Elem(pre: string, doc: Doc, post: string)

  datatype Member = Member(pre: string, key: string, mid: string, sep: string, doc: Doc, post: string)

  function Flat(d: Doc): (t: string)
    ensures t != ""
    decreases d, 0
  {
    match d
    case DNull => "null"
    case DBool(b) => if b then "true" else "false"
    case DInt(n) => IntText(n)
    case DHash(h) => "\"" + HASH_TAG + Hex(h) + "\""
    case DStr(t) => "\"" + JsonEscape(t) + "\""
    case DArr(es, w) => "[" + (if es == [] then w + "]" else FlatElems(es))
    case DObj(ms, w) => "{" + (if ms == [] then w + "}" else FlatMembers(ms))
  }

  /** The elements with their separators and the closing bracket. */
  function FlatElems(es: seq<Elem>): (t: string)
    requires es != []
    decreases es, 1
  {
    es[0].pre + Flat(es[0].doc) + es[0].post + (if |es| == 1 then "]" else "," + FlatElems(es[1..]))
  }

  function FlatMembers(ms: seq<Member>): (t: string)
    requires ms != []
    decreases ms, 1
  {
    FlatMember(ms[0]) + (if |ms| == 1 then "}" else "," + FlatMembers(ms[1..]))
  }

  function FlatMember(m: Member): (t: string)
    decreases m, 1
  {
    m.pre + "\"" + m.key + "\"" + m.mid + ":" + m.sep + Flat(m.doc) + m.post
  }

  /** The value the text stands for: the last of two equal keys wins, objects are in key order. */
  function Value(d: Doc): Json
    decreases d, 0
  {
    match d
    case DNull => Null
    case DBool(b) => Boolean(b)
    case DInt(n) => Integral(n)
    case DHash(h) => HashValue(h)
    case DStr(t) => String(t)
    case DArr(es, _) => Array(ElemValues(es))
    case DObj(ms, _) => Object(PutAll([], MemberValues(ms)))
  }

  function ElemValues(es: seq<Elem>): (r: seq<Json>)
    ensures |r| == |es|
    decreases es, 1
  {
    if es == [] then [] else [Value(es[0].doc)] + ElemValues(es[1..])
  }

  function MemberValues(ms: seq<Member>): (r: seq<Field>)
    ensures |r| == |ms|
    decreases ms, 1
  {
    if ms == [] then [] else [Field(ms[0].key, Value(ms[0].doc))] + MemberValues(ms[1..])
  }

  // ----- Keys -----

  /** A text that escaping some string gives. */
  predicate Escaped(k: string) {
    k == ""
    || (k[0] == '\\' && |k| > 1 && k[1] in "\"\\bfnrt" && Escaped(k[2..]))
    || (EscapeChar(k[0]) == [k[0]] && Escaped(k[1..]))
  }

  function Unescaped(k: string): (t: string)
    requires Escaped(k)
  {
    if k == "" then "" else if k[0] == '\\' then [Unescape(k[1])] + Unescaped(k[2..]) else [k[0]] + Unescaped(k[1..])
  }

  /** The seven characters that are escaped, and how. */
  lemma EscapeTable(c: char)
    ensures var escaped, letters := "\"\\\U{8}\U{C}\n\r\t", "\"\\bfnrt";
            && (forall i :: 0 <= i < 7 ==> JsonEscape([escaped[i]]) == ['\\', letters[i]])
            && (c !in escaped ==> JsonEscape([c]) == [c])
  {
    var escaped := "\"\\\U{8}\U{C}\n\r\t";
    if EscapeChar(c) != [c] {
      assert c == escaped[0] || c == escaped[1] || c == escaped[2] || c == escaped[3] || c == escaped[4] || c == escaped[5] || c == escaped[6];
    }
  }

  lemma {:induction false} EscapeUnescaped(k: string)
    requires Escaped(k)
    ensures JsonEscape(Unescaped(k)) == k
  {
    if k != "" {
      if k[0] == '\\' {
        EscapeUnescaped(k[2..]);
        assert EscapeChar(Unescape(k[1])) == [k[0], k[1]];
        assert k == [k[0], k[1]] + k[2..];
      } else {
        EscapeUnescaped(k[1..]);
        assert k == [k[0]] + k[1..];
      }
    }
  }

  lemma {:induction false} EscapeIsEscaped(t: string)
    ensures Escaped(JsonEscape(t))
  {
    if t != "" {
      EscapeIsEscaped(t[1..]);
      var c, rest := EscapeChar(t[0]), JsonEscape(t[1..]);
      if c == [t[0]] {
        assert ([t[0]] + rest)[1..] == rest;
      } else {
        assert |c| == 2 && c[0] == '\\' && c[1] in "\"\\bfnrt";
        assert (c + rest)[0] == c[0] && (c + rest)[1] == c[1] && (c + rest)[2..] == rest;
      }
    }
  }

  lemma {:induction false} PlainPrefix(p: string, t: string)
    requires Plain(p)
    ensures p <= t <==> p <= JsonEscape(t)
  {
    if p != "" && t != "" {
      var rest := JsonEscape(t[1..]);
      assert EscapeChar(p[0]) == [p[0]];
      if EscapeChar(t[0]) == [t[0]] {
        PlainPrefix(p[1..], t[1..]);
        assert JsonEscape(t) == [t[0]] + rest;
        assert p == [p[0]] + p[1..] && t == [t[0]] + t[1..];
        assert p <= t <==> p[0] == t[0] && p[1..] <= t[1..];
        assert p <= [t[0]] + rest <==> p[0] == t[0] && p[1..] <= rest;
      } else {
        assert JsonEscape(t)[0] == '\\';
      }
    }
  }

  lemma {:induction false} PlainIsEscaped(k: string)
    requires Plain(k)
    ensures Escaped(k) && Unescaped(k) == k
  {
    if k != "" {
      assert EscapeChar(k[0]) == [k[0]];
      PlainIsEscaped(k[1..]);
      assert k == [k[0]] + k[1..];
    }
  }

  /** The string whose escaped text the key is. */
  function KeyText(k: string): string {
    if Escaped(k) then Unescaped(k) else k
  }

  /** A key that comes back: it is an escaped text without the hash tag in front. */
  predicate Lasting(k: string) {
    Escaped(k) && !(HASH_TAG <= k)
  }

  lemma PlainLasts(k: string)
    requires Plain(k) && !(HASH_TAG <= k)
    ensures Lasting(k)
  {
    PlainIsEscaped(k);
  }

  // ----- What the parser makes of a layout -----

  predicate Blank(w: string) {
    forall i :: 0 <= i < |w| ==> IsSpace(w[i])
  }

  /** Escaped keys, no key or string with the hash tag in front, 64-bit integers, nulls for the string form only. */
  predicate Good(d: Doc, ov: Overload)
    decreases d, 0
  {
    match d
    case DNull => ov.OfString?
    case DBool(_) => true
    case DInt(n) => Int64(n)
    case DHash(_) => true
    case DStr(t) => !(HASH_TAG <= t)
    case DArr(es, w) => Blank(w) && GoodElems(es, ov)
    case DObj(ms, w) => Blank(w) && GoodMembers(ms, ov)
  }

  predicate GoodElems(es: seq<Elem>, ov: Overload)
    decreases es, 1
  {
    es == [] || (Blank(es[0].pre) && Good(es[0].doc, ov) && Blank(es[0].post) && GoodElems(es[1..], ov))
  }

  predicate GoodMembers(ms: seq<Member>, ov: Overload)
    decreases ms, 1
  {
    ms == [] || (GoodMember(ms[0], ov) && GoodMembers(ms[1..], ov))
  }

  predicate GoodMember(m: Member, ov: Overload)
    decreases m, 1
  {
    && Blank(m.pre) && Blank(m.mid) && Blank(m.sep) && Blank(m.post)
    && Lasting(m.key) && Good(m.doc, ov)
  }

  /** Blank between the tokens, escaped keys, 64-bit integers. */
  predicate Basic(d: Doc)
    decreases d, 0
  {
    match d
    case DInt(n) => Int64(n)
    case DArr(es, w) => Blank(w) && BasicElems(es)
    case DObj(ms, w) => Blank(w) && BasicMembers(ms)
    case _ => true
  }

  predicate BasicElems(es: seq<Elem>)
    decreases es, 1
  {
    es == [] || (Blank(es[0].pre) && Basic(es[0].doc) && Blank(es[0].post) && BasicElems(es[1..]))
  }

  predicate BasicMembers(ms: seq<Member>)
    decreases ms, 1
  {
    ms == [] || (BasicMember(ms[0]) && BasicMembers(ms[1..]))
  }

  predicate BasicMember(m: Member)
    decreases m, 1
  {
    Blank(m.pre) && Blank(m.mid) && Blank(m.sep) && Blank(m.post) && Escaped(m.key) && Basic(m.doc)
  }

  /** What the parser makes of the layout: tagged texts become hashes or lose the tag. None where a hash is over-read,
      or where the pointer form stops at a null. */
  function Seen(d: Doc, ov: Overload): Option<Json>
    decreases d, 0
  {
    match d
    case DNull => if ov.OfString? then Some(Null) else None
    case DBool(b) => Some(Boolean(b))
    case DInt(n) => Some(Integral(n))
    case DHash(h) => Some(HashValue(h))
    case DStr(t) => Interpret(t)
    case DArr(es, _) => (match SeenElems(es, ov) case None => None case Some(items) => Some(Array(items)))
    case DObj(ms, _) => (match SeenFields(ms, ov) case None => None case Some(fs) => Some(Object(PutAll([], fs))))
  }

  function SeenElems(es: seq<Elem>, ov: Overload): (r: Option<seq<Json>>)
    ensures r.Some? ==> |r.value| == |es|
    decreases es, 1
  {
    if es == [] then Some([])
    else
      match Seen(es[0].doc, ov)
      case None => None
      case Some(v) => match SeenElems(es[1..], ov) case None => None case Some(vs) => Some([v] + vs)
  }

  function SeenFields(ms: seq<Member>, ov: Overload): (r: Option<seq<Field>>)
    ensures r.Some? ==> |r.value| == |ms|
    decreases ms, 1
  {
    if ms == [] then Some([])
    else
      match SeenKey(ms[0].key)
      case None => None
      case Some(k) =>
        match Seen(ms[0].doc, ov)
        case None => None
        case Some(v) => match SeenFields(ms[1..], ov) case None => None case Some(fs) => Some([Field(k, v)] + fs)
  }

  function SeenKey(k: string): Option<string> {
    match Interpret(KeyText(k)) case None => None case Some(j) => Some(ToText(j))
  }

  lemma LastingKey(k: string)
    requires Lasting(k)
    ensures Interpret(KeyText(k)) == Some(String(KeyText(k))) && SeenKey(k) == Some(k)
  {
    EscapeUnescaped(k);
    assert Plain(HASH_TAG);
    PlainPrefix(HASH_TAG, Unescaped(k));
  }

  lemma {:induction false} GoodIsSeen(d: Doc, ov: Overload)
    requires Good(d, ov)
    ensures Basic(d) && Seen(d, ov) == Some(Value(d))
    decreases d, 0
  {
    match d
    case DArr(es, _) => GoodElemsSeen(es, ov);
    case DObj(ms, _) => GoodMembersSeen(ms, ov);
    case _ =>
  }

  lemma {:induction false} GoodElemsSeen(es: seq<Elem>, ov: Overload)
    requires GoodElems(es, ov)
    ensures BasicElems(es) && SeenElems(es, ov) == Some(ElemValues(es))
    decreases es, 1
  {
    if es != [] {
      GoodIsSeen(es[0].doc, ov);
      GoodElemsSeen(es[1..], ov);
    }
  }

  lemma {:induction false} GoodMembersSeen(ms: seq<Member>, ov: Overload)
    requires GoodMembers(ms, ov)
    ensures BasicMembers(ms) && SeenFields(ms, ov) == Some(MemberValues(ms))
    decreases ms, 1
  {
    if ms != [] {
      hide Escaped, Interpret, KeyText, SeenKey, Blank;
      LastingKey(ms[0].key);
      GoodIsSeen(ms[0].doc, ov);
      GoodMembersSeen(ms[1..], ov);
    }
  }

  /** The layout is read as what it is seen as, up to its end; else the parser faults or stops in front of the end, at
      the first character of a null. */
  predicate Outcome(s: string, r: Parse, end: nat, seen: Option<Json>) {
    match seen
    case Some(v) => r == Parsed(v, end)
    case None => r.Fault? || StuckAt(s, r.offset, end)
  }

  predicate StuckAt(s: string, e: nat, end: nat) {
    e < end && e < |s| && s[e] == 'n'
  }

  // ----- Scalars -----

  lemma {:induction false} SkipBlank(s: string, o: nat, w: string)
    requires At(s, o, w) && Blank(w)
    requires o + |w| < |s| && !IsSpace(s[o + |w|])
    ensures SkipWs(s, o) == o + |w|
    decreases |w|
  {
    if w == "" {
    } else {
      AtIndex(s, o, w, 0);
      assert w == [w[0]] + w[1..];
      AtConcat(s, o, [w[0]], w[1..]);
      SkipBlank(s, o + 1, w[1..]);
    }
  }

  lemma ScanClose(s: string, i: nat, val: string)
    requires At(s, i, "\"")
    ensures ScanString(s, i, val) == Closed(val, i + 1)
  {
    AtIndex(s, i, "\"", 0);
  }

  lemma {:induction false} ScanEscaped(s: string, i: nat, t: string, val: string)
    requires At(s, i, JsonEscape(t) + "\"")
    ensures i <= |s|
    ensures ScanString(s, i, val) == Closed(val + t, i + |JsonEscape(t)| + 1)
    decreases |t|
  {
    assert i <= |s|;
    hide ScanString, At, EscapeChar;
    if t == "" {
      assert JsonEscape(t) + "\"" == "\"";
      ScanClose(s, i, val);
      assert val + t == val;
    } else {
      var e, rest := EscapeChar(t[0]), JsonEscape(t[1..]);
      Associative(e, rest, "\"");
      AtConcat(s, i, e, rest + "\"");
      ScanOneEscaped(s, i, t[0], val);
      ScanEscaped(s, i + |e|, t[1..], val + [t[0]]);
      HeadTail(t);
      Associative(val, [t[0]], t[1..]);
    }
  }

  lemma ScanOneEscaped(s: string, i: nat, c: char, val: string)
    requires At(s, i, EscapeChar(c))
    ensures i + |EscapeChar(c)| <= |s|
    ensures ScanString(s, i, val) == ScanString(s, i + |EscapeChar(c)|, val + [c])
  {
    AtIndex(s, i, EscapeChar(c), 0);
    if |EscapeChar(c)| == 2 {
      AtIndex(s, i, EscapeChar(c), 1);
    }
  }

  lemma TaggedHexIsPlain(b: seq<Byte>)
    ensures JsonEscape(HASH_TAG + Hex(b)) == HASH_TAG + Hex(b)
  {
    var t := HASH_TAG + Hex(b);
    forall i | 0 <= i < |t| ensures EscapeChar(t[i]) == [t[i]] {
      if i >= |HASH_TAG| {
        assert t[i] == Hex(b)[i - |HASH_TAG|];
      }
    }
    EscapePlain(t);
  }

  function Quoted(t: string): (q: string)
    ensures |q| == |JsonEscape(t)| + 2
  {
    "\"" + JsonEscape(t) + "\""
  }

  lemma ParseQuoted(s: string, o: nat, t: string)
    requires At(s, o, Quoted(t))
    ensures o < |s| && s[o] == '\"'
    ensures ParseString(s, o) == match Interpret(t) case None => Fault case Some(j) => Parsed(j, o + |Quoted(t)|)
  {
    hide ScanString, JsonEscape, At, Interpret;
    Associative("\"", JsonEscape(t), "\"");
    AtConcat(s, o, "\"", JsonEscape(t) + "\"");
    AtIndex(s, o, "\"", 0);
    ScanEscaped(s, o + 1, t, "");
    EmptyLeft(t);
  }

  lemma InterpretHash(h: Hash)
    ensures Interpret(HASH_TAG + Hex(h)) == Some(HashValue(h))
    ensures Quoted(HASH_TAG + Hex(h)) == "\"" + HASH_TAG + Hex(h) + "\""
  {
    var x := Hex(h);
    TagSplit(x);
    UnhexHex(h);
    assert h[..HASH_LENGTH] == h;
    TaggedHexIsPlain(h);
    Associative("\"", HASH_TAG, x);
  }

  lemma TagSplit(x: string)
    ensures HASH_TAG <= HASH_TAG + x && (HASH_TAG + x)[|HASH_TAG|..] == x
  {
  }

  lemma {:induction false} NumberRun(s: string, o: nat, t: string)
    requires At(s, o, t)
    requires forall i :: 0 <= i < |t| ==> InNumber(t[i])
    requires o + |t| < |s| && !InNumber(s[o + |t|])
    ensures NumberEnd(s, o) == o + |t|
    decreases |t|
  {
    if t != "" {
      AtIndex(s, o, t, 0);
      assert t == [t[0]] + t[1..];
      AtConcat(s, o, [t[0]], t[1..]);
      NumberRun(s, o + 1, t[1..]);
    }
  }

  lemma {:induction false} AllDigitsLead(t: string)
    requires AllDigits(t)
    ensures LeadingDigits(t) == |t|
  {
    if t != "" {
      AllDigitsLead(t[1..]);
    }
  }

  lemma StolOfIntText(n: int)
    requires Int64(n)
    ensures Stol(IntText(n)) == Some(n)
  {
    var d := Decimal(if n < 0 then -n else n);
    AllDigitsLead(d);
    DigitsOfDecimal(if n < 0 then -n else n);
    assert d[..|d|] == d;
    if n < 0 {
      assert ("-" + d)[1..] == d;
    }
  }

  lemma ParseInt(s: string, o: nat, n: int)
    requires Int64(n)
    requires At(s, o, IntText(n)) && o + |IntText(n)| < |s| && Delimiter(s[o + |IntText(n)|])
    ensures o < |s| && (IsDigit(s[o]) || s[o] == '-')
    ensures ParseNumber(s, o) == Parsed(Integral(n), o + |IntText(n)|)
  {
    var t := IntText(n);
    AtIndex(s, o, t, 0);
    NumberRun(s, o, t);
    StolOfIntText(n);
    assert s[o..o + |t|] == t;
  }

  // ----- The parser reads every layout -----

  lemma FlatHead(d: Doc)
    ensures var c := Flat(d)[0]; !IsSpace(c) && c != ']' && c != '}'
    ensures d.DArr? <==> Flat(d)[0] == '['
    ensures d.DObj? <==> Flat(d)[0] == '{'
  {
    if d.DInt? {
      assert d.number < 0 || IsDigit(IntText(d.number)[0]);
    }
  }

  lemma SkipTwice(s: string, o: nat, ov: Overload)
    requires o <= |s|
    ensures SkipWs(s, SkipWs(s, o)) == SkipWs(s, o)
    ensures ParseNext(s, SkipWs(s, o), ov) == ParseNext(s, o, ov)
  {
    hide ParseValue;
  }

  lemma ItemsSkip(s: string, o: nat, acc: seq<Json>, ov: Overload)
    requires o <= |s|
    ensures ParseItems(s, SkipWs(s, o), acc, ov) == ParseItems(s, o, acc, ov)
  {
    hide ParseNext, SkipWs;
    SkipTwice(s, o, ov);
  }

  lemma MemberSkip(s: string, o: nat, acc: seq<Field>, ov: Overload)
    requires o <= |s|
    ensures ParseMember(s, SkipWs(s, o), acc, ov) == ParseMember(s, o, acc, ov)
  {
    hide ParseNext, SkipWs, Put, ToText;
    SkipTwice(s, o, ov);
  }

  lemma MembersSkip(s: string, o: nat, acc: seq<Field>, ov: Overload)
    requires o <= |s|
    ensures ParseMembers(s, SkipWs(s, o), acc, ov) == ParseMembers(s, o, acc, ov)
  {
    hide ParseMember, SkipWs;
    MemberSkip(s, o, acc, ov);
  }

  /** A number is read only up to the delimiter behind it. */
  predicate Ends(s: string, e: nat, d: Doc) {
    d.DInt? ==> e < |s| && Delimiter(s[e])
  }

  lemma ParseScalarDoc(s: string, o: nat, d: Doc, ov: Overload)
    requires !d.DArr? && !d.DObj?
    requires At(s, o, Flat(d)) && Basic(d) && Ends(s, o + |Flat(d)|, d)
    ensures o < |s|
    ensures Outcome(s, ParseScalar(s, o, ov), o + |Flat(d)|, Seen(d, ov))
  {
    AtIndex(s, o, Flat(d), 0);
    match d
    case DNull =>
    case DBool(b) =>
    case DInt(n) => ParseInt(s, o, n);
    case DHash(h) =>
      InterpretHash(h);
      ParseQuoted(s, o, HASH_TAG + Hex(h));
    case DStr(t) => ParseQuoted(s, o, t);
  }

  /** Every layout of a value is read as that value, up to its last character. */
  lemma ParseDoc(s: string, o: nat, d: Doc, ov: Overload)
    requires At(s, o, Flat(d)) && Good(d, ov) && Ends(s, o + |Flat(d)|, d)
    ensures ParseNext(s, o, ov) == Parsed(Value(d), o + |Flat(d)|)
  {
    GoodIsSeen(d, ov);
    hide At, Flat, Good, Basic, Seen, Value, ParseNext, Ends;
    ParseLayout(s, o, d, ov);
  }

  /** Every basic layout is read as what it is seen as. */
  lemma {:induction false} ParseLayout(s: string, o: nat, d: Doc, ov: Overload)
    requires At(s, o, Flat(d)) && Basic(d) && Ends(s, o + |Flat(d)|, d)
    ensures Outcome(s, ParseNext(s, o, ov), o + |Flat(d)|, Seen(d, ov))
    decreases d, 0
  {
    hide ParseScalar, Outcome;
    FlatHead(d);
    AtIndex(s, o, Flat(d), 0);
    assert SkipWs(s, o) == o;
    match d
    case DArr(es, w) => ParseArrayDoc(s, o, es, w, ov);
    case DObj(ms, w) => ParseObjectDoc(s, o, ms, w, ov);
    case _ => ParseScalarDoc(s, o, d, ov);
  }

  lemma ParseEmpty(s: string, o: nat, w: string, ov: Overload)
    requires Blank(w)
    ensures At(s, o, "[" + (w + "]")) ==> o < |s| && ParseArray(s, o, ov) == Parsed(Array([]), o + |w| + 2)
    ensures At(s, o, "{" + (w + "}")) ==> o < |s| && ParseObject(s, o, ov) == Parsed(Object([]), o + |w| + 2)
  {
    hide ParseItems, ParseMembers, SkipWs, Blank, At;
    AtConcat(s, o, "[", w + "]");
    AtConcat(s, o, "{", w + "}");
    if At(s, o, "[" + (w + "]")) {
      SkipToClose(s, o + 1, w, "]");
    }
    if At(s, o, "{" + (w + "}")) {
      SkipToClose(s, o + 1, w, "}");
    }
  }

  lemma {:induction false} ParseArrayDoc(s: string, o: nat, es: seq<Elem>, w: string, ov: Overload)
    requires var d := DArr(es, w); At(s, o, Flat(d)) && Basic(d)
    ensures o < |s|
    ensures Outcome(s, ParseArray(s, o, ov), o + |Flat(DArr(es, w))|, Seen(DArr(es, w), ov))
    decreases es, 6
  {
    hide *;
    ArrayUnfold(es, w, ov);
    if es == [] {
      ParseEmpty(s, o, w, ov);
      ExactOutcome(s, Array([]), o + |w| + 2);
    } else {
      AtConcat(s, o, "[", FlatElems(es));
      AtInside(s, o, "[", FlatElems(es));
      ElemsHead(s, o + 1, es);
      ParseElems(s, o + 1, es, [], ov);
      ItemsSkip(s, o + 1, [], ov);
      ArrayStart(s, o, ov);
      if vs: seq<Json> :| SeenElems(es, ov) == Some(vs) {
        EmptyLeft(vs);
      }
    }
  }

  lemma ArrayUnfold(es: seq<Elem>, w: string, ov: Overload)
    ensures Seen(DArr(es, w), ov) == match SeenElems(es, ov) case None => None case Some(items) => Some(Array(items))
    ensures Basic(DArr(es, w)) ==> Blank(w) && BasicElems(es)
    ensures es != [] ==> Flat(DArr(es, w)) == "[" + FlatElems(es)
    ensures es == [] ==> Flat(DArr(es, w)) == "[" + (w + "]") && SeenElems(es, ov) == Some([])
  {
    hide FlatElems, Blank;
  }

  lemma ObjectUnfold(ms: seq<Member>, w: string, ov: Overload)
    ensures Seen(DObj(ms, w), ov) == match SeenFields(ms, ov) case None => None case Some(fs) => Some(Object(PutAll([], fs)))
    ensures Basic(DObj(ms, w)) ==> Blank(w) && BasicMembers(ms)
    ensures ms != [] ==> Flat(DObj(ms, w)) == "{" + FlatMembers(ms)
    ensures ms == [] ==> Flat(DObj(ms, w)) == "{" + (w + "}") && SeenFields(ms, ov) == Some([]) && PutAll([], []) == []
  {
    hide FlatMembers, Blank;
  }

  lemma ExactOutcome(s: string, v: Json, end: nat)
    ensures Outcome(s, Parsed(v, end), end, Some(v))
  {
  }

  lemma AtInside(s: string, o: nat, c: string, x: string)
    requires At(s, o, c + x) && |c| == 1
    ensures o < |s|
  {
  }

  lemma ArrayStart(s: string, o: nat, ov: Overload)
    requires o < |s| && SkipWs(s, o + 1) < |s| && s[SkipWs(s, o + 1)] != ']'
    ensures ParseArray(s, o, ov) == ParseItems(s, SkipWs(s, o + 1), [], ov)
  {
    hide ParseItems, SkipWs;
  }

  lemma ObjectStart(s: string, o: nat, ov: Overload)
    requires o < |s| && SkipWs(s, o + 1) < |s| && s[SkipWs(s, o + 1)] != '}'
    ensures ParseObject(s, o, ov) == ParseMembers(s, SkipWs(s, o + 1), [], ov)
  {
    hide ParseMembers, SkipWs;
  }

  lemma {:induction false} ParseObjectDoc(s: string, o: nat, ms: seq<Member>, w: string, ov: Overload)
    requires var d := DObj(ms, w); At(s, o, Flat(d)) && Basic(d)
    ensures o < |s|
    ensures Outcome(s, ParseObject(s, o, ov), o + |Flat(DObj(ms, w))|, Seen(DObj(ms, w), ov))
    decreases ms, 6
  {
    hide *;
    ObjectUnfold(ms, w, ov);
    if ms == [] {
      ParseEmpty(s, o, w, ov);
      ExactOutcome(s, Object([]), o + |w| + 2);
    } else {
      AtConcat(s, o, "{", FlatMembers(ms));
      AtInside(s, o, "{", FlatMembers(ms));
      MembersHead(s, o + 1, ms);
      ParseMemberList(s, o + 1, ms, [], ov);
      MembersSkip(s, o + 1, [], ov);
      ObjectStart(s, o, ov);
    }
  }

  lemma SkipToClose(s: string, o: nat, w: string, c: string)
    requires |c| == 1 && !IsSpace(c[0]) && Blank(w) && At(s, o, w + c)
    ensures SkipWs(s, o) == o + |w| < |s| && s[o + |w|] == c[0]
  {
    AtConcat(s, o, w, c);
    AtIndex(s, o + |w|, c, 0);
    SkipBlank(s, o, w);
  }

  /** Behind blanks stands the first character of a value. */
  lemma SkipToDoc(s: string, o: nat, w: string, d: Doc, rest: string)
    requires Blank(w) && At(s, o, w + Flat(d) + rest)
    ensures At(s, o, w) && At(s, o + |w|, Flat(d)) && At(s, o + |w| + |Flat(d)|, rest)
    ensures SkipWs(s, o) == o + |w| < |s| && s[o + |w|] == Flat(d)[0]
  {
    AtConcat(s, o, w + Flat(d), rest);
    AtConcat(s, o, w, Flat(d));
    AtIndex(s, o + |w|, Flat(d), 0);
    FlatHead(d);
    SkipBlank(s, o, w);
  }

  function ElemTail(es: seq<Elem>): (t: string)
    requires es != []
    ensures t != "" && (t[0] == ']' || t[0] == ',')
  {
    if |es| == 1 then "]" else "," + FlatElems(es[1..])
  }

  lemma ElemsHead(s: string, o: nat, es: seq<Elem>)
    requires es != [] && At(s, o, FlatElems(es)) && BasicElems(es)
    ensures var q := SkipWs(s, o); q < |s| && s[q] != ']'
  {
    var e := es[0];
    ElemRegroup(es);
    SkipToDoc(s, o, e.pre, e.doc, e.post + ElemTail(es));
    FlatHead(e.doc);
  }

  /** What follows a value: blanks, then a comma or a closing character. */
  predicate Follows(s: string, e: nat, post: string, tail: string) {
    && At(s, e, post) && At(s, e + |post|, tail)
    && e + |post| < |s| && tail != "" && s[e + |post|] == tail[0]
    && SkipWs(s, e) == e + |post|
    && e < |s| && Delimiter(s[e])
  }

  lemma FollowsBlank(s: string, e: nat, post: string, tail: string)
    requires Blank(post) && At(s, e, post + tail)
    requires tail != "" && (tail[0] == ',' || tail[0] == ']' || tail[0] == '}')
    ensures Follows(s, e, post, tail)
  {
    AtConcat(s, e, post, tail);
    AtIndex(s, e + |post|, tail, 0);
    SkipBlank(s, e, post);
    AtIndex(s, e, post + tail, 0);
  }

  /** The value between blanks in front of a closing character or comma. */
  lemma {:induction false} ParseBlankDoc(s: string, o: nat, w: string, d: Doc, post: string, tail: string, ov: Overload)
    requires Blank(w) && Blank(post) && Basic(d)
    requires tail != "" && (tail[0] == ',' || tail[0] == ']' || tail[0] == '}')
    requires At(s, o, w + Flat(d) + (post + tail))
    ensures var e := o + |w| + |Flat(d)|;
            Outcome(s, ParseNext(s, o, ov), e, Seen(d, ov)) && Follows(s, e, post, tail)
    decreases d, 3
  {
    hide ParseNext, At, Flat, Seen, Basic, Blank, Outcome;
    SkipToDoc(s, o, w, d, post + tail);
    FollowsBlank(s, o + |w| + |Flat(d)|, post, tail);
    ParseLayout(s, o + |w|, d, ov);
    SkipTwice(s, o, ov);
  }

  lemma ItemsStep(s: string, o: nat, acc: seq<Json>, ov: Overload, v: Json, e: nat, q: nat)
    requires o <= |s| && ParseNext(s, o, ov) == Parsed(v, e)
    requires SkipWs(s, e) == q < |s|
    ensures s[q] == ']' ==> ParseItems(s, o, acc, ov) == Parsed(Array(acc + [v]), q + 1)
    ensures s[q] == ',' ==> ParseItems(s, o, acc, ov) == ParseItems(s, q + 1, acc + [v], ov)
  {
    hide ParseNext, SkipWs;
  }

  lemma ItemsStop(s: string, o: nat, acc: seq<Json>, ov: Overload, end: nat)
    requires o <= |s| && Outcome(s, ParseNext(s, o, ov), end, None)
    ensures Outcome(s, ParseItems(s, o, acc, ov), end, None)
  {
    hide ParseNext;
    var r := ParseNext(s, o, ov);
    if r.Parsed? {
      assert SkipWs(s, r.offset) == r.offset;
    }
  }

  lemma LaterEnd(s: string, r: Parse, end: nat, end': nat)
    requires Outcome(s, r, end, None) && end <= end'
    ensures Outcome(s, r, end', None)
  {
  }

  lemma {:induction false} ParseElems(s: string, o: nat, es: seq<Elem>, acc: seq<Json>, ov: Overload)
    requires es != [] && At(s, o, FlatElems(es)) && BasicElems(es)
    ensures Outcome(s, ParseItems(s, o, acc, ov), o + |FlatElems(es)|,
                    match SeenElems(es, ov) case None => None case Some(vs) => Some(Array(acc + vs)))
    decreases es, 4
  {
    hide ParseNext, ParseItems, SkipWs, At, Flat, Seen, Basic, Blank, StuckAt;
    var e := es[0];
    ElemRegroup(es);
    ParseBlankDoc(s, o, e.pre, e.doc, e.post, ElemTail(es), ov);
    var end := o + |e.pre| + |Flat(e.doc)|;
    var q := end + |e.post|;
    var v := Seen(e.doc, ov);
    if v.None? {
      ItemsStop(s, o, acc, ov, end);
      LaterEnd(s, ParseItems(s, o, acc, ov), end, o + |FlatElems(es)|);
    } else {
      ItemsStep(s, o, acc, ov, v.value, end, q);
      if |es| == 1 {
        assert SeenElems(es[1..], ov) == Some([]) && [v.value] + [] == [v.value];
      } else {
        AtConcat(s, q, ",", FlatElems(es[1..]));
        ParseElems(s, q + 1, es[1..], acc + [v.value], ov);
        if vs: seq<Json> :| SeenElems(es[1..], ov) == Some(vs) {
          Associative(acc, [v.value], vs);
        }
      }
    }
  }

  lemma ElemRegroup(es: seq<Elem>)
    requires es != []
    ensures FlatElems(es) == es[0].pre + Flat(es[0].doc) + (es[0].post + ElemTail(es))
  {
    Associative(es[0].pre + Flat(es[0].doc), es[0].post, ElemTail(es));
  }

  function MemberTail(ms: seq<Member>): (t: string)
    requires ms != []
    ensures t != "" && (t[0] == '}' || t[0] == ',')
  {
    if |ms| == 1 then "}" else "," + FlatMembers(ms[1..])
  }

  function KeyDoc(m: Member): Doc {
    DStr(KeyText(m.key))
  }

  lemma MemberParts(ms: seq<Member>)
    requires ms != [] && BasicMember(ms[0])
    ensures var m := ms[0];
            FlatMembers(ms) == m.pre + Flat(KeyDoc(m)) + (m.mid + (":" + (m.sep + Flat(m.doc) + (m.post + MemberTail(ms)))))
  {
    var m := ms[0];
    EscapeUnescaped(m.key);
    assert Flat(KeyDoc(m)) == "\"" + m.key + "\"";
    MemberRegroup(m.pre, m.key, m.mid, m.sep, Flat(m.doc), m.post, MemberTail(ms));
  }

  lemma MemberRegroup(pre: string, key: string, mid: string, sep: string, value: string, post: string, tail: string)
    ensures (pre + "\"" + key + "\"" + mid + ":" + sep + value + post) + tail
         == pre + ("\"" + key + "\"") + (mid + (":" + (sep + value + (post + tail))))
  {
    var quoted := "\"" + key + "\"";
    assert pre + "\"" + key + "\"" == pre + quoted;
    var back := sep + value + (post + tail);
    assert back == sep + value + post + tail;
    assert mid + (":" + back) == mid + ":" + back;
  }

  lemma MembersHead(s: string, o: nat, ms: seq<Member>)
    requires ms != [] && At(s, o, FlatMembers(ms)) && BasicMembers(ms)
    ensures var q := SkipWs(s, o); q < |s| && s[q] != '}'
  {
    var m := ms[0];
    MemberParts(ms);
    SkipToDoc(s, o, m.pre, KeyDoc(m), m.mid + (":" + (m.sep + Flat(m.doc) + (m.post + MemberTail(ms)))));
  }

  lemma ParseKey(s: string, o: nat, m: Member, back: string, ov: Overload)
    requires BasicMember(m)
    requires At(s, o, m.pre + Flat(KeyDoc(m)) + (m.mid + (":" + back)))
    ensures var k := o + |m.pre| + |Flat(KeyDoc(m))|;
            && o <= |s|
            && ParseNext(s, o, ov) == (match Interpret(KeyText(m.key)) case None => Fault case Some(j) => Parsed(j, k))
            && SkipWs(s, k) == k + |m.mid| < |s| && s[k + |m.mid|] == ':'
            && At(s, k + |m.mid| + 1, back)
  {
    hide *;
    KeyBlank(m);
    SkipToDoc(s, o, m.pre, KeyDoc(m), m.mid + (":" + back));
    FlatHead(KeyDoc(m));
    KeyString(m);
    ParseQuoted(s, o + |m.pre|, KeyText(m.key));
    NextString(s, o, o + |m.pre|, ov);
    ColonBehind(s, o + |m.pre| + |Flat(KeyDoc(m))|, m.mid, back);
  }

  lemma KeyBlank(m: Member)
    requires BasicMember(m)
    ensures Blank(m.pre) && Blank(m.mid) && Blank(m.sep) && Blank(m.post) && Basic(m.doc)
  {
  }

  lemma KeyString(m: Member)
    ensures Flat(KeyDoc(m)) == Quoted(KeyText(m.key)) && !KeyDoc(m).DArr? && !KeyDoc(m).DObj?
  {
    hide KeyText, JsonEscape;
  }

  lemma NextString(s: string, o: nat, p: nat, ov: Overload)
    requires o <= |s| && SkipWs(s, o) == p < |s| && s[p] == '\"'
    ensures ParseNext(s, o, ov) == ParseString(s, p)
  {
    hide ParseString;
  }

  lemma ColonBehind(s: string, k: nat, mid: string, back: string)
    requires Blank(mid) && At(s, k, mid + (":" + back))
    ensures SkipWs(s, k) == k + |mid| < |s| && s[k + |mid|] == ':' && At(s, k + |mid| + 1, back)
  {
    AtConcat(s, k, mid, ":" + back);
    AtConcat(s, k + |mid|, ":", back);
    AtIndex(s, k + |mid|, ":", 0);
    SkipBlank(s, k, mid);
  }

  lemma MemberStep(s: string, o: nat, acc: seq<Field>, ov: Overload, key: Json, k: nat, c: nat, v: Json, e: nat, q: nat)
    requires o <= |s| && ParseNext(s, o, ov) == Parsed(key, k)
    requires SkipWs(s, k) == c < |s| && s[c] == ':'
    requires ParseNext(s, SkipWs(s, c + 1), ov) == Parsed(v, e)
    requires SkipWs(s, e) == q < |s|
    ensures s[q] == '}' ==> ParseMember(s, o, acc, ov) == LastMember(Put(acc, ToText(key), v), q + 1)
    ensures s[q] == ',' ==> ParseMember(s, o, acc, ov) == Comma(Put(acc, ToText(key), v), q + 1)
  {
    hide ParseNext, SkipWs, Put, ToText;
  }

  lemma MemberStop(s: string, o: nat, acc: seq<Field>, ov: Overload, key: Json, k: nat, c: nat, end: nat)
    requires o <= |s| && ParseNext(s, o, ov) == Parsed(key, k)
    requires SkipWs(s, k) == c < |s| && s[c] == ':'
    requires Outcome(s, ParseNext(s, SkipWs(s, c + 1), ov), end, None)
    ensures MemberStopped(s, ParseMember(s, o, acc, ov), end)
  {
    hide ParseNext, Put, ToText;
    var v := ParseNext(s, SkipWs(s, c + 1), ov);
    if v.Parsed? {
      assert SkipWs(s, v.offset) == v.offset;
    }
  }

  predicate MemberStopped(s: string, r: MemberRead, end: nat) {
    r.NoMember? || (r.LastMember? && StuckAt(s, r.offset, end))
  }

  function SeenMember(m: Member, ov: Overload): Option<Field> {
    match SeenKey(m.key)
    case None => None
    case Some(k) => match Seen(m.doc, ov) case None => None case Some(v) => Some(Field(k, v))
  }

  /** One member in front of a comma or the closing brace. */
  predicate MemberOutcome(s: string, r: MemberRead, q: nat, tail: string, acc: seq<Field>, seen: Option<Field>)
    requires tail != ""
  {
    match seen
    case None => MemberStopped(s, r, q)
    case Some(f) =>
      var all := Put(acc, f.key, f.value);
      r == if tail[0] == ',' then Comma(all, q + 1) else LastMember(all, q + 1)
  }

  lemma {:induction false} ParseOneMember(s: string, o: nat, m: Member, tail: string, acc: seq<Field>, ov: Overload)
    requires BasicMember(m) && tail != "" && (tail[0] == ',' || tail[0] == '}')
    requires At(s, o, m.pre + Flat(KeyDoc(m)) + (m.mid + (":" + (m.sep + Flat(m.doc) + (m.post + tail)))))
    ensures var q := o + |m.pre| + |Flat(KeyDoc(m))| + |m.mid| + 1 + |m.sep| + |Flat(m.doc)| + |m.post|;
            o <= |s| && At(s, q, tail) && MemberOutcome(s, ParseMember(s, o, acc, ov), q, tail, acc, SeenMember(m, ov))
    decreases m, 4
  {
    hide ParseNext, ParseMember, SkipWs, Put, ToText, At, Flat, Blank, Seen, Basic, Interpret, KeyText, StuckAt, KeyDoc;
    KeyBlank(m);
    var back := m.sep + Flat(m.doc) + (m.post + tail);
    ParseKey(s, o, m, back, ov);
    var k := o + |m.pre| + |Flat(KeyDoc(m))|;
    var c := k + |m.mid|;
    SkipTwice(s, c + 1, ov);
    ParseBlankDoc(s, c + 1, m.sep, m.doc, m.post, tail, ov);
    var e := c + 1 + |m.sep| + |Flat(m.doc)|;
    var key, v := Interpret(KeyText(m.key)), Seen(m.doc, ov);
    if key.None? {
      KeyFault(s, o, acc, ov);
    } else if v.None? {
      LaterEnd(s, ParseNext(s, SkipWs(s, c + 1), ov), e, e + |m.post|);
      MemberStop(s, o, acc, ov, key.value, k, c, e + |m.post|);
    } else {
      MemberStep(s, o, acc, ov, key.value, k, c, v.value, e, e + |m.post|);
    }
  }

  lemma KeyFault(s: string, o: nat, acc: seq<Field>, ov: Overload)
    requires o <= |s| && ParseNext(s, o, ov).Fault?
    ensures ParseMember(s, o, acc, ov).NoMember?
  {
    hide ParseNext;
  }

  lemma MembersStep(s: string, o: nat, acc: seq<Field>, ov: Overload)
    requires o <= |s|
    ensures ParseMembers(s, o, acc, ov)
         == match ParseMember(s, o, acc, ov)
            case NoMember => Fault
            case LastMember(fields, e) => Parsed(Object(fields), e)
            case Comma(fields, e) => ParseMembers(s, e, fields, ov)
  {
    hide ParseMember;
  }

  lemma {:induction false} ParseMemberList(s: string, o: nat, ms: seq<Member>, acc: seq<Field>, ov: Overload)
    requires ms != [] && At(s, o, FlatMembers(ms)) && BasicMembers(ms)
    ensures o <= |s|
    ensures Outcome(s, ParseMembers(s, o, acc, ov), o + |FlatMembers(ms)|,
                    match SeenFields(ms, ov) case None => None case Some(fs) => Some(Object(PutAll(acc, fs))))
    decreases ms, 5
  {
    hide ParseMember, ParseMembers, SkipWs, Put, At, Flat, Blank, Seen, SeenKey, Basic, BasicMember, StuckAt, KeyDoc;
    var m := ms[0];
    MemberParts(ms);
    ParseOneMember(s, o, m, MemberTail(ms), acc, ov);
    MembersStep(s, o, acc, ov);
    var seen := SeenMember(m, ov);
    var q := o + |FlatMembers(ms)| - |MemberTail(ms)|;
    if seen.None? {
      StuckLater(s, ParseMember(s, o, acc, ov), q, o + |FlatMembers(ms)|);
    } else if |ms| > 1 {
      AtConcat(s, q, ",", FlatMembers(ms[1..]));
      ParseMemberList(s, q + 1, ms[1..], Put(acc, seen.value.key, seen.value.value), ov);
      if fs: seq<Field> :| SeenFields(ms[1..], ov) == Some(fs) {
        PutAllMore(acc, seen.value, fs);
      }
    } else {
      assert SeenFields(ms[1..], ov) == Some([]);
      PutAllMore(acc, seen.value, []);
    }
  }

  lemma StuckLater(s: string, r: MemberRead, q: nat, end: nat)
    requires MemberStopped(s, r, q) && q <= end
    ensures MemberStopped(s, r, end)
  {
  }

  lemma PutAllMore(acc: seq<Field>, f: Field, fs: seq<Field>)
    ensures PutAll(acc, [f] + fs) == PutAll(Put(acc, f.key, f.value), fs)
    ensures PutAll(acc, []) == acc
  {
    hide Put;
    assert ([f] + fs)[1..] == fs;
  }
}
