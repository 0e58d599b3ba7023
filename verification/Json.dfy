/** The JSON values, printer and parser of src/enclave/utils/EJson.h.
    A std::map is a sequence of fields in key order; floating numbers are left out. */
module Json {
  import opened Bytes
  import opened Text

  const HASH_TAG := "$&JT&$"

  datatype Field = Field(key: string, value: Json)

  datatype Json =
    | Null
    | Object(fields: seq<Field>)
    | Array(items: seq<Json>)
    | HashValue(hash: Hash)
    | String(text: string)
    | Integral(number: int)
    | Boolean(flag: bool)

  // ----- Maps in key order -----

  predicate StrLess(a: string, b: string) {
    b != "" && (a == "" || a[0] < b[0] || (a[0] == b[0] && StrLess(a[1..], b[1..])))
  }

  lemma {:induction false} StrLessTotal(a: string, b: string)
    ensures StrLess(a, b) || StrLess(b, a) || a == b
    ensures !(StrLess(a, b) && StrLess(b, a))
    ensures StrLess(a, b) ==> a != b
  {
    if a != "" && b != "" {
      StrLessTotal(a[1..], b[1..]);
      if a[1..] == b[1..] && a[0] == b[0] {
        assert a == [a[0]] + a[1..] && b == [b[0]] + b[1..];
      }
    }
  }

  lemma {:induction false} StrLessTransitive(a: string, b: string, c: string)
    requires StrLess(a, b) && StrLess(b, c)
    ensures StrLess(a, c)
  {
    if a != "" && a[0] == b[0] == c[0] {
      StrLessTransitive(a[1..], b[1..], c[1..]);
    }
  }

  /** map::operator[] followed by an assignment. */
  function Put(fields: seq<Field>, key: string, value: Json): (r: seq<Field>)
    ensures |fields| <= |r| <= |fields| + 1
  {
    if fields == [] then [Field(key, value)]
    else if fields[0].key == key then [Field(key, value)] + fields[1..]
    else if StrLess(key, fields[0].key) then [Field(key, value)] + fields
    else [fields[0]] + Put(fields[1..], key, value)
  }

  /** A missing key reads as Null, as operator[] on a copy does. */
  function Lookup(fields: seq<Field>, key: string): Json {
    if fields == [] then Null
    else if fields[0].key == key then fields[0].value
    else Lookup(fields[1..], key)
  }

  function Get(j: Json, key: string): Json {
    if j.Object? then Lookup(j.fields, key) else Null
  }

  lemma {:induction false} LookupPut(fields: seq<Field>, key: string, value: Json, k: string)
    ensures Lookup(Put(fields, key, value), k) == if k == key then value else Lookup(fields, k)
  {
    if fields != [] && fields[0].key != key && !StrLess(key, fields[0].key) {
      LookupPut(fields[1..], key, value, k);
    }
  }

  lemma {:induction false} LookupIsField(fields: seq<Field>, key: string)
    ensures Lookup(fields, key) == Null || exists i :: 0 <= i < |fields| && fields[i].value == Lookup(fields, key)
  {
    if fields != [] && fields[0].key != key {
      LookupIsField(fields[1..], key);
      if Lookup(fields, key) != Null {
        var i :| 0 <= i < |fields| - 1 && fields[1..][i].value == Lookup(fields, key);
        assert fields[i + 1].value == Lookup(fields, key);
      }
    }
  }

  /** The value of the last field with the key. */
  function LastOf(fields: seq<Field>, key: string, otherwise: Json): Json {
    if fields == [] then otherwise
    else LastOf(fields[1..], key, if fields[0].key == key then fields[0].value else otherwise)
  }

  lemma {:induction false} LookupPutAll(acc: seq<Field>, fields: seq<Field>, key: string)
    ensures Lookup(PutAll(acc, fields), key) == LastOf(fields, key, Lookup(acc, key))
    decreases fields
  {
    if fields != [] {
      LookupPut(acc, fields[0].key, fields[0].value, key);
      LookupPutAll(Put(acc, fields[0].key, fields[0].value), fields[1..], key);
    }
  }

  ghost predicate DistinctKeys(fields: seq<Field>) {
    forall i, j :: 0 <= i < j < |fields| ==> fields[i].key != fields[j].key
  }

  lemma {:induction false} LastOfDistinct(fields: seq<Field>, i: nat, otherwise: Json)
    requires DistinctKeys(fields) && i < |fields|
    ensures LastOf(fields, fields[i].key, otherwise) == fields[i].value
  {
    if i > 0 {
      LastOfDistinct(fields[1..], i - 1, otherwise);
    } else {
      LastOfAbsent(fields[1..], fields[0].key, fields[0].value);
    }
  }

  lemma {:induction false} LastOfAbsent(fields: seq<Field>, key: string, otherwise: Json)
    requires forall i :: 0 <= i < |fields| ==> fields[i].key != key
    ensures LastOf(fields, key, otherwise) == otherwise
  {
    if fields != [] {
      LastOfAbsent(fields[1..], key, otherwise);
    }
  }

  ghost predicate KeysAscend(fields: seq<Field>) {
    forall i, j :: 0 <= i < j < |fields| ==> StrLess(fields[i].key, fields[j].key)
  }

  /** Inserting the fields one after the other, as the parser does. */
  function PutAll(acc: seq<Field>, fields: seq<Field>): seq<Field>
    decreases fields
  {
    if fields == [] then acc else PutAll(Put(acc, fields[0].key, fields[0].value), fields[1..])
  }

  lemma {:induction false} PutLast(acc: seq<Field>, f: Field)
    requires KeysAscend(acc + [f])
    ensures Put(acc, f.key, f.value) == acc + [f]
  {
    if acc != [] {
      var all := acc + [f];
      assert all[0] == acc[0] && all[|acc|] == f;
      StrLessTotal(acc[0].key, f.key);
      assert acc[1..] + [f] == all[1..];
      PutLast(acc[1..], f);
      assert [acc[0]] + (acc[1..] + [f]) == acc + [f];
    }
  }

  lemma {:induction false} PutAllAscending(acc: seq<Field>, fields: seq<Field>)
    requires KeysAscend(acc + fields)
    ensures PutAll(acc, fields) == acc + fields
    decreases fields
  {
    if fields == [] {
      assert acc + fields == acc;
    } else {
      assert acc + fields == (acc + [fields[0]]) + fields[1..];
      assert KeysAscend(acc + [fields[0]]) by {
        forall i, j | 0 <= i < j < |acc| + 1
          ensures StrLess((acc + [fields[0]])[i].key, (acc + [fields[0]])[j].key)
        {
          assert (acc + fields)[i] == (acc + [fields[0]])[i] && (acc + fields)[j] == (acc + [fields[0]])[j];
        }
      }
      PutLast(acc, fields[0]);
      PutAllAscending(acc + [fields[0]], fields[1..]);
    }
  }

  // ----- Reading primitives -----

  function JsonEscape(s: string): string {
    if s == "" then "" else EscapeChar(s[0]) + JsonEscape(s[1..])
  }

  function EscapeChar(c: char): (e: string)
    ensures e != ""
  {
    match c
    case '\"' => "\\\""
    case '\\' => "\\\\"
    case '\U{8}' => "\\b"
    case '\U{C}' => "\\f"
    case '\n' => "\\n"
    case '\r' => "\\r"
    case '\t' => "\\t"
    case _ => [c]
  }

  predicate Plain(s: string) {
    forall i :: 0 <= i < |s| ==> EscapeChar(s[i]) == [s[i]]
  }

  lemma HexIsPlain(hash: string)
    requires IsHex(hash)
    ensures Plain(hash)
  {
  }

  lemma {:induction false} EscapePlain(s: string)
    requires Plain(s)
    ensures JsonEscape(s) == s
  {
    if s != "" {
      assert Plain(s[1..]);
      EscapePlain(s[1..]);
      assert s == [s[0]] + s[1..];
    }
  }

  function ToText(j: Json): string {
    match j
    case String(t) => JsonEscape(t)
    case HashValue(h) => Hex(h)
    case Integral(n) => IntText(n)
    case _ => ""
  }

  function ToInt(j: Json): int {
    if j.Integral? then j.number else 0
  }

  function Size(j: Json): int {
    match j
    case Object(fs) => |fs|
    case Array(items) => |items|
    case HashValue(_) => HASH_LENGTH
    case _ => -1
  }

  // ----- Printer -----

  function Pad(depth: nat): string {
    if depth == 0 then "" else "  " + Pad(depth - 1)
  }

  function Dump(j: Json, depth: nat): string
    requires depth > 0
    decreases j, 0
  {
    match j
    case Null => "null"
    case Object(fs) => "{\n" + DumpFields(fs, depth) + "\n" + Pad(depth - 1) + "}"
    case Array(items) => "[" + DumpItems(items, depth) + "]"
    case HashValue(h) => "\"" + HASH_TAG + Hex(h) + "\""
    case String(t) => "\"" + JsonEscape(t) + "\""
    case Integral(n) => IntText(n)
    case Boolean(b) => if b then "true" else "false"
  }

  function DumpFields(fs: seq<Field>, depth: nat): string
    requires depth > 0
    decreases fs, 1
  {
    if fs == [] then ""
    else Pad(depth) + "\"" + fs[0].key + "\" : " + Dump(fs[0].value, depth + 1)
         + (if |fs| == 1 then "" else ",\n" + DumpFields(fs[1..], depth))
  }

  function DumpItems(items: seq<Json>, depth: nat): string
    requires depth > 0
    decreases items, 1
  {
    if items == [] then ""
    else Dump(items[0], depth + 1) + (if |items| == 1 then "" else ", " + DumpItems(items[1..], depth))
  }

  // ----- Parser: the function each parse method below computes -----

  /** The overload for std::string and the one for a pointer differ in null. */
  datatype Overload = OfString | OfPointer

  /** Fault: the read leaves the memory s, the number is no 64-bit integer, or it comes out as a floating one. */
  datatype Parse = Fault | Parsed(value: Json, offset: nat)

  predicate IsSpace(c: char) {
    c == ' ' || c == '\t' || c == '\n' || c == '\U{B}' || c == '\U{C}' || c == '\r'
  }

  function SkipWs(s: string, o: nat): (p: nat)
    requires o <= |s|
    ensures o <= p <= |s|
    ensures p < |s| ==> !IsSpace(s[p])
    ensures forall i :: o <= i < p ==> IsSpace(s[i])
    decreases |s| - o
  {
    if o < |s| && IsSpace(s[o]) then SkipWs(s, o + 1) else o
  }

  function ParseNext(s: string, o: nat, ov: Overload): (r: Parse)
    requires o <= |s|
    ensures r.Parsed? ==> o <= r.offset <= |s|
    decreases |s| - o, 3
  {
    var p := SkipWs(s, o);
    if p == |s| then Fault else ParseValue(s, p, ov)
  }

  function ParseValue(s: string, p: nat, ov: Overload): (r: Parse)
    requires p < |s|
    ensures r.Parsed? ==> p <= r.offset <= |s|
    decreases |s| - p, 2
  {
    if s[p] == '[' then ParseArray(s, p, ov)
    else if s[p] == '{' then ParseObject(s, p, ov)
    else ParseScalar(s, p, ov)
  }

  function ParseArray(s: string, p: nat, ov: Overload): (r: Parse)
    requires p < |s|
    ensures r.Parsed? ==> p <= r.offset <= |s|
    decreases |s| - p, 1
  {
    var q := SkipWs(s, p + 1);
    if q == |s| then Fault
    else if s[q] == ']' then Parsed(Array([]), q + 1)
    else ParseItems(s, q, [], ov)
  }

  function ParseItems(s: string, o: nat, acc: seq<Json>, ov: Overload): (r: Parse)
    requires o <= |s|
    ensures r.Parsed? ==> o <= r.offset <= |s|
    decreases |s| - o, 4
  {
    var v := ParseNext(s, o, ov);
    if v.Fault? then Fault else
    var acc' := acc + [v.value];
    var e := SkipWs(s, v.offset);
    if e == |s| then Fault
    else if s[e] == ',' then ParseItems(s, e + 1, acc', ov)
    else if s[e] == ']' then Parsed(Array(acc'), e + 1)
    else Parsed(Array([]), e)
  }

  function ParseObject(s: string, p: nat, ov: Overload): (r: Parse)
    requires p < |s|
    ensures r.Parsed? ==> p <= r.offset <= |s|
    decreases |s| - p, 1
  {
    var q := SkipWs(s, p + 1);
    if q == |s| then Fault
    else if s[q] == '}' then Parsed(Object([]), q + 1)
    else ParseMembers(s, q, [], ov)
  }

  /** One key and value of an object, and the fields read so far. */
  datatype MemberRead = NoMember | LastMember(fields: seq<Field>, offset: nat) | Comma(fields: seq<Field>, offset: nat)

  function ParseMember(s: string, o: nat, acc: seq<Field>, ov: Overload): (r: MemberRead)
    requires o <= |s|
    ensures !r.NoMember? ==> o <= r.offset <= |s|
    ensures r.Comma? ==> o < r.offset
    decreases |s| - o, 4
  {
    var key := ParseNext(s, o, ov);
    if key.Fault? then NoMember else
    var c := SkipWs(s, key.offset);
    if c == |s| then NoMember
    else if s[c] != ':' then LastMember(acc, c)
    else
      var v := ParseNext(s, SkipWs(s, c + 1), ov);
      if v.Fault? then NoMember else
      var acc' := Put(acc, ToText(key.value), v.value);
      var e := SkipWs(s, v.offset);
      if e == |s| then NoMember
      else if s[e] == ',' then Comma(acc', e + 1)
      else if s[e] == '}' then LastMember(acc', e + 1)
      else LastMember(acc', e)
  }

  function ParseMembers(s: string, o: nat, acc: seq<Field>, ov: Overload): (r: Parse)
    requires o <= |s|
    ensures r.Parsed? ==> o <= r.offset <= |s|
    decreases |s| - o, 5
  {
    match ParseMember(s, o, acc, ov)
    case NoMember => Fault
    case LastMember(fields, e) => Parsed(Object(fields), e)
    case Comma(fields, e) => ParseMembers(s, e, fields, ov)
  }

  function ParseScalar(s: string, p: nat, ov: Overload): (r: Parse)
    requires p < |s|
    ensures r.Parsed? ==> p <= r.offset <= |s|
  {
    if s[p] == '\"' then ParseString(s, p)
    else if s[p] == 't' || s[p] == 'f' then ParseBool(s, p)
    else if s[p] == 'n' then ParseNull(s, p, ov)
    else if IsDigit(s[p]) || s[p] == '-' then ParseNumber(s, p)
    else Parsed(Null, p)
  }

  /** The characters of a string up to its closing quote; Broken is the failed \u escape. */
  datatype Scan = Open | Broken(offset: nat) | Closed(text: string, next: nat)

  predicate IsAnyHexDigit(c: char) {
    '0' <= c <= '9' || 'a' <= c <= 'f' || 'A' <= c <= 'F'
  }

  predicate AllHexDigits(s: string) {
    forall i :: 0 <= i < |s| ==> IsAnyHexDigit(s[i])
  }

  function Unescape(c: char): char {
    match c
    case '\"' => '\"'
    case '/' => '/'
    case 'b' => '\U{8}'
    case 'f' => '\U{C}'
    case 'n' => '\n'
    case 'r' => '\r'
    case 't' => '\t'
    case _ => '\\'
  }

  function ScanString(s: string, i: nat, val: string): (r: Scan)
    requires i <= |s|
    ensures r.Broken? ==> i <= r.offset <= |s|
    ensures r.Closed? ==> i < r.next <= |s|
    decreases |s| - i
  {
    if i == |s| then Open
    else if s[i] == '\"' then Closed(val, i + 1)
    else if s[i] != '\\' then ScanString(s, i + 1, val + [s[i]])
    else if i + 1 == |s| then Open
    else if s[i + 1] != 'u' then ScanString(s, i + 2, val + [Unescape(s[i + 1])])
    else
      var code := s[i + 2..if i + 6 <= |s| then i + 6 else |s|];
      if !AllHexDigits(code) then Broken(i + 1)
      else if |code| < 4 then Open
      else ScanString(s, i + 6, val + "\\u" + code)
  }

  /** What the characters of a string stand for; None where the copy of 32 bytes would over-read.
      A tag without an even number of characters behind it is stripped all the same. */
  function Interpret(val: string): Option<Json> {
    if HASH_TAG <= val then
      var rest := val[|HASH_TAG|..];
      if |rest| % 2 != 0 || |rest| == 0 then Some(String(rest))
      else if |rest| < 2 * HASH_LENGTH then None
      else Some(HashValue(Unhex(rest)[..HASH_LENGTH]))
    else Some(String(val))
  }

  function ParseString(s: string, p: nat): (r: Parse)
    requires p < |s| && s[p] == '\"'
    ensures r.Parsed? ==> p < r.offset <= |s|
  {
    match ScanString(s, p + 1, "")
    case Open => Fault
    case Broken(o) => Parsed(String(""), o)
    case Closed(val, next) => (match Interpret(val) case None => Fault case Some(j) => Parsed(j, next))
  }

  predicate InNumber(c: char) {
    c == '-' || c == '.' || IsDigit(c)
  }

  function NumberEnd(s: string, o: nat): (e: nat)
    requires o <= |s|
    ensures o <= e <= |s|
    ensures e < |s| ==> !InNumber(s[e])
    ensures forall i :: o <= i < e ==> InNumber(s[i])
    decreases |s| - o
  {
    if o < |s| && InNumber(s[o]) then NumberEnd(s, o + 1) else o
  }

  predicate Delimiter(c: char) {
    IsSpace(c) || c == ',' || c == ']' || c == '}'
  }

  function LeadingDigits(s: string): (k: nat)
    ensures k <= |s| && AllDigits(s[..k])
    ensures k < |s| ==> !IsDigit(s[k])
  {
    if s != "" && IsDigit(s[0]) then
      var k := LeadingDigits(s[1..]);
      assert s[..k + 1] == [s[0]] + s[1..][..k];
      k + 1
    else 0
  }

  predicate Int64(n: int) {
    -0x8000_0000_0000_0000 <= n < 0x8000_0000_0000_0000
  }

  /** std::stol: the longest number the text starts with; None where it throws. */
  function Stol(t: string): Option<int> {
    var negative := t != "" && t[0] == '-';
    var digits := if negative then t[1..] else t;
    var k := LeadingDigits(digits);
    if k == 0 then None
    else
      var n: int := DigitsValue(digits[..k]);
      var v: int := if negative then -n else n;
      if Int64(v) then Some(v) else None
  }

  function DigitsEnd(s: string, o: nat): (e: nat)
    requires o <= |s|
    ensures o <= e <= |s|
    decreases |s| - o
  {
    if o < |s| && IsDigit(s[o]) then DigitsEnd(s, o + 1) else o
  }

  /** An exponent either breaks off or makes the number floating. Its first character is dropped, and so is the one
      behind a sign. */
  function ParseExponent(s: string, q: nat): (r: Parse)
    requires q <= |s|
    ensures r.Parsed? ==> q <= r.offset <= |s|
  {
    if q == |s| || (s[q] == '-' && q + 1 == |s|) then Fault
    else
      var e := DigitsEnd(s, q + if s[q] == '-' then 2 else 1);
      if e == |s| || Delimiter(s[e]) then Fault else Parsed(Null, e + 1)
  }

  function ParseNumber(s: string, p: nat): (r: Parse)
    requires p < |s|
    ensures r.Parsed? ==> p <= r.offset <= |s|
  {
    var e := NumberEnd(s, p);
    if e == |s| then Fault
    else if s[e] == 'e' || s[e] == 'E' then ParseExponent(s, e + 1)
    else if !Delimiter(s[e]) then Parsed(Null, e + 1)
    else if '.' in s[p..e] then Fault
    else match Stol(s[p..e])
         case Some(n) => Parsed(Integral(n), e)
         case None => Fault
  }

  function ParseBool(s: string, p: nat): (r: Parse)
    requires p < |s|
    ensures r.Parsed? ==> p <= r.offset <= |s|
  {
    if At(s, p, "true") then Parsed(Boolean(true), p + 4)
    else if At(s, p, "false") then Parsed(Boolean(false), p + 5)
    else Parsed(Null, p)
  }

  /** The pointer form tests the wrong way round. */
  function ParseNull(s: string, p: nat, ov: Overload): (r: Parse)
    requires p < |s|
    ensures r.Parsed? ==> p <= r.offset <= |s|
  {
    if At(s, p, "null") then Parsed(Null, if ov.OfString? then p + 4 else p)
    else if ov.OfString? then Parsed(Null, p)
    else if p + 4 <= |s| then Parsed(Null, p + 4)
    else Fault
  }

  /** JSON::Load of a std::string, behind whose characters a NUL can be read. */
  function LoadText(text: string): (r: Parse)
    ensures r.Parsed? ==> r.offset <= |text| + 1
  {
    if text == "" then Parsed(Null, 0) else ParseNext(text + "\0", 0, OfString)
  }

  /** JSON::Load of a pointer, which reads on in memory whatever size it is given. */
  function LoadMemory(memory: string, size: nat): Parse {
    if size == 0 then Parsed(Null, 0) else ParseNext(memory, 0, OfPointer)
  }
}
