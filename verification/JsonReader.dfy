/** The parse methods of src/enclave/utils/EJson.h, which move an offset through the memory. */
module JsonReader {
  import opened Bytes
  import opened Text
  import opened Json

  method ConsumeWs(s: string, start: nat) returns (offset: nat)
    requires start <= |s|
    ensures offset == SkipWs(s, start)
  {
    offset := start;
    while offset < |s| && IsSpace(s[offset])
      invariant start <= offset <= |s|
      invariant SkipWs(s, offset) == SkipWs(s, start)
    {
      offset := offset + 1;
    }
  }

  method ReadNext(s: string, start: nat, ov: Overload) returns (r: Parse)
    requires start <= |s|
    ensures r == ParseNext(s, start, ov)
    decreases |s| - start, 2
  {
    var offset := ConsumeWs(s, start);
    if offset == |s| {
      return Fault;
    }
    if s[offset] == '[' {
      r := ReadArray(s, offset, ov);
    } else if s[offset] == '{' {
      r := ReadObject(s, offset, ov);
    } else if s[offset] == '\"' {
      r := ReadString(s, offset);
    } else if s[offset] == 't' || s[offset] == 'f' {
      r := ParseBool(s, offset);
    } else if s[offset] == 'n' {
      r := ParseNull(s, offset, ov);
    } else if IsDigit(s[offset]) || s[offset] == '-' {
      r := ReadNumber(s, offset);
    } else {
      r := Parsed(Null, offset);
    }
  }

  method ReadObject(s: string, p: nat, ov: Overload) returns (r: Parse)
    requires p < |s|
    ensures r == ParseObject(s, p, ov)
    decreases |s| - p, 1
  {
    var offset := ConsumeWs(s, p + 1);
    if offset == |s| {
      return Fault;
    }
    if s[offset] == '}' {
      return Parsed(Object([]), offset + 1);
    }
    var fields := [];
    while true
      invariant p < offset <= |s|
      invariant ParseMembers(s, offset, fields, ov) == ParseObject(s, p, ov)
      decreases |s| - offset
    {
      var read := ReadMember(s, offset, fields, ov);
      match read
      case NoMember => return Fault;
      case LastMember(all, end) => return Parsed(Object(all), end);
      case Comma(more, next) => fields, offset := more, next;
    }
  }

  method ReadMember(s: string, start: nat, fields: seq<Field>, ov: Overload) returns (r: MemberRead)
    requires start <= |s|
    ensures r == ParseMember(s, start, fields, ov)
    decreases |s| - start, 3
  {
    hide ParseNext, SkipWs, Put, ToText;
    var key := ReadNext(s, start, ov);
    if key.Fault? {
      return NoMember;
    }
    var offset := ConsumeWs(s, key.offset);
    if offset == |s| {
      return NoMember;
    }
    if s[offset] != ':' {
      return LastMember(fields, offset);
    }
    offset := ConsumeWs(s, offset + 1);
    var value := ReadNext(s, offset, ov);
    if value.Fault? {
      return NoMember;
    }
    var all := Put(fields, ToText(key.value), value.value);
    offset := ConsumeWs(s, value.offset);
    if offset == |s| {
      r := NoMember;
    } else if s[offset] == ',' {
      r := Comma(all, offset + 1);
    } else if s[offset] == '}' {
      r := LastMember(all, offset + 1);
    } else {
      r := LastMember(all, offset);
    }
  }

  method ReadArray(s: string, p: nat, ov: Overload) returns (r: Parse)
    requires p < |s|
    ensures r == ParseArray(s, p, ov)
    decreases |s| - p, 1
  {
    hide ParseNext, SkipWs;
    var offset := ConsumeWs(s, p + 1);
    if offset == |s| {
      return Fault;
    }
    if s[offset] == ']' {
      return Parsed(Array([]), offset + 1);
    }
    var items := [];
    while true
      invariant p < offset <= |s|
      invariant ParseItems(s, offset, items, ov) == ParseArray(s, p, ov)
      decreases |s| - offset
    {
      var value := ReadNext(s, offset, ov);
      if value.Fault? {
        return Fault;
      }
      items := items + [value.value];
      offset := ConsumeWs(s, value.offset);
      if offset == |s| {
        return Fault;
      }
      if s[offset] == ',' {
        offset := offset + 1;
      } else if s[offset] == ']' {
        return Parsed(Array(items), offset + 1);
      } else {
        return Parsed(Array([]), offset);
      }
    }
  }

  method ReadString(s: string, p: nat) returns (r: Parse)
    requires p < |s| && s[p] == '\"'
    ensures r == ParseString(s, p)
  {
    var val, offset := "", p + 1;
    while offset < |s| && s[offset] != '\"'
      invariant p < offset <= |s|
      invariant ScanString(s, offset, val) == ScanString(s, p + 1, "")
    {
      if s[offset] != '\\' {
        val, offset := val + [s[offset]], offset + 1;
      } else if offset + 1 == |s| {
        return Fault;
      } else if s[offset + 1] != 'u' {
        val, offset := val + [Unescape(s[offset + 1])], offset + 2;
      } else {
        var code := s[offset + 2..if offset + 6 <= |s| then offset + 6 else |s|];
        if !AllHexDigits(code) {
          return Parsed(String(""), offset + 1);
        }
        if |code| < 4 {
          return Fault;
        }
        val, offset := val + "\\u" + code, offset + 6;
      }
    }
    if offset == |s| {
      return Fault;
    }
    var meaning := Interpret(val);
    r := match meaning case None => Fault case Some(j) => Parsed(j, offset + 1);
  }

  method ReadNumber(s: string, p: nat) returns (r: Parse)
    requires p < |s|
    ensures r == ParseNumber(s, p)
  {
    var offset, floating := p, false;
    while offset < |s| && InNumber(s[offset])
      invariant p <= offset <= |s|
      invariant NumberEnd(s, offset) == NumberEnd(s, p)
      invariant floating <==> '.' in s[p..offset]
    {
      assert s[p..offset + 1] == s[p..offset] + [s[offset]];
      floating := floating || s[offset] == '.';
      offset := offset + 1;
    }
    if offset == |s| {
      return Fault;
    }
    if s[offset] == 'e' || s[offset] == 'E' {
      r := ReadExponent(s, offset + 1);
      return;
    }
    if !Delimiter(s[offset]) {
      return Parsed(Null, offset + 1);
    }
    if floating {
      return Fault;
    }
    var number := Stol(s[p..offset]);
    r := match number case Some(n) => Parsed(Integral(n), offset) case None => Fault;
  }

  method ReadExponent(s: string, q: nat) returns (r: Parse)
    requires q <= |s|
    ensures r == ParseExponent(s, q)
  {
    if q == |s| || (s[q] == '-' && q + 1 == |s|) {
      return Fault;
    }
    var offset := q + 1;
    if s[q] == '-' {
      offset := offset + 1;
    }
    ghost var from := offset;
    while offset < |s| && IsDigit(s[offset])
      invariant from <= offset <= |s|
      invariant DigitsEnd(s, offset) == DigitsEnd(s, from)
    {
      offset := offset + 1;
    }
    r := if offset == |s| || Delimiter(s[offset]) then Fault else Parsed(Null, offset + 1);
  }

  /** JSON::Load of a std::string. */
  method Load(text: string) returns (r: Parse)
    ensures r == LoadText(text)
  {
    if |text| == 0 {
      return Parsed(Null, 0);
    }
    r := ReadNext(text + "\0", 0, OfString);
  }

  /** A text of white space alone reads as null, up to its NUL. */
  lemma BlankIsNull(text: string)
    requires forall c <- text :: IsSpace(c)
    ensures LoadText(text) == Parsed(Null, |text|)
  {
    if text != "" {
      var s := text + "\0";
      var p := SkipWs(s, 0);
      assert s[|text|] == '\0' && !IsSpace('\0');
      forall i | 0 <= i < |text| ensures IsSpace(s[i]) {
        assert s[i] == text[i] && text[i] in text;
      }
      assert p == |text|;
      assert ParseValue(s, p, OfString) == ParseScalar(s, p, OfString) == Parsed(Null, p);
    }
  }
}
