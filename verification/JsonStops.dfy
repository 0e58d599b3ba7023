/** Where the parser stops on texts of any kind, and what is left of a broken one (src/enclave/utils/EJson.h). */
module JsonStops {
  import opened Bytes
  import opened Text
  import opened Json
  import opened HandText

  /** The offset stands at a character that is no blank. */
  predicate StandsAt(s: string, e: nat) {
    e < |s| && !IsSpace(s[e])
  }

  // ----- Arrays and objects -----

  /** An array ends behind its bracket, or loses all its items in front of a character that is neither comma nor
      bracket. */
  lemma ArrayStops(s: string, p: nat, ov: Overload)
    requires p < |s| && ParseArray(s, p, ov).Parsed?
    ensures var r := ParseArray(s, p, ov);
            || (r.value.Array? && r.offset > p + 1 && s[r.offset - 1] == ']')
            || (r.value == Array([]) && StandsAt(s, r.offset) && s[r.offset] != ',' && s[r.offset] != ']')
  {
    hide ParseItems;
    var q := SkipWs(s, p + 1);
    if q < |s| && s[q] != ']' {
      ItemsStop(s, q, [], ov);
    }
  }

  lemma {:induction false} ItemsStop(s: string, o: nat, acc: seq<Json>, ov: Overload)
    requires o <= |s| && ParseItems(s, o, acc, ov).Parsed?
    ensures var r := ParseItems(s, o, acc, ov);
            || (r.value.Array? && acc < r.value.items && r.offset > o && s[r.offset - 1] == ']')
            || (r.value == Array([]) && StandsAt(s, r.offset) && s[r.offset] != ',' && s[r.offset] != ']')
    decreases |s| - o
  {
    hide ParseNext;
    var v := ParseNext(s, o, ov);
    var e := SkipWs(s, v.offset);
    if s[e] == ',' {
      ItemsStop(s, e + 1, acc + [v.value], ov);
    }
  }

  /** Every key of the first fields is one of the others. */
  ghost predicate Keeps(a: seq<Field>, b: seq<Field>) {
    forall k: string :: KeyIn(a, k) ==> KeyIn(b, k)
  }

  /** An object ends behind its brace, or with the fields read so far: in front of a character that should have been
      a colon, or of one that is neither comma nor brace. */
  lemma ObjectStops(s: string, p: nat, ov: Overload)
    requires p < |s| && ParseObject(s, p, ov).Parsed?
    ensures var r := ParseObject(s, p, ov);
            r.value.Object? && (|| (r.offset > p + 1 && s[r.offset - 1] == '}')
                                || (StandsAt(s, r.offset) && (s[r.offset] != ':' || (s[r.offset] != ',' && s[r.offset] != '}'))))
  {
    hide ParseMembers;
    var q := SkipWs(s, p + 1);
    if q < |s| && s[q] != '}' {
      MembersStop(s, q, [], ov);
    }
  }

  lemma {:induction false} MembersStop(s: string, o: nat, acc: seq<Field>, ov: Overload)
    requires o <= |s| && ParseMembers(s, o, acc, ov).Parsed?
    ensures var r := ParseMembers(s, o, acc, ov);
            && r.value.Object? && Keeps(acc, r.value.fields)
            && ((r.offset > o && s[r.offset - 1] == '}')
                || (StandsAt(s, r.offset) && (s[r.offset] != ':' || (s[r.offset] != ',' && s[r.offset] != '}'))))
    decreases |s| - o
  {
    hide ParseMember, Keeps;
    MemberStops(s, o, acc, ov);
    var m := ParseMember(s, o, acc, ov);
    if m.Comma? {
      MembersStop(s, m.offset, m.fields, ov);
      KeepsOn(acc, m.fields, ParseMembers(s, o, acc, ov).value.fields);
    }
  }

  lemma KeepsOn(a: seq<Field>, b: seq<Field>, c: seq<Field>)
    requires Keeps(a, b) && Keeps(b, c)
    ensures Keeps(a, c)
  {
    hide KeyIn;
  }

  lemma MemberStops(s: string, o: nat, acc: seq<Field>, ov: Overload)
    requires o <= |s|
    ensures var m := ParseMember(s, o, acc, ov);
            && (!m.NoMember? ==> Keeps(acc, m.fields))
            && (m.LastMember? ==> (m.offset > o && s[m.offset - 1] == '}')
                                  || (StandsAt(s, m.offset) && (s[m.offset] != ':' || (s[m.offset] != ',' && s[m.offset] != '}'))))
  {
    hide ParseNext, Put, ToText, KeyIn;
    var key := ParseNext(s, o, ov);
    if key.Parsed? {
      var c := SkipWs(s, key.offset);
      if c < |s| && s[c] == ':' {
        var v := ParseNext(s, SkipWs(s, c + 1), ov);
        if v.Parsed? {
          forall k: string | KeyIn(acc, k) ensures KeyIn(Put(acc, ToText(key.value), v.value), k) {
            PutKeys(acc, ToText(key.value), v.value, k);
          }
        }
      }
    }
  }

  // ----- Strings -----

  /** A string ends behind an unescaped quote; or it is the empty text, in front of the u of an escape that is
      followed by no four hexadecimal digits. */
  lemma StringStops(s: string, p: nat)
    requires p < |s| && s[p] == '\"' && ParseString(s, p).Parsed?
    ensures var r := ParseString(s, p);
            || (r.offset > p + 1 && s[r.offset - 1] == '\"' && (r.value.String? || r.value.HashValue?))
            || (r.value == String("") && p + 1 < r.offset < |s| && s[r.offset] == 'u' && s[r.offset - 1] == '\\')
  {
    hide ScanString, Interpret, Unhex;
    ScanStops(s, p + 1, "");
    InterpretIsText();
  }

  lemma InterpretIsText()
    ensures forall val: string :: Interpret(val).Some? ==> Interpret(val).value.String? || Interpret(val).value.HashValue?
  {
    hide Unhex;
  }

  /** One step of the scan: over a character, over an escape, or an end. */
  lemma ScanOnce(s: string, i: nat, val: string) returns (next: nat, more: string)
    requires i < |s| && s[i] != '\"'
    ensures next > i
    ensures || (next <= |s| && ScanString(s, i, val) == ScanString(s, next, val + more))
            || ScanString(s, i, val) == Open
            || (&& ScanString(s, i, val) == Broken(i + 1) && i + 1 < |s| && s[i] == '\\' && s[i + 1] == 'u'
                && !(i + 5 < |s| && AllHexDigits(s[i + 2..i + 6])))
  {
    hide AllHexDigits, Unescape;
    next, more := i + 1, [s[i]];
    if s[i] == '\\' && i + 1 < |s| {
      if s[i + 1] != 'u' {
        next, more := i + 2, [Unescape(s[i + 1])];
      } else if i + 6 <= |s| {
        next, more := i + 6, "\\u" + s[i + 2..i + 6];
        assert val + "\\u" + s[i + 2..i + 6] == val + more;
      }
    }
  }

  lemma {:induction false} ScanStops(s: string, i: nat, val: string)
    requires i <= |s|
    ensures var r := ScanString(s, i, val);
            && (r.Closed? ==> val <= r.text && r.next > i && s[r.next - 1] == '\"')
            && (r.Broken? ==> i < r.offset < |s| && s[r.offset] == 'u' && s[r.offset - 1] == '\\'
                              && !(r.offset + 4 < |s| && AllHexDigits(s[r.offset + 1..r.offset + 5])))
    decreases |s| - i
  {
    hide AllHexDigits, Unescape, ScanString;
    if i < |s| && s[i] != '\"' {
      var next, more := ScanOnce(s, i, val);
      if next <= |s| && ScanString(s, i, val) == ScanString(s, next, val + more) {
        ScanStops(s, next, val + more);
      }
    } else {
      ScanEnds(s, i, val);
    }
  }

  lemma ScanEnds(s: string, i: nat, val: string)
    requires i <= |s| && (i < |s| ==> s[i] == '\"')
    ensures ScanString(s, i, val) == if i < |s| then Closed(val, i + 1) else Open
  {
  }

  /** An escape of an unknown letter leaves a backslash. */
  lemma EscapesRead(s: string, i: nat, val: string)
    requires i + 1 < |s| && s[i] == '\\'
    ensures s[i + 1] !in "\"/bfnrtu" ==> ScanString(s, i, val) == ScanString(s, i + 2, val + "\\")
    ensures s[i + 1] == '/' ==> ScanString(s, i, val) == ScanString(s, i + 2, val + "/")
  {
  }

  const HEX_CHARACTERS := "0123456789abcdefABCDEF"

  lemma HexCharacters(c: char)
    ensures c in HEX_CHARACTERS <==> IsAnyHexDigit(c)
  {
    if '0' <= c <= '9' {
      assert HEX_CHARACTERS[c as int - '0' as int] == c;
    } else if 'a' <= c <= 'f' {
      assert HEX_CHARACTERS[c as int - 'a' as int + 10] == c;
    } else if 'A' <= c <= 'F' {
      assert HEX_CHARACTERS[c as int - 'A' as int + 16] == c;
    }
  }

  /** The escape by code is kept as it is written if four hexadecimal digits follow, and breaks the text off if one of
      the next four characters is no such digit. */
  lemma CodeIsKept(s: string, i: nat, val: string)
    requires i + 1 < |s| && s[i] == '\\' && s[i + 1] == 'u'
    ensures i + 6 <= |s| && (forall k :: i + 2 <= k < i + 6 ==> s[k] in HEX_CHARACTERS) ==>
              ScanString(s, i, val) == ScanString(s, i + 6, val + s[i..i + 6])
    ensures (exists k :: i + 2 <= k < i + 6 && k < |s| && s[k] !in HEX_CHARACTERS) ==> ScanString(s, i, val) == Broken(i + 1)
  {
    hide IsAnyHexDigit;
    var end := if i + 6 <= |s| then i + 6 else |s|;
    var code := s[i + 2..end];
    forall k | i + 2 <= k < end ensures s[k] in HEX_CHARACTERS <==> IsAnyHexDigit(code[k - i - 2]) {
      HexCharacters(s[k]);
      assert code[k - i - 2] == s[k];
    }
    if i + 6 <= |s| {
      assert s[i..i + 6] == "\\u" + code;
      assert val + "\\u" + code == val + ("\\u" + code);
    }
  }

  // ----- Scalars -----

  /** A number that is read is the longest number at the start of a run of digits, signs and points without a point,
      in front of a delimiter; what breaks off leaves null behind the character at which it does. */
  lemma NumberStops(s: string, p: nat)
    requires p < |s| && ParseNumber(s, p).Parsed?
    ensures var r := ParseNumber(s, p);
            || (&& r.value.Integral? && Int64(r.value.number) && r.offset < |s| && Delimiter(s[r.offset])
                && forall k :: p <= k < r.offset ==> s[k] == '-' || IsDigit(s[k]))
            || (&& r.value == Null && r.offset > p && !Delimiter(s[r.offset - 1]) && !InNumber(s[r.offset - 1])
                && s[r.offset - 1] != 'e' && s[r.offset - 1] != 'E')
            || (r.value == Null && exists q :: p <= q < r.offset && (s[q] == 'e' || s[q] == 'E') && !Delimiter(s[r.offset - 1]))
  {
    hide Stol;
    StolFits();
    var e := NumberEnd(s, p);
    if e < |s| && Delimiter(s[e]) {
      assert '.' !in s[p..e];
      forall k | p <= k < e ensures s[k] == '-' || IsDigit(s[k]) {
        assert s[p..e][k - p] == s[k];
      }
    }
  }

  /** An exponent at e loses its first character, and the one behind a sign; what follows its digits at f decides: in
      front of a delimiter the number is floating, else null is left behind the character. */
  lemma ExponentReads(s: string, p: nat, e: nat, f: nat)
    requires p <= e && e + 1 < |s| && f < |s| && !IsDigit(s[f])
    requires (s[e] == 'e' || s[e] == 'E') && forall k :: p <= k < e ==> s[k] == '-' || s[k] == '.' || IsDigit(s[k])
    requires var first := e + (if s[e + 1] == '-' then 3 else 2); first <= f && forall k :: first <= k < f ==> IsDigit(s[k])
    ensures ParseNumber(s, p) == if Delimiter(s[f]) then Fault else Parsed(Null, f + 1)
  {
    NumberEndAt(s, p, e);
    DigitsEndAt(s, e + (if s[e + 1] == '-' then 3 else 2), f);
    hide NumberEnd, DigitsEnd, Stol;
  }

  lemma {:induction false} NumberEndAt(s: string, o: nat, e: nat)
    requires o <= e < |s| && !InNumber(s[e]) && forall k :: o <= k < e ==> InNumber(s[k])
    ensures NumberEnd(s, o) == e
    decreases e - o
  {
    if o < e {
      NumberEndAt(s, o + 1, e);
    }
  }

  lemma {:induction false} DigitsEndAt(s: string, o: nat, e: nat)
    requires o <= e < |s| && !IsDigit(s[e]) && forall k :: o <= k < e ==> IsDigit(s[k])
    ensures DigitsEnd(s, o) == e
    decreases e - o
  {
    if o < e {
      DigitsEndAt(s, o + 1, e);
    }
  }

  lemma StolFits()
    ensures forall t: string :: Stol(t).Some? ==> Int64(Stol(t).value)
  {
    hide DigitsValue, LeadingDigits;
  }

  /** Words: of true and false anything else starting with their letter is null where it stands; null itself leaves the
      string form behind the word and the pointer form in front of it, and the other way round for what is no null. */
  lemma WordsStop(s: string, p: nat)
    requires p < |s|
    ensures At(s, p, "true") ==> ParseBool(s, p) == Parsed(Boolean(true), p + 4)
    ensures At(s, p, "false") ==> ParseBool(s, p) == Parsed(Boolean(false), p + 5)
    ensures !At(s, p, "true") && !At(s, p, "false") ==> ParseBool(s, p) == Parsed(Null, p)
    ensures forall ov <- {OfString, OfPointer} :: ParseNull(s, p, ov).Parsed? ==>
                                                    && ParseNull(s, p, ov).value == Null
                                                    && (ParseNull(s, p, ov).offset == p + 4 <==> (At(s, p, "null") <==> ov == OfString))
                                                    && (ParseNull(s, p, ov).offset == p <==> !(At(s, p, "null") <==> ov == OfString))
    ensures ParseNull(s, p, OfString).Parsed?
    ensures ParseNull(s, p, OfPointer).Fault? <==> !At(s, p, "null") && |s| < p + 4
  {
    if At(s, p, "true") {
      AtIndex(s, p, "true", 0);
    }
    if At(s, p, "false") {
      AtIndex(s, p, "false", 0);
    }
  }
}
