/** Bytes, 32-byte digests and their hexadecimal text (src/enclave/utils/EUtils.cpp). */
module Bytes {
  type Byte = b: int | 0 <= b < 256

  const HASH_LENGTH := 32

  type Hash = h: seq<Byte> | |h| == HASH_LENGTH witness seq(HASH_LENGTH, _ => 0)

  const ZERO_HASH: Hash := seq(HASH_LENGTH, _ => 0)

  const HEX_DIGITS := "0123456789abcdef"

  predicate IsHexDigit(c: char) {
    '0' <= c <= '9' || 'a' <= c <= 'f'
  }

  predicate IsHex(s: string) {
    forall i :: 0 <= i < |s| ==> IsHexDigit(s[i])
  }

  /** The text of a digest. */
  predicate IsHashText(h: string) {
    |h| == 2 * HASH_LENGTH && IsHex(h)
  }

  /** The text of a byte string, two lower-case digits a byte. */
  function Hex(b: seq<Byte>): (s: string)
    ensures |s| == 2 * |b| && IsHex(s)
  {
    if b == [] then "" else [HEX_DIGITS[b[0] / 16], HEX_DIGITS[b[0] % 16]] + Hex(b[1..])
  }

  /** Any character that is no digit counts as zero. */
  function CharToInt(c: char): (n: int)
    ensures 0 <= n < 16
  {
    if '0' <= c <= '9' then c as int - '0' as int
    else if 'A' <= c <= 'F' then c as int - 'A' as int + 10
    else if 'a' <= c <= 'f' then c as int - 'a' as int + 10
    else 0
  }

  /** The byte of two digits; the product and the sum fit a byte. */
  function PairByte(hi: char, lo: char): Byte {
    CharToInt(hi) * 16 + CharToInt(lo)
  }

  function Unhex(s: string): (b: seq<Byte>)
    requires |s| % 2 == 0
    ensures |b| == |s| / 2
  {
    if s == "" then [] else [PairByte(s[0], s[1])] + Unhex(s[2..])
  }

  lemma PairByteOfDigits(b: Byte)
    ensures PairByte(HEX_DIGITS[b / 16], HEX_DIGITS[b % 16]) == b
  {
    HexDigitValue(b / 16);
    HexDigitValue(b % 16);
  }

  lemma HexDigitValue(d: nat)
    requires d < 16
    ensures CharToInt(HEX_DIGITS[d]) == d
  {
  }

  lemma {:induction false} UnhexHex(b: seq<Byte>)
    ensures Unhex(Hex(b)) == b
  {
    if b != [] {
      var d := [HEX_DIGITS[b[0] / 16], HEX_DIGITS[b[0] % 16]];
      var rest := Hex(b[1..]);
      assert Hex(b) == d + rest;
      assert (d + rest)[2..] == rest;
      UnhexHex(b[1..]);
      PairByteOfDigits(b[0]);
      assert Unhex(Hex(b)) == [b[0]] + b[1..];
    }
  }

  lemma {:induction false} HexUnhex(s: string)
    requires |s| % 2 == 0 && IsHex(s)
    ensures Hex(Unhex(s)) == s
  {
    if s != "" {
      var b := PairByte(s[0], s[1]);
      HexUnhex(s[2..]);
      assert Unhex(s)[0] == b && Unhex(s)[1..] == Unhex(s[2..]);
      DigitOfValue(s[0]);
      DigitOfValue(s[1]);
      assert b / 16 == CharToInt(s[0]) && b % 16 == CharToInt(s[1]);
      assert s == [s[0], s[1]] + s[2..];
    }
  }

  lemma DigitOfValue(c: char)
    requires IsHexDigit(c)
    ensures HEX_DIGITS[CharToInt(c)] == c
  {
  }

  lemma {:induction false} HexAt(b: seq<Byte>, i: nat)
    requires i < |b|
    ensures Hex(b)[2 * i] == HEX_DIGITS[b[i] / 16] && Hex(b)[2 * i + 1] == HEX_DIGITS[b[i] % 16]
  {
    if i > 0 {
      HexAt(b[1..], i - 1);
    }
  }

  lemma {:induction false} UnhexAt(s: string, i: nat)
    requires |s| % 2 == 0 && i < |s| / 2
    ensures Unhex(s)[i] == PairByte(s[2 * i], s[2 * i + 1])
  {
    if i > 0 {
      UnhexAt(s[2..], i - 1);
    }
  }

  /** Fills a buffer of two characters a byte and returns its text. */
  method HexstringSafe(src: seq<Byte>) returns (ans: string)
    ensures ans == Hex(src)
  {
    var buffer := new char[|src| * 2];
    var i := 0;
    while i < |src|
      invariant 0 <= i <= |src|
      invariant forall k :: 0 <= k < i ==>
                              buffer[2 * k] == HEX_DIGITS[src[k] / 16] && buffer[2 * k + 1] == HEX_DIGITS[src[k] % 16]
    {
      buffer[2 * i] := HEX_DIGITS[src[i] / 16];
      buffer[2 * i + 1] := HEX_DIGITS[src[i] % 16];
      i := i + 1;
    }
    forall j | 0 <= j < 2 * |src| ensures buffer[j] == Hex(src)[j] {
      HexAt(src, j / 2);
      assert j == 2 * (j / 2) || j == 2 * (j / 2) + 1;
    }
    ans := buffer[..];
  }

  datatype Option<+T> = None | Some(value: T)

  /** None for an odd or an empty text, as the source returns no buffer there. */
  method HexStringToBytes(src: string) returns (target: Option<seq<Byte>>)
    ensures target == if |src| % 2 != 0 || |src| == 0 then None else Some(Unhex(src))
  {
    if |src| % 2 != 0 || |src| == 0 {
      return None;
    }
    var bytes := new Byte[|src| / 2];
    var i := 0;
    while i < |src|
      invariant 0 <= i <= |src| && i % 2 == 0
      invariant forall k :: 0 <= k < i / 2 ==> bytes[k] == PairByte(src[2 * k], src[2 * k + 1])
    {
      bytes[i / 2] := PairByte(src[i], src[i + 1]);
      i := i + 2;
    }
    forall k | 0 <= k < |src| / 2 ensures bytes[k] == Unhex(src)[k] {
      UnhexAt(src, k);
    }
    assert bytes[..] == Unhex(src);
    target := Some(bytes[..]);
  }

  /** Each digit reads as its place, in upper case as in lower case, and any other character reads as zero. */
  lemma DigitsRead(lower: string, upper: string)
    requires lower == "0123456789abcdef" && upper == "0123456789ABCDEF"
    ensures forall i :: 0 <= i < 16 ==> CharToInt(lower[i]) == CharToInt(upper[i]) == i
    ensures forall c: char :: c !in lower && c !in upper ==> CharToInt(c) == 0
  {
    forall c: char | '0' <= c <= '9' || 'a' <= c <= 'f' ensures c in lower {
      var i := if c <= '9' then c as int - '0' as int else c as int - 'a' as int + 10;
      assert lower[i] == c;
    }
    forall c: char | 'A' <= c <= 'F' ensures c in upper {
      assert upper[c as int - 'A' as int + 10] == c;
    }
  }
}
