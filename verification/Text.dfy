/** Decimal text, removal of characters and positions inside a text. */
module Text {

  /** Data that only the enclave may see starts with this. */
  const PRIVATE_TAG := "&+CRUSTSWORKERPRIVATE+&"

  function Min(a: int, b: int): int {
    if a < b then a else b
  }

  predicate Distinct(names: seq<string>) {
    forall i, j :: 0 <= i < j < |names| ==> names[i] != names[j]
  }

  predicate IsDigit(c: char) {
    '0' <= c <= '9'
  }

  predicate AllDigits(s: string) {
    forall i :: 0 <= i < |s| ==> IsDigit(s[i])
  }

  function Digit(d: nat): (c: char)
    requires d < 10
    ensures IsDigit(c)
  {
    ('0' as int + d) as char
  }

  /** std::to_string of a non-negative number: no leading zero. */
  function Decimal(n: nat): (s: string)
    ensures |s| > 0 && AllDigits(s)
    ensures n > 0 ==> s[0] != '0'
  {
    if n < 10 then [Digit(n)] else Decimal(n / 10) + [Digit(n % 10)]
  }

  function IntText(n: int): (s: string)
    ensures |s| > 0
  {
    if n < 0 then "-" + Decimal(-n) else Decimal(n)
  }

  function DigitsValue(s: string): nat
    requires AllDigits(s)
  {
    if s == "" then 0 else DigitsValue(s[..|s| - 1]) * 10 + (s[|s| - 1] as int - '0' as int)
  }

  lemma {:induction false} DigitsOfDecimal(n: nat)
    ensures DigitsValue(Decimal(n)) == n
  {
    if n >= 10 {
      DigitsOfDecimal(n / 10);
      assert Decimal(n)[..|Decimal(n)| - 1] == Decimal(n / 10);
    } else {
      assert [Digit(n)][..0] == "";
    }
  }

  lemma DecimalInjective(m: nat, n: nat)
    requires Decimal(m) == Decimal(n)
    ensures m == n
  {
    DigitsOfDecimal(m);
    DigitsOfDecimal(n);
  }

  /** Ten to the k: the numbers of at most k digits lie below it. */
  function Pow10(k: nat): (p: nat)
    ensures p > 0
  {
    if k == 0 then 1 else 10 * Pow10(k - 1)
  }

  lemma {:induction false} DecimalLength(n: nat, k: nat)
    requires k > 0
    ensures |Decimal(n)| <= k <==> n < Pow10(k)
  {
    if k == 1 {
      assert Pow10(1) == 10 * Pow10(0);
    } else {
      DecimalLength(n / 10, k - 1);
      assert Pow10(k) == 10 * Pow10(k - 1);
      if n < 10 {
        assert Pow10(k - 1) >= 1;
      }
    }
  }

  /** remove_char of the source. */
  function RemoveChar(s: string, c: char): (r: string)
    ensures c !in r
  {
    if s == "" then ""
    else if s[0] == c then RemoveChar(s[1..], c)
    else [s[0]] + RemoveChar(s[1..], c)
  }

  lemma {:induction false} RemoveCharConcat(s: string, t: string, c: char)
    ensures RemoveChar(s + t, c) == RemoveChar(s, c) + RemoveChar(t, c)
  {
    if s == "" {
      assert s + t == t;
    } else {
      RemoveCharConcat(s[1..], t, c);
      assert (s + t)[1..] == s[1..] + t;
      if s[0] != c {
        Associative([s[0]], RemoveChar(s[1..], c), RemoveChar(t, c));
      }
    }
  }

  lemma Associative<T>(a: seq<T>, b: seq<T>, c: seq<T>)
    ensures (a + b) + c == a + (b + c)
  {
  }

  lemma {:induction false} RemoveCharAbsent(s: string, c: char)
    requires c !in s
    ensures RemoveChar(s, c) == s
  {
    if s != "" {
      RemoveCharAbsent(s[1..], c);
    }
  }

  lemma Associative4<T>(a: seq<T>, b: seq<T>, c: seq<T>, d: seq<T>)
    ensures a + b + c + d == a + (b + c + d)
    ensures a + b + c + d == (a + b) + (c + d)
  {
    Associative(a, b, c);
    Associative(a + b, c, d);
    Associative(a, b + c, d);
  }

  lemma EmptyRight<T>(a: seq<T>)
    ensures a + [] == a
  {
  }

  lemma EmptyLeft<T>(a: seq<T>)
    ensures [] + a == a
  {
  }

  lemma HeadTail<T>(a: seq<T>)
    requires a != []
    ensures a == [a[0]] + a[1..]
  {
  }

  /** The text t stands in s at position o. */
  predicate At(s: string, o: nat, t: string) {
    o + |t| <= |s| && s[o..o + |t|] == t
  }

  lemma AtConcat(s: string, o: nat, a: string, b: string)
    ensures At(s, o, a + b) <==> At(s, o, a) && At(s, o + |a|, b)
  {
    if o + |a| + |b| <= |s| {
      var w := s[o..o + |a| + |b|];
      assert s[o..o + |a|] == w[..|a|];
      assert s[o + |a|..o + |a| + |b|] == w[|a|..];
      if w == a + b {
        assert w[..|a|] == a && w[|a|..] == b;
      }
      if w[..|a|] == a && w[|a|..] == b {
        assert w == w[..|a|] + w[|a|..];
      }
    }
  }

  lemma AtIndex(s: string, o: nat, t: string, i: nat)
    requires At(s, o, t) && i < |t|
    ensures s[o + i] == t[i]
  {
    assert s[o..o + |t|][i] == s[o + i];
  }
}
