/** The string operations used to build item names: `Integer.toString` of a
    non-negative int, `String.toLowerCase`, `replaceAll(" ", "")` and
    `split("[.]")[0]`. */
module JavaText {
  import opened JavaLang

  predicate IsDigit(c: char) { '0' <= c <= '9' }

  /** A non-empty run of decimal digits. */
  predicate IsDecimal(s: string) {
    |s| > 0 && forall i :: 0 <= i < |s| ==> IsDigit(s[i])
  }

  function DigitChar(d: nat): (c: char)
    requires d < 10
    ensures IsDigit(c) && c as int - '0' as int == d
  {
    ('0' as int + d) as char
  }

  /** The decimal text of `n`, as `"" + n` produces it in Java. */
  function NatToString(n: nat): (s: string)
    ensures IsDecimal(s)
    ensures n < 10 <==> |s| == 1
    ensures |s| > 1 ==> s[0] != '0'
    decreases n
  {
    if n < 10 then [DigitChar(n)] else NatToString(n / 10) + [DigitChar(n % 10)]
  }

  function DigitValue(c: char): nat
    requires IsDigit(c)
  {
    c as int - '0' as int
  }

  /** The value of a run of decimal digits (the inverse of NatToString). */
  function DecimalValue(s: string): nat
    requires forall i :: 0 <= i < |s| ==> IsDigit(s[i])
  {
    if |s| == 0 then 0
    else DecimalValue(s[..|s| - 1]) * 10 + DigitValue(s[|s| - 1])
  }

  /** Reading back the decimal text of `n` gives `n`. */
  lemma {:induction false} DecimalRoundTrip(n: nat)
    ensures DecimalValue(NatToString(n)) == n
    decreases n
  {
    var s := NatToString(n);
    if n >= 10 {
      DecimalRoundTrip(n / 10);
      assert s[..|s| - 1] == NatToString(n / 10);
    }
  }

  /** Different numbers have different decimal texts. */
  lemma NatToStringInjective(a: nat, b: nat)
    requires NatToString(a) == NatToString(b)
    ensures a == b
  {
    DecimalRoundTrip(a);
    DecimalRoundTrip(b);
  }

  /** `base + i` and `base + j` differ whenever i and j do. */
  lemma SuffixedNamesDistinct(base: string, a: nat, b: nat)
    requires base + NatToString(a) == base + NatToString(b)
    ensures a == b
  {
    assert (base + NatToString(a))[|base|..] == NatToString(a);
    assert (base + NatToString(b))[|base|..] == NatToString(b);
    NatToStringInjective(a, b);
  }

  predicate IsAsciiUpper(c: char) { 'A' <= c <= 'Z' }

  function LowerChar(c: char): (r: char)
    ensures !IsAsciiUpper(r)
    ensures !IsAsciiUpper(c) ==> r == c
    ensures IsAsciiUpper(c) ==> r as int == c as int + 32
  {
    if IsAsciiUpper(c) then (c as int + 32) as char else c
  }

  /** `String.toLowerCase`, restricted to the ASCII letters: `'A'..'Z'` become
      `'a'..'z'` and every other character is kept. */
  function ToLower(s: string): (r: string)
    ensures |r| == |s|
    ensures forall i :: 0 <= i < |r| ==> !IsAsciiUpper(r[i])
    ensures forall i :: 0 <= i < |s| && !IsAsciiUpper(s[i]) ==> r[i] == s[i]
    ensures forall i :: 0 <= i < |s| && IsAsciiUpper(s[i]) ==> r[i] as int == s[i] as int + 32
  {
    seq(|s|, i requires 0 <= i < |s| => LowerChar(s[i]))
  }

  /** Lower-casing twice is lower-casing once. */
  lemma ToLowerIdempotent(s: string)
    ensures ToLower(ToLower(s)) == ToLower(s)
  {
  }

  /** `replaceAll(" ", "")`: every space character removed, the rest kept in order. */
  function RemoveSpaces(s: string): (r: string)
    ensures ' ' !in r
    ensures forall c :: c != ' ' ==> multiset(r)[c] == multiset(s)[c]
    ensures ' ' !in s ==> r == s
    ensures forall i :: 0 <= i < |r| ==> r[i] in s
    decreases |s|
  {
    if s == [] then []
    else
      assert s == [s[0]] + s[1..];
      (if s[0] == ' ' then [] else [s[0]]) + RemoveSpaces(s[1..])
  }

  /** `replaceAll` works left to right: removing the spaces of `a + b` removes
      those of `a`, then those of `b`, and keeps the two parts in order. */
  lemma {:induction false} RemoveSpacesConcat(a: string, b: string)
    ensures RemoveSpaces(a + b) == RemoveSpaces(a) + RemoveSpaces(b)
    decreases |a|
  {
    if a == [] {
      assert a + b == b;
    } else {
      assert (a + b)[0] == a[0] && (a + b)[1..] == a[1..] + b;
      RemoveSpacesConcat(a[1..], b);
    }
  }

  /** The stem of a default item name: `("new" + title).toLowerCase().replaceAll(" ", "")`. */
  function DefaultNameBase(title: string): (base: string)
    ensures |base| >= 3 && base[..3] == "new"
    ensures ' ' !in base
    ensures forall i :: 0 <= i < |base| ==> !IsAsciiUpper(base[i])
  {
    var lowered := ToLower("new" + title);
    assert lowered == "new" + lowered[3..];
    RemoveSpacesAppend("new", lowered[3..]);
    RemoveSpaces(lowered)
  }

  lemma {:induction false} RemoveSpacesAppend(a: string, b: string)
    requires ' ' !in a
    ensures RemoveSpaces(a + b) == a + RemoveSpaces(b)
    decreases |a|
  {
    if a != [] {
      assert (a + b)[0] == a[0] && (a + b)[1..] == a[1..] + b;
      assert RemoveSpaces(a + b) == [a[0]] + RemoveSpaces(a[1..] + b);
      RemoveSpacesAppend(a[1..], b);
      assert a == [a[0]] + a[1..];
    } else {
      assert a + b == b;
    }
  }

  /** Index of the first '.' in `s`, or |s| when there is none. */
  function FirstDot(s: string): (k: nat)
    ensures k <= |s|
    ensures '.' !in s[..k]
    ensures k < |s| ==> s[k] == '.'
    decreases |s|
  {
    if s == [] then 0
    else if s[0] == '.' then 0
    else
      var k := 1 + FirstDot(s[1..]);
      assert s[..k] == [s[0]] + s[1..][..k - 1];
      k
  }

  predicate AllDots(s: string) { forall i :: 0 <= i < |s| ==> s[i] == '.' }

  /** `s.split("[.]")[0]`. Java drops trailing empty fields, so a non-empty name made
      only of dots splits into an empty array and indexing it throws. */
  function SplitFirstField(s: string): (r: Completion<string>)
    ensures r.Thrown? <==> |s| > 0 && AllDots(s)
    ensures r.Thrown? ==> r.exception == ArrayIndexOutOfBoundsException
    ensures r.Normal? ==> '.' !in r.value && r.value <= s
    ensures r.Normal? ==> |r.value| == |s| || s[|r.value|] == '.'
  {
    if |s| > 0 && AllDots(s) then Thrown(ArrayIndexOutOfBoundsException)
    else Normal(s[..FirstDot(s)])
  }
}
