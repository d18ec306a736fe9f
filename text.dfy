/** String operations of the .NET base library that the core relies on, written out:
    ordinal case-insensitive comparison (`StringComparer.OrdinalIgnoreCase`), de-duplication
    under it (`Distinct(StringComparer.OrdinalIgnoreCase)`), `string.IsNullOrWhiteSpace`,
    `string.Join`, and `Int32.ToString()` for non-negative values.

    Case folding covers the ASCII letters only.
 */
module Text {
  import opened Base

  // ---------------------------------------------------------------------------------------
  // Ordinal case-insensitive comparison

  /** Upper-case image of an ASCII letter; every other character is its own image. */
  function UpperAscii(c: char): char {
    if 'a' <= c <= 'z' then (c as int - 32) as char else c
  }

  function FoldCase(s: string): (r: string)
    ensures |r| == |s|
    ensures forall i :: 0 <= i < |s| ==> r[i] == UpperAscii(s[i])
  {
    seq(|s|, i requires 0 <= i < |s| => UpperAscii(s[i]))
  }

  /** `StringComparer.OrdinalIgnoreCase.Equals(a, b)`. */
  predicate EqualsIgnoreCase(a: string, b: string) {
    FoldCase(a) == FoldCase(b)
  }

  /** `xs.Contains(x, StringComparer.OrdinalIgnoreCase)`. */
  predicate ContainsIgnoreCase(xs: seq<string>, x: string) {
    exists i :: 0 <= i < |xs| && EqualsIgnoreCase(xs[i], x)
  }

  /** Strings that differ only in the case of ASCII letters compare equal, and no others. */
  lemma EqualsIgnoreCaseMeaning(a: string, b: string)
    ensures EqualsIgnoreCase(a, b) <==>
      |a| == |b| && forall i :: 0 <= i < |a| ==> UpperAscii(a[i]) == UpperAscii(b[i])
  {
    if |a| == |b| && forall i :: 0 <= i < |a| ==> UpperAscii(a[i]) == UpperAscii(b[i]) {
      assert forall i :: 0 <= i < |a| ==> FoldCase(a)[i] == FoldCase(b)[i];
    }
  }

  /** A string is contained in `init + [last]` exactly when it is contained in `init` or is
      `last` ignoring case. */
  lemma ContainsAppend(init: seq<string>, last: string)
    ensures forall x :: ContainsIgnoreCase(init + [last], x) <==> ContainsIgnoreCase(init, x) || EqualsIgnoreCase(last, x)
  {
    var xs := init + [last];
    forall x ensures ContainsIgnoreCase(xs, x) <==> ContainsIgnoreCase(init, x) || EqualsIgnoreCase(last, x) {
      if ContainsIgnoreCase(xs, x) {
        var i :| 0 <= i < |xs| && EqualsIgnoreCase(xs[i], x);
        if i < |init| { assert init[i] == xs[i]; }
      }
      if ContainsIgnoreCase(init, x) {
        var i :| 0 <= i < |init| && EqualsIgnoreCase(init[i], x);
        assert xs[i] == init[i];
      }
      if EqualsIgnoreCase(last, x) {
        assert EqualsIgnoreCase(xs[|xs| - 1], x);
      }
    }
  }

  /** Appending a string that no element equals ignoring case keeps the elements pairwise
      distinct. */
  lemma DistinctAppend(d: seq<string>, last: string)
    requires PairwiseDistinctIgnoreCase(d) && !ContainsIgnoreCase(d, last)
    ensures PairwiseDistinctIgnoreCase(d + [last])
  {
    var r := d + [last];
    forall i, j | 0 <= i < j < |r| ensures !EqualsIgnoreCase(r[i], r[j]) {
      assert r[i] == d[i];
      if j < |d| {
        assert r[j] == d[j];
      } else {
        assert !EqualsIgnoreCase(d[i], last);
      }
    }
  }

  /** `xs.Distinct(StringComparer.OrdinalIgnoreCase)`: the first string of every case-insensitive
      class, in the order of first appearance. */
  function DistinctIgnoreCase(xs: seq<string>): (r: seq<string>)
    ensures |r| <= |xs|
    ensures forall i :: 0 <= i < |r| ==> r[i] in xs
    ensures forall x :: ContainsIgnoreCase(r, x) <==> ContainsIgnoreCase(xs, x)
    ensures PairwiseDistinctIgnoreCase(r)
  {
    if xs == [] then []
    else
      var init := xs[..|xs| - 1];
      var last := xs[|xs| - 1];
      assert xs == init + [last];
      var d := DistinctIgnoreCase(init);
      assert forall i :: 0 <= i < |d| ==> d[i] in xs by {
        forall i | 0 <= i < |d| ensures d[i] in xs {
          assert d[i] in init;
        }
      }
      ContainsAppend(init, last);
      if ContainsIgnoreCase(d, last) then
        d
      else
        ContainsAppend(d, last);
        DistinctAppend(d, last);
        d + [last]
  }

  /** No two strings of the sequence are equal ignoring case. */
  predicate PairwiseDistinctIgnoreCase(xs: seq<string>) {
    forall i, j :: 0 <= i < j < |xs| ==> !EqualsIgnoreCase(xs[i], xs[j])
  }

  /** De-duplication leaves an already duplicate-free sequence as it is. */
  lemma {:induction false} DistinctOfDistinctFree(xs: seq<string>)
    requires PairwiseDistinctIgnoreCase(xs)
    ensures DistinctIgnoreCase(xs) == xs
  {
    if xs != [] {
      var init := xs[..|xs| - 1];
      var last := xs[|xs| - 1];
      assert PairwiseDistinctIgnoreCase(init) by {
        forall i, j | 0 <= i < j < |init| ensures !EqualsIgnoreCase(init[i], init[j]) {
          assert init[i] == xs[i] && init[j] == xs[j];
        }
      }
      DistinctOfDistinctFree(init);
      assert !ContainsIgnoreCase(init, last) by {
        forall i | 0 <= i < |init| ensures !EqualsIgnoreCase(init[i], last) {
          assert xs[i] == init[i];
        }
      }
      assert xs == init + [last];
    }
  }

  /** `xs[j]` is the first string of its case-insensitive class in `xs`. */
  predicate FirstSpelling(xs: seq<string>, j: int) {
    0 <= j < |xs| && !ContainsIgnoreCase(xs[..j], xs[j])
  }

  /** De-duplication keeps the first spelling of every name: a string is in the result
      exactly when it is the first of its case-insensitive class somewhere in the input. */
  lemma {:induction false} DistinctKeepsFirstSpellings(xs: seq<string>)
    ensures forall j :: FirstSpelling(xs, j) ==> xs[j] in DistinctIgnoreCase(xs)
    ensures forall x :: x in DistinctIgnoreCase(xs) ==> exists j :: FirstSpelling(xs, j) && xs[j] == x
  {
    if xs != [] {
      var init := xs[..|xs| - 1];
      var last := xs[|xs| - 1];
      var d := DistinctIgnoreCase(init);
      var r := DistinctIgnoreCase(xs);
      DistinctKeepsFirstSpellings(init);
      assert xs == init + [last];
      assert r == if ContainsIgnoreCase(d, last) then d else d + [last];
      forall j | 0 <= j < |init| ensures FirstSpelling(xs, j) == FirstSpelling(init, j) {
        assert xs[..j] == init[..j];
        assert xs[j] == init[j];
      }
      assert xs[..|xs| - 1] == init;
      forall j | FirstSpelling(xs, j) ensures xs[j] in r {
        if j < |init| {
          assert FirstSpelling(init, j);
        } else {
          assert !ContainsIgnoreCase(d, last);
        }
      }
      forall x | x in r ensures exists j :: FirstSpelling(xs, j) && xs[j] == x {
        if x in d {
          var j :| FirstSpelling(init, j) && init[j] == x;
          assert FirstSpelling(xs, j) && xs[j] == x;
        } else {
          assert x == last && !ContainsIgnoreCase(d, last);
          assert !ContainsIgnoreCase(init, last);
          assert FirstSpelling(xs, |xs| - 1);
        }
      }
    }
  }

  /** De-duplication is idempotent. */
  lemma DistinctIdempotent(xs: seq<string>)
    ensures DistinctIgnoreCase(DistinctIgnoreCase(xs)) == DistinctIgnoreCase(xs)
  {
    DistinctOfDistinctFree(DistinctIgnoreCase(xs));
  }

  // ---------------------------------------------------------------------------------------
  // string.IsNullOrWhiteSpace

  /** `char.IsWhiteSpace`: the characters of Unicode's White_Space property. */
  predicate IsWhiteSpace(c: char) {
    ('\t' <= c <= '\r') || c == ' ' || c == '\U{0085}' || c == '\U{00A0}' || c == '\U{1680}'
    || ('\U{2000}' <= c <= '\U{200A}') || c == '\U{2028}' || c == '\U{2029}' || c == '\U{202F}'
    || c == '\U{205F}' || c == '\U{3000}'
  }

  /** `string.IsNullOrWhiteSpace(s)`. */
  predicate IsNullOrWhiteSpace(s: Option<string>) {
    match s
    case None => true
    case Some(v) => forall i :: 0 <= i < |v| ==> IsWhiteSpace(v[i])
  }

  // ---------------------------------------------------------------------------------------
  // string.Join and its inverse

  /** `string.Join(sep, xs)`. */
  function Join(sep: string, xs: seq<string>): string {
    if xs == [] then ""
    else if |xs| == 1 then xs[0]
    else xs[0] + sep + Join(sep, xs[1..])
  }

  /** Index of the first occurrence of `c` in `s`, or `|s|` when there is none. */
  function IndexOf(s: string, c: char): (k: nat)
    ensures k <= |s|
    ensures k < |s| ==> s[k] == c
    ensures forall i :: 0 <= i < k ==> s[i] != c
  {
    if s == [] then 0
    else if s[0] == c then 0
    else 1 + IndexOf(s[1..], c)
  }

  /** `s.Split(c)`: the pieces between the occurrences of `c`. */
  function Split(s: string, c: char): (pieces: seq<string>)
    ensures |pieces| >= 1
    decreases |s|
  {
    var k := IndexOf(s, c);
    if k == |s| then [s] else [s[..k]] + Split(s[k + 1..], c)
  }

  /** Splitting a joined list at its separator gives back the list, provided the list is
      non-empty and no element holds the separator. */
  lemma {:induction false} SplitJoin(xs: seq<string>, c: char)
    requires xs != []
    requires forall i :: 0 <= i < |xs| ==> c !in xs[i]
    ensures Split(Join([c], xs), c) == xs
  {
    var x := xs[0];
    assert c !in x;
    if |xs| == 1 {
      SplitWithout(x, c);
    } else {
      var rest := Join([c], xs[1..]);
      assert Join([c], xs) == x + [c] + rest;
      SplitAtFirst(x, rest, c);
      SplitJoin(xs[1..], c);
    }
  }

  /** A string without the separator is one piece. */
  lemma SplitWithout(x: string, c: char)
    requires c !in x
    ensures Split(x, c) == [x]
  {
    assert forall i :: 0 <= i < |x| ==> x[i] != c;
    assert IndexOf(x, c) == |x|;
  }

  /** The separator right after a piece without it ends that piece. */
  lemma SplitAtFirst(x: string, rest: string, c: char)
    requires c !in x
    ensures Split(x + [c] + rest, c) == [x] + Split(rest, c)
  {
    var s := x + [c] + rest;
    var k := IndexOf(s, c);
    assert forall i :: 0 <= i < |x| ==> s[i] == x[i] && s[i] != c;
    assert s[|x|] == c;
    assert k == |x|;
    assert s[..k] == x;
    assert s[k + 1..] == rest;
  }

  // ---------------------------------------------------------------------------------------
  // Int32.ToString() for non-negative values

  function Digit(d: nat): char
    requires d < 10
  {
    ('0' as int + d) as char
  }

  predicate IsDigit(c: char) { '0' <= c <= '9' }

  /** Decimal digits of `n`, most significant first, without leading zeros. */
  function DecimalString(n: nat): (s: string)
    ensures |s| >= 1
    ensures forall i :: 0 <= i < |s| ==> IsDigit(s[i])
  {
    if n < 10 then [Digit(n)] else DecimalString(n / 10) + [Digit(n % 10)]
  }

  /** The number a string of decimal digits denotes. */
  function DecimalValue(s: string): nat
    requires forall i :: 0 <= i < |s| ==> IsDigit(s[i])
  {
    if s == [] then 0
    else
      assert IsDigit(s[|s| - 1]);
      DecimalValue(s[..|s| - 1]) * 10 + (s[|s| - 1] as int - '0' as int)
  }

  /** Reading back the decimal string gives the number: the text form is injective. */
  lemma {:induction false} DecimalRoundTrip(n: nat)
    ensures DecimalValue(DecimalString(n)) == n
  {
    if n >= 10 {
      var s := DecimalString(n);
      var head := DecimalString(n / 10);
      assert s[..|s| - 1] == head;
      DecimalRoundTrip(n / 10);
    }
  }

  function Pow10(k: nat): (r: nat)
    ensures r >= 1
  {
    if k == 0 then 1 else 10 * Pow10(k - 1)
  }

  /** A number with `k` significant digits is written with exactly `k` characters. */
  lemma {:induction false} DecimalLength(n: nat, k: nat)
    requires 1 <= k
    requires (if k == 1 then 0 else Pow10(k - 1)) <= n < Pow10(k)
    ensures |DecimalString(n)| == k
  {
    if k > 1 {
      assert n >= 10 by {
        if k == 2 { } else { assert Pow10(k - 1) == 10 * Pow10(k - 2); }
      }
      assert n / 10 < Pow10(k - 1);
      if k > 2 {
        assert Pow10(k - 1) == 10 * Pow10(k - 2);
        assert Pow10(k - 2) <= n / 10;
      }
      DecimalLength(n / 10, k - 1);
    }
  }
}
