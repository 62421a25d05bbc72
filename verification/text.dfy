/** String primitives the quiz applies to raw input lines: ECMAScript's
    `String.prototype.trim` and `String.prototype.toUpperCase`, restricted to
    ASCII, and the decimal rendering of a natural number used in headers. */
module Text {

  /** The ASCII members of ECMAScript's WhiteSpace and LineTerminator sets:
      space, tab, line feed, vertical tab, form feed and carriage return. */
  predicate IsSpace(ch: char) {
    ch == ' ' || ch == '\t' || ch == '\n' || ch == '\U{000B}' || ch == '\U{000C}' || ch == '\r'
  }

  predicate AllSpace(s: string) {
    forall k :: 0 <= k < |s| ==> IsSpace(s[k])
  }

  /** Length of the run of whitespace at the start of `s`. */
  function LeadingSpaces(s: string): (n: nat)
    ensures n <= |s|
    ensures AllSpace(s[..n])
    ensures n < |s| ==> !IsSpace(s[n])
  {
    if |s| > 0 && IsSpace(s[0]) then 1 + LeadingSpaces(s[1..]) else 0
  }

  /** Length of the run of whitespace at the end of `s`. */
  function TrailingSpaces(s: string): (n: nat)
    ensures n <= |s|
    ensures AllSpace(s[|s| - n..])
    ensures n < |s| ==> !IsSpace(s[|s| - n - 1])
  {
    if |s| > 0 && IsSpace(s[|s| - 1]) then 1 + TrailingSpaces(s[..|s| - 1]) else 0
  }

  /** `s.trim()`: the infix of `s` left after removing whitespace at both ends.
      The result sits in `s` right after the leading whitespace, everything
      removed is whitespace, and the result neither starts nor ends with it. */
  function Trim(s: string): (r: string)
    ensures LeadingSpaces(s) + |r| <= |s|
    ensures r == s[LeadingSpaces(s)..LeadingSpaces(s) + |r|]
    ensures AllSpace(s[..LeadingSpaces(s)]) && AllSpace(s[LeadingSpaces(s) + |r|..])
    ensures |r| > 0 ==> !IsSpace(r[0]) && !IsSpace(r[|r| - 1])
    ensures r == [] <==> AllSpace(s)
  {
    var i := LeadingSpaces(s);
    var t := TrailingSpaces(s[i..]);
    assert AllSpace(s) ==> i == |s|;
    s[i..|s| - t]
  }

  /** Trimming is idempotent: a trimmed string has nothing left to remove. */
  lemma TrimIdempotent(s: string)
    ensures Trim(Trim(s)) == Trim(s)
  {
    var r := Trim(s);
    if |r| > 0 {
      assert LeadingSpaces(r) == 0;
      assert TrailingSpaces(r) == 0;
    }
  }

  /** The trimmed text is determined by its defining property: any non-empty
      infix that starts and ends with non-whitespace and has only whitespace
      around it is what `trim` returns. */
  lemma TrimUnique(w: string, i: nat, j: nat)
    requires i < j <= |w|
    requires AllSpace(w[..i]) && AllSpace(w[j..])
    requires !IsSpace(w[i]) && !IsSpace(w[j - 1])
    ensures Trim(w) == w[i..j]
  {
    LeadingSpacesStop(w, i);
    assert !AllSpace(w) by { assert w[i] == w[..j][i]; }
  }

  /** A text that starts with a non-blank character is not blank once trimmed. */
  lemma TrimKeepsNonBlank(s: string)
    requires |s| > 0 && !IsSpace(s[0])
    ensures Trim(s) != []
  {
    assert !AllSpace(s);
  }

  /** Whitespace padding on either side does not change the trimmed text. */
  lemma TrimIgnoresPadding(pre: string, s: string, post: string)
    requires AllSpace(pre) && AllSpace(post)
    ensures Trim(pre + s + post) == Trim(s)
  {
    var w := pre + s + post;
    var r := Trim(s);
    if r == [] {
      AllSpaceConcat(pre, s);
      AllSpaceConcat(pre + s, post);
    } else {
      var i := LeadingSpaces(s);
      var j := i + |r|;
      assert w[..|pre| + i] == pre + s[..i];
      AllSpaceConcat(pre, s[..i]);
      assert w[|pre| + j..] == s[j..] + post;
      AllSpaceConcat(s[j..], post);
      assert w[|pre| + i..|pre| + j] == s[i..j];
      TrimUnique(w, |pre| + i, |pre| + j);
    }
  }

  lemma AllSpaceConcat(a: string, b: string)
    requires AllSpace(a) && AllSpace(b)
    ensures AllSpace(a + b)
  {
    assert forall k :: 0 <= k < |a| + |b| ==> (a + b)[k] == if k < |a| then a[k] else b[k - |a|];
  }

  lemma {:induction false} LeadingSpacesStop(s: string, i: nat)
    requires i < |s| && !IsSpace(s[i]) && AllSpace(s[..i])
    ensures LeadingSpaces(s) == i
    decreases i
  {
    if i > 0 {
      assert IsSpace(s[..i][0]);
      assert s[1..][..i - 1] == s[..i][1..];
      LeadingSpacesStop(s[1..], i - 1);
    }
  }

  /** ASCII upper-casing of one character; every other character is kept. */
  function UpperChar(ch: char): (u: char)
    ensures !('a' <= u <= 'z')
    ensures 'A' <= u <= 'Z' <==> 'a' <= ch <= 'z' || 'A' <= ch <= 'Z'
  {
    if 'a' <= ch <= 'z' then (ch as int - 32) as char else ch
  }

  /** `s.toUpperCase()` on ASCII: same length, upper-cased character by character. */
  function Upper(s: string): (r: string)
    ensures |r| == |s|
    ensures forall k :: 0 <= k < |s| ==> r[k] == UpperChar(s[k])
  {
    if |s| == 0 then [] else [UpperChar(s[0])] + Upper(s[1..])
  }

  /** Upper-casing an upper-cased string changes nothing. */
  lemma UpperIdempotent(s: string)
    ensures Upper(Upper(s)) == Upper(s)
  {
    assert forall k :: 0 <= k < |s| ==> UpperChar(UpperChar(s[k])) == UpperChar(s[k]);
  }

  /** Upper-casing works character by character, so it commutes with slicing. */
  lemma UpperSlice(s: string, i: nat, j: nat)
    requires i <= j <= |s|
    ensures Upper(s)[i..j] == Upper(s[i..j])
  {
  }

  /** Upper-casing neither adds nor removes whitespace. */
  lemma UpperKeepsSpace(s: string)
    ensures AllSpace(Upper(s)) <==> AllSpace(s)
    ensures forall k :: 0 <= k < |s| ==> (IsSpace(Upper(s)[k]) <==> IsSpace(s[k]))
  {
  }

  /** Trimming before or after upper-casing gives the same text, so
      `line.trim().toUpperCase()` is also `line.toUpperCase().trim()`. */
  lemma UpperTrimCommute(s: string)
    ensures Upper(Trim(s)) == Trim(Upper(s))
  {
    if Trim(s) == [] {
      UpperKeepsSpace(s);
    } else {
      UpperOfTrimmed(s);
    }
  }

  lemma UpperOfTrimmed(s: string)
    requires Trim(s) != []
    ensures Trim(Upper(s)) == Upper(Trim(s))
  {
    var u := Upper(s);
    var r := Trim(s);
    var i := LeadingSpaces(s);
    var j := i + |r|;
    assert r[0] == s[i] && r[|r| - 1] == s[j - 1];
    assert s[..i] == s[0..i] && u[..i] == u[0..i];
    UpperSliceSpace(s, 0, i);
    assert s[j..] == s[j..|s|] && u[j..] == u[j..|s|];
    UpperSliceSpace(s, j, |s|);
    UpperKeepsSpace(s);
    assert !IsSpace(u[i]) && !IsSpace(u[j - 1]);
    TrimUnique(u, i, j);
    UpperSlice(s, i, j);
  }

  lemma UpperSliceSpace(s: string, i: nat, j: nat)
    requires i <= j <= |s| && AllSpace(s[i..j])
    ensures AllSpace(Upper(s)[i..j])
  {
    UpperSlice(s, i, j);
    UpperKeepsSpace(s[i..j]);
  }

  function DigitChar(d: nat): (c: char)
    requires d < 10
  {
    ('0' as int + d) as char
  }

  predicate IsDigit(c: char) {
    '0' <= c <= '9'
  }

  /** The decimal numeral of `n`, as template literals render an integer. */
  function Decimal(n: nat): (r: string)
    ensures |r| >= 1
    ensures forall k :: 0 <= k < |r| ==> IsDigit(r[k])
    ensures r[0] == '0' ==> n == 0
  {
    if n < 10 then [DigitChar(n)] else Decimal(n / 10) + [DigitChar(n % 10)]
  }

  function DigitValue(c: char): (d: nat)
    requires IsDigit(c)
    ensures d < 10
  {
    c as int - '0' as int
  }

  /** The number a string of decimal digits denotes. */
  function DigitsValue(s: string): (n: nat)
    requires forall k :: 0 <= k < |s| ==> IsDigit(s[k])
  {
    if |s| == 0 then 0 else 10 * DigitsValue(s[..|s| - 1]) + DigitValue(s[|s| - 1])
  }

  /** Reading back a rendered numeral gives the number. */
  lemma {:induction false} DecimalRoundTrip(n: nat)
    ensures DigitsValue(Decimal(n)) == n
  {
    if n >= 10 {
      var r := Decimal(n);
      assert r[..|r| - 1] == Decimal(n / 10);
      DecimalRoundTrip(n / 10);
    }
  }
}
