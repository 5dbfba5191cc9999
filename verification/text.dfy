/** The string operations the scrapers rely on: Python's `str.strip()`,
    BeautifulSoup's `get_text(strip=True)`, and the decimal rendering of a
    number inside an f-string. */
module Text {

  /** Python's `str.isspace()` on one character. */
  predicate IsSpace(ch: char) {
    || ch == ' '
    || ('\t' <= ch <= '\r')
    || ('\U{1C}' <= ch <= '\U{1F}')
    || ch == '\U{85}' || ch == '\U{A0}' || ch == '\U{1680}'
    || ('\U{2000}' <= ch <= '\U{200A}')
    || ch == '\U{2028}' || ch == '\U{2029}' || ch == '\U{202F}'
    || ch == '\U{205F}' || ch == '\U{3000}'
  }

  /** Every character of `s` at an index in `lo..hi` is whitespace. */
  predicate SpaceIn(s: string, lo: int, hi: int) {
    forall i :: lo <= i < hi && 0 <= i < |s| ==> IsSpace(s[i])
  }

  predicate AllSpace(s: string) {
    SpaceIn(s, 0, |s|)
  }

  /** Neither end of `s` is whitespace. */
  predicate Trimmed(s: string) {
    s == [] || (!IsSpace(s[0]) && !IsSpace(s[|s| - 1]))
  }

  /** The first index at or after `k` that holds no whitespace, or `|s|`:
      where `lstrip()` starts its result. */
  function LeadingEnd(s: string, k: nat): (n: nat)
    requires k <= |s|
    ensures k <= n <= |s| && SpaceIn(s, k, n)
    ensures n < |s| ==> !IsSpace(s[n])
    decreases |s| - k
  {
    if k == |s| || !IsSpace(s[k]) then k else LeadingEnd(s, k + 1)
  }

  /** The index just after the last non-whitespace character before `k`,
      or 0: where `rstrip()` ends its result. */
  function TrailingStart(s: string, k: nat): (n: nat)
    requires k <= |s|
    ensures n <= k && SpaceIn(s, n, k)
    ensures n > 0 ==> !IsSpace(s[n - 1])
  {
    if k == 0 || !IsSpace(s[k - 1]) then k else TrailingStart(s, k - 1)
  }

  /** `r` is what is left of `s` once the whitespace before index `i` and
      the whitespace after `r` are removed. */
  predicate StrippedAt(s: string, r: string, i: int) {
    && 0 <= i <= |s| - |r| && r == s[i..i + |r|]
    && SpaceIn(s, 0, i) && SpaceIn(s, i + |r|, |s|)
  }

  /** `s.strip()`: the part of `s` left after removing whitespace at both
      ends; what is removed is all whitespace and what is left is trimmed. */
  function Strip(s: string): (r: string)
    ensures Trimmed(r)
    ensures |r| <= |s|
    ensures exists i :: StrippedAt(s, r, i)
  {
    var lo := LeadingEnd(s, 0);
    if lo == |s| then
      assert StrippedAt(s, [], lo);
      []
    else
      var hi := TrailingStart(s, |s|);
      assert lo < hi;
      assert StrippedAt(s, s[lo..hi], lo);
      s[lo..hi]
  }

  lemma {:induction false} LeadingEndAt(s: string, k: nat, n: nat)
    requires k <= n <= |s| && SpaceIn(s, k, n)
    requires n < |s| ==> !IsSpace(s[n])
    ensures LeadingEnd(s, k) == n
    decreases n - k
  {
    if k < n {
      LeadingEndAt(s, k + 1, n);
    }
  }

  lemma {:induction false} TrailingStartAt(s: string, k: nat, n: nat)
    requires n <= k <= |s| && SpaceIn(s, n, k)
    requires n > 0 ==> !IsSpace(s[n - 1])
    ensures TrailingStart(s, k) == n
    decreases k - n
  {
    if n < k {
      TrailingStartAt(s, k - 1, n);
    }
  }

  /** The converse of Strip's contract: a trimmed part of `s` with only
      whitespace around it is what `strip()` returns. Together they
      determine `Strip`. */
  lemma StripUnique(s: string, t: string, i: int)
    requires StrippedAt(s, t, i) && Trimmed(t)
    ensures Strip(s) == t
  {
    if t == [] {
      assert SpaceIn(s, 0, |s|);
      LeadingEndAt(s, 0, |s|);
    } else {
      assert s[i] == t[0] && s[i + |t| - 1] == t[|t| - 1];
      LeadingEndAt(s, 0, i);
      TrailingStartAt(s, |s|, i + |t|);
    }
  }

  /** Whitespace around a trimmed string is exactly what `strip()` removes. */
  lemma StripPadded(w1: string, t: string, w2: string)
    requires AllSpace(w1) && AllSpace(w2) && Trimmed(t)
    ensures Strip(w1 + t + w2) == t
  {
    var s := w1 + t + w2;
    assert s[|w1|..|w1| + |t|] == t;
    forall j | |w1| + |t| <= j < |s| ensures IsSpace(s[j]) {
      assert s[j] == w2[j - |w1| - |t|];
    }
    StripUnique(s, t, |w1|);
  }

  /** Stripping twice is stripping once. */
  lemma StripIdempotent(s: string)
    ensures Strip(Strip(s)) == Strip(s)
  {
    var t := Strip(s);
    assert t[0..|t|] == t;
    StripUnique(t, t, 0);
  }

  /** A string made only of whitespace strips to the empty string. */
  lemma StripAllSpace(s: string)
    requires AllSpace(s)
    ensures Strip(s) == ""
  {
    StripUnique(s, "", 0);
  }

  lemma TrimmedConcat(a: string, b: string)
    requires Trimmed(a) && Trimmed(b)
    ensures Trimmed(a + b)
  {
    if a == [] {
      assert a + b == b;
    } else if b == [] {
      assert a + b == a;
    } else {
      assert (a + b)[0] == a[0];
      assert (a + b)[|a + b| - 1] == b[|b| - 1];
    }
  }

  /** BeautifulSoup's `element.get_text(strip=True)`: each text node below the
      element in document order is stripped, and the non-empty results are
      joined with no separator. The result never starts or ends with
      whitespace. */
  function GetText(strings: seq<string>): (r: string)
    ensures Trimmed(r)
  {
    if strings == [] then ""
    else
      var r := Strip(strings[0]) + GetText(strings[1..]);
      TrimmedConcat(Strip(strings[0]), GetText(strings[1..]));
      r
  }

  /** An element with one text node yields that node stripped. */
  lemma GetTextSingle(t: string)
    ensures GetText([t]) == Strip(t)
  {
    assert [t][1..] == [];
  }

  /** An element whose text nodes are all whitespace yields "". */
  lemma {:induction false} GetTextBlank(strings: seq<string>)
    requires forall i :: 0 <= i < |strings| ==> AllSpace(strings[i])
    ensures GetText(strings) == ""
  {
    if strings != [] {
      StripAllSpace(strings[0]);
      GetTextBlank(strings[1..]);
    }
  }

  predicate IsDigit(ch: char) {
    '0' as int <= ch as int <= '9' as int
  }

  function DigitChar(d: nat): (ch: char)
    requires d < 10
    ensures IsDigit(ch)
  {
    ('0' as int + d) as char
  }

  /** The decimal rendering Python uses for a non-negative int in an f-string. */
  function Decimal(n: nat): (r: string)
    ensures |r| >= 1
    ensures forall i :: 0 <= i < |r| ==> IsDigit(r[i])
  {
    if n < 10 then [DigitChar(n)] else Decimal(n / 10) + [DigitChar(n % 10)]
  }

  /** The value of a string of decimal digits (the reading of `Decimal`). */
  function DecimalValue(s: string): nat
    requires forall i :: 0 <= i < |s| ==> IsDigit(s[i])
  {
    if s == [] then 0
    else
      assert IsDigit(s[|s| - 1]);
      DecimalValue(s[..|s| - 1]) * 10 + (s[|s| - 1] as int - '0' as int)
  }

  /** Reading back a rendered number gives the number. */
  lemma {:induction false} DecimalRoundTrip(n: nat)
    ensures DecimalValue(Decimal(n)) == n
  {
    if n >= 10 {
      var s := Decimal(n);
      assert s[..|s| - 1] == Decimal(n / 10);
      DecimalRoundTrip(n / 10);
    } else {
      assert Decimal(n)[..0] == [];
    }
  }

  /** Distinct numbers render to distinct strings. */
  lemma DecimalInjective(a: nat, b: nat)
    requires Decimal(a) == Decimal(b)
    ensures a == b
  {
    DecimalRoundTrip(a);
    DecimalRoundTrip(b);
  }
}
