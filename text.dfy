/** The Python string primitives the crawler relies on: the character classes of `re`
    (`\d`, `\w`), `str.strip()`, `str.replace`, `str(n)` and `int(digits)`. */
module Text {

  import opened Results

  /** The Unicode tables behind Python's `\d` and `\w`, the whitespace set of `str.strip()`
      and the decimal value `int()` gives a digit. They are kept abstract. */
  datatype CharClasses = CharClasses(
    digit: char -> bool,
    word: char -> bool,
    space: char -> bool,
    digitValue: char -> nat)

  /** Character classes as Python's really are in the respects the model relies on:
      ';' is neither a digit nor a word character, and '&' and '#' are not word characters. */
  type Classes = cc: CharClasses | !cc.digit(';') && !cc.word(';') && !cc.word('&') && !cc.word('#')
    witness CharClasses(c => false, c => false, c => false, c => 0)

  /** Length of the longest prefix of `s` whose characters all satisfy `p`. */
  function RunLength(p: char -> bool, s: string): (n: nat)
    ensures n <= |s|
    ensures forall i :: 0 <= i < n ==> p(s[i])
    ensures n < |s| ==> !p(s[n])
  {
    if s == [] || !p(s[0]) then 0 else 1 + RunLength(p, s[1..])
  }

  /** Length of the longest suffix of `s` whose characters all satisfy `p`. */
  function TrailingRunLength(p: char -> bool, s: string): (n: nat)
    ensures n <= |s|
    ensures forall i :: |s| - n <= i < |s| ==> p(s[i])
    ensures n < |s| ==> !p(s[|s| - n - 1])
  {
    if s == [] || !p(s[|s| - 1]) then 0 else 1 + TrailingRunLength(p, s[..|s| - 1])
  }

  /** Python's `str.strip()`: leading and trailing whitespace removed. */
  function Strip(cc: Classes, s: string): string
  {
    var i := RunLength(cc.space, s);
    s[i..|s| - TrailingRunLength(cc.space, s[i..])]
  }

  /** What is left is an infix of `s`, only whitespace was cut on either side, the result is
      empty exactly for an all-whitespace string, and it neither starts nor ends with whitespace. */
  lemma StripSpec(cc: Classes, s: string)
    ensures var r := Strip(cc, s);
      (exists i, j :: (0 <= i <= j <= |s| && r == s[i..j]
        && (forall k :: 0 <= k < i ==> cc.space(s[k]))
        && (forall k :: j <= k < |s| ==> cc.space(s[k]))))
      && (r == [] <==> forall k :: 0 <= k < |s| ==> cc.space(s[k]))
      && (r != [] ==> !cc.space(r[0]) && !cc.space(r[|r| - 1]))
  {
    var r := Strip(cc, s);
    var i := RunLength(cc.space, s);
    var t := s[i..];
    var n := TrailingRunLength(cc.space, t);
    var j := |s| - n;
    assert r == s[i..j];
    forall k | j <= k < |s| ensures cc.space(s[k]) {
      assert s[k] == t[k - i];
    }
    assert 0 <= i <= j <= |s| && r == s[i..j]
      && (forall k :: 0 <= k < i ==> cc.space(s[k]))
      && (forall k :: j <= k < |s| ==> cc.space(s[k]));
    StripEnds(cc, s);
  }

  lemma StripEnds(cc: Classes, s: string)
    ensures var r := Strip(cc, s);
      (r == [] <==> forall k :: 0 <= k < |s| ==> cc.space(s[k]))
      && (r != [] ==> !cc.space(r[0]) && !cc.space(r[|r| - 1]))
  {
    var r := Strip(cc, s);
    var i := RunLength(cc.space, s);
    var t := s[i..];
    var n := TrailingRunLength(cc.space, t);
    assert r == t[..|t| - n];
    if i < |s| {
      assert !cc.space(s[i]) && t[0] == s[i];
      assert n < |t|;
      assert r[0] == s[i];
      assert r[|r| - 1] == t[|t| - n - 1];
    }
  }

  /** Stripping twice is stripping once. */
  lemma StripIdempotent(cc: Classes, s: string)
    ensures Strip(cc, Strip(cc, s)) == Strip(cc, s)
  {
    var r := Strip(cc, s);
    StripSpec(cc, s);
    if r != [] {
      assert RunLength(cc.space, r) == 0;
      assert r[0..] == r;
      assert TrailingRunLength(cc.space, r) == 0;
    }
  }

  /** A string that neither starts nor ends with whitespace is its own strip. */
  lemma StripNoOuterSpace(cc: Classes, s: string)
    requires s != [] && !cc.space(s[0]) && !cc.space(s[|s| - 1])
    ensures Strip(cc, s) == s
  {
    assert RunLength(cc.space, s) == 0;
    assert s[0..] == s;
    assert TrailingRunLength(cc.space, s) == 0;
  }

  // ----- subsequences -----

  /** `a` can be obtained from `b` by deleting characters. */
  predicate IsSubsequence(a: string, b: string)
    decreases |b|
  {
    a == [] || (b != [] && ((a[0] == b[0] && IsSubsequence(a[1..], b[1..])) || IsSubsequence(a, b[1..])))
  }

  lemma {:induction false} SubsequenceReflexive(s: string)
    ensures IsSubsequence(s, s)
  {
    if s != [] {
      SubsequenceReflexive(s[1..]);
    }
  }

  lemma {:induction false} SubsequenceLength(a: string, b: string)
    requires IsSubsequence(a, b)
    ensures |a| <= |b|
    decreases |b|
  {
    if a != [] {
      if a[0] == b[0] && IsSubsequence(a[1..], b[1..]) {
        SubsequenceLength(a[1..], b[1..]);
      } else {
        SubsequenceLength(a, b[1..]);
      }
    }
  }

  /** Dropping characters from the front of the longer string keeps a subsequence of what is left. */
  lemma {:induction false} SubsequenceOfSuffix(a: string, b: string, n: nat)
    requires n <= |b| && IsSubsequence(a, b[n..])
    ensures IsSubsequence(a, b)
    decreases n
  {
    if n > 0 {
      assert b[n - 1..][1..] == b[n..];
      SubsequenceOfSuffix(a, b, n - 1);
    }
  }

  lemma {:induction false} SubsequenceTransitive(a: string, b: string, c: string)
    requires IsSubsequence(a, b) && IsSubsequence(b, c)
    ensures IsSubsequence(a, c)
    decreases |c|
  {
    if a != [] {
      if IsSubsequence(b, c[1..]) {
        SubsequenceTransitive(a, b, c[1..]);
      } else if IsSubsequence(a, b[1..]) {
        SubsequenceTransitive(a, b[1..], c[1..]);
      } else {
        SubsequenceTransitive(a[1..], b[1..], c[1..]);
      }
    }
  }

  /** A subsequence holds only characters of the longer string. */
  lemma {:induction false} SubsequenceMembers(a: string, b: string, c: char)
    requires IsSubsequence(a, b) && c in a
    ensures c in b
    decreases |b|
  {
    if a[0] == b[0] && IsSubsequence(a[1..], b[1..]) {
      if c != a[0] {
        assert c in a[1..];
        SubsequenceMembers(a[1..], b[1..], c);
      }
    } else {
      SubsequenceMembers(a, b[1..], c);
    }
  }

  // ----- occurrences and str.replace -----

  /** `pat` occurs in `s` at index `k`. */
  predicate Occurs(pat: string, s: string, k: int)
  {
    0 <= k && k + |pat| <= |s| && s[k..k + |pat|] == pat
  }

  /** Python's `s.replace(pat, rep)` for a non-empty `pat`: the leftmost non-overlapping
      occurrences of `pat`, scanning left to right, are replaced by `rep`. */
  function Replace(s: string, pat: string, rep: string): (r: string)
    requires pat != []
    decreases |s|
  {
    if s == [] then []
    else if pat <= s then rep + Replace(s[|pat|..], pat, rep)
    else [s[0]] + Replace(s[1..], pat, rep)
  }

  /** A string without the pattern is left as it is. */
  lemma {:induction false} ReplaceAbsent(s: string, pat: string, rep: string)
    requires pat != []
    requires forall k :: !Occurs(pat, s, k)
    ensures Replace(s, pat, rep) == s
    decreases |s|
  {
    if s != [] {
      NotPrefix(pat, s);
      forall k ensures !Occurs(pat, s[1..], k) {
        OccursInTail(pat, s, k);
      }
      ReplaceAbsent(s[1..], pat, rep);
      assert s == [s[0]] + s[1..];
    }
  }

  lemma NotPrefix(pat: string, s: string)
    requires !Occurs(pat, s, 0)
    ensures !(pat <= s)
  {
    if |pat| <= |s| {
      assert s[0..|pat|] != pat;
      assert s[..|pat|] == s[0..|pat|];
    }
  }

  /** An occurrence in the tail of `s` is one in `s`, one position further on. */
  lemma OccursInTail(pat: string, s: string, k: int)
    requires s != []
    ensures Occurs(pat, s[1..], k) ==> Occurs(pat, s, k + 1)
  {
    if 0 <= k && k + |pat| <= |s[1..]| {
      assert s[1..][k..k + |pat|] == s[k + 1..k + 1 + |pat|];
    }
  }

  /** Up to the first occurrence nothing changes; that occurrence is replaced and the scan
      resumes after it. */
  lemma {:induction false} ReplaceFirst(a: string, pat: string, rep: string, b: string)
    requires pat != []
    requires forall k :: 0 <= k < |a| ==> !Occurs(pat, a + pat + b, k)
    ensures Replace(a + pat + b, pat, rep) == a + rep + Replace(b, pat, rep)
    decreases |a|
  {
    var s := a + pat + b;
    if a == [] {
      assert s == pat + b;
      assert s[|pat|..] == b;
    } else {
      assert !Occurs(pat, s, 0);
      assert !(pat <= s);
      assert s[1..] == a[1..] + pat + b;
      forall k | 0 <= k < |a[1..]| ensures !Occurs(pat, a[1..] + pat + b, k) {
        assert (a[1..] + pat + b)[k..] == s[k + 1..];
        assert !Occurs(pat, s, k + 1);
      }
      ReplaceFirst(a[1..], pat, rep, b);
    }
  }

  /** Removing occurrences (`replace(pat, '')`) only deletes characters. */
  lemma {:induction false} RemoveIsSubsequence(s: string, pat: string)
    requires pat != []
    ensures IsSubsequence(Replace(s, pat, ""), s)
    decreases |s|
  {
    if s != [] {
      if pat <= s {
        RemoveIsSubsequence(s[|pat|..], pat);
        assert "" + Replace(s[|pat|..], pat, "") == Replace(s[|pat|..], pat, "");
        SubsequenceOfSuffix(Replace(s, pat, ""), s, |pat|);
      } else {
        RemoveIsSubsequence(s[1..], pat);
        assert ([s[0]] + Replace(s[1..], pat, ""))[1..] == Replace(s[1..], pat, "");
      }
    }
  }

  /** Removing a one-character pattern removes exactly the characters equal to it. */
  function Without(s: string, c: char): (r: string)
    ensures c !in r
    ensures forall x :: x in r <==> x in s && x != c
  {
    if s == [] then []
    else if s[0] == c then Without(s[1..], c)
    else [s[0]] + Without(s[1..], c)
  }

  lemma {:induction false} WithoutAppend(s: string, t: string, c: char)
    ensures Without(s + t, c) == Without(s, c) + Without(t, c)
    decreases |s|
  {
    if s != [] {
      assert (s + t)[1..] == s[1..] + t;
      WithoutAppend(s[1..], t, c);
    } else {
      assert s + t == t;
    }
  }

  lemma {:induction false} WithoutAbsent(s: string, c: char)
    requires c !in s
    ensures Without(s, c) == s
    decreases |s|
  {
    if s != [] {
      assert c !in s[1..];
      WithoutAbsent(s[1..], c);
    }
  }

  lemma {:induction false} RemoveCharIsFilter(s: string, c: char)
    ensures Replace(s, [c], "") == Without(s, c)
    decreases |s|
  {
    if s != [] {
      RemoveCharIsFilter(s[1..], c);
      if s[0] == c {
        assert [c] <= s;
        assert s[|[c]|..] == s[1..];
      }
    }
  }

  // ----- str(n) and int(digits) -----

  /** The ASCII decimal digit for `d`. */
  function DigitChar(d: nat): (c: char)
    requires d < 10
    ensures '0' <= c <= '9'
  {
    ('0' as int + d) as char
  }

  /** Python's `str(n)` for a natural number: its decimal digits, no leading zero. */
  function DecimalString(n: nat): (r: string)
    ensures r != []
    ensures forall i :: 0 <= i < |r| ==> '0' <= r[i] <= '9'
    ensures |r| > 1 ==> r[0] != '0'
  {
    if n < 10 then [DigitChar(n)] else DecimalString(n / 10) + [DigitChar(n % 10)]
  }

  /** Python's `int(digits)` for a run of `\d` characters, each worth `cc.digitValue`. */
  function DecimalValue(cc: Classes, ds: string): (v: nat)
  {
    if ds == [] then 0 else 10 * DecimalValue(cc, ds[..|ds| - 1]) + cc.digitValue(ds[|ds| - 1])
  }

  /** The ASCII digits count as `\d` with their usual values. */
  predicate AsciiDigits(cc: Classes)
  {
    forall c :: '0' <= c <= '9' ==> cc.digit(c) && cc.digitValue(c) == c as int - '0' as int
  }

  /** `int(str(n)) == n`. */
  lemma {:induction false} DecimalRoundTrip(cc: Classes, n: nat)
    requires AsciiDigits(cc)
    ensures DecimalValue(cc, DecimalString(n)) == n
  {
    var r := DecimalString(n);
    if n < 10 {
      assert r[..|r| - 1] == [];
      assert cc.digitValue(DigitChar(n)) == n;
    } else {
      DecimalRoundTrip(cc, n / 10);
      assert r[..|r| - 1] == DecimalString(n / 10);
      assert cc.digitValue(DigitChar(n % 10)) == n % 10;
    }
  }

  /** Index of the first `\d` character of `s`, or `|s|` when there is none. */
  function FirstDigitIndex(cc: Classes, s: string): (k: nat)
    ensures k <= |s|
    ensures forall i :: 0 <= i < k ==> !cc.digit(s[i])
    ensures k < |s| ==> cc.digit(s[k])
  {
    if s == [] || cc.digit(s[0]) then 0 else 1 + FirstDigitIndex(cc, s[1..])
  }

  /** The first maximal run of `\d` characters, as `re.findall(r'\d+', s)[0]` finds it. */
  function FirstDigitRun(cc: Classes, s: string): (r: Option<string>)
    ensures r.None? <==> forall i :: 0 <= i < |s| ==> !cc.digit(s[i])
    ensures r.Some? ==> r.value != [] && forall i :: 0 <= i < |r.value| ==> cc.digit(r.value[i])
    ensures r.Some? ==> exists k :: (Occurs(r.value, s, k)
      && (forall i :: 0 <= i < k ==> !cc.digit(s[i]))
      && (k + |r.value| < |s| ==> !cc.digit(s[k + |r.value|])))
  {
    var k := FirstDigitIndex(cc, s);
    if k == |s| then None
    else
      var n := RunLength(cc.digit, s[k..]);
      assert Occurs(s[k..k + n], s, k);
      Some(s[k..k + n])
  }
}
