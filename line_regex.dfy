/** `re.findall` for the two patterns of the activity driver, `Sno=(.*)"` and `<h2>(.*)</h2>`:
    a literal opening text, a greedy `(.*)` group and a literal closing text. `.` matches
    anything but a newline, so a match never crosses a line, and the greedy group reaches
    the last closing text of the line. */
module LineRegex {

  import opened Results
  import opened Text

  /** Index of the first newline of `s`, or `|s|` when there is none. */
  function LineEnd(s: string): (e: nat)
    ensures e <= |s|
    ensures forall i :: 0 <= i < e ==> s[i] != '\n'
    ensures e < |s| ==> s[e] == '\n'
  {
    if s == [] || s[0] == '\n' then 0 else 1 + LineEnd(s[1..])
  }

  lemma OccursInSuffix(pat: string, s: string, a: nat, m: int)
    requires a <= |s|
    ensures Occurs(pat, s[a..], m) <==> m >= 0 && Occurs(pat, s, a + m)
  {
    if m >= 0 && a + m + |pat| <= |s| {
      assert s[a..][m..m + |pat|] == s[a + m..a + m + |pat|];
    }
  }

  lemma OccursInPrefix(pat: string, s: string, b: nat, m: int)
    requires b <= |s|
    ensures Occurs(pat, s[..b], m) <==> Occurs(pat, s, m) && m + |pat| <= b
  {
    if 0 <= m && m + |pat| <= b {
      assert s[..b][m..m + |pat|] == s[m..m + |pat|];
    }
  }

  /** Leftmost occurrence of `pat` in `s`; `FirstOccurrenceSpec` says it is the leftmost. */
  function FirstOccurrence(pat: string, s: string): (r: Option<nat>)
    ensures r.Some? ==> Occurs(pat, s, r.value)
    decreases |s|
  {
    if |s| < |pat| then None
    else if pat <= s then
      assert s[0..|pat|] == pat;
      Some(0)
    else
      match FirstOccurrence(pat, s[1..])
      case None => None
      case Some(j) =>
        OccursInSuffix(pat, s, 1, j);
        Some(j + 1)
  }

  /** There is a first occurrence exactly when there is an occurrence, and none lies before it. */
  lemma {:induction false} FirstOccurrenceSpec(pat: string, s: string)
    ensures FirstOccurrence(pat, s).None? <==> forall k :: !Occurs(pat, s, k)
    ensures FirstOccurrence(pat, s).Some? ==>
      forall k :: 0 <= k < FirstOccurrence(pat, s).value ==> !Occurs(pat, s, k)
    decreases |s|
  {
    if |s| < |pat| {
    } else if pat <= s {
    } else {
      FirstOccurrenceSpec(pat, s[1..]);
      assert s[0..|pat|] != pat;
      forall k | k >= 1 ensures Occurs(pat, s, k) <==> Occurs(pat, s[1..], k - 1) {
        OccursInSuffix(pat, s, 1, k - 1);
      }
    }
  }

  /** Rightmost occurrence of `pat` in `s`; `LastOccurrenceSpec` says it is the rightmost. */
  function LastOccurrence(pat: string, s: string): (r: Option<nat>)
    ensures r.Some? ==> Occurs(pat, s, r.value)
    decreases |s|
  {
    if |s| < |pat| then None
    else if Occurs(pat, s, |s| - |pat|) then Some(|s| - |pat|)
    else
      match LastOccurrence(pat, s[..|s| - 1])
      case None => None
      case Some(j) =>
        OccursInPrefix(pat, s, |s| - 1, j);
        Some(j)
  }

  /** There is a last occurrence exactly when there is an occurrence, and none lies after it. */
  lemma {:induction false} LastOccurrenceSpec(pat: string, s: string)
    ensures LastOccurrence(pat, s).None? <==> forall k :: !Occurs(pat, s, k)
    ensures LastOccurrence(pat, s).Some? ==>
      forall k :: LastOccurrence(pat, s).value < k ==> !Occurs(pat, s, k)
    decreases |s|
  {
    if |s| < |pat| {
    } else if Occurs(pat, s, |s| - |pat|) {
    } else {
      LastOccurrenceSpec(pat, s[..|s| - 1]);
      forall k | k + |pat| < |s| ensures Occurs(pat, s, k) <==> Occurs(pat, s[..|s| - 1], k) {
        OccursInPrefix(pat, s, |s| - 1, k);
      }
      assert forall k :: Occurs(pat, s, k) ==> k + |pat| < |s|;
    }
  }

  /** The match of `open(.*)close` that starts at index 0 of `s`, if any: the captured group
      and the length of the whole match. The group stops before the newline that ends the
      line and reaches back to the last `close` before it. */
  function MatchHere(open: string, close: string, s: string): (m: Option<(string, nat)>)
    ensures m.Some? ==> 0 < m.value.1 <= |s|
  {
    if open != [] && open <= s then
      var rest := s[|open|..];
      var line := rest[..LineEnd(rest)];
      match LastOccurrence(close, line)
      case Some(k) => Some((line[..k], |open| + k + |close|))
      case None => None
    else None
  }

  /** A pattern whose first character is absent from `a` first occurs where `rest` starts. */
  lemma FirstOccurrenceAfter(pat: string, a: string, rest: string)
    requires pat != [] && pat[0] !in a && pat <= rest
    ensures FirstOccurrence(pat, a + rest) == Some(|a|)
  {
    var s := a + rest;
    assert s[|a|..|a| + |pat|] == rest[..|pat|];
    assert Occurs(pat, s, |a|);
    forall k | 0 <= k < |a| ensures !Occurs(pat, s, k) {
      assert s[k] == a[k] != pat[0];
      if k + |pat| <= |s| {
        assert s[k..k + |pat|][0] == s[k];
      }
    }
    FirstOccurrenceIs(pat, s, |a|);
  }

  /** An occurrence with none before it is the first one. */
  lemma FirstOccurrenceIs(pat: string, s: string, i: nat)
    requires Occurs(pat, s, i) && forall k :: 0 <= k < i ==> !Occurs(pat, s, k)
    ensures FirstOccurrence(pat, s) == Some(i)
  {
    FirstOccurrenceSpec(pat, s);
  }

  /** A one-character pattern absent from `b` last occurs just before `b`. */
  lemma LastOccurrenceBefore(pat: string, x: string, b: string)
    requires |pat| == 1 && pat[0] !in b
    ensures LastOccurrence(pat, x + pat + b) == Some(|x|)
  {
    var s := x + pat + b;
    assert s[|x|..|x| + 1] == pat;
    assert Occurs(pat, s, |x|);
    var r := LastOccurrence(pat, s);
    LastOccurrenceSpec(pat, s);
    assert r.Some? && |x| <= r.value;
    if |x| < r.value {
      NotInSuffix(pat, x, b, r.value);
      assert false;
    }
  }

  lemma NotInSuffix(pat: string, x: string, b: string, k: int)
    requires |pat| == 1 && pat[0] !in b
    ensures |x| < k ==> !Occurs(pat, x + pat + b, k)
  {
    var s := x + pat + b;
    if |x| < k < |s| {
      assert s[k] == b[k - |x| - 1];
      assert s[k..k + 1][0] == s[k];
    }
  }

  /** `re.findall(open + '(.*)' + close, s)`: at each position from left to right, try a
      match; after one the scan resumes at its end, otherwise one character further on. */
  function FindAll(open: string, close: string, s: string): (r: seq<string>)
    decreases |s|
  {
    if s == [] then []
    else
      match MatchHere(open, close, s)
      case Some((group, n)) => [group] + FindAll(open, close, s[n..])
      case None => FindAll(open, close, s[1..])
  }

  /** What a single line contributes: nothing, or the text from just after the first `open`
      up to the last `close` that follows it. */
  function LineCapture(open: string, close: string, line: string): (r: seq<string>)
    ensures |r| <= 1
  {
    match FirstOccurrence(open, line)
    case None => []
    case Some(j) => CaptureAfter(close, line[j + |open|..])
  }

  /** What the greedy group takes from the text after the opening: everything up to the
      last `close`, or nothing when there is no `close`. */
  function CaptureAfter(close: string, after: string): (r: seq<string>)
    ensures |r| <= 1
  {
    match LastOccurrence(close, after)
    case None => []
    case Some(k) => [after[..k]]
  }

  /** The reading of `open(.*)close` on one line as a person states it: the text from the end
      of the first `open` to the start of the last `close`, if the latter comes after the former. */
  function FirstToLast(open: string, close: string, line: string): seq<string>
  {
    Between(line, FirstOccurrence(open, line), |open|, LastOccurrence(close, line))
  }

  /** The text from `n` characters after `first` up to `last`, when both exist in that order. */
  function Between(line: string, first: Option<nat>, n: nat, last: Option<nat>): seq<string>
  {
    if first.Some? && last.Some? && first.value + n <= last.value <= |line|
    then [line[first.value + n..last.value]]
    else []
  }

  lemma FirstToLastAt(open: string, close: string, line: string, i: nat, j: nat)
    requires FirstOccurrence(open, line) == Some(i) && LastOccurrence(close, line) == Some(j)
    requires i + |open| <= j
    ensures FirstToLast(open, close, line) == [line[i + |open|..j]]
  {
    LastWithin(close, line, j);
    BetweenIs(line, FirstOccurrence(open, line), |open|, LastOccurrence(close, line), i, j);
    FirstToLastUnfold(open, close, line);
  }

  lemma FirstToLastUnfold(open: string, close: string, line: string)
    ensures FirstToLast(open, close, line) == Between(line, FirstOccurrence(open, line), |open|, LastOccurrence(close, line))
  {
  }

  lemma LastWithin(pat: string, s: string, j: nat)
    requires LastOccurrence(pat, s) == Some(j)
    ensures j + |pat| <= |s|
  {
    assert Occurs(pat, s, j);
  }

  lemma BetweenIs(line: string, first: Option<nat>, n: nat, last: Option<nat>, i: nat, j: nat)
    requires first == Some(i) && last == Some(j) && i + n <= j <= |line|
    ensures Between(line, first, n, last) == [line[i + n..j]]
  {
  }

  /** A line `a open v close b` whose `a` cannot start `open` and whose `b` holds no `close`
      reads as `v`. */
  lemma FirstToLastOfLink(open: string, close: string, a: string, v: string, b: string)
    requires open != [] && open[0] !in a
    requires |close| == 1 && close[0] !in b
    ensures FirstToLast(open, close, a + open + v + close + b) == [v]
  {
    FirstOfLink(open, close, a, v, b);
    LastOfLink(open, close, a, v, b);
    var line := a + open + v + close + b;
    FirstToLastAt(open, close, line, |a|, |a + open + v|);
    assert line == a + open + v + (close + b);
    MiddleSlice(a + open, v, close + b);
  }

  lemma MiddleSlice(x: string, v: string, y: string)
    ensures (x + v + y)[|x|..|x + v|] == v
  {
  }

  lemma FirstOfLink(open: string, close: string, a: string, v: string, b: string)
    requires open != [] && open[0] !in a
    ensures FirstOccurrence(open, a + open + v + close + b) == Some(|a|)
  {
    assert a + open + v + close + b == a + (open + v + close + b);
    FirstOccurrenceAfter(open, a, open + v + close + b);
  }

  lemma LastOfLink(open: string, close: string, a: string, v: string, b: string)
    requires |close| == 1 && close[0] !in b
    ensures LastOccurrence(close, a + open + v + close + b) == Some(|a + open + v|)
  {
    LastOccurrenceBefore(close, a + open + v, b);
  }

  /** The scanner's view of a line and the first-to-last reading agree. */
  lemma LineCaptureFirstToLast(open: string, close: string, line: string)
    ensures LineCapture(open, close, line) == FirstToLast(open, close, line)
  {
    var first := FirstOccurrence(open, line);
    if first.Some? {
      var j := first.value;
      var inAfter := LastOccurrence(close, line[j + |open|..]);
      if inAfter.Some? {
        CaptureAgrees(open, close, line, j, inAfter.value);
      } else {
        NoCaptureAgrees(open, close, line, j);
      }
    }
  }

  lemma CaptureAgrees(open: string, close: string, line: string, j: nat, k: nat)
    requires FirstOccurrence(open, line) == Some(j)
    requires j + |open| <= |line| && LastOccurrence(close, line[j + |open|..]) == Some(k)
    ensures LineCapture(open, close, line) == FirstToLast(open, close, line)
  {
    var b := j + |open|;
    LastOccurrenceInSuffix(close, line, b, k);
    SliceOfSuffix(line, b, k);
    CaptureIs(open, close, line, j, k);
    FirstToLastAt(open, close, line, j, b + k);
    calc {
      LineCapture(open, close, line);
      [line[b..][..k]];
      [line[b..b + k]];
      FirstToLast(open, close, line);
    }
  }

  lemma SliceOfSuffix(s: string, b: nat, k: nat)
    requires b + k <= |s|
    ensures s[b..][..k] == s[b..b + k]
  {
  }

  lemma NoCaptureAgrees(open: string, close: string, line: string, j: nat)
    requires FirstOccurrence(open, line) == Some(j)
    requires j + |open| <= |line| && LastOccurrence(close, line[j + |open|..]).None?
    ensures LineCapture(open, close, line) == FirstToLast(open, close, line)
  {
    LastOccurrenceBeforeSuffix(close, line, j + |open|);
    NoCaptureAfter(open, close, line, j);
  }

  lemma CaptureIs(open: string, close: string, line: string, j: nat, k: nat)
    requires FirstOccurrence(open, line) == Some(j)
    requires j + |open| <= |line| && LastOccurrence(close, line[j + |open|..]) == Some(k)
    ensures LineCapture(open, close, line) == [line[j + |open|..][..k]]
  {
  }

  lemma NoCaptureAfter(open: string, close: string, line: string, j: nat)
    requires FirstOccurrence(open, line) == Some(j)
    requires j + |open| <= |line| && LastOccurrence(close, line[j + |open|..]).None?
    requires LastOccurrence(close, line).None? || LastOccurrence(close, line).value < j + |open|
    ensures LineCapture(open, close, line) == [] == FirstToLast(open, close, line)
  {
  }

  /** The last occurrence in a suffix of `s` is the last one in `s`, seen from the suffix. */
  lemma LastOccurrenceInSuffix(pat: string, s: string, b: nat, k: nat)
    requires b <= |s| && LastOccurrence(pat, s[b..]) == Some(k)
    ensures LastOccurrence(pat, s) == Some(b + k)
  {
    OccursInSuffix(pat, s, b, k);
    var q := LastOccurrence(pat, s);
    LastOccurrenceSpec(pat, s);
    LastOccurrenceSpec(pat, s[b..]);
    assert q.Some? && b + k <= q.value;
    OccursSeenFromSuffix(pat, s, b, q.value);
    assert q.value - b <= k;
  }

  lemma OccursSeenFromSuffix(pat: string, s: string, b: nat, p: int)
    requires b <= p && Occurs(pat, s, p)
    ensures Occurs(pat, s[b..], p - b)
  {
    assert s[b..][p - b..p - b + |pat|] == s[p..p + |pat|];
  }

  /** A suffix without the pattern: any occurrence in `s` starts before the suffix. */
  lemma LastOccurrenceBeforeSuffix(pat: string, s: string, b: nat)
    requires b <= |s| && LastOccurrence(pat, s[b..]).None?
    ensures LastOccurrence(pat, s).None? || LastOccurrence(pat, s).value < b
  {
    var q := LastOccurrence(pat, s);
    LastOccurrenceSpec(pat, s[b..]);
    if q.Some? && b <= q.value {
      OccursInSuffix(pat, s, b, q.value - b);
    }
  }

  /** The per-line reading of `re.findall`: every line in order, each giving at most one capture. */
  function CapturesByLine(open: string, close: string, s: string): (r: seq<string>)
    decreases |s|
  {
    var e := LineEnd(s);
    LineCapture(open, close, s[..e]) + (if e < |s| then CapturesByLine(open, close, s[e + 1..]) else [])
  }

  predicate SingleLine(s: string)
  {
    forall i :: 0 <= i < |s| ==> s[i] != '\n'
  }

  lemma NoNewlineSingleLine(s: string)
    requires '\n' !in s
    ensures SingleLine(s)
  {
  }

  lemma LineEndOfLine(x: string, tail: string)
    requires SingleLine(x) && (tail == [] || tail[0] == '\n')
    ensures LineEnd(x + tail) == |x|
  {
    assert forall i :: 0 <= i < |x| ==> (x + tail)[i] == x[i] != '\n';
    assert |x| < |x + tail| ==> (x + tail)[|x|] == '\n';
  }

  /** A line whose closing texts all start inside the first `|open|` characters gives nothing. */
  lemma NoLateCloseNoCapture(open: string, close: string, line: string)
    requires forall m :: Occurs(close, line, m) ==> m < |open|
    ensures LineCapture(open, close, line) == []
  {
    LineCaptureFirstToLast(open, close, line);
  }

  /** The scanner consumes one line at a time: whatever it finds in a line is that line's capture. */
  lemma {:induction false} ScanLine(open: string, close: string, t: string, tail: string)
    requires open != [] && close != [] && SingleLine(open) && SingleLine(close)
    requires SingleLine(t) && (tail == [] || tail[0] == '\n')
    ensures FindAll(open, close, t + tail) == LineCapture(open, close, t) + FindAll(open, close, tail)
    decreases |t|, 1
  {
    if t == [] {
      assert t + tail == tail;
    } else if open <= t + tail {
      OpenAtLineStart(open, close, t, tail);
      match LastOccurrence(close, t[|open|..])
      case Some(k) => ScanMatch(open, close, t, tail, k);
      case None => ScanNoClose(open, close, t, tail);
    } else {
      ScanSkip(open, close, t, tail);
    }
  }

  /** An `open` at the start of the line: the scanner's line is the rest of `t`, and `t`'s
      first `open` is at index 0. */
  lemma OpenAtLineStart(open: string, close: string, t: string, tail: string)
    requires SingleLine(open) && SingleLine(t) && (tail == [] || tail[0] == '\n')
    requires open <= t + tail
    ensures |open| <= |t|
    ensures var rest := (t + tail)[|open|..]; rest[..LineEnd(rest)] == t[|open|..]
    ensures FirstOccurrence(open, t) == Some(0)
  {
    var s := t + tail;
    OpenInLine(open, t, tail);
    var rest := s[|open|..];
    assert rest == t[|open|..] + tail;
    LineEndOfLine(t[|open|..], tail);
  }

  lemma {:induction false} ScanMatch(open: string, close: string, t: string, tail: string, k: nat)
    requires open != [] && close != [] && SingleLine(open) && SingleLine(close)
    requires SingleLine(t) && (tail == [] || tail[0] == '\n')
    requires open <= t + tail && |open| <= |t| && FirstOccurrence(open, t) == Some(0)
    requires var rest := (t + tail)[|open|..]; rest[..LineEnd(rest)] == t[|open|..]
    requires LastOccurrence(close, t[|open|..]) == Some(k)
    ensures FindAll(open, close, t + tail) == LineCapture(open, close, t) + FindAll(open, close, tail)
    decreases |t|, 0
  {
    var line := t[|open|..];
    var u := t[|open| + k + |close|..];
    MatchStep(open, close, t, tail, k);
    assert u == line[k + |close|..];
    assert SingleLine(u) by {
      forall i | 0 <= i < |u| ensures u[i] != '\n' {
        assert u[i] == t[|open| + k + |close| + i];
      }
    }
    ScanLine(open, close, u, tail);
    NothingAfterLastClose(open, close, line, k);
    assert LineCapture(open, close, u) == [];
    assert FindAll(open, close, u + tail) == FindAll(open, close, tail);
  }

  lemma MatchStep(open: string, close: string, t: string, tail: string, k: nat)
    requires open != [] && open <= t + tail && |open| <= |t| && FirstOccurrence(open, t) == Some(0)
    requires var rest := (t + tail)[|open|..]; rest[..LineEnd(rest)] == t[|open|..]
    requires LastOccurrence(close, t[|open|..]) == Some(k)
    ensures |open| + k + |close| <= |t|
    ensures FindAll(open, close, t + tail)
         == [t[|open|..][..k]] + FindAll(open, close, t[|open| + k + |close|..] + tail)
    ensures LineCapture(open, close, t) == [t[|open|..][..k]]
  {
    var line := t[|open|..];
    var n := |open| + k + |close|;
    assert Occurs(close, line, k);
    MatchHereIs(open, close, t + tail, line, k);
    FindAllAfterMatch(open, close, t + tail, line[..k], n);
    SuffixOfJoin(t, tail, n);
    CaptureIs(open, close, t, 0, k);
  }

  /** A match at the start: the scanner's line is `line` and its last `close` is at `k`. */
  lemma MatchHereIs(open: string, close: string, s: string, line: string, k: nat)
    requires open != [] && open <= s
    requires var rest := s[|open|..]; rest[..LineEnd(rest)] == line
    requires LastOccurrence(close, line) == Some(k)
    ensures MatchHere(open, close, s) == Some((line[..k], |open| + k + |close|))
  {
  }

  /** After a match of length `n` the scan resumes `n` characters further on. */
  lemma FindAllAfterMatch(open: string, close: string, s: string, group: string, n: nat)
    requires s != [] && MatchHere(open, close, s) == Some((group, n))
    ensures FindAll(open, close, s) == [group] + FindAll(open, close, s[n..])
  {
  }

  lemma SuffixOfJoin(t: string, tail: string, n: nat)
    requires n <= |t|
    ensures (t + tail)[n..] == t[n..] + tail
  {
  }

  /** What follows the last `close` of a line holds no capture. */
  lemma NothingAfterLastClose(open: string, close: string, line: string, k: nat)
    requires close != [] && LastOccurrence(close, line) == Some(k)
    ensures LineCapture(open, close, line[k + |close|..]) == []
  {
    var u := line[k + |close|..];
    LastOccurrenceSpec(close, line);
    forall m ensures !Occurs(close, u, m) {
      OccursInSuffix(close, line, k + |close|, m);
    }
    NoLateCloseNoCapture(open, close, u);
  }

  lemma {:induction false} ScanNoClose(open: string, close: string, t: string, tail: string)
    requires open != [] && close != [] && SingleLine(open) && SingleLine(close)
    requires SingleLine(t) && (tail == [] || tail[0] == '\n')
    requires open <= t + tail && |open| <= |t| && FirstOccurrence(open, t) == Some(0)
    requires var rest := (t + tail)[|open|..]; rest[..LineEnd(rest)] == t[|open|..]
    requires LastOccurrence(close, t[|open|..]).None?
    ensures FindAll(open, close, t + tail) == LineCapture(open, close, t) + FindAll(open, close, tail)
    decreases |t|, 0
  {
    var s := t + tail;
    MatchHereNoClose(open, close, s, t[|open|..]);
    FindAllNoMatch(open, close, s);
    SuffixOfJoin(t, tail, 1);
    NoCloseNoCapture(open, close, t);
    SingleLineTail(t);
    ScanLine(open, close, t[1..], tail);
    ClosesOnlyEarly(open, close, t);
    NoLateCloseNoCapture(open, close, t[1..]);
    assert FindAll(open, close, t[1..] + tail) == [] + FindAll(open, close, tail);
  }

  lemma MatchHereNoClose(open: string, close: string, s: string, line: string)
    requires open != [] && open <= s
    requires var rest := s[|open|..]; rest[..LineEnd(rest)] == line
    requires LastOccurrence(close, line).None?
    ensures MatchHere(open, close, s).None?
  {
  }

  /** Where no match starts, the scan moves on by one character. */
  lemma FindAllNoMatch(open: string, close: string, s: string)
    requires s != [] && MatchHere(open, close, s).None?
    ensures FindAll(open, close, s) == FindAll(open, close, s[1..])
  {
  }

  lemma NoCloseNoCapture(open: string, close: string, t: string)
    requires |open| <= |t| && FirstOccurrence(open, t) == Some(0)
    requires LastOccurrence(close, t[|open|..]).None?
    ensures LineCapture(open, close, t) == []
  {
    CaptureFrom(open, close, t, 0);
    assert t[0 + |open|..] == t[|open|..];
  }

  lemma SingleLineTail(t: string)
    requires t != [] && SingleLine(t)
    ensures SingleLine(t[1..])
  {
    forall i | 0 <= i < |t| - 1 ensures t[1..][i] != '\n' {
      assert t[1..][i] == t[i + 1];
    }
  }

  /** With no `close` after the opening, every `close` of the tail starts inside the opening. */
  lemma ClosesOnlyEarly(open: string, close: string, t: string)
    requires t != [] && |open| <= |t| && LastOccurrence(close, t[|open|..]).None?
    ensures forall m :: Occurs(close, t[1..], m) ==> m < |open|
  {
    LastOccurrenceSpec(close, t[|open|..]);
    forall m | Occurs(close, t[1..], m) ensures m < |open| {
      OccursInSuffix(close, t, 1, m);
      if m + 1 >= |open| {
        OccursInSuffix(close, t, |open|, m + 1 - |open|);
      }
    }
  }

  lemma {:induction false} ScanSkip(open: string, close: string, t: string, tail: string)
    requires open != [] && close != [] && SingleLine(open) && SingleLine(close)
    requires SingleLine(t) && (tail == [] || tail[0] == '\n')
    requires t != [] && !(open <= t + tail)
    ensures FindAll(open, close, t + tail) == LineCapture(open, close, t) + FindAll(open, close, tail)
    decreases |t|, 0
  {
    var s := t + tail;
    assert FindAll(open, close, s) == FindAll(open, close, s[1..]);
    assert s[1..] == t[1..] + tail;
    ScanLine(open, close, t[1..], tail);
    assert |open| <= |t| ==> s[..|open|] == t[..|open|];
    ShiftCapture(open, close, t);
  }

  /** An `open` the scanner sees at the start of a line lies wholly inside that line. */
  lemma OpenInLine(open: string, t: string, tail: string)
    requires SingleLine(open) && (tail == [] || tail[0] == '\n')
    requires open <= t + tail
    ensures Occurs(open, t, 0)
  {
    var s := t + tail;
    assert forall i :: 0 <= i < |open| ==> s[i] == open[i] != '\n';
    assert |t| < |s| ==> s[|t|] == '\n';
    assert t[..|open|] == s[..|open|];
  }

  /** When `open` does not occur at index 0, dropping the first character changes no capture. */
  lemma ShiftCapture(open: string, close: string, t: string)
    requires t != [] && !Occurs(open, t, 0)
    ensures LineCapture(open, close, t) == LineCapture(open, close, t[1..])
  {
    FirstOccurrenceShift(open, t);
    var first := FirstOccurrence(open, t[1..]);
    if first.Some? {
      CaptureShifted(open, close, t, first.value);
    }
  }

  lemma CaptureShifted(open: string, close: string, t: string, j: nat)
    requires t != [] && FirstOccurrence(open, t) == Some(j + 1) && FirstOccurrence(open, t[1..]) == Some(j)
    ensures LineCapture(open, close, t) == LineCapture(open, close, t[1..])
  {
    CaptureFrom(open, close, t, j + 1);
    CaptureFrom(open, close, t[1..], j);
    SuffixOfTail(t, j + |open|);
    calc {
      LineCapture(open, close, t);
      CaptureAfter(close, t[j + 1 + |open|..]);
      CaptureAfter(close, t[1..][j + |open|..]);
      LineCapture(open, close, t[1..]);
    }
  }

  /** A line whose first `open` is at `j` captures what follows that `open`. */
  lemma CaptureFrom(open: string, close: string, line: string, j: nat)
    requires FirstOccurrence(open, line) == Some(j)
    ensures j + |open| <= |line|
    ensures LineCapture(open, close, line) == CaptureAfter(close, line[j + |open|..])
  {
    assert Occurs(open, line, j);
    CaptureUnfold(open, close, line, j);
  }

  lemma CaptureUnfold(open: string, close: string, line: string, j: nat)
    requires FirstOccurrence(open, line) == Some(j) && j + |open| <= |line|
    ensures LineCapture(open, close, line) == CaptureAfter(close, line[j + |open|..])
  {
  }

  lemma SuffixOfTail(t: string, i: nat)
    requires 1 + i <= |t|
    ensures t[i + 1..] == t[1..][i..]
  {
  }

  /** Without an occurrence at index 0, the first occurrence is that of the tail, one further. */
  lemma FirstOccurrenceShift(pat: string, t: string)
    requires t != [] && !Occurs(pat, t, 0)
    ensures FirstOccurrence(pat, t) ==
      match FirstOccurrence(pat, t[1..]) case None => None case Some(j) => Some(j + 1)
  {
    if |pat| <= |t| {
      assert t[0..|pat|] != pat;
      assert t[..|pat|] == t[0..|pat|];
    }
  }

  /** The scanner and the per-line reading agree on every input. */
  lemma {:induction false} FindAllByLine(open: string, close: string, s: string)
    requires open != [] && close != [] && SingleLine(open) && SingleLine(close)
    ensures FindAll(open, close, s) == CapturesByLine(open, close, s)
    decreases |s|
  {
    var e := LineEnd(s);
    var line := s[..e];
    LineSplit(s);
    if e < |s| {
      var rest := s[e + 1..];
      ScanLine(open, close, line, "\n" + rest);
      SkipNewline(open, close, rest);
      FindAllByLine(open, close, rest);
      assert CapturesByLine(open, close, s) == LineCapture(open, close, line) + CapturesByLine(open, close, rest);
    } else {
      WholeLine(open, close, line);
      assert CapturesByLine(open, close, s) == LineCapture(open, close, line) + [];
    }
  }

  /** `s` is its first line, then either nothing or a newline and the remaining lines. */
  lemma LineSplit(s: string)
    ensures SingleLine(s[..LineEnd(s)])
    ensures LineEnd(s) == |s| ==> s[..LineEnd(s)] == s
    ensures LineEnd(s) < |s| ==> s == s[..LineEnd(s)] + ("\n" + s[LineEnd(s) + 1..])
  {
    var e := LineEnd(s);
    var line := s[..e];
    forall i | 0 <= i < |line| ensures line[i] != '\n' {
      assert line[i] == s[i];
    }
    if e < |s| {
      LineRejoin(s, e);
    }
  }

  lemma LineRejoin(s: string, e: nat)
    requires e < |s| && s[e] == '\n'
    ensures s == s[..e] + ("\n" + s[e + 1..])
  {
    assert s == s[..e] + s[e..];
    assert s[e..] == [s[e]] + s[e + 1..];
  }

  /** Lines are independent: the matches of two lines are those of each, in order. */
  lemma FindAllTwoLines(open: string, close: string, l1: string, l2: string)
    requires open != [] && close != [] && SingleLine(open) && SingleLine(close)
    requires SingleLine(l1)
    ensures FindAll(open, close, l1 + "\n" + l2) == FindAll(open, close, l1) + FindAll(open, close, l2)
  {
    var tail := "\n" + l2;
    assert l1 + "\n" + l2 == l1 + tail;
    ScanLine(open, close, l1, tail);
    WholeLine(open, close, l1);
    SkipNewline(open, close, l2);
  }

  lemma WholeLine(open: string, close: string, l1: string)
    requires open != [] && close != [] && SingleLine(open) && SingleLine(close)
    requires SingleLine(l1)
    ensures FindAll(open, close, l1) == LineCapture(open, close, l1)
  {
    ScanLine(open, close, l1, []);
    assert l1 + [] == l1;
  }

  lemma SkipNewline(open: string, close: string, l2: string)
    requires open != [] && SingleLine(open)
    ensures FindAll(open, close, "\n" + l2) == FindAll(open, close, l2)
  {
    var tail := "\n" + l2;
    assert !(open <= tail) by { assert open[0] != '\n' && tail[0] == '\n'; }
    assert tail[1..] == l2;
  }
}
