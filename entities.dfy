/** The entity stripper of the activity and about drivers: `re.sub(r'&#\d+;', '', s)`
    followed by `re.sub(r'&\w+;', '', s)`. It deletes text shaped like an HTML character
    reference; it does not decode references and misses the hexadecimal form `&#x...;`. */
module Entities {

  import opened Results
  import opened Text

  /** A pattern `lead`, then one or more characters of class `run`, then ';'. */
  datatype Reference = Reference(lead: string, run: char -> bool)

  /** `&#\d+;` */
  function Numeric(cc: Classes): Reference { Reference("&#", cc.digit) }

  /** `&\w+;` */
  function Named(cc: Classes): Reference { Reference("&", cc.word) }

  /** Length of the match of `ref` at the start of `s`, if there is one. The greedy run is
      taken whole: backtracking to a shorter run cannot help, because ';' is not in the
      class (see `Classes`). */
  function MatchAt(ref: Reference, s: string): (m: Option<nat>)
    ensures m.Some? ==> |ref.lead| + 2 <= m.value <= |s|
    ensures m.Some? ==> (ref.lead <= s && s[m.value - 1] == ';'
      && forall i :: |ref.lead| <= i < m.value - 1 ==> ref.run(s[i]))
  {
    if ref.lead <= s then
      var n := RunLength(ref.run, s[|ref.lead|..]);
      if n > 0 && |ref.lead| + n < |s| && s[|ref.lead| + n] == ';' then
        assert forall i :: |ref.lead| <= i < |ref.lead| + n ==> s[i] == s[|ref.lead|..][i - |ref.lead|];
        Some(|ref.lead| + n + 1)
      else None
    else None
  }

  /** `re.sub(pattern, '', s)`: delete the leftmost non-overlapping matches, scanning left to
      right, and keep every other character in order. */
  function DeleteMatches(ref: Reference, s: string): (r: string)
    ensures IsSubsequence(r, s)
    decreases |s|
  {
    if s == [] then []
    else
      match MatchAt(ref, s)
      case Some(n) =>
        var r := DeleteMatches(ref, s[n..]);
        SubsequenceOfSuffix(r, s, n);
        r
      case None =>
        var r := DeleteMatches(ref, s[1..]);
        assert ([s[0]] + r)[1..] == r;
        [s[0]] + r
  }

  /** The two substitutions of the source, in their order. */
  function Sanitize(cc: Classes, s: string): (r: string)
    ensures IsSubsequence(r, s) && |r| <= |s|
  {
    var once := DeleteMatches(Numeric(cc), s);
    var twice := DeleteMatches(Named(cc), once);
    SubsequenceTransitive(twice, once, s);
    SubsequenceLength(twice, s);
    twice
  }

  /** Nothing changes exactly when the pattern matches nowhere. */
  lemma {:induction false} DeleteUnchangedIff(ref: Reference, s: string)
    ensures DeleteMatches(ref, s) == s <==> forall i :: 0 <= i <= |s| ==> MatchAt(ref, s[i..]).None?
    decreases |s|
  {
    if forall i :: 0 <= i <= |s| ==> MatchAt(ref, s[i..]).None? {
      NoMatchUnchanged(ref, s);
    } else {
      var i :| 0 <= i <= |s| && MatchAt(ref, s[i..]).Some?;
      MatchShortens(ref, s, i);
    }
  }

  lemma {:induction false} NoMatchUnchanged(ref: Reference, s: string)
    requires forall i :: 0 <= i <= |s| ==> MatchAt(ref, s[i..]).None?
    ensures DeleteMatches(ref, s) == s
    decreases |s|
  {
    if s != [] {
      assert s[0..] == s;
      forall i | 0 <= i <= |s[1..]| ensures MatchAt(ref, s[1..][i..]).None? {
        assert s[1..][i..] == s[i + 1..];
      }
      NoMatchUnchanged(ref, s[1..]);
    }
  }

  lemma {:induction false} MatchShortens(ref: Reference, s: string, i: nat)
    requires i <= |s| && MatchAt(ref, s[i..]).Some?
    ensures |DeleteMatches(ref, s)| < |s|
    decreases |s|
  {
    if MatchAt(ref, s).Some? {
      var n := MatchAt(ref, s).value;
      SubsequenceLength(DeleteMatches(ref, s[n..]), s[n..]);
    } else {
      assert i > 0 by { assert s[0..] == s; }
      assert s[1..][i - 1..] == s[i..];
      MatchShortens(ref, s[1..], i - 1);
    }
  }

  /** Text before the first '&' is kept as it is and the scan goes on after it. */
  lemma {:induction false} PrefixWithoutAmpersand(ref: Reference, a: string, b: string)
    requires ref.lead != [] && ref.lead[0] == '&'
    requires '&' !in a
    ensures DeleteMatches(ref, a + b) == a + DeleteMatches(ref, b)
    decreases |a|
  {
    if a != [] {
      var s := a + b;
      assert s[0] == a[0] != '&';
      assert !(ref.lead <= s) by { assert s[0] != ref.lead[0]; }
      KeepFirst(ref, s);
      assert s[1..] == a[1..] + b;
      assert '&' !in a[1..];
      PrefixWithoutAmpersand(ref, a[1..], b);
      assert a == [a[0]] + a[1..];
    } else {
      assert a + b == b;
    }
  }

  /** A string with no '&' is left unchanged by the stripper. */
  lemma NoAmpersandUnchanged(cc: Classes, s: string)
    requires '&' !in s
    ensures Sanitize(cc, s) == s
  {
    PrefixWithoutAmpersand(Numeric(cc), s, []);
    PrefixWithoutAmpersand(Named(cc), s, []);
    assert s + [] == s;
  }

  /** A numeric reference such as `&#128266;` is deleted whole, wherever the rest leads. */
  lemma NumericReferenceRemoved(cc: Classes, ds: string, rest: string)
    requires ds != [] && forall i :: 0 <= i < |ds| ==> cc.digit(ds[i])
    ensures Sanitize(cc, "&#" + ds + ";" + rest) == Sanitize(cc, rest)
  {
    var s := "&#" + ds + ";" + rest;
    assert s[2..] == ds + ";" + rest;
    assert RunLength(cc.digit, s[2..]) == |ds| by {
      assert (ds + ";" + rest)[|ds|] == ';';
    }
    assert s[|ds| + 3..] == rest;
  }

  /** A named reference such as `&nbsp;` is deleted whole, wherever the rest leads. */
  lemma NamedReferenceRemoved(cc: Classes, ws: string, rest: string)
    requires ws != [] && forall i :: 0 <= i < |ws| ==> cc.word(ws[i])
    ensures Sanitize(cc, "&" + ws + ";" + rest) == Sanitize(cc, rest)
  {
    NumericPassKeepsNamed(cc, ws, rest);
    NamedPassRemoves(cc, ws, DeleteMatches(Numeric(cc), rest));
  }

  lemma NumericPassKeepsNamed(cc: Classes, ws: string, rest: string)
    requires ws != [] && forall i :: 0 <= i < |ws| ==> cc.word(ws[i])
    ensures DeleteMatches(Numeric(cc), "&" + ws + ";" + rest)
         == "&" + ws + ";" + DeleteMatches(Numeric(cc), rest)
  {
    var tail := ws + ";";
    var once := DeleteMatches(Numeric(cc), rest);
    var s := "&" + ws + ";" + rest;
    Regroup(ws, rest);
    Regroup(ws, once);
    assert s[0] == '&' && s[1..] == tail + rest;
    assert '&' !in tail by {
      forall i | 0 <= i < |tail| ensures tail[i] != '&' {
        if i < |ws| { assert cc.word(ws[i]); }
      }
    }
    assert MatchAt(Numeric(cc), s).None? by {
      assert s[1] == ws[0] != '#' by { assert cc.word(ws[0]); }
    }
    PrefixWithoutAmpersand(Numeric(cc), tail, rest);
  }

  lemma Regroup(ws: string, rest: string)
    ensures "&" + ws + ";" + rest == ['&'] + ((ws + ";") + rest)
  {
  }

  lemma NamedPassRemoves(cc: Classes, ws: string, rest: string)
    requires ws != [] && forall i :: 0 <= i < |ws| ==> cc.word(ws[i])
    ensures DeleteMatches(Named(cc), "&" + ws + ";" + rest) == DeleteMatches(Named(cc), rest)
  {
    var t := "&" + ws + ";" + rest;
    assert t[1..] == ws + ";" + rest;
    assert RunLength(cc.word, t[1..]) == |ws| by {
      assert (ws + ";" + rest)[|ws|] == ';';
    }
    assert MatchAt(Named(cc), t) == Some(|ws| + 2);
    assert t[|ws| + 2..] == rest;
  }

  /** Without a '#' there is no numeric reference to delete. */
  lemma NoHashNumericUnchanged(cc: Classes, s: string)
    requires '#' !in s
    ensures DeleteMatches(Numeric(cc), s) == s
  {
    forall i | 0 <= i <= |s| ensures MatchAt(Numeric(cc), s[i..]).None? {
      if i + 1 < |s| {
        assert s[i..][1] == s[i + 1] != '#';
      }
    }
    NoMatchUnchanged(Numeric(cc), s);
  }

  /** The hexadecimal form of a character reference is not recognised and survives. */
  lemma HexReferenceSurvives(cc: Classes)
    requires !cc.digit('x')
    ensures Sanitize(cc, "&#x1F50A;") == "&#x1F50A;"
  {
    var s := "&#x1F50A;";
    HexShape(s);
    NoRunNoMatch(Numeric(cc), s);
    OnlyLeadingAmpersand(Numeric(cc), s);
    NoRunNoMatch(Named(cc), s);
    OnlyLeadingAmpersand(Named(cc), s);
  }

  lemma HexShape(s: string)
    requires s == "&#x1F50A;"
    ensures |s| == 9 && s[1] == '#' && s[2] == 'x' && '&' !in s[1..]
  {
  }

  /** A lead followed by a character outside the run class is no match. */
  lemma NoRunNoMatch(ref: Reference, s: string)
    requires |ref.lead| < |s| && !ref.run(s[|ref.lead|])
    ensures MatchAt(ref, s).None?
  {
    assert s[|ref.lead|..][0] == s[|ref.lead|];
  }

  /** A text whose only '&' is its first character, where nothing matches, is kept. */
  lemma OnlyLeadingAmpersand(ref: Reference, s: string)
    requires ref.lead != [] && ref.lead[0] == '&'
    requires s != [] && MatchAt(ref, s).None? && '&' !in s[1..]
    ensures DeleteMatches(ref, s) == s
  {
    KeepFirst(ref, s);
    PrefixWithoutAmpersand(ref, s[1..], []);
    assert s[1..] + [] == s[1..];
    assert [s[0]] + s[1..] == s;
  }

  /** The stripper is not idempotent: deleting one reference can bring two halves together. */
  lemma NotIdempotent(cc: Classes)
    requires cc.word('a') && cc.word('b')
    ensures Sanitize(cc, "&a&b;;") == "&a;"
    ensures Sanitize(cc, "&a;") == ""
  {
    JoinedAfterOnePass(cc);
    RemovedOnSecondPass(cc);
  }

  lemma JoinedAfterOnePass(cc: Classes)
    requires cc.word('a') && cc.word('b')
    ensures Sanitize(cc, "&a&b;;") == "&a;"
  {
    NoHashNumericUnchanged(cc, "&a&b;;");
    NamedPassJoins(cc);
  }

  lemma RemovedOnSecondPass(cc: Classes)
    requires cc.word('a')
    ensures Sanitize(cc, "&a;") == ""
  {
    NamedReferenceRemoved(cc, "a", "");
    assert "&" + "a" + ";" + "" == "&a;";
  }

  /** The named pass over "&a&b;;": "&a" is no reference, "&b;" is one, the last ';' stays. */
  lemma NamedPassJoins(cc: Classes)
    requires cc.word('a') && cc.word('b')
    ensures DeleteMatches(Named(cc), "&a&b;;") == "&a;"
  {
    var named := Named(cc);
    assert "&a&b;;" == ['&', 'a'] + ("&" + "b" + ";" + ";");
    UnterminatedBeforeReference(cc, 'a', "b", ";");
    OnlyLeadingAmpersand(named, ";") by {
      assert MatchAt(named, ";").None? by { assert !("&" <= ";"); }
    }
    assert ['&', 'a'] + ";" == "&a;";
  }

  /** An '&' and one word character directly before a named reference: the pair is no
      reference and is kept, the reference is deleted. */
  lemma UnterminatedBeforeReference(cc: Classes, a: char, ws: string, rest: string)
    requires cc.word(a) && ws != [] && forall i :: 0 <= i < |ws| ==> cc.word(ws[i])
    ensures DeleteMatches(Named(cc), ['&', a] + ("&" + ws + ";" + rest))
         == ['&', a] + DeleteMatches(Named(cc), rest)
  {
    var x := "&" + ws + ";" + rest;
    PairKept(cc, a, x);
    NamedPassRemoves(cc, ws, rest);
  }

  /** An '&' and a word character followed by another '&' are kept as they are. */
  lemma PairKept(cc: Classes, a: char, x: string)
    requires cc.word(a) && x != [] && x[0] == '&'
    ensures DeleteMatches(Named(cc), ['&', a] + x) == ['&', a] + DeleteMatches(Named(cc), x)
  {
    var named := Named(cc);
    var t := ['&', a] + x;
    var u := [a] + x;
    PairNoMatch(cc, a, x);
    KeepFirst(named, t);
    assert t[1..] == u;
    WordNoMatch(cc, a, x);
    KeepFirst(named, u);
    assert u[1..] == x;
    ConsTwo('&', a, DeleteMatches(named, x));
  }

  lemma ConsTwo(p: char, q: char, r: string)
    ensures [p] + ([q] + r) == [p, q] + r
  {
  }

  lemma PairNoMatch(cc: Classes, a: char, x: string)
    requires cc.word(a) && x != [] && x[0] == '&'
    ensures MatchAt(Named(cc), ['&', a] + x).None?
  {
    var u := ([a] + x);
    assert (['&', a] + x)[1..] == u;
    assert u[0] == a && u[1] == '&';
    assert RunLength(cc.word, u) == 1;
  }

  lemma WordNoMatch(cc: Classes, a: char, x: string)
    requires cc.word(a)
    ensures MatchAt(Named(cc), [a] + x).None?
  {
    assert ([a] + x)[0] == a != '&';
  }

  lemma KeepFirst(ref: Reference, s: string)
    requires s != [] && MatchAt(ref, s).None?
    ensures DeleteMatches(ref, s) == [s[0]] + DeleteMatches(ref, s[1..])
  {
  }
}
