// The comment pattern `(//.?TODO[^\n]*|/\*.*?TODO[^*]*\*/)` compiled with
// DOTALL, written out as a left-to-right matcher with the semantics of
// `java.util.regex`: the alternatives are tried in order at each start, `.?`
// is greedy, `.*?` is lazy, and `Matcher.find` resumes where the previous
// match ended.
module TodoPattern {
  import opened Common

  /** Where a match was found: `text[start..end]` is the matched comment. */
  datatype Span = Span(start: nat, end: nat)

  predicate TodoAt(s: string, i: nat) {
    i + 4 <= |s| && s[i] == 'T' && s[i + 1] == 'O' && s[i + 2] == 'D' && s[i + 3] == 'O'
  }

  predicate NoNewline(s: string, a: nat, b: nat)
    requires a <= b <= |s|
  {
    forall k :: a <= k < b ==> s[k] != '\n'
  }

  predicate NoStar(s: string, a: nat, b: nat)
    requires a <= b <= |s|
  {
    forall k :: a <= k < b ==> s[k] != '*'
  }

  /** `[^\n]*` from `j`, greedy: the first newline at or after `j`, or the end. */
  function LineEnd(s: string, j: nat): (e: nat)
    requires j <= |s|
    decreases |s| - j
    ensures j <= e <= |s| && NoNewline(s, j, e) && (e == |s| || s[e] == '\n')
  {
    if j == |s| || s[j] == '\n' then j else LineEnd(s, j + 1)
  }

  /** The first `*` at or after `j`, if any. */
  function StarFrom(s: string, j: nat): (r: Option<nat>)
    requires j <= |s|
    decreases |s| - j
    ensures r.Some? ==> j <= r.value < |s| && s[r.value] == '*' && NoStar(s, j, r.value)
    ensures r.None? ==> NoStar(s, j, |s|)
  {
    if j == |s| then None else if s[j] == '*' then Some(j) else StarFrom(s, j + 1)
  }

  // `[^*]*\*/` from `j`: where the match ends if the first `*` is followed by `/`.
  function CloseFrom(s: string, j: nat): Option<nat>
    requires j <= |s|
  {
    match StarFrom(s, j)
    case Some(p) => if p + 1 < |s| && s[p + 1] == '/' then Some(p + 2) else None
    case None => None
  }

  /** The first alternative, `//.?TODO[^\n]*`, at `i`: where it ends, if it matches. */
  function LineMatchAt(s: string, i: nat): Option<nat>
    requires i <= |s|
  {
    if i + 2 <= |s| && s[i] == '/' && s[i + 1] == '/' then
      if TodoAt(s, i + 3) then Some(LineEnd(s, i + 7))
      else if TodoAt(s, i + 2) then Some(LineEnd(s, i + 6))
      else None
    else None
  }

  // `.*?TODO[^*]*\*/` from `j`: the lazy prefix grows one character at a time
  // until a `TODO` is reached after which the closing part matches.
  function BlockFrom(s: string, j: nat): Option<nat>
    requires j <= |s|
    decreases |s| - j
  {
    if j + 4 > |s| then None
    else if TodoAt(s, j) && CloseFrom(s, j + 4).Some? then CloseFrom(s, j + 4)
    else BlockFrom(s, j + 1)
  }

  // The second alternative, `/\*.*?TODO[^*]*\*/`, at `i`.
  function BlockMatchAt(s: string, i: nat): Option<nat>
    requires i <= |s|
  {
    if i + 2 <= |s| && s[i] == '/' && s[i + 1] == '*' then BlockFrom(s, i + 2) else None
  }

  /** The whole pattern at `i`: the line alternative first, then the block one. */
  function MatchAt(s: string, i: nat): (r: Option<nat>)
    requires i <= |s|
    ensures r.Some? ==> i + 6 <= r.value <= |s|
  {
    LineEndBounds(s, i);
    BlockFromBounds(s, i + 2);
    if LineMatchAt(s, i).Some? then LineMatchAt(s, i) else BlockMatchAt(s, i)
  }

  lemma LineEndBounds(s: string, i: nat)
    requires i <= |s|
    ensures LineMatchAt(s, i).Some? ==> i + 6 <= LineMatchAt(s, i).value <= |s|
  {
  }

  lemma {:induction false} BlockFromBounds(s: string, j: nat)
    ensures j <= |s| && BlockFrom(s, j).Some? ==> j + 6 <= BlockFrom(s, j).value <= |s|
    decreases |s| - j
  {
    if j <= |s| && j + 4 <= |s| && !(TodoAt(s, j) && CloseFrom(s, j + 4).Some?) {
      BlockFromBounds(s, j + 1);
    }
  }

  predicate NoMatchIn(s: string, a: nat, b: nat)
    requires a <= b <= |s|
  {
    forall p :: a <= p < b ==> MatchAt(s, p).None?
  }

  /** `Matcher.find` from `from`: the leftmost start at or after `from` where the
      pattern matches, with its end. */
  function Find(s: string, from: nat): (r: Option<Span>)
    requires from <= |s|
    decreases |s| - from
    ensures r.Some? ==> from <= r.value.start < |s| && MatchAt(s, r.value.start) == Some(r.value.end)
    ensures r.Some? ==> NoMatchIn(s, from, r.value.start)
    ensures r.None? ==> NoMatchIn(s, from, |s|)
  {
    if from == |s| then None
    else match MatchAt(s, from)
      case Some(e) => Some(Span(from, e))
      case None => Find(s, from + 1)
  }

  /** Every match `while (matcher.find())` visits from `from`, in order; they
      do not overlap. */
  function Matches(s: string, from: nat): (ms: seq<Span>)
    requires from <= |s|
    decreases |s| - from
    ensures forall k :: 0 <= k < |ms| ==> from <= ms[k].start < |s| && MatchAt(s, ms[k].start) == Some(ms[k].end)
    ensures forall k :: 0 <= k < |ms| - 1 ==> ms[k].end <= ms[k + 1].start
  {
    match Find(s, from)
    case None => []
    case Some(sp) => [sp] + Matches(s, sp.end)
  }

  /** The matches are the leftmost ones: no match starts before the first one,
      between two consecutive ones, or after the last one. */
  lemma {:induction false} MatchesLeftmost(s: string, from: nat)
    requires from <= |s|
    decreases |s| - from
    ensures var ms := Matches(s, from);
      && (ms == [] ==> NoMatchIn(s, from, |s|))
      && (ms != [] ==> NoMatchIn(s, from, ms[0].start) && NoMatchIn(s, ms[|ms| - 1].end, |s|))
    ensures forall k :: 0 <= k < |Matches(s, from)| - 1 ==>
      NoMatchIn(s, Matches(s, from)[k].end, Matches(s, from)[k + 1].start)
  {
    var ms := Matches(s, from);
    match Find(s, from)
    case None =>
    case Some(sp) =>
      MatchesLeftmost(s, sp.end);
      var rest := Matches(s, sp.end);
      assert ms == [sp] + rest;
      if rest != [] {
        assert ms[|ms| - 1] == rest[|rest| - 1];
      }
      forall k | 0 <= k < |ms| - 1
        ensures NoMatchIn(s, ms[k].end, ms[k + 1].start)
      {
        if k > 0 {
          assert ms[k] == rest[k - 1] && ms[k + 1] == rest[k];
        }
      }
  }

  // ---------------------------------------------------------------------
  // What each alternative matches, stated without the matcher

  /** `s[i..e]` is `//`, one optional character, `TODO` at `t`, then no newline. */
  ghost predicate LineShape(s: string, i: nat, t: nat, e: nat) {
    && i + 2 <= t <= i + 3 && t + 4 <= e <= |s|
    && s[i] == '/' && s[i + 1] == '/' && TodoAt(s, t) && NoNewline(s, t + 4, e)
  }

  /** The line alternative matches exactly the `//…TODO…` texts, and runs to the
      next newline or the end of the text, the longest such text. */
  lemma LineMatchSpec(s: string, i: nat)
    requires i <= |s|
    ensures LineMatchAt(s, i).Some? ==>
      var e := LineMatchAt(s, i).value;
      (exists t :: LineShape(s, i, t, e)) && (e == |s| || s[e] == '\n')
      && forall t: nat, e': nat :: LineShape(s, i, t, e') ==> e' <= e
    ensures LineMatchAt(s, i).None? ==> forall t: nat, e: nat :: !LineShape(s, i, t, e)
  {
    if LineMatchAt(s, i).Some? {
      var e := LineMatchAt(s, i).value;
      var t := if TodoAt(s, i + 3) then i + 3 else i + 2;
      assert LineShape(s, i, t, e);
      forall t': nat, e': nat | LineShape(s, i, t', e') ensures e' <= e {
        // `TODO` cannot start at both i + 2 and i + 3
        assert t' == t;
      }
    }
  }

  // `s[i..e]` is `/*`, any text, `TODO` at `t`, a text without `*`, then `*` and `/`.
  ghost predicate BlockShape(s: string, i: nat, t: nat, e: nat) {
    && i + 2 <= t && t + 6 <= e <= |s|
    && s[i] == '/' && s[i + 1] == '*' && TodoAt(s, t) && NoStar(s, t + 4, e - 2)
    && s[e - 2] == '*' && s[e - 1] == '/'
  }

  lemma CloseFromSpec(s: string, j: nat, e: nat)
    requires j <= |s|
    ensures CloseFrom(s, j) == Some(e) <==>
      j + 2 <= e <= |s| && NoStar(s, j, e - 2) && s[e - 2] == '*' && s[e - 1] == '/'
  {
    if j + 2 <= e <= |s| && NoStar(s, j, e - 2) && s[e - 2] == '*' && s[e - 1] == '/' {
      assert StarFrom(s, j) == Some(e - 2) by {
        var r := StarFrom(s, j);
        assert s[e - 2] == '*';
        assert r.Some? ==> s[r.value] == '*';
      }
    }
  }

  lemma {:induction false} BlockFromSpec(s: string, j: nat, i: nat)
    requires i + 2 <= j <= |s| && s[i] == '/' && s[i + 1] == '*'
    decreases |s| - j
    ensures BlockFrom(s, j).Some? ==>
      exists t: nat :: (j <= t && BlockShape(s, i, t, BlockFrom(s, j).value)
        && forall t': nat, e': nat :: j <= t' < t ==> !BlockShape(s, i, t', e'))
    ensures BlockFrom(s, j).None? ==> forall t: nat, e: nat :: j <= t ==> !BlockShape(s, i, t, e)
  {
    if j + 4 > |s| {
    } else if TodoAt(s, j) && CloseFrom(s, j + 4).Some? {
      var e := CloseFrom(s, j + 4).value;
      CloseFromSpec(s, j + 4, e);
      assert BlockShape(s, i, j, e);
    } else {
      BlockFromSpec(s, j + 1, i);
      forall e': nat ensures !BlockShape(s, i, j, e') {
        CloseFromSpec(s, j + 4, e');
      }
    }
  }

  // The block alternative matches a `/*…TODO…*/` text; of all of them it takes
  // the one whose `TODO` comes first (the lazy `.*?`), and it fails only when
  // there is none.
  lemma BlockMatchSpec(s: string, i: nat)
    requires i <= |s|
    ensures BlockMatchAt(s, i).Some? ==>
      exists t: nat :: (BlockShape(s, i, t, BlockMatchAt(s, i).value)
        && forall t': nat, e': nat :: t' < t ==> !BlockShape(s, i, t', e'))
    ensures BlockMatchAt(s, i).None? ==> forall t: nat, e: nat :: !BlockShape(s, i, t, e)
  {
    if i + 2 <= |s| && s[i] == '/' && s[i + 1] == '*' {
      BlockFromSpec(s, i + 2, i);
    }
  }

  /** Both alternatives can never match at the same start: the second character is `/` for one and `*` for the other. */
  lemma AlternativesExclusive(s: string, i: nat)
    requires i <= |s|
    ensures LineMatchAt(s, i).None? || BlockMatchAt(s, i).None?
  {
  }

  // A text starting with the block comment `/* TODO: fix this */`.
  lemma BlockExample(c: string)
    requires 20 <= |c| && c[..20] == "/* TODO: fix this */"
    ensures MatchAt(c, 0) == Some(20)
  {
    assert forall k :: 0 <= k < 20 ==> c[k] == c[..20][k];
    assert TodoAt(c, 3) && !TodoAt(c, 2);
    assert c[1] == '*' && c[18] == '*' && c[19] == '/';
    assert NoStar(c, 7, 18) by {
      forall k | 7 <= k < 18 ensures c[k] != '*' {
        assert c[k] == c[..20][k];
      }
    }
    CloseFromSpec(c, 7, 20);
    assert CloseFrom(c, 7) == Some(20);
    assert BlockFrom(c, 3) == Some(20);
    assert BlockFrom(c, 2) == Some(20);
    assert LineMatchAt(c, 0).None?;
    assert BlockMatchAt(c, 0) == Some(20);
  }

  // A text starting with the line comment `// TODO: fix this`, which ends
  // there or at a newline.
  lemma LineExample(a: string)
    requires 17 <= |a| && a[..17] == "// TODO: fix this" && (|a| == 17 || a[17] == '\n')
    ensures MatchAt(a, 0) == Some(17)
  {
    assert forall k :: 0 <= k < 17 ==> a[k] == a[..17][k];
    assert TodoAt(a, 3);
    var e := LineEnd(a, 7);
    assert NoNewline(a, 7, 17);
    assert e == 17;
  }

  /** The four forms the pattern is expected to find. */
  lemma PatternFindsTheFourForms()
    ensures MatchAt("// TODO: fix this\n", 0) == Some(17)
    ensures MatchAt("// TODO: fix this", 0) == Some(17)
    ensures MatchAt("/* TODO: fix this */\n", 0) == Some(20)
    ensures MatchAt("/* TODO: fix this */", 0) == Some(20)
  {
    var a := "// TODO: fix this\n";
    assert a[..17] == "// TODO: fix this";
    LineExample(a);
    var b := "// TODO: fix this";
    assert b[..17] == b;
    LineExample(b);
    var c := "/* TODO: fix this */\n";
    assert c[..20] == "/* TODO: fix this */";
    BlockExample(c);
    var d := "/* TODO: fix this */";
    assert d[..20] == d;
    BlockExample(d);
  }
}
