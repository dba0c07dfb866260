/** The few behaviours of `java.lang.String` and `Integer.toString` that the
    extraction and report code relies on, over strings of characters. */
module JavaText {
  import opened Common

  /** `p` occurs in `s` starting at index `i`. */
  predicate OccursAt(s: string, p: string, i: nat) {
    i + |p| <= |s| && s[i..i + |p|] == p
  }

  function IndexFrom(s: string, p: string, from: nat): (r: Option<nat>)
    requires from <= |s|
    decreases |s| - from
    ensures r.Some? ==> from <= r.value && OccursAt(s, p, r.value)
    ensures r.Some? ==> forall j :: from <= j < r.value ==> !OccursAt(s, p, j)
    ensures r.None? ==> forall j :: from <= j <= |s| ==> !OccursAt(s, p, j)
  {
    if OccursAt(s, p, from) then Some(from)
    else if from == |s| then None
    else IndexFrom(s, p, from + 1)
  }

  /** `s.indexOf(p)`, with `None` for -1: the leftmost occurrence of `p`. */
  function IndexOf(s: string, p: string): (r: Option<nat>)
    ensures r.Some? ==> OccursAt(s, p, r.value) && forall j :: 0 <= j < r.value ==> !OccursAt(s, p, j)
    ensures r.None? ==> forall j :: 0 <= j <= |s| ==> !OccursAt(s, p, j)
  {
    IndexFrom(s, p, 0)
  }

  /** `s.contains(p)`. */
  predicate Contains(s: string, p: string) {
    IndexOf(s, p).Some?
  }

  lemma ContainsMeansOccurs(s: string, p: string)
    ensures Contains(s, p) <==> exists i :: 0 <= i <= |s| && OccursAt(s, p, i)
  {
    if !Contains(s, p) {
      assert forall j :: 0 <= j <= |s| ==> !OccursAt(s, p, j);
    }
  }

  /** `s.endsWith(suffix)`. */
  predicate EndsWith(s: string, suffix: string) {
    |suffix| <= |s| && s[|s| - |suffix|..] == suffix
  }

  /** The characters `String.trim` removes: every code up to and including the space. */
  predicate IsTrimmed(c: char) {
    c <= ' '
  }

  function TrimStart(s: string): (r: nat)
    ensures r <= |s|
    ensures forall k :: 0 <= k < r ==> IsTrimmed(s[k])
    ensures r < |s| ==> !IsTrimmed(s[r])
  {
    if s == [] || !IsTrimmed(s[0]) then 0 else 1 + TrimStart(s[1..])
  }

  function TrimEnd(s: string, lo: nat): (r: nat)
    requires lo <= |s|
    decreases |s|
    ensures lo <= r <= |s|
    ensures forall k :: r <= k < |s| ==> IsTrimmed(s[k])
    ensures lo < r ==> !IsTrimmed(s[r - 1])
  {
    if |s| == lo || !IsTrimmed(s[|s| - 1]) then |s| else TrimEnd(s[..|s| - 1], lo)
  }

  /** `s[a..b]` is what is left once the characters up to the space are cut from both ends. */
  predicate TrimBounds(s: string, a: int, b: int) {
    && 0 <= a <= b <= |s|
    && (forall k :: 0 <= k < a ==> IsTrimmed(s[k]))
    && (forall k :: b <= k < |s| ==> IsTrimmed(s[k]))
    && (a < b ==> !IsTrimmed(s[a]) && !IsTrimmed(s[b - 1]))
  }

  /** `s.trim()`: `s` without its leading and trailing characters up to the space. */
  function Trim(s: string): (t: string)
    ensures exists a, b :: TrimBounds(s, a, b) && t == s[a..b]
  {
    var a := TrimStart(s);
    var b := TrimEnd(s, a);
    s[a..b]
  }

  /** The trim bounds of a text cut out one slice only. */
  lemma TrimBoundsUnique(s: string, a: int, b: int, c: int, d: int)
    requires TrimBounds(s, a, b) && TrimBounds(s, c, d)
    ensures s[a..b] == s[c..d]
  {
    assert a < b <==> c < d;
    if a < b {
      assert a == c;
      assert b == d;
    }
  }

  lemma TrimIdempotent(s: string)
    ensures Trim(Trim(s)) == Trim(s)
  {
    var t := Trim(s);
    var a, b :| TrimBounds(s, a, b) && t == s[a..b];
    assert TrimBounds(t, 0, |t|) by {
      if a < b {
        assert t[0] == s[a] && t[|t| - 1] == s[b - 1];
      }
    }
    var u := Trim(t);
    var c, d :| TrimBounds(t, c, d) && u == t[c..d];
    TrimBoundsUnique(t, c, d, 0, |t|);
  }

  // ---------------------------------------------------------------------
  // String.compareTo

  /** `a.compareTo(b) < 0`: lexicographic by character code, a proper prefix first. */
  predicate StrLess(a: string, b: string)
    decreases |a|
  {
    if |a| == 0 then |b| > 0
    else if |b| == 0 then false
    else if a[0] != b[0] then a[0] < b[0]
    else StrLess(a[1..], b[1..])
  }

  lemma {:induction false} StrLessIrreflexive(a: string)
    ensures !StrLess(a, a)
  {
    if |a| > 0 { StrLessIrreflexive(a[1..]); }
  }

  lemma {:induction false} StrLessTransitive(a: string, b: string, c: string)
    requires StrLess(a, b) && StrLess(b, c)
    ensures StrLess(a, c)
    decreases |a|
  {
    if |a| > 0 && a[0] == b[0] && b[0] == c[0] {
      StrLessTransitive(a[1..], b[1..], c[1..]);
    }
  }

  lemma {:induction false} StrLessTotal(a: string, b: string)
    ensures a == b || StrLess(a, b) || StrLess(b, a)
    decreases |a|
  {
    if |a| > 0 && |b| > 0 && a[0] == b[0] {
      StrLessTotal(a[1..], b[1..]);
      if a[1..] == b[1..] {
        assert a == [a[0]] + a[1..] && b == [b[0]] + b[1..];
      }
    }
  }

  lemma {:induction false} StrLessAsymmetric(a: string, b: string)
    requires StrLess(a, b)
    ensures !StrLess(b, a)
    decreases |a|
  {
    if |a| > 0 && a[0] == b[0] {
      StrLessAsymmetric(a[1..], b[1..]);
    }
  }

  /** For two strings made of blocks of equal length, the order is decided by
      the first blocks, and by the second ones where the first are equal. */
  lemma {:induction false} StrLessConcat(a1: string, a2: string, b1: string, b2: string)
    requires |a1| == |b1|
    ensures StrLess(a1 + a2, b1 + b2) <==> StrLess(a1, b1) || (a1 == b1 && StrLess(a2, b2))
    decreases |a1|
  {
    if |a1| == 0 {
      assert a1 + a2 == a2 && b1 + b2 == b2;
    } else {
      assert (a1 + a2)[1..] == a1[1..] + a2 && (b1 + b2)[1..] == b1[1..] + b2;
      StrLessConcat(a1[1..], a2, b1[1..], b2);
      if a1[0] == b1[0] && a1[1..] == b1[1..] {
        assert a1 == [a1[0]] + a1[1..] && b1 == [b1[0]] + b1[1..];
      }
    }
  }

  // ---------------------------------------------------------------------
  // Integer.toString and a decimal reader

  function DigitChar(d: nat): (c: char)
    requires d < 10
    ensures IsDigit(c) && DigitValue(c) == d
  {
    ('0' as int + d) as char
  }

  predicate IsDigit(c: char) {
    '0' <= c <= '9'
  }

  /** The decimal digits of `n`, most significant first, without leading zeros. */
  function NatToString(n: nat): (r: string)
    decreases n
    ensures |r| >= 1 && forall k :: 0 <= k < |r| ==> IsDigit(r[k])
    ensures r[0] == '0' ==> n == 0
  {
    if n < 10 then [DigitChar(n)] else NatToString(n / 10) + [DigitChar(n % 10)]
  }

  /** `Integer.toString(n)`: a minus sign for negative numbers, then the digits. */
  function IntToString(n: int): (r: string)
    ensures |r| >= 1
    ensures n < 0 ==> |r| >= 2 && r[0] == '-'
  {
    if n < 0 then "-" + NatToString(-n) else NatToString(n)
  }

  function DigitValue(c: char): (d: nat)
    requires IsDigit(c)
    ensures d < 10
  {
    c as int - '0' as int
  }

  /** The value of a string of decimal digits. */
  function DecimalValue(s: string): nat
    requires forall k :: 0 <= k < |s| ==> IsDigit(s[k])
  {
    if s == [] then 0 else 10 * DecimalValue(s[..|s| - 1]) + DigitValue(s[|s| - 1])
  }

  /** Reads back what `Integer.toString` writes. */
  function ParseInt(s: string): Option<int> {
    if |s| >= 2 && s[0] == '-' && forall k :: 1 <= k < |s| ==> IsDigit(s[k]) then Some(0 - DecimalValue(s[1..]) as int)
    else if |s| >= 1 && forall k :: 0 <= k < |s| ==> IsDigit(s[k]) then Some(DecimalValue(s))
    else None
  }

  lemma {:induction false} NatToStringRoundTrip(n: nat)
    ensures DecimalValue(NatToString(n)) == n
    decreases n
  {
    if n >= 10 {
      NatToStringRoundTrip(n / 10);
      var r := NatToString(n);
      assert r[..|r| - 1] == NatToString(n / 10);
    }
  }

  /** Every number printed by `Integer.toString` reads back as itself. */
  lemma IntToStringRoundTrip(n: int)
    ensures ParseInt(IntToString(n)) == Some(n)
  {
    var s := IntToString(n);
    if n < 0 {
      var d := NatToString(-n);
      assert s == "-" + d;
      assert s[1..] == d;
      forall k | 1 <= k < |s| ensures IsDigit(s[k]) {
        assert s[k] == d[k - 1];
      }
      NatToStringRoundTrip(-n);
    } else {
      assert IsDigit(s[0]);
      NatToStringRoundTrip(n);
    }
  }

  // ---------------------------------------------------------------------
  // String.split("\n")

  /** Number of `c` characters in `s`. */
  function CountChar(s: string, c: char): nat {
    if s == [] then 0 else CountChar(s[..|s| - 1], c) + (if s[|s| - 1] == c then 1 else 0)
  }

  /** The pieces of `s` between its newlines, all of them kept
      (`s.split("\n", -1)`): one more piece than there are newlines. */
  function SplitAll(s: string): (r: seq<string>)
    ensures |r| == CountChar(s, '\n') + 1
  {
    if s == [] then [""]
    else
      var init := SplitAll(s[..|s| - 1]);
      if s[|s| - 1] == '\n' then init + [""]
      else init[..|init| - 1] + [init[|init| - 1] + [s[|s| - 1]]]
  }

  /** The pieces joined back with newlines. */
  function JoinLines(ps: seq<string>): string
    requires |ps| >= 1
  {
    if |ps| == 1 then ps[0] else JoinLines(ps[..|ps| - 1]) + "\n" + ps[|ps| - 1]
  }

  lemma {:induction false} SplitAllJoin(s: string)
    ensures JoinLines(SplitAll(s)) == s
  {
    if s != [] {
      var t := s[..|s| - 1];
      SplitAllJoin(t);
      var init := SplitAll(t);
      assert s == t + [s[|s| - 1]];
      if s[|s| - 1] == '\n' {
        assert (init + [""])[..|init|] == init;
      } else if |init| == 1 {
        assert SplitAll(s) == [init[0] + [s[|s| - 1]]];
      } else {
        var r := SplitAll(s);
        assert r[..|r| - 1] == init[..|init| - 1];
        assert JoinLines(init) == JoinLines(init[..|init| - 1]) + "\n" + init[|init| - 1];
      }
    }
  }

  function DropTrailingEmpty(ps: seq<string>): (r: seq<string>)
    ensures |r| <= |ps| && r == ps[..|r|]
    ensures r == [] || r[|r| - 1] != ""
    ensures forall k :: |r| <= k < |ps| ==> ps[k] == ""
  {
    if ps == [] || ps[|ps| - 1] != "" then ps else DropTrailingEmpty(ps[..|ps| - 1])
  }

  /** `s.split("\n")`: with no newline at all the whole of `s` (even when it is
      empty); otherwise the pieces with the trailing empty ones removed. */
  function SplitNewlines(s: string): seq<string> {
    if '\n' !in s then [s] else DropTrailingEmpty(SplitAll(s))
  }

  lemma {:induction false} CountCharAbsent(s: string, c: char)
    requires c !in s
    ensures CountChar(s, c) == 0
  {
    if s != [] {
      assert s[..|s| - 1][..] == s[..|s| - 1] && c !in s[..|s| - 1];
      CountCharAbsent(s[..|s| - 1], c);
    }
  }

  /** Where the last line of `s` starts: just after its last newline, or 0. */
  function LineStart(s: string): (r: nat)
    ensures r <= |s| && (r == 0 || s[r - 1] == '\n')
    ensures forall k :: r <= k < |s| ==> s[k] != '\n'
  {
    if s == [] then 0 else if s[|s| - 1] == '\n' then |s| else LineStart(s[..|s| - 1])
  }

  /** The last piece of `SplitAll(s)` is the text after the last newline. */
  lemma {:induction false} SplitAllLast(s: string)
    ensures SplitAll(s)[|SplitAll(s)| - 1] == s[LineStart(s)..]
  {
    if s != [] {
      var t := s[..|s| - 1];
      SplitAllLast(t);
      if s[|s| - 1] != '\n' {
        assert s[LineStart(s)..] == t[LineStart(t)..] + [s[|s| - 1]];
      }
    }
  }

  /** Number of newlines at the end of `s`. */
  function TrailingNewlines(s: string): (n: nat)
    ensures n <= |s|
    ensures forall k :: |s| - n <= k < |s| ==> s[k] == '\n'
    ensures n < |s| ==> s[|s| - n - 1] != '\n'
  {
    if s == [] || s[|s| - 1] != '\n' then 0 else 1 + TrailingNewlines(s[..|s| - 1])
  }

  lemma PrefixOfPrefix(s: string, n: nat, k: nat)
    requires k <= n <= |s|
    ensures s[..n][..k] == s[..k]
  {
  }

  lemma DropTrailingEmptySnoc(ps: seq<string>)
    ensures DropTrailingEmpty(ps + [""]) == DropTrailingEmpty(ps)
  {
    assert (ps + [""])[..|ps|] == ps;
  }

  lemma SplitAllNewline(s: string)
    requires s != [] && s[|s| - 1] == '\n'
    ensures SplitAll(s) == SplitAll(s[..|s| - 1]) + [""]
  {
  }

  lemma {:induction false} DropTrailingNewlines(s: string)
    ensures DropTrailingEmpty(SplitAll(s)) == DropTrailingEmpty(SplitAll(s[..|s| - TrailingNewlines(s)]))
  {
    if s != [] && s[|s| - 1] == '\n' {
      var t := s[..|s| - 1];
      DropTrailingNewlines(t);
      DropOneNewline(s);
      OneFewerNewline(s);
      assert DropTrailingEmpty(SplitAll(s)) == DropTrailingEmpty(SplitAll(t[..|t| - TrailingNewlines(t)]));
    } else {
      NoTrailingNewline(s);
    }
  }

  lemma NoTrailingNewline(s: string)
    requires s == [] || s[|s| - 1] != '\n'
    ensures s[..|s| - TrailingNewlines(s)] == s
  {
    assert TrailingNewlines(s) == 0;
  }

  lemma DropOneNewline(s: string)
    requires s != [] && s[|s| - 1] == '\n'
    ensures DropTrailingEmpty(SplitAll(s)) == DropTrailingEmpty(SplitAll(s[..|s| - 1]))
  {
    SplitAllNewline(s);
    DropTrailingEmptySnoc(SplitAll(s[..|s| - 1]));
  }

  lemma OneFewerNewline(s: string)
    requires s != [] && s[|s| - 1] == '\n'
    ensures var t := s[..|s| - 1];
      t[..|t| - TrailingNewlines(t)] == s[..|s| - TrailingNewlines(s)]
  {
    var t := s[..|s| - 1];
    assert TrailingNewlines(s) == 1 + TrailingNewlines(t);
    PrefixOfPrefix(s, |t|, |t| - TrailingNewlines(t));
  }

  /** What `s.split("\n")` gives for any `s`. Let `u` be `s` without its trailing
      newlines. If `s` is made of newlines only, there are no pieces at all;
      otherwise there is one piece per line of `u`, and the last one is the text
      after the last newline of `u`. */
  lemma SplitNewlinesShape(s: string)
    ensures var u := s[..|s| - TrailingNewlines(s)];
      && (u == [] && s != [] ==> SplitNewlines(s) == [])
      && (u != [] || s == [] ==>
            |SplitNewlines(s)| == CountChar(u, '\n') + 1
            && SplitNewlines(s)[|SplitNewlines(s)| - 1] == u[LineStart(u)..])
  {
    var u := s[..|s| - TrailingNewlines(s)];
    if s == [] {
    } else if u == [] {
      SplitOnlyNewlines(s);
    } else if '\n' in s {
      SplitWithLines(s);
    } else {
      assert s[|s| - 1] in s;
      assert u == s;
      CountCharAbsent(s, '\n');
    }
  }

  lemma SplitOnlyNewlines(s: string)
    requires s != [] && s[..|s| - TrailingNewlines(s)] == []
    ensures SplitNewlines(s) == []
  {
    assert s[0] == '\n';
    DropTrailingNewlines(s);
  }

  lemma SplitWithLines(s: string)
    requires '\n' in s
    requires s[..|s| - TrailingNewlines(s)] != []
    ensures var u := s[..|s| - TrailingNewlines(s)];
      |SplitNewlines(s)| == CountChar(u, '\n') + 1
      && SplitNewlines(s)[|SplitNewlines(s)| - 1] == u[LineStart(u)..]
  {
    SplitNewlinesTrimmed(s);
    SplitAllLast(s[..|s| - TrailingNewlines(s)]);
  }

  /** When `s` holds a line, `split` keeps every piece of its trimmed text. */
  lemma SplitNewlinesTrimmed(s: string)
    requires '\n' in s
    requires s[..|s| - TrailingNewlines(s)] != []
    ensures SplitNewlines(s) == SplitAll(s[..|s| - TrailingNewlines(s)])
  {
    var n := TrailingNewlines(s);
    var u := s[..|s| - n];
    DropTrailingNewlines(s);
    assert u[|u| - 1] == s[|s| - n - 1];
    SplitAllMidLine(u);
  }

  /** A non-empty text that does not end in a newline loses no piece to the
      trailing-empty rule. */
  lemma SplitAllMidLine(u: string)
    requires u != [] && u[|u| - 1] != '\n'
    ensures DropTrailingEmpty(SplitAll(u)) == SplitAll(u)
  {
    SplitAllLast(u);
    assert LineStart(u) < |u|;
    assert SplitAll(u)[|SplitAll(u)| - 1] != "";
  }

  /** Unless `s` is made of newlines only, its last piece is as long as the
      last line of `s` without its trailing newlines. */
  lemma LastPieceLength(s: string)
    ensures var u := s[..|s| - TrailingNewlines(s)];
      u != [] || s == [] ==>
        |SplitNewlines(s)| >= 1 && |SplitNewlines(s)[|SplitNewlines(s)| - 1]| == |u| - LineStart(u)
  {
    SplitNewlinesShape(s);
  }

  /** A text that does not end in a newline has one piece per line, and the
      last piece is its last line. */
  lemma SplitNewlinesMidLine(s: string)
    requires s == [] || s[|s| - 1] != '\n'
    ensures |SplitNewlines(s)| == 1 + CountChar(s, '\n')
    ensures |SplitNewlines(s)[|SplitNewlines(s)| - 1]| == |s| - LineStart(s)
  {
    if '\n' in s {
      SplitAllLast(s);
      assert LineStart(s) < |s|;
      assert SplitAll(s)[|SplitAll(s)| - 1] != "";
    } else {
      CountCharAbsent(s, '\n');
    }
  }
}
