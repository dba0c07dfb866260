/** What both reports print and how they end, with the terminal colour codes
    kept as literal text. */
module ReportFormat {
  import opened Common
  import opened JavaText
  import opened Dates
  import opened Model

  /** How a report ends: normally, after printing `lines`, or by throwing
      `IllegalStateException(message)` after printing them. */
  datatype Outcome = Success(lines: seq<string>) | Failure(message: string, lines: seq<string>)

  const Esc: char := '\U{1B}'
  const Yellow: string := [Esc] + "[93m"
  const Red: string := [Esc] + "[31m"
  const Blue: string := [Esc] + "[34m"
  const Reset: string := [Esc] + "[0m"

  /** The assignee in red when it is `unassigned`, in blue otherwise, then the
      colour reset. */
  function ColouredAssignee(assignee: string): (r: string)
    ensures |r| == |assignee| + 9
    ensures r[..5] == (if assignee == "unassigned" then Red else Blue)
    ensures r[5..5 + |assignee|] == assignee && r[5 + |assignee|..] == Reset
  {
    (if assignee == "unassigned" then Red else Blue) + assignee + Reset
  }

  /** `path:line:column`, the numbers written by `Integer.toString`. */
  function Location(path: string, line: int, column: int): string {
    path + ":" + IntToString(line) + ":" + IntToString(column)
  }

  /** `String.valueOf` of the due date: its ISO text, or `null`. */
  function DateText(d: Option<LocalDate>): string {
    match d
    case None => "null"
    case Some(date) => IsoString(date)
  }

  /** Two due dates print the same exactly when they are the same date, or
      both missing. */
  lemma DateTextInjective(a: Option<LocalDate>, b: Option<LocalDate>)
    ensures DateText(a) == DateText(b) <==> a == b
  {
    if a.Some? { IsoStringLength(a.value); }
    if b.Some? { IsoStringLength(b.value); }
    if a.Some? && b.Some? && DateText(a) == DateText(b) {
      IsoStringInjective(a.value, b.value);
    }
  }

  /** The beginning both reports share: `Found <assignee> TODO in path:line:column`. */
  function Announcement(todo: TodoModel): string {
    Yellow + "Found " + ColouredAssignee(todo.assignee) + " " + Yellow + "TODO in "
      + Location(todo.filePath, todo.lineNumber, todo.columnNumber)
  }

  lemma PrefixSlice(p: string, s: string, i: nat, j: nat)
    requires p <= s && i <= j <= |p|
    ensures s[i..j] == p[i..j]
    ensures s[..|p|] == p
  {
    assert forall k :: i <= k < j ==> s[k] == p[k];
  }

  lemma PrefixOfAppends(p: string, a: string, b: string, c: string, d: string)
    ensures p <= p + a + b + c + d
  {
    var s := p + a + b + c + d;
    assert forall k :: 0 <= k < |p| ==> s[k] == p[k];
  }

  lemma SuffixSlice(x: string, y: string, i: nat, j: nat)
    requires |x| <= i <= j <= |x| + |y|
    ensures (x + y)[i..j] == y[i - |x|..j - |x|]
  {
  }

  /** The colour code after `Found ` is red exactly for `unassigned` and blue
      otherwise, and the assignee follows it unchanged. */
  lemma AnnouncementShowsAssignee(todo: TodoModel)
    ensures var s := Announcement(todo);
      && |s| >= 16 + |todo.assignee|
      && s[..11] == Yellow + "Found "
      && (s[11..16] == Red <==> todo.assignee == "unassigned")
      && (s[11..16] == Blue <==> todo.assignee != "unassigned")
      && s[16..16 + |todo.assignee|] == todo.assignee
  {
    var a := todo.assignee;
    var s := Announcement(todo);
    var p1 := Yellow + "Found ";
    var ca := ColouredAssignee(a);
    var p2 := p1 + ca;
    PrefixOfAppends(p2, " ", Yellow, "TODO in ", Location(todo.filePath, todo.lineNumber, todo.columnNumber));
    assert |p1| == 11 && p2 <= s;
    PrefixSlice(p2, s, 0, 11);
    PrefixSlice(p1, p2, 0, 11);
    PrefixSlice(p2, s, 11, 16);
    SuffixSlice(p1, ca, 11, 16);
    PrefixSlice(p2, s, 16, 16 + |a|);
    SuffixSlice(p1, ca, 16, 16 + |a|);
    assert Red != Blue by { assert Red[3] != Blue[3]; }
  }

  // ---------------------------------------------------------------------
  // Reading the position back from the text

  /** The text after the last `:` of `s`, or all of `s`. */
  function LastField(s: string): (f: string)
    ensures |f| <= |s| && f == s[|s| - |f|..]
    ensures ':' !in f
    ensures |f| < |s| ==> s[|s| - |f| - 1] == ':'
  {
    if s == [] || s[|s| - 1] == ':' then [] else LastField(s[..|s| - 1]) + [s[|s| - 1]]
  }

  lemma LastFieldOf(a: string, b: string)
    requires ':' !in b
    ensures LastField(a + ":" + b) == b
  {
    var s := a + ":" + b;
    var f := LastField(s);
    assert s[|a|] == ':';
    SuffixHas(s, f, |a|);
    ColonBeforeTail(a, b, |s| - |f| - 1);
    assert |f| == |b|;
    assert s[|a| + 1..] == b;
  }

  // A suffix of `s` holds every character of `s` from where it starts.
  lemma SuffixHas(s: string, f: string, i: nat)
    requires |f| <= |s| && f == s[|s| - |f|..] && i < |s|
    ensures |s| - |f| <= i ==> s[i] in f
  {
    if |s| - |f| <= i {
      assert f[i - (|s| - |f|)] == s[i];
    }
  }

  // No `:` of `a + ":" + b` lies after the one before `b`.
  lemma ColonBeforeTail(a: string, b: string, i: int)
    requires ':' !in b
    ensures 0 <= i < |a| + 1 + |b| && (a + ":" + b)[i] == ':' ==> i <= |a|
  {
    var s := a + ":" + b;
    if |a| < i < |s| {
      assert s[i] == b[i - |a| - 1];
    }
  }

  lemma IntToStringHasNoColon(n: int)
    ensures ':' !in IntToString(n)
  {
    var s := IntToString(n);
    var d := NatToString(if n < 0 then -n else n);
    forall k | 0 <= k < |s| ensures s[k] != ':' {
      if n < 0 && k > 0 {
        assert s[k] == d[k - 1];
      }
    }
  }

  /** The announcement ends in the column, so the last `:` field gives it back. */
  lemma AnnouncementGivesColumn(todo: TodoModel)
    ensures ParseInt(LastField(Announcement(todo))) == Some(todo.columnNumber)
  {
    var x := Yellow + "Found " + ColouredAssignee(todo.assignee) + " " + Yellow + "TODO in ";
    var a := todo.filePath + ":" + IntToString(todo.lineNumber);
    var b := IntToString(todo.columnNumber);
    assert Announcement(todo) == x + Location(todo.filePath, todo.lineNumber, todo.columnNumber);
    assert Location(todo.filePath, todo.lineNumber, todo.columnNumber) == a + ":" + b;
    IntToStringHasNoColon(todo.columnNumber);
    LastFieldAfter(x, a, b);
    IntToStringRoundTrip(todo.columnNumber);
  }

  /** Text put in front does not change the last field. */
  lemma LastFieldAfter(x: string, a: string, b: string)
    requires ':' !in b
    ensures LastField(x + (a + ":" + b)) == b
  {
    assert x + (a + ":" + b) == (x + a) + ":" + b;
    LastFieldOf(x + a, b);
  }

  /** The location text gives back the column: it is the last `:`-separated
      field, whatever the path contains. */
  lemma LocationGivesColumn(path: string, line: int, column: int)
    ensures ParseInt(LastField(Location(path, line, column))) == Some(column)
  {
    IntToStringHasNoColon(column);
    LastFieldOf(path + ":" + IntToString(line), IntToString(column));
    IntToStringRoundTrip(column);
  }

  /** The field before the column is the line. */
  lemma LocationGivesLine(path: string, line: int, column: int)
    ensures var loc := Location(path, line, column);
      ParseInt(LastField(loc[..|loc| - |LastField(loc)| - 1])) == Some(line)
  {
    var loc := Location(path, line, column);
    var head := path + ":" + IntToString(line);
    IntToStringHasNoColon(column);
    LastFieldOf(head, IntToString(column));
    assert loc == head + ":" + IntToString(column);
    assert |LastField(loc)| == |IntToString(column)|;
    assert loc[..|loc| - |LastField(loc)| - 1] == head;
    IntToStringHasNoColon(line);
    LastFieldOf(path, IntToString(line));
    IntToStringRoundTrip(line);
  }
}
