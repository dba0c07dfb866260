/** The scanner shared by both tasks: which files are read, how every TODO
    comment in them becomes a record (assignee, due date, line, column), and the
    walk over the project directory that collects the records a task's filter
    keeps. */
module AbstractTodoTask {
  import opened Common
  import opened JavaText
  import opened Dates
  import opened Model
  import opened Extension
  import opened TodoPattern

  // ---------------------------------------------------------------------
  // Which files are scanned

  const JvmExtensions: seq<string> := [".java", ".kt", ".kts", ".groovy"]

  /** `JVM_EXTENSIONS.stream().anyMatch(name::endsWith)` over `exts[from..]`. */
  function AnyEndsWith(name: string, exts: seq<string>, from: nat): (r: bool)
    requires from <= |exts|
    decreases |exts| - from
    ensures r <==> exists k :: from <= k < |exts| && EndsWith(name, exts[k])
  {
    if from == |exts| then false
    else EndsWith(name, exts[from]) || AnyEndsWith(name, exts, from + 1)
  }

  /** `isJvmFile`: the name ends with one of the four JVM source suffixes. */
  predicate IsJvmFile(name: string) {
    AnyEndsWith(name, JvmExtensions, 0)
  }

  /** `s` does not end with `suffix`: they differ at the `k`-th character of the suffix. */
  lemma DiffersAt(s: string, suffix: string, k: nat)
    requires k < |suffix| && (|suffix| <= |s| ==> s[|s| - |suffix| + k] != suffix[k])
    ensures !EndsWith(s, suffix)
  {
    if |suffix| <= |s| {
      assert s[|s| - |suffix|..][k] == s[|s| - |suffix| + k];
    }
  }

  lemma JvmFileExamples()
    ensures IsJvmFile("Test.java") && IsJvmFile("build.gradle.kts")
    ensures IsJvmFile("App.kt") && IsJvmFile("Build.groovy")
  {
    assert "Test.java"[4..] == ".java";
    assert "build.gradle.kts"[12..] == ".kts";
    assert "App.kt"[3..] == ".kt";
    assert "Build.groovy"[5..] == ".groovy";
    assert EndsWith("Test.java", JvmExtensions[0]);
    assert EndsWith("App.kt", JvmExtensions[1]);
    assert EndsWith("build.gradle.kts", JvmExtensions[2]);
    assert EndsWith("Build.groovy", JvmExtensions[3]);
  }

  lemma SkippedFileExamples()
    ensures !IsJvmFile("Main.scala") && !IsJvmFile("Test.java.txt")
  {
    var m := "Main.scala";
    var t := "Test.java.txt";
    forall k | 0 <= k < |JvmExtensions|
      ensures !EndsWith(m, JvmExtensions[k]) && !EndsWith(t, JvmExtensions[k])
    {
      DiffersAt(m, JvmExtensions[k], 1);
      DiffersAt(t, JvmExtensions[k], 1);
    }
  }

  // ---------------------------------------------------------------------
  // The assignee: the pattern `@\w+`

  /** The characters of `\w`: ASCII letters, digits and the underscore. */
  predicate IsWordChar(c: char) {
    'a' <= c <= 'z' || 'A' <= c <= 'Z' || '0' <= c <= '9' || c == '_'
  }

  /** A mention starts at `i`: an `@` followed by a word character. */
  predicate MentionAt(s: string, i: nat) {
    i + 1 < |s| && s[i] == '@' && IsWordChar(s[i + 1])
  }

  function FindMention(s: string, from: nat): (r: Option<nat>)
    requires from <= |s|
    decreases |s| - from
    ensures r.Some? ==> from <= r.value && MentionAt(s, r.value)
    ensures r.Some? ==> forall j :: from <= j < r.value ==> !MentionAt(s, j)
    ensures r.None? ==> forall j :: from <= j < |s| ==> !MentionAt(s, j)
  {
    if from == |s| then None
    else if MentionAt(s, from) then Some(from)
    else FindMention(s, from + 1)
  }

  /** The end of the run of word characters starting at `j` (`\w+` is greedy). */
  function WordEnd(s: string, j: nat): (e: nat)
    requires j <= |s|
    decreases |s| - j
    ensures j <= e <= |s|
    ensures forall k :: j <= k < e ==> IsWordChar(s[k])
    ensures e == |s| || !IsWordChar(s[e])
  {
    if j == |s| || !IsWordChar(s[j]) then j else WordEnd(s, j + 1)
  }

  predicate NoMention(s: string) {
    forall i :: 0 <= i < |s| ==> !MentionAt(s, i)
  }

  /** `name` is what follows the first mention of `s`: the whole run of word
      characters after its `@`. */
  ghost predicate MentionedAs(s: string, name: string) {
    exists i: nat, e: nat ::
      (&& i + 1 < e <= |s| && MentionAt(s, i)
       && (forall j :: 0 <= j < i ==> !MentionAt(s, j))
       && (forall k :: i + 1 <= k < e ==> IsWordChar(s[k]))
       && (e == |s| || !IsWordChar(s[e]))
       && name == s[i + 1..e])
  }

  /** `extractAssignee`: the name after the first `@` that is followed by a word
      character, or `unassigned` when there is none. */
  function ExtractAssignee(comment: string): (r: string)
    ensures NoMention(comment) ==> r == "unassigned"
    ensures !NoMention(comment) ==> MentionedAs(comment, r) && |r| >= 1
  {
    match FindMention(comment, 0)
    case None => "unassigned"
    case Some(i) =>
      var e := WordEnd(comment, i + 1);
      assert e > i + 1 by { assert IsWordChar(comment[i + 1]); }
      comment[i + 1..e]
  }

  /** The assignee is the run of word characters after the first mention. */
  lemma AssigneeAt(s: string, i: nat, e: nat)
    requires i + 1 < e <= |s| && s[i] == '@'
    requires forall j :: 0 <= j < i ==> !MentionAt(s, j)
    requires forall k :: i + 1 <= k < e ==> IsWordChar(s[k])
    requires e == |s| || !IsWordChar(s[e])
    ensures ExtractAssignee(s) == s[i + 1..e]
  {
    assert MentionAt(s, i);
    assert FindMention(s, 0) == Some(i);
    assert WordEnd(s, i + 1) == e;
  }

  /** The first mention gives the assignee, and only its run of word characters. */
  lemma AssigneeOfFirstMention()
    ensures ExtractAssignee("// TODO: to @yahor soon") == "yahor"
  {
    var a := "// TODO: to @yahor soon";
    assert a[13..18] == "yahor";
    assert forall j :: 0 <= j < 12 ==> a[j] != '@';
    AssigneeAt(a, 12, 18);
  }

  /** An `@` not followed by a word character is not a mention. */
  lemma AssigneeSkipsBareAt()
    ensures ExtractAssignee("// TODO: ask @ or @b_2.") == "b_2"
  {
    var b := "// TODO: ask @ or @b_2.";
    assert b[19..22] == "b_2";
    assert forall j :: 0 <= j < 18 && j != 13 ==> b[j] != '@';
    assert !IsWordChar(b[14]);
    AssigneeAt(b, 18, 22);
  }

  lemma AssigneeDefault()
    ensures ExtractAssignee("// TODO: nobody") == "unassigned"
  {
    var c := "// TODO: nobody";
    assert forall j :: 0 <= j < |c| ==> !MentionAt(c, j) by {
      forall j | 0 <= j < |c| ensures c[j] != '@' { }
    }
    assert FindMention(c, 0) == None;
  }

  // ---------------------------------------------------------------------
  // The due date

  /** The index of the first prefix, in list order, that occurs in `comment`. */
  function FirstContained(comment: string, prefixes: seq<string>, from: nat): (r: Option<nat>)
    requires from <= |prefixes|
    decreases |prefixes| - from
    ensures r.Some? ==> from <= r.value < |prefixes| && Contains(comment, prefixes[r.value])
    ensures r.Some? ==> forall j :: from <= j < r.value ==> !Contains(comment, prefixes[j])
    ensures r.None? ==> forall j :: from <= j < |prefixes| ==> !Contains(comment, prefixes[j])
  {
    if from == |prefixes| then None
    else if Contains(comment, prefixes[from]) then Some(from)
    else FirstContained(comment, prefixes, from + 1)
  }

  // Whichever prefix occurs with none before it occurring is the one found.
  lemma FirstContainedIsFirst(comment: string, prefixes: seq<string>)
    ensures forall k ::
              (0 <= k < |prefixes| && Contains(comment, prefixes[k])
               && forall j :: 0 <= j < k ==> !Contains(comment, prefixes[j])) ==>
              FirstContained(comment, prefixes, 0) == Some(k)
  {
    forall k | 0 <= k < |prefixes| && Contains(comment, prefixes[k])
               && forall j :: 0 <= j < k ==> !Contains(comment, prefixes[j])
      ensures FirstContained(comment, prefixes, 0) == Some(k)
    {
      var r := FirstContained(comment, prefixes, 0);
      assert r.Some?;
      assert !(r.value < k);
      assert !(k < r.value);
    }
  }

  function Min(a: int, b: int): int {
    if a <= b then a else b
  }

  /** The text a date is read from: it starts right after the first occurrence
      of `prefix` and is one character longer than the date pattern, or shorter
      where the comment ends first. */
  function DateWindow(comment: string, prefix: string, patternLength: nat): (w: string)
    requires Contains(comment, prefix)
    ensures OccursAt(comment, prefix + w, IndexOf(comment, prefix).value)
    ensures |w| == Min(patternLength + 1, |comment| - IndexOf(comment, prefix).value - |prefix|)
  {
    var i := IndexOf(comment, prefix).value;
    var start := i + |prefix|;
    var w := comment[start..Min(|comment|, start + patternLength + 1)];
    assert comment[i..i + |prefix + w|] == comment[i..start] + w;
    w
  }

  /** `extractDueDate`: only the first prefix that occurs counts; its window,
      trimmed, is parsed with the date pattern, and a text that does not parse
      gives no date even when a later prefix would have matched. */
  function ExtractDueDate(comment: string, prefixes: seq<string>, pattern: string, time: TimeLibrary): (r: Option<LocalDate>)
    ensures (forall k :: 0 <= k < |prefixes| ==> !Contains(comment, prefixes[k])) ==> r.None?
    ensures forall k ::
              (0 <= k < |prefixes| && Contains(comment, prefixes[k])
               && forall j :: 0 <= j < k ==> !Contains(comment, prefixes[j])) ==>
              r == time.parse(pattern, Trim(DateWindow(comment, prefixes[k], |pattern|)))
  {
    FirstContainedIsFirst(comment, prefixes);
    match FirstContained(comment, prefixes, 0)
    case None => None
    case Some(k) => time.parse(pattern, Trim(DateWindow(comment, prefixes[k], |pattern|)))
  }

  /** Where `prefix` does not start anywhere inside `pre`, the window is the
      start of the text after the prefix. */
  lemma WindowAfterFirstPrefix(pre: string, prefix: string, after: string, n: nat)
    requires forall j :: 0 <= j < |pre| ==> !OccursAt(pre + prefix + after, prefix, j)
    ensures Contains(pre + prefix + after, prefix)
    ensures DateWindow(pre + prefix + after, prefix, n) == after[..Min(n + 1, |after|)]
  {
    var c := pre + prefix + after;
    assert c[|pre|..|pre| + |prefix|] == prefix;
    assert OccursAt(c, prefix, |pre|);
    assert IndexOf(c, prefix) == Some(|pre|);
    assert c[|pre| + |prefix|..] == after;
  }

  /** A prefix whose first character does not occur in `pre` starts nowhere
      inside it. */
  lemma FirstCharAbsent(pre: string, prefix: string, after: string)
    requires |prefix| >= 1 && prefix[0] !in pre
    ensures forall j :: 0 <= j < |pre| ==> !OccursAt(pre + prefix + after, prefix, j)
  {
    var c := pre + prefix + after;
    forall j | 0 <= j < |pre| ensures !OccursAt(c, prefix, j) {
      assert c[j] == pre[j] && pre[j] in pre;
      assert c[j] != prefix[0];
    }
  }

  /** With the default pattern the window is eleven characters: the date
      after `due to` is read, the comma after it is not. */
  lemma DefaultWindowExample()
    ensures Contains("// TODO: this comment contain " + "due to" + " 10.10.2023, text", "due to")
    ensures Trim(DateWindow("// TODO: this comment contain " + "due to" + " 10.10.2023, text", "due to", 10))
            == "10.10.2023"
  {
    FirstCharAbsent("// TODO: this comment contain ", "due to", " 10.10.2023, text");
    WindowAfterFirstPrefix("// TODO: this comment contain ", "due to", " 10.10.2023, text", 10);
    assert " 10.10.2023, text"[..11] == " 10.10.2023";
    TrimWindowExample(" 10.10.2023", "10.10.2023");
  }

  /** A custom prefix and the pattern `d MMM yyyy`; the `b` of `be` does not
      start the prefix. */
  lemma CustomWindowExample()
    ensures Contains("// TODO: should " + "be" + " solved " + "by date of" + " 3 Dec 2011", "by date of")
    ensures Trim(DateWindow("// TODO: should " + "be" + " solved " + "by date of" + " 3 Dec 2011", "by date of", 10))
            == "3 Dec 2011"
  {
    var p1, p3 := "// TODO: should ", " solved ";
    var prefix, after := "by date of", " 3 Dec 2011";
    var pre := p1 + "be" + p3;
    NoStartAtBe(p1, p3, prefix, after);
    WindowAfterFirstPrefix(pre, prefix, after, 10);
    assert after[..11] == " 3 Dec 2011";
    TrimWindowExample(" 3 Dec 2011", "3 Dec 2011");
  }

  /** A prefix starting with `by` starts neither inside texts without `b` nor
      at the `be` between them. */
  lemma NoStartAtBe(p1: string, p3: string, prefix: string, after: string)
    requires 'b' !in p1 && 'b' !in p3
    requires |prefix| >= 2 && prefix[0] == 'b' && prefix[1] == 'y'
    ensures var pre := p1 + "be" + p3;
      forall j :: 0 <= j < |pre| ==> !OccursAt(pre + prefix + after, prefix, j)
  {
    var pre := p1 + "be" + p3;
    var c := pre + prefix + after;
    forall j | 0 <= j < |pre| ensures !OccursAt(c, prefix, j) {
      if j < |p1| {
        assert c[j] == p1[j] && p1[j] in p1;
      } else if j == |p1| {
        assert c[j + 1] == 'e';
      } else if j == |p1| + 1 {
        assert c[j] == 'e';
      } else {
        assert c[j] == p3[j - |p1| - 2] && p3[j - |p1| - 2] in p3;
      }
    }
  }

  /** The window is as long as the pattern, not as the date: a two-digit day
      under the one-letter `d` loses the last digit of the year. */
  lemma CustomWindowCutsLongerDate()
    ensures Contains("// TODO: fix " + "by date of" + " 10 Dec 2011", "by date of")
    ensures Trim(DateWindow("// TODO: fix " + "by date of" + " 10 Dec 2011", "by date of", 10)) == "10 Dec 201"
  {
    FirstCharAbsent("// TODO: fix ", "by date of", " 10 Dec 2011");
    WindowAfterFirstPrefix("// TODO: fix ", "by date of", " 10 Dec 2011", 10);
    assert " 10 Dec 2011"[..11] == " 10 Dec 201";
    TrimWindowExample(" 10 Dec 201", "10 Dec 201");
  }

  // A window made of one space and then a text of ten characters without
  // surrounding blanks trims to that text.
  lemma TrimWindowExample(w: string, t: string)
    requires |w| == 11 && w[0] == ' ' && w[1..] == t && !IsTrimmed(t[0]) && !IsTrimmed(t[9])
    ensures Trim(w) == t
  {
    var r := Trim(w);
    var a, b :| TrimBounds(w, a, b) && r == w[a..b];
    assert w[1] == t[0] && w[10] == t[9];
    assert a == 1 && b == 11;
  }

  // ---------------------------------------------------------------------
  // Line and column of a match

  /** `calculateLineNumber`: the number of pieces `split("\n")` makes of the
      text before the match. */
  function LineNumber(content: string, pos: nat): int
    requires pos <= |content|
  {
    |SplitNewlines(content[..pos])|
  }

  /** `calculateColumnNumber`: one more than the length of the last piece, or
      `None` where there is no piece at all and the array index is out of
      bounds. */
  function ColumnNumber(content: string, pos: nat): Option<int>
    requires pos <= |content|
  {
    var lines := SplitNewlines(content[..pos]);
    if |lines| == 0 then None else Some(|lines[|lines| - 1]| + 1)
  }

  /** Line and column for any position. With the newlines just before `pos` set
      aside (leaving `u`), the line is one more than the newlines in `u` and the
      column is counted from the start of `u`'s last line; when everything
      before `pos` is a newline the column cannot be computed. */
  lemma Position(content: string, pos: nat)
    requires pos <= |content|
    ensures var s := content[..pos];
      var u := s[..pos - TrailingNewlines(s)];
      && (u == [] && pos > 0 ==> LineNumber(content, pos) == 0 && ColumnNumber(content, pos).None?)
      && (u != [] || pos == 0 ==>
            LineNumber(content, pos) == 1 + CountChar(u, '\n')
            && ColumnNumber(content, pos) == Some(|u| - LineStart(u) + 1))
  {
    PositionWithoutLine(content, pos);
    LineOfPosition(content, pos);
    ColumnOfPosition(content, pos);
  }

  lemma PositionWithoutLine(content: string, pos: nat)
    requires pos <= |content|
    ensures var s := content[..pos];
      var u := s[..pos - TrailingNewlines(s)];
      u == [] && pos > 0 ==> LineNumber(content, pos) == 0 && ColumnNumber(content, pos).None?
  {
    var s := content[..pos];
    SplitNewlinesShape(s);
  }

  lemma LineOfPosition(content: string, pos: nat)
    requires pos <= |content|
    ensures var s := content[..pos];
      var u := s[..pos - TrailingNewlines(s)];
      u != [] || pos == 0 ==> LineNumber(content, pos) == 1 + CountChar(u, '\n')
  {
    var s := content[..pos];
    SplitNewlinesShape(s);
  }

  lemma ColumnOfPosition(content: string, pos: nat)
    requires pos <= |content|
    ensures var s := content[..pos];
      var u := s[..pos - TrailingNewlines(s)];
      u != [] || pos == 0 ==> ColumnNumber(content, pos) == Some(|u| - LineStart(u) + 1)
  {
    var s := content[..pos];
    var lines := SplitNewlines(s);
    assert ColumnNumber(content, pos) == if |lines| == 0 then None else Some(|lines[|lines| - 1]| + 1);
    assert |s| == pos && (pos == 0 <==> s == []);
    LastPieceLength(s);
  }

  /** A match at offset 0 is on line 1, column 1. */
  lemma PositionAtStart(content: string)
    ensures LineNumber(content, 0) == 1 && ColumnNumber(content, 0) == Some(1)
  {
    Position(content, 0);
    assert content[..0] == [];
  }

  /** Where the character before `pos` is not a newline, the line is one more
      than the newlines before `pos`, and the column is the distance from the
      character after the last of them, plus one. */
  lemma PositionMidLine(content: string, pos: nat)
    requires pos <= |content| && (pos == 0 || content[pos - 1] != '\n')
    ensures LineNumber(content, pos) == 1 + CountChar(content[..pos], '\n')
    ensures ColumnNumber(content, pos) == Some(pos - LineStart(content[..pos]) + 1)
  {
    var s := content[..pos];
    assert pos > 0 ==> s[|s| - 1] == content[pos - 1];
    SplitNewlinesMidLine(s);
  }

  /** A TODO that starts a line below the first is reported at the end of the
      line above it: in `x\n// TODO` the match at offset 2 gets line 1, column 2. */
  lemma PositionAfterNewline()
    ensures LineNumber("x\n// TODO", 2) == 1 && ColumnNumber("x\n// TODO", 2) == Some(2)
  {
    var content := "x\n// TODO";
    Position(content, 2);
    var s := content[..2];
    assert s == "x\n";
    assert TrailingNewlines(s) == 1;
    assert s[..1] == "x";
  }

  /** Before a match preceded only by newlines the column cannot be computed. */
  lemma PositionAfterNewlinesOnly()
    ensures ColumnNumber("\n\n// TODO", 2).None?
  {
    var content := "\n\n// TODO";
    Position(content, 2);
    var s := content[..2];
    assert s == "\n\n";
    assert TrailingNewlines(s) == 2;
  }

  // ---------------------------------------------------------------------
  // One file

  /** What can be thrown while scanning: `readFileContent`'s
      `IllegalStateException` with its message, `DateTimeFormatter.ofPattern`
      rejecting the configured pattern, and the out-of-bounds index of
      `calculateColumnNumber`. */
  datatype ScanError =
    | ReadFailure(message: string)
    | BadDatePattern(pattern: string)
    | ColumnIndexOutOfBounds(filePath: string, offset: nat)

  /** The message of the exception `readFileContent` throws. */
  function ReadFailureMessage(fileName: string): (m: string)
    ensures |m| == 20 + |fileName| && m[..20] == "Failed to read file " && m[20..] == fileName
  {
    "Failed to read file " + fileName
  }

  /** The message names the file: different names give different messages. */
  lemma ReadFailureNamesFile(a: string, b: string)
    ensures ReadFailureMessage(a) == ReadFailureMessage(b) <==> a == b
  {
    if ReadFailureMessage(a) == ReadFailureMessage(b) {
      assert a == ReadFailureMessage(a)[20..];
    }
  }

  /** The record for the match `sp` of `text`, read from the file at `path`. */
  function MakeTodo(text: string, path: string, sp: Span, settings: Settings, time: TimeLibrary): Result<TodoModel, ScanError>
    requires sp.start <= sp.end <= |text|
  {
    var comment := text[sp.start..sp.end];
    match ColumnNumber(text, sp.start)
    case None => Err(ColumnIndexOutOfBounds(path, sp.start))
    case Some(column) =>
      Ok(TodoModel(
        ExtractAssignee(comment),
        ExtractDueDate(comment, settings.dueDatePrefixes, settings.dateFormat, time),
        path,
        LineNumber(text, sp.start),
        column))
  }

  predicate ValidSpans(text: string, spans: seq<Span>) {
    forall k :: 0 <= k < |spans| ==> spans[k].start <= spans[k].end <= |text|
  }

  /** The records for `spans`, in order, those `keep` rejects left out; the
      first record that cannot be built fails the whole scan. */
  function ScanRecords(text: string, path: string, spans: seq<Span>, settings: Settings, time: TimeLibrary, keep: TodoModel -> bool): Result<seq<TodoModel>, ScanError>
    requires ValidSpans(text, spans)
  {
    if spans == [] then Ok([])
    else match MakeTodo(text, path, spans[0], settings, time)
      case Err(e) => Err(e)
      case Ok(todo) =>
        Concat(Ok(if keep(todo) then [todo] else []), ScanRecords(text, path, spans[1..], settings, time, keep))
  }

  /** `extractTodosFromFileByFilter` on a file whose content is `content`
      (`None` where it cannot be read). */
  function FileTodos(path: string, name: string, content: Option<string>, settings: Settings, time: TimeLibrary, keep: TodoModel -> bool): Result<seq<TodoModel>, ScanError> {
    if content.None? then Err(ReadFailure(ReadFailureMessage(name)))
    else if !time.acceptsPattern(settings.dateFormat) then Err(BadDatePattern(settings.dateFormat))
    else ScanRecords(content.value, path, Matches(content.value, 0), settings, time, keep)
  }

  /** `extractTodosFromFileByFilter`: reads the file, builds the formatter, then
      runs the matcher over the text and adds every record the filter keeps. */
  method ExtractTodosFromFileByFilter(path: string, name: string, content: Option<string>, settings: Settings, time: TimeLibrary, keep: TodoModel -> bool)
    returns (r: Result<seq<TodoModel>, ScanError>)
    ensures r == FileTodos(path, name, content, settings, time, keep)
  {
    if content.None? {
      return Err(ReadFailure(ReadFailureMessage(name)));
    }
    var text := content.value;
    if !time.acceptsPattern(settings.dateFormat) {
      return Err(BadDatePattern(settings.dateFormat));
    }
    var todos: seq<TodoModel> := [];
    var from: nat := 0;
    ConcatEmpty(ScanRecords(text, path, Matches(text, 0), settings, time, keep));
    while true
      invariant from <= |text|
      invariant ScanRecords(text, path, Matches(text, 0), settings, time, keep)
                == Concat(Ok(todos), ScanRecords(text, path, Matches(text, from), settings, time, keep))
      decreases |text| - from
    {
      var found := Find(text, from);
      if found.None? {
        ScanDone(text, path, from, settings, time, keep, todos);
        break;
      }
      var sp := found.value;
      var todo := MakeTodo(text, path, sp, settings, time);
      if todo.Err? {
        ScanFails(text, path, from, settings, time, keep, todos);
        return Err(todo.error);
      }
      var added := if keep(todo.value) then [todo.value] else [];
      ScanStep(text, path, from, settings, time, keep, todos);
      todos := todos + added;
      from := sp.end;
    }
    return Ok(todos);
  }

  /** Without a further match, the scan of the rest adds nothing. */
  lemma ScanDone(text: string, path: string, from: nat, settings: Settings, time: TimeLibrary, keep: TodoModel -> bool, todos: seq<TodoModel>)
    requires from <= |text| && Find(text, from).None?
    ensures Concat(Ok(todos), ScanRecords(text, path, Matches(text, from), settings, time, keep)) == Ok(todos)
  {
    assert Matches(text, from) == [];
    ConcatEmpty<TodoModel, ScanError>(Ok(todos));
  }

  /** A next match whose record cannot be built fails the scan with its error. */
  lemma ScanFails(text: string, path: string, from: nat, settings: Settings, time: TimeLibrary, keep: TodoModel -> bool, todos: seq<TodoModel>)
    requires from <= |text| && Find(text, from).Some?
    requires MakeTodo(text, path, Find(text, from).value, settings, time).Err?
    ensures Concat(Ok(todos), ScanRecords(text, path, Matches(text, from), settings, time, keep))
            == Err(MakeTodo(text, path, Find(text, from).value, settings, time).error)
  {
    var sp := Find(text, from).value;
    assert Matches(text, from) == [sp] + Matches(text, sp.end);
  }

  /** A next match whose record is built adds that record, when kept, and the
      scan resumes after the match. */
  lemma ScanStep(text: string, path: string, from: nat, settings: Settings, time: TimeLibrary, keep: TodoModel -> bool, todos: seq<TodoModel>)
    requires from <= |text| && Find(text, from).Some?
    requires MakeTodo(text, path, Find(text, from).value, settings, time).Ok?
    ensures var sp := Find(text, from).value;
      var todo := MakeTodo(text, path, sp, settings, time).value;
      Concat(Ok(todos), ScanRecords(text, path, Matches(text, from), settings, time, keep))
      == Concat(Ok(todos + (if keep(todo) then [todo] else [])), ScanRecords(text, path, Matches(text, sp.end), settings, time, keep))
  {
    var sp := Find(text, from).value;
    var rest := Matches(text, sp.end);
    var spans := Matches(text, from);
    assert spans == [sp] + rest;
    assert spans[0] == sp && spans[1..] == rest;
    ScanRecordsCons(text, path, spans, settings, time, keep, todos);
  }

  /** The scan of a first span whose record is built, then the others. */
  lemma ScanRecordsCons(text: string, path: string, spans: seq<Span>, settings: Settings, time: TimeLibrary, keep: TodoModel -> bool, todos: seq<TodoModel>)
    requires ValidSpans(text, spans) && spans != []
    requires MakeTodo(text, path, spans[0], settings, time).Ok?
    ensures var todo := MakeTodo(text, path, spans[0], settings, time).value;
      Concat(Ok(todos), ScanRecords(text, path, spans, settings, time, keep))
      == Concat(Ok(todos + (if keep(todo) then [todo] else [])), ScanRecords(text, path, spans[1..], settings, time, keep))
  {
    var todo := MakeTodo(text, path, spans[0], settings, time).value;
    ConcatAssociative(Ok(todos), Ok(if keep(todo) then [todo] else []), ScanRecords(text, path, spans[1..], settings, time, keep));
  }

  /** Exactly one record per match, in match order, before filtering; the scan
      fails with the error of the first match whose record cannot be built. */
  lemma OneRecordPerMatch(text: string, path: string, spans: seq<Span>, settings: Settings, time: TimeLibrary)
    requires ValidSpans(text, spans)
    ensures var r := ScanRecords(text, path, spans, settings, time, KeepAll);
      && (r.Ok? <==> forall k :: 0 <= k < |spans| ==> MakeTodo(text, path, spans[k], settings, time).Ok?)
      && (r.Ok? ==>
            (|r.value| == |spans|
             && forall k :: 0 <= k < |spans| ==> MakeTodo(text, path, spans[k], settings, time) == Ok(r.value[k])))
      && (r.Err? ==> exists k :: (0 <= k < |spans| && MakeTodo(text, path, spans[k], settings, time) == Err(r.error)
            && forall j :: 0 <= j < k ==> MakeTodo(text, path, spans[j], settings, time).Ok?))
  {
    ScanAllIsCollect(text, path, spans, settings, time);
    var rs := Records(text, path, spans, settings, time);
    RecordsAt(text, path, spans, settings, time);
    CollectOkSucceeds(rs);
    CollectOkValues(rs);
    CollectOkFailsAtFirst(rs);
  }

  /** The record, or the error, for each match in turn. */
  function Records(text: string, path: string, spans: seq<Span>, settings: Settings, time: TimeLibrary): (rs: seq<Result<TodoModel, ScanError>>)
    requires ValidSpans(text, spans)
    ensures |rs| == |spans|
  {
    if spans == [] then [] else [MakeTodo(text, path, spans[0], settings, time)] + Records(text, path, spans[1..], settings, time)
  }

  /** The entry for each match is that match's record. */
  lemma {:induction false} RecordsAt(text: string, path: string, spans: seq<Span>, settings: Settings, time: TimeLibrary)
    requires ValidSpans(text, spans)
    ensures forall k :: 0 <= k < |spans| ==> Records(text, path, spans, settings, time)[k] == MakeTodo(text, path, spans[k], settings, time)
  {
    if spans != [] {
      var tail := spans[1..];
      RecordsAt(text, path, tail, settings, time);
      var rs := Records(text, path, spans, settings, time);
      assert rs == [MakeTodo(text, path, spans[0], settings, time)] + Records(text, path, tail, settings, time);
      forall k | 1 <= k < |spans|
        ensures rs[k] == MakeTodo(text, path, spans[k], settings, time)
      {
        assert rs[k] == Records(text, path, tail, settings, time)[k - 1] && tail[k - 1] == spans[k];
      }
    }
  }

  /** Without a filter, the scan collects the records of all matches. */
  lemma {:induction false} ScanAllIsCollect(text: string, path: string, spans: seq<Span>, settings: Settings, time: TimeLibrary)
    requires ValidSpans(text, spans)
    ensures ScanRecords(text, path, spans, settings, time, KeepAll) == CollectOk(Records(text, path, spans, settings, time))
  {
    if spans != [] {
      ScanAllIsCollect(text, path, spans[1..], settings, time);
      var rs := Records(text, path, spans, settings, time);
      assert rs[1..] == Records(text, path, spans[1..], settings, time);
    }
  }

  /** The filter of `extractTodos`, accepting everything. */
  const KeepAll: TodoModel -> bool := (t: TodoModel) => true

  /** Scanning with a filter keeps exactly the records the filter accepts out of
      the unfiltered scan, in the same order, and fails exactly when it fails. */
  lemma {:induction false} ScanRecordsFilter(text: string, path: string, spans: seq<Span>, settings: Settings, time: TimeLibrary, keep: TodoModel -> bool)
    requires ValidSpans(text, spans)
    ensures ScanRecords(text, path, spans, settings, time, keep)
            == FilterResult(keep, ScanRecords(text, path, spans, settings, time, KeepAll))
  {
    if spans != [] {
      ScanRecordsFilter(text, path, spans[1..], settings, time, keep);
      var first := MakeTodo(text, path, spans[0], settings, time);
      var rest := ScanRecords(text, path, spans[1..], settings, time, KeepAll);
      if first.Ok? && rest.Ok? {
        FilterConcat(keep, [first.value], rest.value);
      }
    }
  }

  // ---------------------------------------------------------------------
  // The directory walk

  /** An entry of the project tree: a file with its content (`None` where it
      cannot be read), or a directory with its entries in listing order
      (`listable` is false where `listFiles` returns null). */
  datatype Entry =
    | File(name: string, content: Option<string>)
    | Directory(name: string, listable: bool, children: seq<Entry>)

  /** The path of the entry `name` inside the directory at `dirPath`. */
  function ChildPath(dirPath: string, name: string): string {
    dirPath + "/" + name
  }

  /** `extractTodos(dir, filter)` on the entry at `path`. */
  function WalkTodos(dir: Entry, path: string, settings: Settings, time: TimeLibrary, keep: TodoModel -> bool): Result<seq<TodoModel>, ScanError>
    decreases dir
  {
    if dir.File? || !dir.listable then Ok([])
    else ChildrenTodos(dir.children, path, settings, time, keep)
  }

  /** The body of the loop of `extractTodos`, over the entries `children` of the
      directory at `dirPath`. */
  function ChildrenTodos(children: seq<Entry>, dirPath: string, settings: Settings, time: TimeLibrary, keep: TodoModel -> bool): Result<seq<TodoModel>, ScanError>
    decreases children
  {
    if children == [] then Ok([])
    else
      var c := children[0];
      var p := ChildPath(dirPath, c.name);
      var first :=
        if c.Directory? then WalkTodos(c, p, settings, time, keep)
        else if IsJvmFile(c.name) then FileTodos(p, c.name, c.content, settings, time, keep)
        else Ok([]);
      Concat(first, ChildrenTodos(children[1..], dirPath, settings, time, keep))
  }

  /** `extractTodos`: the records of every JVM file below `dir` that `keep` accepts. */
  method ExtractTodos(dir: Entry, path: string, settings: Settings, time: TimeLibrary, keep: TodoModel -> bool)
    returns (r: Result<seq<TodoModel>, ScanError>)
    decreases dir
    ensures r == WalkTodos(dir, path, settings, time, keep)
  {
    if dir.File? || !dir.listable {
      return Ok([]);
    }
    var files := dir.children;
    var todos: seq<TodoModel> := [];
    assert files[0..] == files;
    ConcatEmpty(ChildrenTodos(files, path, settings, time, keep));
    for i := 0 to |files|
      invariant ChildrenTodos(files, path, settings, time, keep)
                == Concat(Ok(todos), ChildrenTodos(files[i..], path, settings, time, keep))
    {
      var file := files[i];
      assert files[i..][0] == file && files[i..][1..] == files[i + 1..];
      var p := ChildPath(path, file.name);
      var more: Result<seq<TodoModel>, ScanError> := Ok([]);
      if file.Directory? {
        more := ExtractTodos(file, p, settings, time, keep);
      } else if IsJvmFile(file.name) {
        more := ExtractTodosFromFileByFilter(p, file.name, file.content, settings, time, keep);
      }
      if more.Err? {
        return Err(more.error);
      }
      ConcatAssociative(Ok(todos), more, ChildrenTodos(files[i + 1..], path, settings, time, keep));
      todos := todos + more.value;
    }
    assert files[|files|..] == [];
    ConcatEmpty<TodoModel, ScanError>(Ok(todos));
    return Ok(todos);
  }

  /** A file the walk reads, with the path the records get. */
  datatype SourceFile = SourceFile(path: string, name: string, content: Option<string>)

  /** The JVM files below `dir`, in the order the walk reaches them: the
      entries of a directory in listing order, a subdirectory's files in
      place of the subdirectory. */
  function ScannedFiles(dir: Entry, path: string): (fs: seq<SourceFile>)
    decreases dir
    ensures forall k :: 0 <= k < |fs| ==> IsJvmFile(fs[k].name)
  {
    if dir.File? || !dir.listable then [] else ScannedChildren(dir.children, path)
  }

  function ScannedChildren(children: seq<Entry>, dirPath: string): (fs: seq<SourceFile>)
    decreases children
    ensures forall k :: 0 <= k < |fs| ==> IsJvmFile(fs[k].name)
  {
    if children == [] then []
    else
      var c := children[0];
      var p := ChildPath(dirPath, c.name);
      var first :=
        if c.Directory? then ScannedFiles(c, p)
        else if IsJvmFile(c.name) then [SourceFile(p, c.name, c.content)]
        else [];
      first + ScannedChildren(children[1..], dirPath)
  }

  /** The scans of `files`, one after the other. */
  function ScanAll(files: seq<SourceFile>, settings: Settings, time: TimeLibrary, keep: TodoModel -> bool): Result<seq<TodoModel>, ScanError> {
    if files == [] then Ok([])
    else Concat(FileTodos(files[0].path, files[0].name, files[0].content, settings, time, keep),
                ScanAll(files[1..], settings, time, keep))
  }

  lemma {:induction false} ScanAllConcat(a: seq<SourceFile>, b: seq<SourceFile>, settings: Settings, time: TimeLibrary, keep: TodoModel -> bool)
    ensures ScanAll(a + b, settings, time, keep) == Concat(ScanAll(a, settings, time, keep), ScanAll(b, settings, time, keep))
  {
    if a == [] {
      assert a + b == b;
      ConcatEmpty(ScanAll(b, settings, time, keep));
    } else {
      assert (a + b)[0] == a[0] && (a + b)[1..] == a[1..] + b;
      ScanAllConcat(a[1..], b, settings, time, keep);
      ConcatAssociative(FileTodos(a[0].path, a[0].name, a[0].content, settings, time, keep),
                        ScanAll(a[1..], settings, time, keep), ScanAll(b, settings, time, keep));
    }
  }

  /** The walk is the scan of the JVM files below the directory, in walk order,
      concatenated: nothing else is dropped, added or reordered. */
  lemma {:induction false} WalkIsScanOfFiles(dir: Entry, path: string, settings: Settings, time: TimeLibrary, keep: TodoModel -> bool)
    decreases dir
    ensures WalkTodos(dir, path, settings, time, keep) == ScanAll(ScannedFiles(dir, path), settings, time, keep)
  {
    if dir.Directory? && dir.listable {
      ChildrenAreScanOfFiles(dir.children, path, settings, time, keep);
    }
  }

  lemma {:induction false} ChildrenAreScanOfFiles(children: seq<Entry>, dirPath: string, settings: Settings, time: TimeLibrary, keep: TodoModel -> bool)
    decreases children
    ensures ChildrenTodos(children, dirPath, settings, time, keep)
            == ScanAll(ScannedChildren(children, dirPath), settings, time, keep)
  {
    if children != [] {
      var c := children[0];
      var p := ChildPath(dirPath, c.name);
      var first :=
        if c.Directory? then ScannedFiles(c, p)
        else if IsJvmFile(c.name) then [SourceFile(p, c.name, c.content)]
        else [];
      ChildrenAreScanOfFiles(children[1..], dirPath, settings, time, keep);
      ScanAllConcat(first, ScannedChildren(children[1..], dirPath), settings, time, keep);
      if c.Directory? {
        WalkIsScanOfFiles(c, p, settings, time, keep);
      } else if IsJvmFile(c.name) {
        assert first[1..] == [];
        var f := FileTodos(p, c.name, c.content, settings, time, keep);
        assert f.Ok? ==> f.value + [] == f.value;
      }
    }
  }

  /** The walk with a filter keeps exactly what the filter accepts of the
      unfiltered walk, in order; it fails exactly when the unfiltered walk does. */
  lemma {:induction false} WalkFilter(dir: Entry, path: string, settings: Settings, time: TimeLibrary, keep: TodoModel -> bool)
    decreases dir
    ensures WalkTodos(dir, path, settings, time, keep)
            == FilterResult(keep, WalkTodos(dir, path, settings, time, KeepAll))
  {
    if dir.Directory? && dir.listable {
      ChildrenFilter(dir.children, path, settings, time, keep);
    }
  }

  lemma {:induction false} ChildrenFilter(children: seq<Entry>, dirPath: string, settings: Settings, time: TimeLibrary, keep: TodoModel -> bool)
    decreases children
    ensures ChildrenTodos(children, dirPath, settings, time, keep)
            == FilterResult(keep, ChildrenTodos(children, dirPath, settings, time, KeepAll))
  {
    if children != [] {
      var c := children[0];
      var p := ChildPath(dirPath, c.name);
      ChildrenFilter(children[1..], dirPath, settings, time, keep);
      if c.Directory? {
        WalkFilter(c, p, settings, time, keep);
      } else if IsJvmFile(c.name) && c.content.Some? && time.acceptsPattern(settings.dateFormat) {
        ScanRecordsFilter(c.content.value, p, Matches(c.content.value, 0), settings, time, keep);
      }
      var first := if c.Directory? then WalkTodos(c, p, settings, time, KeepAll)
        else if IsJvmFile(c.name) then FileTodos(p, c.name, c.content, settings, time, KeepAll)
        else Ok([]);
      var rest := ChildrenTodos(children[1..], dirPath, settings, time, KeepAll);
      if first.Ok? && rest.Ok? {
        FilterConcat(keep, first.value, rest.value);
      }
    }
  }

  /** The setting for the mention symbol is never read: changing it changes no
      record of the walk. */
  lemma {:induction false} MentionSymbolIgnored(dir: Entry, path: string, settings: Settings, symbol: string, time: TimeLibrary, keep: TodoModel -> bool)
    ensures WalkTodos(dir, path, settings.(mentionSymbol := symbol), time, keep)
            == WalkTodos(dir, path, settings, time, keep)
  {
    WalkIsScanOfFiles(dir, path, settings, time, keep);
    WalkIsScanOfFiles(dir, path, settings.(mentionSymbol := symbol), time, keep);
    ScanAllIgnoresSymbol(ScannedFiles(dir, path), settings, symbol, time, keep);
  }

  lemma {:induction false} ScanAllIgnoresSymbol(files: seq<SourceFile>, settings: Settings, symbol: string, time: TimeLibrary, keep: TodoModel -> bool)
    ensures ScanAll(files, settings.(mentionSymbol := symbol), time, keep) == ScanAll(files, settings, time, keep)
  {
    if files != [] {
      ScanAllIgnoresSymbol(files[1..], settings, symbol, time, keep);
      var f := files[0];
      if f.content.Some? {
        ScanRecordsIgnoresSymbol(f.content.value, f.path, Matches(f.content.value, 0), settings, symbol, time, keep);
      }
    }
  }

  lemma {:induction false} ScanRecordsIgnoresSymbol(text: string, path: string, spans: seq<Span>, settings: Settings, symbol: string, time: TimeLibrary, keep: TodoModel -> bool)
    requires ValidSpans(text, spans)
    ensures ScanRecords(text, path, spans, settings.(mentionSymbol := symbol), time, keep)
            == ScanRecords(text, path, spans, settings, time, keep)
  {
    if spans != [] {
      ScanRecordsIgnoresSymbol(text, path, spans[1..], settings, symbol, time, keep);
    }
  }
}
