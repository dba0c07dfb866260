# ToDoMe TODO linter: a verified model of its scanner and reports

ToDoMe is a Gradle plugin that scans the JVM sources of a project for `TODO`
comments and reports them. It has two tasks:

- `verifyTodos` fails the build when any TODO lacks a due date that can be read;
- `listTodos` prints the dated TODOs, sorted by due date and optionally only the overdue ones.

This project models, in Dafny, everything between the file tree and the log lines:

- the fixed comment pattern, as a left-to-right, non-overlapping matcher (`TodoPattern`);
- for each match, a record (`Model.TodoModel`) that the extractor builds from (`AbstractTodoTask`):
  - the assignee after the first `@`;
  - the due date read from a window after the first configured prefix that occurs;
  - the line and column computed with Java's `split("\n")`, trailing-empty-piece rule included;
- the recursive walk over a directory tree, which scans only `.java`, `.kt`, `.kts` and `.groovy` files;
- the configuration block (`Extension.ToDoMeExtension`), a class whose setters update its three fields;
- the list report (`ListTodosTask`):
  - a `TreeMap` keyed by the text of the due date (`SortedMap`), where a later record replaces an earlier one with the same date;
  - `Collections.reverse` and `removeIf` on an array;
  - the printed lines, and the failure in overdue mode;
- the verify report (`VerifyTodosTask`);
- the exact log lines, colour codes included (`ReportFormat`).

A report returns `Success(lines)` or `Failure(message, lines)` instead of logging and throwing.
A scan that throws returns `Err(ScanError)`.

Shared pieces:

- `Common`: options, results, filtering, reversal;
- `JavaText`:
  - `indexOf`, `contains`, `endsWith`, `trim`;
  - `compareTo` on strings;
  - `Integer.toString`;
  - `split("\n")`;
- `Dates`: `LocalDate`, `toString` and `isAfter`.

`TodoModel` is a datatype. Its getters are its fields, and it is immutable by construction.
Only `dueDate` is optional. Nothing constrains the line and column.

Where the plugin's documented intent and its code differ, the model follows the code:

- The assignee always follows a literal `@`. The configured `mentionSymbol` is never read (`AbstractTodoTask.MentionSymbolIgnored`).
- The date window is cut first and trimmed afterwards, not the other way round. So with the pattern `d MMM yyyy`, the text ` 10 Dec 2011` is cut to `10 Dec 201` (`AbstractTodoTask.CustomWindowCutsLongerDate`).
- Line numbers count the pieces of `split("\n")`, not the newlines. So:
  - a TODO right after a newline is reported on the previous line, at that line's end (`AbstractTodoTask.PositionAfterNewline`);
  - a TODO preceded only by newlines makes the column lookup throw (`AbstractTodoTask.PositionAfterNewlinesOnly`).
- The overdue mode keeps every date that is not after today. A TODO due today is printed and fails the build (`ListTodosTask.OverdueSelection`).

## Model

| member | source | states |
|---|---|---|
| `Common.FilterSpec` | todome-plugin/src/main/java/com/yahorbarkouski/todome/task/AbstractTodoTask.java:103-105 | the kept elements all pass the test, each comes from the input, every input element passing the test is kept, and nothing is dropped when all pass |
| `Common.FilterKeepsOrder` | todome-plugin/src/main/java/com/yahorbarkouski/todome/task/ListTodosTask.java:60-62 | any order relation that holds between positions of the input holds between positions of the filtered list |
| `Common.FilterConcat` | todome-plugin/src/main/java/com/yahorbarkouski/todome/task/AbstractTodoTask.java:56-62 | filtering a concatenation is concatenating the filtered parts |
| `Common.ConcatAssociative` | todome-plugin/src/main/java/com/yahorbarkouski/todome/task/AbstractTodoTask.java:58-60 | chaining `addAll` over results that may have thrown is associative; the first error wins |
| `Common.Reverse` | todome-plugin/src/main/java/com/yahorbarkouski/todome/task/ListTodosTask.java:56-58 | same length, position k holds the element at n-1-k |
| `Common.ReverseInPlace` | todome-plugin/src/main/java/com/yahorbarkouski/todome/task/ListTodosTask.java:57 | the array afterwards holds the reversal of its old contents |
| `Common.RemoveIf` | todome-plugin/src/main/java/com/yahorbarkouski/todome/task/ListTodosTask.java:61 | the returned prefix of the array is exactly the passing elements of the old contents, in order |
| `JavaText.IndexOf` | todome-plugin/src/main/java/com/yahorbarkouski/todome/task/AbstractTodoTask.java:155 | the leftmost occurrence, and none only when the text occurs nowhere |
| `JavaText.ContainsMeansOccurs` | todome-plugin/src/main/java/com/yahorbarkouski/todome/task/AbstractTodoTask.java:152 | `contains` holds exactly when the text occurs at some index |
| `JavaText.Trim` | todome-plugin/src/main/java/com/yahorbarkouski/todome/task/AbstractTodoTask.java:162 | the result is a slice with only characters up to the space cut off both ends, and it starts and ends with other characters |
| `JavaText.TrimIdempotent` | todome-plugin/src/main/java/com/yahorbarkouski/todome/task/AbstractTodoTask.java:162 | trimming twice is trimming once |
| `JavaText.StrLessIrreflexive` | todome-plugin/src/main/java/com/yahorbarkouski/todome/task/ListTodosTask.java:49 | no key is less than itself under `compareTo` |
| `JavaText.StrLessTransitive` | todome-plugin/src/main/java/com/yahorbarkouski/todome/task/ListTodosTask.java:49 | the `compareTo` order is transitive |
| `JavaText.StrLessTotal` | todome-plugin/src/main/java/com/yahorbarkouski/todome/task/ListTodosTask.java:49 | any two different keys are ordered one way |
| `JavaText.StrLessAsymmetric` | todome-plugin/src/main/java/com/yahorbarkouski/todome/task/ListTodosTask.java:49 | never both ways |
| `JavaText.IntToStringRoundTrip` | todome-plugin/src/main/java/com/yahorbarkouski/todome/task/ListTodosTask.java:91 | the decimal text of a line or column number reads back as that number, negatives included |
| `JavaText.SplitAllJoin` | todome-plugin/src/main/java/com/yahorbarkouski/todome/task/AbstractTodoTask.java:189 | joining the pieces of the full split with newlines gives the text back |
| `JavaText.SplitNewlinesMidLine` | todome-plugin/src/main/java/com/yahorbarkouski/todome/task/AbstractTodoTask.java:178-189 | for a text that does not end in a newline, `split` gives one more piece than its newlines, and the last piece is as long as the text after the last newline |
| `JavaText.SplitNewlinesShape` | todome-plugin/src/main/java/com/yahorbarkouski/todome/task/AbstractTodoTask.java:178 | with the trailing newlines set aside, `split` gives one more piece than the remaining newlines and its last piece is the last line; a text of newlines only gives no piece |
| `Dates.IsoStringExample` | todome-plugin/src/main/java/com/yahorbarkouski/todome/task/ListTodosTask.java:92 | 10 October 2023 prints as `2023-10-10` |
| `Dates.IsoOrderIsChronological` | todome-plugin/src/main/java/com/yahorbarkouski/todome/task/ListTodosTask.java:49-50 | for years 0 to 9999 one ISO text sorts before another exactly when its date is earlier |
| `Dates.IsoOrderBreaksAfter9999` | todome-plugin/src/main/java/com/yahorbarkouski/todome/task/ListTodosTask.java:49-50 | `+10000-01-01` sorts before `2023-10-10` although it is later |
| `Dates.IsoStringInjective` | todome-plugin/src/main/java/com/yahorbarkouski/todome/task/ListTodosTask.java:50 | different dates have different ISO texts, for every year a `LocalDate` holds |
| `Dates.IsoYearRoundTrip` | todome-plugin/src/main/java/com/yahorbarkouski/todome/task/ListTodosTask.java:50 | the year part of the text is at least four characters and reads back as the year, in all four padding and sign cases |
| `Extension.ToDoMeExtension.constructor` | todome-plugin/src/main/java/com/yahorbarkouski/todome/extension/ToDoMeExtension.java:7-9 | defaults `["due to"]`, `dd.MM.yyyy` (so an 11-character date window) and `@` |
| `Extension.ToDoMeExtension.GetDueDatePrefixes` | todome-plugin/src/main/java/com/yahorbarkouski/todome/extension/ToDoMeExtension.java:11 | returns the current prefix list |
| `Extension.ToDoMeExtension.SetDueDatePrefixes` | todome-plugin/src/main/java/com/yahorbarkouski/todome/extension/ToDoMeExtension.java:12 | replaces the prefix list and changes no other setting |
| `Extension.ToDoMeExtension.GetDateFormat` | todome-plugin/src/main/java/com/yahorbarkouski/todome/extension/ToDoMeExtension.java:14 | returns the current date pattern |
| `Extension.ToDoMeExtension.SetDateFormat` | todome-plugin/src/main/java/com/yahorbarkouski/todome/extension/ToDoMeExtension.java:15 | replaces the date pattern and changes no other setting |
| `Extension.ToDoMeExtension.GetMentionSymbol` | todome-plugin/src/main/java/com/yahorbarkouski/todome/extension/ToDoMeExtension.java:17 | returns the current mention symbol |
| `Extension.ToDoMeExtension.SetMentionSymbol` | todome-plugin/src/main/java/com/yahorbarkouski/todome/extension/ToDoMeExtension.java:18 | replaces the mention symbol and changes no other setting |
| `Extension.SetThenGet` | todome-plugin/src/main/java/com/yahorbarkouski/todome/extension/ToDoMeExtension.java:11-18 | after the three setters the getters return the three new values |
| `TodoPattern.MatchAt` | todome-plugin/src/main/java/com/yahorbarkouski/todome/task/AbstractTodoTask.java:24 | a match lies inside the text and is at least six characters long |
| `TodoPattern.Find` | todome-plugin/src/main/java/com/yahorbarkouski/todome/task/AbstractTodoTask.java:90 | `find` returns the leftmost start at or after the resume point where the pattern matches, and none only when no later start matches |
| `TodoPattern.Matches` | todome-plugin/src/main/java/com/yahorbarkouski/todome/task/AbstractTodoTask.java:87-90 | every visited match is a match of the pattern, and consecutive matches never overlap |
| `TodoPattern.MatchesLeftmost` | todome-plugin/src/main/java/com/yahorbarkouski/todome/task/AbstractTodoTask.java:90 | no match starts before the first, between two consecutive ones, or after the last |
| `TodoPattern.LineMatchSpec` | todome-plugin/src/main/java/com/yahorbarkouski/todome/task/AbstractTodoTask.java:24 | the line alternative matches exactly `//`, at most one character, `TODO`, then text without a newline, and takes the longest such text |
| `TodoPattern.CloseFromSpec` | todome-plugin/src/main/java/com/yahorbarkouski/todome/task/AbstractTodoTask.java:24 | `[^*]*\*/` ends at e exactly when no `*` comes before e-2 and the text there is `*/` |
| `TodoPattern.BlockFromSpec` | todome-plugin/src/main/java/com/yahorbarkouski/todome/task/AbstractTodoTask.java:24 | from a point on, the lazy search finds the first `TODO` after which the first `*` closes the comment, or reports that none exists |
| `TodoPattern.BlockMatchSpec` | todome-plugin/src/main/java/com/yahorbarkouski/todome/task/AbstractTodoTask.java:24-25 | the block alternative matches `/*`, any text, `TODO`, text without `*`, `*/`, with the earliest possible `TODO`, and fails only when there is no such text |
| `TodoPattern.AlternativesExclusive` | todome-plugin/src/main/java/com/yahorbarkouski/todome/task/AbstractTodoTask.java:24 | the two alternatives never both match at one start |
| `TodoPattern.PatternFindsTheFourForms` | todome-plugin/src/test/java/com/yahorbarkouski/todome/ToDoMePluginTest.java:28-42 | the line and block forms, each with and without a trailing newline, are matched from offset 0 to the end of the comment |
| `AbstractTodoTask.AnyEndsWith` | todome-plugin/src/main/java/com/yahorbarkouski/todome/task/AbstractTodoTask.java:73 | true exactly when the name ends with one of the suffixes |
| `AbstractTodoTask.JvmFileExamples` | todome-plugin/src/main/java/com/yahorbarkouski/todome/task/AbstractTodoTask.java:72-74 | `.java`, `.kts`, `.kt` and `.groovy` names are scanned |
| `AbstractTodoTask.SkippedFileExamples` | todome-plugin/src/main/java/com/yahorbarkouski/todome/task/AbstractTodoTask.java:72-74 | `.scala` and `.java.txt` names are not scanned |
| `AbstractTodoTask.FindMention` | todome-plugin/src/main/java/com/yahorbarkouski/todome/task/AbstractTodoTask.java:134-135 | the first `@` followed by a word character, and none only when no such `@` exists |
| `AbstractTodoTask.WordEnd` | todome-plugin/src/main/java/com/yahorbarkouski/todome/task/AbstractTodoTask.java:134 | `\w+` runs to the first non-word character or the end |
| `AbstractTodoTask.ExtractAssignee` | todome-plugin/src/main/java/com/yahorbarkouski/todome/task/AbstractTodoTask.java:133-136 | `unassigned` when no mention exists, else the whole non-empty word after the first mention |
| `AbstractTodoTask.AssigneeOfFirstMention` | todome-plugin/src/main/java/com/yahorbarkouski/todome/task/AbstractTodoTask.java:133-136 | `// TODO: to @yahor soon` is assigned to `yahor` |
| `AbstractTodoTask.AssigneeSkipsBareAt` | todome-plugin/src/main/java/com/yahorbarkouski/todome/task/AbstractTodoTask.java:134 | an `@` followed by a space is skipped; `@b_2.` gives `b_2` |
| `AbstractTodoTask.AssigneeDefault` | todome-plugin/src/main/java/com/yahorbarkouski/todome/task/AbstractTodoTask.java:135 | a comment without `@` is `unassigned` |
| `AbstractTodoTask.FirstContained` | todome-plugin/src/main/java/com/yahorbarkouski/todome/task/AbstractTodoTask.java:151-153 | the first prefix in list order that the comment contains, and none only when it contains none |
| `AbstractTodoTask.DateWindow` | todome-plugin/src/main/java/com/yahorbarkouski/todome/task/AbstractTodoTask.java:155-161 | the window directly follows the first occurrence of the prefix and is pattern length + 1 long, clipped at the end of the comment |
| `AbstractTodoTask.ExtractDueDate` | todome-plugin/src/main/java/com/yahorbarkouski/todome/task/AbstractTodoTask.java:146-169 | no date when no prefix occurs; otherwise what parsing the first occurring prefix's trimmed window gives, with no fallback to later prefixes |
| `AbstractTodoTask.WindowAfterFirstPrefix` | todome-plugin/src/main/java/com/yahorbarkouski/todome/task/AbstractTodoTask.java:155-161 | when the prefix starts nowhere before its given occurrence, the window is the first pattern length + 1 characters after the prefix |
| `AbstractTodoTask.DefaultWindowExample` | todome-plugin/src/functionalTest/java/com/yahorbarkouski/todome/VerifyTodosFunctionalTest.java:98 | with the defaults, `due to 10.10.2023, text` gives the date text `10.10.2023` |
| `AbstractTodoTask.CustomWindowExample` | todome-plugin/src/functionalTest/java/com/yahorbarkouski/todome/VerifyTodosExtensionFunctionalTest.java:60 | with prefix `by date of` and pattern `d MMM yyyy`, the comment `// TODO: should be solved by date of 3 Dec 2011` gives the date text `3 Dec 2011`; the `b` of `be` does not start the prefix |
| `AbstractTodoTask.CustomWindowCutsLongerDate` | todome-plugin/src/main/java/com/yahorbarkouski/todome/task/AbstractTodoTask.java:158-161 | the same setting cuts ` 10 Dec 2011` to `10 Dec 201`, because the window follows the pattern's length |
| `AbstractTodoTask.TrimWindowExample` | todome-plugin/src/main/java/com/yahorbarkouski/todome/task/AbstractTodoTask.java:162 | the leading space of an 11-character window is trimmed away |
| `AbstractTodoTask.Position` | todome-plugin/src/main/java/com/yahorbarkouski/todome/task/AbstractTodoTask.java:177-191 | line and column for any offset, in terms of the text before it with its trailing newlines set aside, and the failing case |
| `AbstractTodoTask.PositionWithoutLine` | todome-plugin/src/main/java/com/yahorbarkouski/todome/task/AbstractTodoTask.java:189-190 | when only newlines precede the match, the line is 0 and the column cannot be computed |
| `AbstractTodoTask.LineOfPosition` | todome-plugin/src/main/java/com/yahorbarkouski/todome/task/AbstractTodoTask.java:177-179 | otherwise the line is one more than the newlines that remain |
| `AbstractTodoTask.ColumnOfPosition` | todome-plugin/src/main/java/com/yahorbarkouski/todome/task/AbstractTodoTask.java:188-191 | otherwise the column is one more than the length of the last remaining line |
| `AbstractTodoTask.PositionAtStart` | todome-plugin/src/functionalTest/java/com/yahorbarkouski/todome/VerifyTodosFunctionalTest.java:71 | a match at offset 0 is at line 1, column 1 |
| `AbstractTodoTask.PositionMidLine` | todome-plugin/src/main/java/com/yahorbarkouski/todome/task/AbstractTodoTask.java:177-191 | when a newline does not directly precede the match, the line is one more than the newlines before it and the column counts from the last one |
| `AbstractTodoTask.PositionAfterNewline` | todome-plugin/src/main/java/com/yahorbarkouski/todome/task/AbstractTodoTask.java:178 | a TODO starting the second line of `x\n// TODO` is reported at line 1, column 2 |
| `AbstractTodoTask.PositionAfterNewlinesOnly` | todome-plugin/src/main/java/com/yahorbarkouski/todome/task/AbstractTodoTask.java:190 | after `\n\n` the column lookup throws |
| `AbstractTodoTask.ReadFailureNamesFile` | todome-plugin/src/main/java/com/yahorbarkouski/todome/task/AbstractTodoTask.java:118-123 | the message of the exception a failed read returns names the file: two names give the same message exactly when they are equal |
| `AbstractTodoTask.ExtractTodosFromFileByFilter` | todome-plugin/src/main/java/com/yahorbarkouski/todome/task/AbstractTodoTask.java:83-109 | the `while (find())` loop gives the file's scan: read failure first, then a rejected pattern, then the filtered records of the matches in order |
| `AbstractTodoTask.OneRecordPerMatch` | todome-plugin/src/main/java/com/yahorbarkouski/todome/task/AbstractTodoTask.java:90-106 | before filtering, exactly one record per match in match order, and the first match whose record cannot be built decides the error |
| `AbstractTodoTask.ScanAllIsCollect` | todome-plugin/src/main/java/com/yahorbarkouski/todome/task/AbstractTodoTask.java:90-106 | without a filter, the scan of a file is the record of each match, in order, collected until the first that throws |
| `AbstractTodoTask.ScanRecordsFilter` | todome-plugin/src/main/java/com/yahorbarkouski/todome/task/AbstractTodoTask.java:103-105 | the filtered scan is the unfiltered scan with the filter applied |
| `AbstractTodoTask.ExtractTodos` | todome-plugin/src/main/java/com/yahorbarkouski/todome/task/AbstractTodoTask.java:51-64 | the recursive loop over the directory entries gives the walk: an unlistable directory gives nothing, and the first error stops it |
| `AbstractTodoTask.ScannedFiles` | todome-plugin/src/main/java/com/yahorbarkouski/todome/task/AbstractTodoTask.java:56-61 | every file the walk reads is a JVM file |
| `AbstractTodoTask.WalkIsScanOfFiles` | todome-plugin/src/main/java/com/yahorbarkouski/todome/task/AbstractTodoTask.java:51-64 | the walk is the scan of the JVM files below the directory, one after the other in listing order |
| `AbstractTodoTask.WalkFilter` | todome-plugin/src/main/java/com/yahorbarkouski/todome/task/AbstractTodoTask.java:103-105 | the filtered walk keeps exactly what the filter accepts of the unfiltered walk, in order, and fails exactly when it does |
| `AbstractTodoTask.MentionSymbolIgnored` | todome-plugin/src/main/java/com/yahorbarkouski/todome/task/AbstractTodoTask.java:88-93 | changing the configured mention symbol changes nothing the walk returns |
| `SortedMap.PutSpec` | todome-plugin/src/main/java/com/yahorbarkouski/todome/task/ListTodosTask.java:50 | `put` keeps the keys strictly increasing, binds the key to the new value and leaves every other key as it was |
| `SortedMap.Values` | todome-plugin/src/main/java/com/yahorbarkouski/todome/task/ListTodosTask.java:54 | `values()` lists the bound values in key order |
| `SortedMap.PutEach` | todome-plugin/src/main/java/com/yahorbarkouski/todome/task/ListTodosTask.java:50 | the `forEach` loop throws exactly when some element fails the null check, and otherwise builds the filled tree |
| `SortedMap.PutAllSpec` | todome-plugin/src/main/java/com/yahorbarkouski/todome/task/ListTodosTask.java:49-50 | the filled tree is sorted and holds each key's last write |
| `SortedMap.LastWriteWins` | todome-plugin/src/main/java/com/yahorbarkouski/todome/task/ListTodosTask.java:50 | a key is bound exactly when some element has it, and then to the last element with it |
| `SortedMap.ValuesOfPutAll` | todome-plugin/src/main/java/com/yahorbarkouski/todome/task/ListTodosTask.java:54 | `values()` of the filled tree has strictly increasing keys, and each value is the last element with its key |
| `SortedMap.ValuesComplete` | todome-plugin/src/main/java/com/yahorbarkouski/todome/task/ListTodosTask.java:54 | the last element with each key is among the values |
| `SortedMap.ReverseDecreases` | todome-plugin/src/main/java/com/yahorbarkouski/todome/task/ListTodosTask.java:56-58 | reversal turns increasing keys into decreasing keys |
| `SortedMap.FilterKeepsKeyOrder` | todome-plugin/src/main/java/com/yahorbarkouski/todome/task/ListTodosTask.java:60-62 | `removeIf` keeps increasing or decreasing key order |
| `SortedMap.PutThree` | todome-plugin/src/functionalTest/java/com/yahorbarkouski/todome/ListTodosFunctionalTest.java:108-129 | three elements whose keys are ordered middle, low, high come out low, middle, high |
| `ReportFormat.ColouredAssignee` | todome-plugin/src/main/java/com/yahorbarkouski/todome/task/ListTodosTask.java:83-86 | red for `unassigned`, blue otherwise, then the assignee unchanged, then the reset code |
| `ReportFormat.DateTextInjective` | todome-plugin/src/main/java/com/yahorbarkouski/todome/task/ListTodosTask.java:92 | two due dates print alike exactly when they are equal, `null` included |
| `ReportFormat.AnnouncementShowsAssignee` | todome-plugin/src/main/java/com/yahorbarkouski/todome/task/ListTodosTask.java:88-91 | after `Found ` comes red exactly for `unassigned` and blue otherwise, then the assignee |
| `ReportFormat.AnnouncementGivesColumn` | todome-plugin/src/main/java/com/yahorbarkouski/todome/task/ListTodosTask.java:91 | the last `:` field of the announcement reads back as the column |
| `ReportFormat.LocationGivesColumn` | todome-plugin/src/main/java/com/yahorbarkouski/todome/task/ListTodosTask.java:91 | from `path:line:column` the last field reads back as the column, whatever the path holds |
| `ReportFormat.LocationGivesLine` | todome-plugin/src/main/java/com/yahorbarkouski/todome/task/ListTodosTask.java:91 | and the field before it reads back as the line |
| `ListTodosTask.FlagsDecideReport` | todome-plugin/src/main/java/com/yahorbarkouski/todome/task/ListTodosTask.java:18-62 | from the raw properties: `sort` exactly `asc` prints dates in increasing order, any other value or none in decreasing order; `overdue` exactly `true` prints nothing due after today, any other value or none prints one record per due date; the walk keeps the dated records of the `assignee` property, or all dated ones without it |
| `ListTodosTask.KeyedByDate` | todome-plugin/src/main/java/com/yahorbarkouski/todome/task/ListTodosTask.java:50 | the last record under a key is the last with its due date |
| `ListTodosTask.FormatAll` | todome-plugin/src/main/java/com/yahorbarkouski/todome/task/ListTodosTask.java:64-66 | one line per remaining record, in list order |
| `ListTodosTask.SortedSurvivors` | todome-plugin/src/main/java/com/yahorbarkouski/todome/task/ListTodosTask.java:54-62 | the `ArrayList` copy of `values()`, reversed unless ascending and with `removeIf` applied in overdue mode, holds exactly the survivors in order |
| `ListTodosTask.Report` | todome-plugin/src/main/java/com/yahorbarkouski/todome/task/ListTodosTask.java:48-71 | a null date throws before anything is printed; an empty list prints nothing and passes; otherwise the lines of the survivors, failing with the overdue message exactly when in overdue mode and something was printed |
| `ListTodosTask.ListTodos` | todome-plugin/src/main/java/com/yahorbarkouski/todome/task/ListTodosTask.java:18-35 | the task from its three raw properties: a walk error ends it; otherwise the report of the walk filtered by those properties, failing exactly when `overdue` is `true` and something was printed |
| `ListTodosTask.SurvivorsOrdered` | todome-plugin/src/main/java/com/yahorbarkouski/todome/task/ListTodosTask.java:54-58 | printed records strictly increase by date text when the order is ascending and strictly decrease otherwise |
| `ListTodosTask.SurvivorsHaveDistinctDates` | todome-plugin/src/main/java/com/yahorbarkouski/todome/task/ListTodosTask.java:49-54 | no two printed records share a due date |
| `ListTodosTask.ValuesAreLastRecords` | todome-plugin/src/main/java/com/yahorbarkouski/todome/task/ListTodosTask.java:49-54 | every value of the tree is the last input record with its due date |
| `ListTodosTask.SurvivorsAreLastRecords` | todome-plugin/src/main/java/com/yahorbarkouski/todome/task/ListTodosTask.java:49-62 | every printed record is an input record, the last with its due date |
| `ListTodosTask.ListedRecordsMatchFilter` | todome-plugin/src/main/java/com/yahorbarkouski/todome/task/ListTodosTask.java:104-107 | every printed record has a due date, has the filtered assignee when a filter is set, and is found by the unfiltered walk |
| `ListTodosTask.SurvivorsComplete` | todome-plugin/src/main/java/com/yahorbarkouski/todome/task/ListTodosTask.java:49-62 | the last record of every due date is printed unless the overdue mode drops it |
| `ListTodosTask.OverdueSelection` | todome-plugin/src/main/java/com/yahorbarkouski/todome/task/ListTodosTask.java:60-62 | in overdue mode the last record of a date is printed exactly when the date is not after today, today included, and nothing due later is printed |
| `ListTodosTask.SurvivorsChronological` | todome-plugin/src/main/java/com/yahorbarkouski/todome/task/ListTodosTask.java:49-58 | with four-digit years, ascending prints the earliest first and descending the latest first |
| `ListTodosTask.SameDateKeepsLater` | todome-plugin/src/main/java/com/yahorbarkouski/todome/task/ListTodosTask.java:49-50 | outside overdue mode, of two records with the same due date only the later is printed |
| `ListTodosTask.SortExample` | todome-plugin/src/functionalTest/java/com/yahorbarkouski/todome/ListTodosFunctionalTest.java:127-145 | due 10 October, 10 September and 10 December 2023: `sort=asc` prints September, October, December; the default prints the reverse |
| `ListTodosTask.FormattedShowsDate` | todome-plugin/src/functionalTest/java/com/yahorbarkouski/todome/ListTodosFunctionalTest.java:75 | a record due 10 October 2023 prints `with a due date of 2023-10-10.` |
| `VerifyTodosTask.Report` | todome-plugin/src/main/java/com/yahorbarkouski/todome/task/VerifyTodosTask.java:32-39 | an empty list prints nothing and passes; otherwise one line per record in order, then the failure message |
| `VerifyTodosTask.VerifyTodos` | todome-plugin/src/main/java/com/yahorbarkouski/todome/task/VerifyTodosTask.java:17-20 | a walk error ends the task; otherwise the lines name exactly the undated records of the unfiltered walk, in order, and the build passes exactly when every record has a due date |
| `VerifyTodosTask.FormattedNamesTheTodo` | todome-plugin/src/main/java/com/yahorbarkouski/todome/task/VerifyTodosTask.java:52-62 | the line shows the assignee in red exactly when `unassigned`, and its last `:` field before the complaint reads back as the column |

## Left out

- Gradle wiring: the plugin class, the extension lookup, the task constructors, `@TaskAction` and the project-property lookup are not modelled. The properties are parameters of `ListTodosTask.ListTodos`. The parameters are `Option<string>`, so non-string properties cannot occur: a non-string `assignee` would fail Java's cast, while a non-string `sort` or `overdue` would only compare unequal, giving descending order or no overdue mode.
- File system:
  - `File.listFiles` and `Files.readString` are replaced by an in-memory tree of `AbstractTodoTask.Entry` values.
  - A file whose read fails has no content.
  - A directory that cannot be listed is marked as such.
  - The tree is finite, so a cycle of symbolic links, on which Java's `isDirectory` recursion would never end, cannot be represented.
  - A path is written as parent, `/`, name; `File.getPath`'s normalisation is not modelled.
- `java.time`: which patterns `DateTimeFormatter.ofPattern` accepts, and what `LocalDate.parse` makes of a text, are uninterpreted functions (`Dates.TimeLibrary`), lenient resolution included.
- `LocalDate.now()` is the parameter `today`, read once per report. Java's `removeIf` reads the clock once per record, so a run that crosses midnight may drop a record the model keeps, or the reverse.
- The Gradle logger: a report returns its lines instead of logging them. Terminal rendering is out; the escape codes stay literal text.
- Exceptions become `Failure` or `Err` values:
  - the `NullPointerException` of `requireNonNull` has no message in Java and is named `NullPointerException` in the model;
  - a failed read keeps the message `readFileContent` throws; a rejected date pattern keeps the pattern and an out-of-bounds column keeps the path and offset, not Java's messages for them;
  - exception causes and stack traces are not kept.
- Characters: Java strings are UTF-16 code units and Dafny strings are Unicode scalar values. For text outside the Basic Multilingual Plane, lengths, indices, `compareTo` and columns would differ.
- Integer width: line and column numbers are unbounded integers. A file too large for Java's `int` offsets cannot be read by `Files.readString` in the first place.
- The legacy `todome-plugin/src/main/java/com/yahorbarkouski/todome/VerifyTodosTask.java` is not modelled. The plugin never registers it.
- `ListTodosTask.Report` returns a `Failure` named `NullPointerException` for a null date only when called directly. `ListTodosTask.ListTodos` shows the task itself never reaches it.
- `ArrayList`: the copy of `values()` is an `array` sized to the map; capacity growth is not modelled.
