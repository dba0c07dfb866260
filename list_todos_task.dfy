/** `ListTodosTask`: the dated TODOs, one per due date, ordered by the ISO
    text of the date, optionally only those that are due. */
module ListTodosTask {
  import opened Common
  import opened JavaText
  import opened Dates
  import opened Model
  import opened Extension
  import opened SortedMap
  import opened ReportFormat
  import opened AbstractTodoTask

  /** The three project properties the task reads when it is created. */
  datatype ListOptions = ListOptions(assigneeFilter: Option<string>, dueDateAscending: bool, overdue: bool)

  /** From the project properties, `None` where a property is absent: the
      filter is the `assignee` property itself, the order is ascending only
      for `sort` exactly `asc`, and the overdue mode is on only for `overdue`
      exactly `true`. */
  function ParseOptions(assignee: Option<string>, sort: Option<string>, overdue: Option<string>): ListOptions {
    ListOptions(assignee, sort == Some("asc"), overdue == Some("true"))
  }

  /** `filtered()`: a record is listed when it has a due date and, if a filter
      is set, its assignee is the filter. */
  predicate Keeps(options: ListOptions, todo: TodoModel) {
    todo.dueDate.Some? && (options.assigneeFilter.None? || todo.assignee == options.assigneeFilter.value)
  }

  function Filtered(options: ListOptions): TodoModel -> bool {
    (todo: TodoModel) => Keeps(options, todo)
  }

  /** `formatted(todo)`: the announcement, then the due date. */
  function Formatted(todo: TodoModel): string {
    Announcement(todo) + " with a due date of " + DateText(todo.dueDate) + "." + Reset
  }

  const NullDueDate: string := "NullPointerException"
  const OverdueMessage: string := "Found TODOs with due dates in the past. TIME TO SOLVE IT!"

  // ---------------------------------------------------------------------
  // The TreeMap keyed by the due date's text

  /** The key a record is stored under: `getDueDate().toString()`. */
  function DateKey(todo: TodoModel): string {
    DateText(todo.dueDate)
  }

  predicate AllDated(todos: seq<TodoModel>) {
    forall i :: 0 <= i < |todos| ==> todos[i].dueDate.Some?
  }

  /** No later record has the same due date as the one at `m`. */
  predicate LastWithDate(todos: seq<TodoModel>, m: nat) {
    m < |todos| && forall j :: m < j < |todos| ==> todos[j].dueDate != todos[m].dueDate
  }

  /** `t` is the last record in `todos` with its due date. */
  ghost predicate LastRecordOf(todos: seq<TodoModel>, t: TodoModel) {
    exists m :: 0 <= m < |todos| && t == todos[m] && LastWithDate(todos, m)
  }

  /** Keys collide exactly when dates do, so the last record under a key is
      the last with its date. */
  lemma KeyedByDate(todos: seq<TodoModel>, m: nat)
    ensures LastWithKey(DateKey, todos, m) <==> LastWithDate(todos, m)
  {
    forall j | m < j < |todos| ensures DateKey(todos[j]) == DateKey(todos[m]) <==> todos[j].dueDate == todos[m].dueDate {
      DateTextInjective(todos[j].dueDate, todos[m].dueDate);
    }
  }

  // ---------------------------------------------------------------------
  // What the report prints

  /** The test of the overdue mode: kept unless the date is after today. */
  function NotOverdue(today: LocalDate): TodoModel -> bool {
    (todo: TodoModel) => !(todo.dueDate.Some? && IsAfter(todo.dueDate.value, today))
  }

  /** The records the report prints, in print order: the values of the tree,
      reversed unless ascending, without those due after today in the overdue
      mode. */
  function ListSurvivors(todos: seq<TodoModel>, options: ListOptions, today: LocalDate): seq<TodoModel> {
    var values := Values(PutAll(DateKey, todos));
    var ordered := if options.dueDateAscending then values else Reverse(values);
    if options.overdue then Filter(NotOverdue(today), ordered) else ordered
  }

  function HasDueDate(todo: TodoModel): bool {
    todo.dueDate.Some?
  }

  /** The printing loop over the first `size` elements of the list. */
  method FormatAll(list: array<TodoModel>, size: nat) returns (lines: seq<string>)
    requires size <= list.Length
    ensures lines == MapSeq(Formatted, list[..size])
  {
    lines := [];
    for i := 0 to size
      invariant lines == MapSeq(Formatted, list[..i])
    {
      MapSeqPrefix(Formatted, list[..], i);
      lines := lines + [Formatted(list[i])];
    }
  }

  /** The list the report prints from: the values of the tree, reversed unless
      ascending, then those due after today removed in the overdue mode. */
  method SortedSurvivors(todos: seq<TodoModel>, tree: seq<Binding<TodoModel>>, options: ListOptions, today: LocalDate)
    returns (sortedTodos: array<TodoModel>, size: nat)
    requires tree == PutAll(DateKey, todos)
    ensures size <= sortedTodos.Length && sortedTodos[..size] == ListSurvivors(todos, options, today)
  {
    var values := Values(tree);
    ghost var ordered := if options.dueDateAscending then values else Reverse(values);
    sortedTodos := new TodoModel[|values|](k requires 0 <= k < |values| => values[k]);
    assert sortedTodos[..] == values;
    if !options.dueDateAscending {
      ReverseInPlace(sortedTodos);
    }
    assert sortedTodos[..] == ordered;
    size := sortedTodos.Length;
    if options.overdue {
      size := RemoveIf(sortedTodos, NotOverdue(today));
    }
  }

  /** `report(todos)`. A record without a due date stops it before anything is
      printed; an empty list prints nothing; otherwise one line per surviving
      record, and in the overdue mode the report fails when any was printed. */
  method Report(todos: seq<TodoModel>, options: ListOptions, today: LocalDate) returns (out: Outcome)
    ensures !AllDated(todos) ==> out == Failure(NullDueDate, [])
    ensures AllDated(todos) && todos == [] ==> out == Success([])
    ensures AllDated(todos) && todos != [] ==>
      && out.lines == MapSeq(Formatted, ListSurvivors(todos, options, today))
      && (out.Failure? <==> options.overdue && out.lines != [])
      && (out.Failure? ==> out.message == OverdueMessage)
  {
    var tree := PutEach(DateKey, HasDueDate, todos);
    if tree.None? {
      ghost var k :| 0 <= k < |todos| && !HasDueDate(todos[k]);
      assert !todos[k].dueDate.Some?;
      return Failure(NullDueDate, []);
    }
    assert AllDated(todos) by {
      forall k | 0 <= k < |todos| ensures todos[k].dueDate.Some? {
        assert HasDueDate(todos[k]);
      }
    }
    if |todos| == 0 {
      return Success([]);
    }

    var sortedTodos, size := SortedSurvivors(todos, tree.value, options, today);
    var lines := FormatAll(sortedTodos, size);
    if options.overdue && size > 0 {
      return Failure(OverdueMessage, lines);
    }
    return Success(lines);
  }

  /** The task action: the walk with `filtered()`, then the report; a walk
      that throws ends the task with that error. */
  method ListTodos(root: Entry, rootPath: string, settings: Settings, time: TimeLibrary,
                   assignee: Option<string>, sort: Option<string>, overdue: Option<string>, today: LocalDate)
    returns (r: Result<Outcome, ScanError>)
    ensures var options := ParseOptions(assignee, sort, overdue);
      && (r.Err? <==> WalkTodos(root, rootPath, settings, time, Filtered(options)).Err?)
      && (r.Err? ==> r.error == WalkTodos(root, rootPath, settings, time, Filtered(options)).error)
    ensures r.Ok? ==> var options := ParseOptions(assignee, sort, overdue);
      var todos := WalkTodos(root, rootPath, settings, time, Filtered(options)).value;
      && r.value.lines == MapSeq(Formatted, ListSurvivors(todos, options, today))
      && (r.value.Failure? <==> overdue == Some("true") && r.value.lines != [])
      && (r.value.Failure? ==> r.value.message == OverdueMessage)
  {
    var options := ParseOptions(assignee, sort, overdue);
    var todos := ExtractTodos(root, rootPath, settings, time, Filtered(options));
    if todos.Err? {
      return Err(todos.error);
    }
    assert AllDated(todos.value) by {
      WalkFilter(root, rootPath, settings, time, Filtered(options));
      FilterSpec(Filtered(options), WalkTodos(root, rootPath, settings, time, KeepAll).value);
      assert forall i :: 0 <= i < |todos.value| ==> todos.value[i] in todos.value;
    }
    var out := Report(todos.value, options, today);
    if todos.value == [] {
      assert ListSurvivors(todos.value, options, today) == [];
    }
    return Ok(out);
  }

  // ---------------------------------------------------------------------
  // Properties of the printed records

  /** The printed records are ordered by the text of their due dates,
      strictly: increasing for `sort=asc`, decreasing otherwise. */
  lemma SurvivorsOrdered(todos: seq<TodoModel>, options: ListOptions, today: LocalDate)
    ensures options.dueDateAscending ==> KeysIncrease(DateKey, ListSurvivors(todos, options, today))
    ensures !options.dueDateAscending ==> KeysDecrease(DateKey, ListSurvivors(todos, options, today))
  {
    var values := Values(PutAll(DateKey, todos));
    ValuesOfPutAll(DateKey, todos);
    var ordered := if options.dueDateAscending then values else Reverse(values);
    if !options.dueDateAscending {
      ReverseDecreases(DateKey, values);
    }
    FilterKeepsKeyOrder(DateKey, NotOverdue(today), ordered);
  }

  /** What the three project properties decide: `sort=asc` prints the dates
      in increasing text order and any other value, or none, in decreasing
      order; `overdue=true` prints nothing due after today, and any other
      value, or none, prints one record per due date; the walk keeps the
      dated records of the `assignee` property, or all dated ones without it. */
  lemma FlagsDecideReport(assignee: Option<string>, sort: Option<string>, overdue: Option<string>,
                          todos: seq<TodoModel>, today: LocalDate)
    ensures var s := ListSurvivors(todos, ParseOptions(assignee, sort, overdue), today);
      && (sort == Some("asc") ==> KeysIncrease(DateKey, s))
      && (sort != Some("asc") ==> KeysDecrease(DateKey, s))
      && (overdue == Some("true") ==>
            forall i :: 0 <= i < |s| ==> s[i].dueDate.None? || !IsAfter(s[i].dueDate.value, today))
      && (overdue != Some("true") ==> |s| == |Values(PutAll(DateKey, todos))|)
    ensures forall t :: (Filtered(ParseOptions(assignee, sort, overdue))(t)
      <==> t.dueDate.Some? && (assignee.None? || t.assignee == assignee.value))
  {
    var options := ParseOptions(assignee, sort, overdue);
    SurvivorsOrdered(todos, options, today);
    if options.overdue {
      OverdueDropsLate(todos, options, today);
    }
  }

  /** No two printed records share a due date. */
  lemma SurvivorsHaveDistinctDates(todos: seq<TodoModel>, options: ListOptions, today: LocalDate)
    ensures var s := ListSurvivors(todos, options, today);
      forall i, j :: 0 <= i < |s| && 0 <= j < |s| && i != j ==> s[i].dueDate != s[j].dueDate
  {
    var s := ListSurvivors(todos, options, today);
    SurvivorsOrdered(todos, options, today);
    forall i, j | 0 <= i < |s| && 0 <= j < |s| && i != j ensures s[i].dueDate != s[j].dueDate {
      var lo, hi := if i < j then i else j, if i < j then j else i;
      assert StrLess(DateKey(s[lo]), DateKey(s[hi])) || StrLess(DateKey(s[hi]), DateKey(s[lo]));
      StrLessIrreflexive(DateKey(s[lo]));
    }
  }

  /** Every value of the tree is the last input record with its due date. */
  lemma ValuesAreLastRecords(todos: seq<TodoModel>)
    ensures forall t :: t in Values(PutAll(DateKey, todos)) ==> LastRecordOf(todos, t)
  {
    var values := Values(PutAll(DateKey, todos));
    ValuesOfPutAll(DateKey, todos);
    forall i | 0 <= i < |values| ensures LastRecordOf(todos, values[i]) {
      var m :| 0 <= m < |todos| && values[i] == todos[m] && LastWithKey(DateKey, todos, m);
      KeyedByDate(todos, m);
    }
  }

  /** Every printed record is one of the input records, and the last one in
      the input with its due date. */
  lemma SurvivorsAreLastRecords(todos: seq<TodoModel>, options: ListOptions, today: LocalDate)
    ensures forall t :: t in ListSurvivors(todos, options, today) ==> LastRecordOf(todos, t)
  {
    var values := Values(PutAll(DateKey, todos));
    ValuesAreLastRecords(todos);
    var ordered := if options.dueDateAscending then values else Reverse(values);
    assert forall t :: t in ordered ==> t in values;
    FilterSpec(NotOverdue(today), ordered);
  }

  /** Every record the task prints has a due date and, when a filter is set,
      that assignee, and is a record the unfiltered walk finds. */
  lemma ListedRecordsMatchFilter(root: Entry, rootPath: string, settings: Settings, time: TimeLibrary,
                                 options: ListOptions, today: LocalDate)
    requires WalkTodos(root, rootPath, settings, time, KeepAll).Ok?
    requires WalkTodos(root, rootPath, settings, time, Filtered(options)).Ok?
    ensures var todos := WalkTodos(root, rootPath, settings, time, Filtered(options)).value;
      forall t :: t in ListSurvivors(todos, options, today) ==>
        && t.dueDate.Some?
        && (options.assigneeFilter.Some? ==> t.assignee == options.assigneeFilter.value)
        && t in WalkTodos(root, rootPath, settings, time, KeepAll).value
  {
    WalkFilter(root, rootPath, settings, time, Filtered(options));
    var all := WalkTodos(root, rootPath, settings, time, KeepAll).value;
    var todos := WalkTodos(root, rootPath, settings, time, Filtered(options)).value;
    assert todos == Filter(Filtered(options), all);
    FilterSpec(Filtered(options), all);
    SurvivorsAreLastRecords(todos, options, today);
    forall t | t in ListSurvivors(todos, options, today) ensures Keeps(options, t) && t in all {
      assert LastRecordOf(todos, t);
      assert t in todos;
    }
  }

  /** Completeness: for every due date in the input, the last record with it
      is printed, unless the overdue mode drops it. */
  lemma SurvivorsComplete(todos: seq<TodoModel>, options: ListOptions, today: LocalDate, m: nat)
    requires LastWithDate(todos, m)
    requires options.overdue ==> NotOverdue(today)(todos[m])
    ensures todos[m] in ListSurvivors(todos, options, today)
  {
    KeyedByDate(todos, m);
    var values := Values(PutAll(DateKey, todos));
    var ordered := if options.dueDateAscending then values else Reverse(values);
    if options.dueDateAscending {
      ValuesComplete(DateKey, todos, m);
    } else {
      ValuesCompleteReversed(DateKey, todos, m);
    }
    if options.overdue {
      FilterSpec(NotOverdue(today), ordered);
      assert ListSurvivors(todos, options, today) == Filter(NotOverdue(today), ordered);
    }
  }

  /** In the overdue mode the last record for a date is printed exactly when
      that date is not after today (a record due today is printed), and
      nothing due after today is printed. */
  lemma OverdueSelection(todos: seq<TodoModel>, options: ListOptions, today: LocalDate, m: nat)
    requires options.overdue && AllDated(todos) && LastWithDate(todos, m)
    ensures todos[m] in ListSurvivors(todos, options, today) <==> !IsAfter(todos[m].dueDate.value, today)
    ensures var s := ListSurvivors(todos, options, today);
      forall i :: 0 <= i < |s| ==> s[i].dueDate.None? || !IsAfter(s[i].dueDate.value, today)
  {
    OverdueKeepsDue(todos, options, today, m);
    OverdueDropsLate(todos, options, today);
  }

  lemma OverdueKeepsDue(todos: seq<TodoModel>, options: ListOptions, today: LocalDate, m: nat)
    requires options.overdue && AllDated(todos) && LastWithDate(todos, m)
    ensures todos[m] in ListSurvivors(todos, options, today) <==> !IsAfter(todos[m].dueDate.value, today)
  {
    var values := Values(PutAll(DateKey, todos));
    var ordered := if options.dueDateAscending then values else Reverse(values);
    assert ListSurvivors(todos, options, today) == Filter(NotOverdue(today), ordered);
    FilterSpec(NotOverdue(today), ordered);
    assert todos[m].dueDate.Some?;
    if !IsAfter(todos[m].dueDate.value, today) {
      SurvivorsComplete(todos, options, today, m);
    }
  }

  lemma OverdueDropsLate(todos: seq<TodoModel>, options: ListOptions, today: LocalDate)
    requires options.overdue
    ensures var s := ListSurvivors(todos, options, today);
      forall i :: 0 <= i < |s| ==> s[i].dueDate.None? || !IsAfter(s[i].dueDate.value, today)
  {
    var values := Values(PutAll(DateKey, todos));
    var ordered := if options.dueDateAscending then values else Reverse(values);
    var s := ListSurvivors(todos, options, today);
    assert s == Filter(NotOverdue(today), ordered);
    FilterSpec(NotOverdue(today), ordered);
    forall i | 0 <= i < |s| ensures s[i].dueDate.None? || !IsAfter(s[i].dueDate.value, today) {
      assert s[i] in s;
      assert NotOverdue(today)(s[i]);
    }
  }

  /** For dates with four-digit years the text order is the calendar order:
      ascending lists the earliest first, descending the latest first. */
  lemma SurvivorsChronological(todos: seq<TodoModel>, options: ListOptions, today: LocalDate)
    requires forall i :: 0 <= i < |todos| ==> todos[i].dueDate.Some? && 0 <= todos[i].dueDate.value.year <= 9999
    ensures var s := ListSurvivors(todos, options, today);
      forall i, j :: 0 <= i < j < |s| ==>
        && s[i].dueDate.Some? && s[j].dueDate.Some?
        && (if options.dueDateAscending then IsAfter(s[j].dueDate.value, s[i].dueDate.value)
            else IsAfter(s[i].dueDate.value, s[j].dueDate.value))
  {
    var s := ListSurvivors(todos, options, today);
    SurvivorsOrdered(todos, options, today);
    SurvivorsAreLastRecords(todos, options, today);
    forall i | 0 <= i < |s| ensures s[i].dueDate.Some? && 0 <= s[i].dueDate.value.year <= 9999 {
      assert s[i] in s && LastRecordOf(todos, s[i]);
    }
    forall i, j | 0 <= i < j < |s|
      ensures if options.dueDateAscending then IsAfter(s[j].dueDate.value, s[i].dueDate.value)
              else IsAfter(s[i].dueDate.value, s[j].dueDate.value)
    {
      IsoOrderIsChronological(s[i].dueDate.value, s[j].dueDate.value);
      IsoOrderIsChronological(s[j].dueDate.value, s[i].dueDate.value);
    }
  }

  /** Two records with the same due date: only the later one is printed. */
  lemma SameDateKeepsLater(a: TodoModel, b: TodoModel, options: ListOptions, today: LocalDate)
    requires a.dueDate.Some? && a.dueDate == b.dueDate
    requires !options.overdue
    ensures ListSurvivors([a, b], options, today) == [b]
  {
    assert [a, b][..1] == [a];
    assert [a][..0] == [];
    assert PutAll(DateKey, [a]) == [Binding(DateKey(a), a)];
    assert PutAll(DateKey, [a, b]) == [Binding(DateKey(b), b)];
    assert Reverse([b]) == [b];
  }

  /** Records due on 10 October, 10 September and 10 December 2023, in that
      order: `sort=asc` prints September, October, December, and the default
      order December, October, September. */
  lemma SortExample(a: TodoModel, b: TodoModel, c: TodoModel, options: ListOptions, today: LocalDate)
    requires a.dueDate == Some(Date(2023, 10, 10))
    requires b.dueDate == Some(Date(2023, 9, 10))
    requires c.dueDate == Some(Date(2023, 12, 10))
    requires !options.overdue
    ensures options.dueDateAscending ==> ListSurvivors([a, b, c], options, today) == [b, a, c]
    ensures !options.dueDateAscending ==> ListSurvivors([a, b, c], options, today) == [c, a, b]
  {
    DatesInOrder(a, b, c);
    PutThree(DateKey, a, b, c);
    ReverseThree(b, a, c);
  }

  // The keys of the three records above are in the order b, a, c.
  lemma DatesInOrder(a: TodoModel, b: TodoModel, c: TodoModel)
    requires a.dueDate == Some(Date(2023, 10, 10))
    requires b.dueDate == Some(Date(2023, 9, 10))
    requires c.dueDate == Some(Date(2023, 12, 10))
    ensures StrLess(DateKey(b), DateKey(a)) && StrLess(DateKey(a), DateKey(c))
  {
    IsoOrderIsChronological(b.dueDate.value, a.dueDate.value);
    IsoOrderIsChronological(a.dueDate.value, c.dueDate.value);
  }

  /** The line for a record due on 10 October 2023 says so. */
  lemma FormattedShowsDate(todo: TodoModel)
    requires todo.dueDate == Some(Date(2023, 10, 10))
    ensures Formatted(todo) == Announcement(todo) + " with a due date of " + "2023-10-10" + "." + Reset
  {
    IsoStringExample();
  }
}
