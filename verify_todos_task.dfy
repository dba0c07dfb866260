/** `task.VerifyTodosTask`: every TODO without a readable due date is
    printed, and any such TODO fails the build. */
module VerifyTodosTask {
  import opened Common
  import opened JavaText
  import opened Dates
  import opened Model
  import opened Extension
  import opened ReportFormat
  import opened AbstractTodoTask

  /** `filtered()`: the records without a due date. */
  function Undated(): TodoModel -> bool {
    (todo: TodoModel) => todo.dueDate.None?
  }

  /** `formatted(todo)`: the announcement, then the complaint. */
  function Formatted(todo: TodoModel): string {
    Announcement(todo) + " without a valid due date." + Reset
  }

  const MissingDueDateMessage: string := "Found TODOs without a valid due date. Please check the log for more details."

  /** `report(todos)`: nothing for an empty list; otherwise one line per
      record, in order, and then the build fails. */
  method Report(todos: seq<TodoModel>) returns (out: Outcome)
    ensures todos == [] ==> out == Success([])
    ensures todos != [] ==> out == Failure(MissingDueDateMessage, MapSeq(Formatted, todos))
  {
    if |todos| == 0 {
      return Success([]);
    }
    var lines: seq<string> := [];
    for i := 0 to |todos|
      invariant lines == MapSeq(Formatted, todos[..i])
    {
      MapSeqPrefix(Formatted, todos, i);
      lines := lines + [Formatted(todos[i])];
    }
    assert todos[..|todos|] == todos;
    return Failure(MissingDueDateMessage, lines);
  }

  /** The task action: the walk with `filtered()`, then the report. The build
      passes exactly when every TODO the walk finds has a readable due date,
      and the lines name exactly the TODOs that do not, in walk order. */
  method VerifyTodos(root: Entry, rootPath: string, settings: Settings, time: TimeLibrary)
    returns (r: Result<Outcome, ScanError>)
    ensures r.Err? <==> WalkTodos(root, rootPath, settings, time, KeepAll).Err?
    ensures r.Err? ==> r.error == WalkTodos(root, rootPath, settings, time, KeepAll).error
    ensures r.Ok? ==> var all := WalkTodos(root, rootPath, settings, time, KeepAll).value;
      && r.value.lines == MapSeq(Formatted, Filter(Undated(), all))
      && (r.value.Success? <==> forall i :: 0 <= i < |all| ==> all[i].dueDate.Some?)
      && (r.value.Failure? ==> r.value.message == MissingDueDateMessage)
  {
    WalkFilter(root, rootPath, settings, time, Undated());
    var todos := ExtractTodos(root, rootPath, settings, time, Undated());
    if todos.Err? {
      return Err(todos.error);
    }
    ghost var all := WalkTodos(root, rootPath, settings, time, KeepAll).value;
    assert todos.value == Filter(Undated(), all);
    FilterSpec(Undated(), all);
    var out := Report(todos.value);
    if out.Failure? {
      assert todos.value[0] in todos.value;
    } else {
      forall i | 0 <= i < |all| ensures all[i].dueDate.Some? {
        assert all[i] in all;
      }
    }
    return Ok(out);
  }

  /** The line for a record names its assignee, in red exactly when it is
      `unassigned`, and gives back the column as the last `:` field before the
      complaint. */
  lemma FormattedNamesTheTodo(todo: TodoModel)
    ensures var s := Formatted(todo);
      && |s| >= |Announcement(todo)| >= 16 + |todo.assignee|
      && s[16..16 + |todo.assignee|] == todo.assignee
      && (s[11..16] == Red <==> todo.assignee == "unassigned")
      && ParseInt(LastField(s[..|Announcement(todo)|])) == Some(todo.columnNumber)
  {
    AnnouncementShowsAssignee(todo);
    var a := Announcement(todo);
    var s := Formatted(todo);
    assert a <= s;
    PrefixSlice(a, s, 16, 16 + |todo.assignee|);
    PrefixSlice(a, s, 11, 16);
    AnnouncementGivesColumn(todo);
  }
}
