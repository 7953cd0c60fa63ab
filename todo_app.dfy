/**
 * The state behind the to-do window: the list of task items, each item's
 * check box and labels, and the text field of the add bar. Swing itself
 * is not modelled; the file is the sequence of its lines.
 */
module ToDoApp {
  import opened Wrappers
  import opened JavaText
  import opened Display
  import opened Tasks
  import opened LineCodec
  import opened Seqs

  /**
   * One row of the list. `done` and `text` are the check box's selected
   * state and label, which the user changes in place; the category and
   * priority labels are set once, when the row is built.
   */
  class TaskItem {
    var done: bool
    var text: string
    const category: string
    const priority: Glyph

    /** The row for a new task: not ticked, and its priority label shows the glyph of `priority`. */
    constructor (text: string, category: string, priority: string)
      ensures Value() == Task(false, category, PriorityIcon(priority), text)
    {
      this.done := false;
      this.text := text;
      this.category := category;
      this.priority := PriorityIcon(priority);
    }

    /**
     * What the getters `isDone`, `getCategory`, `getPriority` and `getText`
     * return. The priority a row reports is always one of the three glyphs.
     */
    function Value(): (t: Task)
      reads this
      ensures IsGlyph(t.priority) && '|' !in t.priority
    {
      Task(done, category, priority, text)
    }

    /** `setDone`: ticks or clears the check box and changes nothing else. */
    method SetDone(done: bool)
      modifies this
      ensures Value() == old(Value()).(done := done)
    {
      this.done := done;
    }

    /**
     * A mouse click on the check box. On a double click the edit dialog
     * opens; `reply` is what it returns (`None` when cancelled), and a
     * reply that trims to something non-empty replaces the text, trimmed.
     */
    method OnCheckBoxClicked(clickCount: int, reply: Option<string>)
      modifies this
      ensures clickCount != 2 ==> Value() == old(Value())
      ensures clickCount == 2 ==> Value() == old(Value()).(text := EditedText(old(text), reply))
    {
      if clickCount == 2 {
        if reply.Some? && Trim(reply.value) != "" {
          text := Trim(reply.value);
        }
      }
    }
  }

  /** The values held by a sequence of rows, in order. */
  function Values(items: seq<TaskItem>): (ts: seq<Task>)
    reads items
    ensures |ts| == |items|
  {
    if items == [] then [] else Values(items[..|items| - 1]) + [items[|items| - 1].Value()]
  }

  /** The value at each position is the value of the row at that position. */
  lemma {:induction false} ValuesAt(items: seq<TaskItem>, k: nat)
    requires k < |items|
    ensures Values(items)[k] == items[k].Value()
  {
    if k < |items| - 1 {
      ValuesAt(items[..|items| - 1], k);
    }
  }

  /** Appending a row appends its value. */
  lemma ValuesSnoc(items: seq<TaskItem>, item: TaskItem)
    ensures Values(items + [item]) == Values(items) + [item.Value()]
  {
    assert (items + [item])[..|items|] == items;
  }

  /**
   * The rows of `items` whose check box is not ticked, in list order. This
   * is `RemoveSelected` on the row objects rather than on their values:
   * the delete keeps the same objects, and `ValuesOfUnticked` shows that
   * their values are what `RemoveSelected` keeps.
   */
  function Unticked(items: seq<TaskItem>): (r: seq<TaskItem>)
    reads items
    ensures |r| <= |items|
    ensures forall k :: 0 <= k < |r| ==> !r[k].done && r[k] in items
  {
    if items == [] then []
    else
      var last := items[|items| - 1];
      Unticked(items[..|items| - 1]) + (if last.done then [] else [last])
  }

  /** Looking at one more row keeps it exactly when it is not ticked. */
  lemma UntickedStep(items: seq<TaskItem>, j: nat)
    requires j < |items|
    ensures Unticked(items[..j + 1]) == Unticked(items[..j]) + (if items[j].done then [] else [items[j]])
  {
    assert items[..j + 1][..j] == items[..j];
  }

  /** The values of the unticked rows are the unselected values: removing rows removes their tasks. */
  lemma {:induction false} ValuesOfUnticked(items: seq<TaskItem>)
    ensures Values(Unticked(items)) == RemoveSelected(Values(items))
  {
    if items != [] {
      var init, last := items[..|items| - 1], items[|items| - 1];
      var v := last.Value();
      ValuesOfUnticked(init);
      assert Values(items) == Values(init) + [v];
      RemoveSelectedAppend(Values(init), [v]);
      assert [v][..0] == [];
      assert RemoveSelected([v]) == if last.done then [] else [v];
      if last.done {
        assert Unticked(items) == Unticked(init);
      } else {
        assert Unticked(items) == Unticked(init) + [last];
        ValuesSnoc(Unticked(init), last);
      }
    }
  }

  /** The window's model: the task list and the text typed into the add bar. */
  class ToDoListGUI {
    var tasks: seq<TaskItem>
    var input: string

    /** The tasks in list order, as the getters of their rows report them. */
    function Contents(): seq<Task>
      reads this, tasks
    {
      Values(tasks)
    }

    /** The window as it opens: an empty add bar and the tasks loaded from `file` (empty when there is no file). */
    constructor (file: seq<string>)
      ensures input == ""
      ensures Contents() == LoadedTasks(file)
    {
      tasks := [];
      input := "";
      new;
      assert Contents() == [];
      LoadTasks(file);
    }

    /**
     * `addTask`: a non-empty text appends one new row at the end and clears
     * the add bar; an empty text changes nothing.
     */
    method AddTask(text: string, category: string, priority: string)
      modifies this
      ensures text == "" ==> tasks == old(tasks) && input == old(input)
      ensures text != "" ==>
                |tasks| == |old(tasks)| + 1 && tasks[..|old(tasks)|] == old(tasks)
                && fresh(tasks[|old(tasks)|]) && input == ""
      ensures Contents() ==
                if text == "" then old(Contents())
                else old(Contents()) + [Task(false, category, PriorityIcon(priority), text)]
    {
      if text != "" {
        var item := new TaskItem(text, category, priority);
        tasks := tasks + [item];
        input := "";
      }
    }

    /**
     * The add button: the add bar's text is trimmed before it reaches
     * `addTask`, so a blank entry adds nothing.
     */
    method OnAddPressed(category: string, priority: string)
      modifies this
      ensures Contents() ==
                if Trim(old(input)) == "" then old(Contents())
                else old(Contents()) + [Task(false, category, PriorityIcon(priority), Trim(old(input)))]
      ensures Trim(old(input)) == "" ==> tasks == old(tasks) && input == old(input)
      ensures Trim(old(input)) != "" ==>
                |tasks| == |old(tasks)| + 1 && tasks[..|old(tasks)|] == old(tasks)
                && fresh(tasks[|old(tasks)|]) && input == ""
    {
      AddTask(Trim(input), category, priority);
    }

    /**
     * `deleteTasks`: walks the list with an iterator and removes every
     * ticked row in place; the rows left are the unticked ones, the same
     * objects in their old order.
     */
    method DeleteTasks()
      modifies this
      ensures input == old(input)
      ensures tasks == Unticked(old(tasks))
      ensures Contents() == RemoveSelected(old(Contents()))
    {
      var list := KeptRows();
      ValuesOfUnticked(tasks);
      SetRows(list);
    }

    /** `tasks` becomes `rows`; the rows themselves are not touched. */
    method SetRows(rows: seq<TaskItem>)
      modifies this
      ensures input == old(input)
      ensures tasks == rows
      ensures Contents() == old(Values(rows))
    {
      ghost var values := Values(rows);
      tasks := rows;
      assert Values(rows) == values;
    }

    /**
     * The iterator loop of `deleteTasks`, run on a copy of the list: every
     * ticked row is removed at the iterator's position.
     */
    method KeptRows() returns (list: seq<TaskItem>)
      ensures list == Unticked(tasks)
    {
      var rows := tasks;
      var i := 0;
      ghost var j := 0;
      ghost var kept: seq<TaskItem> := [];
      while i < |rows|
        invariant j <= |tasks| && i == |kept|
        invariant rows == kept + tasks[j..]
        invariant kept == Unticked(tasks[..j])
      {
        SplitAt(rows, kept, tasks, j);
        UntickedStep(tasks, j);
        if rows[i].done {
          rows := rows[..i] + rows[i + 1..];
        } else {
          kept := kept + [rows[i]];
          i := i + 1;
        }
        j := j + 1;
      }
      assert tasks[..j] == tasks;
      list := rows;
    }

    /**
     * `loadTasks`: appends, in file order, one new row per line that splits
     * into at least four parts, ticked as the line says.
     */
    method LoadTasks(lines: seq<string>)
      modifies this
      ensures input == old(input)
      ensures Contents() == old(Contents()) + LoadedTasks(lines)
    {
      ghost var start := Contents();
      var i := 0;
      while i < |lines|
        invariant 0 <= i <= |lines|
        invariant Contents() == start + LoadedTasks(lines[..i])
        invariant input == old(input)
      {
        ReadLine(lines, i, start);
        i := i + 1;
      }
      assert lines[..i] == lines;
    }

    /** The body of the `loadTasks` loop for one line read from the file. */
    method ReadLine(lines: seq<string>, i: nat, ghost start: seq<Task>)
      requires i < |lines|
      requires Contents() == start + LoadedTasks(lines[..i])
      modifies this
      ensures input == old(input)
      ensures Contents() == start + LoadedTasks(lines[..i + 1])
    {
      LoadedTasksStep(lines, i);
      ghost var upTo := LoadedTasks(lines[..i]);
      var line := lines[i];
      var parts := Split(line);
      if |parts| < 4 {
        assert LoadedTasks([line]) == [] by {
          LoadOneLine(line);
        }
        assert upTo + LoadedTasks([line]) == upTo;
        return;
      }
      var done := ParseBoolean(parts[0]);
      assert LoadedTasks([line]) == [Task(done, parts[1], PriorityIcon(parts[2]), parts[3])] by {
        LoadOneLine(line);
      }
      ghost var row := LoadedTasks([line]);
      AppendRow(done, parts[1], parts[2], parts[3]);
      Regroup(start, upTo, row);
    }

    /** `new TaskItem(text, category, priority)` followed by `setDone(done)`, added at the end of the list. */
    method AppendRow(done: bool, category: string, priority: string, text: string)
      modifies this
      ensures input == old(input)
      ensures Contents() == old(Contents()) + [Task(done, category, PriorityIcon(priority), text)]
      ensures |tasks| == |old(tasks)| + 1 && tasks[..|old(tasks)|] == old(tasks) && fresh(tasks[|old(tasks)|])
    {
      var item := new TaskItem(text, category, priority);
      item.SetDone(done);
      ValuesSnoc(tasks, item);
      tasks := tasks + [item];
    }

    /** `saveTasks`: the lines of the file, one per row in list order; nothing changes. */
    method SaveTasks() returns (lines: seq<string>)
      ensures lines == SaveLines(Contents())
    {
      lines := [];
      for i := 0 to |tasks|
        invariant lines == SaveLines(Values(tasks[..i]))
      {
        var t := tasks[i];
        lines := lines + [BoolText(t.done) + "|" + t.category + "|" + t.priority + "|" + t.text];
        TakeOneMore(tasks, i);
      }
      assert tasks[..|tasks|] == tasks;
    }
  }
}
