/**
 * The line format of the task file: one line `done|category|priority|text`
 * per task. The file is a sequence of lines; a missing file is the empty
 * sequence.
 */
module LineCodec {
  import opened Wrappers
  import opened JavaText
  import opened Display
  import opened Tasks
  import opened Seqs

  /** The four fields that a line of the file provides, before a task is built from them. */
  datatype Row = Row(done: bool, category: string, priority: string, text: string)

  /** The line `saveTasks` writes for one task: its four fields joined by bars. */
  function FormatLine(t: Task): (line: string)
    ensures line == Join([BoolText(t.done), t.category, t.priority, t.text])
  {
    JoinFour(BoolText(t.done), t.category, t.priority, t.text);
    BoolText(t.done) + "|" + t.category + "|" + t.priority + "|" + t.text
  }

  /**
   * The four fields `loadTasks` reads from a line; `None` for a line that
   * splits into fewer than four parts. Parts after the fourth are ignored.
   */
  function ParseLine(line: string): (r: Option<Row>)
    ensures r.Some? <==> |Split(line)| >= 4
    ensures r.Some? ==> '|' !in r.value.category && '|' !in r.value.priority && '|' !in r.value.text
  {
    var parts := Split(line);
    if |parts| < 4 then None
    else Some(Row(ParseBoolean(parts[0]), parts[1], parts[2], parts[3]))
  }

  /**
   * The task `loadTasks` builds from a row: `new TaskItem(text, category, priority)`,
   * which turns the priority into its glyph, followed by `setDone(done)`.
   */
  function Loaded(row: Row): (t: Task)
    ensures IsGlyph(t.priority)
  {
    Task(row.done, row.category, PriorityIcon(row.priority), row.text)
  }

  /** The tasks one line contributes: none when it is malformed, otherwise one. */
  function LoadLine(line: string): (ts: seq<Task>)
    ensures |ts| <= 1
    ensures ts == [] <==> |Split(line)| < 4
    ensures ts != [] ==> IsGlyph(ts[0].priority) && '|' !in ts[0].text
  {
    match ParseLine(line)
    case None => []
    case Some(row) => [Loaded(row)]
  }

  /** The tasks `loadTasks` appends for the lines of a file, in file order. */
  function LoadedTasks(lines: seq<string>): (ts: seq<Task>)
    ensures |ts| <= |lines|
    ensures forall k :: 0 <= k < |ts| ==> IsGlyph(ts[k].priority)
  {
    if lines == [] then []
    else LoadedTasks(lines[..|lines| - 1]) + LoadLine(lines[|lines| - 1])
  }

  /** The lines `saveTasks` writes: one per task, in list order. */
  function SaveLines(ts: seq<Task>): (lines: seq<string>)
    ensures |lines| == |ts|
    ensures forall k :: 0 <= k < |ts| ==> lines[k] == FormatLine(ts[k])
  {
    if ts == [] then [] else SaveLines(ts[..|ts| - 1]) + [FormatLine(ts[|ts| - 1])]
  }

  /** Loading a file is loading its parts one after the other: no line affects another. */
  lemma {:induction false} LoadedTasksAppend(a: seq<string>, b: seq<string>)
    ensures LoadedTasks(a + b) == LoadedTasks(a) + LoadedTasks(b)
  {
    if b == [] {
      assert a + b == a;
    } else {
      var init, last := b[..|b| - 1], b[|b| - 1];
      assert (a + b)[..|a + b| - 1] == a + init;
      LoadedTasksAppend(a, init);
      Regroup(LoadedTasks(a), LoadedTasks(init), LoadLine(last));
    }
  }

  /** Reading one more line adds what that line gives. */
  lemma LoadedTasksStep(lines: seq<string>, i: nat)
    requires i < |lines|
    ensures LoadedTasks(lines[..i + 1]) == LoadedTasks(lines[..i]) + LoadedTasks([lines[i]])
  {
    TakeOneMore(lines, i);
    LoadedTasksAppend(lines[..i], [lines[i]]);
  }

  /**
   * A single line yields no task when it splits into fewer than four parts;
   * otherwise one task whose done flag is "part 0 is true, ignoring case",
   * whose category is part 1, whose priority is the glyph of part 2 and
   * whose text is part 3.
   */
  lemma LoadOneLine(line: string)
    ensures var parts := Split(line);
            LoadedTasks([line]) ==
              if |parts| < 4 then []
              else [Task(ParseBoolean(parts[0]), parts[1], PriorityIcon(parts[2]), parts[3])]
  {
    assert [line][..0] == [];
  }

  /** A malformed line is skipped without changing what the lines around it give. */
  lemma SkipMalformed(before: seq<string>, bad: string, after: seq<string>)
    requires |Split(bad)| < 4
    ensures LoadedTasks(before + [bad] + after) == LoadedTasks(before + after)
  {
    assert LoadedTasks([bad]) == [] by {
      LoadOneLine(bad);
    }
    LoadedTasksAppend(before, [bad]);
    assert LoadedTasks(before + [bad]) == LoadedTasks(before);
    LoadedTasksAppend(before + [bad], after);
    LoadedTasksAppend(before, after);
  }

  /** A line the first three of whose fields hold no bar splits into those fields and then the fields of the text. */
  lemma FieldsOfFormatLine(t: Task)
    requires '|' !in t.category && '|' !in t.priority
    ensures Fields(FormatLine(t)) == [BoolText(t.done), t.category, t.priority] + Fields(t.text)
  {
    assert '|' !in BoolText(t.done);
    FieldsOfFour(BoolText(t.done), t.category, t.priority, t.text);
  }

  /**
   * A line of three bar-free fields and a last one parses exactly when the
   * last one holds something other than bars; the text read is the last
   * field cut at its first bar, and anything after that bar is dropped.
   */
  lemma ParseFourFields(done: string, category: string, priority: string, text: string)
    requires '|' !in done && '|' !in category && '|' !in priority
    ensures ParseLine(done + "|" + category + "|" + priority + "|" + text) ==
              if HasContent(text) then Some(Row(ParseBoolean(done), category, priority, FirstField(text))) else None
  {
    SplitOfFour(done, category, priority, text);
  }

  /**
   * Reading back a saved line whose category and priority hold no bar:
   * it loads exactly when the text has a character other than a bar, and
   * then gives the same done flag, category and priority, and the text cut
   * at its first bar.
   */
  lemma ParseFormatLine(t: Task)
    requires '|' !in t.category && '|' !in t.priority
    ensures ParseLine(FormatLine(t)) ==
              if HasContent(t.text) then Some(Row(t.done, t.category, t.priority, FirstField(t.text))) else None
  {
    var done := BoolText(t.done);
    assert '|' !in done && ParseBoolean(done) == t.done;
    ParseFourFields(done, t.category, t.priority, t.text);
  }

  /** `readLine` ends a line at a line feed or a carriage return, so a field holding either would split its line in two. */
  predicate NoLineBreak(s: string) {
    '\n' !in s && '\r' !in s
  }

  /** The tasks a clean save/load cycle can carry: category and text without bars or line breaks, a non-empty text, a glyph as priority. */
  predicate Reloadable(t: Task) {
    '|' !in t.category && '|' !in t.text && t.text != "" && IsGlyph(t.priority)
    && NoLineBreak(t.category) && NoLineBreak(t.text)
  }

  /** Saving and reloading one task keeps it, except that its priority becomes the lowest glyph. */
  lemma ReloadOne(t: Task)
    requires Reloadable(t)
    ensures LoadedTasks([FormatLine(t)]) == [t.(priority := OutlinedStar)]
  {
    ParseFormatLine(t);
    assert t.text[0] != '|';
    LoadOneLine(FormatLine(t));
  }

  /** The tasks as a reload shows them: the same tasks, each with the lowest glyph as priority. */
  function WithLowestPriority(ts: seq<Task>): (r: seq<Task>)
    ensures |r| == |ts|
    ensures forall k :: 0 <= k < |ts| ==> r[k] == ts[k].(priority := OutlinedStar)
  {
    if ts == [] then []
    else WithLowestPriority(ts[..|ts| - 1]) + [ts[|ts| - 1].(priority := OutlinedStar)]
  }

  /**
   * Saving a list of reloadable tasks and loading the file gives the same
   * number of tasks in the same order with the same done flags, categories
   * and texts; every priority comes back as the lowest glyph, because the
   * file holds the glyph and a glyph is not a priority word.
   */
  lemma {:induction false} SaveThenLoad(ts: seq<Task>)
    requires forall k :: 0 <= k < |ts| ==> Reloadable(ts[k])
    ensures LoadedTasks(SaveLines(ts)) == WithLowestPriority(ts)
  {
    if ts == [] {
      assert SaveLines(ts) == [];
    } else {
      var init, last := ts[..|ts| - 1], ts[|ts| - 1];
      var front, line := SaveLines(init), FormatLine(last);
      assert SaveLines(ts) == front + [line];
      assert LoadedTasks([line]) == [last.(priority := OutlinedStar)] by {
        ReloadOne(last);
      }
      LoadedTasksAppend(front, [line]);
      SaveThenLoad(init);
    }
  }

  /** Lowering the priority of tasks that already have the lowest one changes nothing. */
  lemma LowestPriorityNoop(ts: seq<Task>)
    requires forall k :: 0 <= k < |ts| ==> ts[k].priority == OutlinedStar
    ensures WithLowestPriority(ts) == ts
  {
    assert forall k :: 0 <= k < |ts| ==> ts[k].(priority := OutlinedStar) == ts[k];
  }

  /** Lowering the priorities keeps tasks reloadable. */
  lemma LoweredStaysReloadable(ts: seq<Task>)
    requires forall k :: 0 <= k < |ts| ==> Reloadable(ts[k])
    ensures forall k :: 0 <= k < |ts| ==>
              Reloadable(WithLowestPriority(ts)[k]) && WithLowestPriority(ts)[k].priority == OutlinedStar
  {
  }

  /** Tasks that already carry the lowest glyph are a fixed point of a save/load cycle. */
  lemma SaveLoadFixedPoint(ts: seq<Task>)
    requires forall k :: 0 <= k < |ts| ==> Reloadable(ts[k]) && ts[k].priority == OutlinedStar
    ensures LoadedTasks(SaveLines(ts)) == ts
  {
    SaveThenLoad(ts);
    LowestPriorityNoop(ts);
  }

  /** After one save/load cycle, further cycles change nothing. */
  lemma ReloadIsStable(ts: seq<Task>)
    requires forall k :: 0 <= k < |ts| ==> Reloadable(ts[k])
    ensures var once := LoadedTasks(SaveLines(ts));
            LoadedTasks(SaveLines(once)) == once
  {
    SaveThenLoad(ts);
    var once := WithLowestPriority(ts);
    assert forall k :: 0 <= k < |once| ==> Reloadable(once[k]) && once[k].priority == OutlinedStar by {
      LoweredStaysReloadable(ts);
    }
    SaveLoadFixedPoint(once);
  }

  /**
   * A task with an empty text, which a line such as `true|Work|x||y` loads,
   * is written back as a line with three parts and is lost on the next load.
   */
  lemma EmptyTextIsDropped(t: Task)
    requires '|' !in t.category && '|' !in t.priority && t.text == ""
    ensures LoadedTasks([FormatLine(t)]) == []
  {
    ParseFormatLine(t);
    LoadOneLine(FormatLine(t));
  }

  /** A bar inside the text cuts it short on reload: `a|b` comes back as `a`. */
  lemma BarInTextTruncates(t: Task)
    requires Reloadable(t.(text := "x")) && t.text == "a|b"
    ensures LoadedTasks([FormatLine(t)]) == [t.(priority := OutlinedStar, text := "a")]
  {
    ParseFormatLine(t);
    assert t.text[0] != '|';
    assert FirstField("a|b") == "a";
    LoadOneLine(FormatLine(t));
  }
}
