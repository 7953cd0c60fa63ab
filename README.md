# To-do list window, modelled in Dafny

`ToDoListGUI` is a Swing window that keeps a list of to-do tasks. Each task
is a row (`TaskItem`) with a check box, which holds the done flag and the
task text, a category label and a priority label. The add bar appends a
task when its text field holds something other than blanks. "Delete
Selected" removes every ticked row. A double click on a row's text opens an
edit dialog. The list is read from `tasks.txt` when the window opens and
written back when the window closes. The file has one line per task:
`done|category|priority|text`.

The model has six modules:

- `Wrappers`: an `Option` type.
- `JavaText`: the Java library behaviour the program relies on. This is
  `String.trim` and `String.split("\\|")`, including the way Java drops
  trailing empty parts, plus `"" + boolean` and `Boolean.parseBoolean`.
- `Display`: `getPriorityIcon` and `getCategoryColor`.
- `Tasks`: the value of a task, the delete rule and the edit rule, each on
  plain values.
- `LineCodec`: what `saveTasks` writes and what `loadTasks` reads, as
  functions over a file given as a sequence of lines, and the save/load
  round trip.
- `ToDoApp`: the two classes, `TaskItem` and `ToDoListGUI`. Their methods
  change fields in place, as the Java does. Each method is proved against
  the functions above.

A row's priority label shows a glyph, and that glyph is what `saveTasks`
writes. When the file is read back, the glyph goes through
`getPriorityIcon` again. A glyph is none of the words "High" or "Medium",
so every reloaded task shows the lowest glyph, ✩. Nothing changes on later
cycles. `LineCodec.SaveThenLoad`, `LineCodec.SaveLoadFixedPoint` and
`LineCodec.ReloadIsStable` state this. A plain-language description of the
file could suggest that the priority word is stored. The model follows the
code, which stores the glyph.

## Model

| member | source | states |
|---|---|---|
| JavaText.Trim | ToDoListGUI.java:49 | `trim` gives the stretch between the first and the last character above U+0020. The result is empty exactly when every character is blank. Otherwise it starts and ends with a non-blank, and everything around it is blank. |
| JavaText.TrimIdempotent | ToDoListGUI.java:209-210 | Trimming an already trimmed text changes nothing. |
| JavaText.TrimOfTrimmed | ToDoListGUI.java:209-210 | A text that neither starts nor ends with a blank is its own trim. |
| JavaText.ParseBoolean | ToDoListGUI.java:125 | `parseBoolean` is true exactly when the string, with its ASCII capitals lowered, is "true". |
| JavaText.ParseBooleanExamples | ToDoListGUI.java:125 | "TRUE", "True" and "tRuE" parse as true. "false", "yes", "" and " true" parse as false. |
| JavaText.BoolText | ToDoListGUI.java:143 | A boolean written into a line is a non-empty, bar-free word that `parseBoolean` reads back as the same boolean. |
| JavaText.Fields | ToDoListGUI.java:123 | The fields between bars. There is always at least one, and no field holds a bar. |
| JavaText.JoinFields | ToDoListGUI.java:123 | Joining the fields of a string with bars gives the string back. |
| JavaText.FieldsOfJoin | ToDoListGUI.java:123 | Splitting bar-free fields joined with bars gives the same fields back. |
| JavaText.FieldsConcat | ToDoListGUI.java:123 | The fields of a, a bar and b are the fields of a followed by the fields of b. |
| JavaText.FieldsOfFour | ToDoListGUI.java:143 | Three bar-free fields and a fourth one split into the three, then the fields of the fourth. |
| JavaText.FirstField | ToDoListGUI.java:123-128 | The first field is the longest bar-free prefix. It ends at a bar or at the end of the string. |
| JavaText.ContentField | ToDoListGUI.java:123 | A character other than a bar lies inside some field. |
| JavaText.BarsOnlyFields | ToDoListGUI.java:123 | A string of bars only has only empty fields. |
| JavaText.DropTrailingEmpty | ToDoListGUI.java:123 | The result is a prefix, every field after it is empty, and its last field is not empty. |
| JavaText.Split | ToDoListGUI.java:123 | Splitting on the bar gives `[s]` when `s` has no bar. Otherwise it gives the fields with the trailing empty ones removed and the leading ones kept. No part holds a bar. |
| JavaText.SplitOfFour | ToDoListGUI.java:123-128 | Three bar-free fields and a fourth give at least four parts exactly when the fourth holds a non-bar character. The first four parts are then the three fields and the fourth cut at its first bar. |
| JavaText.SplitOfBarsOnly | ToDoListGUI.java:123-124 | A line of three bars splits into no parts, so it is skipped. |
| JavaText.SplitKeepsInnerEmptyParts | ToDoListGUI.java:123 | A line made of a bar, a, two bars, b and a bar splits into an empty part, a, an empty part and b. |
| Display.PriorityIcon | ToDoListGUI.java:234-240 | The function is total. "High" gives ★, "Medium" gives ☆, and every other string gives ✩; each of these is an if-and-only-if. No glyph is empty or holds a bar. |
| Display.IconOfGlyph | ToDoListGUI.java:234-240 | A glyph given as a priority always shows as ✩. |
| Display.CategoryColor | ToDoListGUI.java:225-232 | The function is total, and each result component lies in 0..255. |
| Display.CategoryColorsDistinct | ToDoListGUI.java:225-232 | The four offered categories get four different colours. Any unknown category shows the "Other" colour. |
| Tasks.RemoveSelected | ToDoListGUI.java:105-116 | The survivors of a delete. None of them is selected, each comes from the list, and there are no more of them than before. |
| Tasks.RemoveSelectedAppend | ToDoListGUI.java:106-113 | Deleting acts on each part of a list separately, so survivors keep their relative order. |
| Tasks.RemoveSelectedCounts | ToDoListGUI.java:109-111 | Every selected value is gone. Every unselected value stays, as many times as before. |
| Tasks.RemoveSelectedNoop | ToDoListGUI.java:105-116 | A delete changes nothing exactly when nothing is selected. |
| Tasks.RemoveSelectedIdempotent | ToDoListGUI.java:105-116 | Deleting twice is the same as deleting once. |
| Tasks.DeleteFirstOfTwo | ToDoListGUI.java:109-111 | With a ticked task and then an unticked one, only the second is left. |
| Tasks.EditedText | ToDoListGUI.java:207-211 | A reply that trims to something non-empty becomes the text, trimmed. A cancelled or blank reply keeps the old text. |
| Tasks.EditKeepsText | ToDoListGUI.java:209-210 | An edit never empties a text, and a new text never starts or ends with a blank. |
| Tasks.ConfirmUnchanged | ToDoListGUI.java:208-210 | Confirming the pre-filled text trims it, and leaves an already trimmed text as it is. |
| LineCodec.FormatLine | ToDoListGUI.java:143 | A saved line is the done flag, category, priority and text, joined by bars. |
| LineCodec.ParseLine | ToDoListGUI.java:123-128 | A line yields a row exactly when it splits into at least four parts. The row's category, priority and text hold no bar. |
| LineCodec.Loaded | ToDoListGUI.java:129-130 | The task built from a row shows a glyph as its priority. |
| LineCodec.LoadLine | ToDoListGUI.java:123-131 | One line gives at most one task. It gives none exactly when it splits into fewer than four parts. A task it gives has a glyph as priority and a bar-free text. |
| LineCodec.LoadedTasks | ToDoListGUI.java:119-137 | A file gives at most one task per line, and every task's priority is a glyph. |
| LineCodec.SaveLines | ToDoListGUI.java:140-149 | A save writes one line per task, in list order. Line k is the done flag, category, priority glyph and text of task k, joined by bars. |
| LineCodec.LoadedTasksAppend | ToDoListGUI.java:122-133 | Lines are read independently, so loading a file loads its parts one after the other. |
| LineCodec.LoadedTasksStep | ToDoListGUI.java:122-133 | Reading one more line appends what that line gives. |
| LineCodec.LoadOneLine | ToDoListGUI.java:123-131 | A line with fewer than four parts gives nothing. Otherwise it gives one task: part 0 parsed as the done flag, part 1 as the category, the glyph of part 2 as the priority, and part 3 as the text. |
| LineCodec.SkipMalformed | ToDoListGUI.java:124 | A malformed line is skipped without affecting the lines around it. |
| LineCodec.FieldsOfFormatLine | ToDoListGUI.java:143 | A saved line splits into its done flag, category and priority, then the fields of its text. |
| LineCodec.ParseFourFields | ToDoListGUI.java:123-128 | Such a line parses exactly when its last field holds a non-bar character. The text read is then cut at its first bar. |
| LineCodec.ParseFormatLine | ToDoListGUI.java:123-143 | A saved line reads back with the same done flag, category and priority. The text comes back cut at its first bar. If the text has no non-bar character, the line does not load. |
| LineCodec.ReloadOne | ToDoListGUI.java:123-143 | Saving and reloading one clean task gives the task back, with ✩ as its priority. A clean task has a non-empty text, and no bar or line break in its text or category. |
| LineCodec.WithLowestPriority | ToDoListGUI.java:234-240 | The same tasks in the same order, each with ✩ as its priority. |
| LineCodec.SaveThenLoad | ToDoListGUI.java:119-149 | Saving then loading tasks with non-empty texts, and no bar, line feed or carriage return in their texts and categories, keeps their number, order, done flags, categories and texts. Every priority comes back as ✩. |
| LineCodec.LowestPriorityNoop | ToDoListGUI.java:234-240 | Lowering priorities that are already ✩ changes nothing. |
| LineCodec.LoweredStaysReloadable | ToDoListGUI.java:119-149 | Reloaded tasks can go through another save/load cycle. |
| LineCodec.SaveLoadFixedPoint | ToDoListGUI.java:119-149 | Tasks that already show ✩ come back from a save/load cycle unchanged. |
| LineCodec.ReloadIsStable | ToDoListGUI.java:119-149 | After one save/load cycle, further cycles change nothing. |
| LineCodec.EmptyTextIsDropped | ToDoListGUI.java:124-143 | A task with an empty text is written as a line that the next load skips. |
| LineCodec.BarInTextTruncates | ToDoListGUI.java:123-143 | A saved text of a, a bar and b loads back as a. |
| ToDoApp.TaskItem.constructor | ToDoListGUI.java:175-193 | A new row is unticked. It keeps its text and category, and shows the glyph of its priority. |
| ToDoApp.TaskItem.Value | ToDoListGUI.java:219-223 | What the getters report. The priority is always one of the three glyphs and holds no bar. |
| ToDoApp.TaskItem.SetDone | ToDoListGUI.java:220 | Sets the done flag and changes nothing else. |
| ToDoApp.TaskItem.OnCheckBoxClicked | ToDoListGUI.java:205-214 | Any click count other than 2 changes nothing. A double click applies the edit rule to the text only. |
| ToDoApp.Values | ToDoListGUI.java:217-223 | The getters' values of the rows, one per row. |
| ToDoApp.ValuesAt | ToDoListGUI.java:217-223 | The value at position k is what row k's getters report. |
| ToDoApp.ValuesSnoc | ToDoListGUI.java:131 | Appending a row appends its value. |
| ToDoApp.Unticked | ToDoListGUI.java:105-116 | The rows a delete keeps. None of them is ticked, and each is an existing row object. |
| ToDoApp.UntickedStep | ToDoListGUI.java:107-112 | One more row is kept exactly when it is not ticked. |
| ToDoApp.ValuesOfUnticked | ToDoListGUI.java:105-116 | Keeping the unticked rows keeps exactly the unselected task values. |
| ToDoApp.ToDoListGUI.constructor | ToDoListGUI.java:17-77 | The window opens with an empty add bar and the tasks loaded from the file. |
| ToDoApp.ToDoListGUI.AddTask | ToDoListGUI.java:93-102 | An empty text changes nothing. Any other text appends one new, unticked row and clears the add bar, and the rows before it are untouched. |
| ToDoApp.ToDoListGUI.OnAddPressed | ToDoListGUI.java:49-51 | The add bar's text is trimmed first, so blank input changes nothing. Otherwise one new row with the trimmed text is appended after the untouched old rows, and the add bar is cleared. |
| ToDoApp.ToDoListGUI.DeleteTasks | ToDoListGUI.java:105-116 | The list becomes its unticked rows, the same objects in the same order. The tasks are then those a delete leaves. The add bar is unchanged. |
| ToDoApp.ToDoListGUI.SetRows | ToDoListGUI.java:106-113 | The list becomes the given rows. The rows themselves and the add bar are untouched. |
| ToDoApp.ToDoListGUI.KeptRows | ToDoListGUI.java:106-113 | The iterator loop, which removes each ticked row where it stands, leaves exactly the unticked rows. |
| ToDoApp.ToDoListGUI.LoadTasks | ToDoListGUI.java:119-137 | Appends exactly the tasks the file's lines give, in file order. |
| ToDoApp.ToDoListGUI.ReadLine | ToDoListGUI.java:122-133 | One pass of the read loop appends what that line gives. |
| ToDoApp.ToDoListGUI.AppendRow | ToDoListGUI.java:129-131 | A new row with the given done flag is appended after the untouched old rows. |
| ToDoApp.ToDoListGUI.SaveTasks | ToDoListGUI.java:140-149 | Writes the save lines of the current tasks and changes nothing. |

## Left out

- Swing layout, fonts, borders, hover colours, `revalidate` and `repaint` are left out. They do not affect the task list.
- The row panels in `taskPanel` are left out. The model keeps only the `tasks` list that they mirror.
- `JOptionPane.showInputDialog` is not modelled as a dialog. Only its result is, as an `Option` whose `None` case is a cancel.
- Swing itself toggles the check box on a click. The model has no toggle event; the done flag changes through `SetDone` and the `done` field.
- File I/O is not modelled. `tasks.txt` is the sequence of its lines, given to the constructor and returned by `SaveTasks`.
- Breaking a file into lines is not modelled. `readLine` ends a line at a line feed or a carriage return, so the round-trip lemmas require texts and categories without either. Without that, a saved text holding a carriage return would come back as two lines.
- LineCodec.SaveThenLoad: assumes the file is read back in the character set it was written in. `FileReader` and `FileWriter` both use the platform default, so a change of default between runs could alter the glyphs and non-ASCII texts.
- A missing or unreadable file is the empty sequence, because `loadTasks` ignores the `IOException`.
- A write failure in `saveTasks` is left out. It only prints a stack trace.
- The window listener that calls `saveTasks` on close is left out; `SaveTasks` is the method it triggers.
- `TaskReorderHandler` is left out. It only accepts every drop and reorders nothing.
- `main` and `invokeLater` are left out: they are threading and start-up code.
- JavaText.ParseBoolean: folds case for ASCII letters only. For the letters of "true" this agrees with `equalsIgnoreCase`.
- ToDoApp.ToDoListGUI.LoadTasks: does not state that the appended rows are new objects. `AppendRow` states it for each one.
- ToDoApp.ToDoListGUI.DeleteTasks: runs the removal on a copy of the list and then assigns the copy back. In a single thread this cannot be told apart from removing in place, since nothing else reads the list during the loop.
