/**
 * The value of one to-do entry and the two rules the list applies to such
 * values: deleting the selected entries and editing an entry's text.
 */
module Tasks {
  import opened Wrappers
  import opened JavaText
  import opened Seqs

  /**
   * What a `TaskItem` holds: the check box's selected state and label,
   * the category label and the priority label. The priority is the glyph
   * the label shows, not the word chosen in the priority box.
   */
  datatype Task = Task(done: bool, category: string, priority: string, text: string)

  /**
   * The entries of `ts` that are not selected (not done), in their
   * original order: what "Delete Selected" leaves behind.
   */
  function RemoveSelected(ts: seq<Task>): (r: seq<Task>)
    ensures |r| <= |ts|
    ensures forall k :: 0 <= k < |r| ==> !r[k].done && r[k] in ts
  {
    if ts == [] then []
    else
      var last := ts[|ts| - 1];
      RemoveSelected(ts[..|ts| - 1]) + (if last.done then [] else [last])
  }

  /** Deleting from a list is deleting from each part: survivors keep their relative order. */
  lemma {:induction false} RemoveSelectedAppend(a: seq<Task>, b: seq<Task>)
    ensures RemoveSelected(a + b) == RemoveSelected(a) + RemoveSelected(b)
  {
    if b == [] {
      assert a + b == a;
    } else {
      var init, last := b[..|b| - 1], b[|b| - 1];
      assert (a + b)[..|a + b| - 1] == a + init;
      RemoveSelectedAppend(a, init);
      Regroup(RemoveSelected(a), RemoveSelected(init), if last.done then [] else [last]);
    }
  }

  /** Exactly the selected entries go: every unselected entry stays as often as it was there. */
  lemma {:induction false} RemoveSelectedCounts(ts: seq<Task>, t: Task)
    ensures multiset(RemoveSelected(ts))[t] == if t.done then 0 else multiset(ts)[t]
  {
    if ts != [] {
      RemoveSelectedCounts(ts[..|ts| - 1], t);
      FrontAndLast(ts);
    }
  }

  /** Deleting changes nothing exactly when no entry is selected. */
  lemma {:induction false} RemoveSelectedNoop(ts: seq<Task>)
    ensures RemoveSelected(ts) == ts <==> forall k :: 0 <= k < |ts| ==> !ts[k].done
  {
    if ts != [] && forall k :: 0 <= k < |ts| ==> !ts[k].done {
      RemoveSelectedNoop(ts[..|ts| - 1]);
      FrontAndLast(ts);
    }
  }

  /** Deleting twice is deleting once. */
  lemma RemoveSelectedIdempotent(ts: seq<Task>)
    ensures RemoveSelected(RemoveSelected(ts)) == RemoveSelected(ts)
  {
    RemoveSelectedNoop(RemoveSelected(ts));
  }

  /** Two entries, the first one ticked: deleting keeps only the second. */
  lemma DeleteFirstOfTwo(first: Task, second: Task)
    requires first.done && !second.done
    ensures RemoveSelected([first, second]) == [second]
  {
    assert [first, second][..1] == [first];
    assert [first] [..0] == [];
  }

  /**
   * The text after the edit dialog closes with `reply` (`None` when it was
   * cancelled): the trimmed reply when that is not empty, else the old text.
   */
  function EditedText(current: string, reply: Option<string>): (r: string)
    ensures r == current || (reply.Some? && r == Trim(reply.value))
    ensures reply.Some? && Trim(reply.value) != "" ==> r == Trim(reply.value)
    ensures reply.None? || Trim(reply.value) == "" ==> r == current
  {
    if reply.Some? && Trim(reply.value) != "" then Trim(reply.value) else current
  }

  /** An edit never empties a text that was not empty, and what it writes is never blank at either end. */
  lemma EditKeepsText(current: string, reply: Option<string>)
    requires current != ""
    ensures EditedText(current, reply) != ""
    ensures EditedText(current, reply) != current ==>
              !IsBlank(EditedText(current, reply)[0]) && !IsBlank(EditedText(current, reply)[|EditedText(current, reply)| - 1])
  {
  }

  /** Confirming the dialog without touching its pre-filled text leaves a trimmed text as it was and trims any other. */
  lemma {:induction false} ConfirmUnchanged(current: string)
    requires exists i :: 0 <= i < |current| && !IsBlank(current[i])
    ensures EditedText(current, Some(current)) == Trim(current)
    ensures (!IsBlank(current[0]) && !IsBlank(current[|current| - 1])) ==> EditedText(current, Some(current)) == current
  {
    if !IsBlank(current[0]) && !IsBlank(current[|current| - 1]) {
      TrimOfTrimmed(current);
    }
  }
}
