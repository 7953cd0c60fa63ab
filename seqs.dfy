/** Small facts about sequences that the list operations rely on. */
module Seqs {

  /** Concatenation regroups: appending to a concatenation appends to its second part. */
  lemma Regroup<T>(a: seq<T>, b: seq<T>, c: seq<T>)
    ensures (a + b) + c == a + (b + c)
  {
  }

  /** A non-empty list is its front followed by its last element. */
  lemma FrontAndLast<T>(s: seq<T>)
    requires s != []
    ensures s == s[..|s| - 1] + [s[|s| - 1]]
  {
  }

  /** The first `i + 1` elements are the first `i` followed by element `i`. */
  lemma TakeOneMore<T>(s: seq<T>, i: nat)
    requires i < |s|
    ensures s[..i + 1] == s[..i] + [s[i]]
  {
  }

  /**
   * A list made of a prefix `kept` and the suffix of `all` from `j` on:
   * the element after the prefix is `all[j]`, dropping it leaves the prefix
   * and the suffix from `j + 1`, and keeping it extends the prefix.
   */
  lemma SplitAt<T>(list: seq<T>, kept: seq<T>, all: seq<T>, j: nat)
    requires j < |all| && list == kept + all[j..]
    ensures list[|kept|] == all[j]
    ensures list[..|kept|] + list[|kept| + 1..] == kept + all[j + 1..]
    ensures list == (kept + [all[j]]) + all[j + 1..]
  {
    assert all[j..] == [all[j]] + all[j + 1..];
    assert list[..|kept|] == kept && list[|kept| + 1..] == all[j + 1..];
  }
}
