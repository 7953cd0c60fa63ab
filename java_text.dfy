/**
 * The behaviour of the few `java.lang.String` and `java.lang.Boolean`
 * operations that the to-do list relies on: `trim`, `split("\\|")`,
 * string concatenation of a `boolean`, and `Boolean.parseBoolean`.
 */
module JavaText {

  /** `String.trim` removes every leading and trailing character whose code is at most U+0020. */
  predicate IsBlank(c: char) {
    c <= ' '
  }

  /** The number of blank characters at the start of `s`. */
  function LeadingBlanks(s: string): (n: nat)
    ensures n <= |s|
    ensures forall i :: 0 <= i < n ==> IsBlank(s[i])
    ensures n == |s| || !IsBlank(s[n])
  {
    if s == [] || !IsBlank(s[0]) then 0 else 1 + LeadingBlanks(s[1..])
  }

  /** The number of blank characters at the end of `s`. */
  function TrailingBlanks(s: string): (n: nat)
    ensures n <= |s|
    ensures forall i :: |s| - n <= i < |s| ==> IsBlank(s[i])
    ensures n == |s| || !IsBlank(s[|s| - 1 - n])
  {
    if s == [] || !IsBlank(s[|s| - 1]) then 0 else 1 + TrailingBlanks(s[..|s| - 1])
  }

  /**
   * `String.trim`: the part of `s` that starts at its first non-blank
   * character and ends at its last one; empty when `s` is all blanks.
   */
  function Trim(s: string): (r: string)
    ensures r == [] <==> forall i :: 0 <= i < |s| ==> IsBlank(s[i])
    ensures r != [] ==> !IsBlank(r[0]) && !IsBlank(r[|r| - 1])
    ensures LeadingBlanks(s) + |r| <= |s|
    ensures r == s[LeadingBlanks(s)..LeadingBlanks(s) + |r|]
    ensures forall i :: LeadingBlanks(s) + |r| <= i < |s| ==> IsBlank(s[i])
  {
    var t := s[LeadingBlanks(s)..];
    t[..|t| - TrailingBlanks(t)]
  }

  /** A string that neither starts nor ends with a blank is its own trim. */
  lemma TrimOfTrimmed(s: string)
    requires s == [] || (!IsBlank(s[0]) && !IsBlank(s[|s| - 1]))
    ensures Trim(s) == s
  {
  }

  /** Trimming twice is trimming once. */
  lemma TrimIdempotent(s: string)
    ensures Trim(Trim(s)) == Trim(s)
  {
    TrimOfTrimmed(Trim(s));
  }

  /** `"" + b` for a Java `boolean` b: a bar-free word that `parseBoolean` reads back as b. */
  function BoolText(b: bool): (r: string)
    ensures '|' !in r && r != ""
    ensures ParseBoolean(r) == b
  {
    if b then "true" else "false"
  }

  /** `Character.toLowerCase` restricted to the ASCII letters. */
  function LowerAscii(c: char): char {
    if 'A' <= c <= 'Z' then (c as int + 32) as char else c
  }

  /** `s` with every ASCII capital letter lowered. */
  function LowerAsciiString(s: string): (r: string)
    ensures |r| == |s|
    ensures forall i :: 0 <= i < |s| ==> r[i] == LowerAscii(s[i])
  {
    if s == [] then [] else [LowerAscii(s[0])] + LowerAsciiString(s[1..])
  }

  /**
   * `Boolean.parseBoolean(s)`, which is `"true".equalsIgnoreCase(s)`.
   * Java compares the characters after case folding; for the four letters
   * of "true" no character outside ASCII folds onto them, so ASCII folding
   * gives the same answer.
   */
  function ParseBoolean(s: string): (b: bool)
    ensures b <==> LowerAsciiString(s) == "true"
  {
    |s| == 4 && LowerAscii(s[0]) == 't' && LowerAscii(s[1]) == 'r'
    && LowerAscii(s[2]) == 'u' && LowerAscii(s[3]) == 'e'
  }

  /** `parseBoolean` ignores case and rejects everything that is not some spelling of "true". */
  lemma ParseBooleanExamples()
    ensures ParseBoolean("TRUE") && ParseBoolean("True") && ParseBoolean("tRuE")
    ensures !ParseBoolean("false") && !ParseBoolean("yes") && !ParseBoolean("") && !ParseBoolean(" true")
  {
  }

  /** The fields separated by `|` joined back together: the inverse of `Fields`. */
  function Join(fields: seq<string>): string
  {
    if fields == [] then ""
    else if |fields| == 1 then fields[0]
    else fields[0] + "|" + Join(fields[1..])
  }

  /** Four fields joined by bars, written out. */
  lemma JoinFour(a: string, b: string, c: string, d: string)
    ensures Join([a, b, c, d]) == a + "|" + b + "|" + c + "|" + d
  {
    assert [c, d][1..] == [d];
    assert Join([c, d]) == c + "|" + d;
    assert [b, c, d][1..] == [c, d];
    assert Join([b, c, d]) == b + "|" + c + "|" + d;
    assert [a, b, c, d][1..] == [b, c, d];
  }

  /**
   * Every field of `s` between bars, including empty ones at both ends
   * (the split before Java drops trailing empty strings).
   */
  function Fields(s: string): (r: seq<string>)
    ensures |r| >= 1
    ensures forall k :: 0 <= k < |r| ==> '|' !in r[k]
    ensures '|' !in s ==> r == [s]
  {
    if s == [] then [""]
    else
      var rest := Fields(s[1..]);
      assert '|' !in s ==> s == [s[0]] + s[1..];
      if s[0] == '|' then [""] + rest
      else [[s[0]] + rest[0]] + rest[1..]
  }

  /** Joining the fields of `s` gives `s` back: no character is lost or added by splitting. */
  lemma {:induction false} JoinFields(s: string)
    ensures Join(Fields(s)) == s
  {
    if s != [] {
      var rest := Fields(s[1..]);
      JoinFields(s[1..]);
      if s[0] != '|' && |rest| > 1 {
        assert Join(rest) == rest[0] + "|" + Join(rest[1..]);
        assert Join(Fields(s)) == [s[0]] + rest[0] + "|" + Join(rest[1..]);
      }
    }
  }

  /** The first field of `s`: the longest prefix of `s` without a bar. */
  function FirstField(s: string): (f: string)
    ensures f <= s
    ensures '|' !in f
    ensures |f| == |s| || s[|f|] == '|'
  {
    JoinFields(s);
    var r := Fields(s);
    assert |r| > 1 ==> s == r[0] + "|" + Join(r[1..]);
    r[0]
  }

  /** Splitting `a|b` gives the fields of `a` followed by the fields of `b`. */
  lemma {:induction false} FieldsConcat(a: string, b: string)
    ensures Fields(a + "|" + b) == Fields(a) + Fields(b)
  {
    if a == [] {
      assert a + "|" + b == "|" + b;
      assert ("|" + b)[1..] == b;
    } else {
      assert (a + "|" + b)[1..] == a[1..] + "|" + b;
      FieldsConcat(a[1..], b);
    }
  }

  /** Three bar-free fields followed by a last one split into the three and the fields of the last. */
  lemma FieldsOfFour(a: string, b: string, c: string, d: string)
    requires '|' !in a && '|' !in b && '|' !in c
    ensures Fields(a + "|" + b + "|" + c + "|" + d) == [a, b, c] + Fields(d)
  {
    var upToB := a + "|" + b;
    FieldsConcat(a, b);
    var upToC := upToB + "|" + c;
    FieldsConcat(upToB, c);
    FieldsConcat(upToC, d);
  }

  /** Splitting joined bar-free fields gives the same fields back. */
  lemma {:induction false} FieldsOfJoin(fields: seq<string>)
    requires |fields| >= 1
    requires forall k :: 0 <= k < |fields| ==> '|' !in fields[k]
    ensures Fields(Join(fields)) == fields
  {
    if |fields| > 1 {
      FieldsOfJoin(fields[1..]);
      FieldsConcat(fields[0], Join(fields[1..]));
    }
  }

  /** A string with a character other than a bar has a non-empty field, which holds that character. */
  lemma {:induction false} ContentField(s: string, i: nat) returns (j: nat)
    requires i < |s| && s[i] != '|'
    ensures j < |Fields(s)| && s[i] in Fields(s)[j]
  {
    var rest := Fields(s[1..]);
    if i == 0 {
      j := 0;
    } else {
      var j' := ContentField(s[1..], i - 1);
      if s[0] == '|' {
        j := j' + 1;
      } else {
        j := j';
        assert j' == 0 ==> Fields(s)[0] == [s[0]] + rest[0];
      }
    }
  }

  /** A string made of bars only has only empty fields. */
  lemma {:induction false} BarsOnlyFields(s: string)
    requires forall i :: 0 <= i < |s| ==> s[i] == '|'
    ensures forall j :: 0 <= j < |Fields(s)| ==> Fields(s)[j] == ""
  {
    if s != [] {
      BarsOnlyFields(s[1..]);
    }
  }

  /** The fields of `fields` that remain once the empty ones at its end are removed. */
  function DropTrailingEmpty(fields: seq<string>): (r: seq<string>)
    ensures |r| <= |fields| && r == fields[..|r|]
    ensures forall k :: |r| <= k < |fields| ==> fields[k] == ""
    ensures r == [] || r[|r| - 1] != ""
  {
    if fields == [] then []
    else if fields[|fields| - 1] == "" then DropTrailingEmpty(fields[..|fields| - 1])
    else fields
  }

  /**
   * `s.split("\\|")`: with no bar in `s` the result is `[s]` itself;
   * otherwise the fields of `s`, leading empty ones kept and trailing
   * empty ones removed.
   */
  function Split(s: string): (r: seq<string>)
    ensures forall k :: 0 <= k < |r| ==> '|' !in r[k]
    ensures |r| <= |Fields(s)| && r == Fields(s)[..|r|]
    ensures forall k :: |r| <= k < |Fields(s)| ==> Fields(s)[k] == ""
    ensures '|' in s ==> r == [] || r[|r| - 1] != ""
    ensures '|' !in s ==> r == [s]
  {
    if '|' !in s then [s] else DropTrailingEmpty(Fields(s))
  }

  /** `s` holds a character other than a bar. */
  predicate HasContent(s: string) {
    exists i :: 0 <= i < |s| && s[i] != '|'
  }

  /**
   * Splitting three bar-free fields and a last one: there are at least
   * four parts exactly when the last one holds something other than bars,
   * and then the first four are the three fields and the last one cut at
   * its first bar.
   */
  lemma SplitOfFour(a: string, b: string, c: string, d: string)
    requires '|' !in a && '|' !in b && '|' !in c
    ensures var parts := Split(a + "|" + b + "|" + c + "|" + d);
            (|parts| >= 4 <==> HasContent(d))
            && (HasContent(d) ==> parts[0] == a && parts[1] == b && parts[2] == c && parts[3] == FirstField(d))
  {
    var line := a + "|" + b + "|" + c + "|" + d;
    FieldsOfFour(a, b, c, d);
    var fields := Fields(line);
    assert fields == [a, b, c] + Fields(d);
    assert line[|a|] == '|';
    var parts := Split(line);
    if HasContent(d) {
      var i :| 0 <= i < |d| && d[i] != '|';
      var j := ContentField(d, i);
      assert fields[3 + j] != "";
      assert |parts| >= 4;
    } else {
      assert forall i :: 0 <= i < |d| ==> d[i] == '|';
      BarsOnlyFields(d);
      assert forall k :: 3 <= k < |fields| ==> fields[k] == "";
      assert |parts| < 4;
    }
  }

  /** A string of bars only splits into no parts at all. */
  lemma SplitOfBarsOnly()
    ensures Split("|||") == []
  {
    assert Join(["", "", "", ""]) == "|||";
    FieldsOfJoin(["", "", "", ""]);
  }

  /** Empty parts at the start and in the middle are kept; those at the end are dropped. */
  lemma SplitKeepsInnerEmptyParts()
    ensures Split("|a||b|") == ["", "a", "", "b"]
  {
    var fields := ["", "a", "", "b", ""];
    assert Join(fields) == "|a||b|";
    FieldsOfJoin(fields);
    assert DropTrailingEmpty(fields) == fields[..4];
  }
}
