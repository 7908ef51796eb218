/**
 * Comparing the contents of a table present on both sides: the normalised
 * creation statement and the schema file's text are split into lines and
 * handed to a unified-diff generator, whose output lines are all reported.
 * The diff generator (Python's `difflib.unified_diff`) is a parameter.
 */
module ContentDiff {
  import opened AutoIncrement
  import opened Report

  /** A line-based diff: old lines, new lines, old label, new label, to the emitted lines. */
  type Differ = (seq<string>, seq<string>, string, string) -> seq<string>

  /** Python's `s.split(sep)`: the pieces between separators, empty pieces kept. */
  function Split(s: string, sep: char): (parts: seq<string>)
    ensures |parts| >= 1
    ensures forall k :: 0 <= k < |parts| ==> sep !in parts[k]
    decreases |s|
  {
    if s == [] then [""]
    else if s[0] == sep then [""] + Split(s[1..], sep)
    else
      var rest := Split(s[1..], sep);
      [[s[0]] + rest[0]] + rest[1..]
  }

  /** The pieces glued back together with the separator between them. */
  function Join(parts: seq<string>, sep: char): string
    requires |parts| >= 1
  {
    if |parts| == 1 then parts[0] else parts[0] + [sep] + Join(parts[1..], sep)
  }

  /** Splitting loses nothing: joining the lines gives back the text. */
  lemma {:induction false} JoinSplit(s: string, sep: char)
    ensures Join(Split(s, sep), sep) == s
    decreases |s|
  {
    if s != [] {
      var rest := Split(s[1..], sep);
      JoinSplit(s[1..], sep);
      if s[0] == sep {
        assert Split(s, sep)[1..] == rest;
        assert [sep] + Join(rest, sep) == s;
      } else {
        var parts := Split(s, sep);
        assert parts[0] == [s[0]] + rest[0];
        if |rest| == 1 {
          assert [s[0]] + rest[0] == s;
        } else {
          assert parts[1..] == rest[1..];
          assert Join(rest, sep) == rest[0] + [sep] + Join(rest[1..], sep);
          assert [s[0]] + (rest[0] + [sep] + Join(rest[1..], sep)) == s;
        }
      }
    }
  }

  /** A piece without the separator, followed by the separator, splits off as one line. */
  lemma {:induction false} SplitAfterPiece(a: string, b: string, sep: char)
    requires sep !in a
    ensures Split(a + [sep] + b, sep) == [a] + Split(b, sep)
    ensures Split(a, sep) == [a]
    decreases |a|
  {
    if a == [] {
      assert a + [sep] + b == [sep] + b;
      assert ([sep] + b)[1..] == b;
    } else {
      SplitAfterPiece(a[1..], b, sep);
      assert (a + [sep] + b)[1..] == a[1..] + [sep] + b;
      assert [a[0]] + a[1..] == a;
    }
  }

  /** Lines without the separator survive a join and a split unchanged. */
  lemma {:induction false} SplitJoin(parts: seq<string>, sep: char)
    requires |parts| >= 1
    requires forall k :: 0 <= k < |parts| ==> sep !in parts[k]
    ensures Split(Join(parts, sep), sep) == parts
  {
    SplitAfterPiece(parts[0], [], sep);
    if |parts| > 1 {
      SplitJoin(parts[1..], sep);
      SplitAfterPiece(parts[0], Join(parts[1..], sep), sep);
      assert [parts[0]] + parts[1..] == parts;
    }
  }

  /**
   * The diff lines of one table: normalised statement against file text,
   * labelled by name and path; a statement without a clause is diffed as it is.
   */
  function CompareTable(name: string, path: string, createStatement: string, fileText: string, diff: Differ): (r: seq<string>)
    ensures NoClause(createStatement) ==> r == diff(Split(createStatement, '\n'), Split(fileText, '\n'), name, path)
  {
    NormalizeUnchangedIff(createStatement);
    diff(Split(Normalize(createStatement), '\n'), Split(fileText, '\n'), name, path)
  }

  /**
   * A statement whose leftmost AUTO_INCREMENT clause occurs once diffs like
   * the same statement without it; with a generator that emits nothing for
   * equal inputs, no line at all.
   */
  lemma ClauseDoesNotShowInDiff(name: string, path: string, x: string, clause: string, y: string, diff: Differ)
    requires IsClause(clause) && NoClause(x)
    requires forall k :: 0 <= k <= |y| ==> !OccursAt(clause, y, k)
    requires forall lines: seq<string> :: diff(lines, lines, name, path) == []
    ensures CompareTable(name, path, x + clause + y, x + y, diff) == []
  {
    NormalizeDeletesClause(x, clause, y);
    ReplaceAllWithoutOccurrence(y, clause);
  }

  /** The [TABLE DIFF] findings of one table, one per diff line, in order. */
  function DiffFindings(name: string, lines: seq<string>): (findings: seq<Finding>)
    ensures |findings| == |lines|
    ensures forall k :: 0 <= k < |lines| ==> findings[k] == TableDiff(name, lines[k])
  {
    if lines == [] then [] else DiffFindings(name, lines[..|lines| - 1]) + [TableDiff(name, lines[|lines| - 1])]
  }

  /** The findings of one matched name, given the file map and the per-table inputs. */
  function TableFindings(fileMap: map<string, string>, showCreate: string -> string,
                         readFile: string -> string, diff: Differ): string -> seq<Finding>
  {
    name => if name in fileMap then
              DiffFindings(name, CompareTable(name, fileMap[name], showCreate(name), readFile(fileMap[name]), diff))
            else []
  }
}
