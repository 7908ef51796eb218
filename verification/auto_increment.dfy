/**
 * Normalisation of a table's creation statement before it is compared:
 * search the statement for the leftmost `AUTO_INCREMENT=<digits><space>`
 * and, if there is one, delete every non-overlapping occurrence of exactly
 * that clause text, scanning left to right in one pass as Python's
 * `str.replace(old, "")` does.
 */
module AutoIncrement {
  import opened Wrappers

  const Keyword: string := "AUTO_INCREMENT="

  predicate IsDigit(ch: char)
  {
    '0' <= ch <= '9'
  }

  /** Text the pattern `AUTO_INCREMENT=[0-9]+ ` matches in full: the keyword, one or more digits, one space. */
  predicate IsClause(c: string)
  {
    && |c| >= |Keyword| + 2
    && c[..|Keyword|] == Keyword
    && c[|c| - 1] == ' '
    && forall k :: |Keyword| <= k < |c| - 1 ==> IsDigit(c[k])
  }

  /** No clause occurs anywhere in `s`. */
  ghost predicate NoClause(s: string)
  {
    forall i, n :: 0 <= i <= n <= |s| ==> !IsClause(s[i..n])
  }

  /** `p` occurs in `s` at position `k`. */
  predicate OccursAt(p: string, s: string, k: nat)
  {
    k + |p| <= |s| && s[k..k + |p|] == p
  }

  /** The length of the run of digits that starts at `j`. */
  function DigitRun(s: string, j: nat): (n: nat)
    requires j <= |s|
    ensures j + n <= |s|
    ensures forall k :: j <= k < j + n ==> IsDigit(s[k])
    decreases |s| - j
  {
    if j < |s| && IsDigit(s[j]) then 1 + DigitRun(s, j + 1) else 0
  }

  /**
   * The text the pattern matches at position `i`, if any. The digit group is
   * greedy and a space is not a digit, so a match takes the whole run of
   * digits and needs a space right after it.
   */
  function ClauseAt(s: string, i: nat): (r: Option<string>)
    requires i <= |s|
    ensures r.Some? ==> IsClause(r.value) && OccursAt(r.value, s, i)
  {
    var e := i + |Keyword|;
    if e <= |s| && s[i..e] == Keyword then
      var n := DigitRun(s, e);
      if n > 0 && e + n < |s| && s[e + n] == ' ' then Some(s[i..e + n + 1]) else None
    else None
  }

  /** The leftmost position at or after `from` where the pattern matches (`re.search`). */
  function Search(s: string, from: nat): (r: Option<nat>)
    requires from <= |s|
    ensures r.Some? ==> from <= r.value <= |s| && ClauseAt(s, r.value).Some?
    ensures forall j :: from <= j <= |s| && (r.None? || j < r.value) ==> ClauseAt(s, j).None?
    decreases |s| - from
  {
    if ClauseAt(s, from).Some? then Some(from)
    else if from == |s| then None
    else Search(s, from + 1)
  }

  /** Python's `s.replace(p, "")`: delete the occurrences of `p` found scanning left to right. */
  function ReplaceAll(s: string, p: string): (r: string)
    requires |p| > 0
    ensures |r| <= |s|
    decreases |s|
  {
    if |s| < |p| then s
    else if s[..|p|] == p then ReplaceAll(s[|p|..], p)
    else [s[0]] + ReplaceAll(s[1..], p)
  }

  /**
   * The creation statement with the leftmost clause's text deleted everywhere:
   * never longer, and strictly shorter whenever a clause is found.
   */
  function Normalize(createStatement: string): (r: string)
    ensures |r| <= |createStatement|
    ensures Search(createStatement, 0).Some? ==> |r| < |createStatement|
  {
    match Search(createStatement, 0)
    case None => createStatement
    case Some(i) =>
      var clause := ClauseAt(createStatement, i).value;
      ReplaceAllShrinks(createStatement, clause, i);
      ReplaceAll(createStatement, clause)
  }

  // ---------------------------------------------------------------------------
  // The pattern

  lemma DigitRunEndsAt(s: string, j: nat, t: nat)
    requires j <= t < |s|
    requires forall k :: j <= k < t ==> IsDigit(s[k])
    requires !IsDigit(s[t])
    ensures DigitRun(s, j) == t - j
    decreases t - j
  {
    if j < t {
      DigitRunEndsAt(s, j + 1, t);
    }
  }

  /** Wherever a clause starts, the search finds exactly that clause there. */
  lemma ClauseAtComplete(s: string, i: nat, n: nat)
    requires i <= n <= |s| && IsClause(s[i..n])
    ensures ClauseAt(s, i) == Some(s[i..n])
  {
    var c := s[i..n];
    var e := i + |Keyword|;
    assert s[i..e] == c[..|Keyword|];
    forall k | e <= k < n - 1 ensures IsDigit(s[k]) {
      assert s[k] == c[k - i];
    }
    assert s[n - 1] == c[|c| - 1];
    DigitRunEndsAt(s, e, n - 1);
  }

  /** A clause's first character is its only 'A', and '=' ends its keyword. */
  lemma ClauseShape(c: string)
    ensures IsClause(c) ==> c[0] == 'A' && c[|Keyword| - 1] == '=' && c[|c| - 1] == ' '
    ensures IsClause(c) ==> forall k :: 0 < k < |c| ==> c[k] != 'A'
  {
    if IsClause(c) {
      forall k | 0 < k < |c| ensures c[k] != 'A' {
        if k < |Keyword| {
          assert c[k] == Keyword[k];
        } else {
          assert k == |c| - 1 || IsDigit(c[k]);
        }
      }
    }
  }

  /** Two clauses that start at the same place are the same clause. */
  lemma ClausePrefixUnique(c: string, d: string, t: string)
    requires IsClause(c) && IsClause(d)
    requires OccursAt(c, t, 0) && OccursAt(d, t, 0)
    ensures c == d
  {
    ClauseAtComplete(t, 0, |c|);
    ClauseAtComplete(t, 0, |d|);
  }

  lemma NoEqualsNoClause(s: string)
    requires '=' !in s
    ensures NoClause(s)
  {
    forall i, n | 0 <= i <= n <= |s| ensures !IsClause(s[i..n]) {
      ClauseShape(s[i..n]);
    }
  }

  lemma NoSpaceNoClause(s: string)
    requires ' ' !in s
    ensures NoClause(s)
  {
    forall i, n | 0 <= i <= n <= |s| ensures !IsClause(s[i..n]) {
      ClauseShape(s[i..n]);
    }
  }

  // ---------------------------------------------------------------------------
  // Replace-all

  /** Without an occurrence of `p`, replacing leaves the text unchanged. */
  lemma {:induction false} ReplaceAllWithoutOccurrence(s: string, p: string)
    requires |p| > 0
    requires forall k :: 0 <= k <= |s| ==> !OccursAt(p, s, k)
    ensures ReplaceAll(s, p) == s
    decreases |s|
  {
    if |s| >= |p| {
      assert !OccursAt(p, s, 0);
      forall k | 0 <= k <= |s[1..]| ensures !OccursAt(p, s[1..], k) {
        assert !OccursAt(p, s, k + 1);
        if k + |p| <= |s[1..]| {
          assert s[1..][k..k + |p|] == s[k + 1..k + 1 + |p|];
        }
      }
      ReplaceAllWithoutOccurrence(s[1..], p);
    }
  }

  /** An occurrence of `p` is deleted, so the result loses at least |p| characters. */
  lemma {:induction false} ReplaceAllShrinks(s: string, p: string, k: nat)
    requires |p| > 0 && OccursAt(p, s, k)
    ensures |ReplaceAll(s, p)| + |p| <= |s|
    decreases |s|
  {
    if s[..|p|] != p {
      assert k > 0;
      assert s[1..][k - 1..k - 1 + |p|] == s[k..k + |p|];
      ReplaceAllShrinks(s[1..], p, k - 1);
    }
  }

  /**
   * When the first character of `p` occurs nowhere else in `p`, no occurrence
   * crosses the start of a text that begins with that character, so the
   * replacement splits there.
   */
  lemma {:induction false} ReplaceAllSplit(x: string, t: string, p: string)
    requires |p| > 0 && forall k :: 0 < k < |p| ==> p[k] != p[0]
    requires |t| > 0 && t[0] == p[0]
    ensures ReplaceAll(x + t, p) == ReplaceAll(x, p) + ReplaceAll(t, p)
    decreases |x|
  {
    var s := x + t;
    if x == [] {
      assert s == t;
    } else if |s| < |p| {
      assert ReplaceAll(x, p) == x && ReplaceAll(t, p) == t;
    } else if s[..|p|] == p {
      assert forall k :: 0 <= k < |p| ==> s[k] == p[k];
      assert forall k :: 0 <= k < |t| ==> s[|x| + k] == t[k];
      assert x[..|p|] == s[..|p|];
      assert s[|p|..] == x[|p|..] + t;
      ReplaceAllSplit(x[|p|..], t, p);
      assert ReplaceAll(x, p) == ReplaceAll(x[|p|..], p);
    } else {
      assert s[0] == x[0];
      assert s[1..] == x[1..] + t;
      ReplaceAllSplit(x[1..], t, p);
      assert ReplaceAll(s, p) == [x[0]] + (ReplaceAll(x[1..], p) + ReplaceAll(t, p));
      if |x| >= |p| {
        assert x[..|p|] == s[..|p|];
        assert ReplaceAll(x, p) == [x[0]] + ReplaceAll(x[1..], p);
      } else {
        assert ReplaceAll(x[1..], p) == x[1..];
        assert [x[0]] + x[1..] == x;
      }
    }
  }

  /** A prefix without the first character of `p` passes through unchanged. */
  lemma {:induction false} ReplaceAllSkips(t: string, y: string, p: string)
    requires |p| > 0 && p[0] !in t
    ensures ReplaceAll(t + y, p) == t + ReplaceAll(y, p)
    decreases |t|
  {
    if t == [] {
      assert t + y == y;
    } else {
      var s := t + y;
      assert s[0] == t[0];
      if |s| >= |p| {
        assert s[..|p|][0] == t[0];
        assert s[..|p|] != p;
        assert s[1..] == t[1..] + y;
        ReplaceAllSkips(t[1..], y, p);
        assert ReplaceAll(s, p) == [t[0]] + (t[1..] + ReplaceAll(y, p));
        assert [t[0]] + (t[1..] + ReplaceAll(y, p)) == t + ReplaceAll(y, p);
      } else {
        assert ReplaceAll(y, p) == y;
      }
    }
  }

  /** Every occurrence of a clause is deleted, and the text on either side is treated independently. */
  lemma RemovesEveryCopy(x: string, c: string, y: string)
    requires IsClause(c)
    ensures ReplaceAll(x + c + y, c) == ReplaceAll(x, c) + ReplaceAll(y, c)
  {
    ClauseShape(c);
    ReplaceAllSplit(x, c + y, c);
    ReplaceAllDeletesHead(c, y);
    assert x + c + y == x + (c + y);
  }

  /** A text that starts with `p` loses that copy. */
  lemma ReplaceAllDeletesHead(p: string, y: string)
    requires |p| > 0
    ensures ReplaceAll(p + y, p) == ReplaceAll(y, p)
  {
    assert (p + y)[..|p|] == p && (p + y)[|p|..] == y;
  }

  /** One step of the scan where `p` does not start the text. */
  lemma ReplaceAllStep(s: string, p: string)
    requires 0 < |p| <= |s| && !OccursAt(p, s, 0)
    ensures ReplaceAll(s, p) == [s[0]] + ReplaceAll(s[1..], p)
  {
  }

  /** A different clause cannot start where a clause starts. */
  lemma OtherClauseNotAt(c: string, d: string, t: string)
    requires IsClause(c) && IsClause(d) && c != d && OccursAt(d, t, 0)
    ensures !OccursAt(c, t, 0)
  {
    if OccursAt(c, t, 0) {
      ClausePrefixUnique(c, d, t);
    }
  }

  /** A head that `p` does not start, and that holds `p`'s first character only up front, is kept. */
  lemma ReplaceAllKeepsHead(d: string, y: string, p: string)
    requires |p| > 0 && |d| > 0 && !OccursAt(p, d + y, 0)
    requires p[0] !in d[1..]
    ensures ReplaceAll(d + y, p) == d + ReplaceAll(y, p)
  {
    var t := d + y;
    var rest := d[1..];
    if |p| <= |t| {
      ReplaceAllStep(t, p);
      ReplaceAllSkips(rest, y, p);
      calc {
        ReplaceAll(t, p);
        [t[0]] + ReplaceAll(t[1..], p);
        { assert t[1..] == rest + y; }
        [d[0]] + ReplaceAll(rest + y, p);
        [d[0]] + (rest + ReplaceAll(y, p));
        { assert [d[0]] + rest == d; }
        d + ReplaceAll(y, p);
      }
    } else {
      assert ReplaceAll(y, p) == y;
    }
  }

  /** A text that starts with a different clause keeps that clause whole. */
  lemma OtherClauseFirst(d: string, y: string, c: string)
    requires IsClause(c) && IsClause(d) && c != d
    ensures ReplaceAll(d + y, c) == d + ReplaceAll(y, c)
  {
    assert OccursAt(d, d + y, 0);
    OtherClauseNotAt(c, d, d + y);
    ClauseShape(c);
    ClauseShape(d);
    assert forall k :: 0 <= k < |d[1..]| ==> d[1..][k] == d[k + 1];
    ReplaceAllKeepsHead(d, y, c);
  }

  /** The replacement splits in front of any clause, since a clause holds its first character only once. */
  lemma SplitBeforeClause(x: string, d: string, y: string, c: string)
    requires IsClause(c) && IsClause(d)
    ensures ReplaceAll(x + (d + y), c) == ReplaceAll(x, c) + ReplaceAll(d + y, c)
  {
    ClauseShape(c);
    ClauseShape(d);
    ReplaceAllSplit(x, d + y, c);
  }

  /** A clause with another number is kept, and so is the text on either side of it. */
  lemma KeepsOtherClause(x: string, c: string, d: string, y: string)
    requires IsClause(c) && IsClause(d) && c != d
    ensures ReplaceAll(x + d + y, c) == ReplaceAll(x, c) + d + ReplaceAll(y, c)
  {
    calc {
      ReplaceAll(x + d + y, c);
      { assert x + d + y == x + (d + y); }
      ReplaceAll(x + (d + y), c);
      { SplitBeforeClause(x, d, y, c); }
      ReplaceAll(x, c) + ReplaceAll(d + y, c);
      { OtherClauseFirst(d, y, c); }
      ReplaceAll(x, c) + (d + ReplaceAll(y, c));
    }
  }

  // ---------------------------------------------------------------------------
  // Normalisation

  /** The leftmost clause is the one whose text is deleted, and the statement gets shorter by at least its length. */
  lemma NormalizeRemovesLeftmost(s: string, i: nat, n: nat)
    requires i <= n <= |s| && IsClause(s[i..n])
    requires forall j, m :: 0 <= j < i && j <= m <= |s| ==> !IsClause(s[j..m])
    ensures Normalize(s) == ReplaceAll(s, s[i..n])
    ensures |Normalize(s)| + (n - i) <= |s|
  {
    ClauseAtComplete(s, i, n);
    assert forall j :: 0 <= j < i ==> ClauseAt(s, j).None?;
    assert Search(s, 0) == Some(i);
    ReplaceAllShrinks(s, s[i..n], i);
  }

  /** The statement is left unchanged exactly when it holds no clause. */
  lemma NormalizeUnchangedIff(s: string)
    ensures Normalize(s) == s <==> NoClause(s)
  {
    match Search(s, 0)
    case None =>
      forall i, n | 0 <= i <= n <= |s| ensures !IsClause(s[i..n]) {
        if IsClause(s[i..n]) {
          ClauseAtComplete(s, i, n);
        }
      }
    case Some(i) =>
      var c := ClauseAt(s, i).value;
      assert IsClause(s[i..i + |c|]);
  }

  /** When a clause occurs, the statement gets strictly shorter. */
  lemma NormalizeShorter(s: string)
    requires !NoClause(s)
    ensures |Normalize(s)| < |s|
  {
    var i, n :| 0 <= i <= n <= |s| && IsClause(s[i..n]);
    ClauseAtComplete(s, i, n);
  }

  /**
   * When no clause comes before a clause `c`, normalisation deletes `c` and
   * its later copies and keeps all other text.
   */
  lemma NormalizeDeletesClause(x: string, c: string, y: string)
    requires IsClause(c) && NoClause(x)
    ensures Normalize(x + c + y) == x + ReplaceAll(y, c)
  {
    var s := x + c + y;
    ClauseShape(c);
    forall j, m | 0 <= j < |x| && j <= m <= |s| ensures !IsClause(s[j..m]) {
      if m <= |x| {
        assert s[j..m] == x[j..m];
      } else {
        ClauseShape(s[j..m]);
        assert s[j..m][|x| - j] == s[|x|] == c[0];
      }
    }
    assert s[|x|..|x| + |c|] == c;
    NormalizeRemovesLeftmost(s, |x|, |x| + |c|);
    RemovesEveryCopy(x, c, y);
    forall k | 0 <= k <= |x| ensures !OccursAt(c, x, k) {
      assert k + |c| <= |x| ==> !IsClause(x[k..k + |c|]);
    }
    ReplaceAllWithoutOccurrence(x, c);
  }

  /** A clause at the very end is deleted and nothing else changes. */
  lemma NormalizeTrailingClause(x: string, c: string)
    requires IsClause(c) && NoClause(x)
    ensures Normalize(x + c) == x
  {
    NormalizeDeletesClause(x, c, "");
    assert x + c + "" == x + c;
  }

  /**
   * A statement ending in its clause keeps the space before the clause, so it
   * does not become equal to the same statement without that space.
   */
  lemma TrailingClauseKeepsSpace(statement: string, fileText: string, clause: string)
    requires fileText == "CREATE TABLE t (id INT)" && clause == "AUTO_INCREMENT=42 "
    requires statement == fileText + " " + clause
    ensures Normalize(statement) == fileText + " "
    ensures Normalize(statement) != fileText
  {
    NoEqualsNoClause(fileText + " ");
    NormalizeTrailingClause(fileText + " ", clause);
  }

  /** One pass can join two halves into a new clause, so normalising twice differs from once. */
  lemma NormalizeNotIdempotent(statement: string, keyword: string, clause: string, tail: string)
    requires keyword == "AUTO_INCREMENT=" && clause == "AUTO_INCREMENT=1 " && tail == "1 "
    requires statement == keyword + clause + tail
    ensures Normalize(statement) == clause
    ensures Normalize(Normalize(statement)) == ""
  {
    NoSpaceNoClause(keyword);
    NormalizeDeletesClause(keyword, clause, tail);
    assert ReplaceAll(tail, clause) == tail;
    assert keyword + tail == clause;
    NormalizeTrailingClause("", clause);
    assert "" + clause == clause;
  }
}
