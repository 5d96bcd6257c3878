/**
 * Substring search: Python's `str.find` and the helper
 * `find_nth_occurrence_in_string` of TCGA_MAF_to_TOM_SCHEMA.py, which steps
 * from one occurrence to the next non-overlapping one.
 */
module Search {

  /** `what` occurs in `s` starting at position `i`. */
  predicate IsOccurrenceAt(s: string, what: string, i: int)
  {
    0 <= i && i + |what| <= |s| && s[i..i + |what|] == what
  }

  /**
   * `s.find(what, from)`: the first occurrence at or after `from`, or -1.
   * As in Python, a start beyond the end finds nothing, not even "".
   */
  function FindFrom(s: string, what: string, from: nat): int
    decreases |s| - from
  {
    if from + |what| > |s| then -1
    else if IsOccurrenceAt(s, what, from) then from
    else
      assert |what| > 0;
      FindFrom(s, what, from + 1)
  }

  /** FindFrom is -1 or an occurrence at or after `from`. */
  lemma {:induction false} FindFromFound(s: string, what: string, from: nat)
    ensures var r := FindFrom(s, what, from);
            r == -1 || (from <= r && IsOccurrenceAt(s, what, r))
    decreases |s| - from
  {
    if from + |what| <= |s| && !IsOccurrenceAt(s, what, from) {
      FindFromFound(s, what, from + 1);
    }
  }

  /** Nothing occurs from `from` up to what FindFrom returns (or anywhere after `from`, if it returns -1). */
  lemma {:induction false} FindFromFirst(s: string, what: string, from: nat)
    ensures var r := FindFrom(s, what, from);
            forall i :: from <= i && (r == -1 || i < r) ==> !IsOccurrenceAt(s, what, i)
    decreases |s| - from
  {
    if from + |what| <= |s| && !IsOccurrenceAt(s, what, from) {
      assert |what| > 0;
      FindFromFirst(s, what, from + 1);
    }
  }

  /**
   * What the loop of find_nth_occurrence_in_string computes from a current
   * position `start` with `n` occurrences still to count: while `start` is a
   * hit and `n > 1`, search again just past the hit.
   */
  function NthFrom(s: string, what: string, start: int, n: int): int
    decreases n
  {
    if start < 0 || n <= 1 then start
    else NthFrom(s, what, FindFrom(s, what, start + |what|), n - 1)
  }

  /** Starting from -1 or an occurrence, the loop ends at -1 or an occurrence no earlier than it started. */
  lemma {:induction false} NthFromFinds(s: string, what: string, start: int, n: int)
    requires start == -1 || IsOccurrenceAt(s, what, start)
    ensures var r := NthFrom(s, what, start, n);
            (r == -1 || IsOccurrenceAt(s, what, r)) && (start >= 0 && r >= 0 ==> r >= start)
    decreases n
  {
    if start >= 0 && n > 1 {
      FindFromFound(s, what, start + |what|);
      NthFromFinds(s, what, FindFrom(s, what, start + |what|), n - 1);
    }
  }

  /** The result of find_nth_occurrence_in_string(what, s, n). */
  function Nth(s: string, what: string, n: int): int
  {
    NthFrom(s, what, FindFrom(s, what, 0), n)
  }

  /**
   * find_nth_occurrence_in_string: start at the first occurrence and step
   * `n - 1` times to the next non-overlapping one, stopping at -1.
   */
  method FindNthOccurrence(what: string, inStr: string, nTh: int) returns (start: int)
    ensures start == Nth(inStr, what, nTh)
    ensures start == -1 || IsOccurrenceAt(inStr, what, start)
    ensures nTh <= 1 ==> start == FindFrom(inStr, what, 0)
  {
    start := FindFrom(inStr, what, 0);
    FindFromFound(inStr, what, 0);
    var n := nTh;
    while start >= 0 && n > 1
      invariant start == -1 || IsOccurrenceAt(inStr, what, start)
      invariant NthFrom(inStr, what, start, n) == Nth(inStr, what, nTh)
      decreases n
    {
      FindFromFound(inStr, what, start + |what|);
      start := FindFrom(inStr, what, start + |what|);
      n := n - 1;
    }
  }

  /**
   * The (n+1)-th occurrence is the first one at or after the end of the n-th;
   * once the search has failed it stays failed.
   */
  lemma {:induction false} NthFromSuccessor(s: string, what: string, start: int, n: int)
    requires n >= 1
    ensures NthFrom(s, what, start, n) < 0 ==> NthFrom(s, what, start, n + 1) == NthFrom(s, what, start, n)
    ensures NthFrom(s, what, start, n) >= 0 ==>
              NthFrom(s, what, start, n + 1) == FindFrom(s, what, NthFrom(s, what, start, n) + |what|)
    decreases n
  {
    if start >= 0 {
      var next := FindFrom(s, what, start + |what|);
      assert NthFrom(s, what, start, n + 1) == NthFrom(s, what, next, n);
      if n == 1 {
        assert NthFrom(s, what, start, n) == start;
        assert NthFrom(s, what, next, n) == next;
      } else {
        assert NthFrom(s, what, start, n) == NthFrom(s, what, next, n - 1);
        NthFromSuccessor(s, what, next, n - 1);
      }
    } else {
      assert NthFrom(s, what, start, n) == start == NthFrom(s, what, start, n + 1);
    }
  }

  /**
   * Successive results are greedy: if the (n+1)-th occurrence exists then so
   * does the n-th, and the (n+1)-th is the first occurrence at or after the
   * end of the n-th.
   */
  lemma NthNext(s: string, what: string, n: int)
    requires n >= 1
    requires Nth(s, what, n + 1) >= 0
    ensures Nth(s, what, n) >= 0
    ensures Nth(s, what, n + 1) == FindFrom(s, what, Nth(s, what, n) + |what|)
  {
    NthFromSuccessor(s, what, FindFrom(s, what, 0), n);
  }

  /**
   * Successive results do not overlap: the (n+1)-th occurrence starts no
   * earlier than the end of the n-th, and `what` does not occur in between.
   */
  lemma NthNonOverlapping(s: string, what: string, n: int)
    requires n >= 1
    requires Nth(s, what, n + 1) >= 0
    ensures Nth(s, what, n) >= 0
    ensures Nth(s, what, n + 1) >= Nth(s, what, n) + |what|
    ensures forall i :: Nth(s, what, n) + |what| <= i < Nth(s, what, n + 1) ==> !IsOccurrenceAt(s, what, i)
  {
    NthNext(s, what, n);
    var p := Nth(s, what, n);
    FindFromFound(s, what, p + |what|);
    FindFromFirst(s, what, p + |what|);
  }

  /** With an empty needle the search never moves: every count yields 0. */
  lemma {:induction false} NthOfEmptyNeedle(s: string, n: int)
    ensures Nth(s, "", n) == 0
  {
    assert FindFrom(s, "", 0) == 0 by { assert s[0..0] == ""; }
    StaysAtZero(s, n);
  }

  lemma {:induction false} StaysAtZero(s: string, n: int)
    ensures NthFrom(s, "", 0, n) == 0
    decreases n
  {
    if n > 1 {
      assert FindFrom(s, "", 0) == 0 by { assert s[0..0] == ""; }
      StaysAtZero(s, n - 1);
    }
  }
}
