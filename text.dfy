/** Tab-separated text: Python's `sep.join(parts)` and `s.split(sep)` on strings. */
module Text {

  /** The field separator of the record format. */
  const TAB: char := '\t'

  /** No part of `parts` contains the separator `sep`. */
  predicate NoSeparator(sep: char, parts: seq<string>)
  {
    forall k :: 0 <= k < |parts| ==> sep !in parts[k]
  }

  /** `sep.join(parts)`: the parts with one `sep` between neighbours. */
  function Join(sep: char, parts: seq<string>): string
  {
    if |parts| == 0 then ""
    else if |parts| == 1 then parts[0]
    else parts[0] + [sep] + Join(sep, parts[1..])
  }

  /** The position of the first `c` in `s`. */
  function IndexOf(s: string, c: char): (i: nat)
    requires c in s
    ensures i < |s| && s[i] == c
    ensures c !in s[..i]
  {
    if s[0] == c then 0
    else
      assert c in s[1..] by { var j :| 0 <= j < |s| && s[j] == c; assert s[1..][j - 1] == c; }
      var i := 1 + IndexOf(s[1..], c);
      assert s[..i] == [s[0]] + s[1..][..i - 1];
      i
  }

  /** `s.split(sep)`: the pieces of `s` between separators; never empty. */
  function Split(sep: char, s: string): (r: seq<string>)
    ensures |r| >= 1
    decreases |s|
  {
    if sep in s then
      var i := IndexOf(s, sep);
      [s[..i]] + Split(sep, s[i + 1..])
    else [s]
  }

  /** A position holding `c` with no `c` before it is the one IndexOf finds. */
  lemma IndexOfIsFirst(s: string, c: char, i: nat)
    requires i < |s| && s[i] == c && c !in s[..i]
    ensures IndexOf(s, c) == i
  {
  }

  /** Splitting a join of separator-free parts gives the parts back. */
  lemma {:induction false} SplitJoin(sep: char, parts: seq<string>)
    requires |parts| >= 1
    requires NoSeparator(sep, parts)
    ensures Split(sep, Join(sep, parts)) == parts
  {
    if |parts| == 1 {
      assert sep !in parts[0];
    } else {
      var p := parts[0];
      var rest := Join(sep, parts[1..]);
      var s := p + [sep] + rest;
      assert s == Join(sep, parts);
      assert s[..|p|] == p;
      assert sep !in p;
      IndexOfIsFirst(s, sep, |p|);
      assert s[|p| + 1..] == rest;
      assert NoSeparator(sep, parts[1..]) by {
        forall k | 0 <= k < |parts| - 1 ensures sep !in parts[1..][k] {
          assert parts[1..][k] == parts[k + 1];
        }
      }
      SplitJoin(sep, parts[1..]);
      assert parts == [p] + parts[1..];
    }
  }

  /** No piece of a split contains the separator. */
  lemma {:induction false} SplitNoSeparator(sep: char, s: string)
    ensures NoSeparator(sep, Split(sep, s))
    decreases |s|
  {
    if sep in s {
      var i := IndexOf(s, sep);
      SplitNoSeparator(sep, s[i + 1..]);
      var r := Split(sep, s);
      assert r == [s[..i]] + Split(sep, s[i + 1..]);
      forall k | 0 <= k < |r| ensures sep !in r[k] {
        if k > 0 {
          assert r[k] == Split(sep, s[i + 1..])[k - 1];
        }
      }
    }
  }

  /** Joining the pieces of a split with the same separator gives the line back. */
  lemma {:induction false} JoinSplit(sep: char, s: string)
    ensures Join(sep, Split(sep, s)) == s
    decreases |s|
  {
    if sep in s {
      var i := IndexOf(s, sep);
      var rest := Split(sep, s[i + 1..]);
      JoinSplit(sep, s[i + 1..]);
      var parts := [s[..i]] + rest;
      assert Split(sep, s) == parts;
      assert parts[1..] == rest;
      assert Join(sep, parts) == s[..i] + [sep] + s[i + 1..];
      assert s == s[..i] + [sep] + s[i + 1..];
    }
  }
}
