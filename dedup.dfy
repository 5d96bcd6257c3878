/**
 * Per-file deduplication (`minimal_representation_of_variant` and
 * `transform_line` in TCGA_MAF_to_TOM_SCHEMA.py): each candidate of a record
 * is prefix-trimmed, fingerprinted by chrom, start, ref and alt, and written
 * out only if no earlier candidate of the same file had that fingerprint.
 */
module Dedup {
  import opened Text
  import opened Alleles
  import opened PrefixTrim

  /** Every candidate has the columns up to the alt (index 9). */
  predicate Wide(cs: seq<seq<string>>)
  {
    forall i :: 0 <= i < |cs| ==> |cs[i]| >= 10
  }

  /**
   * minimal_representation_of_variant: fields 0, 1, 8 and 9 (chrom, start,
   * ref, alt) joined with tabs.
   */
  function MinimalRepresentation(v: seq<string>): string
    requires |v| >= 10
  {
    Join(TAB, KeyFields(v))
  }

  /** The fields that make up the fingerprint. */
  function KeyFields(v: seq<string>): seq<string>
    requires |v| >= 10
  {
    [v[0], v[1], v[REF], v[ALT1]]
  }

  /**
   * For tab-free key fields the fingerprint identifies the variant: two
   * candidates share it exactly when they agree on chrom, start, ref and alt.
   */
  lemma RepresentationIdentifies(a: seq<string>, b: seq<string>)
    requires |a| >= 10 && |b| >= 10
    requires NoSeparator(TAB, [a[0], a[1], a[REF], a[ALT1]])
    requires NoSeparator(TAB, [b[0], b[1], b[REF], b[ALT1]])
    ensures MinimalRepresentation(a) == MinimalRepresentation(b)
            <==> a[0] == b[0] && a[1] == b[1] && a[REF] == b[REF] && a[ALT1] == b[ALT1]
  {
    SplitJoin(TAB, [a[0], a[1], a[REF], a[ALT1]]);
    SplitJoin(TAB, [b[0], b[1], b[REF], b[ALT1]]);
  }

  /**
   * The loop body's first step on one candidate: ref and alt lose their
   * common prefix; every other field, start and stop included, is kept.
   */
  function TrimCandidate(c: seq<string>): (r: seq<string>)
    requires |c| >= 10
    ensures |r| == |c|
    ensures (r[REF], r[ALT1]) == TrimPrefix(c[REF], c[ALT1])
    ensures forall i :: 0 <= i < |c| && i != REF && i != ALT1 ==> r[i] == c[i]
  {
    var t := TrimPrefix(c[REF], c[ALT1]);
    c[REF := t.0][ALT1 := t.1]
  }

  /** The candidates after trimming, in the same order. */
  function TrimmedAll(cs: seq<seq<string>>): (r: seq<seq<string>>)
    requires Wide(cs)
    ensures |r| == |cs| && Wide(r)
    ensures forall i :: 0 <= i < |cs| ==> r[i] == TrimCandidate(cs[i])
  {
    seq(|cs|, i requires 0 <= i < |cs| => TrimCandidate(cs[i]))
  }

  /** The fingerprints of a sequence of candidates. */
  function KeySet(cs: seq<seq<string>>): set<string>
    requires Wide(cs)
  {
    set i | 0 <= i < |cs| :: MinimalRepresentation(cs[i])
  }

  /** Candidate `i` is new: its fingerprint is neither seen nor held by an earlier candidate. */
  predicate FirstNew(cs: seq<seq<string>>, i: nat, seen: set<string>)
    requires Wide(cs) && i < |cs|
  {
    MinimalRepresentation(cs[i]) !in seen
    && forall j :: 0 <= j < i ==> MinimalRepresentation(cs[j]) != MinimalRepresentation(cs[i])
  }

  /**
   * Reference definition of what gets emitted: the new candidates, in their
   * original order.
   */
  function Kept(cs: seq<seq<string>>, seen: set<string>): (r: seq<seq<string>>)
    requires Wide(cs)
    ensures |r| <= |cs|
    decreases |cs|
  {
    if |cs| == 0 then []
    else
      var n := |cs| - 1;
      Kept(cs[..n], seen) + (if FirstNew(cs, n, seen) then [cs[n]] else [])
  }

  /** Every emitted candidate is one of the candidates. */
  lemma {:induction false} KeptMembers(cs: seq<seq<string>>, seen: set<string>)
    requires Wide(cs)
    ensures forall i :: 0 <= i < |Kept(cs, seen)| ==> Kept(cs, seen)[i] in cs
    decreases |cs|
  {
    if |cs| > 0 {
      var n := |cs| - 1;
      var prefix := Kept(cs[..n], seen);
      KeptMembers(cs[..n], seen);
      var r := prefix + (if FirstNew(cs, n, seen) then [cs[n]] else []);
      assert Kept(cs, seen) == r;
      forall i | 0 <= i < |r| ensures r[i] in cs {
        if i < |prefix| {
          var j :| 0 <= j < n && cs[..n][j] == prefix[i];
          assert cs[j] == r[i];
        } else {
          assert r[i] == cs[n];
        }
      }
    }
  }

  /** The members of Kept have columns up to the alt. */
  lemma KeptWide(cs: seq<seq<string>>, seen: set<string>)
    requires Wide(cs)
    ensures Wide(Kept(cs, seen))
  {
    KeptMembers(cs, seen);
    var r := Kept(cs, seen);
    forall i | 0 <= i < |r| ensures |r[i]| >= 10 {
      var j :| 0 <= j < |cs| && cs[j] == r[i];
    }
  }

  /** `a` is `b` with some elements dropped, order kept. */
  ghost predicate IsSubsequence<T>(a: seq<T>, b: seq<T>)
    decreases |b|
  {
    if |a| == 0 then true
    else if |b| == 0 then false
    else (a[|a| - 1] == b[|b| - 1] && IsSubsequence(a[..|a| - 1], b[..|b| - 1]))
         || IsSubsequence(a, b[..|b| - 1])
  }

  /** Appending the same element to both sides keeps a subsequence. */
  lemma SubsequenceSnocBoth<T>(a: seq<T>, b: seq<T>, x: T)
    requires IsSubsequence(a, b)
    ensures IsSubsequence(a + [x], b + [x])
  {
    assert (a + [x])[..|a|] == a;
    assert (b + [x])[..|b|] == b;
  }

  /** Appending an element to the longer side keeps a subsequence. */
  lemma SubsequenceSnocRight<T>(a: seq<T>, b: seq<T>, x: T)
    requires IsSubsequence(a, b)
    ensures IsSubsequence(a, b + [x])
  {
    assert (b + [x])[..|b|] == b;
  }

  /** Emitted candidates keep their original order. */
  lemma {:induction false} KeptIsSubsequence(cs: seq<seq<string>>, seen: set<string>)
    requires Wide(cs)
    ensures IsSubsequence(Kept(cs, seen), cs)
    decreases |cs|
  {
    if |cs| > 0 {
      var n := |cs| - 1;
      var prefix := Kept(cs[..n], seen);
      KeptIsSubsequence(cs[..n], seen);
      assert cs == cs[..n] + [cs[n]];
      if FirstNew(cs, n, seen) {
        assert Kept(cs, seen) == prefix + [cs[n]];
        SubsequenceSnocBoth(prefix, cs[..n], cs[n]);
      } else {
        assert Kept(cs, seen) == prefix;
        SubsequenceSnocRight(prefix, cs[..n], cs[n]);
      }
    }
  }

  /** Adding one more candidate adds its fingerprint. */
  lemma KeySetSnoc(cs: seq<seq<string>>, i: nat)
    requires Wide(cs) && i < |cs|
    ensures Wide(cs[..i]) && Wide(cs[..i + 1])
    ensures KeySet(cs[..i + 1]) == KeySet(cs[..i]) + {MinimalRepresentation(cs[i])}
  {
    var a, b := cs[..i], cs[..i + 1];
    assert forall j :: 0 <= j < i ==> b[j] == a[j];
    assert b[i] == cs[i];
  }

  lemma KeySetAppend(a: seq<seq<string>>, b: seq<seq<string>>)
    requires Wide(a) && Wide(b)
    ensures Wide(a + b)
    ensures KeySet(a + b) == KeySet(a) + KeySet(b)
  {
    var c := a + b;
    forall x | x in KeySet(c) ensures x in KeySet(a) + KeySet(b) {
      var j :| 0 <= j < |c| && MinimalRepresentation(c[j]) == x;
      if j >= |a| {
        assert c[j] == b[j - |a|];
      }
    }
    forall x | x in KeySet(a) ensures x in KeySet(c) {
      var j :| 0 <= j < |a| && MinimalRepresentation(a[j]) == x;
      assert c[j] == a[j];
    }
    forall x | x in KeySet(b) ensures x in KeySet(c) {
      var j :| 0 <= j < |b| && MinimalRepresentation(b[j]) == x;
      assert c[j + |a|] == b[j];
    }
  }

  /**
   * One step of the set-based loop: the next candidate is emitted exactly
   * when its fingerprint is not in the set grown so far.
   */
  lemma KeptStep(cs: seq<seq<string>>, seen: set<string>, i: nat)
    requires Wide(cs) && i < |cs|
    ensures Wide(cs[..i]) && Wide(cs[..i + 1])
    ensures Kept(cs[..i + 1], seen)
            == Kept(cs[..i], seen)
               + if MinimalRepresentation(cs[i]) !in seen + KeySet(cs[..i]) then [cs[i]] else []
  {
    var b := cs[..i + 1];
    assert b[..i] == cs[..i];
    assert b[i] == cs[i];
    assert forall j :: 0 <= j < i ==> b[j] == cs[j];
    assert FirstNew(b, i, seen) <==> MinimalRepresentation(cs[i]) !in seen + KeySet(cs[..i]) by {
      var k := MinimalRepresentation(cs[i]);
      if k in KeySet(cs[..i]) {
        var j :| 0 <= j < i && MinimalRepresentation(cs[..i][j]) == k;
        assert MinimalRepresentation(b[j]) == MinimalRepresentation(b[i]);
      }
      if !FirstNew(b, i, seen) && k !in seen {
        var j :| 0 <= j < i && MinimalRepresentation(b[j]) == MinimalRepresentation(b[i]);
        assert cs[..i][j] == b[j];
      }
    }
  }

  /** The fingerprints emitted are exactly those of the candidates that were not seen before. */
  lemma {:induction false} KeptKeySet(cs: seq<seq<string>>, seen: set<string>)
    requires Wide(cs)
    ensures Wide(Kept(cs, seen))
    ensures KeySet(Kept(cs, seen)) == KeySet(cs) - seen
    decreases |cs|
  {
    KeptWide(cs, seen);
    if |cs| > 0 {
      var n := |cs| - 1;
      var prefix := Kept(cs[..n], seen);
      KeptKeySet(cs[..n], seen);
      KeptStep(cs, seen, n);
      assert cs[..n + 1] == cs;
      KeySetSnoc(cs, n);
      var k := MinimalRepresentation(cs[n]);
      if k !in seen + KeySet(cs[..n]) {
        KeptWide(cs[..n], seen);
        KeySetAppend(prefix, [cs[n]]);
        assert KeySet([cs[n]]) == {k} by { assert [cs[n]][0] == cs[n]; }
      } else {
        assert Kept(cs, seen) == prefix;
        assert KeySet(cs) - seen == KeySet(cs[..n]) - seen;
      }
    }
  }

  /** No emitted fingerprint was already in the set. */
  lemma KeptUnseen(cs: seq<seq<string>>, seen: set<string>)
    requires Wide(cs)
    ensures Wide(Kept(cs, seen))
    ensures forall i :: 0 <= i < |Kept(cs, seen)| ==> MinimalRepresentation(Kept(cs, seen)[i]) !in seen
  {
    KeptKeySet(cs, seen);
    var r := Kept(cs, seen);
    forall i | 0 <= i < |r| ensures MinimalRepresentation(r[i]) !in seen {
      assert MinimalRepresentation(r[i]) in KeySet(r);
    }
  }

  /** No two emitted candidates share a fingerprint. */
  lemma {:induction false} KeptDistinct(cs: seq<seq<string>>, seen: set<string>)
    requires Wide(cs)
    ensures Wide(Kept(cs, seen))
    ensures forall i, j :: 0 <= i < j < |Kept(cs, seen)| ==>
              MinimalRepresentation(Kept(cs, seen)[i]) != MinimalRepresentation(Kept(cs, seen)[j])
    decreases |cs|
  {
    KeptWide(cs, seen);
    if |cs| > 0 {
      var n := |cs| - 1;
      var prefix := Kept(cs[..n], seen);
      KeptDistinct(cs[..n], seen);
      KeptKeySet(cs[..n], seen);
      KeptStep(cs, seen, n);
      assert cs[..n + 1] == cs;
      var k := MinimalRepresentation(cs[n]);
      if k !in seen + KeySet(cs[..n]) {
        var r := prefix + [cs[n]];
        forall i | 0 <= i < |prefix| ensures MinimalRepresentation(prefix[i]) != k {
          assert MinimalRepresentation(prefix[i]) in KeySet(prefix);
        }
        forall i, j | 0 <= i < j < |r| ensures MinimalRepresentation(r[i]) != MinimalRepresentation(r[j]) {
          assert r[i] == prefix[i];
          if j < |prefix| {
            assert r[j] == prefix[j];
          }
        }
      }
    }
  }

  /** The caller-owned set of fingerprints already written for the current file. */
  class SeenVariants {
    var keys: set<string>

    /** A fresh, empty set, as made for each file. */
    constructor ()
      ensures keys == {}
    {
      keys := {};
    }
  }

  /** `'\t'.join` of each candidate. */
  function JoinAll(cs: seq<seq<string>>): (r: seq<string>)
    ensures |r| == |cs|
    ensures forall i :: 0 <= i < |cs| ==> r[i] == Join(TAB, cs[i])
  {
    seq(|cs|, i requires 0 <= i < |cs| => Join(TAB, cs[i]))
  }

  /**
   * One iteration of transform_line: from the output and set after `i`
   * candidates, emitting candidate `i` exactly when its fingerprint is not in
   * the set gives the output and set after `i + 1`.
   */
  lemma TransformStep(t: seq<seq<string>>, seen: set<string>, i: nat,
                      outputLines: seq<string>, keys: set<string>)
    requires Wide(t) && i < |t|
    requires Wide(t[..i])
    requires outputLines == JoinAll(Kept(t[..i], seen))
    requires keys == seen + KeySet(t[..i])
    ensures Wide(t[..i + 1])
    ensures var k := MinimalRepresentation(t[i]);
            if k !in keys then
              outputLines + [Join(TAB, t[i])] == JoinAll(Kept(t[..i + 1], seen))
              && keys + {k} == seen + KeySet(t[..i + 1])
            else
              outputLines == JoinAll(Kept(t[..i + 1], seen))
              && keys == seen + KeySet(t[..i + 1])
  {
    KeptStep(t, seen, i);
    KeySetSnoc(t, i);
    var k := MinimalRepresentation(t[i]);
    var p := Kept(t[..i], seen);
    if k !in keys {
      assert JoinAll(p + [t[i]]) == JoinAll(p) + [Join(TAB, t[i])];
    }
  }

  /**
   * transform_line: split the record, trim each candidate, and write the
   * candidates whose fingerprint the set does not yet hold, adding every
   * fingerprint to the set.
   */
  method TransformLine(inputLine: string, alreadyTransformed: SeenVariants)
    returns (outputLines: seq<string>)
    requires |Split(TAB, inputLine)| >= 11
    modifies alreadyTransformed
    ensures |outputLines| <= |Candidates(Split(TAB, inputLine))| <= 2
    ensures var t := TrimmedAll(Candidates(Split(TAB, inputLine)));
            Wide(t)
            && outputLines == JoinAll(Kept(t, old(alreadyTransformed.keys)))
            && alreadyTransformed.keys == old(alreadyTransformed.keys) + KeySet(t)
  {
    outputLines := [];
    var replacementLines := SplitVariants(inputLine);
    ghost var seen := alreadyTransformed.keys;
    ghost var t := TrimmedAll(replacementLines);
    var i := 0;
    while i < |replacementLines|
      invariant 0 <= i <= |replacementLines|
      invariant Wide(t[..i])
      invariant outputLines == JoinAll(Kept(t[..i], seen))
      invariant alreadyTransformed.keys == seen + KeySet(t[..i])
    {
      var v := replacementLines[i];
      var r, a := RemovePrefix(v[REF], v[ALT1]);
      v := v[REF := r][ALT1 := a];
      assert v == t[i];
      TransformStep(t, seen, i, outputLines, alreadyTransformed.keys);
      var varRep := MinimalRepresentation(v);
      if varRep !in alreadyTransformed.keys {
        alreadyTransformed.keys := alreadyTransformed.keys + {varRep};
        outputLines := outputLines + [Join(TAB, v)];
      }
      i := i + 1;
    }
    assert t[..i] == t;
  }

  /** Trimming only shortens ref and alt, so a tab-free candidate stays tab-free. */
  lemma TrimmedNoTab(cs: seq<seq<string>>)
    requires Wide(cs)
    requires forall i :: 0 <= i < |cs| ==> NoSeparator(TAB, cs[i])
    ensures forall i :: 0 <= i < |cs| ==> NoSeparator(TAB, TrimmedAll(cs)[i])
  {
    var t := TrimmedAll(cs);
    forall i, k | 0 <= i < |cs| && 0 <= k < |t[i]| ensures TAB !in t[i][k] {
      var c := cs[i];
      if k == REF || k == ALT1 {
        var n := |c[REF]| - |t[i][REF]|;
        assert TAB !in c[REF] && TAB !in c[ALT1];
        assert t[i][REF] == c[REF][n..] && t[i][ALT1] == c[ALT1][n..];
      } else {
        assert t[i][k] == c[k];
      }
    }
  }

  /**
   * Each written line is the tab-join of its candidate, which is tab-free
   * and has at least 12 fields.
   */
  ghost predicate Shaped(emitted: seq<seq<string>>, lines: seq<string>)
  {
    |lines| == |emitted|
    && forall i :: 0 <= i < |emitted| ==>
         |emitted[i]| >= 12 && NoSeparator(TAB, emitted[i]) && lines[i] == Join(TAB, emitted[i])
  }

  /** No two candidates share a fingerprint. */
  ghost predicate DistinctKeys(cs: seq<seq<string>>)
    requires Wide(cs)
  {
    forall i, j :: 0 <= i < j < |cs| ==> MinimalRepresentation(cs[i]) != MinimalRepresentation(cs[j])
  }

  /**
   * What holds of a file's output so far: the lines are shaped, no two share
   * a fingerprint, and the set holds exactly their fingerprints.
   */
  ghost predicate FileInvariant(emitted: seq<seq<string>>, lines: seq<string>, keys: set<string>)
  {
    Wide(emitted) && Shaped(emitted, lines) && DistinctKeys(emitted) && keys == KeySet(emitted)
  }

  /** What transform_line keeps of a tab-free record are tab-free candidates of at least 12 fields. */
  lemma KeptShape(fields: seq<string>, seen: set<string>)
    requires |fields| >= 11 && NoSeparator(TAB, fields)
    ensures var kept := Kept(TrimmedAll(Candidates(fields)), seen);
            Shaped(kept, JoinAll(kept))
  {
    var t := TrimmedAll(Candidates(fields));
    var kept := Kept(t, seen);
    CandidatesNoTab(fields);
    TrimmedNoTab(Candidates(fields));
    KeptMembers(t, seen);
    forall i | 0 <= i < |kept| ensures |kept[i]| >= 12 && NoSeparator(TAB, kept[i]) {
      var j :| 0 <= j < |t| && t[j] == kept[i];
    }
  }

  lemma AppendShaped(e1: seq<seq<string>>, l1: seq<string>, e2: seq<seq<string>>, l2: seq<string>)
    requires Shaped(e1, l1) && Shaped(e2, l2)
    ensures Shaped(e1 + e2, l1 + l2)
  {
    var e, l := e1 + e2, l1 + l2;
    forall i | |e1| <= i < |e| ensures e[i] == e2[i - |e1|] && l[i] == l2[i - |e1|] {
    }
  }

  lemma AppendDistinct(e1: seq<seq<string>>, e2: seq<seq<string>>)
    requires Wide(e1) && Wide(e2) && DistinctKeys(e1) && DistinctKeys(e2)
    requires forall i :: 0 <= i < |e2| ==> MinimalRepresentation(e2[i]) !in KeySet(e1)
    ensures Wide(e1 + e2) && DistinctKeys(e1 + e2)
  {
    var e := e1 + e2;
    forall i, j | 0 <= i < j < |e| ensures MinimalRepresentation(e[i]) != MinimalRepresentation(e[j]) {
      if j >= |e1| && i < |e1| {
        assert MinimalRepresentation(e1[i]) in KeySet(e1);
        assert e[i] == e1[i] && e[j] == e2[j - |e1|];
      } else if i >= |e1| {
        assert e[i] == e2[i - |e1|] && e[j] == e2[j - |e1|];
      } else {
        assert e[i] == e1[i] && e[j] == e1[j];
      }
    }
  }

  /** Appending what transform_line writes for one more record keeps the invariant. */
  lemma FileStep(emitted: seq<seq<string>>, lines: seq<string>, seen: set<string>,
                 fields: seq<string>, outputLines: seq<string>)
    requires FileInvariant(emitted, lines, seen)
    requires |fields| >= 11 && NoSeparator(TAB, fields)
    requires outputLines == JoinAll(Kept(TrimmedAll(Candidates(fields)), seen))
    ensures var t := TrimmedAll(Candidates(fields));
            FileInvariant(emitted + Kept(t, seen), lines + outputLines, seen + KeySet(t))
  {
    var t := TrimmedAll(Candidates(fields));
    var kept := Kept(t, seen);
    KeptWide(t, seen);
    assert Shaped(emitted + kept, lines + outputLines) by {
      KeptShape(fields, seen);
      AppendShaped(emitted, lines, kept, outputLines);
    }
    assert Wide(emitted + kept) && DistinctKeys(emitted + kept) by {
      KeptUnseen(t, seen);
      KeptDistinct(t, seen);
      AppendDistinct(emitted, kept);
    }
    assert seen + KeySet(t) == KeySet(emitted + kept) by {
      KeptKeySet(t, seen);
      KeySetAppend(emitted, kept);
    }
  }

  /**
   * The per-file loop: a fresh set, then transform_line on every input line
   * in order, writing what it returns. Reading a line back with split('\t')
   * gives a candidate, and no two lines written for one file share a
   * fingerprint.
   */
  method TransformRecords(inputLines: seq<string>) returns (lines: seq<string>)
    requires forall k :: 0 <= k < |inputLines| ==> |Split(TAB, inputLines[k])| >= 11
    ensures |lines| <= 2 * |inputLines|
    ensures forall i :: 0 <= i < |lines| ==> |Split(TAB, lines[i])| >= 12
    ensures forall i, j :: 0 <= i < j < |lines| ==>
              MinimalRepresentation(Split(TAB, lines[i])) != MinimalRepresentation(Split(TAB, lines[j]))
  {
    var transformedVariants := new SeenVariants();
    lines := [];
    ghost var emitted: seq<seq<string>> := [];
    var k := 0;
    while k < |inputLines|
      invariant 0 <= k <= |inputLines|
      invariant |lines| <= 2 * k
      invariant FileInvariant(emitted, lines, transformedVariants.keys)
    {
      ghost var seen := transformedVariants.keys;
      var outputLines := TransformLine(inputLines[k], transformedVariants);
      ghost var fields := Split(TAB, inputLines[k]);
      SplitNoSeparator(TAB, inputLines[k]);
      FileStep(emitted, lines, seen, fields, outputLines);
      emitted := emitted + Kept(TrimmedAll(Candidates(fields)), seen);
      lines := lines + outputLines;
      k := k + 1;
    }
    forall i | 0 <= i < |lines| ensures Split(TAB, lines[i]) == emitted[i] {
      SplitJoin(TAB, emitted[i]);
    }
  }
}
