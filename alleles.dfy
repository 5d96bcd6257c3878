/**
 * Allele splitting (`split_variants` in TCGA_MAF_to_TOM_SCHEMA.py): one
 * record with a reference allele (field 8) and two alternate calls (fields 9
 * and 10) becomes zero, one or two single-allele candidates, each carrying two
 * support flags `al1`, `al2` inserted after its alt column.
 */
module Alleles {
  import opened Text

  /** Column positions of a record. */
  const REF: nat := 8
  const ALT1: nat := 9
  const ALT2: nat := 10

  /** A support flag as the output writes it. */
  function Flag(b: bool): string
  {
    if b then "1" else "0"
  }

  /**
   * The candidate for allele `alt`: the first nine fields, `alt`, the flags
   * saying whether the first and the second alt call name `alt`, and then
   * the trailing fields.
   */
  function Candidate(fields: seq<string>, alt: string): (c: seq<string>)
    requires |fields| >= 11
    ensures |c| == |fields| + 1
    ensures c[..9] == fields[..9] && c[12..] == fields[11..]
  {
    fields[..9] + [alt, Flag(alt == fields[ALT1]), Flag(alt == fields[ALT2])] + fields[11..]
  }

  /**
   * Reference definition of the split, built from both flags at once: one
   * candidate per distinct alt call that differs from the reference, the
   * first call's allele first.
   */
  function Candidates(fields: seq<string>): (cs: seq<seq<string>>)
    requires |fields| >= 11
    ensures |cs| <= 2
    ensures forall i :: 0 <= i < |cs| ==> |cs[i]| == |fields| + 1
  {
    var ref, alt1, alt2 := fields[REF], fields[ALT1], fields[ALT2];
    (if alt1 != ref then [Candidate(fields, alt1)] else [])
    + (if alt2 != ref && alt2 != alt1 then [Candidate(fields, alt2)] else [])
  }

  /**
   * split_variants: split the line at tabs, append the alt1 candidate with flags 1,0; then for alt2
   * either set the second flag of the first candidate (alt2 repeats alt1) or
   * append the alt2 candidate with flags 0,1. The patch always finds a first
   * candidate: alt2 == alt1 and alt2 != ref give alt1 != ref.
   */
  method SplitVariants(inputLine: string) returns (output: seq<seq<string>>)
    requires |Split(TAB, inputLine)| >= 11
    ensures output == Candidates(Split(TAB, inputLine))
  {
    var fields := Split(TAB, inputLine);
    output := [];
    var trailingFields := fields[11..];
    if fields[REF] != fields[ALT1] {
      output := output + [fields[0..10] + ["1", "0"] + trailingFields];
      assert output[0] == fields[..9] + [fields[ALT1], "1", "0"] + fields[11..] by {
        assert fields[0..10] == fields[..9] + [fields[ALT1]];
      }
    }
    if fields[REF] != fields[ALT2] {
      if fields[ALT1] == fields[ALT2] {
        output := output[0 := output[0][11 := "1"]];
        assert output[0] == Candidate(fields, fields[ALT1]);
      } else {
        output := output + [fields[0..9] + [fields[ALT2], "0", "1"] + trailingFields];
        assert output[|output| - 1] == Candidate(fields, fields[ALT2]);
      }
    }
  }

  /** All three alleles equal: no candidate. */
  lemma SplitAllEqual(fields: seq<string>)
    requires |fields| >= 11
    requires fields[REF] == fields[ALT1] == fields[ALT2]
    ensures Candidates(fields) == []
  {
  }

  /** Both alt calls agree and differ from the reference: one candidate, both flags set. */
  lemma SplitRepeatedAlt(fields: seq<string>)
    requires |fields| >= 11
    requires fields[ALT1] == fields[ALT2] != fields[REF]
    ensures var c := Candidates(fields);
            |c| == 1 && c[0][9] == fields[ALT1] && c[0][10] == "1" && c[0][11] == "1"
  {
  }

  /** Three distinct alleles: two candidates, alt1's with flags 1,0 then alt2's with 0,1. */
  lemma SplitDistinct(fields: seq<string>)
    requires |fields| >= 11
    requires fields[REF] != fields[ALT1] && fields[REF] != fields[ALT2] && fields[ALT1] != fields[ALT2]
    ensures var c := Candidates(fields);
            |c| == 2
            && c[0][9] == fields[ALT1] && c[0][10] == "1" && c[0][11] == "0"
            && c[1][9] == fields[ALT2] && c[1][10] == "0" && c[1][11] == "1"
  {
  }

  /** Only the second call differs from the reference: its candidate alone, flags 0,1. */
  lemma SplitSecondOnly(fields: seq<string>)
    requires |fields| >= 11
    requires fields[REF] == fields[ALT1] != fields[ALT2]
    ensures var c := Candidates(fields);
            |c| == 1 && c[0][9] == fields[ALT2] && c[0][10] == "0" && c[0][11] == "1"
  {
  }

  /** Only the first call differs from the reference: its candidate alone, flags 1,0. */
  lemma SplitFirstOnly(fields: seq<string>)
    requires |fields| >= 11
    requires fields[REF] == fields[ALT2] != fields[ALT1]
    ensures var c := Candidates(fields);
            |c| == 1 && c[0][9] == fields[ALT1] && c[0][10] == "1" && c[0][11] == "0"
  {
  }

  /**
   * Every candidate has one more field than the record, agrees with it on
   * fields 0-8 and on the trailing fields (shifted by one), carries an alt
   * that differs from the reference, and its flags say exactly which alt
   * calls name that alt. There are at most two, with distinct alts.
   */
  lemma CandidateShape(fields: seq<string>)
    requires |fields| >= 11
    ensures var c := Candidates(fields);
            |c| <= 2
            && (|c| == 2 ==> c[0][9] != c[1][9])
            && forall i :: 0 <= i < |c| ==>
                 |c[i]| == |fields| + 1
                 && c[i][..9] == fields[..9]
                 && c[i][12..] == fields[11..]
                 && c[i][9] != fields[REF]
                 && (c[i][9] == fields[ALT1] || c[i][9] == fields[ALT2])
                 && c[i][10] == Flag(c[i][9] == fields[ALT1])
                 && c[i][11] == Flag(c[i][9] == fields[ALT2])
  {
  }

  /** A record whose fields hold no tab yields candidates whose fields hold none. */
  lemma CandidatesNoTab(fields: seq<string>)
    requires |fields| >= 11
    requires NoSeparator(TAB, fields)
    ensures forall i :: 0 <= i < |Candidates(fields)| ==> NoSeparator(TAB, Candidates(fields)[i])
  {
    var c := Candidates(fields);
    forall i | 0 <= i < |c| ensures NoSeparator(TAB, c[i]) {
      forall k | 0 <= k < |c[i]| ensures TAB !in c[i][k] {
        if k < 9 {
          assert c[i][k] == c[i][..9][k] == fields[k];
        } else if k >= 12 {
          assert c[i][k] == c[i][12..][k - 12] == fields[k - 1];
        }
      }
    }
  }
}
