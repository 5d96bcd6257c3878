/**
 * Common-prefix trimming of a reference and an alternate allele
 * (`remove_prefix` in TCGA_MAF_to_TOM_SCHEMA.py).
 */
module PrefixTrim {

  /** The length of the longest common leading run of `x` and `y`. */
  function CommonPrefixLength(x: string, y: string): (k: nat)
    ensures k <= |x| && k <= |y|
    ensures x[..k] == y[..k]
    ensures k == |x| || k == |y| || x[k] != y[k]
  {
    if |x| > 0 && |y| > 0 && x[0] == y[0] then
      var k := 1 + CommonPrefixLength(x[1..], y[1..]);
      assert x[..k] == [x[0]] + x[1..][..k - 1];
      assert y[..k] == [y[0]] + y[1..][..k - 1];
      k
    else 0
  }

  /** Any common prefix that cannot be extended is the longest one. */
  lemma {:induction false} CommonPrefixUnique(x: string, y: string, k: nat)
    requires k <= |x| && k <= |y|
    requires x[..k] == y[..k]
    requires k == |x| || k == |y| || x[k] != y[k]
    ensures k == CommonPrefixLength(x, y)
  {
    if k > 0 {
      assert x[0] == x[..k][0] && y[0] == y[..k][0];
      assert x[1..][..k - 1] == x[..k][1..];
      assert y[1..][..k - 1] == y[..k][1..];
      CommonPrefixUnique(x[1..], y[1..], k - 1);
    }
  }

  /**
   * The alleles with their longest common prefix removed: both lose the same
   * number of leading characters, what they lose is shared, and afterwards
   * one of them is empty or their first characters differ.
   */
  function TrimPrefix(ref: string, alt: string): (r: (string, string))
    ensures |ref| - |r.0| == |alt| - |r.1| >= 0
    ensures var k := |ref| - |r.0|;
            ref[..k] == alt[..k] && r.0 == ref[k..] && r.1 == alt[k..]
    ensures r.0 == [] || r.1 == [] || r.0[0] != r.1[0]
  {
    var k := CommonPrefixLength(ref, alt);
    (ref[k..], alt[k..])
  }

  /** Trimming an already trimmed pair changes nothing. */
  lemma TrimIdempotent(ref: string, alt: string)
    ensures var t := TrimPrefix(ref, alt);
            TrimPrefix(t.0, t.1) == t
  {
    var t := TrimPrefix(ref, alt);
    CommonPrefixUnique(t.0, t.1, 0);
  }

  /**
   * remove_prefix: advance `idx` while both alleles agree there, then drop
   * the first `idx` characters of each.
   */
  method RemovePrefix(ref: string, alt: string) returns (r: string, a: string)
    ensures (r, a) == TrimPrefix(ref, alt)
  {
    var idx := 0;
    while idx < |ref| && idx < |alt| && ref[idx] == alt[idx]
      invariant idx <= |ref| && idx <= |alt|
      invariant ref[..idx] == alt[..idx]
    {
      assert ref[..idx + 1] == ref[..idx] + [ref[idx]];
      assert alt[..idx + 1] == alt[..idx] + [alt[idx]];
      idx := idx + 1;
    }
    CommonPrefixUnique(ref, alt, idx);
    r, a := ref[idx..], alt[idx..];
  }
}
