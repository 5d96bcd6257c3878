# Variant normalisation of TCGA_MAF_to_TOM_SCHEMA.py, in Dafny

This project models the per-line variant normalisation of the TCGA MAF to TOM
schema converter. It also proves what that normalisation guarantees. A record
is one tab-separated line with at least 11 fields:

- field 8 is the reference allele;
- fields 9 and 10 are the two alternate allele calls.

Each line goes through four steps:

- **Allele splitting** (`split_variants`). The line becomes zero, one or two
  single-allele candidates. Each candidate gets two support flags after its
  alt column.
- **Common-prefix trimming** (`remove_prefix`). The leading characters that
  ref and alt share are removed.
- **Fingerprinting** (`minimal_representation_of_variant`). Chrom, start, ref
  and alt are joined with tabs.
- **Per-file deduplication** (`transform_line`). A set owned by the caller
  holds the fingerprints already written. A candidate is written only if its
  fingerprint is new.

The project also models the search helper `find_nth_occurrence_in_string`.

Modules:

- `Text` — the tab separator, Python's `'\t'.join` (`Join`) and
  `str.split('\t')` (`Split`), and the round trip between them.
- `Search` — `str.find` (`FindFrom`) and `find_nth_occurrence_in_string`
  (`FindNthOccurrence`). The method is proved against the reference function
  `Nth`.
- `PrefixTrim` — `remove_prefix` as the loop `RemovePrefix`, proved equal to
  the reference `TrimPrefix`.
- `Alleles` — `split_variants` as the method `SplitVariants`. It appends and
  then patches the first candidate in place. It is proved equal to
  `Candidates`, which builds each candidate with flags computed directly.
- `Dedup`:
  - `MinimalRepresentation`, the fingerprint.
  - The class `SeenVariants`, holding the caller's set.
  - `TransformLine`, which updates that set. It is proved against the
    reference `Kept`: the trimmed candidates that are new, in original
    order.
  - `TransformRecords`, the per-file loop.

## Model

| member | source | states |
|---|---|---|
| Text.Join | TCGA_MAF_to_TOM_SCHEMA.py:36 | `'\t'.join`: the parts with one tab between neighbours; pinned down by `SplitJoin` and `JoinSplit` |
| Text.JoinSplit | TCGA_MAF_to_TOM_SCHEMA.py:40 | joining the pieces of a split at tabs gives the line back: splitting loses no character |
| Text.SplitJoin | TCGA_MAF_to_TOM_SCHEMA.py:96 | splitting the tab-join of tab-free fields gives back exactly those fields |
| Text.SplitNoSeparator | TCGA_MAF_to_TOM_SCHEMA.py:40 | no field produced by splitting a line at tabs contains a tab |
| Text.Split | TCGA_MAF_to_TOM_SCHEMA.py:40 | splitting any line yields at least one field, as `str.split` does |
| Search.FindFrom | TCGA_MAF_to_TOM_SCHEMA.py:66-68 | `str.find(what, start)`, -1 when nothing is found, also for a start past the end; pinned down by `FindFromFound` and `FindFromFirst` |
| Search.NthFrom | TCGA_MAF_to_TOM_SCHEMA.py:67-69 | the while loop as recursion: while the position is a hit and more than one occurrence is left to count, search again just past the hit; described by `NthFromFinds` and `NthFromSuccessor` |
| Search.Nth | TCGA_MAF_to_TOM_SCHEMA.py:65-70 | the loop started at the first occurrence; `FindNthOccurrence` returns it, and `NthNext` and `NthNonOverlapping` say which occurrence it is |
| Search.FindFromFound | TCGA_MAF_to_TOM_SCHEMA.py:66 | `find` from a position returns -1 or a position at or after it where the needle occurs |
| Search.FindFromFirst | TCGA_MAF_to_TOM_SCHEMA.py:66 | no occurrence lies between the start position and what `find` returns, and none at all after the start when it returns -1 |
| Search.NthFromFinds | TCGA_MAF_to_TOM_SCHEMA.py:67-69 | once started at an occurrence (or -1), the stepping loop ends at an occurrence no earlier than its start, or at -1 |
| Search.FindNthOccurrence | TCGA_MAF_to_TOM_SCHEMA.py:65-70 | the loop terminates; it returns `Nth(in_str, what, n_th)`, which is -1 or an index where `what` occurs; for `n_th <= 1` it is the first occurrence |
| Search.NthFromSuccessor | TCGA_MAF_to_TOM_SCHEMA.py:67-69 | one more step of the loop searches just past the current hit, and a failed search stays failed |
| Search.NthNext | TCGA_MAF_to_TOM_SCHEMA.py:65-70 | if the (n+1)-th occurrence is found, so is the n-th, and the (n+1)-th is the first occurrence at or after the end of the n-th |
| Search.NthNonOverlapping | TCGA_MAF_to_TOM_SCHEMA.py:65-70 | successive occurrences do not overlap, and the needle occurs nowhere between the end of one and the start of the next |
| Search.NthOfEmptyNeedle | TCGA_MAF_to_TOM_SCHEMA.py:65-70 | with an empty needle every count returns 0: the search never advances |
| PrefixTrim.CommonPrefixLength | TCGA_MAF_to_TOM_SCHEMA.py:60-61 | the length reached is within both strings, both agree up to it, and it cannot be extended |
| PrefixTrim.CommonPrefixUnique | TCGA_MAF_to_TOM_SCHEMA.py:60-61 | any common prefix that cannot be extended has exactly that length |
| PrefixTrim.TrimPrefix | TCGA_MAF_to_TOM_SCHEMA.py:58-62 | both alleles lose the same number of leading characters; what they lose is shared; afterwards one is empty or their first characters differ |
| PrefixTrim.TrimIdempotent | TCGA_MAF_to_TOM_SCHEMA.py:58-62 | trimming an already trimmed pair returns it unchanged |
| PrefixTrim.RemovePrefix | TCGA_MAF_to_TOM_SCHEMA.py:58-62 | the loop returns exactly the maximal-common-prefix trim `TrimPrefix(ref, alt)` |
| Alleles.Candidate | TCGA_MAF_to_TOM_SCHEMA.py:42-54 | a candidate has one field more than the record, keeps fields 0-8, and keeps the trailing fields shifted by one |
| Alleles.Candidates | TCGA_MAF_to_TOM_SCHEMA.py:43-54 | at most two candidates, each with one field more than the record |
| Alleles.SplitVariants | TCGA_MAF_to_TOM_SCHEMA.py:39-55 | the append-and-patch procedure yields exactly `Candidates` of the split line; the patch of the first candidate always finds one |
| Alleles.SplitAllEqual | TCGA_MAF_to_TOM_SCHEMA.py:43-55 | ref, alt1 and alt2 all equal: no candidate |
| Alleles.SplitRepeatedAlt | TCGA_MAF_to_TOM_SCHEMA.py:43-50 | alt1 == alt2 != ref: exactly one candidate, with alt alt1 and both flags "1" |
| Alleles.SplitDistinct | TCGA_MAF_to_TOM_SCHEMA.py:43-54 | three distinct alleles: two candidates in that order, alt1 with flags 1,0 then alt2 with flags 0,1 |
| Alleles.SplitSecondOnly | TCGA_MAF_to_TOM_SCHEMA.py:43-54 | ref == alt1 != alt2: only the alt2 candidate, with flags 0,1 |
| Alleles.SplitFirstOnly | TCGA_MAF_to_TOM_SCHEMA.py:43-55 | ref == alt2 != alt1: only the alt1 candidate, with flags 1,0 |
| Alleles.CandidateShape | TCGA_MAF_to_TOM_SCHEMA.py:42-54 | every candidate has the record's fields 0-8 and trailing fields; its alt differs from ref and is one of the calls; its flags say exactly which calls name it; the two candidates have distinct alts |
| Alleles.CandidatesNoTab | TCGA_MAF_to_TOM_SCHEMA.py:42-54 | candidates of a tab-free record are tab-free |
| Dedup.MinimalRepresentation | TCGA_MAF_to_TOM_SCHEMA.py:34-36 | the fingerprint: fields 0, 1, 8 and 9 joined with tabs; `RepresentationIdentifies` states what it identifies |
| Dedup.RepresentationIdentifies | TCGA_MAF_to_TOM_SCHEMA.py:34-36 | for tab-free key fields, two fingerprints are equal if and only if chrom, start, ref and alt all agree |
| Dedup.TrimCandidate | TCGA_MAF_to_TOM_SCHEMA.py:89 | trimming a candidate replaces ref and alt by their trimmed pair and keeps every other field, start and stop included |
| Dedup.Kept | TCGA_MAF_to_TOM_SCHEMA.py:90-97 | no more candidates are written than there are |
| Dedup.KeptMembers | TCGA_MAF_to_TOM_SCHEMA.py:90-97 | every candidate written is one of the trimmed candidates |
| Dedup.KeptIsSubsequence | TCGA_MAF_to_TOM_SCHEMA.py:87-97 | the written candidates are a subsequence of the candidates: their order is kept |
| Dedup.KeySetSnoc | TCGA_MAF_to_TOM_SCHEMA.py:93 | one more candidate adds exactly its fingerprint to the set of fingerprints |
| Dedup.KeySetAppend | TCGA_MAF_to_TOM_SCHEMA.py:93 | the fingerprints of a concatenation are the union of the fingerprints of its parts |
| Dedup.KeptStep | TCGA_MAF_to_TOM_SCHEMA.py:91-93 | the next candidate is written exactly when its fingerprint is not in the set grown so far |
| Dedup.KeptKeySet | TCGA_MAF_to_TOM_SCHEMA.py:92-93 | the fingerprints written are exactly those of the candidates minus those already in the set |
| Dedup.KeptUnseen | TCGA_MAF_to_TOM_SCHEMA.py:92 | nothing already in the set is written again |
| Dedup.KeptDistinct | TCGA_MAF_to_TOM_SCHEMA.py:92-97 | no two written candidates share a fingerprint |
| Dedup.TransformStep | TCGA_MAF_to_TOM_SCHEMA.py:87-97 | one loop iteration takes the output and set after `i` candidates to those after `i + 1` |
| Dedup.TransformLine | TCGA_MAF_to_TOM_SCHEMA.py:83-98 | at most as many lines as candidates, so at most 2; the lines are the tab-joins of `Kept` of the trimmed candidates relative to the old set; the new set is the old set plus every candidate's fingerprint |
| Dedup.TrimmedNoTab | TCGA_MAF_to_TOM_SCHEMA.py:89 | trimming keeps tab-free candidates tab-free |
| Dedup.KeptShape | TCGA_MAF_to_TOM_SCHEMA.py:95-97 | what is written for a tab-free record are tab-free candidates of at least 12 fields |
| Dedup.AppendShaped | TCGA_MAF_to_TOM_SCHEMA.py:127-128 | appending the lines of one more record keeps every line the tab-join of its candidate |
| Dedup.AppendDistinct | TCGA_MAF_to_TOM_SCHEMA.py:127-128 | appending candidates whose fingerprints are new keeps all fingerprints distinct |
| Dedup.FileStep | TCGA_MAF_to_TOM_SCHEMA.py:123-128 | handling one more line keeps the file invariant: lines shaped, fingerprints distinct, set equal to the written fingerprints |
| Dedup.TransformRecords | TCGA_MAF_to_TOM_SCHEMA.py:123-128 | per file, starting from an empty set: at most two lines per input line; every line splits back into at least 12 fields; no two lines written for one file share a fingerprint |
| Dedup.SeenVariants.constructor | TCGA_MAF_to_TOM_SCHEMA.py:123 | a fresh set for each file is empty |

## Left out

- Command-line handling and output-directory setup (TCGA_MAF_to_TOM_SCHEMA.py:11-31). These are process and filesystem plumbing.
- The I/O of `transform_files` (TCGA_MAF_to_TOM_SCHEMA.py:101-129) is not modelled: directory listing, the `.bed` name match, copying of other files, opening, reading and writing files, and progress messages. `TransformRecords` models only the per-file loop: an empty set, then `transform_line` on each line.
- The `rstrip('\n')` of each line read. The lines given to `TransformRecords` come without their newline.
- The example strings `s1`–`s7` (TCGA_MAF_to_TOM_SCHEMA.py:73-80) are data, not logic.
- Chromosome-name filtering, 1-based to 0-based start conversion, collapsing stop for insertions, mapping "-" or "novel" to an empty allele, and failing on a file with no output are not modelled. `transform_line` (TCGA_MAF_to_TOM_SCHEMA.py:83-98) does none of them; the model follows the code.
- Lines with fewer than 11 tab-separated fields are excluded by precondition. In the code, indexing `fields[8]`, `fields[9]` or `fields[10]` (lines 43-48) raises IndexError there, and the script stops.
- `transform_line` overwrites fields 8 and 9 of each candidate list in place, and `split_variants` patches `output[0][11]` in place. The model does both on values (`v[REF := ..][ALT1 := ..]`, `output[0 := ..]`). No other code holds these lists, so no aliasing is lost.
- Dedup.TransformRecords: its ensures clause speaks of the lines as they split back into fields. It does not restate which lines are written. That is `TransformLine`'s contract, which each iteration relies on.
