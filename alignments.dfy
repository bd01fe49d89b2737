/** The aligned FASTA records that make_pseudosequences.py reads, and the
    ways its run can fail. */
module Alignments {
  import opened Strings

  datatype Kind = Alpha | Beta

  /** One record of an aligned FASTA file: the full description line (the
      table's index), the gapped sequence, and which file it came from. */
  datatype AlignedRecord = AlignedRecord(description: string, aligned: string, kind: Kind)

  /** Why a run stops with an exception. */
  datatype Failure =
    | UnequalAlignedLengths(kind: Kind)        // `(length,) = ...unique()` does not unpack
    | IntegrityViolation(accession: string, chain: string, index: nat)
    | UnknownCutoff(cutoff: real)             // `positional_df[cutoff]` has no such column
    | EmptySelection(criterion: nat, kind: Kind) // `operator.itemgetter()` with no positions
    | DuplicateAlleleId(id: string)           // the final `value_counts().max() == 1` assert
    | NoAlleleIds                             // the same assert when no record has an identifier

  /** Records of PDB chains have a description starting with "pdb". */
  predicate IsPdb(r: AlignedRecord) {
    "pdb" <= r.description
  }

  /** The reference panel of one kind: the non-PDB aligned sequences, in input order. */
  function Panel(records: seq<AlignedRecord>, kind: Kind): (panel: seq<string>)
    ensures forall a :: a in panel <==> exists r :: r in records && !IsPdb(r) && r.kind == kind && r.aligned == a
  {
    if records == [] then []
    else
      var r := records[0];
      assert forall x :: x in records <==> x == r || x in records[1..];
      (if !IsPdb(r) && r.kind == kind then [r.aligned] else []) + Panel(records[1..], kind)
  }

  /** The non-PDB records, in input order (`non_pdb_aligned_df`). */
  function NonPdb(records: seq<AlignedRecord>): (rs: seq<AlignedRecord>)
    ensures forall r :: r in rs <==> r in records && !IsPdb(r)
  {
    if records == [] then []
    else
      assert forall x :: x in records <==> x == records[0] || x in records[1..];
      (if !IsPdb(records[0]) then [records[0]] else []) + NonPdb(records[1..])
  }

  /** `index.str.split().str.get(1)`: the allele identifier, when the
      description has a second word. */
  function AlleleId(description: string): string {
    var words := SplitWhitespace(description);
    if |words| >= 2 then words[1] else ""
  }

  predicate HasAlleleId(description: string) {
    |SplitWhitespace(description)| >= 2
  }
}
