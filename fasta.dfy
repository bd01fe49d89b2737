/** Records as Biopython's FASTA reader yields them. */
module Fasta {
  import opened Alignments

  /** `record.id` (the first word of the header), `record.description` (the
      whole header line) and `str(record.seq)`. */
  datatype FastaRecord = FastaRecord(id: string, description: string, sequence: string)

  /** `description.split()[1]`, or "" where that raises IndexError. */
  function NameOf(r: FastaRecord): string {
    AlleleId(r.description)
  }

  /** Every description has a second word. */
  predicate AllNamed(records: seq<FastaRecord>) {
    forall i :: 0 <= i < |records| ==> HasAlleleId(records[i].description)
  }
}
