/** curate_t_cell_epitopes.py: reads at most `max_epitopes` rows of the IEDB
    T-cell export, puts a `peptide` column (a copy of Description) in front,
    and keeps the rows whose peptide looks like a real peptide. */
module TCellEpitopes {
  import opened Wrappers
  import opened Collections
  import opened AminoAcids

  /** One row of the export: its Description and the other columns, which the
      script carries along untouched. */
  datatype EpitopeRow = EpitopeRow(description: string, others: seq<string>)

  /** A row after `df.insert(0, "peptide", df.Description)`. */
  datatype CuratedRow = CuratedRow(peptide: string, description: string, others: seq<string>)

  /** `read_csv(..., nrows=max_epitopes)`; `None` reads every row. */
  function ReadRows(rows: seq<EpitopeRow>, maxEpitopes: Option<nat>): (read: seq<EpitopeRow>)
    ensures read <= rows
    ensures maxEpitopes.None? ==> read == rows
    ensures maxEpitopes.Some? ==> |read| == if maxEpitopes.value < |rows| then maxEpitopes.value else |rows|
  {
    if maxEpitopes.Some? && maxEpitopes.value < |rows| then rows[..maxEpitopes.value] else rows
  }

  function InsertPeptide(r: EpitopeRow): CuratedRow {
    CuratedRow(r.description, r.description, r.others)
  }

  function WithPeptides(rows: seq<EpitopeRow>): (curated: seq<CuratedRow>)
    ensures |curated| == |rows|
    ensures forall i :: 0 <= i < |rows| ==> curated[i] == InsertPeptide(rows[i])
  {
    seq(|rows|, i requires 0 <= i < |rows| => InsertPeptide(rows[i]))
  }

  /** The mask as written: `str.match(aa_regex) & (str.len() >= 5)`. The
      length counts a trailing newline that the pattern lets through. */
  predicate KeptAsWritten(peptide: string) {
    MatchesPattern(peptide) && |peptide| >= 5
  }

  /** The evidently intended mask: at least five residues, every one a
      standard amino acid. */
  predicate ValidPeptide(peptide: string) {
    AllAminoAcids(peptide) && |peptide| >= 5
  }

  /** The script with the mask as written. */
  function CurateAsWritten(rows: seq<EpitopeRow>, maxEpitopes: Option<nat>): (kept: seq<CuratedRow>)
    ensures |kept| <= |ReadRows(rows, maxEpitopes)|
    ensures forall c :: c in kept ==> c.peptide == c.description && |c.peptide| >= 5 && MatchesPattern(c.peptide)
    ensures forall r :: r in ReadRows(rows, maxEpitopes) ==> (InsertPeptide(r) in kept <==> KeptAsWritten(r.description))
  {
    var read := ReadRows(rows, maxEpitopes);
    assert forall r :: r in read ==> InsertPeptide(r) in WithPeptides(read) by {
      forall r | r in read ensures InsertPeptide(r) in WithPeptides(read) {
        var i :| 0 <= i < |read| && read[i] == r;
        assert WithPeptides(read)[i] == InsertPeptide(r);
      }
    }
    Filter(WithPeptides(ReadRows(rows, maxEpitopes)), (c: CuratedRow) => KeptAsWritten(c.peptide))
  }

  /** The script with the intended mask. */
  function Curate(rows: seq<EpitopeRow>, maxEpitopes: Option<nat>): (kept: seq<CuratedRow>)
    ensures forall c :: c in kept ==> c in CurateAsWritten(rows, maxEpitopes) && '\n' !in c.peptide
  {
    assert forall c :: c in WithPeptides(ReadRows(rows, maxEpitopes)) ==> c.peptide == c.description by {
      var curated := WithPeptides(ReadRows(rows, maxEpitopes));
      forall c | c in curated ensures c.peptide == c.description {
        var i :| 0 <= i < |curated| && curated[i] == c;
      }
    }
    assert forall c :: c in WithPeptides(ReadRows(rows, maxEpitopes)) && ValidPeptide(c.peptide) ==> '\n' !in c.peptide by {
      forall c | c in WithPeptides(ReadRows(rows, maxEpitopes)) && ValidPeptide(c.peptide) ensures '\n' !in c.peptide {
        AminoAcidsHaveNoNewline(c.peptide);
      }
    }
    Filter(WithPeptides(ReadRows(rows, maxEpitopes)), (c: CuratedRow) => ValidPeptide(c.peptide))
  }

  // ---------------------------------------------------------------------
  // Properties

  /** A description of four residues and a newline passes the mask as
      written: the pattern matches before the newline and the length is 5. */
  lemma TrailingNewlineKept()
    ensures KeptAsWritten("AAAA\n") && !ValidPeptide("AAAA\n")
    ensures CurateAsWritten([EpitopeRow("AAAA\n", [])], None) == [CuratedRow("AAAA\n", "AAAA\n", [])]
    ensures Curate([EpitopeRow("AAAA\n", [])], None) == []
  {
    assert IsAminoAcid('A') && !IsAminoAcid('\n');
    assert "AAAA\n"[..4] == "AAAA";
    assert !AllAminoAcids("AAAA\n") by {
      assert !IsAminoAcid("AAAA\n"[4]);
    }
    var rows := [EpitopeRow("AAAA\n", [])];
    assert WithPeptides(ReadRows(rows, None)) == [CuratedRow("AAAA\n", "AAAA\n", [])];
  }

  /** The intended mask drops exactly what the written one lets through by the
      trailing-newline reading of `$`, and nothing else. */
  lemma CorrectionOnlyDropsTrailingNewline(peptide: string)
    ensures ValidPeptide(peptide) ==> KeptAsWritten(peptide)
    ensures KeptAsWritten(peptide) && !ValidPeptide(peptide) <==>
      |peptide| >= 5 && peptide[|peptide| - 1] == '\n' && AllAminoAcids(peptide[..|peptide| - 1])
  {
    if |peptide| >= 5 && peptide[|peptide| - 1] == '\n' {
      assert !IsAminoAcid('\n');
      assert !IsAminoAcid(peptide[|peptide| - 1]);
    }
  }

  /** The filter is exact: a row of the first `max_epitopes` is kept, with its
      peptide column in front, iff its description is a valid peptide. */
  lemma CurateExact(rows: seq<EpitopeRow>, maxEpitopes: Option<nat>, r: EpitopeRow)
    requires r in ReadRows(rows, maxEpitopes)
    ensures InsertPeptide(r) in Curate(rows, maxEpitopes) <==> ValidPeptide(r.description)
  {
    var read := ReadRows(rows, maxEpitopes);
    var i :| 0 <= i < |read| && read[i] == r;
    assert WithPeptides(read)[i] == InsertPeptide(r);
  }

  /** Every kept row is an input row with its description copied in front;
      the peptide has at least five residues, all standard amino acids. */
  lemma CuratedRowsValid(rows: seq<EpitopeRow>, maxEpitopes: Option<nat>, c: CuratedRow)
    requires c in Curate(rows, maxEpitopes)
    ensures exists r :: r in ReadRows(rows, maxEpitopes) && c == InsertPeptide(r)
    ensures c.peptide == c.description && |c.peptide| >= 5 && AllAminoAcids(c.peptide)
  {
    var curated := WithPeptides(ReadRows(rows, maxEpitopes));
    var i :| 0 <= i < |curated| && curated[i] == c;
    assert ReadRows(rows, maxEpitopes)[i] in ReadRows(rows, maxEpitopes);
  }

  /** Relative order is kept: the rows of a later part of the input come out
      after those of an earlier part. */
  lemma CurateKeepsOrder(a: seq<EpitopeRow>, b: seq<EpitopeRow>)
    ensures Curate(a + b, None) == Curate(a, None) + Curate(b, None)
  {
    assert WithPeptides(a + b) == WithPeptides(a) + WithPeptides(b);
    FilterAppend(WithPeptides(a), WithPeptides(b), (c: CuratedRow) => ValidPeptide(c.peptide));
  }
}
