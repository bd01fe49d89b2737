# mhc2flurry data-preparation core, in Dafny

This project models the data-preparation scripts of mhc2flurry, the class II
MHC binding predictor, together with its alpha/beta allele-encoding pair. It
proves properties of those models.

- **Pseudosequence selector** (`make_pseudosequences.py`). The centre of the model. It covers:
  - the two position maps between residue indices and alignment columns;
  - the minor-allele fraction of every alignment column over the reference panel of each chain kind (alpha, beta);
  - the structure scan: every MHC residue near a peptide chain is recorded once per peptide chain, at the smallest cutoff at which it is near, after an integrity check against the alignment;
  - the cumulative per-cutoff contact rates;
  - the selection of columns by `(maf, cutoff, fraction)` criteria;
  - the extraction of one pseudosequence per allele and criterion, and the check that allele identifiers are unique.

  The distance search of the structure library is the abstract `nearby` field of a `Structure`.
- **Reference-numbered layout** (`make_allele_sequences.py`). Every allele's aligned sequence is laid out in columns numbered by the reference allele's residues.
- **Allele de-duplication** (`filter_sequences.py`). The longest record of each normalised allele name is kept, if it is at least 200 long.
- **IEDB curation** (`curate.py`). Row filters, normalisers and the qualitative table; the additional mass-spec lists; and the combined de-duplication and sort.
- **Mass-spec curation** (`curate_ms_by_pmid.py`). The cell-line mixture list; HLA table parsing; the DR-only allele fix; the handler registry; the expression groups and mixtures, with the global metadata list they append to; and the assignment of an expression dataset to every sample.
- **PDB chain assignment** (`assign_pdb_sequences_to_alpha_or_beta.py`). The coverage filter, the best hit per query, and the FASTA text written per kind.
- **T-cell epitope filter** (`curate_t_cell_epitopes.py`).
- **`AlleleEncodingPair`** (`mhcflurryii/allele_encoding_pair.py`).

Loops that update state are methods proved against specification functions. Examples are the two position-map builders, the minor-allele fraction loop, the scan with its `seen` set, the numbering loop, the `seen` loop of the de-duplication and the registry loop. `make_expression_groups` appends to a module-level list, so it is a method of a class (`ExpressionGroupRows`) that owns that list. The pandas expressions are functions with lemmas.

Python and pandas behaviours the model spells out:

- **`$` under `str.match`**: matches at the end of the text and also just before a final newline (`AminoAcids.MatchesPattern`).
- **`split()` and `split(sep)`**: in `Strings`.
- **`drop_duplicates`**: keeps the first row of each key (`Collections.DropDuplicatesBy`).
- **Dictionary assignment**: the last write wins (`Collections.Overwrite`).
- **`groupby`**: visits its keys sorted and once each (`ContactScan.Accessions`).
- **`mode()[0]`**: the smallest of the most frequent symbols (`MinorAlleleFractions.Mode`).

Ratios are `real`. Missing values (NaN, None) are `Option` where the model represents them; "## Left out" lists the columns where it does not. Exceptions are the `Err` side of a `Result`.

The modules follow the source files:

| module | source |
|---|---|
| `PositionMaps`, `Alignments`, `MinorAlleleFractions`, `ContactScan`, `ContactRates`, `Pseudosequences` | `make_pseudosequences.py` |
| `AlleleNumbering`, `Fasta` | `make_allele_sequences.py` |
| `FilterSequences` | `filter_sequences.py` |
| `IedbCuration` | `curate.py` |
| `MsCuration`, `ExpressionDatasets` | `curate_ms_by_pmid.py` |
| `PdbAssignment` | `assign_pdb_sequences_to_alpha_or_beta.py` |
| `TCellEpitopes`, `AminoAcids` | `curate_t_cell_epitopes.py` |
| `AlleleEncodingPairs` | `allele_encoding_pair.py` |

`Wrappers`, `Strings`, `Collections` and `SortedStrings` hold the shared Python and pandas semantics.

## Model

| member | source | states |
|---|---|---|
| PositionMaps.Ungapped | downloads-generation/allele_sequences/make_pseudosequences.py:138 | the unaligned sequence holds no `-` and is no longer than the aligned one |
| PositionMaps.PositionToAlignedShape | downloads-generation/allele_sequences/make_pseudosequences.py:102-109 | the forward map's keys are exactly 0..k-1 for k residues; each value is a non-gap column holding the p-th residue; values strictly increase |
| PositionMaps.AlignedToPositionShape | downloads-generation/allele_sequences/make_pseudosequences.py:112-119 | the inverse map has a key for exactly the non-gap columns, and sends column i to the number of residues before it |
| PositionMaps.InverseOfForward | downloads-generation/allele_sequences/make_pseudosequences.py:102-119 | inverse(forward(p)) == p for every residue index p |
| PositionMaps.ForwardOfInverse | downloads-generation/allele_sequences/make_pseudosequences.py:102-119 | forward(inverse(i)) == i for every residue column i |
| PositionMaps.MapsAreInverse | downloads-generation/allele_sequences/make_pseudosequences.py:102-119 | the two maps are inverse to each other in both directions |
| PositionMaps.MakePositionToAlignedPositionDict | downloads-generation/allele_sequences/make_pseudosequences.py:102-109 | the loop with its running counter builds the forward map, with its key, residue and ordering properties |
| PositionMaps.MakeAlignedPositionToPositionDict | downloads-generation/allele_sequences/make_pseudosequences.py:112-119 | the loop builds the inverse map: keys are the non-gap columns, values the residue count before them |
| Alignments.Panel | downloads-generation/allele_sequences/make_pseudosequences.py:143-147 | the reference panel of a kind is exactly the aligned sequences of the non-`pdb` records of that kind |
| Alignments.NonPdb | downloads-generation/allele_sequences/make_pseudosequences.py:143-145 | the non-PDB table holds exactly the records whose description does not start with `pdb` |
| MinorAlleleFractions.Count | downloads-generation/allele_sequences/make_pseudosequences.py:152-153 | an occurrence count is at most the column length, zero iff the symbol is absent |
| MinorAlleleFractions.BestOf | downloads-generation/allele_sequences/make_pseudosequences.py:152 | the chosen candidate is at least as frequent as every candidate, and smallest among equally frequent ones |
| MinorAlleleFractions.Mode | downloads-generation/allele_sequences/make_pseudosequences.py:152 | `mode()[0]` is a most frequent symbol of the column, `-` included, the smallest one on ties |
| MinorAlleleFractions.Fraction | downloads-generation/allele_sequences/make_pseudosequences.py:153 | a mean of booleans lies in [0, 1], is 0 iff no entry is true and 1 iff every entry is |
| MinorAlleleFractions.Maf | downloads-generation/allele_sequences/make_pseudosequences.py:153 | the fraction of alleles differing from the mode lies in [0, 1) |
| MinorAlleleFractions.Column | downloads-generation/allele_sequences/make_pseudosequences.py:151 | `str.get(pos)` gives every allele's character at that column, in panel order |
| MinorAlleleFractions.StatAt | downloads-generation/allele_sequences/make_pseudosequences.py:150-154 | the row for a column holds that column, a mode of it (smallest on ties), and the fraction of alleles differing from that mode, which lies in [0, 1) and is 0 iff the column is uniform |
| MinorAlleleFractions.MafZeroIffUniform | downloads-generation/allele_sequences/make_pseudosequences.py:151-153 | the minor-allele fraction is 0 exactly when every allele has the same character in the column |
| MinorAlleleFractions.MinorAlleleFractionsForKind | downloads-generation/allele_sequences/make_pseudosequences.py:147-154 | fails iff the panel's aligned lengths differ; otherwise one row per column, holding the mode, the fraction (in [0,1), 0 iff uniform); an empty panel gives no rows |
| MinorAlleleFractions.TwoAlleleExample | downloads-generation/allele_sequences/make_pseudosequences.py:152-153 | a 1:1 tie between `-` and `C` resolves to `-`, and the fraction is 0.5 |
| ContactScan.AccessionOf | downloads-generation/allele_sequences/make_pseudosequences.py:170-171 | the accession holds no `.` or `_`, and is missing (NaN) iff the description has no `.` |
| ContactScan.ChainOf | downloads-generation/allele_sequences/make_pseudosequences.py:172 | the chain id is a suffix of the description holding no `_`, and either it is the whole description or a `_` comes right before it: the text after the last `_` |
| ContactScan.PdbRecordsMembers | downloads-generation/allele_sequences/make_pseudosequences.py:167-172 | the PDB table has a row for exactly the `pdb` records whose description yields an accession |
| ContactScan.RecordsOf | downloads-generation/allele_sequences/make_pseudosequences.py:185-189 | one accession's group holds exactly its records |
| ContactScan.Accessions | downloads-generation/allele_sequences/make_pseudosequences.py:185-187 | groupby visits every accession that has a record, each once, in ascending order |
| ContactScan.DistinctAccessions | downloads-generation/allele_sequences/make_pseudosequences.py:185-187 | the accessions in first-appearance order are exactly those with a record, without repeats |
| ContactScan.CountKind | downloads-generation/allele_sequences/make_pseudosequences.py:190-191 | the number of chains of a kind is zero iff no record has that kind |
| ContactScan.Peptides | downloads-generation/allele_sequences/make_pseudosequences.py:210-214 | the peptide chains are exactly the chains whose length is within [min, max] |
| ContactScan.SkipFor | downloads-generation/allele_sequences/make_pseudosequences.py:199-218 | an accession is skipped for its chain counts iff its alpha and beta counts differ; for lack of peptides iff the counts agree and no chain has a length within [min, max]; otherwise some chain's length is within range |
| ContactScan.EnterShape | downloads-generation/allele_sequences/make_pseudosequences.py:193-197 | entering a kind's chains adds exactly those chains and keeps the other entries |
| ContactScan.ChainTableShape | downloads-generation/allele_sequences/make_pseudosequences.py:193-197 | the chain table holds exactly the group's chains; a chain listed as beta anywhere ends up beta |
| ContactScan.MakeChainTable | downloads-generation/allele_sequences/make_pseudosequences.py:193-197 | the two loops build the chain table |
| ContactScan.MakePositionMaps | downloads-generation/allele_sequences/make_pseudosequences.py:231-234 | every MHC chain gets the forward position map of its aligned sequence, and no other key is added |
| ContactScan.SeenBeforeMembers | downloads-generation/allele_sequences/make_pseudosequences.py:237-244 | `seen` holds exactly the residues near the peptide at one of the cutoffs processed so far |
| ContactScan.FirstNearbyCharacterised | downloads-generation/allele_sequences/make_pseudosequences.py:238-244 | a residue is newly near at a cutoff iff it is near there and at none of the earlier cutoffs |
| ContactScan.RecordedAtSmallestCutoff | downloads-generation/allele_sequences/make_pseudosequences.py:236-244 | with sorted cutoffs, a residue is recorded at the smallest cutoff at which it is near, and at no other |
| ContactScan.AlignedColumn | downloads-generation/allele_sequences/make_pseudosequences.py:253-257 | the aligned position of residue index p is a column of the aligned sequence holding the p-th residue |
| ContactScan.PeptideBrokenGrows | downloads-generation/allele_sequences/make_pseudosequences.py:236-257 | once an integrity violation has occurred at some cutoff, the peptide's scan fails whatever cutoffs follow |
| ContactScan.PeptideContactFacts | downloads-generation/allele_sequences/make_pseudosequences.py:245-266 | every contact row is on an MHC chain, records its kind, was first near at its cutoff, and passes both integrity checks (unaligned and aligned character equal the residue code) |
| ContactScan.RecordResidues | downloads-generation/allele_sequences/make_pseudosequences.py:245-266 | the loop over newly near residues fails iff one on an MHC chain fails the integrity check; otherwise it records exactly one row per such MHC residue |
| ContactScan.ScanPeptide | downloads-generation/allele_sequences/make_pseudosequences.py:236-266 | the cutoff loop with `seen` fails iff some cutoff's newly near residues break integrity; otherwise its rows are exactly the peptide's contacts, no residue twice |
| ContactScan.ScanAccession | downloads-generation/allele_sequences/make_pseudosequences.py:189-266 | an accession is skipped with nothing recorded iff its alpha and beta chain counts differ or it has no peptide chain; otherwise it fails iff a peptide's scan fails, and else yields exactly its contacts |
| ContactScan.ScanAll | downloads-generation/allele_sequences/make_pseudosequences.py:183-266 | the loop over accessions fails iff some scanned accession breaks integrity; otherwise its rows are exactly the contacts of the scanned accessions |
| ContactScan.SortedCutoffs | downloads-generation/allele_sequences/make_pseudosequences.py:238 | `sorted(cutoffs)` is ascending and a permutation of the cutoffs |
| ContactRates.NumAccessions | downloads-generation/allele_sequences/make_pseudosequences.py:280 | the denominator (distinct accessions with a contact) is 0 iff there are no contacts |
| ContactRates.AccessionsAt | downloads-generation/allele_sequences/make_pseudosequences.py:281-283 | one cell of the `nunique` table is the set of accessions with a contact at that kind, column and cutoff |
| ContactRates.CumulativeCount | downloads-generation/allele_sequences/make_pseudosequences.py:281-284 | the cumulative count at sorted position k is at least that position's own count, and 0 iff no accession has a contact there at any of the first k+1 cutoffs |
| ContactRates.Rate | downloads-generation/allele_sequences/make_pseudosequences.py:280-290 | the rate is non-negative, 0 when no accession has a contact, and otherwise the cumulative count per accession (rate times accessions equals the count) |
| ContactRates.CumulativeGrows | downloads-generation/allele_sequences/make_pseudosequences.py:283-284 | the cumulative count does not decrease along the sorted cutoffs |
| ContactRates.RateMonotone | downloads-generation/allele_sequences/make_pseudosequences.py:280-290 | rates are non-decreasing in the cutoff |
| ContactRates.CumulativeZero | downloads-generation/allele_sequences/make_pseudosequences.py:283-284 | the cumulative count is 0 iff the column has no contact at any cutoff up to that one |
| ContactRates.RateZeroIffNoContacts | downloads-generation/allele_sequences/make_pseudosequences.py:280-290 | a rate is exactly 0 iff the column has no contact of that kind at any cutoff up to it, including columns without any contact row |
| ContactRates.CumulativeAtMost | downloads-generation/allele_sequences/make_pseudosequences.py:283-284 | the cumulative count at sorted position k is at most (k+1) times the number of accessions |
| ContactRates.RateAtMostPositions | downloads-generation/allele_sequences/make_pseudosequences.py:280-284 | the rate at sorted position k is at most k+1 |
| ContactRates.RateCanExceedOne | downloads-generation/allele_sequences/make_pseudosequences.py:236-284 | one accession whose two peptide chains touch a column at different cutoffs gets a rate of 2, so rates are not bounded by 1 |
| ContactRates.RateSameRows | downloads-generation/allele_sequences/make_pseudosequences.py:280-284 | two contact tables holding the same rows, in any order, give the same rate at every kind, column and cutoff |
| Pseudosequences.CutoffIndex | downloads-generation/allele_sequences/make_pseudosequences.py:298 | an unknown cutoff is a KeyError; a known one is found at its first sorted position |
| Pseudosequences.SelectColumns | downloads-generation/allele_sequences/make_pseudosequences.py:294-304 | the selected columns are increasing (sorted, distinct), and a column is selected iff its fraction is >= maf and its rate at the cutoff is >= fraction |
| Pseudosequences.SelectedColumnsVary | downloads-generation/allele_sequences/make_pseudosequences.py:294-304 | with maf > 0, no selected column is one where every reference allele agrees |
| Pseudosequences.Selections | downloads-generation/allele_sequences/make_pseudosequences.py:293-309 | fails iff some criterion's cutoff is unknown; otherwise one selection per criterion, in order, per kind |
| Pseudosequences.SelectionsSameRows | downloads-generation/allele_sequences/make_pseudosequences.py:280-309 | the selections depend on the contacts only through which rows the table holds |
| Pseudosequences.Pick | downloads-generation/allele_sequences/make_pseudosequences.py:321-322 | the picked text has one character per position: the allele's character there |
| Pseudosequences.Pseudosequence | downloads-generation/allele_sequences/make_pseudosequences.py:318-323 | a pseudosequence has one character per selected column, the allele's character there with `-` as `X`, and holds no `-` |
| Pseudosequences.PseudosequenceSeesOnlySelected | downloads-generation/allele_sequences/make_pseudosequences.py:318-323 | two alleles get the same pseudosequence iff they agree on every selected column, `-` and `X` counting as equal |
| Pseudosequences.FirstEmpty | downloads-generation/allele_sequences/make_pseudosequences.py:312-322 | extraction fails iff some criterion selects no column for some kind, and names that criterion and kind |
| Pseudosequences.Rows | downloads-generation/allele_sequences/make_pseudosequences.py:311-324 | one row per reference record, in order, with its kind, its second description word as identifier and its pseudosequence per criterion |
| Pseudosequences.RepeatedId | downloads-generation/allele_sequences/make_pseudosequences.py:324-325 | no identifier is reported iff the identifiers present are pairwise distinct; a reported one occurs twice |
| Pseudosequences.CheckIds | downloads-generation/allele_sequences/make_pseudosequences.py:325 | the uniqueness assert passes iff some row has an identifier and no identifier repeats |
| Pseudosequences.Finish | downloads-generation/allele_sequences/make_pseudosequences.py:293-325 | selection, extraction and the identifier check: each failure kind is justified; success means non-empty selections, rows of the pseudosequences, unique identifiers |
| Pseudosequences.SelectionsFit | downloads-generation/allele_sequences/make_pseudosequences.py:300-322 | every selected column exists in every reference sequence of its kind |
| Pseudosequences.StatsFit | downloads-generation/allele_sequences/make_pseudosequences.py:147-150 | the fraction table of a kind has no more columns than any reference sequence of that kind |
| Pseudosequences.Analyse | downloads-generation/allele_sequences/make_pseudosequences.py:143-266 | fails iff a kind's aligned lengths differ or some accession breaks integrity, checking alpha lengths, then beta lengths, then the scan; success gives the exact fraction tables of both kinds and exactly the scanned contacts |
| Pseudosequences.Run | downloads-generation/allele_sequences/make_pseudosequences.py:122-325 | the whole run fails with unequal lengths or an integrity violation iff the analysis fails, in the source's order; otherwise its result is `Finish` over the analysed tables: its selections and rows on success, and exactly `Finish`'s unknown-cutoff, empty-selection or identifier failure otherwise |
| Pseudosequences.FinishDetermined | downloads-generation/allele_sequences/make_pseudosequences.py:143-325 | any two analyses of the same input give the same `Finish` result, so the run's outcome does not depend on the order in which the scan lists contacts |
| Pseudosequences.SortedCutoffsSameValues | downloads-generation/allele_sequences/make_pseudosequences.py:284-298 | sorting keeps the cutoff values, so a criterion's cutoff is unknown exactly when it was not given |
| AlleleNumbering.Entries | downloads-generation/allele_sequences/make_allele_sequences.py:37-40 | the reading loop assigns, in record order, the second description word to the record's sequence |
| AlleleNumbering.LastRecordWins | downloads-generation/allele_sequences/make_allele_sequences.py:37-40 | a name is present iff some record has it, and its sequence is that of the last such record |
| AlleleNumbering.ReadAlleles | downloads-generation/allele_sequences/make_allele_sequences.py:35-40 | the reading loop fails at the first record without a second word; otherwise it fills the name map, its keys once each |
| AlleleNumbering.Cell | downloads-generation/allele_sequences/make_allele_sequences.py:55-59 | a finished cell holds no `-` and has one character per position placed in its column |
| AlleleNumbering.NumberStep | downloads-generation/allele_sequences/make_allele_sequences.py:56-57 | the counter advances past a reference residue and stays on a gap |
| AlleleNumbering.NumberMonotone | downloads-generation/allele_sequences/make_allele_sequences.py:50-57 | column numbers never decrease along the alignment |
| AlleleNumbering.ColumnsStep | downloads-generation/allele_sequences/make_allele_sequences.py:52-57 | a position falls under the last column created or opens the next one |
| AlleleNumbering.GroupEmptyBeyond | downloads-generation/allele_sequences/make_allele_sequences.py:52-55 | a column not created yet holds nothing |
| AlleleNumbering.GroupSameColumn | downloads-generation/allele_sequences/make_allele_sequences.py:55 | placing a position appends the allele's character to the column it falls under |
| AlleleNumbering.GroupOtherColumn | downloads-generation/allele_sequences/make_allele_sequences.py:55 | placing a position leaves every other column unchanged |
| AlleleNumbering.GroupsStepNew | downloads-generation/allele_sequences/make_allele_sequences.py:52-55 | a new column opens holding just the allele's character at that position |
| AlleleNumbering.GroupsStepSame | downloads-generation/allele_sequences/make_allele_sequences.py:55 | a position under the last column appends to it |
| AlleleNumbering.PlaceStep | downloads-generation/allele_sequences/make_allele_sequences.py:51-57 | one loop step keeps every allele's cells equal to the characters placed so far |
| AlleleNumbering.NumberColumns | downloads-generation/allele_sequences/make_allele_sequences.py:50-57 | the numbering loop creates one column per number and fills each allele's cell with exactly the characters under that number |
| AlleleNumbering.ReplaceGaps | downloads-generation/allele_sequences/make_allele_sequences.py:59 | `applymap` replaces every `-` by `X` in every cell, keeping the shape |
| AlleleNumbering.ColumnCount | downloads-generation/allele_sequences/make_allele_sequences.py:50-57 | the column count is the number of reference residues, plus one if the reference ends in a gap |
| AlleleNumbering.GroupsJoin | downloads-generation/allele_sequences/make_allele_sequences.py:50-57 | an allele's cells read in column order give back its aligned prefix |
| AlleleNumbering.RowJoins | downloads-generation/allele_sequences/make_allele_sequences.py:50-59 | an allele's finished row, concatenated in column order, is its aligned sequence (to the reference's length) with every `-` as `X` |
| AlleleNumbering.ReferenceGroup | downloads-generation/allele_sequences/make_allele_sequences.py:51-57 | in the reference's own row, column k holds only gaps until the k-th residue is placed, and then gaps followed by that residue |
| AlleleNumbering.ResidueOfColumn | downloads-generation/allele_sequences/make_allele_sequences.py:51-57 | a reference residue numbered k is the k-th residue of the reference |
| AlleleNumbering.ReplaceGapsThen | downloads-generation/allele_sequences/make_allele_sequences.py:59 | gaps followed by a residue become `X`s followed by that residue |
| AlleleNumbering.ReferenceCell | downloads-generation/allele_sequences/make_allele_sequences.py:51-59 | in the reference's own row, column k (up to its residue count) is zero or more `X` followed by the k-th reference residue |
| AlleleNumbering.MakeAlleleSequences | downloads-generation/allele_sequences/make_allele_sequences.py:35-59 | fails on a record without a name, on a missing reference (KeyError) or on an allele shorter than the reference; otherwise names ascending, one column per number, each cell the allele's characters under it with `-` as `X` |
| FilterSequences.VisitOrder | downloads-generation/allele_sequences/filter_sequences.py:55 | the loop visits a permutation of the records, longest first, records of equal length in input order |
| FilterSequences.VisitNamed | downloads-generation/allele_sequences/filter_sequences.py:55-56 | sorting does not change whether every record has a second description word |
| FilterSequences.NamesOf | downloads-generation/allele_sequences/filter_sequences.py:56-57 | one normalised name per visited record |
| FilterSequences.Picked | downloads-generation/allele_sequences/filter_sequences.py:55-66 | the kept positions are positions visited so far |
| FilterSequences.Relabelled | downloads-generation/allele_sequences/filter_sequences.py:68-70 | one output record per kept position |
| FilterSequences.SeenNamesExactly | downloads-generation/allele_sequences/filter_sequences.py:61-66 | `seen` holds exactly the names of the records that passed every check so far |
| FilterSequences.PickedInOrder | downloads-generation/allele_sequences/filter_sequences.py:55-70 | the kept records appear in visiting order and each passed the name and length checks |
| FilterSequences.PickedDistinct | downloads-generation/allele_sequences/filter_sequences.py:61-66 | the kept records carry pairwise distinct names |
| FilterSequences.EligibleNameKept | downloads-generation/allele_sequences/filter_sequences.py:58-66 | every name that passed the checks is carried by a kept record |
| FilterSequences.NameKeptIff | downloads-generation/allele_sequences/filter_sequences.py:55-70 | a name is in the output iff it normalises and some (hence its longest) record has length at least the minimum |
| FilterSequences.KeptIsFirst | downloads-generation/allele_sequences/filter_sequences.py:55-66 | the kept record of a name is the first visited with that name, so none with the name is longer |
| FilterSequences.OutputShape | downloads-generation/allele_sequences/filter_sequences.py:32-70 | every output sequence is at least 200 long, and there are no more outputs than inputs |
| FilterSequences.RelabelReadsBack | downloads-generation/allele_sequences/filter_sequences.py:68-69 | the new id is `kind.id`; the new description's first word is the name and the old description's words follow |
| FilterSequences.FilterVisited | downloads-generation/allele_sequences/filter_sequences.py:55-70 | the `seen` loop fails iff some record lacks a second word; otherwise it outputs the kept records, relabelled, and their distinct sequences |
| FilterSequences.FilterRecords | downloads-generation/allele_sequences/filter_sequences.py:44-76 | the whole script: the failure case, the output records and the set of their sequences |
| IedbCuration.QualitativeTables | downloads-generation/data_curated/curate.py:47-59 | the five qualitative outcomes map to the listed nM values and inequalities, and the two derived tables agree with it key by key |
| IedbCuration.CanonicalInequalityFacts | downloads-generation/data_curated/curate.py:109-111 | a missing inequality becomes `=`, `>=` becomes `>`, `<=` becomes `<`, anything else is kept; the result is never non-strict and is a fixed point |
| IedbCuration.DigitCount | downloads-generation/data_curated/curate.py:92 | the number of digits is at most the length |
| IedbCuration.InsufficientExamples | downloads-generation/data_curated/curate.py:87-97 | "HLA-A03" and "HLA-DR4" are insufficiently specific |
| IedbCuration.SufficientExamples | downloads-generation/data_curated/curate.py:87-97 | a full allele name, a mouse `H2-` name and a `Mamu` name are kept |
| IedbCuration.Annotate | downloads-generation/data_curated/curate.py:72-102 | the annotated rows are exactly the class II rows with a usable, specific, normalisable allele, each with its normalised allele |
| IedbCuration.Measured | downloads-generation/data_curated/curate.py:106-137 | the quantitative rows come first, all affinity measurements, then the qualitative rows if included, and there is one row per nM row and (if included) per row without units |
| IedbCuration.LoadIedb | downloads-generation/data_curated/curate.py:68-172 | the loaded rows are pairwise distinct and are exactly the measured rows whose peptide matches the pattern |
| IedbCuration.LastAuthorClean | downloads-generation/data_curated/curate.py:148-154 | the last author holds no `;`, `,`, space or `*` |
| IedbCuration.QualitativeFromTable | downloads-generation/data_curated/curate.py:114-127 | a qualitative row takes value and inequality from the table (missing for an unknown outcome), and its kind is mass_spec iff the method mentions mass spec |
| IedbCuration.StrippedPeptide | downloads-generation/data_curated/curate.py:141-144 | on a stripped description the pattern is a plain full match: non-empty, standard amino acids only |
| IedbCuration.IedbRowSound | downloads-generation/data_curated/curate.py:68-172 | every loaded row comes from an input row passing every filter, quantitative for nM units and qualitative for none, and its peptide is non-empty over the 20 letters |
| IedbCuration.IedbRowComplete | downloads-generation/data_curated/curate.py:68-172 | conversely, every row that passes the filters, has nM or no units and strips to a peptide is loaded |
| IedbCuration.LoadMs | downloads-generation/data_curated/curate.py:175-195 | the additional list fails the assert iff some monoallelic row's allele does not normalise |
| IedbCuration.MassSpecRowsShape | downloads-generation/data_curated/curate.py:182-194 | the additional rows are the monoallelic ones, in order, each at 100 nM, "<", qualitative, mass_spec, source "MS:pmid:" + pmid |
| IedbCuration.ConcatMs | downloads-generation/data_curated/curate.py:206-208 | a failing additional list fails the run with the assert |
| IedbCuration.Run | downloads-generation/data_curated/curate.py:198-227 | the run fails iff there is nothing to concatenate or an additional list fails its assert |
| IedbCuration.RunShape | downloads-generation/data_curated/curate.py:213-227 | the output is sorted by allele then peptide, unique on (allele, peptide, value, kind), and complete |
| IedbCuration.RunKeepsFirstComplete | downloads-generation/data_curated/curate.py:213-227 | the first combined row of each key is output iff it has a value and an inequality |
| IedbCuration.RunRowsFromCombined | downloads-generation/data_curated/curate.py:210-227 | every output row is one of the combined rows |
| MsCuration.CellLineMixtures | downloads-generation/data_curated/curate_ms_by_pmid.py:115-118 | the mixture list is strictly ascending and holds exactly the sample types starting with "mix:" |
| MsCuration.CellLineMixturesUnique | downloads-generation/data_curated/curate_ms_by_pmid.py:115-118 | it is the only such list |
| MsCuration.ParseHlaRow | downloads-generation/data_curated/curate_ms_by_pmid.py:391-392 | a line fails (IndexError) iff it has fewer than two tokens |
| MsCuration.ParseLines | downloads-generation/data_curated/curate_ms_by_pmid.py:388-393 | the table fails iff some line fails; otherwise one row per line, in order |
| MsCuration.ParseHlaTable | downloads-generation/data_curated/curate_ms_by_pmid.py:388-390 | one row per line of the stripped text |
| MsCuration.HlaRowFields | downloads-generation/data_curated/curate_ms_by_pmid.py:388-394 | key = first token with `_` as `-`, sample type = second token, and the hla text splits back into exactly the remaining tokens |
| MsCuration.DrOnlyAlleles | downloads-generation/data_curated/curate_ms_by_pmid.py:472-478 | the DR-only text holds exactly the alleles containing "DR", in original order |
| MsCuration.FixDrSpecificRows | downloads-generation/data_curated/curate_ms_by_pmid.py:466-478 | the fix keeps the number of rows |
| MsCuration.FixDrSpecificRowsEffect | downloads-generation/data_curated/curate_ms_by_pmid.py:466-478 | only DR-specific rows change: they get HB298 and only their DR alleles, in order |
| MsCuration.RegistryEntries | downloads-generation/data_curated/curate_ms_by_pmid.py:705-709 | an assignment is made for exactly the names with the prefix, under the name with the prefix removed |
| MsCuration.RegisterHandlers | downloads-generation/data_curated/curate_ms_by_pmid.py:704-709 | the loop fills both registries with these assignments, a later one winning |
| MsCuration.PrefixesExclusive | downloads-generation/data_curated/curate_ms_by_pmid.py:706-708 | no name starts with both prefixes, so the `elif` never hides a handler |
| MsCuration.RegisteredExactly | downloads-generation/data_curated/curate_ms_by_pmid.py:705-709 | a key is registered iff some name starts with the prefix and leaves that key once it is removed |
| MsCuration.RegisteredHandler | downloads-generation/data_curated/curate_ms_by_pmid.py:705-709 | the handler under a key is a name with the prefix that leaves that key |
| MsCuration.HandlerKey | downloads-generation/data_curated/curate_ms_by_pmid.py:707 | a handler registers under the text after the prefix |
| MsCuration.RegistryExamples | downloads-generation/data_curated/curate_ms_by_pmid.py:705-709 | `handle_pmid_27869121` registers as "27869121"; `Xhandle_pmid_27869121` registers nowhere |
| ExpressionDatasets.FirstAbsent | downloads-generation/data_curated/curate_ms_by_pmid.py:546-549 | a group's check finds no column iff all its columns exist; a found one is a missing column of the group |
| ExpressionDatasets.FirstMissing | downloads-generation/data_curated/curate_ms_by_pmid.py:545-549 | nothing is missing iff every group is complete; otherwise the first incomplete group and its first missing column |
| ExpressionDatasets.GroupRows | downloads-generation/data_curated/curate_ms_by_pmid.py:551 | one metadata row (dataset, label, columns) per group, in order |
| ExpressionDatasets.Labels | downloads-generation/data_curated/curate_ms_by_pmid.py:550 | one result column per group label, in order |
| ExpressionDatasets.ExpressionGroupRows.constructor | downloads-generation/data_curated/curate_ms_by_pmid.py:540 | the metadata list starts empty |
| ExpressionDatasets.ExpressionGroupRows.MakeExpressionGroups | downloads-generation/data_curated/curate_ms_by_pmid.py:543-552 | raises on the first missing column, after recording the groups before it; otherwise returns the labels and appends one row per group, in order |
| ExpressionDatasets.BuildMixtureGroups | downloads-generation/data_curated/curate_ms_by_pmid.py:682-691 | the first loop builds the mixture groups |
| ExpressionDatasets.CollectMissing | downloads-generation/data_curated/curate_ms_by_pmid.py:692-696 | the second loop collects exactly the absent components |
| ExpressionDatasets.Components | downloads-generation/data_curated/curate_ms_by_pmid.py:684-690 | one component per mixture item |
| ExpressionDatasets.MixtureGroups | downloads-generation/data_curated/curate_ms_by_pmid.py:683-691 | one group per mixture |
| ExpressionDatasets.ComponentsShape | downloads-generation/data_curated/curate_ms_by_pmid.py:684-690 | component k is item k's cell-line column if present, else its "-LIKE" sample-type column |
| ExpressionDatasets.MixtureGroupsShape | downloads-generation/data_curated/curate_ms_by_pmid.py:683-691 | group i is labelled "sample_type:" + mixture i upper-cased, and its components follow the items one for one |
| ExpressionDatasets.MissingComponentsSnoc | downloads-generation/data_curated/curate_ms_by_pmid.py:692-696 | one more group adds exactly its absent components |
| ExpressionDatasets.NothingMissing | downloads-generation/data_curated/curate_ms_by_pmid.py:697-701 | with nothing missing, `make_expression_groups` cannot raise |
| ExpressionDatasets.MissingOnlyStandIns | downloads-generation/data_curated/curate_ms_by_pmid.py:684-700 | a missing component is always the "-LIKE" stand-in of an item whose cell-line column is absent |
| ExpressionDatasets.ExpressionGroupRows.MakeExpressionMixtures | downloads-generation/data_curated/curate_ms_by_pmid.py:680-701 | raises, naming every missing component and recording nothing, iff some component is absent; otherwise records and returns the mixture groups |
| ExpressionDatasets.ChooseDataset | downloads-generation/data_curated/curate_ms_by_pmid.py:824-832 | the inner loop picks the cell-line column, else the sample-type column, else none |
| ExpressionDatasets.AssignmentRules | downloads-generation/data_curated/curate_ms_by_pmid.py:820-841 | an assigned dataset is kept; otherwise the cell-line column is preferred, the result is a frame column, and there is none iff neither column exists |
| ExpressionDatasets.AssignExpressionDatasets | downloads-generation/data_curated/curate_ms_by_pmid.py:819-863 | raises iff some sample gets no dataset, naming exactly those samples; otherwise every sample has its assigned dataset |
| PdbAssignment.KindBeforeDot | downloads-generation/allele_sequences/assign_pdb_sequences_to_alpha_or_beta.py:43 | the kind is the target's text before its first `.` |
| PdbAssignment.Surviving | downloads-generation/allele_sequences/assign_pdb_sequences_to_alpha_or_beta.py:45-47 | the surviving hits are exactly those with qcov > 0.7 and tcov > 0.5 |
| PdbAssignment.Best | downloads-generation/allele_sequences/assign_pdb_sequences_to_alpha_or_beta.py:45-48 | every kept hit is an input hit passing the coverage filter, and no two kept hits share a query |
| PdbAssignment.BestCovered | downloads-generation/allele_sequences/assign_pdb_sequences_to_alpha_or_beta.py:45-48 | every kept hit is an input hit passing both strict coverage bounds |
| PdbAssignment.BestOnePerQuery | downloads-generation/allele_sequences/assign_pdb_sequences_to_alpha_or_beta.py:48 | at most one hit per query is kept |
| PdbAssignment.BestCoversQueries | downloads-generation/allele_sequences/assign_pdb_sequences_to_alpha_or_beta.py:45-48 | every query with a surviving hit keeps one |
| PdbAssignment.FirstPerQueryIsMinimal | downloads-generation/allele_sequences/assign_pdb_sequences_to_alpha_or_beta.py:48 | after sorting by evalue, the first hit of a query has the least evalue of that query |
| PdbAssignment.BestHasMinimalEvalue | downloads-generation/allele_sequences/assign_pdb_sequences_to_alpha_or_beta.py:48 | the kept hit of a query has the minimal evalue among its surviving hits |
| PdbAssignment.OfKind | downloads-generation/allele_sequences/assign_pdb_sequences_to_alpha_or_beta.py:65-68 | a kind's rows are exactly the kept hits of that kind |
| PdbAssignment.WriteFasta | downloads-generation/allele_sequences/assign_pdb_sequences_to_alpha_or_beta.py:55-61 | writing fails (KeyError) iff some row's query has no sequence, and names such a query |
| PdbAssignment.EntryLines | downloads-generation/allele_sequences/assign_pdb_sequences_to_alpha_or_beta.py:59-61 | one entry is the header line `>pdb.name` and the sequence line |
| PdbAssignment.WrittenLines | downloads-generation/allele_sequences/assign_pdb_sequences_to_alpha_or_beta.py:55-61 | the written text splits at newlines into each chain's header and sequence, in order, then the empty text |
| PdbAssignment.Assign | downloads-generation/allele_sequences/assign_pdb_sequences_to_alpha_or_beta.py:45-68 | a failure names a query without a sequence that has a surviving alpha or beta hit |
| PdbAssignment.AssignSucceeds | downloads-generation/allele_sequences/assign_pdb_sequences_to_alpha_or_beta.py:45-68 | both files are written iff every kept alpha or beta query has a sequence; each file then lists the kept queries of its kind |
| AminoAcids.MatchWithoutTrailingNewline | downloads-generation/data_curated/curate_t_cell_epitopes.py:40-43 | on a text without a final newline the pattern is a plain full match |
| AminoAcids.MatchesPattern | downloads-generation/data_curated/curate_t_cell_epitopes.py:40-43 | a text matches iff it is non-empty, every character before the last is an amino acid, and the last is an amino acid or a newline after at least one of them |
| AminoAcids.AminoAcidsHaveNoNewline | downloads-generation/data_curated/curate_t_cell_epitopes.py:40-45 | an amino-acid text holds no newline, so the intended mask never keeps one |
| TCellEpitopes.ReadRows | downloads-generation/data_curated/curate_t_cell_epitopes.py:34-35 | at most `max_epitopes` rows are read, as a prefix; all of them without a limit |
| TCellEpitopes.WithPeptides | downloads-generation/data_curated/curate_t_cell_epitopes.py:39 | every row gets a leading peptide column equal to its Description, other columns unchanged |
| TCellEpitopes.CurateAsWritten | downloads-generation/data_curated/curate_t_cell_epitopes.py:34-45 | as written, a read row is kept, with its peptide column in front, iff its description passes the mask; every kept peptide matches the pattern and has length at least 5 |
| TCellEpitopes.Curate | downloads-generation/data_curated/curate_t_cell_epitopes.py:34-45 | the intended curation keeps only rows the written mask keeps too, and none of its peptides holds a newline |
| TCellEpitopes.TrailingNewlineKept | downloads-generation/data_curated/curate_t_cell_epitopes.py:40-45 | "AAAA\n" passes the mask as written but is not a valid peptide |
| TCellEpitopes.CorrectionOnlyDropsTrailingNewline | downloads-generation/data_curated/curate_t_cell_epitopes.py:42-45 | the intended mask keeps a subset of what the written one keeps; the difference is exactly the texts of 4 or more amino acids plus a final newline |
| TCellEpitopes.CurateExact | downloads-generation/data_curated/curate_t_cell_epitopes.py:42-45 | a read row is kept iff its description is at least five standard amino acids |
| TCellEpitopes.CuratedRowsValid | downloads-generation/data_curated/curate_t_cell_epitopes.py:39-45 | every kept row is a read row with its peptide in front, at least five residues long, all standard |
| TCellEpitopes.CurateKeepsOrder | downloads-generation/data_curated/curate_t_cell_epitopes.py:42-45 | the filter keeps relative row order |
| AlleleEncodingPairs.Zip | mhcflurryii/allele_encoding_pair.py:39-41 | `zip` stops at the shorter list and pairs positionally |
| AlleleEncodingPairs.FromPairs | mhcflurryii/allele_encoding_pair.py:15-25 | the alpha list is the first components and the beta list the second, in order, each borrowing from the matching encoding of self |
| AlleleEncodingPairs.EncodingsOfFromPairs | mhcflurryii/allele_encoding_pair.py:15-42 | `allele_encodings` of `from_pairs(pairs)` lists the alpha encoding first and the beta one second; each borrows from self's encoding listed under the same name, and zipping their allele lists gives `pairs` back |
| AlleleEncodingPairs.AllelePairs | mhcflurryii/allele_encoding_pair.py:34-42 | the pairs zip the two allele lists positionally, as long as the shorter one |
| AlleleEncodingPairs.PairsRoundTrip | mhcflurryii/allele_encoding_pair.py:15-42 | `allele_pairs` of `from_pairs(ps)` is `ps` |
| AlleleEncodingPairs.EncodingsRoundTrip | mhcflurryii/allele_encoding_pair.py:15-42 | building from an encoding pair's pairs gives back both allele lists, cut to the shorter length |

## Left out

- Structure loading, `optimise_distances` and the geometric `nearby_hets` search of the structure library: a `Structure` carries its chains and an abstract `nearby` function, and a residue carries its index within its chain.
- The auxiliary per-criterion output, including the reference-structure numbering (make_pseudosequences.py lines 334-376), and the b-factor structure export (lines 378-439): file output and float scaling. `info_by_accession` only feeds them.
- `--subsample-pdb`: random sampling.
- File and CSV/Excel/FASTA reading and writing, argument parsing and printing: inputs are lists of records, outputs are returned values. In `assign_pdb_sequences_to_alpha_or_beta.py`, the model writes both files, as if both `--out-alpha` and `--out-beta` were given.
- `normalize_allele_name` is a given map, with a name absent from it standing for an unparseable one.
- `COMMON_AMINO_ACIDS` is taken as the 20 standard one-letter codes. The module defining it is not part of this model.
- `AlleleEncoding` is not part of this model. `AlleleEncodingPairs.FromPairs` assumes that an encoding built from a list keeps that list as its `alleles`.
- Expression averaging (`df[columns].mean(1)`), the merge of the assigned datasets into the mass-spec table, the literal per-sample metadata tables of the individual PMID handlers, and the `--debug` interactive debugger path.
- The mass-spec handlers themselves (the per-PMID file parsers): the registry maps a key to a handler's name.
- Floating-point arithmetic: fractions and rates are exact reals.
- Upper-casing is modelled for ASCII letters only.
- A negative `max_epitopes`: the model takes a natural number or none.
- Rows whose Description is missing (NaN) in the T-cell export.
- IedbCuration: IEDB rows whose Method/Technique, Description or Authors is missing. The model's rows always carry these three texts. In `curate.py`, a missing Method/Technique makes `category` (and a qualitative row's `measurement_kind`) NaN, so the final `dropna()` drops the row. A missing Description makes the peptide mask NaN and `.loc` raises. Missing Authors make `split` raise.
- ContactScan.RecordResidues: a residue index past the end of the chain's unaligned sequence raises IndexError at `row.unaligned[index]` in the source. The model reports it as an `IntegrityViolation`; both abort the run.
- Pseudosequences.CutoffIndex: with a cutoff given twice, pandas returns two columns; the model uses the first.
- Pseudosequences.Run: two criteria with the same name collapse into one entry of the ordered dictionary; the model keeps both.
- ContactScan.ScanAll: a chain id that occurs twice within one accession makes `sub_df.loc[chain]` return several rows; the model uses the chain table's single entry, beta over alpha, later over earlier.
- PdbAssignment.Best: `sort_values` is a quicksort, so among hits of equal evalue another one may come first; the model sorts stably. The minimal-evalue property holds either way.
- MsCuration.CellLineMixtures: takes the sample-type values as a parameter rather than the literal table of one PMID handler.
- ExpressionDatasets.ExpressionGroupRows.MakeExpressionMixtures: `groups` is a dictionary, so two mixtures with the same upper-cased label would keep only the later components. The model keeps one group per mixture, as a sequence. The mixture list itself is duplicate-free.
- ExpressionDatasets.AssignExpressionDatasets: the sample table as a map (a repeated sample id keeps its last row, as `to_dict` does). The sorted visiting order only affects printing.

## Findings

| source | as written | input that shows it | evidently intended | confidence | as-written member | corrected member |
|---|---|---|---|---|---|---|
| downloads-generation/data_curated/curate_t_cell_epitopes.py:40-45 | the mask is `str.match("^[...]+$")` together with `str.len() >= 5`. Python's `$` also matches just before a final newline, and the length counts that newline | a Description of "AAAA\n" is kept: four residues and a newline | keep only peptides of at least five residues, every character a standard amino acid | not executed | TCellEpitopes.KeptAsWritten (shown by TCellEpitopes.TrailingNewlineKept) | TCellEpitopes.ValidPeptide (proved by TCellEpitopes.CorrectionOnlyDropsTrailingNewline and TCellEpitopes.CurateExact) |
