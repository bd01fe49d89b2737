/** data_curated/curate.py: turns IEDB MHC ligand exports and extra mass-spec
    hit lists into one training table of class II measurements. */
module IedbCuration {
  import opened Wrappers
  import opened Strings
  import opened Collections
  import opened AminoAcids

  // ---------------------------------------------------------------------
  // Tables

  /** `QUALITATIVE_TO_AFFINITY_AND_INEQUALITY`: nM value and inequality for
      each qualitative outcome. */
  const QualitativeToAffinityAndInequality: map<string, (real, string)> := map[
    "Negative" := (5000.0, ">"),
    "Positive" := (100.0, "<"),
    "Positive-High" := (100.0, "<"),
    "Positive-Intermediate" := (1000.0, "<"),
    "Positive-Low" := (5000.0, "<")]

  /** `QUALITATIVE_TO_AFFINITY` */
  const QualitativeToAffinity: map<string, real> :=
    map k | k in QualitativeToAffinityAndInequality :: QualitativeToAffinityAndInequality[k].0

  /** `QUALITATIVE_TO_INEQUALITY` */
  const QualitativeToInequality: map<string, string> :=
    map k | k in QualitativeToAffinityAndInequality :: QualitativeToAffinityAndInequality[k].1

  /** `EXCLUDE_IEDB_ALLELES` */
  const ExcludedAlleles: seq<string> := ["HLA class I", "HLA class II"]

  // ---------------------------------------------------------------------
  // Rows

  /** The columns of an IEDB export row that the script reads. A missing
      value is `None`. */
  datatype IedbRow = IedbRow(
    mhcClass: string,
    alleleName: string,
    units: Option<string>,
    inequality: Option<string>,
    quantitative: Option<real>,
    qualitativeMeasure: string,
    technique: string,
    description: string,
    authors: string)

  /** A row of an additional mass-spec hit list. `pmid` is the text
      `str(original_pmid)`. */
  datatype MsRow = MsRow(format: string, hla: string, peptide: string, pmid: string)

  /** A row of the output table; a missing value (NaN) is `None`. */
  datatype Measurement = Measurement(
    allele: string,
    peptide: string,
    value: Option<real>,
    inequality: Option<string>,
    measurementType: string,
    kind: string,
    source: string,
    originalAllele: string)

  datatype CurateFailure =
    | MsAlleleNotNormalized  // the `assert` in `load_data_additional_ms`
    | NothingToConcatenate   // `pandas.concat([])`

  /** An IEDB row that survived the allele filters, with its normalised
      allele. */
  datatype Annotated = Annotated(row: IedbRow, allele: string)

  // ---------------------------------------------------------------------
  // Row filters of `load_data_iedb`

  predicate ClassTwo(r: IedbRow) {
    Upper(Strip(r.mhcClass)) == "II"
  }

  /** Not an excluded placeholder, not a mutant, not CD1. */
  predicate UsableAllele(name: string) {
    name !in ExcludedAlleles && !Contains(name, "mutant") && !Contains(name, "CD1")
  }

  /** `str.findall("[0-9]").str.len()` */
  function DigitCount(s: string): (n: nat)
    ensures n <= |s|
  {
    if s == [] then 0 else (if '0' <= s[0] <= '9' then 1 else 0) + DigitCount(s[1..])
  }

  /** The `insuffient_mask`: names such as "HLA-A03" that fix no allele. */
  predicate InsufficientlySpecific(name: string) {
    var u := Upper(name);
    && !("H2-" <= u)
    && !("H-2-" <= u)
    && !("MAMU" <= u)
    && DigitCount(name) < 4
  }

  /** Every filter of `load_data_iedb` before the unit split; a name is
      parseable iff `normalize` has it. */
  predicate RowKept(r: IedbRow, normalize: map<string, string>) {
    && ClassTwo(r)
    && UsableAllele(r.alleleName)
    && !InsufficientlySpecific(r.alleleName)
    && r.alleleName in normalize
  }

  /** The rows that pass the filters, in order, with the `allele` column. */
  function Annotate(rows: seq<IedbRow>, normalize: map<string, string>): (kept: seq<Annotated>)
    ensures forall a :: a in kept <==>
      a.row in rows && RowKept(a.row, normalize) && a.allele == normalize[a.row.alleleName]
  {
    if rows == [] then []
    else
      var r := rows[0];
      assert forall x :: x in rows <==> x == r || x in rows[1..];
      (if RowKept(r, normalize) then [Annotated(r, normalize[r.alleleName])] else [])
      + Annotate(rows[1..], normalize)
  }

  // ---------------------------------------------------------------------
  // Column maps

  /** `fillna("=")`, then ">=" becomes ">" and "<=" becomes "<". */
  function CanonicalInequality(inequality: Option<string>): string {
    var s := if inequality.None? then "=" else inequality.value;
    if s == ">=" then ">" else if s == "<=" then "<" else s
  }

  /** `str.contains("mass spec").map({True: "mass_spec", False: "affinity"})` */
  function QualitativeKind(technique: string): string {
    if Contains(technique, "mass spec") then "mass_spec" else "affinity"
  }

  /** `Series.map(dict)`: a missing key gives NaN. */
  function Lookup<V>(table: map<string, V>, key: string): Option<V> {
    if key in table then Some(table[key]) else None
  }

  /** The `last_author` column. */
  function LastAuthor(authors: string): string {
    RemoveChar(Strip(AfterLast(AfterLast(AfterLast(authors, ';'), ','), ' ')), '*')
  }

  /** The `category` column, used as the measurement source. */
  function Category(r: IedbRow): string {
    LastAuthor(r.authors) + " - " + r.technique
  }

  function ToQuantitative(a: Annotated): Measurement {
    Measurement(a.allele, Strip(a.row.description), a.row.quantitative,
      Some(CanonicalInequality(a.row.inequality)), "quantitative", "affinity",
      Category(a.row), a.row.alleleName)
  }

  function ToQualitative(a: Annotated): Measurement {
    Measurement(a.allele, Strip(a.row.description),
      Lookup(QualitativeToAffinity, a.row.qualitativeMeasure),
      Lookup(QualitativeToInequality, a.row.qualitativeMeasure),
      "qualitative", QualitativeKind(a.row.technique), Category(a.row), a.row.alleleName)
  }

  predicate IsQuantitative(a: Annotated) {
    a.row.units == Some("nM")
  }

  predicate IsQualitative(a: Annotated) {
    a.row.units.None?
  }

  /** `Description.str.match("^[ACDEFGHIKLMNPQRSTVWY]+$")` on the stripped
      description. */
  predicate HasPeptide(m: Measurement) {
    MatchesPattern(m.peptide)
  }

  /** `load_data_iedb`: quantitative rows first, then qualitative ones, those
      with a peptide, without exact duplicates. */
  function LoadIedb(rows: seq<IedbRow>, normalize: map<string, string>, includeQualitative: bool): (loaded: seq<Measurement>)
    ensures forall i, j :: 0 <= i < j < |loaded| ==> loaded[i] != loaded[j]
    ensures forall m :: m in loaded <==> m in Measured(Annotate(rows, normalize), includeQualitative) && HasPeptide(m)
  {
    var measured := Measured(Annotate(rows, normalize), includeQualitative);
    var withPeptide := Filter(measured, HasPeptide);
    var loaded := DropDuplicatesBy(withPeptide, (m: Measurement) => m);
    assert forall m :: m in withPeptide ==> m in loaded by {
      forall m | m in withPeptide ensures m in loaded {
        ExactDuplicatesDropped(withPeptide, m);
      }
    }
    loaded
  }

  /** The quantitative rows, then (if included) the qualitative ones. */
  function Measured(annotated: seq<Annotated>, includeQualitative: bool): (measured: seq<Measurement>)
    ensures |measured| == |Filter(annotated, IsQuantitative)| + (if includeQualitative then |Filter(annotated, IsQualitative)| else 0)
    ensures forall i :: 0 <= i < |Filter(annotated, IsQuantitative)| ==>
      measured[i].measurementType == "quantitative" && measured[i].kind == "affinity"
    ensures forall i :: |Filter(annotated, IsQuantitative)| <= i < |measured| ==> measured[i].measurementType == "qualitative"
  {
    var quantitative := Map(Filter(annotated, IsQuantitative), ToQuantitative);
    var qualitative := if includeQualitative then Map(Filter(annotated, IsQualitative), ToQualitative) else [];
    ConcatenatedTypes(quantitative, qualitative);
    quantitative + qualitative
  }

  lemma ConcatenatedTypes(quantitative: seq<Measurement>, qualitative: seq<Measurement>)
    requires forall i :: 0 <= i < |quantitative| ==>
      quantitative[i].measurementType == "quantitative" && quantitative[i].kind == "affinity"
    requires forall i :: 0 <= i < |qualitative| ==> qualitative[i].measurementType == "qualitative"
    ensures forall i :: 0 <= i < |quantitative| ==>
      (quantitative + qualitative)[i].measurementType == "quantitative" && (quantitative + qualitative)[i].kind == "affinity"
    ensures forall i :: |quantitative| <= i < |quantitative + qualitative| ==>
      (quantitative + qualitative)[i].measurementType == "qualitative"
  {
    forall i | |quantitative| <= i < |quantitative + qualitative|
      ensures (quantitative + qualitative)[i].measurementType == "qualitative"
    {
      assert (quantitative + qualitative)[i] == qualitative[i - |quantitative|];
    }
  }

  // ---------------------------------------------------------------------
  // `load_data_additional_ms`

  predicate Monoallelic(r: MsRow) {
    r.format == "MONOALLELIC"
  }

  function ToMassSpec(r: MsRow, allele: string): Measurement {
    Measurement(allele, r.peptide, Some(QualitativeToAffinity["Positive"]), Some("<"),
      "qualitative", "mass_spec", "MS:pmid:" + r.pmid, "")
  }

  function MassSpecRows(mono: seq<MsRow>, normalize: map<string, string>): seq<Measurement>
    requires forall r :: r in mono ==> r.hla in normalize
  {
    seq(|mono|, i requires 0 <= i < |mono| => ToMassSpec(mono[i], normalize[mono[i].hla]))
  }

  /** The monoallelic rows, each with its normalised allele; an allele that
      does not normalise fails the script's assertion. */
  function LoadMs(rows: seq<MsRow>, normalize: map<string, string>): (r: Result<seq<Measurement>, CurateFailure>)
    ensures r.Err? <==> exists x :: x in rows && Monoallelic(x) && x.hla !in normalize
  {
    var mono := Filter(rows, Monoallelic);
    if exists x :: x in mono && x.hla !in normalize then Err(MsAlleleNotNormalized)
    else Ok(MassSpecRows(mono, normalize))
  }

  // ---------------------------------------------------------------------
  // `run`

  function ConcatIedb(files: seq<seq<IedbRow>>, normalize: map<string, string>): seq<Measurement> {
    if files == [] then []
    else LoadIedb(files[0], normalize, true) + ConcatIedb(files[1..], normalize)
  }

  function ConcatMs(files: seq<seq<MsRow>>, normalize: map<string, string>): (r: Result<seq<Measurement>, CurateFailure>)
    ensures r.Err? ==> r.error == MsAlleleNotNormalized
  {
    if files == [] then Ok([])
    else
      match LoadMs(files[0], normalize)
      case Err(e) => Err(e)
      case Ok(first) =>
        match ConcatMs(files[1..], normalize)
        case Err(e) => Err(e)
        case Ok(rest) => Ok(first + rest)
  }

  /** The key of the combined `drop_duplicates`. */
  function MeasurementKey(m: Measurement): (string, string, Option<real>, string) {
    (m.allele, m.peptide, m.value, m.kind)
  }

  /** `sort_values(["allele", "peptide"])`: by allele, then by peptide. */
  predicate AllelePeptideLe(a: Measurement, b: Measurement) {
    StrLe(a.allele, b.allele) && (a.allele == b.allele ==> StrLe(a.peptide, b.peptide))
  }

  /** `dropna()` */
  predicate Complete(m: Measurement) {
    m.value.Some? && m.inequality.Some?
  }

  /** `pandas.concat(dfs)`: every IEDB export, then every mass-spec list. */
  function Combined(iedbFiles: seq<seq<IedbRow>>, msFiles: seq<seq<MsRow>>, normalize: map<string, string>): seq<Measurement>
    requires ConcatMs(msFiles, normalize).Ok?
  {
    ConcatIedb(iedbFiles, normalize) + ConcatMs(msFiles, normalize).value
  }

  /** `run` minus file I/O: the combined rows de-duplicated on (allele,
      peptide, value, kind), sorted, and rid of rows with a missing value. */
  function Run(iedbFiles: seq<seq<IedbRow>>, msFiles: seq<seq<MsRow>>, normalize: map<string, string>): (r: Result<seq<Measurement>, CurateFailure>)
    ensures r.Err? <==> (iedbFiles == [] && msFiles == []) || ConcatMs(msFiles, normalize).Err?
  {
    if iedbFiles == [] && msFiles == [] then Err(NothingToConcatenate)
    else if ConcatMs(msFiles, normalize).Err? then Err(ConcatMs(msFiles, normalize).error)
    else
      var deduped := DropDuplicatesBy(Combined(iedbFiles, msFiles, normalize), MeasurementKey);
      Ok(Filter(SortBy(deduped, AllelePeptideLe), Complete))
  }

  // ---------------------------------------------------------------------
  // Properties

  /** The qualitative table, and the two tables derived from it agree with
      it key by key. */
  lemma QualitativeTables()
    ensures QualitativeToAffinityAndInequality.Keys ==
      {"Negative", "Positive", "Positive-High", "Positive-Intermediate", "Positive-Low"}
    ensures QualitativeToAffinity.Keys == QualitativeToAffinityAndInequality.Keys
    ensures QualitativeToInequality.Keys == QualitativeToAffinityAndInequality.Keys
    ensures forall k :: k in QualitativeToAffinityAndInequality ==>
      (QualitativeToAffinity[k], QualitativeToInequality[k]) == QualitativeToAffinityAndInequality[k]
    ensures QualitativeToAffinity["Negative"] == 5000.0 && QualitativeToInequality["Negative"] == ">"
    ensures QualitativeToAffinity["Positive"] == 100.0 && QualitativeToInequality["Positive"] == "<"
    ensures QualitativeToAffinity["Positive-High"] == 100.0 && QualitativeToInequality["Positive-High"] == "<"
    ensures QualitativeToAffinity["Positive-Intermediate"] == 1000.0 && QualitativeToInequality["Positive-Intermediate"] == "<"
    ensures QualitativeToAffinity["Positive-Low"] == 5000.0 && QualitativeToInequality["Positive-Low"] == "<"
  {
  }

  /** A quantitative inequality is never ">=" or "<=": a missing one becomes
      "=", the two non-strict ones become strict, anything else is kept; so
      canonicalising twice changes nothing. */
  lemma CanonicalInequalityFacts(inequality: Option<string>)
    ensures CanonicalInequality(inequality) != ">=" && CanonicalInequality(inequality) != "<="
    ensures inequality.None? ==> CanonicalInequality(inequality) == "="
    ensures inequality == Some(">=") ==> CanonicalInequality(inequality) == ">"
    ensures inequality == Some("<=") ==> CanonicalInequality(inequality) == "<"
    ensures inequality.Some? && inequality.value != ">=" && inequality.value != "<=" ==>
      CanonicalInequality(inequality) == inequality.value
    ensures CanonicalInequality(Some(CanonicalInequality(inequality))) == CanonicalInequality(inequality)
  {
  }

  /** Names like "HLA-A03" and "HLA-DR4" fix no allele and are dropped. */
  lemma InsufficientExamples()
    ensures InsufficientlySpecific("HLA-A03")
    ensures InsufficientlySpecific("HLA-DR4")
  {
    assert Upper("HLA-A03")[1] == 'L' && Upper("HLA-DR4")[1] == 'L';
    assert DigitCount("HLA-A03") == 2 && DigitCount("HLA-DR4") == 1;
  }

  /** A full allele name passes; so does any mouse or macaque name, whatever
      its digits. */
  lemma SufficientExamples()
    ensures !InsufficientlySpecific("HLA-DRB1*01:01")
    ensures !InsufficientlySpecific("H2-IAb")
    ensures !InsufficientlySpecific("Mamu-DR")
  {
    assert Upper("H2-IAb")[..3] == "H2-";
    assert Upper("Mamu-DR")[..4] == "MAMU";
  }

  /** The last author holds no ';', ',', space or '*'. */
  lemma LastAuthorClean(authors: string)
    ensures ';' !in LastAuthor(authors) && ',' !in LastAuthor(authors)
    ensures ' ' !in LastAuthor(authors) && '*' !in LastAuthor(authors)
  {
    var a1 := AfterLast(authors, ';');
    var a2 := AfterLast(a1, ',');
    var a3 := AfterLast(a2, ' ');
    assert forall x :: x in a2 ==> x in a1;
    assert forall x :: x in a3 ==> x in a2;
    StripWithin(a3);
  }

  /** A qualitative row takes its value and inequality from the table, both
      missing for an outcome the table lacks; its kind is "mass_spec" iff its
      method mentions mass spec, and "affinity" otherwise. */
  lemma QualitativeFromTable(a: Annotated)
    ensures var m := ToQualitative(a); var q := a.row.qualitativeMeasure;
      && (q in QualitativeToAffinityAndInequality ==>
            m.value == Some(QualitativeToAffinityAndInequality[q].0)
            && m.inequality == Some(QualitativeToAffinityAndInequality[q].1))
      && (q !in QualitativeToAffinityAndInequality ==> m.value.None? && m.inequality.None?)
      && (m.kind == "mass_spec" <==> Contains(a.row.technique, "mass spec"))
      && (m.kind == "mass_spec" || m.kind == "affinity")
      && m.measurementType == "qualitative"
  {
  }

  /** Every row of `load_data_iedb` comes from an input row that passes every
      filter: as a quantitative measurement if its units are nM, as a
      qualitative one if it has none; its peptide is the stripped
      description, non-empty, in the 20-letter alphabet. */
  lemma IedbRowSound(rows: seq<IedbRow>, normalize: map<string, string>, includeQualitative: bool, m: Measurement)
    requires m in LoadIedb(rows, normalize, includeQualitative)
    ensures exists a: Annotated :: && a.row in rows && RowKept(a.row, normalize) && a.allele == normalize[a.row.alleleName]
                        && ((a.row.units == Some("nM") && m == ToQuantitative(a))
                            || (includeQualitative && a.row.units.None? && m == ToQualitative(a)))
    ensures m.peptide != [] && AllAminoAcids(m.peptide)
  {
    var annotated := Annotate(rows, normalize);
    var quantitative := Map(Filter(annotated, IsQuantitative), ToQuantitative);
    var qualitative := if includeQualitative then Map(Filter(annotated, IsQualitative), ToQualitative) else [];
    assert m in Filter(Measured(annotated, includeQualitative), HasPeptide);
    assert m in quantitative || m in qualitative;
    var a :| (a in Filter(annotated, IsQuantitative) && m == ToQuantitative(a))
          || (includeQualitative && a in Filter(annotated, IsQualitative) && m == ToQualitative(a));
    StrippedPeptide(a.row.description);
  }

  /** The pattern check on a stripped description is a plain full match. */
  lemma StrippedPeptide(description: string)
    ensures MatchesPattern(Strip(description)) <==> Strip(description) != [] && AllAminoAcids(Strip(description))
  {
    var p := Strip(description);
    if p != [] {
      assert !IsSpace(p[|p| - 1]);
    }
    MatchWithoutTrailingNewline(p);
  }

  /** Conversely, a row that passes every filter, has nM or no units and a
      description that strips to a peptide yields its measurement. */
  lemma IedbRowComplete(rows: seq<IedbRow>, normalize: map<string, string>, includeQualitative: bool, r: IedbRow)
    requires r in rows && RowKept(r, normalize)
    requires r.units == Some("nM") || (includeQualitative && r.units.None?)
    requires Strip(r.description) != [] && AllAminoAcids(Strip(r.description))
    ensures var a := Annotated(r, normalize[r.alleleName]);
      (if r.units == Some("nM") then ToQuantitative(a) else ToQualitative(a)) in LoadIedb(rows, normalize, includeQualitative)
  {
    var a := Annotated(r, normalize[r.alleleName]);
    var m := if r.units == Some("nM") then ToQuantitative(a) else ToQualitative(a);
    var measured := Measured(Annotate(rows, normalize), includeQualitative);
    MeasuredComplete(Annotate(rows, normalize), includeQualitative, a);
    StrippedPeptide(r.description);
    PeptideRowKept(measured, m);
  }

  lemma PeptideRowKept(measured: seq<Measurement>, m: Measurement)
    requires m in measured && HasPeptide(m)
    ensures m in DropDuplicatesBy(Filter(measured, HasPeptide), (x: Measurement) => x)
  {
    ExactDuplicatesDropped(Filter(measured, HasPeptide), m);
  }

  lemma MeasuredComplete(annotated: seq<Annotated>, includeQualitative: bool, a: Annotated)
    requires a in annotated
    requires IsQuantitative(a) || (includeQualitative && IsQualitative(a))
    ensures (if IsQuantitative(a) then ToQuantitative(a) else ToQualitative(a)) in Measured(annotated, includeQualitative)
  {
    if IsQuantitative(a) {
      assert ToQuantitative(a) in Map(Filter(annotated, IsQuantitative), ToQuantitative);
    } else {
      assert ToQualitative(a) in Map(Filter(annotated, IsQualitative), ToQualitative);
    }
  }

  /** The additional mass-spec rows are the monoallelic ones, in order, each
      a qualitative mass-spec hit at 100 nM, "<", sourced by its PMID. */
  lemma MassSpecRowsShape(rows: seq<MsRow>, normalize: map<string, string>)
    requires LoadMs(rows, normalize).Ok?
    ensures var mono := Filter(rows, Monoallelic); var out := LoadMs(rows, normalize).value;
      && |out| == |mono|
      && forall i :: 0 <= i < |out| ==>
           && mono[i].hla in normalize
           && out[i] == Measurement(normalize[mono[i].hla], mono[i].peptide, Some(100.0), Some("<"),
                                    "qualitative", "mass_spec", "MS:pmid:" + mono[i].pmid, "")
  {
    var mono := Filter(rows, Monoallelic);
    QualitativeTables();
    forall i | 0 <= i < |mono| ensures mono[i].hla in normalize && Monoallelic(mono[i]) {
      assert mono[i] in mono;
    }
  }

  lemma AllelePeptideLeIsTotalPreorder()
    ensures TotalPreorder(AllelePeptideLe)
  {
    forall a: Measurement, b: Measurement ensures AllelePeptideLe(a, b) || AllelePeptideLe(b, a) {
      StrLeTotal(a.allele, b.allele);
      StrLeTotal(a.peptide, b.peptide);
      if StrLe(a.allele, b.allele) && StrLe(b.allele, a.allele) {
        StrLeAntisymmetric(a.allele, b.allele);
      }
    }
    forall a: Measurement, b: Measurement, c: Measurement | AllelePeptideLe(a, b) && AllelePeptideLe(b, c)
      ensures AllelePeptideLe(a, c)
    {
      StrLeTransitive(a.allele, b.allele, c.allele);
      if a.allele == c.allele {
        StrLeAntisymmetric(a.allele, b.allele);
        StrLeTransitive(a.peptide, b.peptide, c.peptide);
      }
    }
  }

  /** The output is sorted by allele, then by peptide, and no two rows share
      (allele, peptide, value, kind); every row has a value and an
      inequality. */
  lemma RunShape(iedbFiles: seq<seq<IedbRow>>, msFiles: seq<seq<MsRow>>, normalize: map<string, string>)
    requires Run(iedbFiles, msFiles, normalize).Ok?
    ensures var out := Run(iedbFiles, msFiles, normalize).value;
      && (forall i, j :: 0 <= i < j < |out| ==>
            StrLe(out[i].allele, out[j].allele)
            && (out[i].allele == out[j].allele ==> StrLe(out[i].peptide, out[j].peptide)))
      && (forall i, j :: 0 <= i < j < |out| ==> MeasurementKey(out[i]) != MeasurementKey(out[j]))
      && (forall m :: m in out ==> m.value.Some? && m.inequality.Some?)
  {
    var deduped := DropDuplicatesBy(Combined(iedbFiles, msFiles, normalize), MeasurementKey);
    var sorted := SortBy(deduped, AllelePeptideLe);
    AllelePeptideLeIsTotalPreorder();
    SortBySorted(deduped, AllelePeptideLe);
    FilterSorted(sorted, Complete, AllelePeptideLe);
    DistinctKeysPermutation(deduped, sorted, MeasurementKey);
    FilterDistinctKeys(sorted, Complete, MeasurementKey);
  }

  /** The first combined row of each (allele, peptide, value, kind) is in the
      output iff it has a value and an inequality. */
  lemma RunKeepsFirstComplete(iedbFiles: seq<seq<IedbRow>>, msFiles: seq<seq<MsRow>>, normalize: map<string, string>, i: nat)
    requires Run(iedbFiles, msFiles, normalize).Ok?
    requires i < |Combined(iedbFiles, msFiles, normalize)|
    requires forall k :: 0 <= k < i ==>
      MeasurementKey(Combined(iedbFiles, msFiles, normalize)[k]) != MeasurementKey(Combined(iedbFiles, msFiles, normalize)[i])
    ensures Combined(iedbFiles, msFiles, normalize)[i] in Run(iedbFiles, msFiles, normalize).value
      <==> Complete(Combined(iedbFiles, msFiles, normalize)[i])
  {
    var combined := Combined(iedbFiles, msFiles, normalize);
    var deduped := DropDuplicatesBy(combined, MeasurementKey);
    FirstOfKeyKept(combined, MeasurementKey, i);
    assert combined[i] in multiset(SortBy(deduped, AllelePeptideLe));
  }

  /** Every output row is one of the combined rows. */
  lemma RunRowsFromCombined(iedbFiles: seq<seq<IedbRow>>, msFiles: seq<seq<MsRow>>, normalize: map<string, string>, m: Measurement)
    requires Run(iedbFiles, msFiles, normalize).Ok?
    requires m in Run(iedbFiles, msFiles, normalize).value
    ensures m in Combined(iedbFiles, msFiles, normalize)
  {
    var deduped := DropDuplicatesBy(Combined(iedbFiles, msFiles, normalize), MeasurementKey);
    assert m in multiset(SortBy(deduped, AllelePeptideLe));
  }
}
