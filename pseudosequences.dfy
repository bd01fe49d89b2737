/** Column selection by `(maf, cutoff, fraction)` criteria and pseudosequence
    extraction, the last part of make_pseudosequences.py's run, and the run
    itself as the composition of the position maps, minor-allele fractions,
    contact scan and contact rates. */
module Pseudosequences {
  import opened Wrappers
  import opened Strings
  import opened Alignments
  import opened PositionMaps
  import opened MinorAlleleFractions
  import opened ContactScan
  import opened ContactRates

  /** One `--criteria` triple. */
  datatype Criterion = Criterion(maf: real, cutoff: real, fraction: real)

  /** The selected columns of one criterion, per kind. */
  datatype Selection = Selection(alpha: seq<nat>, beta: seq<nat>)

  function ColumnsOf(s: Selection, kind: Kind): seq<nat> {
    if kind == Alpha then s.alpha else s.beta
  }

  /** `positional_df[cutoff]`: the sorted position of the criterion's cutoff
      among the rate columns; an absent cutoff is a KeyError. */
  function CutoffIndex(cs: seq<real>, cutoff: real): (r: Result<nat, Failure>)
    ensures r.Err? <==> cutoff !in cs
    ensures r.Err? ==> r.error == UnknownCutoff(cutoff)
    ensures r.Ok? ==> r.value < |cs| && cs[r.value] == cutoff && cutoff !in cs[..r.value]
  {
    if cs == [] then Err(UnknownCutoff(cutoff))
    else if cs[0] == cutoff then Ok(0)
    else match CutoffIndex(cs[1..], cutoff)
      case Err(e) => Err(e)
      case Ok(i) =>
        assert cs[..i + 1] == [cs[0]] + cs[1..][..i];
        Ok(i + 1)
  }

  /** The criterion's mask at one column: `minor_allele_fraction >= maf` and
      the rate at the criterion's cutoff `>= fraction`. */
  predicate Meets(stats: seq<ColumnStat>, contacts: seq<Contact>, kind: Kind, cs: seq<real>, k: nat,
                  c: Criterion, p: nat)
    requires p < |stats| && k < |cs|
  {
    stats[p].minorAlleleFraction >= c.maf && Rate(contacts, kind, p, cs, k) >= c.fraction
  }

  predicate Increasing(ps: seq<nat>) {
    forall i, j :: 0 <= i < j < |ps| ==> ps[i] < ps[j]
  }

  /** The columns among 0 .. n-1 of one kind's table that meet the criterion,
      in increasing order (`...mhc_residue_aligned.unique().map(sorted)`). */
  function SelectColumns(stats: seq<ColumnStat>, contacts: seq<Contact>, kind: Kind, cs: seq<real>, k: nat,
                         c: Criterion, n: nat): (ps: seq<nat>)
    requires n <= |stats| && k < |cs|
    ensures Increasing(ps)
    ensures forall p: nat :: p in ps <==> p < n && Meets(stats, contacts, kind, cs, k, c, p)
  {
    if n == 0 then []
    else
      var ps := SelectColumns(stats, contacts, kind, cs, k, c, n - 1);
      assert forall i :: 0 <= i < |ps| ==> ps[i] in ps;
      if Meets(stats, contacts, kind, cs, k, c, n - 1) then ps + [n - 1] else ps
  }

  /** With a positive minor-allele-fraction threshold, a selected column is
      never one on which all reference alleles agree. */
  lemma SelectedColumnsVary(panel: seq<string>, stats: seq<ColumnStat>, contacts: seq<Contact>, kind: Kind,
                            cs: seq<real>, k: nat, c: Criterion, p: nat)
    requires panel != [] && OneLength(panel) && |stats| == |panel[0]|
    requires forall q :: 0 <= q < |stats| ==> stats[q] == StatAt(panel, q)
    requires k < |cs| && c.maf > 0.0
    requires p in SelectColumns(stats, contacts, kind, cs, k, c, |stats|)
    ensures !Uniform(Column(panel, p))
  {
    MafZeroIffUniform(Column(panel, p));
  }

  /** The selection of every criterion, in order; the first criterion whose
      cutoff is not among the cutoffs fails. */
  function Selections(alpha: seq<ColumnStat>, beta: seq<ColumnStat>, contacts: seq<Contact>, cs: seq<real>,
                      criteria: seq<Criterion>): (r: Result<seq<Selection>, Failure>)
    ensures r.Err? <==> exists c :: c in criteria && c.cutoff !in cs
    ensures r.Err? ==> r.error.UnknownCutoff? && r.error.cutoff !in cs
    ensures r.Err? ==> exists c :: c in criteria && c.cutoff == r.error.cutoff
    ensures r.Ok? ==> |r.value| == |criteria| && forall q :: 0 <= q < |criteria| ==>
      && CutoffIndex(cs, criteria[q].cutoff).Ok?
      && r.value[q] == Selection(
           SelectColumns(alpha, contacts, Alpha, cs, CutoffIndex(cs, criteria[q].cutoff).value, criteria[q], |alpha|),
           SelectColumns(beta, contacts, Beta, cs, CutoffIndex(cs, criteria[q].cutoff).value, criteria[q], |beta|))
  {
    if criteria == [] then Ok([])
    else
      var c := criteria[0];
      assert forall x :: x in criteria <==> x == c || x in criteria[1..];
      match CutoffIndex(cs, c.cutoff)
      case Err(e) => Err(e)
      case Ok(k) =>
        var s := Selection(SelectColumns(alpha, contacts, Alpha, cs, k, c, |alpha|),
                           SelectColumns(beta, contacts, Beta, cs, k, c, |beta|));
        match Selections(alpha, beta, contacts, cs, criteria[1..])
        case Err(e) => Err(e)
        case Ok(rest) => Ok([s] + rest)
  }

  lemma {:induction false} SelectColumnsSameRows(stats: seq<ColumnStat>, c1: seq<Contact>, c2: seq<Contact>, kind: Kind,
                                                  cs: seq<real>, k: nat, c: Criterion, n: nat)
    requires forall x :: x in c1 <==> x in c2
    requires n <= |stats| && k < |cs|
    ensures SelectColumns(stats, c1, kind, cs, k, c, n) == SelectColumns(stats, c2, kind, cs, k, c, n)
  {
    if n > 0 {
      SelectColumnsSameRows(stats, c1, c2, kind, cs, k, c, n - 1);
      RateSameRows(c1, c2, kind, n - 1, cs, k);
      assert Meets(stats, c1, kind, cs, k, c, n - 1) == Meets(stats, c2, kind, cs, k, c, n - 1);
    }
  }

  /** The selections depend on the contacts table only through which rows
      it holds. */
  lemma {:induction false} SelectionsSameRows(alpha: seq<ColumnStat>, beta: seq<ColumnStat>, c1: seq<Contact>, c2: seq<Contact>,
                                               cs: seq<real>, criteria: seq<Criterion>)
    requires forall x :: x in c1 <==> x in c2
    ensures Selections(alpha, beta, c1, cs, criteria) == Selections(alpha, beta, c2, cs, criteria)
  {
    if criteria != [] {
      var c := criteria[0];
      SelectionsSameRows(alpha, beta, c1, c2, cs, criteria[1..]);
      match CutoffIndex(cs, c.cutoff)
      case Err(_) =>
      case Ok(k) =>
        SelectColumnsSameRows(alpha, c1, c2, Alpha, cs, k, c, |alpha|);
        SelectColumnsSameRows(beta, c1, c2, Beta, cs, k, c, |beta|);
    }
  }

  /** `operator.itemgetter(*positions)` joined into a string. */
  function Pick(aligned: string, ps: seq<nat>): (picked: string)
    requires forall i :: 0 <= i < |ps| ==> ps[i] < |aligned|
    ensures |picked| == |ps| && forall i :: 0 <= i < |ps| ==> picked[i] == aligned[ps[i]]
  {
    seq(|ps|, i requires 0 <= i < |ps| => aligned[ps[i]])
  }

  /** The pseudosequence of one allele: the picked characters with `-`
      replaced by `X`. */
  function Pseudosequence(aligned: string, ps: seq<nat>): (pseudo: string)
    requires forall i :: 0 <= i < |ps| ==> ps[i] < |aligned|
    ensures |pseudo| == |ps| && Gap !in pseudo
    ensures forall i :: 0 <= i < |ps| ==> pseudo[i] == if aligned[ps[i]] == Gap then 'X' else aligned[ps[i]]
  {
    ReplaceChar(Pick(aligned, ps), Gap, 'X')
  }

  /** Two alleles that agree on the selected columns get the same
      pseudosequence, and alleles with different pseudosequences differ on a
      selected column. */
  lemma PseudosequenceSeesOnlySelected(a: string, b: string, ps: seq<nat>)
    requires forall i :: 0 <= i < |ps| ==> ps[i] < |a| && ps[i] < |b|
    ensures Pseudosequence(a, ps) == Pseudosequence(b, ps) <==>
      forall i :: 0 <= i < |ps| ==> (a[ps[i]] == b[ps[i]] || (a[ps[i]] in "X-" && b[ps[i]] in "X-"))
  {
    var x, y := Pseudosequence(a, ps), Pseudosequence(b, ps);
    if x == y {
      forall i | 0 <= i < |ps| ensures a[ps[i]] == b[ps[i]] || (a[ps[i]] in "X-" && b[ps[i]] in "X-") {
        assert x[i] == y[i];
      }
    }
  }

  /** One row of the output table. */
  datatype PseudosequenceRow = PseudosequenceRow(id: Option<string>, kind: Kind, pseudosequences: seq<string>)

  /** A kind and criterion with no selected column make `itemgetter()` fail. */
  function FirstEmpty(selections: seq<Selection>): (r: Option<Failure>)
    ensures r.None? <==> forall q :: 0 <= q < |selections| ==> selections[q].alpha != [] && selections[q].beta != []
    ensures r.Some? ==> r.value.EmptySelection? && r.value.criterion < |selections|
    ensures r.Some? ==> ColumnsOf(selections[r.value.criterion], r.value.kind) == []
  {
    if selections == [] then None
    else if selections[0].alpha == [] then Some(EmptySelection(0, Alpha))
    else if selections[0].beta == [] then Some(EmptySelection(0, Beta))
    else match FirstEmpty(selections[1..])
      case None => None
      case Some(EmptySelection(q, kind)) => Some(EmptySelection(q + 1, kind))
      case Some(e) => Some(e)
  }

  /** The selected columns are within every sequence of the matching kind. */
  ghost predicate Fits(records: seq<AlignedRecord>, selections: seq<Selection>) {
    forall r, q, i :: r in records && 0 <= q < |selections| && 0 <= i < |ColumnsOf(selections[q], r.kind)| ==>
      ColumnsOf(selections[q], r.kind)[i] < |r.aligned|
  }

  /** One row per non-PDB record, in input order. */
  function Rows(records: seq<AlignedRecord>, selections: seq<Selection>): (rows: seq<PseudosequenceRow>)
    requires Fits(records, selections)
    ensures |rows| == |records|
    ensures forall i :: 0 <= i < |records| ==>
      && rows[i].kind == records[i].kind
      && rows[i].id == (if HasAlleleId(records[i].description) then Some(AlleleId(records[i].description)) else None)
      && |rows[i].pseudosequences| == |selections|
      && forall q :: 0 <= q < |selections| ==>
           rows[i].pseudosequences[q] == Pseudosequence(records[i].aligned, ColumnsOf(selections[q], records[i].kind))
  {
    seq(|records|, i requires 0 <= i < |records| =>
      var r := records[i];
      PseudosequenceRow(
        if HasAlleleId(r.description) then Some(AlleleId(r.description)) else None,
        r.kind,
        seq(|selections|, q requires 0 <= q < |selections| => Pseudosequence(r.aligned, ColumnsOf(selections[q], r.kind)))))
  }

  /** `index.value_counts().max() == 1`: the identifiers that exist are
      pairwise distinct, and there is at least one (the maximum of no counts
      is NaN, which fails the comparison). */
  predicate IdsUnique(rows: seq<PseudosequenceRow>) {
    && (exists i :: 0 <= i < |rows| && rows[i].id.Some?)
    && forall i, j :: 0 <= i < j < |rows| && rows[i].id.Some? && rows[j].id.Some? ==> rows[i].id != rows[j].id
  }

  /** The identifier of the first row whose identifier occurs again later. */
  function RepeatedId(rows: seq<PseudosequenceRow>): (r: Option<string>)
    ensures r.None? <==> forall i, j :: 0 <= i < j < |rows| && rows[i].id.Some? && rows[j].id.Some? ==> rows[i].id != rows[j].id
    ensures r.Some? ==> exists i, j :: 0 <= i < j < |rows| && rows[i].id == rows[j].id == Some(r.value)
  {
    if rows == [] then None
    else if rows[0].id.Some? && exists j :: 1 <= j < |rows| && rows[j].id == rows[0].id then Some(rows[0].id.value)
    else
      var r := RepeatedId(rows[1..]);
      assert forall i :: 1 <= i < |rows| ==> rows[i] == rows[1..][i - 1];
      if r.Some? then
        var i, j :| 0 <= i < j < |rows[1..]| && rows[1..][i].id == rows[1..][j].id == Some(r.value);
        assert rows[i + 1].id == rows[j + 1].id;
        r
      else r
  }

  function CheckIds(rows: seq<PseudosequenceRow>): (r: Result<seq<PseudosequenceRow>, Failure>)
    ensures r.Ok? <==> IdsUnique(rows)
    ensures r.Ok? ==> r.value == rows
    ensures r.Err? ==> r.error.DuplicateAlleleId? || r.error == NoAlleleIds
    ensures r == Err(NoAlleleIds) ==> forall i :: 0 <= i < |rows| ==> rows[i].id.None?
    ensures r.Err? && r.error.DuplicateAlleleId? ==>
      exists i, j :: 0 <= i < j < |rows| && rows[i].id == rows[j].id == Some(r.error.id)
  {
    var repeated := RepeatedId(rows);
    if repeated.Some? then Err(DuplicateAlleleId(repeated.value))
    else if exists i :: 0 <= i < |rows| && rows[i].id.Some? then Ok(rows)
    else Err(NoAlleleIds)
  }

  /** Selection, extraction and the identifier check, over the reference
      records of both kinds, given the two minor-allele fraction tables and
      the contacts. An unknown cutoff names a criterion's cutoff that is
      missing; an empty selection names a criterion and kind whose selection
      is empty; success means every criterion selected columns of both kinds,
      every row holds the pseudosequences of its record, and the identifiers
      are unique. */
  function Finish(records: seq<AlignedRecord>, alpha: seq<ColumnStat>, beta: seq<ColumnStat>, contacts: seq<Contact>,
                  cs: seq<real>, criteria: seq<Criterion>): (r: Result<(seq<Selection>, seq<PseudosequenceRow>), Failure>)
    requires forall rec :: rec in records ==> |if rec.kind == Alpha then alpha else beta| <= |rec.aligned|
    ensures r.Err? ==> r.error.UnknownCutoff? || r.error.EmptySelection? || r.error.DuplicateAlleleId? || r.error.NoAlleleIds?
    ensures r.Err? && r.error.UnknownCutoff? ==>
      r.error.cutoff !in cs && exists c :: c in criteria && c.cutoff == r.error.cutoff
    ensures r.Err? && r.error.EmptySelection? ==>
      && Selections(alpha, beta, contacts, cs, criteria).Ok?
      && r.error.criterion < |criteria|
      && ColumnsOf(Selections(alpha, beta, contacts, cs, criteria).value[r.error.criterion], r.error.kind) == []
    ensures r.Ok? ==>
      && Selections(alpha, beta, contacts, cs, criteria) == Ok(r.value.0)
      && (forall q :: 0 <= q < |criteria| ==> r.value.0[q].alpha != [] && r.value.0[q].beta != [])
      && Fits(records, r.value.0)
      && r.value.1 == Rows(records, r.value.0)
      && IdsUnique(r.value.1)
  {
    match Selections(alpha, beta, contacts, cs, criteria)
    case Err(e) => Err(e)
    case Ok(selections) =>
      match FirstEmpty(selections)
      case Some(e) => Err(e)
      case None =>
        SelectionsFit(records, alpha, beta, contacts, cs, criteria);
        match CheckIds(Rows(records, selections))
        case Err(e) => Err(e)
        case Ok(rows) => Ok((selections, rows))
  }

  /** Selected columns lie within the table they were selected from, so
      within every reference sequence of that kind. */
  lemma SelectionsFit(records: seq<AlignedRecord>, alpha: seq<ColumnStat>, beta: seq<ColumnStat>, contacts: seq<Contact>,
                      cs: seq<real>, criteria: seq<Criterion>)
    requires forall rec :: rec in records ==> |if rec.kind == Alpha then alpha else beta| <= |rec.aligned|
    requires Selections(alpha, beta, contacts, cs, criteria).Ok?
    ensures Fits(records, Selections(alpha, beta, contacts, cs, criteria).value)
  {
    var sel := Selections(alpha, beta, contacts, cs, criteria).value;
    forall r, q, i | r in records && 0 <= q < |sel| && 0 <= i < |ColumnsOf(sel[q], r.kind)|
      ensures ColumnsOf(sel[q], r.kind)[i] < |r.aligned|
    {
      var ps := ColumnsOf(sel[q], r.kind);
      assert ps[i] in ps;
    }
  }

  /** The minor-allele fraction table of one kind, as the column loop builds it. */
  ghost predicate StatsFor(records: seq<AlignedRecord>, kind: Kind, stats: seq<ColumnStat>) {
    var panel := Panel(records, kind);
    && OneLength(panel)
    && |stats| == (if panel == [] then 0 else |panel[0]|)
    && forall p :: 0 <= p < |stats| ==> stats[p] == StatAt(panel, p)
  }

  /** Everything the run computes: the two minor-allele fraction tables, the
      contacts table, the selected columns per criterion and the output rows. */
  datatype Output = Output(
    alphaStats: seq<ColumnStat>, betaStats: seq<ColumnStat>, contacts: seq<Contact>,
    selections: seq<Selection>, rows: seq<PseudosequenceRow>)

  lemma StatsFit(records: seq<AlignedRecord>, kind: Kind, stats: seq<ColumnStat>)
    requires StatsFor(records, kind, stats)
    ensures forall r :: r in NonPdb(records) && r.kind == kind ==> |stats| <= |r.aligned|
  {
    var panel := Panel(records, kind);
    forall r | r in NonPdb(records) && r.kind == kind ensures |stats| <= |r.aligned| {
      assert r.aligned in panel;
      var i :| 0 <= i < |panel| && panel[i] == r.aligned;
    }
  }

  /** The tables the analysis produces: the minor-allele fraction table of
      each kind, no accession failing its integrity check, exactly the
      contacts the scan records, and every reference sequence at least as long
      as its kind's table. */
  ghost predicate Analysed(records: seq<AlignedRecord>, load: string -> Structure, cutoffs: seq<real>,
                           minLength: nat, maxLength: nat, t: (seq<ColumnStat>, seq<ColumnStat>, seq<Contact>))
  {
    && StatsFor(records, Alpha, t.0)
    && StatsFor(records, Beta, t.1)
    && !SomeFails(PdbRecords(records), load, SortedCutoffs(cutoffs), minLength, maxLength, Accessions(PdbRecords(records)))
    && (forall c :: c in t.2 <==>
          SomeContributes(PdbRecords(records), load, SortedCutoffs(cutoffs), minLength, maxLength, Accessions(PdbRecords(records)), c))
    && (forall rec :: rec in NonPdb(records) ==> |if rec.kind == Alpha then t.0 else t.1| <= |rec.aligned|)
  }

  /** The analysis succeeds when both kinds' reference sequences have one
      aligned length and no accession fails its integrity check. */
  ghost predicate AnalysisSucceeds(records: seq<AlignedRecord>, load: string -> Structure, cutoffs: seq<real>,
                                   minLength: nat, maxLength: nat)
  {
    && OneLength(Panel(records, Alpha))
    && OneLength(Panel(records, Beta))
    && !SomeFails(PdbRecords(records), load, SortedCutoffs(cutoffs), minLength, maxLength, Accessions(PdbRecords(records)))
  }

  lemma StatsUnique(records: seq<AlignedRecord>, kind: Kind, s1: seq<ColumnStat>, s2: seq<ColumnStat>)
    requires StatsFor(records, kind, s1) && StatsFor(records, kind, s2)
    ensures s1 == s2
  {
  }

  /** Whatever order the scan lists the contacts in, the analysed tables
      determine the outcome of selection, extraction and the identifier
      check. */
  lemma FinishDetermined(records: seq<AlignedRecord>, load: string -> Structure, cutoffs: seq<real>,
                         criteria: seq<Criterion>, minLength: nat, maxLength: nat,
                         t: (seq<ColumnStat>, seq<ColumnStat>, seq<Contact>), u: (seq<ColumnStat>, seq<ColumnStat>, seq<Contact>))
    requires Analysed(records, load, cutoffs, minLength, maxLength, t)
    requires Analysed(records, load, cutoffs, minLength, maxLength, u)
    ensures Finish(NonPdb(records), t.0, t.1, t.2, SortedCutoffs(cutoffs), criteria)
         == Finish(NonPdb(records), u.0, u.1, u.2, SortedCutoffs(cutoffs), criteria)
  {
    StatsUnique(records, Alpha, t.0, u.0);
    StatsUnique(records, Beta, t.1, u.1);
    SelectionsSameRows(t.0, t.1, t.2, u.2, SortedCutoffs(cutoffs), criteria);
  }

  /** The minor-allele fraction tables of both kinds, alpha first, and the
      contacts of every PDB accession (`load` opens a structure). */
  method Analyse(records: seq<AlignedRecord>, load: string -> Structure, cutoffs: seq<real>,
                 minLength: nat, maxLength: nat)
    returns (r: Result<(seq<ColumnStat>, seq<ColumnStat>, seq<Contact>), Failure>)
    ensures r.Err? <==> !AnalysisSucceeds(records, load, cutoffs, minLength, maxLength)
    ensures r.Err? ==> r.error.UnequalAlignedLengths? || r.error.IntegrityViolation?
    ensures r.Err? && r.error.UnequalAlignedLengths? ==>
      && !OneLength(Panel(records, r.error.kind))
      && (r.error.kind == Beta ==> OneLength(Panel(records, Alpha)))
    ensures r.Err? && r.error.IntegrityViolation? ==>
      && OneLength(Panel(records, Alpha))
      && OneLength(Panel(records, Beta))
      && SomeFails(PdbRecords(records), load, SortedCutoffs(cutoffs), minLength, maxLength, Accessions(PdbRecords(records)))
    ensures r.Ok? ==> Analysed(records, load, cutoffs, minLength, maxLength, r.value)
  {
    var alphaStats := MinorAlleleFractionsForKind(Panel(records, Alpha), Alpha);
    if alphaStats.Err? {
      return Err(alphaStats.error);
    }
    var betaStats := MinorAlleleFractionsForKind(Panel(records, Beta), Beta);
    if betaStats.Err? {
      return Err(betaStats.error);
    }
    var scanned := ScanAll(PdbRecords(records), load, cutoffs, minLength, maxLength);
    if scanned.Err? {
      return Err(scanned.error);
    }
    StatsFit(records, Alpha, alphaStats.value);
    StatsFit(records, Beta, betaStats.value);
    return Ok((alphaStats.value, betaStats.value, scanned.value));
  }

  /** make_pseudosequences.py's run, minus file I/O: the minor-allele
      fractions per kind, the scan of every PDB accession, the rates, the
      selection per criterion and the extraction, ending with the uniqueness
      check of the allele identifiers. */
  method Run(records: seq<AlignedRecord>, load: string -> Structure, cutoffs: seq<real>,
             criteria: seq<Criterion>, minLength: nat, maxLength: nat)
    returns (r: Result<Output, Failure>)
    ensures (r.Err? && (r.error.UnequalAlignedLengths? || r.error.IntegrityViolation?)) <==>
      !AnalysisSucceeds(records, load, cutoffs, minLength, maxLength)
    ensures r.Err? && r.error.UnequalAlignedLengths? ==>
      && !OneLength(Panel(records, r.error.kind))
      && (r.error.kind == Beta ==> OneLength(Panel(records, Alpha)))
    ensures r.Err? && r.error.IntegrityViolation? ==>
      && OneLength(Panel(records, Alpha))
      && OneLength(Panel(records, Beta))
      && SomeFails(PdbRecords(records), load, SortedCutoffs(cutoffs), minLength, maxLength, Accessions(PdbRecords(records)))
    ensures r.Ok? ==>
      && Analysed(records, load, cutoffs, minLength, maxLength, (r.value.alphaStats, r.value.betaStats, r.value.contacts))
      && Finish(NonPdb(records), r.value.alphaStats, r.value.betaStats, r.value.contacts, SortedCutoffs(cutoffs), criteria)
           == Ok((r.value.selections, r.value.rows))
    ensures r.Err? && !r.error.UnequalAlignedLengths? && !r.error.IntegrityViolation? ==>
      exists t :: Analysed(records, load, cutoffs, minLength, maxLength, t)
        && Finish(NonPdb(records), t.0, t.1, t.2, SortedCutoffs(cutoffs), criteria) == Err(r.error)
  {
    var analysed := Analyse(records, load, cutoffs, minLength, maxLength);
    if analysed.Err? {
      return Err(analysed.error);
    }
    var (alphaStats, betaStats, contacts) := analysed.value;
    var finished := Finish(NonPdb(records), alphaStats, betaStats, contacts, SortedCutoffs(cutoffs), criteria);
    if finished.Err? {
      assert Analysed(records, load, cutoffs, minLength, maxLength, analysed.value);
      return Err(finished.error);
    }
    return Ok(Output(alphaStats, betaStats, contacts, finished.value.0, finished.value.1));
  }

  /** Sorting the cutoffs keeps their values, so a criterion's cutoff is
      unknown exactly when it is not among the given cutoffs. */
  lemma SortedCutoffsSameValues(cutoffs: seq<real>)
    ensures forall c :: c in SortedCutoffs(cutoffs) <==> c in cutoffs
  {
    var cs := SortedCutoffs(cutoffs);
    forall c ensures c in cs <==> c in cutoffs {
      assert c in cs <==> c in multiset(cs);
      assert c in cutoffs <==> c in multiset(cutoffs);
    }
  }
}
