/** data_curated/curate_ms_by_pmid.py, the table-shaping part: the list of
    cell-line mixtures, the parsing of a whitespace-separated HLA table, the
    DR-only allele filter and the registry of per-PMID and per-dataset
    handlers. */
module MsCuration {
  import opened Wrappers
  import opened Strings
  import opened Collections
  import opened SortedStrings

  // ---------------------------------------------------------------------
  // `CELL_LINE_MIXTURES`

  predicate IsMixture(sampleType: string) {
    "mix:" <= sampleType
  }

  /** `sorted(set(x for x in sample_types if x.startswith("mix:")))` over the
      values of the per-sample sample-type table. */
  function CellLineMixtures(sampleTypes: seq<string>): (mixes: seq<string>)
    ensures StrictlyAscending(mixes)
    ensures forall x :: x in mixes <==> x in sampleTypes && IsMixture(x)
  {
    var found := DropDuplicatesBy(Filter(sampleTypes, IsMixture), (x: string) => x);
    assert forall x :: x in found <==> x in Filter(sampleTypes, IsMixture) by {
      forall x | x in Filter(sampleTypes, IsMixture) ensures x in found {
        ExactDuplicatesDropped(Filter(sampleTypes, IsMixture), x);
      }
    }
    SortDistinct(found)
  }

  /** The mixture list is the only ascending, duplicate-free list of exactly
      the mixture sample types. */
  lemma CellLineMixturesUnique(sampleTypes: seq<string>, other: seq<string>)
    requires StrictlyAscending(other)
    requires forall x :: x in other <==> x in sampleTypes && IsMixture(x)
    ensures other == CellLineMixtures(sampleTypes)
  {
    AscendingUnique(other, CellLineMixtures(sampleTypes));
  }

  // ---------------------------------------------------------------------
  // HLA tables written as text: `key sample_type allele allele ...`

  datatype HlaRow = HlaRow(key: string, sampleType: string, hla: string)

  /** `row[1]` on a line with fewer than two tokens raises IndexError. */
  datatype ParseFailure = TooFewTokens(line: string)

  /** `(row[0].replace("_", "-"), row[1], " ".join(row[2:]))` for
      `row = line.split()`. */
  function ParseHlaRow(line: string): (r: Result<HlaRow, ParseFailure>)
    ensures r.Err? <==> |SplitWhitespace(line)| < 2
  {
    var tokens := SplitWhitespace(line);
    if |tokens| < 2 then Err(TooFewTokens(line))
    else Ok(HlaRow(ReplaceChar(tokens[0], '_', '-'), tokens[1], JoinWith(tokens[2..], " ")))
  }

  /** Every line of `text.strip().split("\n")`, in order; the first line
      with fewer than two tokens fails. */
  function ParseHlaTable(text: string): (r: Result<seq<HlaRow>, ParseFailure>)
    ensures r.Ok? ==> |r.value| == |SplitOn(Strip(text), '\n')|
  {
    ParseLines(SplitOn(Strip(text), '\n'))
  }

  function ParseLines(lines: seq<string>): (r: Result<seq<HlaRow>, ParseFailure>)
    ensures r.Ok? ==> |r.value| == |lines|
    ensures r.Ok? ==> forall i :: 0 <= i < |lines| ==> ParseHlaRow(lines[i]) == Ok(r.value[i])
    ensures r.Err? <==> exists i :: 0 <= i < |lines| && ParseHlaRow(lines[i]).Err?
  {
    if lines == [] then Ok([])
    else
      match ParseHlaRow(lines[0])
      case Err(e) => Err(e)
      case Ok(row) =>
        match ParseLines(lines[1..])
        case Err(e) =>
          assert forall i :: 1 <= i < |lines| ==> lines[i] == lines[1..][i - 1];
          Err(e)
        case Ok(rest) =>
          assert forall i :: 1 <= i < |lines| ==> lines[i] == lines[1..][i - 1];
          Ok([row] + rest)
  }

  /** A parsed row: the key is the first token with every '_' made '-', the
      sample type is the second token, and splitting `hla` at whitespace
      gives back exactly the remaining tokens. */
  lemma HlaRowFields(line: string)
    requires ParseHlaRow(line).Ok?
    ensures var tokens := SplitWhitespace(line); var row := ParseHlaRow(line).value;
      && |row.key| == |tokens[0]| && '_' !in row.key
      && (forall i :: 0 <= i < |row.key| ==> row.key[i] == if tokens[0][i] == '_' then '-' else tokens[0][i])
      && row.sampleType == tokens[1]
      && SplitWhitespace(row.hla) == tokens[2..]
  {
    var tokens := SplitWhitespace(line);
    assert forall w :: w in tokens[2..] ==> w in tokens;
    SplitJoinedWords(tokens[2..]);
  }

  // ---------------------------------------------------------------------
  // DR-specific samples

  predicate IsDrAllele(allele: string) {
    Contains(allele, "DR")
  }

  /** `" ".join([allele for allele in s.split() if "DR" in allele])` */
  function DrOnly(hla: string): string {
    JoinWith(Filter(SplitWhitespace(hla), IsDrAllele), " ")
  }

  /** The alleles left are exactly those naming DR, in their original
      order. */
  lemma DrOnlyAlleles(hla: string)
    ensures SplitWhitespace(DrOnly(hla)) == Filter(SplitWhitespace(hla), IsDrAllele)
    ensures forall a :: a in SplitWhitespace(DrOnly(hla)) <==> a in SplitWhitespace(hla) && Contains(a, "DR")
  {
    SplitJoinedWords(Filter(SplitWhitespace(hla), IsDrAllele));
  }

  /** The columns of a combined sample row that the DR-specific fix-up
      touches. */
  datatype SampleRow = SampleRow(format: string, hla: string, pulldownAntibody: string)

  /** DR-specific rows get the HB298 antibody and only their DR alleles. */
  function FixDrSpecific(r: SampleRow): SampleRow {
    if r.format == "DR-specific" then SampleRow(r.format, DrOnly(r.hla), "HB298") else r
  }

  function FixDrSpecificRows(rows: seq<SampleRow>): (fixed: seq<SampleRow>)
    ensures |fixed| == |rows|
  {
    seq(|rows|, i requires 0 <= i < |rows| => FixDrSpecific(rows[i]))
  }

  /** Only DR-specific rows change, and they keep exactly their DR alleles
      in order. */
  lemma FixDrSpecificRowsEffect(rows: seq<SampleRow>, i: nat)
    requires i < |rows|
    ensures var f := FixDrSpecificRows(rows)[i];
      && (rows[i].format != "DR-specific" ==> f == rows[i])
      && (rows[i].format == "DR-specific" ==>
            && f.format == rows[i].format && f.pulldownAntibody == "HB298"
            && SplitWhitespace(f.hla) == Filter(SplitWhitespace(rows[i].hla), IsDrAllele))
  {
    DrOnlyAlleles(rows[i].hla);
  }

  // ---------------------------------------------------------------------
  // Handler registry

  const PmidPrefix: string := "handle_pmid_"
  const ExpressionPrefix: string := "handle_expression_"

  /** The dictionary assignments the registry loop makes for one prefix:
      `name.replace(prefix, "")` to `name`, for the names that start with
      it, in order. */
  function RegistryEntries(names: seq<string>, prefix: string): (entries: seq<(string, string)>)
    requires prefix != []
    ensures forall e :: e in entries ==> e.1 in names && prefix <= e.1 && e.0 == ReplaceAll(e.1, prefix, "")
    ensures forall n :: n in names && prefix <= n ==> (ReplaceAll(n, prefix, ""), n) in entries
  {
    if names == [] then []
    else
      var init, last := names[..|names| - 1], names[|names| - 1];
      assert forall n :: n in names <==> n in init || n == last;
      RegistryEntries(init, prefix) + (if prefix <= last then [(ReplaceAll(last, prefix, ""), last)] else [])
  }

  /** The loop over the module's names that fills `PMID_HANDLERS` and
      `EXPRESSION_HANDLERS`; a handler is represented by its name. */
  method RegisterHandlers(names: seq<string>) returns (pmidHandlers: map<string, string>, expressionHandlers: map<string, string>)
    ensures pmidHandlers == Overwrite(RegistryEntries(names, PmidPrefix))
    ensures expressionHandlers == Overwrite(RegistryEntries(names, ExpressionPrefix))
  {
    pmidHandlers, expressionHandlers := map[], map[];
    for i := 0 to |names|
      invariant pmidHandlers == Overwrite(RegistryEntries(names[..i], PmidPrefix))
      invariant expressionHandlers == Overwrite(RegistryEntries(names[..i], ExpressionPrefix))
    {
      var key := names[i];
      RegisterStep(names, i, PmidPrefix);
      RegisterStep(names, i, ExpressionPrefix);
      if PmidPrefix <= key {
        PrefixesExclusive(key);
        pmidHandlers := pmidHandlers[ReplaceAll(key, PmidPrefix, "") := key];
      } else if ExpressionPrefix <= key {
        expressionHandlers := expressionHandlers[ReplaceAll(key, ExpressionPrefix, "") := key];
      }
    }
    assert names[..|names|] == names;
  }

  lemma PrefixesExclusive(key: string)
    requires PmidPrefix <= key
    ensures !(ExpressionPrefix <= key)
  {
    assert key[7] == 'p';
  }

  /** One more name makes at most one more dictionary assignment. */
  lemma RegisterStep(names: seq<string>, i: nat, prefix: string)
    requires i < |names| && prefix != []
    ensures Overwrite(RegistryEntries(names[..i + 1], prefix)) ==
      if prefix <= names[i] then Overwrite(RegistryEntries(names[..i], prefix))[ReplaceAll(names[i], prefix, "") := names[i]]
      else Overwrite(RegistryEntries(names[..i], prefix))
  {
    assert names[..i + 1][..i] == names[..i];
    if prefix <= names[i] {
      OverwriteAppend(RegistryEntries(names[..i], prefix), (ReplaceAll(names[i], prefix, ""), names[i]));
    } else {
      assert RegistryEntries(names[..i + 1], prefix) == RegistryEntries(names[..i], prefix);
    }
  }

  lemma OverwriteAppend(entries: seq<(string, string)>, e: (string, string))
    ensures Overwrite(entries + [e]) == Overwrite(entries)[e.0 := e.1]
  {
    assert (entries + [e])[..|entries|] == entries;
  }

  /** A name is registered under a key iff it starts with the prefix and the
      prefix removed from it leaves the key. */
  lemma RegisteredExactly(names: seq<string>, prefix: string, key: string)
    requires prefix != []
    ensures key in Overwrite(RegistryEntries(names, prefix)) <==>
      exists n :: n in names && prefix <= n && ReplaceAll(n, prefix, "") == key
  {
    var entries := RegistryEntries(names, prefix);
    OverwriteKeys(entries);
    if key in Overwrite(entries) {
      RegisteredHandler(names, prefix, key);
    } else {
      forall n | n in names && prefix <= n ensures ReplaceAll(n, prefix, "") != key {
        var i := Position(entries, (ReplaceAll(n, prefix, ""), n));
      }
    }
  }

  /** The handler kept under a key is a name that starts with the prefix and
      leaves the key once the prefix is removed (the last such name). */
  lemma RegisteredHandler(names: seq<string>, prefix: string, key: string)
    requires prefix != []
    requires key in Overwrite(RegistryEntries(names, prefix))
    ensures var n := Overwrite(RegistryEntries(names, prefix))[key];
      n in names && prefix <= n && ReplaceAll(n, prefix, "") == key
  {
    var entries := RegistryEntries(names, prefix);
    OverwriteLastWins(entries, key);
    var j: nat :| LastWithKey(entries, key, j) && Overwrite(entries)[key] == entries[j].1;
    assert entries[j] in entries;
  }

  /** A handler name registers under the text after the prefix when that
      text does not itself contain the prefix. */
  lemma HandlerKey(prefix: string, suffix: string)
    requires prefix != [] && !Contains(suffix, prefix)
    ensures ReplaceAll(prefix + suffix, prefix, "") == suffix
  {
    assert (prefix + suffix)[|prefix|..] == suffix;
  }

  /** `handle_pmid_27869121` registers as "27869121"; the disabled
      `Xhandle_pmid_27869121` registers nowhere. */
  lemma RegistryExamples()
    ensures Overwrite(RegistryEntries(["handle_pmid_27869121"], PmidPrefix)) == map["27869121" := "handle_pmid_27869121"]
    ensures Overwrite(RegistryEntries(["Xhandle_pmid_27869121"], PmidPrefix)) == map[]
    ensures Overwrite(RegistryEntries(["Xhandle_pmid_27869121"], ExpressionPrefix)) == map[]
  {
    var name := "handle_pmid_27869121";
    assert name == PmidPrefix + "27869121";
    assert ReplaceAll(name, PmidPrefix, "") == "27869121" by {
      assert name[|PmidPrefix|..] == "27869121";
    }
    var names: seq<string> := [name];
    assert RegistryEntries(names, PmidPrefix) == [("27869121", name)] by {
      assert names[..0] == [];
    }
    var other := "Xhandle_pmid_27869121";
    assert other[0] == 'X';
    var others: seq<string> := [other];
    assert others[..0] == [];
    assert RegistryEntries(others, PmidPrefix) == [];
    assert RegistryEntries(others, ExpressionPrefix) == [];
  }
}
