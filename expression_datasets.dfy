/** data_curated/curate_ms_by_pmid.py, the expression part: named groups of
    expression columns recorded in a global metadata list, the groups that
    stand for cell-line mixtures, and the choice of an expression dataset for
    each mass-spec sample. Column values (and their averaging) are not
    modelled: a frame is its set of column names. */
module ExpressionDatasets {
  import opened Wrappers
  import opened Strings
  import opened Collections

  /** One row of `EXPRESSION_GROUPS_ROWS`. */
  datatype GroupRow = GroupRow(dataset: string, name: string, columns: seq<string>)

  datatype ExpressionFailure =
    | MissingColumn(column: string)                 // `make_expression_groups`
    | MissingMixtureColumns(missing: set<string>)   // `make_expression_mixtures`

  /** A group: its label and the columns it averages, in dictionary order. */
  type Group = (string, seq<string>)

  /** The first wanted column the frame lacks. */
  function FirstAbsent(columns: set<string>, wanted: seq<string>): (r: Option<string>)
    ensures r.None? <==> forall c :: c in wanted ==> c in columns
    ensures r.Some? ==> r.value in wanted && r.value !in columns
  {
    if wanted == [] then None
    else if wanted[0] !in columns then Some(wanted[0])
    else
      assert forall c :: c in wanted <==> c == wanted[0] || c in wanted[1..];
      FirstAbsent(columns, wanted[1..])
  }

  predicate AllPresent(columns: set<string>, g: Group) {
    forall c :: c in g.1 ==> c in columns
  }

  /** The first group with a missing column, and that column. */
  function FirstMissing(columns: set<string>, groups: seq<Group>): (r: Option<(nat, string)>)
    ensures r.None? <==> forall i :: 0 <= i < |groups| ==> AllPresent(columns, groups[i])
    ensures r.Some? ==> r.value.0 < |groups| && FirstAbsent(columns, groups[r.value.0].1) == Some(r.value.1)
    ensures r.Some? ==> forall i :: 0 <= i < r.value.0 ==> AllPresent(columns, groups[i])
  {
    if groups == [] then None
    else if FirstAbsent(columns, groups[0].1).Some? then Some((0, FirstAbsent(columns, groups[0].1).value))
    else
      match FirstMissing(columns, groups[1..])
      case None => None
      case Some((k, c)) => Some((k + 1, c))
  }

  function GroupRows(dataset: string, groups: seq<Group>): (rows: seq<GroupRow>)
    ensures |rows| == |groups|
    ensures forall i :: 0 <= i < |groups| ==> rows[i] == GroupRow(dataset, groups[i].0, groups[i].1)
  {
    seq(|groups|, i requires 0 <= i < |groups| => GroupRow(dataset, groups[i].0, groups[i].1))
  }

  function Labels(groups: seq<Group>): (labels: seq<string>)
    ensures |labels| == |groups|
    ensures forall i :: 0 <= i < |groups| ==> labels[i] == groups[i].0
  {
    seq(|groups|, i requires 0 <= i < |groups| => groups[i].0)
  }

  /** The global metadata list that `make_expression_groups` appends to. */
  class ExpressionGroupRows {
    var rows: seq<GroupRow>

    constructor ()
      ensures rows == []
    {
      rows := [];
    }

    /** `make_expression_groups`: checks each group's columns in turn and
        raises on the first missing one; every group checked before that has
        already been recorded. On success the result frame has one column
        per group label, and one row per group has been appended. */
    method MakeExpressionGroups(dataset: string, columns: set<string>, groups: seq<Group>)
      returns (r: Result<seq<string>, ExpressionFailure>)
      modifies this
      ensures FirstMissing(columns, groups).None? ==>
        r == Ok(Labels(groups)) && rows == old(rows) + GroupRows(dataset, groups)
      ensures FirstMissing(columns, groups).Some? ==>
        && r == Err(MissingColumn(FirstMissing(columns, groups).value.1))
        && rows == old(rows) + GroupRows(dataset, groups[..FirstMissing(columns, groups).value.0])
    {
      var labels: seq<string> := [];
      for i := 0 to |groups|
        invariant forall k :: 0 <= k < i ==> AllPresent(columns, groups[k])
        invariant labels == Labels(groups[..i])
        invariant rows == old(rows) + GroupRows(dataset, groups[..i])
      {
        var (name, wanted) := groups[i];
        for j := 0 to |wanted|
          invariant forall k :: 0 <= k < j ==> wanted[k] in columns
        {
          if wanted[j] !in columns {
            FirstAbsentAt(columns, wanted, j);
            FirstMissingAt(columns, groups, i);
            return Err(MissingColumn(wanted[j]));
          }
        }
        assert groups[..i + 1] == groups[..i] + [groups[i]];
        labels := labels + [name];
        rows := rows + [GroupRow(dataset, name, wanted)];
      }
      assert groups[..|groups|] == groups;
      return Ok(labels);
    }

    /** `make_expression_mixtures`: one group per mixture, labelled by the
        upper-cased mixture, whose components are the cell-line columns of
        its items or else their "-LIKE" sample-type stand-ins. If any
        component is missing it raises, naming them all, before recording
        anything. */
    method MakeExpressionMixtures(mixes: seq<string>, columns: set<string>)
      returns (r: Result<seq<string>, ExpressionFailure>)
      modifies this
      ensures MissingComponents(MixtureGroups(mixes, columns), columns) != {} ==>
        r == Err(MissingMixtureColumns(MissingComponents(MixtureGroups(mixes, columns), columns))) && rows == old(rows)
      ensures MissingComponents(MixtureGroups(mixes, columns), columns) == {} ==>
        r == Ok(Labels(MixtureGroups(mixes, columns))) && rows == old(rows) + GroupRows("mixtures", MixtureGroups(mixes, columns))
    {
      var groups := BuildMixtureGroups(mixes, columns);
      var missing := CollectMissing(groups, columns);
      if missing != {} {
        return Err(MissingMixtureColumns(missing));
      }
      NothingMissing(groups, columns);
      r := MakeExpressionGroups("mixtures", columns, groups);
    }
  }

  /** The first loop of `make_expression_mixtures`: one group per mixture. */
  method BuildMixtureGroups(mixes: seq<string>, columns: set<string>) returns (groups: seq<Group>)
    ensures groups == MixtureGroups(mixes, columns)
  {
    groups := [];
    for i := 0 to |mixes|
      invariant groups == MixtureGroups(mixes[..i], columns)
    {
      var items := MixtureItems(mixes[i]);
      var components: seq<string> := [];
      for j := 0 to |items|
        invariant components == Components(items[..j], columns)
      {
        assert items[..j + 1] == items[..j] + [items[j]];
        components := components + [Component(items[j], columns)];
      }
      assert items[..|items|] == items;
      assert mixes[..i + 1] == mixes[..i] + [mixes[i]];
      groups := groups + [("sample_type:" + Upper(mixes[i]), components)];
    }
    assert mixes[..|mixes|] == mixes;
  }

  /** The second loop of `make_expression_mixtures`: every component the
      frame lacks. */
  method CollectMissing(groups: seq<Group>, columns: set<string>) returns (missing: set<string>)
    ensures missing == MissingComponents(groups, columns)
  {
    missing := {};
    for i := 0 to |groups|
      invariant missing == MissingComponents(groups[..i], columns)
    {
      var wanted := groups[i].1;
      for j := 0 to |wanted|
        invariant missing == MissingComponents(groups[..i], columns) + AbsentOf(wanted[..j], columns)
      {
        assert wanted[..j + 1] == wanted[..j] + [wanted[j]];
        if wanted[j] !in columns {
          missing := missing + {wanted[j]};
        }
      }
      assert wanted[..|wanted|] == wanted;
      MissingComponentsSnoc(groups[..i], groups[i], columns);
      assert groups[..i + 1] == groups[..i] + [groups[i]];
    }
    assert groups[..|groups|] == groups;
  }

  lemma FirstAbsentAt(columns: set<string>, wanted: seq<string>, j: nat)
    requires j < |wanted| && wanted[j] !in columns
    requires forall k :: 0 <= k < j ==> wanted[k] in columns
    ensures FirstAbsent(columns, wanted) == Some(wanted[j])
    decreases j
  {
    if j > 0 {
      FirstAbsentAt(columns, wanted[1..], j - 1);
    }
  }

  lemma FirstMissingAt(columns: set<string>, groups: seq<Group>, i: nat)
    requires i < |groups| && !AllPresent(columns, groups[i])
    requires forall k :: 0 <= k < i ==> AllPresent(columns, groups[k])
    ensures FirstMissing(columns, groups).Some? && FirstMissing(columns, groups).value.0 == i
    decreases i
  {
    if i > 0 {
      assert AllPresent(columns, groups[0]);
      FirstMissingAt(columns, groups[1..], i - 1);
    }
  }

  // ---------------------------------------------------------------------
  // Mixtures

  /** `mix.replace("mix:", "").upper().split(",")` */
  function MixtureItems(mix: string): seq<string> {
    SplitOn(Upper(ReplaceAll(mix, "mix:", "")), ',')
  }

  /** The cell-line column of an item if the frame has it, otherwise the
      "-LIKE" sample-type column that stands in for it. */
  function Component(item: string, columns: set<string>): string {
    if "cell_line:" + item in columns then "cell_line:" + item else "sample_type:" + item + "-LIKE"
  }

  function Components(items: seq<string>, columns: set<string>): (components: seq<string>)
    ensures |components| == |items|
  {
    if items == [] then [] else Components(items[..|items| - 1], columns) + [Component(items[|items| - 1], columns)]
  }

  function MixtureGroups(mixes: seq<string>, columns: set<string>): (groups: seq<Group>)
    ensures |groups| == |mixes|
  {
    if mixes == [] then []
    else
      var mix := mixes[|mixes| - 1];
      MixtureGroups(mixes[..|mixes| - 1], columns) + [("sample_type:" + Upper(mix), Components(MixtureItems(mix), columns))]
  }

  function AbsentOf(wanted: seq<string>, columns: set<string>): set<string> {
    set c | c in wanted && c !in columns
  }

  /** The `missing` set: every component of every group that the frame
      lacks. */
  function MissingComponents(groups: seq<Group>, columns: set<string>): set<string> {
    set g, c | g in groups && c in g.1 && c !in columns :: c
  }

  lemma MissingComponentsSnoc(groups: seq<Group>, g: Group, columns: set<string>)
    ensures MissingComponents(groups + [g], columns) == MissingComponents(groups, columns) + AbsentOf(g.1, columns)
  {
    assert forall h :: h in groups + [g] <==> h in groups || h == g;
  }

  lemma NothingMissing(groups: seq<Group>, columns: set<string>)
    requires MissingComponents(groups, columns) == {}
    ensures FirstMissing(columns, groups).None?
  {
    forall i | 0 <= i < |groups| ensures AllPresent(columns, groups[i]) {
      forall c | c in groups[i].1 ensures c in columns {
        assert groups[i] in groups;
        assert c !in columns ==> c in MissingComponents(groups, columns);
      }
    }
  }

  // ---------------------------------------------------------------------
  // Properties of the mixtures

  /** Group i is labelled by mixture i upper-cased, and its components follow
      the mixture's items one for one: the cell-line column when present,
      else the "-LIKE" stand-in. */
  lemma {:induction false} MixtureGroupsShape(mixes: seq<string>, columns: set<string>, i: nat)
    requires i < |mixes|
    ensures var g := MixtureGroups(mixes, columns)[i]; var items := MixtureItems(mixes[i]);
      && g.0 == "sample_type:" + Upper(mixes[i])
      && |g.1| == |items|
      && forall k :: 0 <= k < |items| ==>
           g.1[k] == (if "cell_line:" + items[k] in columns then "cell_line:" + items[k]
                      else "sample_type:" + items[k] + "-LIKE")
  {
    if i < |mixes| - 1 {
      MixtureGroupsShape(mixes[..|mixes| - 1], columns, i);
      assert mixes[..|mixes| - 1][i] == mixes[i];
    }
    ComponentsShape(MixtureItems(mixes[i]), columns);
  }

  lemma {:induction false} ComponentsShape(items: seq<string>, columns: set<string>)
    ensures forall k :: 0 <= k < |items| ==> Components(items, columns)[k] == Component(items[k], columns)
  {
    if items != [] {
      ComponentsShape(items[..|items| - 1], columns);
    }
  }

  /** Only stand-ins can be missing: a missing component is the "-LIKE"
      column of an item whose cell-line column is absent too. */
  lemma MissingOnlyStandIns(mixes: seq<string>, columns: set<string>, c: string)
    requires c in MissingComponents(MixtureGroups(mixes, columns), columns)
    ensures exists i, item :: (0 <= i < |mixes| && item in MixtureItems(mixes[i])
      && "cell_line:" + item !in columns && c == "sample_type:" + item + "-LIKE")
  {
    var groups := MixtureGroups(mixes, columns);
    var g :| g in groups && c in g.1 && c !in columns;
    var i :| 0 <= i < |groups| && groups[i] == g;
    MixtureGroupsShape(mixes, columns, i);
    var k :| 0 <= k < |g.1| && g.1[k] == c;
    var item := MixtureItems(mixes[i])[k];
    assert item in MixtureItems(mixes[i]);
  }

  // ---------------------------------------------------------------------
  // Expression dataset of each sample

  /** The sample-table columns the assignment reads. */
  datatype SampleInfo = SampleInfo(expressionDataset: string, cellLine: string, sampleType: string)

  datatype AssignmentFailure = MissingExpressionData(samples: set<string>)

  /** The dataset a sample ends up with: the one already chosen, else its
      cell-line column, else its sample-type column, else none. */
  function AssignedDataset(info: SampleInfo, columns: set<string>): Option<string> {
    if info.expressionDataset != "" then Some(info.expressionDataset)
    else if "cell_line:" + info.cellLine in columns then Some("cell_line:" + info.cellLine)
    else if "sample_type:" + info.sampleType in columns then Some("sample_type:" + info.sampleType)
    else None
  }

  /** The assignment loop of `run` and the check after it: each sample keeps
      its dataset or gets the first of its two candidate columns that the
      expression frame has; if any sample gets none, the script raises,
      naming them. Samples are visited in any order: each is decided on its
      own. */
  method AssignExpressionDatasets(samples: map<string, SampleInfo>, columns: set<string>)
    returns (r: Result<map<string, string>, AssignmentFailure>)
    ensures r.Err? <==> exists id :: id in samples && AssignedDataset(samples[id], columns).None?
    ensures r.Err? ==> r.error.samples == set id | id in samples && AssignedDataset(samples[id], columns).None?
    ensures r.Ok? ==> r.value.Keys == samples.Keys
    ensures r.Ok? ==> forall id :: id in samples ==> Some(r.value[id]) == AssignedDataset(samples[id], columns)
  {
    var chosen: map<string, Option<string>> := map id | id in samples :: Some(samples[id].expressionDataset);
    var remaining := samples.Keys;
    while remaining != {}
      invariant remaining <= samples.Keys && chosen.Keys == samples.Keys
      invariant forall id :: id in samples && id !in remaining ==> chosen[id] == AssignedDataset(samples[id], columns)
      invariant forall id :: id in remaining ==> chosen[id] == Some(samples[id].expressionDataset)
      decreases remaining
    {
      var id :| id in remaining;
      remaining := remaining - {id};
      var info := samples[id];
      if info.expressionDataset != "" {
        continue;
      }
      var dataset := ChooseDataset(info, columns);
      chosen := chosen[id := dataset];
    }
    var missing := set id | id in chosen && chosen[id].None?;
    if missing != {} {
      return Err(MissingExpressionData(missing));
    }
    return Ok(map id | id in chosen :: chosen[id].value);
  }

  /** The inner loop of the assignment: the first candidate column the
      expression frame has. */
  method ChooseDataset(info: SampleInfo, columns: set<string>) returns (dataset: Option<string>)
    requires info.expressionDataset == ""
    ensures dataset == AssignedDataset(info, columns)
  {
    var candidates := ["cell_line:" + info.cellLine, "sample_type:" + info.sampleType];
    dataset := None;
    for j := 0 to |candidates|
      invariant dataset == None
      invariant forall k :: 0 <= k < j ==> candidates[k] !in columns
    {
      if candidates[j] in columns {
        dataset := Some(candidates[j]);
        assert j == 1 ==> candidates[0] !in columns;
        break;
      }
    }
    assert dataset.None? ==> candidates[0] !in columns && candidates[1] !in columns;
  }

  /** The assignment rules: an assigned dataset is kept; otherwise the
      result is a column of the expression frame, the cell-line column
      whenever it exists, and there is none iff neither column exists. */
  lemma AssignmentRules(info: SampleInfo, columns: set<string>)
    ensures info.expressionDataset != "" ==> AssignedDataset(info, columns) == Some(info.expressionDataset)
    ensures info.expressionDataset == "" && AssignedDataset(info, columns).Some? ==>
      AssignedDataset(info, columns).value in columns
    ensures info.expressionDataset == "" && "cell_line:" + info.cellLine in columns ==>
      AssignedDataset(info, columns) == Some("cell_line:" + info.cellLine)
    ensures info.expressionDataset == "" ==>
      (AssignedDataset(info, columns).None? <==>
        "cell_line:" + info.cellLine !in columns && "sample_type:" + info.sampleType !in columns)
  {
  }
}
