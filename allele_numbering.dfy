/** make_allele_sequences.py: every allele's aligned sequence laid out in
    columns numbered by the residues of a reference allele. Column n holds
    the alignment positions from just after the reference's (n-1)-th residue
    up to and including its n-th residue. */
module AlleleNumbering {
  import opened Wrappers
  import opened Strings
  import opened Collections
  import opened SortedStrings
  import opened PositionMaps
  import opened Alignments
  import opened Fasta

  /** Why the script stops with an exception. */
  datatype NumberingFailure =
    | NoAlleleName(index: nat)           // `description.split()[1]` raises IndexError
    | UnknownReference(name: string)     // `allele_to_sequence[reference]` raises KeyError
    | ShorterThanReference(name: string) // `str.get(i)` yields NaN there, on which `replace` fails

  /** The allele names in ascending order and the cells, column by column:
      `columns[k][a]` is the cell of allele `names[a]` in column number k+1. */
  datatype NumberedTable = NumberedTable(names: seq<string>, columns: seq<seq<string>>)

  // ---------------------------------------------------------------------
  // Reading the aligned sequences

  /** The `(name, sequence)` assignments the reading loop makes, in order. */
  function Entries(records: seq<FastaRecord>): (es: seq<(string, string)>)
    ensures |es| == |records|
    ensures forall i :: 0 <= i < |records| ==> es[i] == (NameOf(records[i]), records[i].sequence)
  {
    seq(|records|, i requires 0 <= i < |records| => (NameOf(records[i]), records[i].sequence))
  }

  /** `allele_to_sequence` after the reading loop: every record stores its
      sequence under its name, over what an earlier record stored there. */
  function Sequences(records: seq<FastaRecord>): map<string, string> {
    Overwrite(Entries(records))
  }

  /** A name is present exactly when some record has it, and its sequence is
      the one of the last record with that name. */
  lemma LastRecordWins(records: seq<FastaRecord>, n: string)
    ensures n in Sequences(records) <==> exists i :: 0 <= i < |records| && NameOf(records[i]) == n
    ensures n in Sequences(records) ==>
      exists i :: 0 <= i < |records| && NameOf(records[i]) == n && Sequences(records)[n] == records[i].sequence
        && (forall j :: i < j < |records| ==> NameOf(records[j]) != n)
  {
    var es := Entries(records);
    OverwriteKeys(es);
    if n in Sequences(records) {
      OverwriteLastWins(es, n);
      var i: nat :| LastWithKey(es, n, i) && Overwrite(es)[n] == es[i].1;
      assert forall j :: i < j < |records| ==> NameOf(records[j]) == es[j].0;
    } else {
      assert forall i :: 0 <= i < |records| ==> NameOf(records[i]) == es[i].0;
    }
  }

  /** The reading loop: the map it fills, and its keys in insertion order. */
  method ReadAlleles(records: seq<FastaRecord>) returns (r: Result<(seq<string>, map<string, string>), NumberingFailure>)
    ensures r.Err? <==> !AllNamed(records)
    ensures r.Err? ==>
      && r.error.NoAlleleName? && r.error.index < |records|
      && !HasAlleleId(records[r.error.index].description) && AllNamed(records[..r.error.index])
    ensures r.Ok? ==>
      && r.value.1 == Sequences(records)
      && Distinct(r.value.0)
      && forall n :: n in r.value.0 <==> n in r.value.1
  {
    var m: map<string, string> := map[];
    var order: seq<string> := [];
    for i := 0 to |records|
      invariant ReadState(records, i, order, m)
    {
      var words := SplitWhitespace(records[i].description);
      if |words| < 2 {
        return Err(NoAlleleName(i));
      }
      var name := words[1];
      ReadStep(records, i, order, m);
      if name !in m {
        order := order + [name];
      }
      m := m[name := records[i].sequence];
    }
    assert records[..|records|] == records;
    return Ok((order, m));
  }

  /** What the reading loop has built after the first `i` records. */
  ghost predicate ReadState(records: seq<FastaRecord>, i: nat, order: seq<string>, m: map<string, string>) {
    i <= |records| && AllNamed(records[..i]) && m == Sequences(records[..i]) && InsertionOrder(order, m)
  }

  lemma ReadStep(records: seq<FastaRecord>, i: nat, order: seq<string>, m: map<string, string>)
    requires i < |records| && ReadState(records, i, order, m) && HasAlleleId(records[i].description)
    ensures var name := NameOf(records[i]);
      ReadState(records, i + 1, if name in m then order else order + [name], m[name := records[i].sequence])
  {
    var name := NameOf(records[i]);
    InsertionOrderStep(order, m, name, records[i].sequence);
    assert records[..i + 1] == records[..i] + [records[i]];
    assert Entries(records[..i + 1]) == Entries(records[..i]) + [(name, records[i].sequence)];
    assert Entries(records[..i + 1])[..i] == Entries(records[..i]);
  }

  /** `order` lists the keys of `m` once each, as a dict's keys do. */
  ghost predicate InsertionOrder(order: seq<string>, m: map<string, string>) {
    Distinct(order) && forall n :: n in order <==> n in m
  }

  lemma InsertionOrderStep(order: seq<string>, m: map<string, string>, name: string, v: string)
    requires InsertionOrder(order, m)
    ensures InsertionOrder(if name in m then order else order + [name], m[name := v])
  {
  }

  // ---------------------------------------------------------------------
  // Numbering the columns

  /** The number of the column alignment position `i` falls under: one more
      than the reference residues before it (`current_number`). */
  function NumberAt(reference: string, i: nat): nat
    requires i <= |reference|
  {
    1 + |Ungapped(reference[..i])|
  }

  /** How many numbered columns exist once positions 0 .. j-1 are placed. */
  function ColumnsAfter(reference: string, j: nat): nat
    requires j <= |reference|
  {
    if j == 0 then 0 else NumberAt(reference, j - 1)
  }

  /** The characters of `s` at the positions before `j` that fall under
      column `n`, in order. */
  function Group(s: string, reference: string, n: nat, j: nat): string
    requires j <= |reference| <= |s|
  {
    if j == 0 then []
    else Group(s, reference, n, j - 1) + (if NumberAt(reference, j - 1) == n then [s[j - 1]] else [])
  }

  /** The finished cell of sequence `s` in column `n`, after `-` becomes `X`. */
  function Cell(s: string, reference: string, n: nat): (c: string)
    requires |reference| <= |s|
    ensures |c| == |Group(s, reference, n, |reference|)|
    ensures Gap !in c
  {
    var c := ReplaceChar(Group(s, reference, n, |reference|), Gap, 'X');
    assert forall i :: 0 <= i < |c| ==> c[i] != Gap;
    c
  }

  /** The counter advances past a residue and stays on a gap. */
  lemma NumberStep(reference: string, i: nat)
    requires i < |reference|
    ensures NumberAt(reference, i + 1) == NumberAt(reference, i) + (if reference[i] != Gap then 1 else 0)
  {
    assert reference[..i + 1][..i] == reference[..i];
  }

  lemma {:induction false} NumberMonotone(reference: string, i: nat, j: nat)
    requires i <= j <= |reference|
    ensures NumberAt(reference, i) <= NumberAt(reference, j)
    decreases j - i
  {
    if i < j {
      NumberStep(reference, i);
      NumberMonotone(reference, i + 1, j);
    }
  }

  /** A column not created yet has collected nothing. */
  lemma {:induction false} GroupEmptyBeyond(s: string, reference: string, n: nat, j: nat)
    requires j <= |reference| <= |s|
    requires n > ColumnsAfter(reference, j)
    ensures Group(s, reference, n, j) == []
  {
    if j > 0 {
      if j > 1 {
        NumberStep(reference, j - 2);
      }
      GroupEmptyBeyond(s, reference, n, j - 1);
    }
  }

  /** The cells of `s` in every column, before `-` is replaced. */
  ghost predicate Filled(columns: seq<seq<string>>, names: seq<string>, sequences: map<string, string>,
                         reference: string, j: nat)
    requires j <= |reference|
    requires forall n :: n in names ==> n in sequences && |reference| <= |sequences[n]|
  {
    forall k :: 0 <= k < |columns| ==>
      && |columns[k]| == |names|
      && forall a :: 0 <= a < |names| ==> columns[k][a] == Group(sequences[names[a]], reference, k + 1, j)
  }

  /** Placing position `i`: the column it falls under gets every allele's
      character there appended, a new column starting out empty. */
  lemma PlaceStep(columns: seq<seq<string>>, next: seq<seq<string>>, names: seq<string>,
                  sequences: map<string, string>, reference: string, i: nat)
    requires i < |reference|
    requires forall n :: n in names ==> n in sequences && |reference| <= |sequences[n]|
    requires |columns| == ColumnsAfter(reference, i)
    requires Filled(columns, names, sequences, reference, i)
    requires |next| == ColumnsAfter(reference, i + 1) >= |columns|
    requires forall k :: 0 <= k < |columns| && k != NumberAt(reference, i) - 1 ==> next[k] == columns[k]
    requires var k := NumberAt(reference, i) - 1;
      && |next[k]| == |names|
      && forall a :: 0 <= a < |names| ==>
           next[k][a] == (if k < |columns| then columns[k][a] else "") + [sequences[names[a]][i]]
    ensures Filled(next, names, sequences, reference, i + 1)
  {
    var n := NumberAt(reference, i);
    ColumnsStep(reference, i);
    forall k, a | 0 <= k < |next| && 0 <= a < |names|
      ensures next[k][a] == Group(sequences[names[a]], reference, k + 1, i + 1)
    {
      var prev := if k < |columns| then columns[k][a] else "";
      CellStep(sequences[names[a]], reference, i, k, prev, next[k][a]);
    }
  }

  /** One cell across placing position i: the cell of the column position i
      falls under grows by s[i], every other cell stays. */
  lemma CellStep(s: string, reference: string, i: nat, k: nat, prev: string, now: string)
    requires i < |reference| <= |s|
    requires k < ColumnsAfter(reference, i + 1)
    requires k < ColumnsAfter(reference, i) ==> prev == Group(s, reference, k + 1, i)
    requires k >= ColumnsAfter(reference, i) ==> prev == ""
    requires now == if k == NumberAt(reference, i) - 1 then prev + [s[i]] else prev
    ensures now == Group(s, reference, k + 1, i + 1)
  {
    ColumnsStep(reference, i);
    if k + 1 == NumberAt(reference, i) {
      GroupSameColumn(s, reference, k + 1, i);
      if k >= ColumnsAfter(reference, i) {
        GroupEmptyBeyond(s, reference, k + 1, i);
      }
    } else {
      GroupOtherColumn(s, reference, k + 1, i);
    }
  }

  /** The loop over the reference's positions: each position appends every
      allele's character there to the current column, creating the column
      first when it is new, and a reference residue moves on to the next
      column. */
  method NumberColumns(names: seq<string>, sequences: map<string, string>, reference: string)
    returns (columns: seq<seq<string>>)
    requires forall n :: n in names ==> n in sequences && |reference| <= |sequences[n]|
    ensures |columns| == ColumnsAfter(reference, |reference|)
    ensures Filled(columns, names, sequences, reference, |reference|)
  {
    columns := [];
    var current := 1;
    for i := 0 to |reference|
      invariant current == NumberAt(reference, i)
      invariant |columns| == ColumnsAfter(reference, i)
      invariant Filled(columns, names, sequences, reference, i)
    {
      NumberStep(reference, i);
      if i > 0 {
        NumberStep(reference, i - 1);
      }
      ghost var before := columns;
      if current > |columns| {
        columns := columns + [seq(|names|, a => "")];
      }
      var column := columns[current - 1];
      columns := columns[current - 1 := seq(|names|, a requires 0 <= a < |names| => column[a] + [sequences[names[a]][i]])];
      PlaceStep(before, columns, names, sequences, reference, i);
      if reference[i] != Gap {
        current := current + 1;
      }
    }
  }

  /** `df.applymap(lambda s: s.replace("-", "X"))` */
  function ReplaceGaps(columns: seq<seq<string>>): (r: seq<seq<string>>)
    ensures |r| == |columns|
    ensures forall k :: 0 <= k < |r| ==>
      && |r[k]| == |columns[k]|
      && forall a :: 0 <= a < |r[k]| ==> r[k][a] == ReplaceChar(columns[k][a], Gap, 'X')
  {
    seq(|columns|, k requires 0 <= k < |columns| =>
      seq(|columns[k]|, a requires 0 <= a < |columns[k]| => ReplaceChar(columns[k][a], Gap, 'X')))
  }

  /** Every allele's sequence is at least as long as the reference. */
  predicate LongEnough(sequences: map<string, string>, reference: string) {
    forall n :: n in sequences ==> |reference| <= |sequences[n]|
  }

  // ---------------------------------------------------------------------
  // What the layout promises

  /** There is one column per reference residue, and one more when the
      reference ends in gaps (they fall under a number no residue reaches). */
  lemma ColumnCount(reference: string)
    ensures ColumnsAfter(reference, |reference|) ==
      |Ungapped(reference)| + (if reference != [] && reference[|reference| - 1] == Gap then 1 else 0)
  {
    if reference != [] {
      assert reference[..|reference|] == reference;
    }
  }

  /** The parts joined in order. */
  function Concat(parts: seq<string>): string
    decreases |parts|
  {
    if parts == [] then [] else Concat(parts[..|parts| - 1]) + parts[|parts| - 1]
  }

  /** The cells of `s` in all columns created so far, before `-` is replaced. */
  function Groups(s: string, reference: string, j: nat): (gs: seq<string>)
    requires j <= |reference| <= |s|
    ensures |gs| == ColumnsAfter(reference, j)
  {
    seq(ColumnsAfter(reference, j), k requires 0 <= k < ColumnsAfter(reference, j) => Group(s, reference, k + 1, j))
  }

  /** Position i falls under the last column created or opens the next one. */
  lemma ColumnsStep(reference: string, i: nat)
    requires i < |reference|
    ensures ColumnsAfter(reference, i + 1) == NumberAt(reference, i)
    ensures NumberAt(reference, i) == ColumnsAfter(reference, i) || NumberAt(reference, i) == ColumnsAfter(reference, i) + 1
  {
    if i > 0 {
      NumberStep(reference, i - 1);
    }
  }

  /** Placing position i under a new column opens it holding just s[i]. */
  lemma GroupsStepNew(s: string, reference: string, i: nat)
    requires i < |reference| <= |s|
    requires NumberAt(reference, i) > ColumnsAfter(reference, i)
    ensures Groups(s, reference, i + 1) == Groups(s, reference, i) + [[s[i]]]
  {
    var before, after := Groups(s, reference, i), Groups(s, reference, i + 1);
    var expected := before + [[s[i]]];
    ColumnsStep(reference, i);
    forall k | 0 <= k < |after|
      ensures after[k] == expected[k]
    {
      var prev := if k < |before| then before[k] else "";
      CellStep(s, reference, i, k, prev, expected[k]);
    }
  }

  /** Placing position i under the last column appends s[i] to it. */
  lemma GroupsStepSame(s: string, reference: string, i: nat)
    requires i < |reference| <= |s|
    requires NumberAt(reference, i) <= ColumnsAfter(reference, i)
    ensures var before := Groups(s, reference, i);
      && before != []
      && Groups(s, reference, i + 1) == before[..|before| - 1] + [before[|before| - 1] + [s[i]]]
  {
    var before, after := Groups(s, reference, i), Groups(s, reference, i + 1);
    var n := NumberAt(reference, i);
    ColumnsStep(reference, i);
    forall k | 0 <= k < n - 1
      ensures after[k] == before[k]
    {
      GroupOtherColumn(s, reference, k + 1, i);
    }
    GroupSameColumn(s, reference, n, i);
  }

  /** Placing position i appends s[i] to the column it falls under. */
  lemma GroupSameColumn(s: string, reference: string, n: nat, i: nat)
    requires i < |reference| <= |s| && n == NumberAt(reference, i)
    ensures Group(s, reference, n, i + 1) == Group(s, reference, n, i) + [s[i]]
  {
  }

  /** Placing position i leaves every other column as it was. */
  lemma GroupOtherColumn(s: string, reference: string, n: nat, i: nat)
    requires i < |reference| <= |s| && n != NumberAt(reference, i)
    ensures Group(s, reference, n, i + 1) == Group(s, reference, n, i)
  {
  }

  /** Reading an allele's cells column by column gives back the characters
      placed so far, in alignment order. */
  lemma {:induction false} GroupsJoin(s: string, reference: string, j: nat)
    requires j <= |reference| <= |s|
    ensures Concat(Groups(s, reference, j)) == s[..j]
  {
    if j > 0 {
      var i := j - 1;
      GroupsJoin(s, reference, i);
      var before, after := Groups(s, reference, i), Groups(s, reference, j);
      if NumberAt(reference, i) > |before| {
        GroupsStepNew(s, reference, i);
        assert after[..|after| - 1] == before;
      } else {
        GroupsStepSame(s, reference, i);
        var m := |before| - 1;
        assert after[..m] == before[..m];
        assert Concat(before) == Concat(before[..m]) + before[m];
      }
      assert s[..j] == s[..i] + [s[i]];
    }
  }

  lemma ReplaceConcat(parts: seq<string>, a: char, b: char)
    ensures Concat(seq(|parts|, k requires 0 <= k < |parts| => ReplaceChar(parts[k], a, b)))
         == ReplaceChar(Concat(parts), a, b)
    decreases |parts|
  {
    if parts != [] {
      var init := parts[..|parts| - 1];
      var replaced := seq(|parts|, k requires 0 <= k < |parts| => ReplaceChar(parts[k], a, b));
      ReplaceConcat(init, a, b);
      assert replaced[..|parts| - 1] == seq(|init|, k requires 0 <= k < |init| => ReplaceChar(init[k], a, b));
    }
  }

  /** An allele's finished row, read in increasing column number, is its
      aligned sequence (up to the reference's length) with every `-` made
      `X`. */
  lemma RowJoins(s: string, reference: string)
    requires |reference| <= |s|
    ensures Concat(seq(ColumnsAfter(reference, |reference|), k requires 0 <= k < ColumnsAfter(reference, |reference|) =>
                   Cell(s, reference, k + 1)))
         == ReplaceChar(s[..|reference|], Gap, 'X')
  {
    var gs := Groups(s, reference, |reference|);
    GroupsJoin(s, reference, |reference|);
    ReplaceConcat(gs, Gap, 'X');
    assert seq(|gs|, k requires 0 <= k < |gs| => ReplaceChar(gs[k], Gap, 'X'))
        == seq(ColumnsAfter(reference, |reference|), k requires 0 <= k < ColumnsAfter(reference, |reference|) =>
               Cell(s, reference, k + 1));
  }

  /** The residues of a prefix start the residues of the whole. */
  lemma {:induction false} UngappedPrefix(s: string, j: nat)
    requires j <= |s|
    ensures Ungapped(s[..j]) <= Ungapped(s)
    decreases |s| - j
  {
    if j == |s| {
      assert s[..j] == s;
    } else {
      var init := s[..|s| - 1];
      UngappedPrefix(init, j);
      assert init[..j] == s[..j];
    }
  }

  /** Every character is a gap. */
  ghost predicate AllGap(g: string) {
    forall i :: 0 <= i < |g| ==> g[i] == Gap
  }

  /** Gaps, then `last`. */
  ghost predicate GapsThen(g: string, last: char) {
    |g| >= 1 && g[|g| - 1] == last && AllGap(g[..|g| - 1])
  }

  /** The reference's own positions in column k: gaps only while its k-th
      residue is not reached, then gaps followed by that residue. */
  lemma {:induction false} ReferenceGroup(reference: string, k: nat, j: nat)
    requires 1 <= k && j <= |reference|
    ensures NumberAt(reference, j) <= k ==> AllGap(Group(reference, reference, k, j))
    ensures NumberAt(reference, j) > k ==>
      k - 1 < |Ungapped(reference)| && GapsThen(Group(reference, reference, k, j), Ungapped(reference)[k - 1])
  {
    if j > 0 {
      var i := j - 1;
      ReferenceGroup(reference, k, i);
      NumberStep(reference, i);
      var g0, g := Group(reference, reference, k, i), Group(reference, reference, k, j);
      if NumberAt(reference, i) != k {
        GroupOtherColumn(reference, reference, k, i);
      } else {
        assert g == g0 + [reference[i]];
        assert g[..|g| - 1] == g0;
        if reference[i] != Gap {
          ResidueOfColumn(reference, k, i);
        }
      }
    }
  }

  /** The residue at a position numbered k is the k-th residue. */
  lemma ResidueOfColumn(reference: string, k: nat, i: nat)
    requires i < |reference| && reference[i] != Gap && NumberAt(reference, i) == k
    ensures k - 1 < |Ungapped(reference)| && Ungapped(reference)[k - 1] == reference[i]
  {
    var u := Ungapped(reference[..i + 1]);
    assert reference[..i + 1][..i] == reference[..i];
    assert u == Ungapped(reference[..i]) + [reference[i]];
    UngappedPrefix(reference, i + 1);
  }

  /** In the reference's own row, column k (k up to its number of residues)
      is zero or more `X` followed by its k-th residue. */
  lemma ReferenceCell(reference: string, k: nat)
    requires 1 <= k <= |Ungapped(reference)|
    ensures var c := Cell(reference, reference, k);
      && |c| >= 1
      && c[|c| - 1] == Ungapped(reference)[k - 1]
      && forall i :: 0 <= i < |c| - 1 ==> c[i] == 'X'
  {
    ReferenceGroup(reference, k, |reference|);
    assert reference[..|reference|] == reference;
    assert Ungapped(reference)[k - 1] in Ungapped(reference);
    ReplaceGapsThen(Group(reference, reference, k, |reference|), Ungapped(reference)[k - 1]);
  }

  /** Gaps then a residue become `X`s then that residue. */
  lemma ReplaceGapsThen(g: string, last: char)
    requires GapsThen(g, last) && last != Gap
    ensures var c := ReplaceChar(g, Gap, 'X');
      && |c| >= 1 && c[|c| - 1] == last
      && forall i :: 0 <= i < |c| - 1 ==> c[i] == 'X'
  {
    assert forall i :: 0 <= i < |g| - 1 ==> g[i] == g[..|g| - 1][i];
  }

  /** The whole script minus file I/O: read, sort the names, number the
      columns by `referenceName`'s sequence and replace gaps. */
  method MakeAlleleSequences(records: seq<FastaRecord>, referenceName: string)
    returns (r: Result<NumberedTable, NumberingFailure>)
    ensures r.Err? && r.error.NoAlleleName? ==>
      && r.error.index < |records|
      && !HasAlleleId(records[r.error.index].description) && AllNamed(records[..r.error.index])
    ensures !AllNamed(records) ==> r.Err? && r.error.NoAlleleName?
    ensures r == Err(UnknownReference(referenceName)) <==> AllNamed(records) && referenceName !in Sequences(records)
    ensures r.Err? ==> r.error.NoAlleleName? || r.error == UnknownReference(referenceName) || r.error.ShorterThanReference?
    ensures r.Err? && r.error.ShorterThanReference? ==>
      && AllNamed(records) && referenceName in Sequences(records)
      && r.error.name in Sequences(records)
      && |Sequences(records)[r.error.name]| < |Sequences(records)[referenceName]|
    ensures r.Ok? <==>
      AllNamed(records) && referenceName in Sequences(records)
      && LongEnough(Sequences(records), Sequences(records)[referenceName])
    ensures r.Ok? ==>
      var sequences := Sequences(records);
      var reference := sequences[referenceName];
      && StrictlyAscending(r.value.names)
      && (forall n :: n in r.value.names <==> n in sequences)
      && |r.value.columns| == ColumnsAfter(reference, |reference|)
      && forall k :: 0 <= k < |r.value.columns| ==>
           && |r.value.columns[k]| == |r.value.names|
           && forall a :: 0 <= a < |r.value.names| ==>
                r.value.columns[k][a] == Cell(sequences[r.value.names[a]], reference, k + 1)
  {
    var read := ReadAlleles(records);
    if read.Err? {
      return Err(read.error);
    }
    var (order, sequences) := read.value;
    var names := SortDistinct(order);
    if referenceName !in sequences {
      return Err(UnknownReference(referenceName));
    }
    var reference := sequences[referenceName];
    if exists n :: n in names && |sequences[n]| < |reference| {
      var n :| n in names && |sequences[n]| < |reference|;
      return Err(ShorterThanReference(n));
    }
    var columns := NumberColumns(names, sequences, reference);
    return Ok(NumberedTable(names, ReplaceGaps(columns)));
  }
}
