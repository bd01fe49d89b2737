/** Per-column major allele and minor-allele fraction over the reference
    panel of one chain kind (the first loop of make_pseudosequences.py's run). */
module MinorAlleleFractions {
  import opened Wrappers
  import opened Alignments

  /** Occurrences of `c` in a column. */
  function Count(col: seq<char>, c: char): (n: nat)
    ensures n <= |col|
    ensures c !in col ==> n == 0
    ensures c in col ==> n >= 1
  {
    if col == [] then 0
    else (if col[0] == c then 1 else 0) + Count(col[1..], c)
  }

  /** What pandas' `mode()[0]` returns: a most frequent symbol, the smallest
      one when several are equally frequent. */
  ghost predicate IsMode(col: seq<char>, m: char) {
    && m in col
    && (forall c :: Count(col, c) <= Count(col, m))
    && (forall c :: Count(col, c) == Count(col, m) ==> m <= c)
  }

  /** The candidate with the highest count in `col`, smallest on ties. */
  function BestOf(col: seq<char>, candidates: seq<char>): (m: char)
    requires candidates != []
    ensures m in candidates
    ensures forall c :: c in candidates ==>
      Count(col, c) < Count(col, m) || (Count(col, c) == Count(col, m) && m <= c)
  {
    if |candidates| == 1 then candidates[0]
    else
      var b := BestOf(col, candidates[1..]);
      var c := candidates[0];
      assert forall x :: x in candidates ==> x == c || x in candidates[1..];
      if Count(col, c) > Count(col, b) || (Count(col, c) == Count(col, b) && c < b) then c else b
  }

  /** `s.mode()[0]` of a non-empty column; the gap `-` counts like any residue. */
  function Mode(col: seq<char>): (m: char)
    requires col != []
    ensures IsMode(col, m)
  {
    BestOf(col, col)
  }

  /** `d / n` as a real, for a count `d` out of `n`. */
  function Fraction(d: nat, n: nat): (q: real)
    requires d <= n && n > 0
    ensures 0.0 <= q <= 1.0
    ensures q == 0.0 <==> d == 0
    ensures q == 1.0 <==> d == n
    ensures q * n as real == d as real
  {
    var q := (d as real) / (n as real);
    assert q * (n as real) == d as real;
    assert q < 0.0 ==> q * (n as real) < 0.0;
    assert q > 1.0 ==> q * (n as real) > n as real;
    q
  }

  /** `(s != mode).mean()`: the fraction of alleles that differ from the mode;
      it is below 1 because the mode itself occurs. */
  function Maf(col: seq<char>): (f: real)
    requires col != []
    ensures 0.0 <= f < 1.0
  {
    Fraction(|col| - Count(col, Mode(col)), |col|)
  }

  /** The characters of every panel sequence at one column (`str.get(pos)`). */
  function Column(panel: seq<string>, pos: nat): (col: seq<char>)
    requires forall i :: 0 <= i < |panel| ==> pos < |panel[i]|
    ensures |col| == |panel|
    ensures forall i :: 0 <= i < |panel| ==> col[i] == panel[i][pos]
  {
    seq(|panel|, i requires 0 <= i < |panel| => panel[i][pos])
  }

  predicate Uniform(col: seq<char>) {
    forall i, j :: 0 <= i < |col| && 0 <= j < |col| ==> col[i] == col[j]
  }

  lemma {:induction false} CountAll(col: seq<char>, c: char)
    requires forall i :: 0 <= i < |col| ==> col[i] == c
    ensures Count(col, c) == |col|
  {
    if col != [] {
      CountAll(col[1..], c);
    }
  }

  lemma {:induction false} CountBelowWhenOther(col: seq<char>, c: char, k: nat)
    requires k < |col| && col[k] != c
    ensures Count(col, c) < |col|
  {
    if k > 0 {
      CountBelowWhenOther(col[1..], c, k - 1);
    }
  }

  /** The minor-allele fraction is 0 exactly when every allele has the same
      character in the column. */
  lemma MafZeroIffUniform(col: seq<char>)
    requires col != []
    ensures Maf(col) == 0.0 <==> Uniform(col)
  {
    var m := Mode(col);
    if Uniform(col) {
      var i :| 0 <= i < |col| && col[i] == m;
      CountAll(col, m);
    } else {
      var i, j :| 0 <= i < |col| && 0 <= j < |col| && col[i] != col[j];
      var k := if col[i] != m then i else j;
      CountBelowWhenOther(col, m, k);
    }
  }

  /** One row of the minor-allele fraction table. */
  datatype ColumnStat = ColumnStat(column: nat, majorAllele: char, minorAlleleFraction: real)

  /** `panel.str.len().unique()` has at most one value. */
  predicate OneLength(panel: seq<string>) {
    forall i :: 0 <= i < |panel| ==> |panel[i]| == |panel[0]|
  }

  /** The row the loop appends for column `pos`. */
  function StatAt(panel: seq<string>, pos: nat): (st: ColumnStat)
    requires panel != [] && OneLength(panel) && pos < |panel[0]|
    ensures st.column == pos && IsMode(Column(panel, pos), st.majorAllele)
    ensures 0.0 <= st.minorAlleleFraction < 1.0
    ensures st.minorAlleleFraction == 0.0 <==> Uniform(Column(panel, pos))
    ensures st.minorAlleleFraction == Fraction(|panel| - Count(Column(panel, pos), st.majorAllele), |panel|)
  {
    var col := Column(panel, pos);
    MafZeroIffUniform(col);
    ColumnStat(pos, Mode(col), Maf(col))
  }

  /** The loop over the columns of one kind. A kind without reference
      sequences forms no group and yields no rows; otherwise the run fails
      unless all of them have one aligned length, and yields one row per
      column, each with the column's mode and a minor-allele fraction in [0, 1)
      that is 0 exactly for uniform columns. */
  method MinorAlleleFractionsForKind(panel: seq<string>, kind: Kind)
    returns (r: Result<seq<ColumnStat>, Failure>)
    ensures r.Err? <==> !OneLength(panel)
    ensures r.Err? ==> r.error == UnequalAlignedLengths(kind)
    ensures r.Ok? ==> |r.value| == if panel == [] then 0 else |panel[0]|
    ensures r.Ok? ==> forall pos :: 0 <= pos < |r.value| ==>
      && r.value[pos] == StatAt(panel, pos)
      && IsMode(Column(panel, pos), r.value[pos].majorAllele)
      && 0.0 <= r.value[pos].minorAlleleFraction < 1.0
      && (r.value[pos].minorAlleleFraction == 0.0 <==> Uniform(Column(panel, pos)))
  {
    if panel == [] {
      return Ok([]);
    }
    if !OneLength(panel) {
      return Err(UnequalAlignedLengths(kind));
    }
    var length := |panel[0]|;
    var rows: seq<ColumnStat> := [];
    var pos := 0;
    while pos < length
      invariant 0 <= pos <= length
      invariant |rows| == pos
      invariant forall p :: 0 <= p < pos ==>
        && rows[p] == StatAt(panel, p)
        && IsMode(Column(panel, p), rows[p].majorAllele)
        && (rows[p].minorAlleleFraction == 0.0 <==> Uniform(Column(panel, p)))
    {
      var s := Column(panel, pos);
      MafZeroIffUniform(s);
      rows := rows + [ColumnStat(pos, Mode(s), Maf(s))];
      pos := pos + 1;
    }
    return Ok(rows);
  }

  /** Two alleles "AC-D" and "A-CD": at column 1 they hold `C` and `-`, which
      tie; the mode is `-` (the smaller character) and the minor-allele
      fraction is one half. */
  lemma TwoAlleleExample()
    ensures StatAt(["AC-D", "A-CD"], 1) == ColumnStat(1, '-', 0.5)
  {
    var panel := ["AC-D", "A-CD"];
    var col := Column(panel, 1);
    assert col == ['C', '-'];
    assert Count(col, '-') == 1 && Count(col, 'C') == 1;
    var m := Mode(col);
    assert m == 'C' || m == '-';
    assert Count(col, m) == 1;
  }
}
