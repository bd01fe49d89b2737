/** filter_sequences.py: one unaligned record per normalised allele name,
    the longest one, provided it has at least the minimum length; kept
    records are relabelled with the chain kind and the name. */
module FilterSequences {
  import opened Wrappers
  import opened Strings
  import opened Collections
  import opened Alignments
  import opened Fasta

  /** `record.description.split()[1]` raises IndexError. */
  datatype FilterFailure = NoAlleleName(record: FastaRecord)

  /** `min_lengths[kind]`. */
  function MinLength(kind: Kind): nat {
    match kind
    case Alpha => 200
    case Beta => 200
  }

  /** The `--kind` argument as written. */
  function KindName(kind: Kind): string {
    match kind
    case Alpha => "alpha"
    case Beta => "beta"
  }

  // ---------------------------------------------------------------------
  // Visiting order

  /** `key=len(r.seq), reverse=True`: `a` may come before `b`. */
  predicate LongerFirst(a: FastaRecord, b: FastaRecord) {
    |a.sequence| >= |b.sequence|
  }

  /** The records in the order the loop visits them. */
  function Visit(records: seq<FastaRecord>): seq<FastaRecord> {
    SortBy(records, LongerFirst)
  }

  /** The loop sees every record once, longest first; records of equal
      length keep their input order. */
  lemma VisitOrder(records: seq<FastaRecord>)
    ensures multiset(Visit(records)) == multiset(records)
    ensures forall i, j :: 0 <= i < j < |Visit(records)| ==>
      |Visit(records)[i].sequence| >= |Visit(records)[j].sequence|
    ensures forall y :: Ties(Visit(records), LongerFirst, y) == Ties(records, LongerFirst, y)
  {
    assert TotalPreorder(LongerFirst);
    SortBySorted(records, LongerFirst);
    forall y ensures Ties(Visit(records), LongerFirst, y) == Ties(records, LongerFirst, y) {
      SortByStable(records, LongerFirst, y);
    }
  }

  lemma VisitNamed(records: seq<FastaRecord>)
    ensures AllNamed(Visit(records)) <==> AllNamed(records)
  {
    var visit := Visit(records);
    assert multiset(visit) == multiset(records);
    forall r ensures r in visit <==> r in records {
      assert r in visit <==> r in multiset(visit);
    }
    if !AllNamed(records) {
      var i :| 0 <= i < |records| && !HasAlleleId(records[i].description);
      assert records[i] in visit;
    }
    if !AllNamed(visit) {
      var i :| 0 <= i < |visit| && !HasAlleleId(visit[i].description);
      assert visit[i] in records;
    }
  }

  // ---------------------------------------------------------------------
  // What the loop keeps

  /** The normalised name of each visited record; "" where
      `normalize_allele_name` gives nothing (both are falsy in the script). */
  function NamesOf(visit: seq<FastaRecord>, normalize: map<string, string>): (names: seq<string>)
    ensures |names| == |visit|
  {
    seq(|visit|, i requires 0 <= i < |visit| =>
      var original := NameOf(visit[i]);
      if original in normalize then normalize[original] else "")
  }

  /** The record passes every check except the `seen` one. */
  predicate Eligible(visit: seq<FastaRecord>, names: seq<string>, minLength: nat, i: nat)
    requires i < |visit| == |names|
  {
    names[i] != "" && |visit[i].sequence| >= minLength
  }

  /** The names of the eligible records among the first n visited. */
  function SeenNames(visit: seq<FastaRecord>, names: seq<string>, minLength: nat, n: nat): set<string>
    requires n <= |visit| == |names|
  {
    if n == 0 then {}
    else
      SeenNames(visit, names, minLength, n - 1)
        + if Eligible(visit, names, minLength, n - 1) then {names[n - 1]} else {}
  }

  /** The positions, among the first n visited, of the records the loop keeps:
      eligible ones whose name no earlier eligible record has. */
  function Picked(visit: seq<FastaRecord>, names: seq<string>, minLength: nat, n: nat): (p: seq<nat>)
    requires n <= |visit| == |names|
    ensures |p| <= n && forall k :: 0 <= k < |p| ==> p[k] < n
  {
    if n == 0 then []
    else
      var p := Picked(visit, names, minLength, n - 1);
      if Eligible(visit, names, minLength, n - 1) && names[n - 1] !in SeenNames(visit, names, minLength, n - 1)
      then p + [n - 1]
      else p
  }

  /** The record as written out: `kind.id`, and the name in front of the
      description. */
  function Relabel(r: FastaRecord, name: string, kind: Kind): FastaRecord {
    FastaRecord(KindName(kind) + "." + r.id, name + " " + r.description, r.sequence)
  }

  /** The relabelled records at positions `p`. */
  function Relabelled(visit: seq<FastaRecord>, names: seq<string>, kind: Kind, p: seq<nat>): (out: seq<FastaRecord>)
    requires |visit| == |names|
    requires forall k :: 0 <= k < |p| ==> p[k] < |visit|
    ensures |out| == |p|
  {
    seq(|p|, k requires 0 <= k < |p| => Relabel(visit[p[k]], names[p[k]], kind))
  }

  lemma RelabelledSnoc(visit: seq<FastaRecord>, names: seq<string>, kind: Kind, p: seq<nat>, i: nat)
    requires |visit| == |names|
    requires forall k :: 0 <= k < |p| ==> p[k] < |visit|
    requires i < |visit|
    ensures Relabelled(visit, names, kind, p + [i]) == Relabelled(visit, names, kind, p) + [Relabel(visit[i], names[i], kind)]
  {
  }

  /** `output_records` after the loop. */
  function Output(records: seq<FastaRecord>, normalize: map<string, string>, kind: Kind): seq<FastaRecord> {
    var visit := Visit(records);
    var names := NamesOf(visit, normalize);
    Relabelled(visit, names, kind, Picked(visit, names, MinLength(kind), |visit|))
  }

  /** The distinct sequences of a list of records (`sequences`). */
  function SequencesOf(records: seq<FastaRecord>): set<string> {
    set r | r in records :: r.sequence
  }

  /** The script: the records in visiting order, then the loop. */
  method FilterRecords(records: seq<FastaRecord>, kind: Kind, normalize: map<string, string>)
    returns (r: Result<(seq<FastaRecord>, set<string>), FilterFailure>)
    ensures r.Err? <==> !AllNamed(records)
    ensures r.Err? ==> r.error.record in records && !HasAlleleId(r.error.record.description)
    ensures r.Ok? ==> r.value.0 == Output(records, normalize, kind)
    ensures r.Ok? ==> r.value.1 == SequencesOf(r.value.0)
  {
    var visit := Visit(records);
    VisitNamed(records);
    r := FilterVisited(visit, kind, normalize);
    if r.Err? {
      assert r.error.record in multiset(visit);
    }
  }

  /** The loop over the visiting order. It fails on the first record
      without a second word; otherwise it returns the kept records,
      relabelled, and their distinct sequences. */
  method FilterVisited(visit: seq<FastaRecord>, kind: Kind, normalize: map<string, string>)
    returns (r: Result<(seq<FastaRecord>, set<string>), FilterFailure>)
    ensures r.Err? <==> !AllNamed(visit)
    ensures r.Err? ==> r.error.record in visit && !HasAlleleId(r.error.record.description)
    ensures r.Ok? ==> r.value.0 == Relabelled(visit, NamesOf(visit, normalize), kind,
                                              Picked(visit, NamesOf(visit, normalize), MinLength(kind), |visit|))
    ensures r.Ok? ==> r.value.1 == SequencesOf(r.value.0)
  {
    var minLength := MinLength(kind);
    ghost var names := NamesOf(visit, normalize);
    var output: seq<FastaRecord> := [];
    var seen: set<string> := {};
    var sequences: set<string> := {};
    ghost var picked: seq<nat> := [];
    for i := 0 to |visit|
      invariant AllNamed(visit[..i])
      invariant seen == SeenNames(visit, names, minLength, i)
      invariant picked == Picked(visit, names, minLength, i)
      invariant output == Relabelled(visit, names, kind, picked)
      invariant sequences == SequencesOf(output)
    {
      var record := visit[i];
      var words := SplitWhitespace(record.description);
      if |words| < 2 {
        return Err(NoAlleleName(record));
      }
      var original := words[1];
      var name := if original in normalize then normalize[original] else "";
      NameStep(visit, normalize, i, original);
      NamedStep(visit, i);
      if name == "" || name in seen || |record.sequence| < minLength {
        continue;
      }
      seen := seen + {name};
      sequences := sequences + {record.sequence};
      var kept := Relabel(record, name, kind);
      RelabelledSnoc(visit, names, kind, picked, i);
      SequencesSnoc(output, kept);
      output := output + [kept];
      picked := picked + [i];
    }
    assert visit[..|visit|] == visit;
    return Ok((output, sequences));
  }

  lemma NameStep(visit: seq<FastaRecord>, normalize: map<string, string>, i: nat, original: string)
    requires i < |visit|
    requires HasAlleleId(visit[i].description) && original == SplitWhitespace(visit[i].description)[1]
    ensures NamesOf(visit, normalize)[i] == if original in normalize then normalize[original] else ""
  {
  }

  lemma NamedStep(visit: seq<FastaRecord>, i: nat)
    requires i < |visit| && AllNamed(visit[..i]) && HasAlleleId(visit[i].description)
    ensures AllNamed(visit[..i + 1])
  {
    assert forall j :: 0 <= j < i ==> visit[..i + 1][j] == visit[..i][j];
  }

  lemma SequencesSnoc(output: seq<FastaRecord>, kept: FastaRecord)
    ensures SequencesOf(output + [kept]) == SequencesOf(output) + {kept.sequence}
  {
    assert forall r :: r in output + [kept] <==> r in output || r == kept;
  }

  // ---------------------------------------------------------------------
  // What the output promises

  /** `seen` holds exactly the names of the eligible records visited so far. */
  lemma {:induction false} SeenNamesExactly(visit: seq<FastaRecord>, names: seq<string>, minLength: nat, n: nat, x: string)
    requires n <= |visit| == |names|
    ensures x in SeenNames(visit, names, minLength, n) <==>
      exists i :: 0 <= i < n && Eligible(visit, names, minLength, i) && names[i] == x
  {
    if n > 0 {
      SeenNamesExactly(visit, names, minLength, n - 1, x);
    }
  }

  /** Positions `p` are increasing and eligible. */
  ghost predicate KeptInOrder(visit: seq<FastaRecord>, names: seq<string>, minLength: nat, p: seq<nat>)
    requires |visit| == |names|
  {
    && (forall k :: 0 <= k < |p| ==> p[k] < |visit| && Eligible(visit, names, minLength, p[k]))
    && (forall k, l :: 0 <= k < l < |p| ==> p[k] < p[l])
  }

  /** Positions `p` carry pairwise distinct names, all of them in `seen`. */
  ghost predicate KeptDistinct(names: seq<string>, p: seq<nat>, seen: set<string>) {
    && (forall k :: 0 <= k < |p| ==> p[k] < |names| && names[p[k]] in seen)
    && (forall k, l :: 0 <= k < l < |p| && p[l] < |names| ==> names[p[k]] != names[p[l]])
  }

  /** The kept positions are increasing and eligible. */
  lemma {:induction false} PickedInOrder(visit: seq<FastaRecord>, names: seq<string>, minLength: nat, n: nat)
    requires n <= |visit| == |names|
    ensures KeptInOrder(visit, names, minLength, Picked(visit, names, minLength, n))
  {
    if n > 0 {
      var p := Picked(visit, names, minLength, n - 1);
      PickedInOrder(visit, names, minLength, n - 1);
      if Picked(visit, names, minLength, n) != p {
        assert Picked(visit, names, minLength, n) == p + [n - 1];
      }
    }
  }

  /** The kept positions carry pairwise distinct names, all of them seen. */
  lemma {:induction false} PickedDistinct(visit: seq<FastaRecord>, names: seq<string>, minLength: nat, n: nat)
    requires n <= |visit| == |names|
    ensures KeptDistinct(names, Picked(visit, names, minLength, n), SeenNames(visit, names, minLength, n))
  {
    if n > 0 {
      var p := Picked(visit, names, minLength, n - 1);
      var seen := SeenNames(visit, names, minLength, n - 1);
      PickedDistinct(visit, names, minLength, n - 1);
      assert seen <= SeenNames(visit, names, minLength, n);
      if Eligible(visit, names, minLength, n - 1) && names[n - 1] !in seen {
        var q := p + [n - 1];
        assert Picked(visit, names, minLength, n) == q;
        assert names[n - 1] in SeenNames(visit, names, minLength, n);
        forall k | 0 <= k < |p|
          ensures q[k] == p[k] && names[q[k]] in seen
        {
        }
      }
    }
  }

  /** Every eligible name is kept: some kept record carries it. */
  lemma {:induction false} EligibleNameKept(visit: seq<FastaRecord>, names: seq<string>, minLength: nat, n: nat, x: string)
    requires n <= |visit| == |names|
    ensures x in SeenNames(visit, names, minLength, n) ==>
      exists k :: 0 <= k < |Picked(visit, names, minLength, n)| && names[Picked(visit, names, minLength, n)[k]] == x
  {
    if n > 0 && x in SeenNames(visit, names, minLength, n) {
      var p := Picked(visit, names, minLength, n - 1);
      var q := Picked(visit, names, minLength, n);
      if x in SeenNames(visit, names, minLength, n - 1) {
        EligibleNameKept(visit, names, minLength, n - 1, x);
        var k :| 0 <= k < |p| && names[p[k]] == x;
        assert q[k] == p[k];
      } else {
        assert q == p + [n - 1];
        assert names[q[|p|]] == x;
      }
    }
  }

  /** A name is in the output exactly when some record with that name is long
      enough, that is, when its longest record is. */
  lemma NameKeptIff(visit: seq<FastaRecord>, names: seq<string>, minLength: nat, x: string)
    requires |visit| == |names|
    ensures (exists k :: 0 <= k < |Picked(visit, names, minLength, |visit|)| &&
               names[Picked(visit, names, minLength, |visit|)[k]] == x)
        <==> x != "" && exists i :: 0 <= i < |visit| && names[i] == x && |visit[i].sequence| >= minLength
  {
    PickedInOrder(visit, names, minLength, |visit|);
    SeenNamesExactly(visit, names, minLength, |visit|, x);
    EligibleNameKept(visit, names, minLength, |visit|, x);
  }

  /** Position q holds the first visited record with its name, and no record
      with that name is longer. */
  ghost predicate FirstOfItsName(visit: seq<FastaRecord>, names: seq<string>, q: nat)
    requires q < |visit| == |names|
  {
    && (forall i :: 0 <= i < q ==> names[i] != names[q])
    && (forall i :: 0 <= i < |visit| && names[i] == names[q] ==> |visit[i].sequence| <= |visit[q].sequence|)
  }

  /** In the visiting order, the kept record of a name is the first record
      with that name at all, hence one of its longest records (and, by
      VisitOrder, the earliest of those in input order). */
  lemma {:induction false} KeptIsFirst(visit: seq<FastaRecord>, names: seq<string>, minLength: nat, n: nat)
    requires n <= |visit| == |names|
    requires forall i, j :: 0 <= i < j < |visit| ==> |visit[i].sequence| >= |visit[j].sequence|
    ensures forall k :: 0 <= k < |Picked(visit, names, minLength, n)| ==>
      FirstOfItsName(visit, names, Picked(visit, names, minLength, n)[k])
  {
    if n > 0 {
      var p := Picked(visit, names, minLength, n - 1);
      KeptIsFirst(visit, names, minLength, n - 1);
      if Picked(visit, names, minLength, n) != p {
        var q := n - 1;
        assert Picked(visit, names, minLength, n) == p + [q];
        assert Eligible(visit, names, minLength, q);
        assert names[q] !in SeenNames(visit, names, minLength, q);
        SeenNamesExactly(visit, names, minLength, q, names[q]);
        forall i | 0 <= i < |visit| && names[i] == names[q]
          ensures q <= i && |visit[i].sequence| <= |visit[q].sequence|
        {
          if i < q {
            assert false;
          }
        }
      }
    }
  }

  /** Every output record is long enough, and there are no more outputs
      than inputs. */
  lemma OutputShape(records: seq<FastaRecord>, normalize: map<string, string>, kind: Kind)
    ensures |Output(records, normalize, kind)| <= |records|
    ensures forall k :: 0 <= k < |Output(records, normalize, kind)| ==>
      |Output(records, normalize, kind)[k].sequence| >= MinLength(kind) == 200
  {
    var visit := Visit(records);
    VisitOrder(records);
    assert |visit| == |records| by {
      assert |multiset(visit)| == |multiset(records)|;
    }
    PickedInOrder(visit, NamesOf(visit, normalize), MinLength(kind), |visit|);
  }

  /** The relabelled header reads back: its first word is the name and the
      original description follows. */
  lemma RelabelReadsBack(r: FastaRecord, name: string, kind: Kind)
    requires name != [] && NoSpace(name)
    ensures SplitWhitespace(Relabel(r, name, kind).description) == [name] + SplitWhitespace(r.description)
    ensures Relabel(r, name, kind).id == KindName(kind) + "." + r.id
    ensures Relabel(r, name, kind).sequence == r.sequence
  {
    assert name + " " + r.description == name + (" " + r.description);
    SplitAfterWord(name, r.description);
  }
}
