/** assign_pdb_sequences_to_alpha_or_beta.py: each PDB chain sequence goes to
    the alpha or beta file according to its best mmseqs hit against the IMGT
    sequences, among hits that cover enough of both sequences. */
module PdbAssignment {
  import opened Wrappers
  import opened Strings
  import opened Collections

  /** One row of the mmseqs search results (the fields the script reads). */
  datatype Hit = Hit(query: string, target: string, qcov: real, tcov: real, evalue: real)

  /** `sequences_df.loc[name]` raises KeyError. */
  datatype AssignFailure = MissingSequence(name: string)

  /** `target.str.split(".").str.get(0)`: "alpha" or "beta" for IMGT targets. */
  function KindOf(h: Hit): string {
    BeforeFirst(h.target, '.')
  }

  /** The coverage filter; both comparisons are strict. */
  predicate Covered(h: Hit) {
    h.qcov > 0.7 && h.tcov > 0.5
  }

  /** The hits that pass the coverage filter, in input order. */
  function Surviving(hits: seq<Hit>): (s: seq<Hit>)
    ensures forall h :: h in s <==> h in hits && Covered(h)
  {
    if hits == [] then []
    else
      assert forall h :: h in hits <==> h == hits[0] || h in hits[1..];
      (if Covered(hits[0]) then [hits[0]] else []) + Surviving(hits[1..])
  }

  predicate EvalueLe(a: Hit, b: Hit) {
    a.evalue <= b.evalue
  }

  function QueryOf(h: Hit): string {
    h.query
  }

  /** `df`: the surviving hits by increasing evalue, then the first one per
      query. */
  function Best(hits: seq<Hit>): (best: seq<Hit>)
    ensures forall h :: h in best ==> h in hits && Covered(h)
    ensures forall i, j :: 0 <= i < j < |best| ==> best[i].query != best[j].query
  {
    var sorted := SortBy(Surviving(hits), EvalueLe);
    var best := DropDuplicatesBy(sorted, QueryOf);
    assert forall h :: h in best ==> h in multiset(sorted);
    assert forall i, j :: 0 <= i < j < |best| ==> QueryOf(best[i]) != QueryOf(best[j]);
    best
  }

  /** `df.loc[df.kind == kind]`, in the order of `df`. */
  function OfKind(best: seq<Hit>, kind: string): (sub: seq<Hit>)
    ensures forall h :: h in sub <==> h in best && KindOf(h) == kind
  {
    if best == [] then []
    else
      assert forall h :: h in best <==> h == best[0] || h in best[1..];
      (if KindOf(best[0]) == kind then [best[0]] else []) + OfKind(best[1..], kind)
  }

  /** What `write_fasta` writes for one chain. */
  function FastaEntry(name: string, sequence: string): string {
    ">pdb." + name + "\n" + sequence + "\n"
  }

  /** What `write_fasta` writes: one entry per row, the sequence looked up by
      the query name. */
  function WriteFasta(sub: seq<Hit>, sequences: map<string, string>): (r: Result<string, AssignFailure>)
    ensures r.Err? <==> exists h :: h in sub && h.query !in sequences
    ensures r.Err? ==> r.error.name !in sequences && exists h :: h in sub && h.query == r.error.name
  {
    if sub == [] then Ok("")
    else
      assert forall h :: h in sub <==> h == sub[0] || h in sub[1..];
      var name := sub[0].query;
      if name !in sequences then Err(MissingSequence(name))
      else
        match WriteFasta(sub[1..], sequences)
        case Err(e) => Err(e)
        case Ok(rest) => Ok(FastaEntry(name, sequences[name]) + rest)
  }

  /** The whole script minus file I/O: the alpha file, then the beta file. */
  function Assign(hits: seq<Hit>, sequences: map<string, string>): (r: Result<(string, string), AssignFailure>)
    ensures r.Err? ==> r.error.name !in sequences
    ensures r.Err? ==> exists h :: h in hits && Covered(h) && h.query == r.error.name && (KindOf(h) == "alpha" || KindOf(h) == "beta")
  {
    var best := Best(hits);
    match WriteFasta(OfKind(best, "alpha"), sequences)
    case Err(e) => Err(e)
    case Ok(alpha) =>
      match WriteFasta(OfKind(best, "beta"), sequences)
      case Err(e) => Err(e)
      case Ok(beta) => Ok((alpha, beta))
  }

  // ---------------------------------------------------------------------
  // Properties

  /** The kind is the target text before its first dot. */
  lemma KindBeforeDot(h: Hit)
    ensures KindOf(h) <= h.target && '.' !in KindOf(h)
    ensures |KindOf(h)| < |h.target| ==> h.target[|KindOf(h)|] == '.'
  {
  }

  lemma EvalueLeIsTotalPreorder()
    ensures TotalPreorder(EvalueLe)
  {
  }

  /** Every kept hit is an input hit that passes the coverage filter. */
  lemma BestCovered(hits: seq<Hit>)
    ensures forall h :: h in Best(hits) ==> h in hits && h.qcov > 0.7 && h.tcov > 0.5
  {
    var sorted := SortBy(Surviving(hits), EvalueLe);
    forall h | h in Best(hits) ensures h in hits && Covered(h) {
      assert h in sorted;
      assert h in multiset(sorted);
    }
  }

  /** At most one hit is kept per query. */
  lemma BestOnePerQuery(hits: seq<Hit>)
    ensures forall i, j :: 0 <= i < j < |Best(hits)| ==> Best(hits)[i].query != Best(hits)[j].query
  {
    var best := Best(hits);
    assert forall i, j :: 0 <= i < j < |best| ==> QueryOf(best[i]) != QueryOf(best[j]);
  }

  /** Every query with a hit that passes the coverage filter keeps one. */
  lemma BestCoversQueries(hits: seq<Hit>, h: Hit)
    requires h in hits && Covered(h)
    ensures exists b :: b in Best(hits) && b.query == h.query
  {
    var sorted := SortBy(Surviving(hits), EvalueLe);
    var best := Best(hits);
    assert h in multiset(sorted);
    var i :| 0 <= i < |sorted| && sorted[i] == h;
    assert HasKey(best, QueryOf, QueryOf(sorted[i]));
    var j :| 0 <= j < |best| && QueryOf(best[j]) == QueryOf(sorted[i]);
    assert best[j] in best;
  }

  /** The kept hit of a query has the smallest evalue among that query's
      hits that pass the coverage filter. */
  lemma BestHasMinimalEvalue(hits: seq<Hit>, b: Hit, h: Hit)
    requires b in Best(hits)
    requires h in hits && Covered(h) && h.query == b.query
    ensures b.evalue <= h.evalue
  {
    var sorted := SortBy(Surviving(hits), EvalueLe);
    EvalueLeIsTotalPreorder();
    SortBySorted(Surviving(hits), EvalueLe);
    assert h in multiset(sorted);
    FirstPerQueryIsMinimal(sorted, b, h);
  }

  lemma FirstPerQueryIsMinimal(sorted: seq<Hit>, b: Hit, h: Hit)
    requires SortedBy(sorted, EvalueLe)
    requires b in DropDuplicatesBy(sorted, QueryOf)
    requires h in sorted && h.query == b.query
    ensures b.evalue <= h.evalue
  {
    var j := Position(DropDuplicatesBy(sorted, QueryOf), b);
    var i := KeptFrom(sorted, QueryOf, j);
    var m := Position(sorted, h);
    assert QueryOf(sorted[m]) == QueryOf(sorted[i]);
    assert i <= m;
    if i < m {
      assert EvalueLe(sorted[i], sorted[m]);
    }
  }

  /** The lines of the written file. */
  function Lines(entries: seq<(string, string)>): seq<string> {
    if entries == [] then []
    else [">pdb." + entries[0].0, entries[0].1] + Lines(entries[1..])
  }

  function Entries(sub: seq<Hit>, sequences: map<string, string>): seq<(string, string)>
    requires forall h :: h in sub ==> h.query in sequences
  {
    if sub == [] then []
    else
      assert sub[0] in sub && forall h :: h in sub[1..] ==> h in sub;
      [(sub[0].query, sequences[sub[0].query])] + Entries(sub[1..], sequences)
  }

  lemma HeaderOneLine(name: string)
    requires '\n' !in name
    ensures '\n' !in ">pdb." + name
  {
    var header := ">pdb." + name;
    forall i | 0 <= i < |header| ensures header[i] != '\n' {
      if i >= 5 {
        assert header[i] == name[i - 5] && name[i - 5] in name;
      }
    }
  }

  /** One written entry splits into its header line and its sequence line. */
  lemma EntryLines(name: string, body: string, rest: string)
    requires '\n' !in name && '\n' !in body
    ensures SplitOn(FastaEntry(name, body) + rest, '\n') == [">pdb." + name, body] + SplitOn(rest, '\n')
  {
    var header := ">pdb." + name;
    HeaderOneLine(name);
    assert FastaEntry(name, body) + rest == header + ['\n'] + (body + ['\n'] + rest);
    SplitOnPiece(header, body + ['\n'] + rest, '\n');
    SplitOnPiece(body, rest, '\n');
  }

  /** Split at newlines, a written file gives back each chain's header line
      and its sequence, in order, followed by the empty text after the last
      newline, provided names and sequences contain no newline. */
  lemma {:induction false} WrittenLines(sub: seq<Hit>, sequences: map<string, string>)
    requires forall h :: h in sub ==> h.query in sequences && '\n' !in h.query && '\n' !in sequences[h.query]
    ensures WriteFasta(sub, sequences).Ok?
    ensures SplitOn(WriteFasta(sub, sequences).value, '\n') == Lines(Entries(sub, sequences)) + [""]
  {
    if sub != [] {
      var name := sub[0].query;
      assert sub[0] in sub;
      assert forall h :: h in sub[1..] ==> h in sub;
      WrittenLines(sub[1..], sequences);
      var rest := WriteFasta(sub[1..], sequences).value;
      assert WriteFasta(sub, sequences) == Ok(FastaEntry(name, sequences[name]) + rest);
      var es := Entries(sub, sequences);
      assert es == [(name, sequences[name])] + Entries(sub[1..], sequences);
      assert Lines(es) == [">pdb." + name, sequences[name]] + Lines(es[1..]);
      EntryLines(name, sequences[name], rest);
    } else {
      assert SplitOn("", '\n') == [""];
    }
  }

  /** The script writes both files exactly when every kept alpha or beta
      query has a sequence; each file then lists exactly the kept queries of
      its kind. */
  lemma AssignSucceeds(hits: seq<Hit>, sequences: map<string, string>)
    ensures Assign(hits, sequences).Ok? <==>
      forall h :: h in Best(hits) && (KindOf(h) == "alpha" || KindOf(h) == "beta") ==> h.query in sequences
    ensures Assign(hits, sequences).Ok? ==>
      && Assign(hits, sequences).value.0 == WriteFasta(OfKind(Best(hits), "alpha"), sequences).value
      && Assign(hits, sequences).value.1 == WriteFasta(OfKind(Best(hits), "beta"), sequences).value
  {
  }
}
