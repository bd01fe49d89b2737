/** The structure scan of make_pseudosequences.py's run: for every PDB
    accession, every peptide-length chain is checked against the MHC chains at
    each cutoff distance in ascending order, and every MHC residue is recorded
    once per peptide chain, at the first cutoff at which it is nearby, after an
    integrity check against the alignment. The distance search of the structure
    library is the abstract `nearby` field of a Structure. */
module ContactScan {
  import opened Wrappers
  import opened Strings
  import opened Collections
  import opened SortedStrings
  import opened PositionMaps
  import opened Alignments

  type ChainId = string

  /** A residue of a structure: its chain, its index among that chain's
      residues, and its one-letter code. */
  datatype Residue = Residue(chain: ChainId, index: nat, code: char)

  datatype PdbChain = PdbChain(id: ChainId, length: nat)

  /** A loaded structure: its chains, and the residues within a distance of a
      chain (`chain.nearby_hets(cutoff=..., residues=True, ligands=False)`). */
  datatype Structure = Structure(chains: seq<PdbChain>, nearby: (ChainId, real) -> set<Residue>)

  /** One aligned PDB chain: the row of `pdb_aligned_df`. */
  datatype ChainRecord = ChainRecord(accession: string, chain: ChainId, kind: Kind, aligned: string)

  /** One row of the contacts table. */
  datatype Contact = Contact(
    accession: string, cutoff: real, peptideChain: ChainId, mhcChain: ChainId,
    kind: Kind, unaligned: nat, alignedColumn: nat, code: char)

  datatype SkipReason = ChainCountMismatch | NoPeptides

  datatype ScanOutcome = Skipped(reason: SkipReason) | Scanned(contacts: seq<Contact>)

  // ---------------------------------------------------------------------
  // Reading the PDB records

  /** `index.str.split(".").str.get(1).str.split("_").str.get(0)`; a
      description without a "." gives NaN, which groupby then drops. */
  function AccessionOf(description: string): (a: Option<string>)
    ensures a.Some? ==> '.' !in a.value && '_' !in a.value
    ensures a.None? <==> '.' !in description
  {
    var parts := SplitOn(description, '.');
    if |parts| < 2 then
      assert IndexOf(description, '.') == |description|;
      None
    else
      assert parts[1] in parts;
      var a := BeforeFirst(parts[1], '_');
      assert forall i :: 0 <= i < |a| ==> a[i] == parts[1][i];
      Some(a)
  }

  /** `index.str.split("_").str.get(-1)` */
  function ChainOf(description: string): (c: ChainId)
    ensures '_' !in c && |c| <= |description| && c == description[|description| - |c|..]
    ensures |c| < |description| ==> description[|description| - |c| - 1] == '_'
  {
    AfterLast(description, '_')
  }

  /** The row of `pdb_aligned_df` for an aligned record: only PDB records
      whose description yields an accession have one. */
  function ChainRecordOf(r: AlignedRecord): Option<ChainRecord> {
    var a := AccessionOf(r.description);
    if IsPdb(r) && a.Some? then Some(ChainRecord(a.value, ChainOf(r.description), r.kind, r.aligned)) else None
  }

  /** The aligned PDB chains that have an accession, in input order. */
  function PdbRecords(records: seq<AlignedRecord>): seq<ChainRecord> {
    if records == [] then []
    else (if ChainRecordOf(records[0]).Some? then [ChainRecordOf(records[0]).value] else []) + PdbRecords(records[1..])
  }

  /** `pdb_aligned_df` holds a row for exactly the PDB records with an accession. */
  lemma {:induction false} PdbRecordsMembers(records: seq<AlignedRecord>)
    ensures forall c :: c in PdbRecords(records) <==> exists r :: r in records && ChainRecordOf(r) == Some(c)
  {
    if records != [] {
      PdbRecordsMembers(records[1..]);
      assert forall x :: x in records <==> x == records[0] || x in records[1..];
    }
  }

  /** `sub_df` for one accession. */
  function RecordsOf(recs: seq<ChainRecord>, accession: string): (rs: seq<ChainRecord>)
    ensures forall c :: c in rs <==> c in recs && c.accession == accession
  {
    if recs == [] then []
    else
      assert forall x :: x in recs <==> x == recs[0] || x in recs[1..];
      (if recs[0].accession == accession then [recs[0]] else []) + RecordsOf(recs[1..], accession)
  }

  /** The accessions groupby visits: each once, in sorted order. */
  function Accessions(recs: seq<ChainRecord>): (accs: seq<string>)
    ensures forall a :: a in accs <==> exists c :: c in recs && c.accession == a
    ensures StrictlyAscending(accs)
  {
    SortDistinct(DistinctAccessions(recs))
  }

  /** The accessions in first-appearance order, each once. */
  function DistinctAccessions(recs: seq<ChainRecord>): (names: seq<string>)
    ensures forall a :: a in names <==> exists c :: c in recs && c.accession == a
    ensures Distinct(names)
  {
    var unique := DropDuplicatesBy(recs, RecordAccession);
    var names := seq(|unique|, i requires 0 <= i < |unique| => unique[i].accession);
    UniqueAccessions(recs, unique, names);
    names
  }

  function RecordAccession(c: ChainRecord): string {
    c.accession
  }

  lemma UniqueAccessions(recs: seq<ChainRecord>, unique: seq<ChainRecord>, names: seq<string>)
    requires forall i, j :: 0 <= i < j < |unique| ==> RecordAccession(unique[i]) != RecordAccession(unique[j])
    requires forall x :: x in unique ==> x in recs
    requires forall i :: 0 <= i < |recs| ==> HasKey(unique, RecordAccession, RecordAccession(recs[i]))
    requires |names| == |unique| && forall i :: 0 <= i < |unique| ==> names[i] == unique[i].accession
    ensures forall a :: a in names <==> exists c :: c in recs && c.accession == a
    ensures Distinct(names)
  {
    forall a | a in names ensures exists c :: c in recs && c.accession == a {
      var i :| 0 <= i < |names| && names[i] == a;
      assert unique[i] in unique;
    }
    forall a | exists c :: c in recs && c.accession == a ensures a in names {
      var c :| c in recs && c.accession == a;
      var i :| 0 <= i < |recs| && recs[i] == c;
      assert HasKey(unique, RecordAccession, RecordAccession(recs[i]));
      var j :| 0 <= j < |unique| && RecordAccession(unique[j]) == a;
      assert names[j] == a;
    }
    forall i, j | 0 <= i < j < |names| ensures names[i] != names[j] {
      assert RecordAccession(unique[i]) != RecordAccession(unique[j]);
    }
  }

  // ---------------------------------------------------------------------
  // One accession: skip rules, chain table, position maps

  function CountKind(recs: seq<ChainRecord>, kind: Kind): (n: nat)
    ensures n <= |recs|
    ensures n == 0 <==> forall c :: c in recs ==> c.kind != kind
  {
    if recs == [] then 0
    else
      assert forall x :: x in recs <==> x == recs[0] || x in recs[1..];
      (if recs[0].kind == kind then 1 else 0) + CountKind(recs[1..], kind)
  }

  /** The peptide chains: those with a length within [minLength, maxLength]. */
  function Peptides(s: Structure, minLength: nat, maxLength: nat): (ps: seq<ChainId>)
    ensures forall p :: p in ps <==> exists c :: c in s.chains && minLength <= c.length <= maxLength && c.id == p
    decreases |s.chains|
  {
    if s.chains == [] then []
    else
      var c := s.chains[0];
      var rest := Structure(s.chains[1..], s.nearby);
      assert forall x :: x in s.chains <==> x == c || x in rest.chains;
      (if minLength <= c.length <= maxLength then [c.id] else []) + Peptides(rest, minLength, maxLength)
  }

  /** Why an accession is skipped, if it is: unequal numbers of alpha and beta
      chain records (decided before the structure is opened), or no peptide chain. */
  function SkipFor(recs: seq<ChainRecord>, s: Structure, minLength: nat, maxLength: nat): (r: Option<SkipReason>)
    ensures r == Some(ChainCountMismatch) <==> CountKind(recs, Alpha) != CountKind(recs, Beta)
    ensures r == Some(NoPeptides) <==>
      CountKind(recs, Alpha) == CountKind(recs, Beta) && forall c :: c in s.chains ==> !(minLength <= c.length <= maxLength)
    ensures r.None? ==> exists c :: c in s.chains && minLength <= c.length <= maxLength
  {
    var ps := Peptides(s, minLength, maxLength);
    assert ps != [] ==> ps[0] in ps;
    assert forall c :: c in s.chains && minLength <= c.length <= maxLength ==> c.id in ps;
    if CountKind(recs, Alpha) != CountKind(recs, Beta) then Some(ChainCountMismatch)
    else if Peptides(s, minLength, maxLength) == [] then Some(NoPeptides)
    else None
  }

  /** `mhc_chain_to_kind` together with `sub_df.loc[chain]`: every alpha record
      is entered, then every beta record, a later one replacing an earlier. */
  function Enter(table: map<ChainId, ChainRecord>, recs: seq<ChainRecord>, kind: Kind): map<ChainId, ChainRecord>
    decreases |recs|
  {
    if recs == [] then table
    else
      var t := if recs[0].kind == kind then table[recs[0].chain := recs[0]] else table;
      Enter(t, recs[1..], kind)
  }

  function ChainTable(recs: seq<ChainRecord>): map<ChainId, ChainRecord> {
    Enter(Enter(map[], recs, Alpha), recs, Beta)
  }

  lemma {:induction false} EnterShape(table: map<ChainId, ChainRecord>, recs: seq<ChainRecord>, kind: Kind)
    ensures forall c :: c in Enter(table, recs, kind) <==> c in table || exists r :: r in recs && r.kind == kind && r.chain == c
    ensures forall c :: c in Enter(table, recs, kind) ==>
      (Enter(table, recs, kind)[c] in recs && Enter(table, recs, kind)[c].kind == kind && Enter(table, recs, kind)[c].chain == c)
      || (c in table && Enter(table, recs, kind)[c] == table[c] && !exists r :: r in recs && r.kind == kind && r.chain == c)
    decreases |recs|
  {
    if recs != [] {
      var t := if recs[0].kind == kind then table[recs[0].chain := recs[0]] else table;
      EnterShape(t, recs[1..], kind);
      assert forall x :: x in recs <==> x == recs[0] || x in recs[1..];
    }
  }

  /** The chain table holds exactly the chains of the records; each entry is a
      record for that chain, and a beta record wins over an alpha record. */
  lemma ChainTableShape(recs: seq<ChainRecord>)
    ensures forall c :: c in ChainTable(recs) <==> exists r :: r in recs && r.chain == c
    ensures forall c :: c in ChainTable(recs) ==> ChainTable(recs)[c] in recs && ChainTable(recs)[c].chain == c
    ensures forall c :: c in ChainTable(recs) ==>
      (ChainTable(recs)[c].kind == Beta <==> exists r :: r in recs && r.kind == Beta && r.chain == c)
  {
    EnterShape(map[], recs, Alpha);
    EnterShape(Enter(map[], recs, Alpha), recs, Beta);
    forall c | exists r :: r in recs && r.chain == c ensures c in ChainTable(recs) {
      var r :| r in recs && r.chain == c;
      if r.kind == Alpha {
        assert c in Enter(map[], recs, Alpha);
      }
    }
  }

  /** The loop that fills `mhc_chain_to_kind`. */
  method MakeChainTable(recs: seq<ChainRecord>) returns (table: map<ChainId, ChainRecord>)
    ensures table == ChainTable(recs)
  {
    table := map[];
    var kinds := [Alpha, Beta];
    var k := 0;
    while k < 2
      invariant 0 <= k <= 2
      invariant table == if k == 0 then map[] else if k == 1 then Enter(map[], recs, Alpha) else ChainTable(recs)
    {
      var start := table;
      var i := 0;
      while i < |recs|
        invariant 0 <= i <= |recs|
        invariant Enter(table, recs[i..], kinds[k]) == Enter(start, recs, kinds[k])
      {
        assert recs[i..][1..] == recs[i + 1..];
        if recs[i].kind == kinds[k] {
          table := table[recs[i].chain := recs[i]];
        }
        i := i + 1;
      }
      k := k + 1;
    }
  }

  /** Every chain in the table has its forward position map. */
  ghost predicate MapsFor(table: map<ChainId, ChainRecord>, maps: map<ChainId, map<nat, nat>>) {
    forall c :: c in table ==> c in maps && maps[c] == PositionToAligned(table[c].aligned)
  }

  /** The loop that fills `mhc_chain_to_position_map`. */
  method MakePositionMaps(table: map<ChainId, ChainRecord>) returns (maps: map<ChainId, map<nat, nat>>)
    ensures maps.Keys == table.Keys
    ensures MapsFor(table, maps)
  {
    maps := map[];
    var todo := table.Keys;
    while todo != {}
      invariant todo <= table.Keys
      invariant maps.Keys == table.Keys - todo
      invariant forall c :: c in maps ==> maps[c] == PositionToAligned(table[c].aligned)
      decreases |todo|
    {
      var c :| c in todo;
      var m := MakePositionToAlignedPositionDict(table[c].aligned);
      maps := maps[c := m];
      todo := todo - {c};
    }
  }

  // ---------------------------------------------------------------------
  // Specification of the per-peptide scan

  /** Everything nearby at the first `i` sorted cutoffs: the `seen` set. */
  function SeenBefore(near: (ChainId, real) -> set<Residue>, pep: ChainId, cs: seq<real>, i: nat): set<Residue>
    requires i <= |cs|
  {
    if i == 0 then {} else SeenBefore(near, pep, cs, i - 1) + near(pep, cs[i - 1])
  }

  /** The residues recorded at cutoff `cs[i]`: nearby there and at no earlier cutoff. */
  function FirstNearby(near: (ChainId, real) -> set<Residue>, pep: ChainId, cs: seq<real>, i: nat): set<Residue>
    requires i < |cs|
  {
    near(pep, cs[i]) - SeenBefore(near, pep, cs, i)
  }

  lemma {:induction false} SeenBeforeMembers(near: (ChainId, real) -> set<Residue>, pep: ChainId, cs: seq<real>, i: nat, r: Residue)
    requires i <= |cs|
    ensures r in SeenBefore(near, pep, cs, i) <==> exists j :: 0 <= j < i && r in near(pep, cs[j])
  {
    if i > 0 {
      SeenBeforeMembers(near, pep, cs, i - 1, r);
    }
  }

  /** A residue is recorded at `cs[i]` exactly when it is nearby there and at
      none of the cutoffs processed before. */
  lemma FirstNearbyCharacterised(near: (ChainId, real) -> set<Residue>, pep: ChainId, cs: seq<real>, i: nat, r: Residue)
    requires i < |cs|
    ensures r in FirstNearby(near, pep, cs, i) <==> r in near(pep, cs[i]) && forall j :: 0 <= j < i ==> r !in near(pep, cs[j])
  {
    SeenBeforeMembers(near, pep, cs, i, r);
  }

  predicate Ascending(cs: seq<real>) {
    forall i, j :: 0 <= i < j < |cs| ==> cs[i] <= cs[j]
  }

  /** With the cutoffs in ascending order, a residue is recorded at the
      smallest cutoff at which it is nearby, and at no other. */
  lemma RecordedAtSmallestCutoff(near: (ChainId, real) -> set<Residue>, pep: ChainId, cs: seq<real>, i: nat, r: Residue)
    requires Ascending(cs) && i < |cs|
    requires r in FirstNearby(near, pep, cs, i)
    ensures forall j :: 0 <= j < |cs| && r in near(pep, cs[j]) ==> cs[i] <= cs[j]
    ensures forall j :: 0 <= j < |cs| && j != i ==> r !in FirstNearby(near, pep, cs, j)
  {
    FirstNearbyCharacterised(near, pep, cs, i, r);
    forall j | 0 <= j < |cs| && j != i ensures r !in FirstNearby(near, pep, cs, j) {
      FirstNearbyCharacterised(near, pep, cs, j, r);
    }
  }

  /** The integrity check: the residue's index is within the chain's ungapped
      sequence and the residue there is the residue's code. */
  predicate Intact(x: Residue, rec: ChainRecord) {
    x.index < |Ungapped(rec.aligned)| && Ungapped(rec.aligned)[x.index] == x.code
  }

  /** `mhc_chain_to_position_map[chain][index]` */
  function AlignedColumn(aligned: string, p: nat): (col: nat)
    requires p < |Ungapped(aligned)|
    ensures col < |aligned| && aligned[col] == Ungapped(aligned)[p]
  {
    PositionToAlignedShape(aligned);
    PositionToAligned(aligned)[p]
  }

  function ContactFor(accession: string, cutoff: real, pep: ChainId, x: Residue, rec: ChainRecord): Contact
    requires Intact(x, rec)
  {
    Contact(accession, cutoff, pep, x.chain, rec.kind, x.index, AlignedColumn(rec.aligned, x.index), x.code)
  }

  function ResidueOf(c: Contact): Residue {
    Residue(c.mhcChain, c.unaligned, c.code)
  }

  /** The contact rows for a set of newly nearby residues: only those on an MHC chain. */
  ghost function ContactsOf(accession: string, cutoff: real, pep: ChainId, xs: set<Residue>, table: map<ChainId, ChainRecord>): set<Contact> {
    set x | x in xs && x.chain in table && Intact(x, table[x.chain]) :: ContactFor(accession, cutoff, pep, x, table[x.chain])
  }

  /** Some newly nearby MHC residue fails the integrity check. */
  ghost predicate Broken(xs: set<Residue>, table: map<ChainId, ChainRecord>) {
    exists x :: x in xs && x.chain in table && !Intact(x, table[x.chain])
  }

  ghost function PeptideContacts(accession: string, near: (ChainId, real) -> set<Residue>, pep: ChainId,
                                 cs: seq<real>, table: map<ChainId, ChainRecord>, k: nat): set<Contact>
    requires k <= |cs|
  {
    if k == 0 then {}
    else
      PeptideContacts(accession, near, pep, cs, table, k - 1)
      + ContactsOf(accession, cs[k - 1], pep, FirstNearby(near, pep, cs, k - 1), table)
  }

  ghost predicate PeptideBroken(near: (ChainId, real) -> set<Residue>, pep: ChainId, cs: seq<real>,
                                table: map<ChainId, ChainRecord>, k: nat)
    requires k <= |cs|
  {
    k > 0 && (PeptideBroken(near, pep, cs, table, k - 1) || Broken(FirstNearby(near, pep, cs, k - 1), table))
  }

  lemma {:induction false} PeptideBrokenGrows(near: (ChainId, real) -> set<Residue>, pep: ChainId, cs: seq<real>,
                                              table: map<ChainId, ChainRecord>, k: nat, m: nat)
    requires k <= m <= |cs|
    requires PeptideBroken(near, pep, cs, table, k)
    ensures PeptideBroken(near, pep, cs, table, m)
    decreases m - k
  {
    if k < m {
      PeptideBrokenGrows(near, pep, cs, table, k, m - 1);
    }
  }

  ghost predicate DistinctResidues(cs: seq<Contact>) {
    forall a, b :: 0 <= a < b < |cs| ==> ResidueOf(cs[a]) != ResidueOf(cs[b])
  }

  /** Every scanned contact was recorded at a cutoff where its residue is
      first nearby, lies on an MHC chain, and passes both integrity checks:
      the code equals the chain's ungapped residue at its index and the
      aligned residue at its aligned column. */
  lemma {:induction false} PeptideContactFacts(accession: string, near: (ChainId, real) -> set<Residue>, pep: ChainId,
                                               cs: seq<real>, table: map<ChainId, ChainRecord>, k: nat, c: Contact)
    requires k <= |cs|
    requires c in PeptideContacts(accession, near, pep, cs, table, k)
    ensures c.accession == accession && c.peptideChain == pep && c.mhcChain in table
    ensures exists i :: 0 <= i < k && c.cutoff == cs[i] && ResidueOf(c) in FirstNearby(near, pep, cs, i)
    ensures c.kind == table[c.mhcChain].kind
    ensures c.unaligned < |Ungapped(table[c.mhcChain].aligned)| && Ungapped(table[c.mhcChain].aligned)[c.unaligned] == c.code
    ensures c.alignedColumn < |table[c.mhcChain].aligned| && table[c.mhcChain].aligned[c.alignedColumn] == c.code
    ensures c.unaligned in PositionToAligned(table[c.mhcChain].aligned)
    ensures c.alignedColumn == PositionToAligned(table[c.mhcChain].aligned)[c.unaligned]
  {
    if c !in PeptideContacts(accession, near, pep, cs, table, k - 1) {
      var x :| x in FirstNearby(near, pep, cs, k - 1) && x.chain in table && Intact(x, table[x.chain])
        && c == ContactFor(accession, cs[k - 1], pep, x, table[x.chain]);
      assert ResidueOf(c) == x;
    } else {
      PeptideContactFacts(accession, near, pep, cs, table, k - 1, c);
    }
    PositionToAlignedShape(table[c.mhcChain].aligned);
  }

  // ---------------------------------------------------------------------
  // The scan

  lemma ContactsOfAdd(accession: string, cutoff: real, pep: ChainId, done: set<Residue>, x: Residue, table: map<ChainId, ChainRecord>)
    ensures ContactsOf(accession, cutoff, pep, done + {x}, table) ==
      ContactsOf(accession, cutoff, pep, done, table)
      + (if x.chain in table && Intact(x, table[x.chain]) then {ContactFor(accession, cutoff, pep, x, table[x.chain])} else {})
  {
  }

  /** `for residue in nearby:` — the residues newly nearby at one cutoff. */
  method RecordResidues(accession: string, cutoff: real, pep: ChainId, newly: set<Residue>,
                        table: map<ChainId, ChainRecord>, maps: map<ChainId, map<nat, nat>>)
    returns (r: Result<seq<Contact>, Failure>)
    requires MapsFor(table, maps)
    ensures r.Err? <==> Broken(newly, table)
    ensures r.Err? ==> r.error.IntegrityViolation?
    ensures r.Ok? ==> forall c :: c in r.value <==> c in ContactsOf(accession, cutoff, pep, newly, table)
    ensures r.Ok? ==> forall c :: c in r.value ==> ResidueOf(c) in newly
    ensures r.Ok? ==> DistinctResidues(r.value)
  {
    var contacts: seq<Contact> := [];
    var remaining := newly;
    while remaining != {}
      invariant remaining <= newly
      invariant RecordedSoFar(accession, cutoff, pep, newly - remaining, contacts, table)
      decreases |remaining|
    {
      var x :| x in remaining;
      assert newly - (remaining - {x}) == (newly - remaining) + {x};
      if x.chain in table {
        var row := table[x.chain];
        var unaligned := Ungapped(row.aligned);
        if x.index >= |unaligned| || x.code != unaligned[x.index] {
          assert !Intact(x, row);
          return Err(IntegrityViolation(accession, x.chain, x.index));
        }
        PositionToAlignedShape(row.aligned);
        var alignedPosition := maps[x.chain][x.index];
        // The second check of the source, against the aligned sequence,
        // always holds once the first one has.
        assert row.aligned[alignedPosition] == x.code;
        var contact := Contact(accession, cutoff, pep, x.chain, row.kind, x.index, alignedPosition, x.code);
        assert contact == ContactFor(accession, cutoff, pep, x, row);
        RecordStep(accession, cutoff, pep, newly - remaining, x, contacts, table);
        contacts := contacts + [contact];
      } else {
        RecordStep(accession, cutoff, pep, newly - remaining, x, contacts, table);
      }
      remaining := remaining - {x};
    }
    assert newly - remaining == newly;
    return Ok(contacts);
  }

  /** The contacts recorded for the residues `done` so far: no integrity
      failure among them, one contact per intact MHC residue. */
  ghost predicate RecordedSoFar(accession: string, cutoff: real, pep: ChainId, done: set<Residue>,
                                contacts: seq<Contact>, table: map<ChainId, ChainRecord>) {
    && !Broken(done, table)
    && (forall c :: c in contacts <==> c in ContactsOf(accession, cutoff, pep, done, table))
    && (forall c :: c in contacts ==> ResidueOf(c) in done)
    && DistinctResidues(contacts)
  }

  lemma RecordStep(accession: string, cutoff: real, pep: ChainId, done: set<Residue>, x: Residue,
                   contacts: seq<Contact>, table: map<ChainId, ChainRecord>)
    requires RecordedSoFar(accession, cutoff, pep, done, contacts, table)
    requires x !in done && (x.chain in table ==> Intact(x, table[x.chain]))
    ensures RecordedSoFar(accession, cutoff, pep, done + {x},
      contacts + (if x.chain in table then [ContactFor(accession, cutoff, pep, x, table[x.chain])] else []), table)
  {
    ContactsOfAdd(accession, cutoff, pep, done, x, table);
  }

  /** The scan of one peptide chain over the sorted cutoffs, with `seen`. */
  method ScanPeptide(accession: string, near: (ChainId, real) -> set<Residue>, pep: ChainId, cs: seq<real>,
                     table: map<ChainId, ChainRecord>, maps: map<ChainId, map<nat, nat>>)
    returns (r: Result<seq<Contact>, Failure>)
    requires MapsFor(table, maps)
    ensures r.Err? <==> PeptideBroken(near, pep, cs, table, |cs|)
    ensures r.Err? ==> r.error.IntegrityViolation?
    ensures r.Ok? ==> forall c :: c in r.value <==> c in PeptideContacts(accession, near, pep, cs, table, |cs|)
    ensures r.Ok? ==> DistinctResidues(r.value)
  {
    var contacts: seq<Contact> := [];
    var seen: set<Residue> := {};
    var i := 0;
    while i < |cs|
      invariant 0 <= i <= |cs|
      invariant seen == SeenBefore(near, pep, cs, i)
      invariant !PeptideBroken(near, pep, cs, table, i)
      invariant forall c :: c in contacts <==> c in PeptideContacts(accession, near, pep, cs, table, i)
      invariant forall c :: c in contacts ==> ResidueOf(c) in seen
      invariant DistinctResidues(contacts)
    {
      var nearby := near(pep, cs[i]) - seen;
      seen := seen + nearby;
      var found := RecordResidues(accession, cs[i], pep, nearby, table, maps);
      if found.Err? {
        PeptideBrokenGrows(near, pep, cs, table, i + 1, |cs|);
        return Err(found.error);
      }
      contacts := contacts + found.value;
      i := i + 1;
    }
    return Ok(contacts);
  }

  ghost function PeptidesContacts(accession: string, near: (ChainId, real) -> set<Residue>, peps: seq<ChainId>,
                                  cs: seq<real>, table: map<ChainId, ChainRecord>): set<Contact>
  {
    if peps == [] then {}
    else PeptideContacts(accession, near, peps[0], cs, table, |cs|) + PeptidesContacts(accession, near, peps[1..], cs, table)
  }

  ghost predicate PeptidesBroken(near: (ChainId, real) -> set<Residue>, peps: seq<ChainId>, cs: seq<real>,
                                 table: map<ChainId, ChainRecord>)
  {
    exists p :: p in peps && PeptideBroken(near, p, cs, table, |cs|)
  }

  /** The contacts of one accession that is not skipped. */
  ghost function AccessionContacts(accession: string, recs: seq<ChainRecord>, s: Structure, cs: seq<real>,
                                   minLength: nat, maxLength: nat): set<Contact>
  {
    PeptidesContacts(accession, s.nearby, Peptides(s, minLength, maxLength), cs, ChainTable(recs))
  }

  ghost predicate AccessionBroken(recs: seq<ChainRecord>, s: Structure, cs: seq<real>, minLength: nat, maxLength: nat) {
    PeptidesBroken(s.nearby, Peptides(s, minLength, maxLength), cs, ChainTable(recs))
  }

  /** The body of the loop over accessions: skip, or scan every peptide chain. */
  method ScanAccession(accession: string, recs: seq<ChainRecord>, s: Structure, cs: seq<real>,
                       minLength: nat, maxLength: nat)
    returns (r: Result<ScanOutcome, Failure>)
    ensures r.Ok? && r.value.Skipped? <==> SkipFor(recs, s, minLength, maxLength).Some?
    ensures r.Ok? && r.value.Skipped? ==> r.value.reason == SkipFor(recs, s, minLength, maxLength).value
    ensures r.Err? <==> SkipFor(recs, s, minLength, maxLength).None? && AccessionBroken(recs, s, cs, minLength, maxLength)
    ensures r.Err? ==> r.error.IntegrityViolation?
    ensures r.Ok? && r.value.Scanned? ==>
      forall c :: c in r.value.contacts <==> c in AccessionContacts(accession, recs, s, cs, minLength, maxLength)
  {
    if CountKind(recs, Alpha) != CountKind(recs, Beta) {
      return Ok(Skipped(ChainCountMismatch));
    }
    var peptides := Peptides(s, minLength, maxLength);
    if peptides == [] {
      return Ok(Skipped(NoPeptides));
    }
    var table := MakeChainTable(recs);
    var maps := MakePositionMaps(table);
    var contacts: seq<Contact> := [];
    var k := 0;
    while k < |peptides|
      invariant 0 <= k <= |peptides|
      invariant !PeptidesBroken(s.nearby, peptides[..k], cs, table)
      invariant forall c :: c in contacts <==> c in PeptidesContacts(accession, s.nearby, peptides[..k], cs, table)
    {
      var found := ScanPeptide(accession, s.nearby, peptides[k], cs, table, maps);
      PeptidesSnoc(accession, s.nearby, peptides, k, cs, table);
      if found.Err? {
        assert peptides[k] in peptides;
        return Err(found.error);
      }
      contacts := contacts + found.value;
      k := k + 1;
    }
    assert peptides[..k] == peptides;
    return Ok(Scanned(contacts));
  }

  lemma {:induction false} PeptidesSnoc(accession: string, near: (ChainId, real) -> set<Residue>, peps: seq<ChainId>, k: nat,
                                        cs: seq<real>, table: map<ChainId, ChainRecord>)
    requires k < |peps|
    ensures PeptidesContacts(accession, near, peps[..k + 1], cs, table)
      == PeptidesContacts(accession, near, peps[..k], cs, table) + PeptideContacts(accession, near, peps[k], cs, table, |cs|)
    ensures PeptidesBroken(near, peps[..k + 1], cs, table)
      <==> PeptidesBroken(near, peps[..k], cs, table) || PeptideBroken(near, peps[k], cs, table, |cs|)
  {
    PeptidesAppend(accession, near, peps[..k], [peps[k]], cs, table);
    assert peps[..k + 1] == peps[..k] + [peps[k]];
  }

  lemma {:induction false} PeptidesAppend(accession: string, near: (ChainId, real) -> set<Residue>, a: seq<ChainId>, b: seq<ChainId>,
                                          cs: seq<real>, table: map<ChainId, ChainRecord>)
    ensures PeptidesContacts(accession, near, a + b, cs, table)
      == PeptidesContacts(accession, near, a, cs, table) + PeptidesContacts(accession, near, b, cs, table)
  {
    if a == [] {
      assert a + b == b;
    } else {
      assert (a + b)[1..] == a[1..] + b;
      PeptidesAppend(accession, near, a[1..], b, cs, table);
    }
  }

  /** Accession `a` is scanned (not skipped) and yields contact `c`. */
  ghost predicate Contributes(recs: seq<ChainRecord>, load: string -> Structure, cs: seq<real>,
                              minLength: nat, maxLength: nat, a: string, c: Contact)
  {
    && SkipFor(RecordsOf(recs, a), load(a), minLength, maxLength).None?
    && c in AccessionContacts(a, RecordsOf(recs, a), load(a), cs, minLength, maxLength)
  }

  /** Accession `a` is scanned and one of its contacts fails the integrity check. */
  ghost predicate Fails(recs: seq<ChainRecord>, load: string -> Structure, cs: seq<real>,
                        minLength: nat, maxLength: nat, a: string)
  {
    && SkipFor(RecordsOf(recs, a), load(a), minLength, maxLength).None?
    && AccessionBroken(RecordsOf(recs, a), load(a), cs, minLength, maxLength)
  }

  ghost predicate SomeFails(recs: seq<ChainRecord>, load: string -> Structure, cs: seq<real>,
                            minLength: nat, maxLength: nat, accessions: seq<string>)
  {
    exists a :: a in accessions && Fails(recs, load, cs, minLength, maxLength, a)
  }

  ghost predicate SomeContributes(recs: seq<ChainRecord>, load: string -> Structure, cs: seq<real>,
                                  minLength: nat, maxLength: nat, accessions: seq<string>, c: Contact)
  {
    exists a :: a in accessions && Contributes(recs, load, cs, minLength, maxLength, a, c)
  }

  lemma SomeFailsAt(recs: seq<ChainRecord>, load: string -> Structure, cs: seq<real>,
                    minLength: nat, maxLength: nat, accessions: seq<string>, k: nat)
    requires k < |accessions| && Fails(recs, load, cs, minLength, maxLength, accessions[k])
    ensures SomeFails(recs, load, cs, minLength, maxLength, accessions)
  {
    assert accessions[k] in accessions;
  }

  lemma SomeSnoc(recs: seq<ChainRecord>, load: string -> Structure, cs: seq<real>,
                 minLength: nat, maxLength: nat, accessions: seq<string>, k: nat)
    requires k < |accessions|
    ensures SomeFails(recs, load, cs, minLength, maxLength, accessions[..k + 1])
      <==> SomeFails(recs, load, cs, minLength, maxLength, accessions[..k]) || Fails(recs, load, cs, minLength, maxLength, accessions[k])
  {
    assert accessions[..k + 1] == accessions[..k] + [accessions[k]];
  }

  lemma SomeContributesSnoc(recs: seq<ChainRecord>, load: string -> Structure, cs: seq<real>,
                            minLength: nat, maxLength: nat, accessions: seq<string>, k: nat, c: Contact)
    requires k < |accessions|
    ensures SomeContributes(recs, load, cs, minLength, maxLength, accessions[..k + 1], c)
      <==> (SomeContributes(recs, load, cs, minLength, maxLength, accessions[..k], c)
            || Contributes(recs, load, cs, minLength, maxLength, accessions[k], c))
  {
    assert accessions[..k + 1] == accessions[..k] + [accessions[k]];
  }

  /** The loop over all accessions (of the PDB records `recs`) that builds
      `contacts_df`; `load` stands
      for opening an accession's structure file. Skipped accessions contribute
      nothing; an integrity failure anywhere aborts the run. */
  method ScanAll(recs: seq<ChainRecord>, load: string -> Structure, cutoffs: seq<real>,
                 minLength: nat, maxLength: nat)
    returns (r: Result<seq<Contact>, Failure>)
    ensures r.Err? <==> SomeFails(recs, load, SortedCutoffs(cutoffs), minLength, maxLength, Accessions(recs))
    ensures r.Err? ==> r.error.IntegrityViolation?
    ensures r.Ok? ==> forall c :: c in r.value <==>
      SomeContributes(recs, load, SortedCutoffs(cutoffs), minLength, maxLength, Accessions(recs), c)
  {
    var cs := SortedCutoffs(cutoffs);
    var accessions := Accessions(recs);
    var contacts: seq<Contact> := [];
    var k := 0;
    while k < |accessions|
      invariant 0 <= k <= |accessions|
      invariant !SomeFails(recs, load, cs, minLength, maxLength, accessions[..k])
      invariant forall c :: c in contacts <==> SomeContributes(recs, load, cs, minLength, maxLength, accessions[..k], c)
    {
      var a := accessions[k];
      var outcome := ScanAccession(a, RecordsOf(recs, a), load(a), cs, minLength, maxLength);
      if outcome.Err? {
        SomeFailsAt(recs, load, cs, minLength, maxLength, accessions, k);
        return Err(outcome.error);
      }
      var added := if outcome.value.Scanned? then outcome.value.contacts else [];
      SomeSnoc(recs, load, cs, minLength, maxLength, accessions, k);
      forall c ensures c in contacts + added <==> SomeContributes(recs, load, cs, minLength, maxLength, accessions[..k + 1], c) {
        SomeContributesSnoc(recs, load, cs, minLength, maxLength, accessions, k, c);
      }
      contacts := contacts + added;
      k := k + 1;
    }
    assert accessions[..k] == accessions;
    return Ok(contacts);
  }

  /** `sorted(args.cutoffs)` */
  function SortedCutoffs(cutoffs: seq<real>): (cs: seq<real>)
    ensures Ascending(cs) && multiset(cs) == multiset(cutoffs)
  {
    var le := (a: real, b: real) => a <= b;
    SortBySorted(cutoffs, le);
    SortBy(cutoffs, le)
  }
}
