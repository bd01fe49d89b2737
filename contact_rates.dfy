/** Cumulative per-cutoff contact rates of make_pseudosequences.py: per MHC
    chain kind and aligned column, the number of distinct accessions with a
    contact there at each sorted cutoff, summed up to the cutoff and divided by
    the number of accessions that have any contact. */
module ContactRates {
  import opened ContactScan
  import opened Alignments

  /** `contacts_df.accession.nunique()` */
  function NumAccessions(contacts: seq<Contact>): (n: nat)
    ensures n == 0 <==> contacts == []
  {
    var accs := set c | c in contacts :: c.accession;
    assert contacts != [] ==> contacts[0].accession in accs;
    |accs|
  }

  predicate At(c: Contact, kind: Kind, column: nat, cutoff: real) {
    c.kind == kind && c.alignedColumn == column && c.cutoff == cutoff
  }

  /** The accessions with a contact at (kind, column, cutoff): one cell of the
      `groupby(...).accession.nunique()` table. */
  function AccessionsAt(contacts: seq<Contact>, kind: Kind, column: nat, cutoff: real): (accs: set<string>)
    ensures forall a :: a in accs <==> (exists c :: c in contacts && At(c, kind, column, cutoff) && c.accession == a)
  {
    set c | c in contacts && At(c, kind, column, cutoff) :: c.accession
  }

  /** The `reindex(sorted(cutoffs)).fillna(0.0).cumsum(1)` value at sorted
      position `k`: the counts at positions 0..k summed. */
  function CumulativeCount(contacts: seq<Contact>, kind: Kind, column: nat, cs: seq<real>, k: nat): (n: nat)
    requires k < |cs|
    ensures n >= |AccessionsAt(contacts, kind, column, cs[k])|
    ensures n == 0 <==> forall j :: 0 <= j <= k ==> AccessionsAt(contacts, kind, column, cs[j]) == {}
  {
    |AccessionsAt(contacts, kind, column, cs[k])| + (if k == 0 then 0 else CumulativeCount(contacts, kind, column, cs, k - 1))
  }

  /** The contact rate at sorted cutoff position `k`; a column without any
      contact row gets 0 from the `fillna(0)` of the merge, as it does when no
      accession has a contact at all. */
  function Rate(contacts: seq<Contact>, kind: Kind, column: nat, cs: seq<real>, k: nat): (rate: real)
    requires k < |cs|
    ensures rate >= 0.0
    ensures NumAccessions(contacts) == 0 ==> rate == 0.0
    ensures rate * NumAccessions(contacts) as real == CumulativeCount(contacts, kind, column, cs, k) as real
  {
    var n := NumAccessions(contacts);
    if n == 0 then 0.0 else CumulativeCount(contacts, kind, column, cs, k) as real / n as real
  }

  lemma {:induction false} CumulativeGrows(contacts: seq<Contact>, kind: Kind, column: nat, cs: seq<real>, k: nat, m: nat)
    requires k <= m < |cs|
    ensures CumulativeCount(contacts, kind, column, cs, k) <= CumulativeCount(contacts, kind, column, cs, m)
    decreases m - k
  {
    if k < m {
      CumulativeGrows(contacts, kind, column, cs, k, m - 1);
    }
  }

  lemma DivideMonotone(a: nat, b: nat, n: nat)
    requires a <= b && n > 0
    ensures a as real / n as real <= b as real / n as real
  {
    var q, r := a as real / n as real, b as real / n as real;
    assert q * (n as real) == a as real && r * (n as real) == b as real;
    assert q > r ==> q * (n as real) > r * (n as real);
  }

  /** Rates are non-decreasing along the sorted cutoffs. */
  lemma RateMonotone(contacts: seq<Contact>, kind: Kind, column: nat, cs: seq<real>, k: nat, m: nat)
    requires k <= m < |cs|
    ensures Rate(contacts, kind, column, cs, k) <= Rate(contacts, kind, column, cs, m)
  {
    if NumAccessions(contacts) > 0 {
      CumulativeGrows(contacts, kind, column, cs, k, m);
      DivideMonotone(CumulativeCount(contacts, kind, column, cs, k), CumulativeCount(contacts, kind, column, cs, m), NumAccessions(contacts));
    }
  }

  lemma {:induction false} CumulativeZero(contacts: seq<Contact>, kind: Kind, column: nat, cs: seq<real>, k: nat)
    requires k < |cs|
    ensures CumulativeCount(contacts, kind, column, cs, k) == 0 <==>
      forall c, j :: c in contacts && 0 <= j <= k ==> !At(c, kind, column, cs[j])
  {
    if k > 0 {
      CumulativeZero(contacts, kind, column, cs, k - 1);
    }
    assert forall c :: c in contacts && At(c, kind, column, cs[k]) ==> c.accession in AccessionsAt(contacts, kind, column, cs[k]);
  }

  /** The rate at sorted position `k` is 0 exactly when the column has no
      contact of that kind at any of the first k+1 cutoffs. */
  lemma RateZeroIffNoContacts(contacts: seq<Contact>, kind: Kind, column: nat, cs: seq<real>, k: nat)
    requires k < |cs|
    ensures Rate(contacts, kind, column, cs, k) == 0.0 <==>
      forall c, j :: c in contacts && 0 <= j <= k ==> !At(c, kind, column, cs[j])
  {
    CumulativeZero(contacts, kind, column, cs, k);
    var n := NumAccessions(contacts);
    var cum := CumulativeCount(contacts, kind, column, cs, k);
    if n > 0 && cum > 0 {
      var q := cum as real / n as real;
      assert q * (n as real) == cum as real;
    }
    if n == 0 {
      assert contacts == [];
    }
  }

  /** Each count is at most the number of accessions with contacts, so the
      rate at sorted position k is at most k+1. */
  lemma {:induction false} RateAtMostPositions(contacts: seq<Contact>, kind: Kind, column: nat, cs: seq<real>, k: nat)
    requires k < |cs|
    ensures Rate(contacts, kind, column, cs, k) <= (k + 1) as real
  {
    var n := NumAccessions(contacts);
    if n > 0 {
      CumulativeAtMost(contacts, kind, column, cs, k);
      var cum := CumulativeCount(contacts, kind, column, cs, k);
      DivideMonotone(cum, (k + 1) * n, n);
      DivideProduct(k + 1, n);
    }
  }

  lemma DivideProduct(m: nat, n: nat)
    requires n > 0
    ensures (m * n) as real / n as real == m as real
  {
    assert (m * n) as real == m as real * n as real;
  }

  lemma {:induction false} CumulativeAtMost(contacts: seq<Contact>, kind: Kind, column: nat, cs: seq<real>, k: nat)
    requires k < |cs|
    ensures CumulativeCount(contacts, kind, column, cs, k) <= (k + 1) * NumAccessions(contacts)
  {
    var n := NumAccessions(contacts);
    var all := set c | c in contacts :: c.accession;
    var here := AccessionsAt(contacts, kind, column, cs[k]);
    assert here <= all;
    SubsetSize(here, all);
    var prev := if k == 0 then 0 else CumulativeCount(contacts, kind, column, cs, k - 1);
    if k > 0 {
      CumulativeAtMost(contacts, kind, column, cs, k - 1);
    }
    assert prev <= k * n;
    assert CumulativeCount(contacts, kind, column, cs, k) == |here| + prev;
    assert k * n + n == (k + 1) * n;
  }

  lemma SubsetSize(a: set<string>, b: set<string>)
    requires a <= b
    ensures |a| <= |b|
  {
    assert b == a + (b - a);
  }

  /** One accession whose peptide chain touches column 3 of the alpha chain at
      2 Å and whose second peptide chain (scanned with its own `seen`) touches
      it first at 4 Å: the rate at 4 Å is 2, above 1. */
  lemma RateCanExceedOne()
    ensures Rate([Contact("1abc", 2.0, "C", "A", Alpha, 3, 3, 'Y'), Contact("1abc", 4.0, "D", "A", Alpha, 3, 3, 'Y')],
                 Alpha, 3, [2.0, 4.0], 1) == 2.0
  {
    var c1, c2 := Contact("1abc", 2.0, "C", "A", Alpha, 3, 3, 'Y'), Contact("1abc", 4.0, "D", "A", Alpha, 3, 3, 'Y');
    var contacts := [c1, c2];
    assert (set c | c in contacts :: c.accession) == {"1abc"};
    assert AccessionsAt(contacts, Alpha, 3, 2.0) == {"1abc"};
    assert AccessionsAt(contacts, Alpha, 3, 4.0) == {"1abc"};
  }

  /** The rates read the contacts table only through which rows it holds:
      two tables with the same rows, in any order and with any repetition,
      give the same rate everywhere. */
  lemma {:induction false} RateSameRows(c1: seq<Contact>, c2: seq<Contact>, kind: Kind, column: nat, cs: seq<real>, k: nat)
    requires forall c :: c in c1 <==> c in c2
    requires k < |cs|
    ensures Rate(c1, kind, column, cs, k) == Rate(c2, kind, column, cs, k)
  {
    assert (set c | c in c1 :: c.accession) == (set c | c in c2 :: c.accession);
    CumulativeSameRows(c1, c2, kind, column, cs, k);
  }

  lemma {:induction false} CumulativeSameRows(c1: seq<Contact>, c2: seq<Contact>, kind: Kind, column: nat, cs: seq<real>, k: nat)
    requires forall c :: c in c1 <==> c in c2
    requires k < |cs|
    ensures CumulativeCount(c1, kind, column, cs, k) == CumulativeCount(c2, kind, column, cs, k)
  {
    assert AccessionsAt(c1, kind, column, cs[k]) == AccessionsAt(c2, kind, column, cs[k]);
    if k > 0 {
      CumulativeSameRows(c1, c2, kind, column, cs, k - 1);
    }
  }
}
