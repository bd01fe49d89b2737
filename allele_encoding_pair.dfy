/** mhcflurryii/allele_encoding_pair.py: a pair of allele encodings, one for
    the alpha chains and one for the beta chains, built from and read back as
    a list of (alpha, beta) allele pairs. */
module AlleleEncodingPairs {
  import opened Wrappers

  /** The parts of an allele encoding this class relies on: the allele list it
      was built from and the encoding it borrows its allele vocabulary from.
      `AlleleEncoding` itself is not part of this model; building one from a
      list is taken to keep that list as its `alleles`. */
  datatype AlleleEncoding = AlleleEncoding(alleles: seq<string>, borrowFrom: Option<AlleleEncoding>)

  /** `AlleleEncodingPair(alpha, beta)`: the constructor stores both
      encodings as given. */
  datatype AlleleEncodingPair = AlleleEncodingPair(alpha: AlleleEncoding, beta: AlleleEncoding)

  function Min(a: int, b: int): int {
    if a <= b then a else b
  }

  /** Python's `zip` of two lists, stopping at the shorter one. */
  function Zip(a: seq<string>, b: seq<string>): (z: seq<(string, string)>)
    ensures |z| == Min(|a|, |b|)
    ensures forall i :: 0 <= i < |z| ==> z[i] == (a[i], b[i])
  {
    if a == [] || b == [] then []
    else [(a[0], b[0])] + Zip(a[1..], b[1..])
  }

  function Firsts(pairs: seq<(string, string)>): seq<string> {
    seq(|pairs|, i requires 0 <= i < |pairs| => pairs[i].0)
  }

  function Seconds(pairs: seq<(string, string)>): seq<string> {
    seq(|pairs|, i requires 0 <= i < |pairs| => pairs[i].1)
  }

  /** `from_pairs`: the alpha encoding lists the first components, the beta
      encoding the second components, both in input order; each borrows from
      the matching encoding of `self`. */
  function FromPairs(self: AlleleEncodingPair, pairs: seq<(string, string)>): (r: AlleleEncodingPair)
    ensures |r.alpha.alleles| == |pairs| && |r.beta.alleles| == |pairs|
    ensures forall i :: 0 <= i < |pairs| ==> r.alpha.alleles[i] == pairs[i].0 && r.beta.alleles[i] == pairs[i].1
    ensures r.alpha.borrowFrom == Some(self.alpha) && r.beta.borrowFrom == Some(self.beta)
  {
    AlleleEncodingPair(
      AlleleEncoding(Firsts(pairs), Some(self.alpha)),
      AlleleEncoding(Seconds(pairs), Some(self.beta)))
  }

  /** The `allele_encodings` property: alpha first, then beta. */
  function AlleleEncodings(self: AlleleEncodingPair): (named: seq<(string, AlleleEncoding)>)
    ensures |named| == 2
    ensures named[0] == ("alpha", self.alpha) && named[1] == ("beta", self.beta)
  {
    [("alpha", self.alpha), ("beta", self.beta)]
  }

  /** The `allele_pairs` property: the two allele lists zipped position by
      position. */
  function AllelePairs(self: AlleleEncodingPair): (pairs: seq<(string, string)>)
    ensures |pairs| == Min(|self.alpha.alleles|, |self.beta.alleles|)
    ensures forall i :: 0 <= i < |pairs| ==> pairs[i] == (self.alpha.alleles[i], self.beta.alleles[i])
  {
    Zip(self.alpha.alleles, self.beta.alleles)
  }

  // ---------------------------------------------------------------------
  // Properties

  /** Reading the pairs back from `from_pairs(pairs)` gives `pairs`. */
  lemma PairsRoundTrip(self: AlleleEncodingPair, pairs: seq<(string, string)>)
    ensures AllelePairs(FromPairs(self, pairs)) == pairs
  {
    var r := FromPairs(self, pairs);
    assert |AllelePairs(r)| == |pairs|;
    forall i | 0 <= i < |pairs| ensures AllelePairs(r)[i] == pairs[i] {
    }
  }

  /** Seen through `allele_encodings`, `from_pairs(pairs)` names its alpha
      encoding first and its beta encoding second; each borrows from the
      encoding `self` lists under the same name, and zipping the two listed
      allele lists gives `pairs` back. */
  lemma {:induction false} EncodingsOfFromPairs(self: AlleleEncodingPair, pairs: seq<(string, string)>)
    ensures var named := AlleleEncodings(FromPairs(self, pairs));
      && named[0].0 == "alpha" && named[1].0 == "beta"
      && (forall i :: 0 <= i < 2 ==> named[i].1.borrowFrom == Some(AlleleEncodings(self)[i].1))
      && Zip(named[0].1.alleles, named[1].1.alleles) == pairs
  {
    var r := FromPairs(self, pairs);
    var named := AlleleEncodings(r);
    assert named[0].1 == r.alpha && named[1].1 == r.beta;
    PairsRoundTrip(self, pairs);
  }

  /** Building from the pairs of an encoding pair gives back both allele
      lists, each cut to the length of the shorter one. */
  lemma EncodingsRoundTrip(self: AlleleEncodingPair, other: AlleleEncodingPair)
    ensures var n := Min(|other.alpha.alleles|, |other.beta.alleles|);
      && FromPairs(self, AllelePairs(other)).alpha.alleles == other.alpha.alleles[..n]
      && FromPairs(self, AllelePairs(other)).beta.alleles == other.beta.alleles[..n]
  {
  }
}
