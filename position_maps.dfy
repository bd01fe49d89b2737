/** Index maps between ungapped residue positions and gapped alignment
    columns of one aligned sequence (make_pseudosequences.py). A column
    holding `-` is a gap; every other column holds a residue. */
module PositionMaps {

  const Gap: char := '-'

  /** `aligned.replace("-", "")`: the residues of an aligned sequence. */
  function Ungapped(s: string): (u: string)
    ensures |u| <= |s| && Gap !in u
    decreases |s|
  {
    if s == [] then []
    else Ungapped(s[..|s| - 1]) + (if s[|s| - 1] != Gap then [s[|s| - 1]] else [])
  }

  /** The map built by `make_position_to_aligned_position_dict`, written as
      the loop builds it: one entry per residue column, keyed by the number of
      residues before it. */
  function PositionToAligned(s: string): map<nat, nat>
    decreases |s|
  {
    if s == [] then map[]
    else
      var init := s[..|s| - 1];
      if s[|s| - 1] != Gap then PositionToAligned(init)[|Ungapped(init)| := |s| - 1]
      else PositionToAligned(init)
  }

  /** The map built by `make_aligned_position_to_position_dict`. */
  function AlignedToPosition(s: string): map<nat, nat>
    decreases |s|
  {
    if s == [] then map[]
    else
      var init := s[..|s| - 1];
      if s[|s| - 1] != Gap then AlignedToPosition(init)[|s| - 1 := |Ungapped(init)|]
      else AlignedToPosition(init)
  }

  /** Keys are exactly the residue indices 0 .. k-1. */
  ghost predicate KeysAreResidueIndices(m: map<nat, nat>, s: string) {
    forall p: nat :: p in m <==> p < |Ungapped(s)|
  }

  /** Every value is a residue column, and the residue there is the p-th residue. */
  ghost predicate PointsAtResidues(m: map<nat, nat>, s: string) {
    forall p :: p in m ==> p < |Ungapped(s)| && m[p] < |s| && s[m[p]] != Gap && s[m[p]] == Ungapped(s)[p]
  }

  ghost predicate StrictlyIncreasing(m: map<nat, nat>) {
    forall p, q :: p in m && q in m && p < q ==> m[p] < m[q]
  }

  /** The forward map has keys 0 .. k-1 (k residues), points at the residue
      columns in order, and its values increase strictly. */
  lemma {:induction false} PositionToAlignedShape(s: string)
    ensures KeysAreResidueIndices(PositionToAligned(s), s)
    ensures PointsAtResidues(PositionToAligned(s), s)
    ensures StrictlyIncreasing(PositionToAligned(s))
    ensures forall p :: p in PositionToAligned(s) ==> PositionToAligned(s)[p] < |s|
    decreases |s|
  {
    if s != [] {
      var init := s[..|s| - 1];
      PositionToAlignedShape(init);
      var m0, m := PositionToAligned(init), PositionToAligned(s);
      assert forall v :: 0 <= v < |init| ==> s[v] == init[v];
      if s[|s| - 1] != Gap {
        assert Ungapped(s) == Ungapped(init) + [s[|s| - 1]];
        assert forall p :: p in m0 ==> m0[p] < |s| - 1;
      } else {
        assert Ungapped(s) == Ungapped(init);
      }
    }
  }

  /** The inverse map has a key for each residue column and none for gaps, and
      sends a column to the number of residues before it. */
  lemma {:induction false} AlignedToPositionShape(s: string)
    ensures forall i: nat :: i in AlignedToPosition(s) <==> i < |s| && s[i] != Gap
    ensures forall i :: i in AlignedToPosition(s) ==> AlignedToPosition(s)[i] == |Ungapped(s[..i])|
    decreases |s|
  {
    if s != [] {
      var init := s[..|s| - 1];
      var n := |s| - 1;
      AlignedToPositionShape(init);
      var m0, m := AlignedToPosition(init), AlignedToPosition(s);
      forall i: nat ensures i in m <==> i < |s| && s[i] != Gap {
        if i < n {
          assert s[i] == init[i];
        }
      }
      forall i | i in m ensures m[i] == |Ungapped(s[..i])| {
        if i < n {
          assert s[..i] == init[..i];
        } else {
          assert s[..i] == init;
        }
      }
    }
  }

  lemma {:induction false} InverseOfForward(s: string)
    ensures forall p :: p in PositionToAligned(s) ==>
      PositionToAligned(s)[p] in AlignedToPosition(s) && AlignedToPosition(s)[PositionToAligned(s)[p]] == p
    decreases |s|
  {
    if s != [] {
      var init := s[..|s| - 1];
      InverseOfForward(init);
      PositionToAlignedShape(init);
      var f0, i0 := PositionToAligned(init), AlignedToPosition(init);
      var f, inv := PositionToAligned(s), AlignedToPosition(s);
      var n, k := |s| - 1, |Ungapped(init)|;
      forall p | p in f ensures f[p] in inv && inv[f[p]] == p {
        if s[n] != Gap && p == k {
          assert f[p] == n && inv[n] == k;
        } else {
          assert p in f0 && f[p] == f0[p] && f0[p] < n;
        }
      }
    }
  }

  lemma {:induction false} ForwardOfInverse(s: string)
    ensures forall i :: i in AlignedToPosition(s) ==>
      AlignedToPosition(s)[i] in PositionToAligned(s) && PositionToAligned(s)[AlignedToPosition(s)[i]] == i
    decreases |s|
  {
    if s != [] {
      var init := s[..|s| - 1];
      ForwardOfInverse(init);
      AlignedToPositionShape(init);
      PositionToAlignedShape(init);
      var f0, i0 := PositionToAligned(init), AlignedToPosition(init);
      var f, inv := PositionToAligned(s), AlignedToPosition(s);
      var n, k := |s| - 1, |Ungapped(init)|;
      forall i | i in inv ensures inv[i] in f && f[inv[i]] == i {
        if s[n] != Gap && i == n {
          assert inv[i] == k && f[k] == n;
        } else {
          assert i in i0 && inv[i] == i0[i] && i0[i] < k;
        }
      }
    }
  }

  /** The two maps are inverse to each other: `inverse(forward(p)) == p` for
      every residue index p and `forward(inverse(i)) == i` for every residue
      column i. */
  lemma MapsAreInverse(s: string)
    ensures forall p :: p in PositionToAligned(s) ==>
      PositionToAligned(s)[p] in AlignedToPosition(s) && AlignedToPosition(s)[PositionToAligned(s)[p]] == p
    ensures forall i :: i in AlignedToPosition(s) ==>
      AlignedToPosition(s)[i] in PositionToAligned(s) && PositionToAligned(s)[AlignedToPosition(s)[i]] == i
  {
    InverseOfForward(s);
    ForwardOfInverse(s);
  }

  /** `make_position_to_aligned_position_dict`: the loop with its running
      residue counter. */
  method MakePositionToAlignedPositionDict(aligned: string) returns (result: map<nat, nat>)
    ensures result == PositionToAligned(aligned)
    ensures KeysAreResidueIndices(result, aligned)
    ensures PointsAtResidues(result, aligned)
    ensures StrictlyIncreasing(result)
  {
    result := map[];
    var position := 0;
    var i := 0;
    while i < |aligned|
      invariant 0 <= i <= |aligned|
      invariant position == |Ungapped(aligned[..i])|
      invariant result == PositionToAligned(aligned[..i])
    {
      assert aligned[..i + 1][..i] == aligned[..i];
      if aligned[i] != Gap {
        result := result[position := i];
        position := position + 1;
      }
      i := i + 1;
    }
    assert aligned[..i] == aligned;
    PositionToAlignedShape(aligned);
  }

  /** `make_aligned_position_to_position_dict` */
  method MakeAlignedPositionToPositionDict(aligned: string) returns (result: map<nat, nat>)
    ensures result == AlignedToPosition(aligned)
    ensures forall i: nat :: i in result <==> i < |aligned| && aligned[i] != Gap
    ensures forall i :: i in result ==> result[i] == |Ungapped(aligned[..i])|
  {
    result := map[];
    var position := 0;
    var i := 0;
    while i < |aligned|
      invariant 0 <= i <= |aligned|
      invariant position == |Ungapped(aligned[..i])|
      invariant result == AlignedToPosition(aligned[..i])
    {
      assert aligned[..i + 1][..i] == aligned[..i];
      if aligned[i] != Gap {
        result := result[i := position];
        position := position + 1;
      }
      i := i + 1;
    }
    assert aligned[..i] == aligned;
    AlignedToPositionShape(aligned);
  }
}
