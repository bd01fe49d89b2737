/** The amino-acid alphabet of the curation scripts and Python's reading of
    the pattern `^[...]+$` under `str.match`. */
module AminoAcids {

  /** The 20 standard one-letter codes, in sorted order. */
  const CommonAminoAcids: string := "ACDEFGHIKLMNPQRSTVWY"

  predicate IsAminoAcid(c: char) {
    c in CommonAminoAcids
  }

  predicate AllAminoAcids(s: string) {
    forall i :: 0 <= i < |s| ==> IsAminoAcid(s[i])
  }

  /** `re.match("^[" + alphabet + "]+$", s)`: one or more letters of the
      alphabet, and Python's `$` matches at the very end and also just before
      a newline that ends the text. */
  predicate MatchesPattern(s: string)
    ensures MatchesPattern(s) <==>
      && s != []
      && (forall i :: 0 <= i < |s| - 1 ==> IsAminoAcid(s[i]))
      && (IsAminoAcid(s[|s| - 1]) || (|s| >= 2 && s[|s| - 1] == '\n'))
  {
    || (s != [] && AllAminoAcids(s))
    || (|s| >= 2 && s[|s| - 1] == '\n' && AllAminoAcids(s[..|s| - 1]))
  }

  /** On a text that does not end in a newline the pattern is a plain full
      match: non-empty and amino acids only. */
  lemma MatchWithoutTrailingNewline(s: string)
    requires s == [] || s[|s| - 1] != '\n'
    ensures MatchesPattern(s) <==> s != [] && AllAminoAcids(s)
  {
  }

  /** An amino-acid text holds no newline. */
  lemma AminoAcidsHaveNoNewline(s: string)
    requires AllAminoAcids(s)
    ensures '\n' !in s
  {
    forall i | 0 <= i < |s| ensures s[i] != '\n' {
      assert IsAminoAcid(s[i]);
    }
  }
}
