/** The few Python `str` operations the curation scripts rely on, with Python's
    semantics: `split()` with and without a separator, `strip()`, `replace`,
    `upper()`, `in`, `startswith` and the code-point order used by `sorted`. */
module Strings {

  /** Python's `str.isspace`: the ASCII and Latin-1 white space and the
      Unicode space separators and line and paragraph separators. */
  predicate IsSpace(c: char) {
    c == ' ' || c == '\t' || c == '\n' || c == '\r' || c == '\U{B}' || c == '\U{C}'
    || ('\U{1C}' <= c <= '\U{1F}') || c == '\U{85}' || c == '\U{A0}' || c == '\U{1680}'
    || ('\U{2000}' <= c <= '\U{200A}') || c == '\U{2028}' || c == '\U{2029}' || c == '\U{202F}'
    || c == '\U{205F}' || c == '\U{3000}'
  }

  predicate NoSpace(s: string) {
    forall i :: 0 <= i < |s| ==> !IsSpace(s[i])
  }

  /** `s.lstrip()` */
  function TrimStart(s: string): (t: string)
    ensures |t| <= |s|
    ensures t == [] || !IsSpace(t[0])
    ensures forall i :: 0 <= i < |s| - |t| ==> IsSpace(s[i])
  {
    if s != [] && IsSpace(s[0]) then TrimStart(s[1..]) else s
  }

  /** `s.rstrip()` */
  function TrimEnd(s: string): (t: string)
    ensures |t| <= |s| && t == s[..|t|]
    ensures t == [] || !IsSpace(t[|t| - 1])
    ensures forall i :: |t| <= i < |s| ==> IsSpace(s[i])
  {
    if s != [] && IsSpace(s[|s| - 1]) then TrimEnd(s[..|s| - 1]) else s
  }

  /** `s.strip()` */
  function Strip(s: string): (t: string)
    ensures t == [] || (!IsSpace(t[0]) && !IsSpace(t[|t| - 1]))
  {
    TrimEnd(TrimStart(s))
  }

  /** The longest prefix of `s` that holds no whitespace. */
  function Word(s: string): (w: string)
    ensures w <= s && NoSpace(w)
    ensures |w| < |s| ==> IsSpace(s[|w|])
  {
    if s == [] || IsSpace(s[0]) then [] else [s[0]] + Word(s[1..])
  }

  /** `s.split()`: the maximal runs of non-whitespace characters, in order. */
  function SplitWhitespace(s: string): (words: seq<string>)
    ensures forall w :: w in words ==> w != [] && NoSpace(w)
    decreases |s|
  {
    var t := TrimStart(s);
    if t == [] then [] else
    var w := Word(t);
    [w] + SplitWhitespace(t[|w|..])
  }

  /** `sep.join(parts)` */
  function JoinWith(parts: seq<string>, sep: string): string {
    if parts == [] then []
    else if |parts| == 1 then parts[0]
    else parts[0] + sep + JoinWith(parts[1..], sep)
  }

  lemma {:induction false} WordOfSpaceFree(w: string, rest: string)
    requires NoSpace(w)
    requires rest == [] || IsSpace(rest[0])
    ensures Word(w + rest) == w
  {
    if w != [] {
      assert (w + rest)[1..] == w[1..] + rest;
      WordOfSpaceFree(w[1..], rest);
    }
  }

  lemma SplitAfterSpace(rest: string)
    ensures SplitWhitespace(" " + rest) == SplitWhitespace(rest)
  {
    assert (" " + rest)[1..] == rest;
  }

  lemma SplitAfterWord(w: string, rest: string)
    requires w != [] && NoSpace(w)
    ensures SplitWhitespace(w + (" " + rest)) == [w] + SplitWhitespace(rest)
  {
    var s := w + (" " + rest);
    assert !IsSpace(s[0]);
    assert TrimStart(s) == s;
    WordOfSpaceFree(w, " " + rest);
    assert s[|w|..] == " " + rest;
    SplitAfterSpace(rest);
  }

  lemma SplitSingleWord(w: string)
    requires w != [] && NoSpace(w)
    ensures SplitWhitespace(w) == [w]
  {
    assert !IsSpace(w[0]);
    assert TrimStart(w) == w;
    WordOfSpaceFree(w, []);
    assert w + [] == w;
    assert w[|w|..] == [];
  }

  /** Joining whitespace-free, non-empty words with single spaces and splitting
      the result on whitespace gives the words back. */
  lemma {:induction false} SplitJoinedWords(words: seq<string>)
    requires forall w :: w in words ==> w != [] && NoSpace(w)
    ensures SplitWhitespace(JoinWith(words, " ")) == words
  {
    if |words| == 1 {
      assert words[0] in words;
      SplitSingleWord(words[0]);
    } else if |words| > 1 {
      var w, rest := words[0], JoinWith(words[1..], " ");
      assert JoinWith(words, " ") == w + (" " + rest);
      assert w in words;
      SplitAfterWord(w, rest);
      assert forall u :: u in words[1..] ==> u in words;
      SplitJoinedWords(words[1..]);
      assert words == [w] + words[1..];
    }
  }

  /** The index of the first `c` in `s`, or `|s|` when there is none. */
  function IndexOf(s: string, c: char): (k: nat)
    ensures k <= |s| && c !in s[..k]
    ensures k < |s| ==> s[k] == c
  {
    if s == [] || s[0] == c then 0 else 1 + IndexOf(s[1..], c)
  }

  /** `s.split(sep)` for a one-character separator: never empty, and empty
      pieces are kept. */
  function SplitOn(s: string, sep: char): (parts: seq<string>)
    ensures |parts| >= 1
    ensures forall p :: p in parts ==> sep !in p
    decreases |s|
  {
    var k := IndexOf(s, sep);
    if k == |s| then [s] else [s[..k]] + SplitOn(s[k + 1..], sep)
  }

  lemma {:induction false} IndexOfAfter(a: string, rest: string, c: char)
    requires c !in a
    ensures IndexOf(a + rest, c) == |a| + IndexOf(rest, c)
  {
    if a != [] {
      assert a[0] in a;
      IndexOfAfter(a[1..], rest, c);
      assert (a + rest)[1..] == a[1..] + rest;
      assert (a + rest)[0] == a[0] != c;
    } else {
      assert a + rest == rest;
    }
  }

  /** A piece free of the separator, followed by the separator, splits off
      as the first part. */
  lemma SplitOnPiece(a: string, b: string, sep: char)
    requires sep !in a
    ensures SplitOn(a + [sep] + b, sep) == [a] + SplitOn(b, sep)
  {
    var s := a + [sep] + b;
    IndexOfAfter(a, [sep] + b, sep);
    assert a + ([sep] + b) == s;
    assert s[..|a|] == a && s[|a| + 1..] == b;
  }

  /** Splitting on a separator and joining with it again gives the text back. */
  lemma {:induction false} JoinSplitOn(s: string, sep: char)
    ensures JoinWith(SplitOn(s, sep), [sep]) == s
    decreases |s|
  {
    var k := IndexOf(s, sep);
    if k < |s| {
      JoinSplitOn(s[k + 1..], sep);
      assert s == s[..k] + [sep] + s[k + 1..];
    }
  }

  /** `s.split(sep)[0]`: the text before the first separator. */
  function BeforeFirst(s: string, sep: char): (r: string)
    ensures r <= s && sep !in r
    ensures |r| < |s| ==> s[|r|] == sep
  {
    SplitOn(s, sep)[0]
  }

  /** `s.split(sep)[-1]`: the text after the last separator. */
  function AfterLast(s: string, sep: char): (r: string)
    ensures |r| <= |s| && r == s[|s| - |r|..] && sep !in r
    ensures |r| < |s| ==> s[|s| - |r| - 1] == sep
    decreases |s|
  {
    var k := IndexOf(s, sep);
    if k == |s| then s else AfterLast(s[k + 1..], sep)
  }

  /** `strip()` only removes characters: whatever remains was in `s`. */
  lemma {:induction false} StripWithin(s: string)
    ensures forall x :: x in Strip(s) ==> x in s
  {
    TrimStartWithin(s);
    var t := TrimStart(s);
    forall x | x in Strip(s) ensures x in s {
      var i :| 0 <= i < |Strip(s)| && Strip(s)[i] == x;
      assert t[i] == x;
    }
  }

  lemma {:induction false} TrimStartWithin(s: string)
    ensures forall x :: x in TrimStart(s) ==> x in s
  {
    if s != [] && IsSpace(s[0]) {
      TrimStartWithin(s[1..]);
      forall x | x in TrimStart(s) ensures x in s {
        assert x in s[1..];
      }
    }
  }

  /** Python's `p in s` for strings: `p` occurs at some offset of `s`. */
  predicate Contains(s: string, p: string)
    decreases |s|
  {
    p <= s || (s != [] && Contains(s[1..], p))
  }

  /** `s.replace(pat, rep)`: left to right, non-overlapping. */
  function ReplaceAll(s: string, pat: string, rep: string): (r: string)
    requires pat != []
    ensures !Contains(s, pat) ==> r == s
    decreases |s|
  {
    if |s| < |pat| then s
    else if pat <= s then
      rep + ReplaceAll(s[|pat|..], pat, rep)
    else
      [s[0]] + ReplaceAll(s[1..], pat, rep)
  }

  /** `s.replace(a, b)` for single characters. */
  function ReplaceChar(s: string, a: char, b: char): (r: string)
    ensures |r| == |s|
    ensures forall i :: 0 <= i < |s| ==> r[i] == (if s[i] == a then b else s[i])
  {
    seq(|s|, i requires 0 <= i < |s| => if s[i] == a then b else s[i])
  }

  /** `s.replace(c, "")` */
  function RemoveChar(s: string, c: char): (r: string)
    ensures c !in r && |r| <= |s|
    ensures forall x :: x in r ==> x in s
  {
    if s == [] then []
    else if s[0] == c then RemoveChar(s[1..], c)
    else [s[0]] + RemoveChar(s[1..], c)
  }

  function UpperChar(c: char): char {
    if 'a' <= c <= 'z' then (c as int - 32) as char else c
  }

  /** `s.upper()` on ASCII letters. */
  function Upper(s: string): (u: string)
    ensures |u| == |s| && forall i :: 0 <= i < |s| ==> u[i] == UpperChar(s[i])
  {
    seq(|s|, i requires 0 <= i < |s| => UpperChar(s[i]))
  }

  /** Python's `a <= b` on strings: code-point lexicographic order. */
  predicate StrLe(a: string, b: string) {
    if a == [] then true
    else if b == [] then false
    else if a[0] != b[0] then a[0] < b[0]
    else StrLe(a[1..], b[1..])
  }

  lemma {:induction false} StrLeTotal(a: string, b: string)
    ensures StrLe(a, b) || StrLe(b, a)
  {
    if a != [] && b != [] && a[0] == b[0] {
      StrLeTotal(a[1..], b[1..]);
    }
  }

  lemma {:induction false} StrLeTransitive(a: string, b: string, c: string)
    requires StrLe(a, b) && StrLe(b, c)
    ensures StrLe(a, c)
  {
    if a != [] && b != [] && c != [] && a[0] == b[0] && b[0] == c[0] {
      StrLeTransitive(a[1..], b[1..], c[1..]);
    }
  }

  lemma {:induction false} StrLeAntisymmetric(a: string, b: string)
    requires StrLe(a, b) && StrLe(b, a)
    ensures a == b
  {
    if a != [] && b != [] {
      StrLeAntisymmetric(a[1..], b[1..]);
      assert a == [a[0]] + a[1..] && b == [b[0]] + b[1..];
    }
  }
}
