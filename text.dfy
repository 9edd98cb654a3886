/**
 * Literal text replacement as the installer uses it: `String.prototype.replace`
 * with a global regular expression made of plain characters (`/yarn/g`,
 * `/package-name/g`). Matches are found left to right and do not overlap. The
 * replacement is inserted literally: the `$` patterns that `replace` expands
 * in a replacement string are not modelled.
 */
module Text {

  /** `pat` occurs in `s` starting at index `i`. */
  predicate OccursAt(s: string, pat: string, i: int)
  {
    0 <= i <= |s| - |pat| && s[i..i + |pat|] == pat
  }

  /** `s.includes(pat)`: `pat` occurs somewhere in `s`. */
  predicate Contains(s: string, pat: string)
  {
    exists i | 0 <= i <= |s| - |pat| :: OccursAt(s, pat, i)
  }

  /** Replaces every left-to-right, non-overlapping occurrence of `pat` in `s` by `rep`. */
  function ReplaceAll(s: string, pat: string, rep: string): string
    requires pat != []
    decreases |s|
  {
    if |s| < |pat| then s
    else if s[..|pat|] == pat then rep + ReplaceAll(s[|pat|..], pat, rep)
    else [s[0]] + ReplaceAll(s[1..], pat, rep)
  }

  /**
   * `s.split(pat)`: the pieces of `s` between the occurrences of `pat` that
   * ReplaceAll finds. Serves as an independent description of ReplaceAll.
   */
  function Split(s: string, pat: string): (parts: seq<string>)
    requires pat != []
    ensures |parts| >= 1 && parts[0] <= s
    decreases |s|
  {
    if |s| < |pat| then [s]
    else if s[..|pat|] == pat then [[]] + Split(s[|pat|..], pat)
    else
      var rest := Split(s[1..], pat);
      [[s[0]] + rest[0]] + rest[1..]
  }

  /** `parts.join(sep)`. */
  function Join(parts: seq<string>, sep: string): string
    requires |parts| >= 1
    decreases |parts|
  {
    if |parts| == 1 then parts[0] else parts[0] + sep + Join(parts[1..], sep)
  }

  lemma JoinConsFirst(c: char, parts: seq<string>, sep: string)
    requires |parts| >= 1
    ensures Join([[c] + parts[0]] + parts[1..], sep) == [c] + Join(parts, sep)
  {
    var q := [[c] + parts[0]] + parts[1..];
    assert q[1..] == parts[1..];
  }

  /** A piece that starts with a character that does not begin an occurrence keeps that property. */
  lemma ConsNotContains(s: string, pat: string, piece: string)
    requires pat != [] && |s| >= |pat| && s[..|pat|] != pat
    requires piece <= s[1..] && !Contains(piece, pat)
    ensures !Contains([s[0]] + piece, pat)
  {
    var p := [s[0]] + piece;
    forall i | 0 <= i <= |p| - |pat| ensures !OccursAt(p, pat, i) {
      if i == 0 {
        assert p[..|pat|] == s[..|pat|];
      } else {
        assert piece[i - 1..i - 1 + |pat|] == p[i..i + |pat|];
        assert !OccursAt(piece, pat, i - 1);
      }
    }
  }

  /** Joining the pieces of Split with the pattern gives back the original text. */
  lemma {:induction false} SplitJoinRoundTrip(s: string, pat: string)
    requires pat != []
    ensures Join(Split(s, pat), pat) == s
    decreases |s|
  {
    if |s| < |pat| {
    } else if s[..|pat|] == pat {
      SplitJoinRoundTrip(s[|pat|..], pat);
      assert Split(s, pat)[1..] == Split(s[|pat|..], pat);
      assert s == pat + s[|pat|..];
    } else {
      SplitJoinRoundTrip(s[1..], pat);
      JoinConsFirst(s[0], Split(s[1..], pat), pat);
      assert s == [s[0]] + s[1..];
    }
  }

  /** Joining the same pieces with the replacement gives ReplaceAll's result. */
  lemma {:induction false} SplitJoinReplaces(s: string, pat: string, rep: string)
    requires pat != []
    ensures Join(Split(s, pat), rep) == ReplaceAll(s, pat, rep)
    decreases |s|
  {
    if |s| < |pat| {
    } else if s[..|pat|] == pat {
      var tail := s[|pat|..];
      var rest := Split(tail, pat);
      SplitJoinReplaces(tail, pat, rep);
      var parts := [[]] + rest;
      assert Split(s, pat) == parts;
      assert parts[1..] == rest;
      assert Join(parts, rep) == [] + rep + Join(rest, rep);
      assert ReplaceAll(s, pat, rep) == rep + ReplaceAll(tail, pat, rep);
    } else {
      var rest := Split(s[1..], pat);
      SplitJoinReplaces(s[1..], pat, rep);
      JoinConsFirst(s[0], rest, rep);
      assert Split(s, pat) == [[s[0]] + rest[0]] + rest[1..];
      assert ReplaceAll(s, pat, rep) == [s[0]] + ReplaceAll(s[1..], pat, rep);
    }
  }

  /** No piece of Split contains the pattern: every occurrence is a cut point. */
  lemma {:induction false} SplitPiecesClean(s: string, pat: string)
    requires pat != []
    ensures forall i | 0 <= i < |Split(s, pat)| :: !Contains(Split(s, pat)[i], pat)
    decreases |s|
  {
    var parts := Split(s, pat);
    if |s| < |pat| {
    } else if s[..|pat|] == pat {
      var tail := s[|pat|..];
      SplitPiecesClean(tail, pat);
      forall i | 0 <= i < |parts| ensures !Contains(parts[i], pat) {
        if i > 0 {
          assert parts[i] == Split(tail, pat)[i - 1];
        }
      }
    } else {
      var rest := Split(s[1..], pat);
      SplitPiecesClean(s[1..], pat);
      ConsNotContains(s, pat, rest[0]);
      forall i | 0 <= i < |parts| ensures !Contains(parts[i], pat) {
        if i > 0 {
          assert parts[i] == rest[i];
        }
      }
    }
  }

  /**
   * ReplaceAll changes nothing but the occurrences: `s` is the pieces of
   * Split joined by `pat`, the result is the same pieces joined by `rep`, and
   * no piece still contains `pat`, so every occurrence was replaced.
   */
  lemma ReplaceAllIsSplitJoin(s: string, pat: string, rep: string)
    requires pat != []
    ensures Join(Split(s, pat), pat) == s
    ensures Join(Split(s, pat), rep) == ReplaceAll(s, pat, rep)
    ensures forall i | 0 <= i < |Split(s, pat)| :: !Contains(Split(s, pat)[i], pat)
  {
    SplitJoinRoundTrip(s, pat);
    SplitJoinReplaces(s, pat, rep);
    SplitPiecesClean(s, pat);
  }

  /** When `pat` does not occur, ReplaceAll returns its input unchanged. */
  lemma {:induction false} ReplaceAllAbsent(s: string, pat: string, rep: string)
    requires pat != [] && !Contains(s, pat)
    ensures ReplaceAll(s, pat, rep) == s
    decreases |s|
  {
    if |s| >= |pat| {
      assert !OccursAt(s, pat, 0);
      assert s[0..|pat|] == s[..|pat|];
      forall i | 0 <= i <= |s[1..]| - |pat| ensures !OccursAt(s[1..], pat, i) {
        assert s[1..][i..i + |pat|] == s[i + 1..i + 1 + |pat|];
        assert !OccursAt(s, pat, i + 1);
      }
      ReplaceAllAbsent(s[1..], pat, rep);
    }
  }

  /** A pattern with a character that `s` lacks does not occur in `s`. */
  lemma MissingCharNotContained(s: string, pat: string, j: nat)
    requires j < |pat| && pat[j] !in s
    ensures !Contains(s, pat)
  {
    forall i | 0 <= i <= |s| - |pat| ensures !OccursAt(s, pat, i) {
      assert s[i..i + |pat|][j] == s[i + j];
      assert s[i + j] in s;
    }
  }

  /** ReplaceAll distributes over a leading occurrence. */
  lemma ReplaceAllLeading(pat: string, rest: string, rep: string)
    requires pat != []
    ensures ReplaceAll(pat + rest, pat, rep) == rep + ReplaceAll(rest, pat, rep)
  {
    var s := pat + rest;
    assert s[..|pat|] == pat;
    assert s[|pat|..] == rest;
  }

  /** A text that starts with the pattern and never mentions its first character again changes only there. */
  lemma ReplaceFirstOnly(pat: string, rest: string, rep: string)
    requires pat != [] && pat[0] !in rest
    ensures ReplaceAll(pat + rest, pat, rep) == rep + rest
  {
    ReplaceAllLeading(pat, rest, rep);
    MissingCharNotContained(rest, pat, 0);
    ReplaceAllAbsent(rest, pat, rep);
  }
}
