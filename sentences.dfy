/** Stage 2 of the sanitiser: `re.split(r'(?<=[.!?])\s+', text)` (main.py:34). */
module Sentences {
  import opened Chars
  import opened Text
  import opened Normalization

  /** Position `k` starts a whitespace run that the splitting pattern matches: the character before it is terminal. */
  predicate BoundaryAt(s: string, k: int) {
    0 < k < |s| && IsTerminal(s[k - 1]) && IsSpace(s[k])
  }

  /** A piece with no split point inside it. */
  predicate NoBoundary(s: string) {
    forall k :: 0 <= k < |s| ==> !BoundaryAt(s, k)
  }

  /** The leftmost split point at or after `from`, or `|s|` when there is none. */
  function FirstBoundary(s: string, from: nat): (k: nat)
    requires from <= |s|
    ensures from <= k <= |s|
    ensures k < |s| ==> BoundaryAt(s, k)
    ensures forall j :: from <= j < k ==> !BoundaryAt(s, j)
    decreases |s| - from
  {
    if from == |s| || BoundaryAt(s, from) then from else FirstBoundary(s, from + 1)
  }

  /**
   * Cuts `s` at every whitespace run preceded by `.`, `!` or `?`, dropping the run.
   * As with `re.split`, the result is never empty, and a run at the very end
   * leaves an empty last piece.
   */
  function Split(s: string): (r: seq<string>)
    ensures |r| >= 1
    decreases |s|
  {
    var k := FirstBoundary(s, 0);
    if k == |s| then
      [s]
    else
      var rest := DropSpaces(s[k..]);
      assert |rest| < |s[k..]|;
      [s[..k]] + Split(rest)
  }

  /** No piece of `Split` contains a split point: every matching whitespace run was cut. */
  lemma {:induction false} SplitPieces(s: string)
    ensures forall i :: 0 <= i < |Split(s)| ==> NoBoundary(Split(s)[i])
    decreases |s|
  {
    var k := FirstBoundary(s, 0);
    if k < |s| {
      var rest := DropSpaces(s[k..]);
      SplitPieces(rest);
      assert NoBoundary(s[..k]) by {
        forall j | 0 <= j < k ensures !BoundaryAt(s[..k], j) {
          assert !BoundaryAt(s, j);
        }
      }
      assert Split(s) == [s[..k]] + Split(rest);
    }
  }

  /** Text with no split point is one sentence, and only such text is (main.py:34). */
  lemma SplitWhole(s: string)
    ensures Split(s) == [s] <==> NoBoundary(s)
  {
    if NoBoundary(s) {
      assert FirstBoundary(s, 0) == |s|;
    }
    SplitPieces(s);
  }

  /** What `Split` promises on normalised text. */
  predicate SplitsNormalized(n: string, r: seq<string>) {
    |r| >= 1
    && Join(r, ' ') == n
    && (forall i :: 0 <= i < |r| - 1 ==> r[i] != [] && IsTerminal(r[i][|r[i]| - 1]))
    && (n == [] ==> r == [[]])
    && (n != [] ==> forall i :: 0 <= i < |r| ==> r[i] != [] && Normalized(r[i]))
  }

  /** A prefix of normalised text that does not end with a space is normalised. */
  lemma NormalizedPrefix(n: string, k: int)
    requires Normalized(n) && 0 <= k <= |n|
    requires 0 < k ==> n[k - 1] != ' '
    ensures Normalized(n[..k])
  {
    InfixShape(n, 0, k);
    assert n[0..k] == n[..k];
  }

  /** A suffix of normalised text that does not start with a space is normalised. */
  lemma NormalizedSuffix(n: string, k: int)
    requires Normalized(n) && 0 <= k <= |n|
    requires k < |n| ==> n[k] != ' '
    ensures Normalized(n[k..])
  {
    InfixShape(n, k, |n|);
    assert n[k..|n|] == n[k..];
  }

  /** On normalised text a split point is a single space between two non-space characters. */
  lemma BoundaryIsOneSpace(n: string, k: nat)
    requires Normalized(n) && BoundaryAt(n, k)
    ensures n[k] == ' ' && k + 1 < |n| && n[k + 1] != ' '
    ensures DropSpaces(n[k..]) == n[k + 1..]
  {
    var rest := n[k + 1..];
    assert n[k..] == [' '] + rest;
    assert !DoubleSpaceAt(n, k);
    assert !IsSpace(n[k + 1]);
    assert DropSpaces(rest) == rest;
  }

  /** `Split` at the first split point of normalised text. */
  lemma SplitUnfold(n: string, k: nat)
    requires k == FirstBoundary(n, 0) && k < |n|
    requires DropSpaces(n[k..]) == n[k + 1..]
    ensures Split(n) == [n[..k]] + Split(n[k + 1..])
  {
  }

  /** Cutting normalised text at a split point: a terminal-ended normalised piece, one space, and a normalised rest. */
  lemma CutShape(n: string, k: nat)
    requires Normalized(n) && BoundaryAt(n, k)
    ensures n == n[..k] + [' '] + n[k + 1..]
    ensures n[..k] != [] && IsTerminal(n[..k][k - 1]) && Normalized(n[..k])
    ensures n[k + 1..] != [] && Normalized(n[k + 1..])
  {
    BoundaryIsOneSpace(n, k);
    NormalizedPrefix(n, k);
    NormalizedSuffix(n, k + 1);
    CutAtSpace(n, k);
  }

  /** Cutting a string at a space gives the part before, the space and the part after. */
  lemma CutAtSpace(n: string, k: nat)
    requires k < |n| && n[k] == ' '
    ensures n == n[..k] + [' '] + n[k + 1..]
  {
  }

  /** Putting a terminal-ended piece in front of the pieces of the rest gives the pieces of the whole. */
  lemma SplitsCons(n: string, piece: string, rest: string, tail: seq<string>)
    requires n == piece + [' '] + rest && rest != []
    requires piece != [] && IsTerminal(piece[|piece| - 1]) && Normalized(piece)
    requires SplitsNormalized(rest, tail)
    ensures SplitsNormalized(n, [piece] + tail)
  {
    var r := [piece] + tail;
    JoinCons(piece, tail, ' ');
    forall i | 0 < i < |r| ensures r[i] == tail[i - 1] {
    }
  }

  /** Normalised text without a split point is its own only piece. */
  lemma SplitsSingle(n: string)
    requires Normalized(n) && FirstBoundary(n, 0) == |n|
    ensures SplitsNormalized(n, Split(n))
  {
    assert Split(n) == [n];
    assert Join([n], ' ') == n;
  }

  /**
   * On normalised text the pieces joined by single spaces give the text back,
   * every piece but the last ends in terminal punctuation, and for non-empty
   * text every piece is a non-empty normalised string.
   */
  lemma {:induction false} SplitNormalized(n: string)
    requires Normalized(n)
    ensures SplitsNormalized(n, Split(n))
    decreases |n|
  {
    var k := FirstBoundary(n, 0);
    if k < |n| {
      BoundaryIsOneSpace(n, k);
      SplitUnfold(n, k);
      CutShape(n, k);
      var piece, rest := n[..k], n[k + 1..];
      SplitNormalized(rest);
      SplitsCons(n, piece, rest, Split(rest));
    } else {
      SplitsSingle(n);
    }
  }
}
