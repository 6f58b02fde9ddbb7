/** `sanitize_and_prepare_text_for_llm` as a whole (main.py:6-54). */
module Sanitizer {
  import opened Chars
  import opened Text
  import opened Normalization
  import opened Sentences
  import opened Grouping

  /** The chunks of main.py:37-52, computed from the normalised text's sentences. */
  function Lines(text: string, table: Table, minChars: int, maxChars: int): (r: seq<string>)
    ensures |r| <= |Split(Normalize(text, table))| + 1
  {
    Group(Split(Normalize(text, table)), minChars, maxChars)
  }

  /** The result of main.py:6-54: the chunks joined by newlines. */
  function Sanitize(text: string, table: Table, minChars: int, maxChars: int): string
  {
    Join(Lines(text, table, minChars, maxChars), '\n')
  }

  /**
   * The sanitiser as the source runs it: normalise, split, then the grouping
   * loop. Replacing the newlines of the result by spaces gives back the
   * normalised text.
   */
  method SanitizeAndPrepare(text: string, table: Table, minChars: int, maxChars: int) returns (out: string)
    ensures out == Sanitize(text, table, minChars, maxChars)
    ensures minChars >= 1 ==> ReplaceAll(out, '\n', ' ') == Normalize(text, table)
  {
    var normalized := Normalize(text, table);
    var sentences := Split(normalized);
    var lines := GroupSentences(sentences, minChars, maxChars);
    out := Join(lines, '\n');
    if minChars >= 1 {
      SanitizeRoundTrip(text, table, minChars, maxChars);
    }
  }

  /** Blank sentences are skipped, so the lone empty piece of empty text yields no chunk (main.py:40-41). */
  lemma GroupOfEmptyPiece(minChars: int, maxChars: int)
    ensures Group([""], minChars, maxChars) == []
  {
    var pieces: seq<string> := [""];
    assert pieces[..0] == [];
    assert Strip("") == "";
  }

  /** The sentences of non-empty normalised text are clean and printable. */
  lemma SentencesOfNormalized(n: string)
    requires Normalized(n) && n != []
    ensures Join(Split(n), ' ') == n
    ensures forall i :: 0 <= i < |Split(n)| ==> Clean(Split(n)[i]) && AllPrintable(Split(n)[i])
  {
    var ss := Split(n);
    SplitNormalized(n);
    forall i | 0 <= i < |ss| ensures Clean(ss[i]) && AllPrintable(ss[i]) {
      assert ss[i][0] != ' ' && ss[i][|ss[i]| - 1] != ' ';
    }
  }

  /** The grouping applied to the sentences of normalised text (see `LinesShape`). */
  lemma ChunksOfNormalized(n: string, minChars: int, maxChars: int)
    requires Normalized(n) && minChars >= 1
    ensures Join(Group(Split(n), minChars, maxChars), ' ') == n
    ensures forall i :: 0 <= i < |Group(Split(n), minChars, maxChars)| ==>
              Clean(Group(Split(n), minChars, maxChars)[i]) && AllPrintable(Group(Split(n), minChars, maxChars)[i])
    ensures forall i :: 0 <= i < |Group(Split(n), minChars, maxChars)| - 1 ==> |Group(Split(n), minChars, maxChars)[i]| >= minChars
    ensures Group(Split(n), minChars, maxChars) == [] <==> n == []
  {
    SplitNormalized(n);
    if n == [] {
      GroupOfEmptyPiece(minChars, maxChars);
    } else {
      SentencesOfNormalized(n);
      GroupedChunks(Split(n), minChars, maxChars);
    }
  }

  /**
   * For `minChars >= 1`: the chunks joined by spaces are the normalised text;
   * every chunk is non-empty, printable, and has no space at either end; every
   * chunk but the last has at least `minChars` characters; and there are no
   * chunks exactly when the normalised text is empty.
   */
  lemma LinesShape(text: string, table: Table, minChars: int, maxChars: int)
    requires minChars >= 1
    ensures Join(Lines(text, table, minChars, maxChars), ' ') == Normalize(text, table)
    ensures forall i :: 0 <= i < |Lines(text, table, minChars, maxChars)| ==>
              Clean(Lines(text, table, minChars, maxChars)[i]) && AllPrintable(Lines(text, table, minChars, maxChars)[i])
    ensures forall i :: 0 <= i < |Lines(text, table, minChars, maxChars)| - 1 ==> |Lines(text, table, minChars, maxChars)[i]| >= minChars
    ensures Lines(text, table, minChars, maxChars) == [] <==> Normalize(text, table) == []
  {
    ChunksOfNormalized(Normalize(text, table), minChars, maxChars);
  }

  /**
   * For `minChars >= 1` and text that is not silent, the chunks are the joined
   * sentence groups of `Pack`: a sentence joins a chunk only if it fits within
   * `maxChars` or the chunk is shorter than `minChars`, and a chunk is closed
   * only when the next sentence is not admitted.
   */
  lemma LinesArePacked(text: string, table: Table, minChars: int, maxChars: int)
    requires minChars >= 1 && Normalize(text, table) != []
    ensures Lines(text, table, minChars, maxChars) == Chunks(Pack(Split(Normalize(text, table)), minChars, maxChars))
  {
    var n := Normalize(text, table);
    SentencesOfNormalized(n);
    GroupIsChunksOfPack(Split(n), minChars, maxChars);
  }

  /** Round trip: replacing each newline of the output by one space reproduces the normalised text. */
  lemma SanitizeRoundTrip(text: string, table: Table, minChars: int, maxChars: int)
    requires minChars >= 1
    ensures ReplaceAll(Sanitize(text, table, minChars, maxChars), '\n', ' ') == Normalize(text, table)
  {
    var lines := Lines(text, table, minChars, maxChars);
    ChunksOfNormalized(Normalize(text, table), minChars, maxChars);
    forall i, j | 0 <= i < |lines| && 0 <= j < |lines[i]| ensures lines[i][j] != '\n' {
      assert IsPrintable(lines[i][j]);
    }
    ReplaceSeparator(lines, '\n', ' ');
  }

  /** The output is empty exactly when the input is silent: empty, blank, or made only of deleted characters. */
  lemma SanitizeEmptyIff(text: string, table: Table, minChars: int, maxChars: int)
    requires ValidTable(table)
    ensures Sanitize(text, table, minChars, maxChars) == [] <==> Silent(text, table)
  {
    NormalizeEmptyIff(text, table);
    var n := Normalize(text, table);
    SplitNormalized(n);
    if n == [] {
      GroupOfEmptyPiece(minChars, maxChars);
    } else {
      var ss := Split(n);
      SentencesOfNormalized(n);
      StripClean(ss[|ss| - 1]);
      GroupLastChunk(ss, minChars, maxChars);
    }
  }
}
