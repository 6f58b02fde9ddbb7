/** Stage 3 of the sanitiser: greedy grouping of sentences into chunks (main.py:36-54). */
module Grouping {
  import opened Chars
  import opened Text

  /** The loop state of main.py:37-38: the chunks flushed so far and the chunk being built. */
  datatype Acc = Acc(lines: seq<string>, current: string)

  /** One iteration of the loop body, main.py:40-49. */
  function Step(acc: Acc, sentence: string, minChars: int, maxChars: int): (r: Acc)
    ensures Strip(sentence) == [] ==> r == acc
    ensures Strip(sentence) != [] ==> r.current == acc.current + sentence + " " || r.current == sentence + " "
    ensures |acc.lines| <= |r.lines| <= |acc.lines| + 1 && r.lines[..|acc.lines|] == acc.lines
    ensures |r.lines| > |acc.lines| ==>
              r.lines[|acc.lines|] == Strip(acc.current) && |Strip(acc.current)| >= minChars
              && |acc.current| + |sentence| + 1 > maxChars && r.current == sentence + " "
  {
    if Strip(sentence) == [] then acc
    else if |acc.current| + |sentence| + 1 <= maxChars then Acc(acc.lines, acc.current + sentence + " ")
    else if |Strip(acc.current)| >= minChars then Acc(acc.lines + [Strip(acc.current)], sentence + " ")
    else Acc(acc.lines, acc.current + sentence + " ")
  }

  /** The loop state after the given sentences. */
  function Fold(sentences: seq<string>, minChars: int, maxChars: int): (r: Acc)
    ensures |r.lines| <= |sentences|
    decreases |sentences|
  {
    if sentences == [] then Acc([], "")
    else Step(Fold(sentences[..|sentences| - 1], minChars, maxChars), sentences[|sentences| - 1], minChars, maxChars)
  }

  /** main.py:51-52: the chunk still being built is emitted unless it is blank. */
  function Flush(acc: Acc): (r: seq<string>)
    ensures |acc.lines| <= |r| <= |acc.lines| + 1 && r[..|acc.lines|] == acc.lines
    ensures |r| == |acc.lines| <==> AllSpace(acc.current)
    ensures |r| > |acc.lines| ==> r[|acc.lines|] == Strip(acc.current) && Clean(r[|acc.lines|])
  {
    StripEmptyIff(acc.current);
    if Strip(acc.current) != [] then acc.lines + [Strip(acc.current)] else acc.lines
  }

  /** The chunks main.py:37-52 produces for `sentences`. */
  function Group(sentences: seq<string>, minChars: int, maxChars: int): (r: seq<string>)
    ensures |r| <= |sentences| + 1
  {
    Flush(Fold(sentences, minChars, maxChars))
  }

  /**
   * The loop ends with the last non-blank sentence in `current`, so the final
   * flush (main.py:51-52) emits a chunk, and that chunk is not empty.
   */
  lemma GroupLastChunk(sentences: seq<string>, minChars: int, maxChars: int)
    requires sentences != [] && Strip(sentences[|sentences| - 1]) != []
    ensures Group(sentences, minChars, maxChars) != []
    ensures Group(sentences, minChars, maxChars)[|Group(sentences, minChars, maxChars)| - 1] != []
  {
    var s := sentences[|sentences| - 1];
    var prev := Fold(sentences[..|sentences| - 1], minChars, maxChars);
    assert Fold(sentences, minChars, maxChars) == Step(prev, s, minChars, maxChars);
    StepKeepsSentence(prev, s, minChars, maxChars);
  }

  /** After a non-blank sentence, the chunk being built is not blank. */
  lemma StepKeepsSentence(acc: Acc, s: string, minChars: int, maxChars: int)
    requires Strip(s) != []
    ensures !AllSpace(Step(acc, s, minChars, maxChars).current)
  {
    StripEmptyIff(s);
    NotAllSpaceAppend(acc.current, s);
    NotAllSpaceAppend([], s);
    assert [] + s + " " == s + " ";
  }

  /** The loop of main.py:37-52, updating `lines` and `current` in place. */
  method GroupSentences(sentences: seq<string>, minChars: int, maxChars: int) returns (lines: seq<string>)
    ensures lines == Group(sentences, minChars, maxChars)
  {
    lines := [];
    var current := "";
    for i := 0 to |sentences|
      invariant Acc(lines, current) == Fold(sentences[..i], minChars, maxChars)
    {
      var sentence := sentences[i];
      assert sentences[..i + 1][..i] == sentences[..i];
      ghost var next := Step(Acc(lines, current), sentence, minChars, maxChars);
      assert Fold(sentences[..i + 1], minChars, maxChars) == next;
      if Strip(sentence) == [] {
        continue;
      }
      if |current| + |sentence| + 1 <= maxChars {
        StepAppends(Acc(lines, current), sentence, minChars, maxChars);
        current := current + sentence + " ";
      } else {
        if |Strip(current)| >= minChars {
          StepFlushes(Acc(lines, current), sentence, minChars, maxChars);
          lines := lines + [Strip(current)];
          current := sentence + " ";
        } else {
          StepAppends(Acc(lines, current), sentence, minChars, maxChars);
          current := current + sentence + " ";
        }
      }
      assert Acc(lines, current) == next;
    }
    assert sentences[..|sentences|] == sentences;
    ghost var last := Acc(lines, current);
    if Strip(current) != [] {
      lines := lines + [Strip(current)];
    }
    assert lines == Flush(last);
  }

  // ---------------------------------------------------------------------------
  // The same grouping seen at the level of sentences: every chunk is a group of
  // whole sentences joined by single spaces.

  /** Sentence `s` may join a chunk made of the sentences `g`: it fits within `maxChars` (main.py:42) or the chunk is still shorter than `minChars` (main.py:45, 48-49). */
  predicate Admits(g: seq<string>, s: string, minChars: int, maxChars: int) {
    |Join(g, ' ')| + 1 + |s| + 1 <= maxChars || |Join(g, ' ')| < minChars
  }

  /** Every sentence of the group after the first was admitted by the sentences before it. */
  predicate Admitted(g: seq<string>, minChars: int, maxChars: int) {
    forall j :: 0 < j < |g| ==> Admits(g[..j], g[j], minChars, maxChars)
  }

  /** Group `i` was started only because its first sentence was not admitted by group `i - 1`. */
  predicate FlushedBefore(groups: seq<seq<string>>, i: int, minChars: int, maxChars: int)
    requires 0 < i < |groups|
  {
    groups[i] != [] ==> !Admits(groups[i - 1], groups[i][0], minChars, maxChars)
  }

  /** The rules the greedy grouping obeys. */
  predicate WellPacked(groups: seq<seq<string>>, minChars: int, maxChars: int) {
    (forall i :: 0 <= i < |groups| ==> groups[i] != [] && Admitted(groups[i], minChars, maxChars))
    && (forall i :: 0 <= i < |groups| - 1 ==> |Join(groups[i], ' ')| >= minChars)
    && (forall i :: 0 < i < |groups| ==> FlushedBefore(groups, i, minChars, maxChars))
  }

  /** The groups laid end to end. */
  function Flatten(groups: seq<seq<string>>): seq<string>
  {
    if groups == [] then [] else Flatten(groups[..|groups| - 1]) + groups[|groups| - 1]
  }

  /** The chunk text of each group. */
  function Chunks(groups: seq<seq<string>>): (r: seq<string>)
    ensures |r| == |groups| && forall i :: 0 <= i < |groups| ==> r[i] == Join(groups[i], ' ')
  {
    seq(|groups|, i requires 0 <= i < |groups| => Join(groups[i], ' '))
  }

  /** Closed groups and the group being built. */
  datatype Packing = Packing(closed: seq<seq<string>>, open: seq<string>)

  function PackStep(p: Packing, s: string, minChars: int, maxChars: int): Packing
  {
    if p.open == [] then Packing(p.closed, [s])
    else if Admits(p.open, s, minChars, maxChars) then Packing(p.closed, p.open + [s])
    else Packing(p.closed + [p.open], [s])
  }

  function PackFold(sentences: seq<string>, minChars: int, maxChars: int): Packing
    decreases |sentences|
  {
    if sentences == [] then Packing([], [])
    else PackStep(PackFold(sentences[..|sentences| - 1], minChars, maxChars), sentences[|sentences| - 1], minChars, maxChars)
  }

  ghost predicate PackInv(p: Packing, sentences: seq<string>, minChars: int, maxChars: int) {
    if sentences == [] then p == Packing([], [])
    else p.open != [] && Flatten(p.closed + [p.open]) == sentences && WellPacked(p.closed + [p.open], minChars, maxChars)
  }

  lemma WellPackedExtend(closed: seq<seq<string>>, open: seq<string>, s: string, minChars: int, maxChars: int)
    requires open != [] && WellPacked(closed + [open], minChars, maxChars)
    requires Admits(open, s, minChars, maxChars)
    ensures WellPacked(closed + [open + [s]], minChars, maxChars)
  {
    var g, g' := closed + [open], closed + [open + [s]];
    var o := open + [s];
    assert g[|closed|] == open;
    assert Admitted(open, minChars, maxChars);
    forall j | 0 < j < |o| ensures Admits(o[..j], o[j], minChars, maxChars) {
      if j < |open| {
        assert o[..j] == open[..j];
      } else {
        assert o[..j] == open;
      }
    }
    forall i | 0 <= i < |g'| ensures g'[i] != [] && Admitted(g'[i], minChars, maxChars) {
      if i < |closed| { assert g'[i] == g[i]; }
    }
    forall i | 0 <= i < |g'| - 1 ensures |Join(g'[i], ' ')| >= minChars {
      assert g'[i] == g[i];
    }
    forall i | 0 < i < |g'| ensures FlushedBefore(g', i, minChars, maxChars) {
      assert FlushedBefore(g, i, minChars, maxChars);
    }
  }

  lemma WellPackedClose(groups: seq<seq<string>>, s: string, minChars: int, maxChars: int)
    requires groups != [] && WellPacked(groups, minChars, maxChars)
    requires !Admits(groups[|groups| - 1], s, minChars, maxChars)
    ensures WellPacked(groups + [[s]], minChars, maxChars)
  {
    var g' := groups + [[s]];
    forall i | 0 < i < |g'| ensures FlushedBefore(g', i, minChars, maxChars) {
      if i < |groups| {
        assert FlushedBefore(groups, i, minChars, maxChars);
      }
    }
  }

  lemma {:induction false} PackFoldInv(sentences: seq<string>, minChars: int, maxChars: int)
    ensures PackInv(PackFold(sentences, minChars, maxChars), sentences, minChars, maxChars)
    decreases |sentences|
  {
    if sentences != [] {
      var init, s := sentences[..|sentences| - 1], sentences[|sentences| - 1];
      assert sentences == init + [s];
      PackFoldInv(init, minChars, maxChars);
      var p := PackFold(init, minChars, maxChars);
      var p' := PackStep(p, s, minChars, maxChars);
      if p.open == [] {
        assert Flatten([[s]]) == Flatten([]) + [s];
      } else if Admits(p.open, s, minChars, maxChars) {
        WellPackedExtend(p.closed, p.open, s, minChars, maxChars);
        assert (p.closed + [p.open + [s]])[..|p.closed|] == p.closed;
        assert (p.closed + [p.open])[..|p.closed|] == p.closed;
      } else {
        var g := p.closed + [p.open];
        WellPackedClose(g, s, minChars, maxChars);
        assert (g + [[s]])[..|g|] == g;
      }
    }
  }

  /**
   * The sentence groups of the greedy grouping. They hold every sentence once,
   * in order; no group is empty; every group but the last reaches `minChars`;
   * a sentence joins a group only if it fits or the group is still short; and a
   * new group starts only when its first sentence was not admitted.
   */
  function Pack(sentences: seq<string>, minChars: int, maxChars: int): (groups: seq<seq<string>>)
    ensures Flatten(groups) == sentences
    ensures WellPacked(groups, minChars, maxChars)
  {
    PackFoldInv(sentences, minChars, maxChars);
    var p := PackFold(sentences, minChars, maxChars);
    if p.open == [] then p.closed else p.closed + [p.open]
  }

  /**
   * A chunk reaches `maxChars` characters only if it is a single sentence or
   * its last sentence joined it while it was still shorter than `minChars`:
   * a sentence admitted because it fits leaves the chunk at most
   * `maxChars - 1` long (main.py:42-49).
   */
  lemma LongChunkCause(groups: seq<seq<string>>, i: int, minChars: int, maxChars: int)
    requires WellPacked(groups, minChars, maxChars) && 0 <= i < |groups|
    ensures |Join(groups[i], ' ')| >= maxChars ==>
              |groups[i]| == 1 || |Join(groups[i][..|groups[i]| - 1], ' ')| < minChars
  {
    var g := groups[i];
    var k := |g|;
    if k > 1 {
      assert Admits(g[..k - 1], g[k - 1], minChars, maxChars);
      assert g == g[..k - 1] + [g[k - 1]];
      JoinSnoc(g[..k - 1], g[k - 1], ' ');
    }
  }

  // ---------------------------------------------------------------------------
  // Connecting the loop to the sentence groups.

  /** The loop state a packing stands for: flushed chunks, and the open group followed by one space. */
  function Render(p: Packing): Acc
  {
    Acc(Chunks(p.closed), if p.open == [] then "" else Join(p.open, ' ') + " ")
  }

  lemma ChunksSnoc(groups: seq<seq<string>>, g: seq<string>)
    ensures Chunks(groups + [g]) == Chunks(groups) + [Join(g, ' ')]
  {
    assert forall i :: 0 <= i < |groups| ==> (groups + [g])[i] == groups[i];
  }

  /** A non-blank sentence that fits, or meets a short chunk, is appended to the chunk being built. */
  lemma StepAppends(acc: Acc, s: string, minChars: int, maxChars: int)
    requires Strip(s) != []
    requires |acc.current| + |s| + 1 <= maxChars || |Strip(acc.current)| < minChars
    ensures Step(acc, s, minChars, maxChars) == Acc(acc.lines, acc.current + s + " ")
  {
  }

  /** A non-blank sentence that does not fit a chunk of at least `minChars` characters flushes it. */
  lemma StepFlushes(acc: Acc, s: string, minChars: int, maxChars: int)
    requires Strip(s) != []
    requires |acc.current| + |s| + 1 > maxChars && |Strip(acc.current)| >= minChars
    ensures Step(acc, s, minChars, maxChars) == Acc(acc.lines + [Strip(acc.current)], s + " ")
  {
    assert !(|acc.current| + |s| + 1 <= maxChars);
  }

  /** The first clean sentence of a chunk starts it, whatever its length, when `minChars >= 1`. */
  lemma StepStarts(lines: seq<string>, s: string, minChars: int, maxChars: int)
    requires minChars >= 1 && Clean(s)
    ensures Step(Acc(lines, ""), s, minChars, maxChars) == Acc(lines, s + " ")
  {
    StripClean(s);
    assert Strip("") == "" by { assert AllSpace(""); }
    var empty: string := [];
    assert empty + s == s;
  }

  lemma RenderStepFirst(p: Packing, s: string, minChars: int, maxChars: int)
    requires minChars >= 1 && Clean(s) && p.open == []
    ensures Step(Render(p), s, minChars, maxChars) == Render(PackStep(p, s, minChars, maxChars))
  {
    var lines := Chunks(p.closed);
    assert Render(p) == Acc(lines, "");
    StepStarts(lines, s, minChars, maxChars);
    assert Join([s], ' ') == s;
    assert Render(Packing(p.closed, [s])) == Acc(lines, s + " ");
  }

  /** Appending a clean sentence to a clean chunk with one space between keeps it clean. */
  lemma CleanJoin(j: string, s: string)
    requires Clean(j) && Clean(s)
    ensures Clean(j + [' '] + s)
  {
    var e := j + [' '] + s;
    assert e[0] == j[0] && e[|e| - 1] == s[|s| - 1];
  }

  /** A clean sentence admitted by a clean chunk is appended after the chunk's trailing space. */
  lemma StepExtends(lines: seq<string>, j: string, s: string, minChars: int, maxChars: int)
    requires Clean(j) && Clean(s)
    requires |j| + 1 + |s| + 1 <= maxChars || |j| < minChars
    ensures Step(Acc(lines, j + " "), s, minChars, maxChars) == Acc(lines, j + [' '] + s + " ")
  {
    StripClean(s);
    StripCleanSpace(j);
    StepAppends(Acc(lines, j + " "), s, minChars, maxChars);
    assert (j + " ") + s + " " == j + [' '] + s + " ";
  }

  lemma RenderStepExtend(p: Packing, s: string, minChars: int, maxChars: int)
    requires Clean(s) && p.open != [] && Clean(Join(p.open, ' '))
    requires Admits(p.open, s, minChars, maxChars)
    ensures Step(Render(p), s, minChars, maxChars) == Render(PackStep(p, s, minChars, maxChars))
    ensures Clean(Join(p.open + [s], ' '))
  {
    var j := Join(p.open, ' ');
    var lines := Chunks(p.closed);
    assert Render(p) == Acc(lines, j + " ");
    StepExtends(lines, j, s, minChars, maxChars);
    JoinSnoc(p.open, s, ' ');
    CleanJoin(j, s);
    assert PackStep(p, s, minChars, maxChars) == Packing(p.closed, p.open + [s]);
  }

  lemma RenderStepClose(p: Packing, s: string, minChars: int, maxChars: int)
    requires Clean(s) && p.open != [] && Clean(Join(p.open, ' '))
    requires !Admits(p.open, s, minChars, maxChars)
    ensures Step(Render(p), s, minChars, maxChars) == Render(PackStep(p, s, minChars, maxChars))
  {
    StripClean(s);
    assert Join([s], ' ') == s;
    var j := Join(p.open, ' ');
    StripCleanSpace(j);
    var acc := Acc(Chunks(p.closed), j + " ");
    assert Render(p) == acc;
    StepFlushes(acc, s, minChars, maxChars);
    ChunksSnoc(p.closed, p.open);
    assert PackStep(p, s, minChars, maxChars) == Packing(p.closed + [p.open], [s]);
  }

  /** One loop iteration on a clean sentence acts on the rendered state as one packing step. */
  lemma RenderStep(p: Packing, s: string, minChars: int, maxChars: int)
    requires minChars >= 1 && Clean(s)
    requires p.open != [] ==> Clean(Join(p.open, ' '))
    ensures Step(Render(p), s, minChars, maxChars) == Render(PackStep(p, s, minChars, maxChars))
    ensures PackStep(p, s, minChars, maxChars).open != [] ==> Clean(Join(PackStep(p, s, minChars, maxChars).open, ' '))
  {
    assert Join([s], ' ') == s;
    if p.open == [] {
      RenderStepFirst(p, s, minChars, maxChars);
    } else if Admits(p.open, s, minChars, maxChars) {
      RenderStepExtend(p, s, minChars, maxChars);
    } else {
      RenderStepClose(p, s, minChars, maxChars);
    }
  }

  lemma {:induction false} FoldIsRenderedPack(sentences: seq<string>, minChars: int, maxChars: int)
    requires minChars >= 1
    requires forall i :: 0 <= i < |sentences| ==> Clean(sentences[i])
    ensures Fold(sentences, minChars, maxChars) == Render(PackFold(sentences, minChars, maxChars))
    ensures PackFold(sentences, minChars, maxChars).open != [] ==> Clean(Join(PackFold(sentences, minChars, maxChars).open, ' '))
    decreases |sentences|
  {
    if sentences != [] {
      var init, s := sentences[..|sentences| - 1], sentences[|sentences| - 1];
      FoldIsRenderedPack(init, minChars, maxChars);
      RenderStep(PackFold(init, minChars, maxChars), s, minChars, maxChars);
    }
  }

  /** For clean sentences and `minChars >= 1`, the loop's chunks are the joined sentence groups of `Pack`. */
  lemma GroupIsChunksOfPack(sentences: seq<string>, minChars: int, maxChars: int)
    requires minChars >= 1
    requires forall i :: 0 <= i < |sentences| ==> Clean(sentences[i])
    ensures Group(sentences, minChars, maxChars) == Chunks(Pack(sentences, minChars, maxChars))
  {
    FoldIsRenderedPack(sentences, minChars, maxChars);
    PackFoldInv(sentences, minChars, maxChars);
    var p := PackFold(sentences, minChars, maxChars);
    if p.open != [] {
      StripClean(Join(p.open, ' '));
      ChunksSnoc(p.closed, p.open);
    }
  }

  lemma {:induction false} FlattenMember(groups: seq<seq<string>>, i: int, j: int)
    requires 0 <= i < |groups| && 0 <= j < |groups[i]|
    ensures groups[i][j] in Flatten(groups)
    decreases |groups|
  {
    var init := groups[..|groups| - 1];
    if i < |groups| - 1 {
      assert groups[i] == init[i];
      FlattenMember(init, i, j);
    } else {
      assert Flatten(groups)[|Flatten(init)| + j] == groups[i][j];
    }
  }

  lemma {:induction false} JoinConcat(a: seq<string>, b: seq<string>, sep: char)
    requires a != [] && b != []
    ensures Join(a + b, sep) == Join(a, sep) + [sep] + Join(b, sep)
    decreases |b|
  {
    if |b| == 1 {
      JoinSnoc(a, b[0], sep);
      assert b == [b[0]];
    } else {
      var init, last := b[..|b| - 1], b[|b| - 1];
      assert a + b == (a + init) + [last];
      assert b == init + [last];
      JoinSnoc(a + init, last, sep);
      JoinConcat(a, init, sep);
      JoinSnoc(init, last, sep);
    }
  }

  /** Joining the chunks with spaces joins all their sentences with spaces. */
  lemma {:induction false} JoinChunks(groups: seq<seq<string>>)
    requires forall i :: 0 <= i < |groups| ==> groups[i] != []
    ensures Join(Chunks(groups), ' ') == Join(Flatten(groups), ' ')
    ensures groups != [] ==> Flatten(groups) != []
    decreases |groups|
  {
    if groups != [] {
      var init, g := groups[..|groups| - 1], groups[|groups| - 1];
      assert groups == init + [g];
      JoinChunks(init);
      ChunksSnoc(init, g);
      if init == [] {
        assert Flatten(groups) == g;
      } else {
        JoinSnoc(Chunks(init), Join(g, ' '), ' ');
        JoinConcat(Flatten(init), g, ' ');
      }
    }
  }

  /**
   * For clean sentences and `minChars >= 1`: joining the chunks with spaces
   * gives the sentences joined with spaces, so none is lost, repeated or
   * moved; every chunk is non-empty with no space at either end; every chunk
   * but the last has at least `minChars` characters; and there are no chunks
   * exactly when there are no sentences.
   */
  lemma GroupedChunks(sentences: seq<string>, minChars: int, maxChars: int)
    requires minChars >= 1
    requires forall i :: 0 <= i < |sentences| ==> Clean(sentences[i])
    ensures Join(Group(sentences, minChars, maxChars), ' ') == Join(sentences, ' ')
    ensures forall i :: 0 <= i < |Group(sentences, minChars, maxChars)| ==> Clean(Group(sentences, minChars, maxChars)[i])
    ensures forall i :: 0 <= i < |Group(sentences, minChars, maxChars)| - 1 ==> |Group(sentences, minChars, maxChars)[i]| >= minChars
    ensures Group(sentences, minChars, maxChars) == [] <==> sentences == []
    ensures (forall i :: 0 <= i < |sentences| ==> AllPrintable(sentences[i])) ==>
            forall i :: 0 <= i < |Group(sentences, minChars, maxChars)| ==> AllPrintable(Group(sentences, minChars, maxChars)[i])
  {
    GroupIsChunksOfPack(sentences, minChars, maxChars);
    PackedChunks(Pack(sentences, minChars, maxChars), sentences, minChars, maxChars);
  }

  /** The chunks of well-packed groups of clean sentences (see `GroupedChunks`). */
  lemma PackedChunks(groups: seq<seq<string>>, sentences: seq<string>, minChars: int, maxChars: int)
    requires Flatten(groups) == sentences && WellPacked(groups, minChars, maxChars)
    requires forall i :: 0 <= i < |sentences| ==> Clean(sentences[i])
    ensures Join(Chunks(groups), ' ') == Join(sentences, ' ')
    ensures forall i :: 0 <= i < |Chunks(groups)| ==> Clean(Chunks(groups)[i])
    ensures forall i :: 0 <= i < |Chunks(groups)| - 1 ==> |Chunks(groups)[i]| >= minChars
    ensures Chunks(groups) == [] <==> sentences == []
    ensures (forall i :: 0 <= i < |sentences| ==> AllPrintable(sentences[i])) ==>
            forall i :: 0 <= i < |Chunks(groups)| ==> AllPrintable(Chunks(groups)[i])
  {
    var chunks := Chunks(groups);
    JoinChunks(groups);
    forall i | 0 <= i < |groups|
      ensures Clean(chunks[i])
      ensures (forall k :: 0 <= k < |sentences| ==> AllPrintable(sentences[k])) ==> AllPrintable(chunks[i])
    {
      ChunkShape(groups, sentences, i);
    }
  }

  /** A group of clean sentences joins to a clean chunk, printable when the sentences are. */
  lemma ChunkShape(groups: seq<seq<string>>, sentences: seq<string>, i: int)
    requires Flatten(groups) == sentences && 0 <= i < |groups| && groups[i] != []
    requires forall k :: 0 <= k < |sentences| ==> Clean(sentences[k])
    ensures Clean(Join(groups[i], ' '))
    ensures (forall k :: 0 <= k < |sentences| ==> AllPrintable(sentences[k])) ==> AllPrintable(Join(groups[i], ' '))
  {
    forall j | 0 <= j < |groups[i]| ensures groups[i][j] in sentences {
      FlattenMember(groups, i, j);
    }
    JoinClean(groups[i], ' ');
    if forall k :: 0 <= k < |sentences| ==> AllPrintable(sentences[k]) {
      JoinAllPrintable(groups[i], ' ');
    }
  }

  /** A sentence is appended to a chunk still shorter than `minChars` whatever its length, so an over-long sentence need not stand alone (main.py:48-49). */
  lemma ShortChunkAbsorbsNextSentence(first: string, next: string, minChars: int, maxChars: int)
    requires Clean(first) && Clean(next) && |first| < minChars
    ensures Group([first, next], minChars, maxChars) == [first + " " + next]
  {
    assert [first, next][..1] == [first];
    assert [first][..0] == [];
    StepStarts([], first, minChars, maxChars);
    assert Fold([first], minChars, maxChars) == Acc([], first + " ");
    StepExtends([], first, next, minChars, maxChars);
    var e := first + [' '] + next;
    assert Fold([first, next], minChars, maxChars) == Acc([], e + " ");
    CleanJoin(first, next);
    StripCleanSpace(e);
  }

  /** With `minChars <= 0`, a first sentence that does not fit flushes an empty chunk (main.py:45-46). */
  lemma NonPositiveMinEmitsEmptyChunk(s: string, minChars: int, maxChars: int)
    requires Clean(s) && minChars <= 0 && |s| + 1 > maxChars
    ensures Group([s], minChars, maxChars) == ["", s]
  {
    FoldOne(s, minChars, maxChars);
    StripClean(s);
    assert Strip("") == "" by { assert AllSpace(""); }
    StepFlushes(Acc([], ""), s, minChars, maxChars);
    FlushClean([""], s);
  }

  /** The loop state after one sentence is one step from the initial state. */
  lemma FoldOne(s: string, minChars: int, maxChars: int)
    ensures Fold([s], minChars, maxChars) == Step(Acc([], ""), s, minChars, maxChars)
  {
    assert [s][..0] == [];
  }

  /** A chunk holding a clean text and its trailing space is emitted as that text (main.py:51-52). */
  lemma FlushClean(lines: seq<string>, s: string)
    requires Clean(s)
    ensures Flush(Acc(lines, s + " ")) == lines + [s]
  {
    StripCleanSpace(s);
  }
}
