# Text sanitiser for speech synthesis, modelled in Dafny

The script `main.py` turns a text file into a `.wav` file with a text-to-speech
model. Before it calls the model, `sanitize_and_prepare_text_for_llm` prepares
the text in three stages:

1. **Normalisation** (`normalize.dfy`). A replacement table maps typographic
   quotes, dashes and the no-break space to ASCII. Every character outside
   printable ASCII, `\n`, `\r` and `\t` is deleted. Every whitespace run becomes
   one space, and both ends are stripped.
2. **Sentence splitting** (`sentences.dfy`). The text is cut at every
   whitespace run that follows `.`, `!` or `?`, as `re.split(r'(?<=[.!?])\s+', …)`
   does.
3. **Greedy grouping** (`grouping.dfy`). A loop packs the sentences into chunks
   under the `min_chars`/`max_chars` rules. It keeps a list of finished lines
   and a `current` string. The chunks are joined with newlines.

`sanitizer.dfy` composes the three stages and proves the end-to-end
properties. `driver.dfy` models what `main` decides around the sanitiser:
which text it uses, whether it synthesises, and the output file name.
`chars.dfy` and `text.dfy` hold the character classes and Python's `strip`,
`join` and `replace`.

Form of the model:

- Normalisation and splitting are whole-string functions.
- The grouping loop is a method (`Grouping.GroupSentences`) with a loop
  invariant. The invariant ties it to a fold of the loop body (`Grouping.Fold`).
- The fold is then related to `Grouping.Pack`, a sentence-level view of the
  same packing. `Pack` makes the grouping rules explicit: which sentence may
  join a chunk, and when a chunk is closed.

The replacement table is a parameter (`Normalization.Table`). Its keys must lie
outside the characters that line 30 keeps, and its values must be printable
ASCII (`Normalization.ValidTable`). The table in main.py:20-25 has one key for
a curly double quote, and the model does not fix which one.
`Normalization.SourceTable` is one valid reading of the table. It chooses U+201C
as the double-quote key. Every property is proved for all valid tables, so this
choice matters to nothing except the constant itself. A curly quote that is not
a key is deleted by line 30.

Whitespace is ASCII whitespace (space, `\t`, `\n`, `\r`, `\v`, `\f`). Both
regular expressions and every `strip()` only see text that line 30 has already
reduced to ASCII, or pieces of such text.

Four behaviours of the code are easy to misread:

- **Over-long sentences.** A sentence longer than `max_chars` is not always a
  chunk of its own. It is appended to a chunk that is still shorter than
  `min_chars` (`Grouping.ShortChunkAbsorbsNextSentence`). A chunk is at least
  `max_chars` long only when it is one sentence, or when its last sentence
  joined it while it was still short (`Grouping.LongChunkCause`). A sentence
  appended because it fits leaves `current`, trailing space included, at most
  `max_chars` long, so that chunk stripped has at most `max_chars - 1`
  characters until a later sentence joins it.
- **`min_chars <= 0`.** A first sentence that does not fit flushes an empty
  chunk (`Grouping.NonPositiveMinEmitsEmptyChunk`). The chunk and round-trip
  properties therefore assume `min_chars >= 1`.
- **Decoding errors.** A file that is not valid UTF-8 does not fall back to the
  example text. `read_file` re-raises only `FileNotFoundError` and `IOError`,
  and `main` catches only those (main.py:74-77, 100). A decoding error reaches
  the top-level handler instead (`Driver.Run`).
- **Output name.** The output name is the path up to its first dot, directory
  part included, plus `.wav`. So `./talk.txt` gives `.wav`
  (`Driver.DotSlashOutName`), and `v1.2/talk.txt` gives `v1.wav`
  (`Driver.BaseNameBeforeFirstDot`).

## Model

| member | source | states |
|---|---|---|
| `Normalization.SourceTableValid` | main.py:20-25 | The table's keys (curly quotes, both dashes, no-break space) are all characters that line 30 would delete. Its values are printable ASCII. Both dashes map to one `-`, and the no-break space maps to a space. |
| `Normalization.Lookup` | main.py:20-27 | Under a valid table a kept character maps to itself, and a character that changes becomes printable ASCII. |
| `Normalization.ApplyTable` | main.py:26-27 | The table's replacements keep the length of the text. |
| `Normalization.ApplyTableIsLookup` | main.py:26-27 | The sequential `str.replace` calls, one per table entry, act as one simultaneous character mapping, because no value is a key. |
| `Text.ReplaceAll` | main.py:27 | `str.replace` for one character: the length is kept and every occurrence of the target, and only those, becomes the replacement. |
| `Normalization.DeleteUnkept` | main.py:30 | The result holds only characters in `\x20-\x7E`, `\n`, `\r`, `\t`; input already made of those is unchanged; the result is blank exactly when every kept input character is whitespace. |
| `Normalization.DeleteUnkeptOne` | main.py:30 | One character is kept when it is printable ASCII, `\n`, `\r` or `\t`, and deleted otherwise. |
| `Normalization.DeleteUnkeptConcat` | main.py:30 | Deletion distributes over concatenation, so every kept character survives, in its order. |
| `Normalization.NonSpaceDeleteUnkept` | main.py:30 | The non-whitespace characters left by the deletion are exactly the kept non-whitespace characters of the input, in order. |
| `Normalization.CollapseSpaces` | main.py:31 | After `re.sub(r'\s+', ' ', …)` every whitespace character is a space, no two spaces are adjacent, the output is blank exactly when the input is, and kept-only input gives printable output. |
| `Normalization.CollapseSpacesRun` | main.py:31 | A non-empty run of whitespace becomes exactly one space. |
| `Normalization.CollapseSpacesAround` | main.py:31 | A non-whitespace character is left in place, and the text on each side of it is collapsed on its own. |
| `Normalization.NonSpaceCollapse` | main.py:31 | Collapsing whitespace keeps every non-whitespace character, in order. |
| `Text.Strip` | main.py:31 | A non-empty result of `strip()` starts and ends with a non-whitespace character. |
| `Text.StripEmptyIff` | main.py:31 | `strip()` returns the empty string exactly for all-whitespace input. |
| `Text.DropSpacesRemovesSpaces` | main.py:31 | The leading part that `strip()` removes is all whitespace. |
| `Text.DropTrailingSpacesRemovesSpaces` | main.py:31 | The trailing part that `strip()` removes is all whitespace. |
| `Text.StripIsInfix` | main.py:31 | The stripped text is a contiguous infix of its input. |
| `Text.NonSpaceStrip` | main.py:31 | `strip()` removes whitespace only: every non-whitespace character stays, in order. |
| `Normalization.Normalize` | main.py:20-31 | Normalised text is printable ASCII only (no tab, newline or non-ASCII), has no leading or trailing space and no two adjacent spaces. |
| `Normalization.NormalizeVisible` | main.py:20-31 | With its spaces removed, the normalised text is the sequence of table-mapped characters that line 30 keeps and that are not whitespace, in order. So no visible character, and in particular no `.`, `!` or `?`, is dropped, added or moved. |
| `Normalization.NormalizeFixesNormalized` | main.py:20-31 | Text that already has the normalised shape passes through lines 20-31 unchanged. |
| `Normalization.NormalizeIdempotent` | main.py:20-31 | Normalising twice equals normalising once, for every valid table. |
| `Normalization.NormalizeEmptyIff` | main.py:26-31 | Normalisation yields the empty string exactly when every input character is deleted by line 30 or is whitespace after the table (empty, blank or only deleted characters). |
| `Sentences.FirstBoundary` | main.py:34 | The leftmost place at or after a position where a whitespace run follows `.`, `!` or `?`, with no such place before it. |
| `Sentences.Split` | main.py:34 | `re.split` on the look-behind pattern returns at least one piece. |
| `Sentences.SplitPieces` | main.py:34 | No piece contains a split point: every whitespace run after `.`, `!` or `?` was cut. |
| `Sentences.SplitWhole` | main.py:34 | The text comes back as a single sentence exactly when it has no terminal punctuation followed by whitespace. |
| `Sentences.SplitNormalized` | main.py:34 | On normalised text, the pieces joined with single spaces give the text back, and every piece but the last ends in `.`, `!` or `?`. Empty text gives one empty piece. Otherwise every piece is non-empty and normalised. |
| `Grouping.Step` | main.py:39-49 | A blank sentence leaves the state alone. Any other sentence, followed by one space, either extends `current` or starts it afresh. `lines` only grows, by at most one chunk. A chunk is flushed only when the sentence does not fit within `max_chars` and the stripped chunk has at least `min_chars` characters; the flushed chunk is the stripped `current`, and the sentence starts the next one. |
| `Grouping.StepKeepsSentence` | main.py:39-49 | After a non-blank sentence, `current` is not blank. |
| `Grouping.Fold` | main.py:37-49 | After the loop, `lines` holds at most one chunk per sentence. |
| `Grouping.Flush` | main.py:51-52 | The final flush adds at most one chunk, and adds none exactly when `current` is blank. The chunk it adds is the stripped `current`, with no whitespace at either end. |
| `Grouping.Group` | main.py:37-52 | There are at most one more chunk than sentences. |
| `Grouping.GroupLastChunk` | main.py:37-52 | When the last sentence is not blank, the loop emits at least one chunk and the last one is not empty, whatever `min_chars` and `max_chars` are. |
| `Grouping.GroupSentences` | main.py:37-52 | The loop, appending to `lines` and accumulating `current`, returns exactly the chunks of the fold of its body over the sentences, plus the final flush. |
| `Grouping.Pack` | main.py:37-52 | The sentence groups hold every sentence once and in order, and no group is empty. A sentence joins a group only if it fits or the group is still short. A group is closed only when the next sentence is not admitted. Every group but the last reaches `min_chars`. |
| `Grouping.GroupIsChunksOfPack` | main.py:37-52 | For clean sentences and `min_chars >= 1`, the loop's chunks are the sentence groups of `Pack`, each joined with single spaces. |
| `Grouping.GroupedChunks` | main.py:37-54 | The chunks joined with spaces give the sentences joined with spaces, so no sentence is dropped, repeated or reordered. No chunk is empty or starts or ends with a space. Every chunk but the last has at least `min_chars` characters. There are no chunks exactly when there are no sentences. |
| `Grouping.LongChunkCause` | main.py:42-49 | A chunk of at least `max_chars` characters is a single sentence, or its last sentence joined it while it was shorter than `min_chars`. |
| `Grouping.ShortChunkAbsorbsNextSentence` | main.py:42-49 | A sentence meeting a chunk shorter than `min_chars` is appended whatever its length, so an over-long sentence need not stand alone. |
| `Grouping.NonPositiveMinEmitsEmptyChunk` | main.py:45-46 | With `min_chars <= 0`, a first sentence that does not fit makes the loop emit an empty chunk before it. |
| `Sanitizer.GroupOfEmptyPiece` | main.py:39-41 | The single empty piece that empty text splits into is skipped, leaving no chunk. |
| `Sanitizer.Lines` | main.py:33-52 | There is at most one more chunk than sentences. |
| `Text.Join` | main.py:54 | `"\n".join(lines)` is empty exactly when there are no lines or a single empty one. |
| `Sanitizer.SanitizeAndPrepare` | main.py:6-54 | Normalise, split, run the grouping loop and join with newlines. For `min_chars >= 1`, replacing each newline of the result with a space gives back the normalised text. |
| `Sanitizer.LinesShape` | main.py:37-54 | For `min_chars >= 1`, the chunks joined with spaces are the normalised text. Every chunk is non-empty, printable and has no space at either end. Every chunk but the last has at least `min_chars` characters. There are no chunks exactly when the normalised text is empty. |
| `Sanitizer.LinesArePacked` | main.py:42-49 | For `min_chars >= 1` and text that does not normalise to the empty string, the output chunks are the joined groups of `Pack`, so they obey its admission and closing rules. |
| `Sanitizer.SanitizeRoundTrip` | main.py:6-54 | Round trip: replacing each `\n` of the output with one space reproduces the normalised text exactly. |
| `Sanitizer.SanitizeEmptyIff` | main.py:6-54 | For every `min_chars` and `max_chars`, the output is the empty string exactly when every input character is deleted by line 30 or is whitespace after the table (empty, blank or only deleted characters). |
| `Driver.BaseName` | main.py:98 | `path.split(".")[0]` is the longest prefix of the path without a dot, and the whole path when it has no dot. |
| `Driver.BaseNameAt` | main.py:98 | The prefix ending at the first dot is the only prefix with the properties of `BaseName`. |
| `Driver.BaseNameBeforeFirstDot` | main.py:98 | For a path `dir.rest` where `dir` has no dot, the output name is `dir`, directory part included. |
| `Driver.DotSlashOutName` | main.py:98 | A path written `./…` gives the output file name `.wav`. |
| `Driver.Finish` | main.py:117-128 | Finishing never fails. When it synthesises, the text is not empty and the file is `out_name` plus `.wav`. |
| `Driver.Run` | main.py:95-128 | The run fails exactly when a path is given and its contents cannot be decoded, because main.py:100 catches only I/O errors. When it synthesises, the text is not empty and the file is the path's base name plus `.wav` if the file was read, and `example_output.wav` otherwise. |
| `Driver.FinishOutcome` | main.py:117-128 | Synthesis is skipped exactly when the text normalises to nothing; otherwise the sanitised text is written to `out_name.wav`. |
| `Driver.FileRun` | main.py:95-98 | With a readable file, the run synthesises exactly when the file's text is not silent, and it then writes to the path's base name plus `.wav`. |
| `Driver.ExampleNotSilent` | main.py:107-112 | The built-in example text has visible characters under every valid table. |
| `Driver.FallbackSynthesizes` | main.py:100-113 | With no path, or when reading fails with an I/O error, the example text is synthesised to `example_output.wav`. |

## Left out

- Device selection with `torch.cuda.is_available()` (main.py:87) is a hardware query. It does not affect the text, so the model leaves it out.
- Loading the TTS model and `tts.tts_to_file` (main.py:92, 128) call a third-party library. The model stops at the text and file name handed to that call (`Driver.Outcome.Synthesize`).
- `read_file` (main.py:56-77) is file I/O. Its result is a parameter of `Driver.Run`: the contents, an I/O error, or a decoding error.
- Command-line handling, the `KeyboardInterrupt` and `Exception` handlers and all `print` logging (main.py:88-142) are process glue. The model keeps only the decision they lead to: an exception reaching main.py:141 is `Driver.Outcome.Failed`, and a missing argument is the empty path.
- Python's Unicode `\s` and a general regex engine are not modelled. The two patterns are hand-coded over ASCII, which is all that remains after main.py:30.
- The `SanitizeRoundTrip` and `LinesShape` properties need `min_chars >= 1`. For `min_chars <= 0` the code can emit an empty chunk, which `NonPositiveMinEmitsEmptyChunk` shows.
- Python's `str` is a sequence of code points. The model uses Dafny's `char`, whose values are Unicode scalar values, so lone surrogates are not represented.
