/** The decisions `main` makes around the sanitiser (main.py:95-129): which text to use, whether to synthesise, and the output file name. */
module Driver {
  import opened Chars
  import opened Normalization
  import opened Sanitizer

  /** The built-in example text of main.py:107-112, whitespace included. */
  const ExampleText: string :=
    "\n        This is a longer English text to demonstrate the text-to-speech capabilities. \n"
    + "        The system can handle multiple sentences and will generate natural-sounding speech.\n"
    + "        You can use this script to convert any text file to speech, or run it without arguments to hear this example.\n"
    + "        The text processing function will automatically split long texts into optimal chunks for better speech synthesis.\n"
    + "        "

  /** The output name used with the example text (main.py:113). */
  const ExampleOutName: string := "example_output"

  /** The default chunk bounds of main.py:6, used by the call at main.py:117. */
  const DefaultMinChars: int := 100
  const DefaultMaxChars: int := 300

  /**
   * What reading the input file gives `main`: its contents; an I/O failure,
   * which `read_file` re-raises as `FileNotFoundError` or `IOError` and
   * main.py:100 catches; or a decoding failure, which neither catches.
   */
  datatype ReadResult = Contents(text: string) | IOFailure | DecodeFailure

  /** What a run ends in. */
  datatype Outcome =
    | Synthesize(text: string, outputFile: string)  // main.py:126-128
    | NoContent                                     // main.py:119-121
    | Failed                                        // an exception reaching main.py:141

  /**
   * `path.split(".")[0]` (main.py:98): the longest prefix of `path` without a
   * dot, which is all of `path` when it has no dot.
   */
  function BaseName(path: string): (r: string)
    ensures |r| <= |path| && r == path[..|r|]
    ensures '.' !in r
    ensures |r| < |path| ==> path[|r|] == '.'
    ensures '.' !in path ==> r == path
  {
    if path == [] || path[0] == '.' then [] else [path[0]] + BaseName(path[1..])
  }

  /** `BaseName` is the prefix that ends at the first dot, or the whole path when there is none. */
  lemma {:induction false} BaseNameAt(path: string, k: nat)
    requires k <= |path| && '.' !in path[..k]
    requires k < |path| ==> path[k] == '.'
    ensures BaseName(path) == path[..k]
    decreases k
  {
    if k > 0 {
      assert path[0] in path[..k];
      assert path[1..][..k - 1] == path[1..k];
      assert '.' !in path[1..][..k - 1] by {
        forall c | c in path[1..][..k - 1] ensures c in path[..k] {
        }
      }
      BaseNameAt(path[1..], k - 1);
      assert path[..k] == [path[0]] + path[1..k];
    }
  }

  /** A path in the working directory written with a leading `./` gives the output name `.wav` (main.py:98, 126). */
  lemma DotSlashOutName(rest: string)
    ensures BaseName("./" + rest) + ".wav" == ".wav"
  {
    assert ("./" + rest)[0] == '.';
  }

  /** The output name is everything before the first dot, directory part included (main.py:98). */
  lemma BaseNameBeforeFirstDot(dir: string, rest: string)
    requires '.' !in dir
    ensures BaseName(dir + "." + rest) == dir
  {
    var p := dir + "." + rest;
    assert p[..|dir|] == dir;
    BaseNameAt(p, |dir|);
  }

  /** Whether `main` takes its text from the file: a non-empty path (main.py:95) whose reading did not raise. */
  predicate UsesFile(path: string, read: ReadResult) {
    path != "" && read.Contents?
  }

  /**
   * main.py:95-129 without device selection, model loading and logging. An
   * empty `path` stands for a missing argument: Python treats `None` and ""
   * alike at main.py:95 and 105. `read` is consulted only when a path is given.
   */
  function Run(path: string, read: ReadResult, table: Table): (r: Outcome)
    ensures r.Failed? <==> path != "" && read.DecodeFailure?
    ensures r.Synthesize? ==>
              r.text != [] && r.outputFile == (if UsesFile(path, read) then BaseName(path) else ExampleOutName) + ".wav"
  {
    if path != "" && read.DecodeFailure? then Failed
    else if UsesFile(path, read) then Finish(read.text, BaseName(path), table)
    else Finish(ExampleText, ExampleOutName, table)
  }

  /** main.py:117-128 for the chosen text and output name. */
  function Finish(text: string, outName: string, table: Table): (r: Outcome)
    ensures !r.Failed?
    ensures r.Synthesize? ==> r.text != [] && r.outputFile == outName + ".wav"
  {
    var processed := Sanitize(text, table, DefaultMinChars, DefaultMaxChars);
    if processed == "" then NoContent else Synthesize(processed, outName + ".wav")
  }

  /** Synthesis is skipped exactly for silent text; otherwise the chunks go to `outName.wav`. */
  lemma FinishOutcome(text: string, outName: string, table: Table)
    requires ValidTable(table)
    ensures Finish(text, outName, table) == NoContent <==> Silent(text, table)
    ensures !Silent(text, table) ==>
              Finish(text, outName, table) == Synthesize(Sanitize(text, table, DefaultMinChars, DefaultMaxChars), outName + ".wav")
  {
    SanitizeEmptyIff(text, table, DefaultMinChars, DefaultMaxChars);
  }

  /**
   * With a readable file, the run synthesises exactly when the file's text is
   * not silent, and then writes the text's chunks to the path's base name plus
   * `.wav` (main.py:97-98, 117-128).
   */
  lemma FileRun(path: string, text: string, table: Table)
    requires ValidTable(table) && path != ""
    ensures Run(path, Contents(text), table) == NoContent <==> Silent(text, table)
    ensures !Silent(text, table) ==>
              Run(path, Contents(text), table) == Synthesize(Sanitize(text, table, DefaultMinChars, DefaultMaxChars), BaseName(path) + ".wav")
  {
    FinishOutcome(text, BaseName(path), table);
  }

  /** The example text is not silent, so the fallback always synthesises to `example_output.wav` (main.py:105-128). */
  lemma FallbackSynthesizes(path: string, read: ReadResult, table: Table)
    requires ValidTable(table)
    requires path == "" || read.IOFailure?
    ensures Run(path, read, table) == Synthesize(Sanitize(ExampleText, table, DefaultMinChars, DefaultMaxChars), ExampleOutName + ".wav")
  {
    ExampleNotSilent(table);
    FinishOutcome(ExampleText, ExampleOutName, table);
  }

  /** The example text keeps at least one visible character under any valid table. */
  lemma ExampleNotSilent(table: Table)
    requires ValidTable(table)
    ensures !Silent(ExampleText, table)
  {
    assert ExampleText[85] == '.';
    assert IsKept('.') && !IsSpace('.');
  }

  /** A decoding failure is not caught by `main` (main.py:100 names only `FileNotFoundError` and `IOError`), so nothing is synthesised. */
  lemma DecodeFailureAborts(path: string, table: Table)
    requires path != ""
    ensures Run(path, DecodeFailure, table) == Failed
  {
  }
}
