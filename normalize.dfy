/** Stage 1 of the sanitiser: character normalisation (main.py:19-31). */
module Normalization {
  import opened Chars
  import opened Text

  /**
   * The replacement table of main.py:20-25 as (key, value) pairs, applied in
   * order. Every key lies outside the class kept by the deletion pass and every
   * value is printable ASCII.
   */
  type Table = seq<(char, char)>

  predicate ValidTable(table: Table) {
    forall i :: 0 <= i < |table| ==> !IsKept(table[i].0) && IsPrintable(table[i].1)
  }

  /**
   * One instance of the table: a curly double quote, both curly single quotes,
   * the em and en dash and the no-break space. Which of the two curly double
   * quotes is the key is not recoverable from main.py:21; U+201C is used here.
   */
  const SourceTable: Table := [
    ('\U{201C}', '"'),
    ('\U{2018}', '\''), ('\U{2019}', '\''),
    ('\U{2014}', '-'), ('\U{2013}', '-'),
    ('\U{00A0}', ' ')
  ]

  lemma SourceTableValid()
    ensures ValidTable(SourceTable)
    ensures Lookup('\U{2014}', SourceTable) == '-' && Lookup('\U{2013}', SourceTable) == '-'
    ensures Lookup('\U{00A0}', SourceTable) == ' '
  {
  }

  /** The loop of main.py:26-27: one `str.replace` per table entry, in table order. */
  function ApplyTable(s: string, table: Table): (r: string)
    ensures |r| == |s|
    decreases |table|
  {
    if table == [] then s else ApplyTable(ReplaceAll(s, table[0].0, table[0].1), table[1..])
  }

  /** What a single character becomes under the table: the value of its first entry, else itself. */
  function Lookup(c: char, table: Table): (d: char)
    ensures ValidTable(table) && IsKept(c) ==> d == c
    ensures ValidTable(table) && d != c ==> IsPrintable(d)
  {
    if table == [] then c
    else if table[0].0 == c then table[0].1
    else Lookup(c, table[1..])
  }

  /**
   * Because no value is a key, the sequential replacements act as one
   * simultaneous character mapping.
   */
  lemma {:induction false} ApplyTableIsLookup(s: string, table: Table)
    requires ValidTable(table)
    ensures forall i :: 0 <= i < |s| ==> ApplyTable(s, table)[i] == Lookup(s[i], table)
    decreases |table|
  {
    if table != [] {
      var t := ReplaceAll(s, table[0].0, table[0].1);
      ApplyTableIsLookup(t, table[1..]);
    }
  }

  /** main.py:30: delete every character outside `\x20-\x7E`, `\n`, `\r`, `\t`. */
  function DeleteUnkept(s: string): (r: string)
    ensures |r| <= |s|
    ensures forall i :: 0 <= i < |r| ==> IsKept(r[i])
    ensures (forall i :: 0 <= i < |s| ==> IsKept(s[i])) ==> r == s
    ensures AllSpace(r) <==> KeptAreSpaces(s)
  {
    if s == [] then []
    else
      var rest := DeleteUnkept(s[1..]);
      assert KeptAreSpaces(s) <==> (IsKept(s[0]) ==> IsSpace(s[0])) && KeptAreSpaces(s[1..]) by {
        if KeptAreSpaces(s[1..]) && (IsKept(s[0]) ==> IsSpace(s[0])) {
          forall i | 0 <= i < |s| && IsKept(s[i]) ensures IsSpace(s[i]) {
            if i > 0 { assert s[i] == s[1..][i - 1]; }
          }
        }
      }
      if IsKept(s[0]) then
        AllSpaceCons(s[0], rest);
        [s[0]] + rest
      else
        rest
  }

  /** Every character that the deletion pass keeps is whitespace. */
  predicate KeptAreSpaces(s: string) {
    forall i :: 0 <= i < |s| ==> IsKept(s[i]) ==> IsSpace(s[i])
  }

  /** The substitution of main.py:31: every whitespace run becomes one space. */
  function CollapseSpaces(s: string): (r: string)
    ensures forall i :: 0 <= i < |r| ==> IsSpace(r[i]) ==> r[i] == ' '
    ensures NoDoubleSpace(r)
    ensures s != [] && !IsSpace(s[0]) ==> r != [] && r[0] == s[0]
    ensures (forall i :: 0 <= i < |s| ==> IsKept(s[i])) ==> AllPrintable(r)
    ensures AllSpace(r) <==> AllSpace(s)
    decreases |s|
  {
    if s == [] then []
    else if IsSpace(s[0]) then
      var d := DropSpaces(s);
      var rest := CollapseSpaces(d);
      assert AllSpace(d) <==> d == [];
      assert AllSpace(s) <==> d == [] by {
        DropSpacesRemovesSpaces(s);
        if d != [] {
          assert s[|s| - |d|] == d[0];
        }
      }
      AllSpaceCons(' ', rest);
      NoDoubleSpaceCons(' ', rest);
      [' '] + rest
    else
      var rest := CollapseSpaces(s[1..]);
      NoDoubleSpaceCons(s[0], rest);
      [s[0]] + rest
  }

  /** Deletion acts character by character: a kept character stays, any other goes. */
  lemma DeleteUnkeptOne(c: char)
    ensures DeleteUnkept([c]) == if IsKept(c) then [c] else []
  {
    assert [c][1..] == [];
  }

  /** Deletion distributes over concatenation, so the kept characters survive in their order. */
  lemma {:induction false} DeleteUnkeptConcat(a: string, b: string)
    ensures DeleteUnkept(a + b) == DeleteUnkept(a) + DeleteUnkept(b)
    decreases |a|
  {
    if a == [] {
      assert a + b == b;
    } else {
      assert (a + b)[0] == a[0];
      assert (a + b)[1..] == a[1..] + b;
      DeleteUnkeptConcat(a[1..], b);
    }
  }

  /** A non-empty whitespace run becomes exactly one space. */
  lemma CollapseSpacesRun(s: string)
    requires s != [] && AllSpace(s)
    ensures CollapseSpaces(s) == " "
  {
    assert IsSpace(s[0]);
    DropSpacesAllSpace(s);
  }

  /** A non-whitespace character is left alone and separates the collapsing on its two sides. */
  lemma {:induction false} CollapseSpacesAround(a: string, x: char, b: string)
    requires !IsSpace(x)
    ensures CollapseSpaces(a + [x] + b) == CollapseSpaces(a) + [x] + CollapseSpaces(b)
    decreases |a|
  {
    if a == [] {
      assert a + [x] + b == [x] + b && ([x] + b)[1..] == b;
    } else if IsSpace(a[0]) {
      CollapseLeadingRun(a, [x] + b);
      CollapseSpacesAround(DropSpaces(a), x, b);
      CollapseAroundRun(a, x, b);
    } else {
      CollapseSpacesAround(a[1..], x, b);
      CollapseAroundVisible(a, x, b);
    }
  }

  /** The inductive step of `CollapseSpacesAround` when `a` starts with whitespace. */
  lemma CollapseAroundRun(a: string, x: char, b: string)
    requires a != [] && IsSpace(a[0]) && !IsSpace(x)
    requires CollapseSpaces(DropSpaces(a) + [x] + b) == CollapseSpaces(DropSpaces(a)) + [x] + CollapseSpaces(b)
    ensures CollapseSpaces(a + [x] + b) == CollapseSpaces(a) + [x] + CollapseSpaces(b)
  {
    var d := DropSpaces(a);
    Assoc3(a, [x], b);
    Assoc3(d, [x], b);
    CollapseLeadingRun(a, [x] + b);
    SeqAssoc([' '], CollapseSpaces(d), [x], CollapseSpaces(b));
  }

  lemma Assoc3(p: string, q: string, u: string)
    ensures p + q + u == p + (q + u)
  {
  }

  /** The inductive step of `CollapseSpacesAround` when `a` starts with another character. */
  lemma CollapseAroundVisible(a: string, x: char, b: string)
    requires a != [] && !IsSpace(a[0]) && !IsSpace(x)
    requires CollapseSpaces(a[1..] + [x] + b) == CollapseSpaces(a[1..]) + [x] + CollapseSpaces(b)
    ensures CollapseSpaces(a + [x] + b) == CollapseSpaces(a) + [x] + CollapseSpaces(b)
  {
    var t := a[1..];
    assert a == [a[0]] + t;
    SeqAssoc([a[0]], t, [x], b);
    CollapseVisibleHead(a[0], t + [x] + b);
    CollapseVisibleHead(a[0], t);
    SeqAssoc([a[0]], CollapseSpaces(t), [x], CollapseSpaces(b));
  }

  lemma SeqAssoc(p: string, q: string, u: string, v: string)
    ensures p + (q + u + v) == p + q + u + v
  {
  }

  /** One unfolding of `CollapseSpaces` at a leading non-whitespace character. */
  lemma CollapseVisibleHead(c: char, t: string)
    requires !IsSpace(c)
    ensures CollapseSpaces([c] + t) == [c] + CollapseSpaces(t)
  {
    assert ([c] + t)[0] == c && ([c] + t)[1..] == t;
  }

  /** One unfolding of `CollapseSpaces` at a leading whitespace run that ends inside `a`. */
  lemma CollapseLeadingRun(a: string, t: string)
    requires a != [] && IsSpace(a[0])
    requires t == [] || !IsSpace(t[0])
    ensures CollapseSpaces(a + t) == [' '] + CollapseSpaces(DropSpaces(a) + t)
    ensures CollapseSpaces(a) == [' '] + CollapseSpaces(DropSpaces(a))
    ensures |DropSpaces(a)| < |a|
  {
    assert (a + t)[0] == a[0];
    DropSpacesAppend(a, t);
  }

  /** The characters of `s` that main.py:30 keeps and that are not whitespace, in order. */
  function Visible(s: string): string
  {
    if s == [] then [] else (if IsKept(s[0]) && !IsSpace(s[0]) then [s[0]] else []) + Visible(s[1..])
  }

  lemma {:induction false} NonSpaceDeleteUnkept(s: string)
    ensures NonSpace(DeleteUnkept(s)) == Visible(s)
    decreases |s|
  {
    if s != [] {
      NonSpaceDeleteUnkept(s[1..]);
      var rest := DeleteUnkept(s[1..]);
      if IsKept(s[0]) {
        assert ([s[0]] + rest)[0] == s[0] && ([s[0]] + rest)[1..] == rest;
      }
    }
  }

  lemma {:induction false} NonSpaceCollapse(s: string)
    ensures NonSpace(CollapseSpaces(s)) == NonSpace(s)
    decreases |s|
  {
    if s != [] {
      if IsSpace(s[0]) {
        var d := DropSpaces(s);
        var lead := s[..|s| - |d|];
        DropSpacesRemovesSpaces(s);
        assert s == lead + d;
        NonSpaceConcat(lead, d);
        NonSpaceAllSpace(lead);
        NonSpaceCollapse(d);
        var rest := CollapseSpaces(d);
        assert ([' '] + rest)[0] == ' ' && ([' '] + rest)[1..] == rest;
      } else {
        NonSpaceCollapse(s[1..]);
        var rest := CollapseSpaces(s[1..]);
        assert ([s[0]] + rest)[0] == s[0] && ([s[0]] + rest)[1..] == rest;
      }
    }
  }

  /** The shape of normalised text: printable ASCII, no space at either end, no two adjacent spaces. */
  predicate Normalized(s: string) {
    AllPrintable(s)
    && (s != [] ==> s[0] != ' ' && s[|s| - 1] != ' ')
    && NoDoubleSpace(s)
  }

  /** main.py:20-31: replace, delete, collapse and strip. Its result always has the normalised shape. */
  function Normalize(text: string, table: Table): (r: string)
    ensures Normalized(r)
  {
    var c := CollapseSpaces(DeleteUnkept(ApplyTable(text, table)));
    StripShape(c);
    Strip(c)
  }

  /**
   * Normalisation changes only whitespace: the non-whitespace characters of
   * its result are those of the table-mapped text that main.py:30 keeps, in
   * order. In particular `.`, `!` and `?` all survive where they were.
   */
  lemma NormalizeVisible(text: string, table: Table)
    ensures NonSpace(Normalize(text, table)) == Visible(ApplyTable(text, table))
  {
    var d := DeleteUnkept(ApplyTable(text, table));
    var c := CollapseSpaces(d);
    NonSpaceStrip(c);
    NonSpaceCollapse(d);
    NonSpaceDeleteUnkept(ApplyTable(text, table));
  }

  lemma {:induction false} CollapseSpacesFixes(s: string)
    requires forall i :: 0 <= i < |s| ==> IsSpace(s[i]) ==> s[i] == ' '
    requires NoDoubleSpace(s)
    ensures CollapseSpaces(s) == s
    decreases |s|
  {
    if s != [] {
      NoDoubleSpaceCons(s[0], s[1..]);
      assert [s[0]] + s[1..] == s;
      if IsSpace(s[0]) {
        assert DropSpaces(s) == s[1..] by {
          if |s| > 1 {
            assert !DoubleSpaceAt(s, 0);
            assert !IsSpace(s[1]);
            assert DropSpaces(s[1..]) == s[1..];
          }
        }
      }
      CollapseSpacesFixes(s[1..]);
    }
  }

  /** Text that already has the normalised shape passes through main.py:20-31 unchanged. */
  lemma NormalizeFixesNormalized(s: string, table: Table)
    requires ValidTable(table)
    requires Normalized(s)
    ensures Normalize(s, table) == s
  {
    ApplyTableIsLookup(s, table);
    assert ApplyTable(s, table) == s;
    assert DeleteUnkept(s) == s;
    CollapseSpacesFixes(s);
    StripClean(s);
  }

  /** Normalisation is idempotent. */
  lemma NormalizeIdempotent(text: string, table: Table)
    requires ValidTable(table)
    ensures Normalize(Normalize(text, table), table) == Normalize(text, table)
  {
    NormalizeFixesNormalized(Normalize(text, table), table);
  }

  /** Every character of `text` is deleted by main.py:30 or is whitespace once the table has been applied. */
  predicate Silent(text: string, table: Table) {
    forall i :: 0 <= i < |text| ==> IsKept(Lookup(text[i], table)) ==> IsSpace(Lookup(text[i], table))
  }

  /** Normalisation yields the empty string exactly for silent input (empty, blank, or only deleted characters). */
  lemma NormalizeEmptyIff(text: string, table: Table)
    requires ValidTable(table)
    ensures Normalize(text, table) == [] <==> Silent(text, table)
  {
    var a := ApplyTable(text, table);
    ApplyTableIsLookup(text, table);
    assert KeptAreSpaces(a) <==> Silent(text, table);
    var d := DeleteUnkept(a);
    var c := CollapseSpaces(d);
    assert Normalize(text, table) == Strip(c);
    StripEmptyIff(c);
  }
}
