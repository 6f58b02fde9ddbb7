/** String helpers: Python's `strip()`, `str.join` and single-character `str.replace`. */
module Text {
  import opened Chars

  /** A non-empty string that neither starts nor ends with whitespace. */
  predicate Clean(s: string) {
    s != [] && !IsSpace(s[0]) && !IsSpace(s[|s| - 1])
  }

  /** Every character is whitespace (true of the empty string). */
  predicate AllSpace(s: string) {
    forall i :: 0 <= i < |s| ==> IsSpace(s[i])
  }

  lemma AllSpaceCons(c: char, s: string)
    ensures AllSpace([c] + s) <==> IsSpace(c) && AllSpace(s)
  {
    assert ([c] + s)[0] == c;
    if AllSpace([c] + s) {
      forall i | 0 <= i < |s| ensures IsSpace(s[i]) {
        assert s[i] == ([c] + s)[i + 1];
      }
    }
    if IsSpace(c) && AllSpace(s) {
      forall i | 0 < i < |s| + 1 ensures IsSpace(([c] + s)[i]) {
        assert ([c] + s)[i] == s[i - 1];
      }
    }
  }

  /** Two spaces in a row start at position `i`. */
  predicate DoubleSpaceAt(s: string, i: int)
    requires 0 <= i < |s| - 1
  {
    s[i] == ' ' && s[i + 1] == ' '
  }

  /** No two adjacent spaces. */
  predicate NoDoubleSpace(s: string) {
    forall i :: 0 <= i < |s| - 1 ==> !DoubleSpaceAt(s, i)
  }

  lemma NoDoubleSpaceCons(c: char, s: string)
    ensures NoDoubleSpace([c] + s) <==> NoDoubleSpace(s) && (c == ' ' && s != [] ==> s[0] != ' ')
  {
    var t := [c] + s;
    assert forall i :: 0 <= i < |s| ==> t[i + 1] == s[i];
    if NoDoubleSpace(t) {
      forall i | 0 <= i < |s| - 1 ensures !DoubleSpaceAt(s, i) {
        assert !DoubleSpaceAt(t, i + 1);
      }
      if c == ' ' && s != [] {
        assert !DoubleSpaceAt(t, 0);
      }
    }
    if NoDoubleSpace(s) && (c == ' ' && s != [] ==> s[0] != ' ') {
      forall i | 0 <= i < |t| - 1 ensures !DoubleSpaceAt(t, i) {
        if i > 0 { assert !DoubleSpaceAt(s, i - 1); }
      }
    }
  }

  /** An infix keeps the absence of double spaces and the printability of its host. */
  lemma InfixShape(s: string, lo: int, hi: int)
    requires 0 <= lo <= hi <= |s|
    ensures NoDoubleSpace(s) ==> NoDoubleSpace(s[lo..hi])
    ensures AllPrintable(s) ==> AllPrintable(s[lo..hi])
  {
    var p := s[lo..hi];
    if NoDoubleSpace(s) {
      forall i | 0 <= i < |p| - 1 ensures !DoubleSpaceAt(p, i) {
        assert !DoubleSpaceAt(s, lo + i);
      }
    }
  }

  /** A prefix of a suffix is an infix. */
  lemma PrefixOfSuffix(s: string, lo: nat, n: nat)
    requires lo + n <= |s|
    ensures s[lo..][..n] == s[lo..lo + n]
  {
  }

  /** `Strip(s)` is the infix `s[lo..hi]`. */
  lemma StripIsInfix(s: string) returns (lo: nat, hi: nat)
    ensures lo <= hi <= |s| && Strip(s) == s[lo..hi]
  {
    var d := DropSpaces(s);
    var r := DropTrailingSpaces(d);
    lo := |s| - |d|;
    hi := lo + |r|;
    PrefixOfSuffix(s, lo, |r|);
  }

  /** Stripping keeps the absence of double spaces and printability. */
  lemma StripShape(s: string)
    ensures NoDoubleSpace(s) ==> NoDoubleSpace(Strip(s))
    ensures AllPrintable(s) ==> AllPrintable(Strip(s))
  {
    var lo, hi := StripIsInfix(s);
    InfixShape(s, lo, hi);
  }

  /** Every character is printable ASCII. */
  predicate AllPrintable(s: string) {
    forall i :: 0 <= i < |s| ==> IsPrintable(s[i])
  }

  /** Drops the maximal run of leading whitespace (`lstrip()`). */
  function DropSpaces(s: string): (r: string)
    ensures |r| <= |s| && r == s[|s| - |r|..]
    ensures r == [] || !IsSpace(r[0])
  {
    if s != [] && IsSpace(s[0]) then DropSpaces(s[1..]) else s
  }

  /** Everything `DropSpaces` removes is whitespace. */
  lemma {:induction false} DropSpacesRemovesSpaces(s: string)
    ensures forall i :: 0 <= i < |s| - |DropSpaces(s)| ==> IsSpace(s[i])
    decreases |s|
  {
    if s != [] && IsSpace(s[0]) {
      DropSpacesRemovesSpaces(s[1..]);
      forall i | 1 <= i < |s| - |DropSpaces(s)| ensures IsSpace(s[i]) {
        assert s[i] == s[1..][i - 1];
      }
    }
  }

  /** Drops the maximal run of trailing whitespace (`rstrip()`). */
  function DropTrailingSpaces(s: string): (r: string)
    ensures |r| <= |s| && r == s[..|r|]
    ensures r == [] || !IsSpace(r[|r| - 1])
  {
    if s != [] && IsSpace(s[|s| - 1]) then DropTrailingSpaces(s[..|s| - 1]) else s
  }

  /** Everything `DropTrailingSpaces` removes is whitespace. */
  lemma {:induction false} DropTrailingSpacesRemovesSpaces(s: string)
    ensures forall i :: |DropTrailingSpaces(s)| <= i < |s| ==> IsSpace(s[i])
    decreases |s|
  {
    if s != [] && IsSpace(s[|s| - 1]) {
      DropTrailingSpacesRemovesSpaces(s[..|s| - 1]);
      forall i | |DropTrailingSpaces(s)| <= i < |s| - 1 ensures IsSpace(s[i]) {
        assert s[i] == s[..|s| - 1][i];
      }
    }
  }

  /** The leading whitespace of `a + t` is that of `a` when `t` does not start with whitespace. */
  lemma {:induction false} DropSpacesAppend(a: string, t: string)
    requires t == [] || !IsSpace(t[0])
    ensures DropSpaces(a + t) == DropSpaces(a) + t
    decreases |a|
  {
    if a == [] {
      assert a + t == t;
    } else {
      assert (a + t)[0] == a[0];
      if IsSpace(a[0]) {
        assert (a + t)[1..] == a[1..] + t;
        DropSpacesAppend(a[1..], t);
      }
    }
  }

  /** Whitespace-only text is dropped entirely. */
  lemma DropSpacesAllSpace(s: string)
    requires AllSpace(s)
    ensures DropSpaces(s) == []
  {
  }

  /** Python's `strip()`: the infix of `s` left after removing whitespace at both ends. */
  function Strip(s: string): (r: string)
    ensures r != [] ==> Clean(r)
  {
    var d := DropSpaces(s);
    DropTrailingSpaces(d)
  }

  /** `strip()` returns the empty string exactly for all-whitespace input. */
  lemma StripEmptyIff(s: string)
    ensures Strip(s) == [] <==> AllSpace(s)
  {
    var d := DropSpaces(s);
    DropSpacesRemovesSpaces(s);
    if d != [] {
      assert s[|s| - |d|] == d[0];
      DropTrailingSpacesRemovesSpaces(d);
    }
  }

  lemma StripClean(s: string)
    requires s == [] || Clean(s)
    ensures Strip(s) == s
  {
  }

  /** Stripping a clean string followed by one space gives the string back. */
  lemma StripCleanSpace(s: string)
    requires Clean(s)
    ensures Strip(s + " ") == s
  {
    var t := s + " ";
    assert t[0] == s[0] && t[|t| - 1] == ' ';
    assert DropSpaces(t) == t;
    assert t[..|t| - 1] == s;
    assert DropTrailingSpaces(s) == s;
  }

  lemma NotAllSpaceAppend(p: string, s: string)
    requires !AllSpace(s)
    ensures !AllSpace(p + s + " ")
  {
    var k :| 0 <= k < |s| && !IsSpace(s[k]);
    assert (p + s + " ")[|p| + k] == s[k];
  }

  /** The non-whitespace characters of `s`, in order. */
  function NonSpace(s: string): string
  {
    if s == [] then [] else (if IsSpace(s[0]) then [] else [s[0]]) + NonSpace(s[1..])
  }

  lemma {:induction false} NonSpaceConcat(a: string, b: string)
    ensures NonSpace(a + b) == NonSpace(a) + NonSpace(b)
    decreases |a|
  {
    if a == [] {
      assert a + b == b;
    } else {
      assert (a + b)[0] == a[0];
      assert (a + b)[1..] == a[1..] + b;
      NonSpaceConcat(a[1..], b);
    }
  }

  lemma {:induction false} NonSpaceAllSpace(s: string)
    requires AllSpace(s)
    ensures NonSpace(s) == []
    decreases |s|
  {
    if s != [] {
      AllSpaceCons(s[0], s[1..]);
      assert [s[0]] + s[1..] == s;
      NonSpaceAllSpace(s[1..]);
    }
  }

  /** Stripping removes whitespace only: the non-whitespace characters are kept, in order. */
  lemma NonSpaceStrip(s: string)
    ensures NonSpace(Strip(s)) == NonSpace(s)
  {
    NonSpaceDropSpaces(s);
    NonSpaceDropTrailingSpaces(DropSpaces(s));
  }

  lemma NonSpaceDropSpaces(s: string)
    ensures NonSpace(DropSpaces(s)) == NonSpace(s)
  {
    var d := DropSpaces(s);
    var lead := s[..|s| - |d|];
    DropSpacesRemovesSpaces(s);
    assert s == lead + d;
    NonSpaceConcat(lead, d);
    NonSpaceAllSpace(lead);
  }

  lemma NonSpaceDropTrailingSpaces(s: string)
    ensures NonSpace(DropTrailingSpaces(s)) == NonSpace(s)
  {
    var r := DropTrailingSpaces(s);
    var trail := s[|r|..];
    DropTrailingSpacesRemovesSpaces(s);
    assert s == r + trail;
    NonSpaceConcat(r, trail);
    NonSpaceAllSpace(trail);
  }

  /** Python's `sep.join(parts)` for a one-character separator. */
  function Join(parts: seq<string>, sep: char): (r: string)
    ensures r == [] <==> parts == [] || parts == [[]]
  {
    if |parts| == 0 then []
    else if |parts| == 1 then parts[0]
    else Join(parts[..|parts| - 1], sep) + [sep] + parts[|parts| - 1]
  }

  lemma {:induction false} JoinCons(p: string, rest: seq<string>, sep: char)
    requires rest != []
    ensures Join([p] + rest, sep) == p + [sep] + Join(rest, sep)
    decreases |rest|
  {
    if |rest| > 1 {
      var init := rest[..|rest| - 1];
      assert ([p] + rest)[..|rest|] == [p] + init;
      JoinCons(p, init, sep);
    } else {
      assert ([p] + rest)[..1] == [p];
    }
  }

  lemma JoinSnoc(parts: seq<string>, p: string, sep: char)
    requires parts != []
    ensures Join(parts + [p], sep) == Join(parts, sep) + [sep] + p
  {
    assert (parts + [p])[..|parts|] == parts;
  }

  lemma {:induction false} JoinAllPrintable(parts: seq<string>, sep: char)
    requires IsPrintable(sep)
    requires forall i :: 0 <= i < |parts| ==> AllPrintable(parts[i])
    ensures AllPrintable(Join(parts, sep))
    decreases |parts|
  {
    if |parts| > 1 {
      JoinAllPrintable(parts[..|parts| - 1], sep);
    }
  }

  lemma {:induction false} JoinClean(parts: seq<string>, sep: char)
    requires parts != []
    requires forall i :: 0 <= i < |parts| ==> Clean(parts[i])
    ensures Clean(Join(parts, sep))
    decreases |parts|
  {
    if |parts| > 1 {
      JoinClean(parts[..|parts| - 1], sep);
    }
  }

  /** Python's `s.replace(target, replacement)` for single characters: every occurrence is replaced. */
  function ReplaceAll(s: string, target: char, replacement: char): (r: string)
    ensures |r| == |s|
    ensures forall i :: 0 <= i < |s| ==> r[i] == if s[i] == target then replacement else s[i]
  {
    if s == [] then [] else [if s[0] == target then replacement else s[0]] + ReplaceAll(s[1..], target, replacement)
  }

  /** Replacing a separator that occurs in no part turns one join into the other. */
  lemma {:induction false} ReplaceSeparator(parts: seq<string>, a: char, b: char)
    requires forall i, j :: 0 <= i < |parts| && 0 <= j < |parts[i]| ==> parts[i][j] != a
    ensures ReplaceAll(Join(parts, a), a, b) == Join(parts, b)
    decreases |parts|
  {
    if |parts| == 1 {
      assert ReplaceAll(parts[0], a, b) == parts[0];
    } else if |parts| > 1 {
      var init, last := parts[..|parts| - 1], parts[|parts| - 1];
      ReplaceSeparator(init, a, b);
      var x := Join(init, a);
      assert ReplaceAll(last, a, b) == last;
      assert ReplaceAll(x + [a] + last, a, b) == ReplaceAll(x, a, b) + [b] + ReplaceAll(last, a, b);
    }
  }
}
