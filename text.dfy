/**
 * The handful of Python `str` operations the log parser relies on:
 * `strip`, `rstrip`, `replace(c, '')`, `splitlines` and the `\s` class of
 * its regular expressions, restricted to ASCII text.
 */
module Text {

  /** The ASCII characters for which Python's `str.isspace()` holds; both
      `str.strip()` and the regular-expression class `\s` use this set. */
  predicate IsSpace(c: char)
  {
    c == ' ' || '\t' <= c <= '\r' || '\U{1C}' <= c <= '\U{1F}'
  }

  /** The ASCII characters at which `str.splitlines()` ends a line
      (a `\r` directly followed by `\n` ends one line, not two). */
  predicate IsLineBreak(c: char)
  {
    '\n' <= c <= '\r' || '\U{1C}' <= c <= '\U{1E}'
  }

  /** The narrower whitespace `int()` and `float()` skip around a number:
      tab, line feed, vertical tab, form feed, carriage return and space. */
  predicate IsNumberSpace(c: char)
  {
    c == ' ' || '\t' <= c <= '\r'
  }

  /** The characters an argument-less `strip()` removes, the whitespace a
      number may be surrounded by, or the single character given to
      `strip(c)` / `rstrip(c)`. */
  datatype StripSet = Spaces | NumberSpaces | Only(c: char)
  {
    predicate Has(x: char)
    {
      match this
      case Spaces => IsSpace(x)
      case NumberSpaces => IsNumberSpace(x)
      case Only(c) => x == c
    }
  }

  /** Index of the first line break in `s`, or `|s|`. */
  function LineEnd(s: string): (i: nat)
    ensures i <= |s|
    ensures forall k :: 0 <= k < i ==> !IsLineBreak(s[k])
    ensures i < |s| ==> IsLineBreak(s[i])
  {
    if s == [] || IsLineBreak(s[0]) then 0 else 1 + LineEnd(s[1..])
  }

  /** The end of the run of characters in `chars` that starts at `j`. */
  function SkipForward(s: string, j: nat, chars: StripSet): (e: nat)
    requires j <= |s|
    ensures j <= e <= |s|
    ensures e < |s| ==> !chars.Has(s[e])
    decreases |s| - j
  {
    if j < |s| && chars.Has(s[j]) then SkipForward(s, j + 1, chars) else j
  }

  lemma {:induction false} SkipForwardAllIn(s: string, j: nat, chars: StripSet)
    requires j <= |s|
    ensures forall k :: j <= k < SkipForward(s, j, chars) ==> chars.Has(s[k])
    decreases |s| - j
  {
    if j < |s| && chars.Has(s[j]) {
      SkipForwardAllIn(s, j + 1, chars);
    }
  }

  /** A run of characters in `chars` from `j` to a character outside
      them, or to the end, is skipped exactly. */
  lemma {:induction false} SkipForwardTo(s: string, j: nat, e: nat, chars: StripSet)
    requires j <= e <= |s|
    requires forall k :: j <= k < e ==> chars.Has(s[k])
    requires e == |s| || !chars.Has(s[e])
    ensures SkipForward(s, j, chars) == e
    decreases e - j
  {
    if j < e {
      SkipForwardTo(s, j + 1, e, chars);
    }
  }

  /** The start of the run of characters in `chars` that ends at `e`. */
  function SkipBackward(s: string, e: nat, chars: StripSet): (b: nat)
    requires e <= |s|
    ensures b <= e
    ensures b > 0 ==> !chars.Has(s[b - 1])
  {
    if e > 0 && chars.Has(s[e - 1]) then SkipBackward(s, e - 1, chars) else e
  }

  lemma {:induction false} SkipBackwardAllIn(s: string, e: nat, chars: StripSet)
    requires e <= |s|
    ensures forall k :: SkipBackward(s, e, chars) <= k < e ==> chars.Has(s[k])
  {
    if e > 0 && chars.Has(s[e - 1]) {
      SkipBackwardAllIn(s, e - 1, chars);
    }
  }

  /** Python `s.lstrip(chars)`: drop every leading character in `chars`. */
  function LStrip(s: string, chars: StripSet): (r: string)
    ensures |r| <= |s| && r == s[|s| - |r|..]
    ensures r == [] || !chars.Has(r[0])
  {
    s[SkipForward(s, 0, chars)..]
  }

  /** Every character `lstrip` drops is in `chars`. */
  lemma LStripDropped(s: string, chars: StripSet)
    ensures forall k :: 0 <= k < |s| - |LStrip(s, chars)| ==> chars.Has(s[k])
  {
    SkipForwardAllIn(s, 0, chars);
  }

  /** Python `s.rstrip(chars)`: drop every trailing character in `chars`. */
  function RStrip(s: string, chars: StripSet): (r: string)
    ensures |r| <= |s| && r == s[..|r|]
    ensures r == [] || !chars.Has(r[|r| - 1])
  {
    s[..SkipBackward(s, |s|, chars)]
  }

  /** Every character `rstrip` drops is in `chars`. */
  lemma RStripDropped(s: string, chars: StripSet)
    ensures forall k :: |RStrip(s, chars)| <= k < |s| ==> chars.Has(s[k])
  {
    SkipBackwardAllIn(s, |s|, chars);
  }

  /** Python `s.strip(chars)`: the longest middle slice of `s` that neither
      starts nor ends with a character in `chars`. */
  function Strip(s: string, chars: StripSet): (r: string)
    ensures |r| <= |s|
    ensures r == [] || (!chars.Has(r[0]) && !chars.Has(r[|r| - 1]))
  {
    RStrip(LStrip(s, chars), chars)
  }

  /** Python `s.strip()`. */
  function Trim(s: string): (r: string)
    ensures r == [] || (!IsSpace(r[0]) && !IsSpace(r[|r| - 1]))
  {
    Strip(s, Spaces)
  }

  /** What stripping leaves is a slice of the original, and it is empty
      exactly when every character of the original is stripped. */
  lemma StripIsSlice(s: string, chars: StripSet)
    ensures var a := |s| - |LStrip(s, chars)|;
      a + |Strip(s, chars)| <= |s| && Strip(s, chars) == s[a..a + |Strip(s, chars)|]
    ensures Strip(s, chars) == [] <==> forall k :: 0 <= k < |s| ==> chars.Has(s[k])
  {
    StripSlice(s, chars);
    StripEmptyIff(s, chars);
  }

  lemma StripSlice(s: string, chars: StripSet)
    ensures var a := |s| - |LStrip(s, chars)|;
      a + |Strip(s, chars)| <= |s| && Strip(s, chars) == s[a..a + |Strip(s, chars)|]
  {
    var l := LStrip(s, chars);
    var a := |s| - |l|;
    assert l == s[a..];
  }

  lemma StripEmptyIff(s: string, chars: StripSet)
    ensures Strip(s, chars) == [] <==> forall k :: 0 <= k < |s| ==> chars.Has(s[k])
  {
    var l := LStrip(s, chars);
    var a := |s| - |l|;
    if Strip(s, chars) == [] {
      LStripDropped(s, chars);
      RStripDropped(l, chars);
      assert l == [];
    } else {
      StripSlice(s, chars);
    }
  }

  /** Stripping whitespace brings in no character. */
  lemma TrimKeepsAbsent(s: string, c: char)
    requires c !in s
    ensures c !in Trim(s)
  {
    var r := Trim(s);
    StripSlice(s, Spaces);
    var a := |s| - |LStrip(s, Spaces)|;
    forall k | 0 <= k < |r| ensures r[k] != c {
      assert r[k] == s[a + k];
    }
  }

  /** Every character of a stripped text occurs in the original. */
  lemma StripKeepsChar(s: string, chars: StripSet, x: char)
    requires x in Strip(s, chars)
    ensures x in s
  {
    var r := Strip(s, chars);
    StripSlice(s, chars);
    var a := |s| - |LStrip(s, chars)|;
    var k :| 0 <= k < |r| && r[k] == x;
    assert s[a + k] == x;
  }

  /** A string whose end characters are not in `chars` is left as it is. */
  lemma StripUnchanged(s: string, chars: StripSet)
    requires s == [] || (!chars.Has(s[0]) && !chars.Has(s[|s| - 1]))
    ensures Strip(s, chars) == s
  {
  }

  /** Python `s.replace(c, '')`: every occurrence of `c` removed, the other
      characters kept in order. */
  function Remove(s: string, c: char): (r: string)
    ensures c !in r
    ensures |r| <= |s|
    ensures c !in s ==> r == s
  {
    if s == [] then []
    else (if s[0] == c then [] else [s[0]]) + Remove(s[1..], c)
  }

  /** Removing one character brings in no other. */
  lemma {:induction false} RemoveKeepsAbsent(s: string, c: char, x: char)
    requires x !in s
    ensures x !in Remove(s, c)
  {
    if s != [] {
      assert x !in s[1..];
      RemoveKeepsAbsent(s[1..], c, x);
    }
  }

  /** `replace(c, '')` keeps every other character, as often as it occurs. */
  lemma {:induction false} RemoveKeepsOthers(s: string, c: char)
    ensures multiset(Remove(s, c)) == multiset(s)[c := 0]
  {
    if s != [] {
      RemoveKeepsOthers(s[1..], c);
      assert s == [s[0]] + s[1..];
    }
  }

  /** `replace(c, '')` works piecewise, so the kept characters stay in order. */
  lemma {:induction false} RemoveConcat(a: string, b: string, c: char)
    ensures Remove(a + b, c) == Remove(a, c) + Remove(b, c)
  {
    if a != [] {
      RemoveConcat(a[1..], b, c);
      assert (a + b)[1..] == a[1..] + b;
    } else {
      assert a + b == b;
    }
  }

  /** Python `s.splitlines()` over the ASCII line boundaries: the pieces
      between line breaks, with no trailing empty piece for a final break. */
  function SplitLines(s: string): (lines: seq<string>)
    ensures lines == [] <==> s == []
    ensures forall k, j :: 0 <= k < |lines| && 0 <= j < |lines[k]| ==> !IsLineBreak(lines[k][j])
    decreases |s|
  {
    if s == [] then []
    else
      var i := LineEnd(s);
      if i == |s| then [s]
      else
        var next := if s[i] == '\r' && i + 1 < |s| && s[i + 1] == '\n' then i + 2 else i + 1;
        [s[..i]] + SplitLines(s[next..])
  }

  /** The text of `lines`, each followed by a `\n`: what `splitlines` undoes. */
  function JoinTerminated(lines: seq<string>): string
  {
    if lines == [] then [] else lines[0] + "\n" + JoinTerminated(lines[1..])
  }

  lemma LineEndAfterLine(line: string, rest: string)
    requires forall k :: 0 <= k < |line| ==> !IsLineBreak(line[k])
    ensures LineEnd(line + "\n" + rest) == |line|
  {
    assert (line + "\n" + rest)[|line|] == '\n';
  }

  /** Splitting text written one line per `\n` gives back exactly its lines. */
  lemma {:induction false} SplitJoinedLines(lines: seq<string>)
    requires forall k, j :: 0 <= k < |lines| && 0 <= j < |lines[k]| ==> !IsLineBreak(lines[k][j])
    ensures SplitLines(JoinTerminated(lines)) == lines
  {
    if lines != [] {
      var rest := JoinTerminated(lines[1..]);
      var s := lines[0] + "\n" + rest;
      LineEndAfterLine(lines[0], rest);
      assert s[|lines[0]| + 1..] == rest;
      SplitJoinedLines(lines[1..]);
      assert s[..|lines[0]|] == lines[0];
    }
  }
}
