/**
 * What `RRCLogParser.clean_to_dict` computes: the record decoded from the
 * inner text of one brace block, as specification functions over lines.
 * The imperative decoder itself is `LogParser.RrcLogParser.CleanToDict`.
 */
module BlockDecoder {
  import opened Wrappers
  import opened Text
  import opened Numbers

  /** A decoded field value: Python `int`, `float` or `str`. A float is kept
      as the text `float()` accepted; the presence marker is the ordinary
      string "present". */
  datatype FieldValue = Int(i: int) | Float(text: string) | Str(s: string)

  /** One decoded block: field name to value. */
  type Record = map<string, FieldValue>

  /** What one line contributes to a record. */
  datatype Entry = Entry(key: string, value: FieldValue)

  /** The value given to a field named on a line of its own. */
  const Present: FieldValue := Str("present")

  /** Every character of `s` is whitespace, `c` or `d`. */
  predicate OnlySpaceOr(s: string, c: char, d: char)
  {
    s == [] || ((s[0] == c || s[0] == d || IsSpace(s[0])) && OnlySpaceOr(s[1..], c, d))
  }

  lemma {:induction false} OnlySpaceOrAt(s: string, c: char, d: char)
    ensures OnlySpaceOr(s, c, d) <==> forall k :: 0 <= k < |s| ==> s[k] == c || s[k] == d || IsSpace(s[k])
  {
    if s != [] {
      OnlySpaceOrAt(s[1..], c, d);
      assert forall k :: 1 <= k < |s| ==> s[k] == s[1..][k - 1];
    }
  }

  predicate IsBlank(c: char)
  {
    IsSpace(c) || c == '{' || c == '}'
  }

  /** Nothing but whitespace and braces. */
  predicate AllBlank(s: string)
  {
    forall k :: 0 <= k < |s| ==> IsBlank(s[k])
  }

  /** Cleaning of one line: strip, drop every trailing comma, delete every
      brace, strip again. */
  function CleanLine(line: string): (clean: string)
    ensures clean == [] || (!IsSpace(clean[0]) && !IsSpace(clean[|clean| - 1]))
  {
    Trim(Remove(Remove(RStrip(Trim(line), Only(',')), '{'), '}'))
  }

  /** No brace survives cleaning. */
  lemma CleanLineHasNoBraces(line: string)
    ensures '{' !in CleanLine(line) && '}' !in CleanLine(line)
  {
    var once := Remove(RStrip(Trim(line), Only(',')), '{');
    var noBraces := Remove(once, '}');
    RemoveKeepsAbsent(once, '}', '{');
    TrimKeepsAbsent(noBraces, '{');
    TrimKeepsAbsent(noBraces, '}');
  }

  /** A character at which a line splits: `\s` or `:`. */
  predicate IsSeparatorStart(c: char)
  {
    IsSpace(c) || c == ':'
  }

  /** Index of the first separator character in `s`, or `|s|`. */
  function SeparatorIndex(s: string): (i: nat)
    ensures i <= |s|
    ensures forall k :: 0 <= k < i ==> !IsSeparatorStart(s[k])
    ensures i < |s| ==> IsSeparatorStart(s[i])
  {
    if s == [] || IsSeparatorStart(s[0]) then 0 else 1 + SeparatorIndex(s[1..])
  }

  /** A text the regular expression `\s+|:\s*` matches as a whole: a run of
      whitespace, or a colon followed by optional whitespace. */
  predicate IsSeparator(sep: string)
  {
    && |sep| >= 1
    && IsSeparatorStart(sep[0])
    && forall k :: 1 <= k < |sep| ==> IsSpace(sep[k])
  }

  /** `re.split(r'\s+|:\s*', s, maxsplit=1)`: split at the leftmost
      separator, taken greedily; one part when there is none. */
  function SplitOnce(s: string): (parts: seq<string>)
    ensures |parts| == 1 || |parts| == 2
  {
    var i := SeparatorIndex(s);
    if i == |s| then [s] else [s[..i], s[SkipForward(s, i + 1, Spaces)..]]
  }

  /** The two parts are what surrounds the leftmost separator, and the
      separator extends as far as whitespace does; a text without a
      separator stays whole. */
  lemma SplitOnceParts(s: string)
    ensures |SplitOnce(s)| == 1 <==> forall k :: 0 <= k < |s| ==> !IsSeparatorStart(s[k])
    ensures |SplitOnce(s)| == 1 ==> SplitOnce(s)[0] == s
    ensures |SplitOnce(s)| == 2 ==> SplitOnceTwoParts(s, SplitOnce(s)[0], SplitOnce(s)[1])
  {
    var i := SeparatorIndex(s);
    if i < |s| {
      var key, rest := s[..i], s[SkipForward(s, i + 1, Spaces)..];
      SplitAtSeparator(s, i, rest);
      assert SplitOnce(s) == [key, rest];
      forall k | 0 <= k < |key| ensures !IsSeparatorStart(key[k]) {
        assert key[k] == s[k];
      }
      assert SplitOnceTwoParts(s, key, rest);
    } else {
      assert SplitOnce(s) == [s];
    }
  }

  /** `key` and `rest` are what surrounds the leftmost separator of `s`,
      and the separator extends as far as whitespace does. */
  predicate SplitOnceTwoParts(s: string, key: string, rest: string)
  {
    && |key| + |rest| < |s|
    && s[..|key|] == key
    && s[|s| - |rest|..] == rest
    && IsSeparator(s[|key|..|s| - |rest|])
    && (forall k :: 0 <= k < |key| ==> !IsSeparatorStart(key[k]))
    && (rest == [] || !IsSpace(rest[0]))
  }

  lemma SplitAtSeparator(s: string, i: nat, rest: string)
    requires i == SeparatorIndex(s) < |s| && rest == s[SkipForward(s, i + 1, Spaces)..]
    ensures i + |rest| < |s|
    ensures s[|s| - |rest|..] == rest
    ensures IsSeparator(s[i..|s| - |rest|])
  {
    var e := SkipForward(s, i + 1, Spaces);
    SkipForwardAllIn(s, i + 1, Spaces);
    var sep := s[i..e];
    assert forall k :: 1 <= k < |sep| ==> sep[k] == s[i + k];
  }

  /** Splitting `key sep rest` gives back `key` and `rest`. */
  lemma SplitOnceRoundTrip(key: string, sep: string, rest: string)
    requires forall k :: 0 <= k < |key| ==> !IsSeparatorStart(key[k])
    requires IsSeparator(sep)
    requires rest == [] || !IsSpace(rest[0])
    ensures SplitOnce(key + sep + rest) == [key, rest]
  {
    var s := key + sep + rest;
    var i, e := |key|, |key| + |sep|;
    assert s[i] == sep[0];
    assert forall k :: 0 <= k < i ==> s[k] == key[k];
    assert SeparatorIndex(s) == i;
    assert forall k :: i < k < e ==> s[k] == sep[k - i];
    assert e < |s| ==> s[e] == rest[0];
    SkipForwardTo(s, i + 1, e, Spaces);
    assert s[e..] == rest;
    assert s[..i] == key;
  }

  /** The typing step: `float(val) if '.' in val else int(val)`, falling
      back to the text itself where that raises `ValueError`. */
  function TypeValue(val: string): (v: FieldValue)
    ensures v.Int? ==> '.' !in val
    ensures v.Float? ==> '.' in val && v.text == val
    ensures v.Str? ==> v.s == val
  {
    if '.' in val then
      if ParsesAsFloat(val) then Float(val) else Str(val)
    else
      match ParseInt(val)
      case Some(n) => Int(n)
      case None => Str(val)
  }

  /** A value with a point is a float when Python's `float` accepts it, a
      value without one an integer when `int` accepts it, and any other
      value stays the text it was. */
  lemma TypeValueCases(val: string)
    ensures var t := Strip(val, NumberSpaces);
      TypeValue(val).Int? <==> '.' !in val && IsIntLiteral(t) && DigitCount(t) <= IntMaxStrDigits
    ensures TypeValue(val).Int? ==> ParseInt(val) == Some(TypeValue(val).i)
    ensures TypeValue(val).Float? <==> '.' in val && ParsesAsFloat(val)
    ensures TypeValue(val).Float? ==> TypeValue(val).text == val
    ensures TypeValue(val).Str? ==> TypeValue(val).s == val
  {
  }

  /** The field a cleaned, non-empty line assigns: the typed, unquoted
      value after the separator, or the presence marker. */
  function ParseClean(clean: string): (e: Entry)
    ensures |e.key| <= |clean| && e.key == clean[..|e.key|]
  {
    var parts := SplitOnce(clean);
    if |parts| == 2 then Entry(parts[0], TypeValue(Strip(parts[1], Only('"'))))
    else Entry(parts[0], Present)
  }

  /** What one raw line of a block contributes, if anything. */
  function LineEntry(line: string): (r: Option<Entry>)
    ensures r.Some? ==> '{' !in r.value.key && '}' !in r.value.key
  {
    var clean := CleanLine(line);
    if clean == [] then None
    else
      var e := ParseClean(clean);
      CleanLineHasNoBraces(line);
      PrefixKeepsAbsent(clean, e.key, '{');
      PrefixKeepsAbsent(clean, e.key, '}');
      Some(e)
  }

  lemma PrefixKeepsAbsent(s: string, prefix: string, c: char)
    requires c !in s && |prefix| <= |s| && prefix == s[..|prefix|]
    ensures c !in prefix
  {
    forall k | 0 <= k < |prefix| ensures prefix[k] != c {
      assert prefix[k] == s[k];
    }
  }

  /** The entry of each line, in order. */
  function LineEntries(lines: seq<string>): (entries: seq<Option<Entry>>)
    ensures |entries| == |lines|
    ensures forall k :: 0 <= k < |lines| ==> entries[k] == LineEntry(lines[k])
  {
    seq(|lines|, k requires 0 <= k < |lines| => LineEntry(lines[k]))
  }

  /** The entry assigns field `key`. */
  predicate Assigns(entry: Option<Entry>, key: string)
  {
    entry.Some? && entry.value.key == key
  }

  /** The record left by applying the entries in order, a later assignment
      to a field overwriting an earlier one. */
  function Assemble(entries: seq<Option<Entry>>): (rec: Record)
    ensures |rec| <= |entries|
  {
    if entries == [] then map[]
    else
      var before := Assemble(entries[..|entries| - 1]);
      match entries[|entries| - 1]
      case None => before
      case Some(e) => before[e.key := e.value]
  }

  /** The record decoded from a block's lines. */
  function DecodeLines(lines: seq<string>): (rec: Record)
    ensures |rec| <= |lines|
  {
    Assemble(LineEntries(lines))
  }

  /** `clean_to_dict(block_text)`. */
  function Decode(text: string): (rec: Record)
    ensures |rec| <= |SplitLines(text)|
  {
    if text == [] then map[] else DecodeLines(SplitLines(text))
  }

  /** Removing `c` from a text of whitespace, `c` and `d` leaves whitespace
      and `d`, and only such a text does. */
  lemma {:induction false} RemoveKeepsBlank(s: string, c: char, d: char)
    ensures OnlySpaceOr(Remove(s, c), d, d) <==> OnlySpaceOr(s, c, d)
  {
    if s != [] {
      RemoveKeepsBlank(s[1..], c, d);
      var tail := Remove(s[1..], c);
      if s[0] == c {
        assert Remove(s, c) == tail;
      } else {
        assert Remove(s, c) == [s[0]] + tail;
        assert ([s[0]] + tail)[1..] == tail;
      }
    }
  }

  /** A line is skipped exactly when, once stripped and rid of its trailing
      commas, nothing but whitespace and braces is left of it. */
  lemma CleanLineEmptyIff(line: string)
    ensures CleanLine(line) == [] <==> AllBlank(RStrip(Trim(line), Only(',')))
  {
    var stripped := RStrip(Trim(line), Only(','));
    var once := Remove(stripped, '{');
    var noBraces := Remove(once, '}');
    StripIsSlice(noBraces, Spaces);
    RemoveKeepsBlank(stripped, '{', '}');
    RemoveKeepsBlank(once, '}', '}');
    OnlySpaceOrAt(noBraces, '}', '}');
    OnlySpaceOrAt(stripped, '{', '}');
  }

  /** A line of nothing but whitespace and braces is skipped. */
  lemma BraceLineSkipped(line: string)
    requires AllBlank(line)
    ensures CleanLine(line) == []
  {
    var t := Trim(line);
    StripIsSlice(line, Spaces);
    var a := |line| - |LStrip(line, Spaces)|;
    assert AllBlank(RStrip(t, Only(','))) by {
      forall k | 0 <= k < |RStrip(t, Only(','))|
        ensures IsBlank(RStrip(t, Only(','))[k])
      {
        assert RStrip(t, Only(','))[k] == t[k] == line[a + k];
      }
    }
    CleanLineEmptyIff(line);
  }

  /** A line that, once stripped, is a run of commas is skipped. */
  lemma CommaLineSkipped(line: string)
    requires forall k :: 0 <= k < |Trim(line)| ==> Trim(line)[k] == ','
    ensures CleanLine(line) == []
  {
    assert RStrip(Trim(line), Only(',')) == [];
  }

  /** Entries that assign nothing assemble to the empty record. */
  lemma {:induction false} SkippedEntriesAssembleEmpty(entries: seq<Option<Entry>>)
    requires forall k :: 0 <= k < |entries| ==> entries[k] == None
    ensures Assemble(entries) == map[]
  {
    if entries != [] {
      SkippedEntriesAssembleEmpty(entries[..|entries| - 1]);
    }
  }

  /** Every line of a blank text is blank. */
  lemma {:induction false} SplitLinesOfBlank(s: string)
    requires AllBlank(s)
    ensures forall k :: 0 <= k < |SplitLines(s)| ==> AllBlank(SplitLines(s)[k])
    decreases |s|
  {
    if s != [] {
      var i := LineEnd(s);
      if i < |s| {
        var next := if s[i] == '\r' && i + 1 < |s| && s[i + 1] == '\n' then i + 2 else i + 1;
        assert AllBlank(s[next..]) by {
          forall k | 0 <= k < |s[next..]| ensures IsBlank(s[next..][k]) {
            assert s[next..][k] == s[next + k];
          }
        }
        SplitLinesOfBlank(s[next..]);
        assert AllBlank(s[..i]) by {
          forall k | 0 <= k < i ensures IsBlank(s[..i][k]) {
            assert s[..i][k] == s[k];
          }
        }
      }
    }
  }

  /** Empty text, and text of nothing but whitespace, line breaks and
      braces, decode to the empty record. */
  lemma BlankTextDecodesEmpty(text: string)
    requires AllBlank(text)
    ensures Decode(text) == map[]
  {
    if text != [] {
      var lines := SplitLines(text);
      SplitLinesOfBlank(text);
      forall k | 0 <= k < |lines| ensures LineEntry(lines[k]) == None {
        BraceLineSkipped(lines[k]);
      }
      SkippedEntriesAssembleEmpty(LineEntries(lines));
    }
  }

  /** A block decodes to the empty record exactly when every one of its
      lines cleans to nothing. */
  lemma SkippedLinesDecodeEmpty(text: string)
    ensures Decode(text) == map[] <==>
      forall k :: 0 <= k < |SplitLines(text)| ==> CleanLine(SplitLines(text)[k]) == []
  {
    if text != [] {
      SkippedLinesRecordEmpty(SplitLines(text));
    }
  }

  lemma SkippedLinesRecordEmpty(lines: seq<string>)
    ensures DecodeLines(lines) == map[] <==> forall k :: 0 <= k < |lines| ==> CleanLine(lines[k]) == []
  {
    var entries := LineEntries(lines);
    if forall k :: 0 <= k < |lines| ==> CleanLine(lines[k]) == [] {
      SkippedEntriesAssembleEmpty(entries);
    } else {
      var k :| 0 <= k < |lines| && CleanLine(lines[k]) != [];
      AssembledKeys(entries, entries[k].value.key);
    }
  }

  /** A block whose every line is blank or, once stripped, a run of commas
      decodes to the empty record; a line that mixes commas and braces,
      such as `,}`, is not covered, since cleaning leaves its comma. */
  lemma BlankOrCommaLinesDecodeEmpty(text: string)
    requires forall k :: 0 <= k < |SplitLines(text)| ==>
      var line := SplitLines(text)[k];
      AllBlank(line) || forall j :: 0 <= j < |Trim(line)| ==> Trim(line)[j] == ','
    ensures Decode(text) == map[]
  {
    var lines := SplitLines(text);
    forall k | 0 <= k < |lines| ensures CleanLine(lines[k]) == [] {
      if AllBlank(lines[k]) {
        BraceLineSkipped(lines[k]);
      } else {
        CommaLineSkipped(lines[k]);
      }
    }
    SkippedLinesDecodeEmpty(text);
  }

  /** Cleaning keeps the comma of `,}`: the brace goes only after the
      trailing commas are gone. */
  lemma CommaBraceLineKept()
    ensures CleanLine(",}") == ","
  {
    var t, c := ",}", ",";
    assert t == [','] + ['}'] && t[1..] == ['}'];
    assert Trim(t) == t by { StripUnchanged(t, Spaces); }
    assert SkipBackward(t, |t|, Only(',')) == |t|;
    assert RStrip(t, Only(',')) == t;
    assert Remove(t, '{') == t;
    assert Remove(['}'], '}') == [];
    assert Remove(t, '}') == c;
    assert Trim(c) == c by { StripUnchanged(c, Spaces); }
  }

  /** A line that cleaning leaves as it is. */
  predicate IsClean(line: string)
  {
    && (line == [] || (!IsSpace(line[0]) && !IsSpace(line[|line| - 1]) && line[|line| - 1] != ','))
    && '{' !in line && '}' !in line
  }

  lemma CleanLineUnchanged(line: string)
    requires IsClean(line)
    ensures CleanLine(line) == line
  {
    StripUnchanged(line, Spaces);
    assert RStrip(line, Only(',')) == line;
  }

  lemma CleanLineEntry(line: string)
    requires line != [] && IsClean(line)
    ensures LineEntry(line) == Some(ParseClean(line))
  {
    CleanLineUnchanged(line);
  }

  /** A cleaned line with no separator names a field on its own: the field
      gets the presence marker. */
  lemma SingleTokenIsPresent(line: string)
    requires line != [] && IsClean(line)
    requires forall k :: 0 <= k < |line| ==> !IsSeparatorStart(line[k])
    ensures LineEntry(line) == Some(Entry(line, Present))
  {
    CleanLineEntry(line);
    SplitOnceParts(line);
  }

  /** A cleaned line `key sep value` assigns the typed, unquoted `value` to
      `key`; `value` keeps any later spaces and colons. */
  lemma KeyValueLine(key: string, sep: string, value: string)
    requires IsClean(key + sep + value)
    requires forall k :: 0 <= k < |key| ==> !IsSeparatorStart(key[k])
    requires IsSeparator(sep)
    requires value == [] || !IsSpace(value[0])
    ensures LineEntry(key + sep + value) == Some(Entry(key, TypeValue(Strip(value, Only('"')))))
  {
    CleanLineEntry(key + sep + value);
    KeyValueParse(key, sep, value);
  }

  lemma KeyValueParse(key: string, sep: string, value: string)
    requires forall k :: 0 <= k < |key| ==> !IsSeparatorStart(key[k])
    requires IsSeparator(sep)
    requires value == [] || !IsSpace(value[0])
    ensures ParseClean(key + sep + value) == Entry(key, TypeValue(Strip(value, Only('"'))))
  {
    SplitOnceRoundTrip(key, sep, value);
  }

  /** A value that cannot start a number and holds no point stays the
      text it is. */
  lemma WordTypesAsString(w: string)
    requires w != [] && '.' !in w
    requires !IsDigit(w[0]) && !IsSign(w[0]) && !IsSpace(w[0]) && w[0] != '"'
    requires !IsSpace(w[|w| - 1]) && w[|w| - 1] != '"'
    ensures TypeValue(Strip(w, Only('"'))) == Str(w)
  {
    StripUnchanged(w, Only('"'));
    StripUnchanged(w, NumberSpaces);
    assert !IsIntLiteral(w);
    ParseIntAccepts(w);
  }

  /** The word "present" types as the string "present". */
  lemma PresentWordIsString()
    ensures TypeValue(Strip("present", Only('"'))) == Present
  {
    WordTypesAsString("present");
  }

  /** Because the marker is the string "present", a line `x` and a line
      `x present` decode to the same entry. */
  lemma PresentMarkerIsAString(x: string)
    requires x != [] && IsClean(x)
    requires forall k :: 0 <= k < |x| ==> !IsSeparatorStart(x[k])
    ensures LineEntry(x) == LineEntry(x + " " + "present")
  {
    SingleTokenIsPresent(x);
    PresentLineIsClean(x);
    KeyValueLine(x, " ", "present");
    PresentWordIsString();
  }

  lemma PresentLineIsClean(x: string)
    requires x != [] && IsClean(x)
    ensures IsClean(x + " " + "present")
  {
    var line := x + " " + "present";
    assert line[|line| - 1] == 't' && line[0] == x[0];
  }

  /** A line `key n`, with `n` an integer as Python prints it, assigns the
      integer `n` to `key` (so `t300 2000` sets `t300` to the int 2000);
      beyond 4300 digits `int` refuses it and the text is kept. */
  lemma IntValueLine(key: string, n: int)
    requires key != [] && '{' !in key && '}' !in key
    requires forall k :: 0 <= k < |key| ==> !IsSeparatorStart(key[k])
    ensures var digits := NatToDigits(if n < 0 then -n else n);
      LineEntry(key + " " + IntToText(n)) ==
        Some(Entry(key, if |digits| <= IntMaxStrDigits then Int(n) else Str(IntToText(n))))
  {
    var t := IntToText(n);
    var line := key + " " + t;
    assert t[0] == '-' || IsDigit(t[0]);
    assert IsDigit(t[|t| - 1]);
    assert '.' !in t && '{' !in t && '}' !in t by {
      forall k | 0 <= k < |t| ensures t[k] == '-' || IsDigit(t[k]) {
        if n < 0 {
          assert k > 0 ==> t[k] == NatToDigits(-n)[k - 1];
        }
      }
    }
    assert line[0] == key[0] && line[|line| - 1] == t[|t| - 1];
    assert '{' !in line && '}' !in line by {
      forall k | 0 <= k < |line| ensures line[k] != '{' && line[k] != '}' {
        if k < |key| {
          assert line[k] == key[k];
        } else if k > |key| {
          assert line[k] == t[k - |key| - 1];
        }
      }
    }
    KeyValueLine(key, " ", t);
    StripUnchanged(t, Only('"'));
    IntTextRoundTrip(n);
  }

  /** A line `key:` with nothing after the colon assigns the empty string. */
  lemma EmptyValueLine(key: string)
    requires key != [] && '{' !in key && '}' !in key
    requires forall k :: 0 <= k < |key| ==> !IsSeparatorStart(key[k])
    ensures LineEntry(key + ":") == Some(Entry(key, Str("")))
  {
    var line := key + ":" + "";
    assert line == key + ":";
    assert line[0] == key[0] && line[|line| - 1] == ':';
    assert '{' !in line && '}' !in line by {
      forall k | 0 <= k < |line| ensures line[k] != '{' && line[k] != '}' {
        if k < |key| {
          assert line[k] == key[k];
        }
      }
    }
    KeyValueLine(key, ":", "");
    assert ParseInt("") == None;
  }

  /** Single quotes are not stripped: the hexadecimal literal `'0A'H` stays
      a string. */
  lemma QuotedHexStaysString()
    ensures TypeValue(Strip("'0A'H", Only('"'))) == Str("'0A'H")
  {
    WordTypesAsString("'0A'H");
  }

  /** Digits, a point and digits make a float: `45.123` types as a float. */
  lemma PointNumberIsFloat(a: string, b: string)
    requires a != [] && b != [] && AllDigits(a) && AllDigits(b)
    ensures TypeValue(a + "." + b) == Float(a + "." + b)
  {
    PointNumberAccepted(a, b);
  }

  /** A second point spoils a float: `1.2.3` stays the string it is. */
  lemma TwoPointsStayString(a: string, b: string, c: string)
    requires a != [] && c != [] && AllDigits(a) && AllDigits(b) && AllDigits(c)
    ensures TypeValue(a + "." + b + "." + c) == Str(a + "." + b + "." + c)
  {
    TwoPointsRejected(a, b, c);
  }

  /** A field is in the record exactly when some entry assigns it. */
  lemma {:induction false} AssembledKeys(entries: seq<Option<Entry>>, key: string)
    ensures key in Assemble(entries) <==> exists i :: 0 <= i < |entries| && Assigns(entries[i], key)
  {
    if entries != [] {
      var prefix := entries[..|entries| - 1];
      AssembledKeys(prefix, key);
      if exists i :: 0 <= i < |prefix| && Assigns(prefix[i], key) {
        var i :| 0 <= i < |prefix| && Assigns(prefix[i], key);
        assert entries[i] == prefix[i];
      }
      if exists i :: 0 <= i < |entries| && Assigns(entries[i], key) {
        var i :| 0 <= i < |entries| && Assigns(entries[i], key);
        if i < |prefix| {
          assert prefix[i] == entries[i];
        }
      }
    }
  }

  /** A field assigned by several entries keeps the value of the last one. */
  lemma {:induction false} LastAssignmentWins(entries: seq<Option<Entry>>, i: nat)
    requires i < |entries| && entries[i].Some?
    requires forall j :: i < j < |entries| ==> !Assigns(entries[j], entries[i].value.key)
    ensures entries[i].value.key in Assemble(entries)
    ensures Assemble(entries)[entries[i].value.key] == entries[i].value.value
  {
    if i < |entries| - 1 {
      var prefix := entries[..|entries| - 1];
      assert prefix[i] == entries[i];
      forall j | i < j < |prefix| ensures !Assigns(prefix[j], prefix[i].value.key) {
        assert prefix[j] == entries[j];
      }
      LastAssignmentWins(prefix, i);
    }
  }

  /** In a block's record a field holds the value of the last line that
      assigns it. */
  lemma DecodedField(lines: seq<string>, i: nat)
    requires i < |lines| && LineEntry(lines[i]).Some?
    requires forall j :: i < j < |lines| ==> !Assigns(LineEntry(lines[j]), LineEntry(lines[i]).value.key)
    ensures var e := LineEntry(lines[i]).value;
      e.key in DecodeLines(lines) && DecodeLines(lines)[e.key] == e.value
  {
    LastAssignmentWins(LineEntries(lines), i);
  }

  /** A field no line assigns is absent from a block's record. */
  lemma UnassignedFieldAbsent(lines: seq<string>, key: string)
    requires forall j :: 0 <= j < |lines| ==> !Assigns(LineEntry(lines[j]), key)
    ensures key !in DecodeLines(lines)
  {
    AssembledKeys(LineEntries(lines), key);
  }

  /** An entry changes at most the field it names. */
  lemma OtherFieldsUnchanged(entries: seq<Option<Entry>>, entry: Option<Entry>, other: string)
    requires !Assigns(entry, other)
    ensures other in Assemble(entries + [entry]) <==> other in Assemble(entries)
    ensures other in Assemble(entries) ==> Assemble(entries + [entry])[other] == Assemble(entries)[other]
  {
    assert (entries + [entry])[..|entries|] == entries;
  }

  /** Decoding one more line applies that line's entry, if any, to the
      record of the lines before it. */
  lemma DecodeLinesStep(lines: seq<string>, i: nat)
    requires i < |lines|
    ensures LineEntry(lines[i]).None? ==> DecodeLines(lines[..i + 1]) == DecodeLines(lines[..i])
    ensures LineEntry(lines[i]).Some? ==>
      var e := LineEntry(lines[i]).value;
      DecodeLines(lines[..i + 1]) == DecodeLines(lines[..i])[e.key := e.value]
  {
    var entries, before := LineEntries(lines[..i + 1]), LineEntries(lines[..i]);
    assert entries[..i] == before by {
      forall k | 0 <= k < i ensures entries[k] == before[k] {
        assert lines[..i + 1][k] == lines[..i][k];
      }
    }
    assert entries[i] == LineEntry(lines[i]);
  }

  /** No lines decode to the empty record. */
  lemma DecodeNoLines(lines: seq<string>)
    requires lines == []
    ensures DecodeLines(lines) == map[]
  {
    assert LineEntries(lines) == [];
  }

  /** A line that cleans to `key sep value` sets `key` to the typed value. */
  lemma DecodePairLine(lines: seq<string>, i: nat, clean: string, parts: seq<string>)
    requires i < |lines| && clean == CleanLine(lines[i]) && clean != []
    requires parts == SplitOnce(clean) && |parts| == 2
    ensures DecodeLines(lines[..i + 1]) == DecodeLines(lines[..i])[parts[0] := TypeValue(Strip(parts[1], Only('"')))]
  {
    DecodeLinesStep(lines, i);
  }

  /** A line that cleans to a single token sets it to the presence marker. */
  lemma DecodeMarkerLine(lines: seq<string>, i: nat, clean: string, parts: seq<string>)
    requires i < |lines| && clean == CleanLine(lines[i]) && clean != []
    requires parts == SplitOnce(clean) && |parts| != 2
    ensures DecodeLines(lines[..i + 1]) == DecodeLines(lines[..i])[parts[0] := Present]
  {
    DecodeLinesStep(lines, i);
  }

  /** A line that cleans to nothing leaves the record as it was. */
  lemma DecodeSkippedLine(lines: seq<string>, i: nat)
    requires i < |lines| && CleanLine(lines[i]) == []
    ensures DecodeLines(lines[..i + 1]) == DecodeLines(lines[..i])
  {
    DecodeLinesStep(lines, i);
  }
}
