# RRC log feature tracker — a Dafny model

The service reads an uploaded telecom RRC log and reports, for each feature
the user ticked, the successive distinct values that feature takes through
the log. This project models the engine behind that report in `app.py`:

- **the block decoder**, `RRCLogParser.clean_to_dict`. It turns the inner
  text of one brace block into a record of typed fields, one line at a time:
  - each line is cleaned: stripped, trailing commas dropped, braces deleted,
    stripped again;
  - the line is split once at its first whitespace run or colon;
  - the value is typed as a float, an int or a string;
  - a field named on a line of its own gets the marker string `"present"`;
- **the change tracker**, `RRCLogParser.fetch_changes`. It walks the matches
  of a pattern in log order and takes each match's value: the decoded block,
  or the trimmed match text. It records a value only when it differs from
  the value recorded last;
- **the selection loop of `/analyze`**. For each selected name found in the
  fixed feature catalogue, it records that feature's history when the history
  is non-empty.

The modules follow that structure:

- `Text` models the Python `str` operations used: `strip`, `rstrip`,
  `replace(c, '')`, `splitlines` and `\s`.
- `Numbers` models what `int()` and `float()` accept.
- `BlockDecoder` holds the specification functions of `clean_to_dict`.
- `ChangeTracker` holds the per-match value and consecutive-run compression.
- `LogParser` holds the class `RrcLogParser`. Its methods `CleanToDict` and
  `FetchChanges` are the imperative loops of the source. Each is proved equal
  to its specification function.
- `Analysis` holds the catalogue, the `Analyze` loop and its specification.

The regular-expression engine is a parameter, `finditer`. It maps a pattern,
a text and the `DOTALL` flag to the sequence of matches. Each match carries
the whole matched text and, when the pattern has a group, the text of
group 1. The split at `app.py:25` uses a fixed pattern, `\s+|:\s*`, so it is
written out by hand as `BlockDecoder.SplitOnce`.

### Behaviour that is easy to misread

The model follows what `app.py` does, including three points where a
reader might expect something else.

- `rstrip(',')` at `app.py:23` drops *every* trailing comma from a line, not
  just one. `BlockDecoder.CommaLineSkipped` shows that a line of commas only
  is skipped.
- `strip('"')` at `app.py:27` removes double quotes only, not every quote
  character. So `'0A'H` keeps its single quotes and stays a string
  (`BlockDecoder.QuotedHexStaysString`).
- A field named on a line of its own gets the ordinary string `"present"`
  (`app.py:33`), not a value of a type of its own. So a line `x` and a line
  `x present` decode alike (`BlockDecoder.PresentMarkerIsAString`).

## Model

| member | source | states |
|---|---|---|
| Text.LStrip | app.py:23 | The result is a suffix of the text, and its first character is not in the stripped set. |
| Text.LStripDropped | app.py:23 | Every character `lstrip` removes is in the stripped set. |
| Text.RStrip | app.py:23 | The result is a prefix of the text, and its last character is not in the stripped set (`rstrip(',')` drops every trailing comma). |
| Text.RStripDropped | app.py:23 | Every character `rstrip` removes is in the stripped set. |
| Text.Strip | app.py:23 | The result is no longer than the text, and neither end is in the stripped set. |
| Text.Trim | app.py:23 | The stripped text has no whitespace at either end. |
| Text.StripIsSlice | app.py:23 | The stripped text is a contiguous slice of the text. It is empty exactly when every character is in the stripped set. |
| Text.StripEmptyIff | app.py:23-24 | A stripped text is empty if and only if the text holds only stripped characters. |
| Text.StripUnchanged | app.py:23 | A text whose ends are not in the set is left as it is. |
| Text.TrimKeepsAbsent | app.py:23 | Stripping never introduces a character. |
| Text.StripKeepsChar | app.py:23 | Every character of a stripped text occurs in the original. |
| Text.Remove | app.py:23 | `replace(c, '')` leaves no `c`, never lengthens the text, and leaves a text without `c` unchanged. |
| Text.RemoveKeepsOthers | app.py:23 | Every character other than `c` is kept, as often as it occurs. |
| Text.RemoveConcat | app.py:23 | Removal works piecewise over a concatenation, so the kept characters stay in their order. |
| Text.RemoveKeepsAbsent | app.py:23 | Deleting one character never introduces another. |
| Text.SplitLines | app.py:22 | `splitlines` yields no lines exactly for the empty text, and no line holds a line break. |
| Text.SplitJoinedLines | app.py:22 | Splitting text written one line per `\n` gives back exactly those lines. |
| Numbers.ParseInt | app.py:29 | `int()` accepts only a text that is not blank once its surrounding space, `\t`, `\n`, `\v`, `\f` and `\r` are stripped. |
| Numbers.ParseIntAccepts | app.py:29-31 | `int()` succeeds if and only if the text, stripped of space and `\t`..`\r` only, is an optionally signed run of at most 4300 digits (CPython's default `sys.get_int_max_str_digits()`). The value's sign is the sign written. |
| Numbers.IntTextRoundTrip | app.py:29 | `int(str(n)) == n` for every integer `n` of at most 4300 digits. A longer text is refused. |
| Numbers.DigitsRoundTrip | app.py:29 | The digits printed for a natural number read back as that number. |
| Numbers.PointFloatHasPoint | app.py:29 | Every text `IsPointFloat` accepts (optional sign, digits with one point, optional exponent) holds a decimal point. |
| Numbers.ParsesAsFloat | app.py:29 | `float()` is modelled as accepting a point float once space and `\t`..`\r` are stripped. Every text it accepts holds a decimal point. |
| Numbers.PlainFloat | app.py:29 | A text that starts and ends with a digit and has no exponent mark is accepted by `float()` if and only if it is digits around one point. |
| Numbers.PointNumberAccepted | app.py:29 | `float()` accepts digits, a point and digits. |
| Numbers.TwoPointsRejected | app.py:29-31 | `float()` refuses digits with two points, such as `1.2.3`. |
| BlockDecoder.CleanLine | app.py:23 | A cleaned line has no whitespace at either end. |
| BlockDecoder.CleanLineHasNoBraces | app.py:23 | No brace survives cleaning. |
| BlockDecoder.CleanLineEmptyIff | app.py:23-24 | A line is skipped if and only if, once stripped and rid of its trailing commas, only whitespace and braces remain. |
| BlockDecoder.BraceLineSkipped | app.py:23-24 | A line of whitespace and braces only is skipped. |
| BlockDecoder.CommaLineSkipped | app.py:23-24 | A line that strips to a run of commas is skipped. |
| BlockDecoder.SplitLinesOfBlank | app.py:22 | Every line of a text of whitespace and braces only is itself blank. |
| BlockDecoder.BlankTextDecodesEmpty | app.py:20-24 | The empty block, and a block of whitespace, line breaks and braces only, decode to the empty record. |
| BlockDecoder.SkippedLinesDecodeEmpty | app.py:20-24 | A block decodes to the empty record if and only if every one of its lines cleans to nothing. |
| BlockDecoder.SkippedLinesRecordEmpty | app.py:22-24 | The same, over the list of lines. |
| BlockDecoder.BlankOrCommaLinesDecodeEmpty | app.py:20-24 | A block whose every line is blank or strips to a run of commas decodes to the empty record. |
| BlockDecoder.CommaBraceLineKept | app.py:23 | A mixed line such as `,}` is not skipped: its trailing comma is dropped before the brace is removed, so `,` remains. |
| BlockDecoder.SeparatorIndex | app.py:25 | The index found is that of the first whitespace or colon, or the length when there is none. |
| BlockDecoder.SplitOnce | app.py:25 | `re.split(..., maxsplit=1)` yields one or two parts. |
| BlockDecoder.SplitOnceParts | app.py:25 | There is one part, the whole line, exactly when the line has no separator. With two parts, the key is all text before the first separator and the separator runs greedily to the value. The value keeps any later spaces or colons. |
| BlockDecoder.SplitOnceRoundTrip | app.py:25 | Splitting `key sep rest` gives back `[key, rest]` for every separator-free key and every separator. |
| BlockDecoder.TypeValueCases | app.py:27-31 | The value is an int if and only if it has no point and `int()` accepts it, and it then holds the parsed number. It is a float if and only if it has a point and `float()` accepts it. Otherwise it stays the unchanged text. |
| BlockDecoder.WordTypesAsString | app.py:27-31 | A word that cannot start a number and has no point types as itself, as a string. |
| BlockDecoder.QuotedHexStaysString | app.py:27-31 | `'0A'H` keeps its single quotes and stays a string. |
| BlockDecoder.PointNumberIsFloat | app.py:29 | A value such as `45.123` types as a float. |
| BlockDecoder.TwoPointsStayString | app.py:29-31 | A value such as `1.2.3` stays a string. |
| BlockDecoder.IntValueLine | app.py:25-29 | A line `key n`, with `n` an integer as printed (e.g. `t300 2000`), assigns the int `n` to `key`. When `n` has more than 4300 digits, it assigns the text instead. |
| BlockDecoder.EmptyValueLine | app.py:25-31 | A line `key:` assigns the empty string to `key`. |
| BlockDecoder.TypeValue | app.py:27-31 | An int comes only from a value without a point. A float comes only from a value with one and keeps its text. A string is the value unchanged. |
| BlockDecoder.ParseClean | app.py:25-33 | The field name is a prefix of the cleaned line. |
| BlockDecoder.LineEntry | app.py:22-33 | A field name taken from a line never holds a brace. |
| BlockDecoder.Assemble | app.py:29-33 | A record has at most one field per entry. |
| BlockDecoder.DecodeLines | app.py:22-33 | A record has at most one field per line. |
| BlockDecoder.Decode | app.py:19-34 | `clean_to_dict` gives at most one field per line of the block. |
| BlockDecoder.LineEntries | app.py:22 | There is one entry per line, and each is that line's own entry, in order. |
| BlockDecoder.CleanLineUnchanged | app.py:23 | Cleaning leaves an already clean line unchanged. |
| BlockDecoder.CleanLineEntry | app.py:23-24 | A clean, non-empty line is parsed as it stands. |
| BlockDecoder.SingleTokenIsPresent | app.py:32-33 | A line with a single token maps that token to the marker `"present"`. |
| BlockDecoder.KeyValueParse | app.py:25-27 | A cleaned line `key sep value` assigns `value`, with its double quotes stripped and its type inferred, to `key`. |
| BlockDecoder.KeyValueLine | app.py:25-31 | The same holds for a raw line that cleaning leaves unchanged. |
| BlockDecoder.PresentWordIsString | app.py:33 | The word `present` types as the marker string itself. |
| BlockDecoder.PresentMarkerIsAString | app.py:25-33 | A line `x` and a line `x present` give the same entry. |
| BlockDecoder.AssembledKeys | app.py:29-33 | A field is in the record if and only if some line assigns it. |
| BlockDecoder.LastAssignmentWins | app.py:29-33 | A field assigned by several lines holds the value of the last one. |
| BlockDecoder.DecodedField | app.py:22-33 | In a block's record, a field holds the value from the last line that assigns it. |
| BlockDecoder.UnassignedFieldAbsent | app.py:22-33 | A field no line assigns is absent from the record. |
| BlockDecoder.OtherFieldsUnchanged | app.py:29-33 | A line leaves every field it does not name as it was, both presence and value. |
| BlockDecoder.DecodeLinesStep | app.py:22-33 | Decoding one more line applies that line's entry, if any, to the record of the lines before it. |
| BlockDecoder.DecodeNoLines | app.py:21 | Decoding starts from the empty record. |
| BlockDecoder.DecodePairLine | app.py:26-31 | A line that splits in two sets the key to the typed, unquoted value. |
| BlockDecoder.DecodeMarkerLine | app.py:32-33 | A line that does not split sets its token to `"present"`. |
| BlockDecoder.DecodeSkippedLine | app.py:24 | A line that cleans to nothing leaves the record unchanged. |
| ChangeTracker.RawText | app.py:41 | The text taken from a match has no whitespace at either end. |
| ChangeTracker.MatchValue | app.py:41-42 | A match gives a decoded block exactly when the feature is a block feature. |
| ChangeTracker.MatchValues | app.py:40-42 | There is one value per match, in match order, and each is that match's value. |
| ChangeTracker.MatchValueOfRaw | app.py:41-42 | A block feature's value is the decoded raw text, and a scalar feature's value is the raw text itself. |
| ChangeTracker.ScalarIgnoresGroup | app.py:41-42 | A scalar feature records the whole trimmed match, even when its pattern has a group. |
| ChangeTracker.BlockUsesGroupOrWhole | app.py:41-42 | A block feature decodes trimmed group 1 when the pattern has a group, and the trimmed whole match otherwise. |
| ChangeTracker.Compress | app.py:39-45 | Dropping repeats never records more values than there are matches. |
| ChangeTracker.CompressEnds | app.py:39-45 | The first value is always recorded, even an empty record, and the last recorded value is the last value. |
| ChangeTracker.CompressEmptyIff | app.py:38-46 | Nothing is recorded if and only if there are no values. |
| ChangeTracker.CompressNoAdjacentDuplicates | app.py:43-45 | No two neighbouring recorded values are equal. |
| ChangeTracker.CompressKeepsStutterFree | app.py:43-45 | Values without equal neighbours are all recorded. |
| ChangeTracker.CompressIdempotent | app.py:43-45 | Tracking the recorded values again changes nothing. |
| ChangeTracker.CompressSameValues | app.py:43-45 | A value is recorded if and only if some match has it. |
| ChangeTracker.CompressStep | app.py:43-45 | One more value is appended exactly when it differs from the value just before it. |
| ChangeTracker.CompressLastSlot | app.py:39-45 | Comparing with the one stored last value (none at the start) decides correctly whether the next value extends the compressed prefix. |
| ChangeTracker.CompressReturnKept | app.py:43-45 | Values A, A, B, A are recorded as A, B, A: a value that returns after another value is recorded again. |
| ChangeTracker.Changes | app.py:36-46 | The history is empty if and only if the pattern has no match, and it has no two equal neighbours. |
| LogParser.RrcLogParser.constructor | app.py:15-16 | The parser holds the uploaded text. |
| LogParser.RrcLogParser.CleanToDict | app.py:19-34 | The loop over lines builds exactly the record `Decode` specifies (see the BlockDecoder lemmas for its properties). |
| LogParser.RrcLogParser.MatchValueOf | app.py:41-42 | The value computed for a match is the one `MatchValue` specifies. |
| LogParser.RrcLogParser.FetchChanges | app.py:36-46 | The loop with its one-slot `last_value` returns exactly the compressed match values `Changes`. |
| Analysis.CatalogueRows | app.py:63-76 | The catalogue lists the eight features of the form. Its block features are exactly those under "Feature", and its scalar features exactly those under "General". |
| Analysis.FeatureChanges | app.py:82-83 | A feature's changes are empty if and only if its pattern has no match, and no two neighbours are equal. |
| Analysis.Analysis | app.py:78-85 | Only selected catalogue names enter the history. |
| Analysis.Analyze | app.py:78-85 | The selection loop builds exactly the history `Analysis` specifies over the fixed catalogue. |
| Analysis.AnalysisEntries | app.py:80-85 | A name is in the history if and only if it was selected, is in the catalogue and its pattern matches at least once. Its entry is then that feature's changes. Unknown names are skipped. |
| Analysis.SelectionOrderIrrelevant | app.py:80-85 | Two selections naming the same features give the same history, whatever their order or repetitions. |
| Analysis.HistoryEntriesAreChanges | app.py:83-85 | Every history entry is non-empty and has no two equal neighbours. |

## Left out

- The web layer is not modelled: the FastAPI routes, the form and upload reading, UTF-8 decoding, template rendering, `json.dumps` and `uvicorn`. It is input and output only.
- The regular-expression engine is not modelled. `re.finditer`, with its `DOTALL` flag and non-greedy groups, is the parameter `finditer`, and the catalogue patterns are opaque strings.
- A pattern with a group that takes no part in a match is left out. Python's `group(1)` is then `None`, and `.strip()` raises; a match record cannot express this. Every group in the catalogue takes part in every match.
- Floats are kept as the text `float()` accepted, not as numbers. Two values therefore compare equal only when their text is equal. Python's `!=` at `app.py:43` also equates `1.5` with `1.50` and `1` with `1.0`.
- `int()` and `float()` are modelled over ASCII only. Underscores in literals, non-ASCII digits and non-ASCII whitespace are left out. The 4300-digit limit is CPython's default; a program that changes it with `sys.set_int_max_str_digits` is not modelled.
- `strip()`, `\s` and `splitlines()` are modelled over ASCII characters only. The line boundaries `\x85`, `\u2028` and `\u2029` are left out.
- Dictionary insertion order is not modelled. Records and the history are maps, and the order of keys in the displayed JSON is not part of the model.
- The `"cat"` labels of the catalogue are kept as data. No logic of `app.py` reads them; `Analysis.CatalogueRows` only states how they line up with the block flag.
- LogParser.RrcLogParser.FetchChanges: its `ensures` states only that the result equals `Changes`. The emptiness and no-equal-neighbours properties are proved on `ChangeTracker.Changes` rather than repeated on the method.
