/**
 * The parser object of the upload service: `RRCLogParser` holds the
 * uploaded log text, decodes brace blocks line by line, and collects the
 * successive distinct values a pattern takes through the log.
 */
module LogParser {
  import opened Wrappers
  import opened Text
  import opened BlockDecoder
  import opened ChangeTracker

  class RrcLogParser {
    /** The whole uploaded log, as text. */
    const rawText: string

    constructor(textContent: string)
      ensures rawText == textContent
    {
      rawText := textContent;
    }

    /** `clean_to_dict`: decodes a block of `name value` / `name: value`
        lines into a record, one line at a time. */
    static method CleanToDict(blockText: string) returns (result: Record)
      ensures result == Decode(blockText)
    {
      if blockText == [] {
        return map[];
      }
      result := map[];
      var lines := SplitLines(blockText);
      var i := 0;
      DecodeNoLines(lines[..i]);
      while i < |lines|
        invariant i <= |lines|
        invariant result == DecodeLines(lines[..i])
      {
        var line := lines[i];
        var clean := CleanLine(line);
        if clean != [] {
          var parts := SplitOnce(clean);
          if |parts| == 2 {
            var key, val := parts[0], Strip(parts[1], Only('"'));
            DecodePairLine(lines, i, clean, parts);
            result := result[key := TypeValue(val)];
          } else {
            DecodeMarkerLine(lines, i, clean, parts);
            result := result[parts[0] := Present];
          }
        } else {
          DecodeSkippedLine(lines, i);
        }
        i := i + 1;
      }
      assert lines[..i] == lines;
    }

    /** The value `fetch_changes` records for one match: the decoded group 1
        (or whole match) of a block feature, the trimmed whole match of a
        scalar one. */
    static method MatchValueOf(m: Match, isBlock: bool) returns (value: DecodedValue)
      ensures value == MatchValue(m, isBlock)
    {
      var raw := if isBlock && m.group1.Some? then Trim(m.group1.value) else Trim(m.whole);
      MatchValueOfRaw(m, isBlock, raw);
      if isBlock {
        var record := CleanToDict(raw);
        value := Block(record);
      } else {
        value := Scalar(raw);
      }
    }

    /** `fetch_changes`: the value of each match of `pattern` in the log,
        kept only when it differs from the value kept last. The regular
        expression engine is the parameter `finditer`; a block feature
        searches with `DOTALL`. */
    method FetchChanges(finditer: Finditer, pattern: string, isBlock: bool) returns (instances: seq<DecodedValue>)
      ensures instances == Changes(finditer, rawText, pattern, isBlock)
    {
      var matches := finditer(pattern, rawText, isBlock);
      ghost var values := MatchValues(matches, isBlock);
      instances := [];
      var lastValue: Option<DecodedValue> := None;
      var i := 0;
      while i < |matches|
        invariant i <= |matches|
        invariant instances == Compress(values[..i])
        invariant lastValue == if i == 0 then None else Some(values[i - 1])
      {
        var currentValue := MatchValueOf(matches[i], isBlock);
        CompressLastSlot(values, i, lastValue, currentValue);
        if lastValue != Some(currentValue) {
          instances := instances + [currentValue];
          lastValue := Some(currentValue);
        }
        i := i + 1;
      }
      assert values[..i] == values;
    }
  }
}
