/**
 * What `RRCLogParser.fetch_changes` computes: the value each match
 * contributes, and the consecutive-run compression of those values.
 * The imperative tracker itself is `LogParser.RrcLogParser.FetchChanges`.
 */
module ChangeTracker {
  import opened Wrappers
  import opened Text
  import opened BlockDecoder

  /** One match as `re.finditer` yields it: the whole matched text, and the
      text of group 1 when the pattern has a capturing group. */
  datatype Match = Match(whole: string, group1: Option<string>)

  /** `re.finditer(pattern, text, flags)` with the `DOTALL` flag given as a
      boolean: the non-overlapping matches in document order. */
  type Finditer = (string, string, bool) -> seq<Match>

  /** A tracked value: the trimmed match of a scalar feature, or the record
      decoded from a block feature's match. */
  datatype DecodedValue = Scalar(text: string) | Block(record: Record)

  /** The text a match yields: group 1 for a block feature whose pattern
      has a group, the whole match otherwise, stripped either way. */
  function RawText(m: Match, isBlock: bool): (raw: string)
    ensures raw == [] || (!IsSpace(raw[0]) && !IsSpace(raw[|raw| - 1]))
  {
    if isBlock && m.group1.Some? then Trim(m.group1.value) else Trim(m.whole)
  }

  /** The value one match contributes. */
  function MatchValue(m: Match, isBlock: bool): (v: DecodedValue)
    ensures v.Block? <==> isBlock
  {
    if isBlock then Block(Decode(RawText(m, true))) else Scalar(RawText(m, false))
  }

  /** The value of each match, in match order. */
  function MatchValues(matches: seq<Match>, isBlock: bool): (values: seq<DecodedValue>)
    ensures |values| == |matches|
    ensures forall k :: 0 <= k < |matches| ==> values[k] == MatchValue(matches[k], isBlock)
  {
    seq(|matches|, k requires 0 <= k < |matches| => MatchValue(matches[k], isBlock))
  }

  /** The value of a match, given the stripped text it yields. */
  lemma MatchValueOfRaw(m: Match, isBlock: bool, raw: string)
    requires raw == if isBlock && m.group1.Some? then Trim(m.group1.value) else Trim(m.whole)
    ensures isBlock ==> MatchValue(m, isBlock) == Block(Decode(raw))
    ensures !isBlock ==> MatchValue(m, isBlock) == Scalar(raw)
  {
  }

  /** A scalar feature records the whole trimmed match even when its
      pattern has a capturing group. */
  lemma ScalarIgnoresGroup(whole: string, group: Option<string>)
    ensures MatchValue(Match(whole, group), false) == Scalar(Trim(whole))
  {
  }

  /** A block feature decodes group 1 when its pattern has one, and the
      whole match when it has none. */
  lemma BlockUsesGroupOrWhole(whole: string, group: Option<string>)
    ensures group.Some? ==> MatchValue(Match(whole, group), true) == Block(Decode(Trim(group.value)))
    ensures group.None? ==> MatchValue(Match(whole, group), true) == Block(Decode(Trim(whole)))
  {
  }

  /** No two neighbours are equal. */
  predicate NoAdjacentDuplicates<T(==)>(s: seq<T>)
  {
    forall k :: 0 < k < |s| ==> s[k - 1] != s[k]
  }

  /** Consecutive-run compression: each run of equal neighbours kept once. */
  function Compress<T(==)>(s: seq<T>): (r: seq<T>)
    ensures |r| <= |s|
  {
    if |s| <= 1 then s
    else
      var kept := Compress(s[..|s| - 1]);
      if s[|s| - 1] == s[|s| - 2] then kept else kept + [s[|s| - 1]]
  }

  /** The first and the last value always survive compression. */
  lemma {:induction false} CompressEnds<T>(s: seq<T>)
    requires s != []
    ensures Compress(s) != []
    ensures Compress(s)[0] == s[0]
    ensures Compress(s)[|Compress(s)| - 1] == s[|s| - 1]
  {
    if |s| > 1 {
      CompressEnds(s[..|s| - 1]);
    }
  }

  /** Compression yields nothing exactly when there is nothing. */
  lemma CompressEmptyIff<T>(s: seq<T>)
    ensures Compress(s) == [] <==> s == []
  {
    if s != [] {
      CompressEnds(s);
    }
  }

  /** The compressed sequence has no two equal neighbours. */
  lemma {:induction false} CompressNoAdjacentDuplicates<T>(s: seq<T>)
    ensures NoAdjacentDuplicates(Compress(s))
  {
    if |s| > 1 {
      var prefix := s[..|s| - 1];
      CompressNoAdjacentDuplicates(prefix);
      CompressEnds(prefix);
    }
  }

  /** A sequence without equal neighbours is left as it is. */
  lemma {:induction false} CompressKeepsStutterFree<T>(s: seq<T>)
    requires NoAdjacentDuplicates(s)
    ensures Compress(s) == s
  {
    if |s| > 1 {
      var prefix := s[..|s| - 1];
      assert NoAdjacentDuplicates(prefix) by {
        forall k | 0 < k < |prefix| ensures prefix[k - 1] != prefix[k] {
          assert prefix[k - 1] == s[k - 1] && prefix[k] == s[k];
        }
      }
      CompressKeepsStutterFree(prefix);
      assert s[|s| - 2] != s[|s| - 1];
    }
  }

  /** Compressing twice is compressing once. */
  lemma CompressIdempotent<T>(s: seq<T>)
    ensures Compress(Compress(s)) == Compress(s)
  {
    CompressNoAdjacentDuplicates(s);
    CompressKeepsStutterFree(Compress(s));
  }

  /** Compression drops repeats only: every value of the input is still
      there, and nothing else is. */
  lemma {:induction false} CompressSameValues<T>(s: seq<T>, x: T)
    ensures x in Compress(s) <==> x in s
  {
    if |s| > 1 {
      var prefix := s[..|s| - 1];
      CompressSameValues(prefix, x);
      assert s == prefix + [s[|s| - 1]];
      if s[|s| - 1] == s[|s| - 2] {
        assert s[|s| - 2] in prefix;
      }
    }
  }

  /** Compressing one more value appends it unless it repeats the value
      before it. */
  lemma CompressStep<T>(s: seq<T>, i: nat)
    requires i < |s|
    ensures i > 0 && s[i] == s[i - 1] ==> Compress(s[..i + 1]) == Compress(s[..i])
    ensures i == 0 || s[i] != s[i - 1] ==> Compress(s[..i + 1]) == Compress(s[..i]) + [s[i]]
  {
    assert s[..i + 1][..i] == s[..i];
  }

  /** One slot of state is enough to compress: when `last` holds the value
      before position `i` (none at the start), comparing with `last` decides
      whether `current`, the value at `i`, extends the compressed prefix. */
  lemma CompressLastSlot<T>(s: seq<T>, i: nat, last: Option<T>, current: T)
    requires i < |s| && current == s[i]
    requires last == if i == 0 then None else Some(s[i - 1])
    ensures last != Some(current) ==> Compress(s[..i + 1]) == Compress(s[..i]) + [current]
    ensures last == Some(current) ==> Compress(s[..i + 1]) == Compress(s[..i])
  {
    CompressStep(s, i);
  }

  /** Values A, A, B, A are recorded as A, B, A: only a repeat of the value
      just before is dropped, not a return to an earlier one. */
  lemma CompressReturnKept<T>(a: T, b: T)
    requires a != b
    ensures Compress([a, a, b, a]) == [a, b, a]
  {
    var s := [a, a, b, a];
    CompressStep(s, 0);
    CompressStep(s, 1);
    CompressStep(s, 2);
    CompressStep(s, 3);
    assert s[..1] == [a] && s[..4] == s;
  }

  /** What `fetch_changes(pattern, is_block)` returns for a text: the
      values of the matches with repeats of the previous value dropped. */
  function Changes(finditer: Finditer, text: string, pattern: string, isBlock: bool): (changes: seq<DecodedValue>)
    ensures changes == [] <==> finditer(pattern, text, isBlock) == []
    ensures NoAdjacentDuplicates(changes)
  {
    CompressEmptyIff(MatchValues(finditer(pattern, text, isBlock), isBlock));
    CompressNoAdjacentDuplicates(MatchValues(finditer(pattern, text, isBlock), isBlock));
    Compress(MatchValues(finditer(pattern, text, isBlock), isBlock))
  }
}
