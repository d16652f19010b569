/**
  The four counters of utilities.py over one input's raw bytes. The byte
  count needs no decoding; the other three decode strictly first and fail
  (here: None) when the bytes are not well-formed UTF-8.
*/
module Metrics {
  import opened Options
  import opened Utf8
  import opened Text
  import opened Seqs

  /** The characters Python's `\s` matches in a text pattern (those `str.isspace` accepts). */
  predicate IsSpace(c: char) {
    var x := c as int;
    || 0x09 <= x <= 0x0D
    || 0x1C <= x <= 0x20
    || x == 0x85 || x == 0xA0 || x == 0x1680
    || 0x2000 <= x <= 0x200A
    || x == 0x2028 || x == 0x2029 || x == 0x202F || x == 0x205F || x == 0x3000
  }

  /** count_bytes: the length of the buffer, whatever it holds (no decoding, so it never fails). */
  function CountBytes(b: seq<Byte>): (r: nat)
    ensures r == |b|
  {
    |b|
  }

  /** count_words: the fragments of the split at every whitespace character, less the empty ones. */
  function CountWords(b: seq<Byte>): (r: Option<nat>)
    ensures r.Some? <==> Decode(b).Some?
    ensures r.Some? ==> r.value == Runs(Decode(b).value, IsSpace)
  {
    match Decode(b)
    case None => None
    case Some(text) =>
      FragmentsAreRuns(text, IsSpace);
      Some(|NonEmpty(Split(text, IsSpace))|)
  }

  /** What count_lines returns with its default accumulator 0: the newline characters of the text, which are the 0x0A bytes. */
  function LineCount(b: seq<Byte>): (r: Option<nat>)
    ensures r.Some? <==> Decode(b).Some?
    ensures r.Some? ==> r.value == multiset(b)[0x0A]
  {
    match Decode(b)
    case None => None
    case Some(text) =>
      AsciiCountPreserved(b, 0x0A);
      Some(multiset(text)['\n'])
  }

  /** count_lines: the accumulator `i` plus one for every newline character met while scanning the decoded text. */
  method CountLines(b: seq<Byte>, i: int) returns (r: Option<int>)
    ensures r.Some? <==> Decode(b).Some?
    ensures r.Some? ==> r.value == i + multiset(Decode(b).value)['\n']
    ensures r.Some? ==> r.value == i + LineCount(b).value
  {
    var decoded := Decode(b);
    if decoded.None? {
      return None;
    }
    var text := decoded.value;
    var n := i;
    for k := 0 to |text|
      invariant n == i + multiset(text[..k])['\n']
    {
      assert text[..k + 1] == text[..k] + [text[k]];
      if text[k] == '\n' {
        n := n + 1;
      }
    }
    assert text[..|text|] == text;
    return Some(n);
  }

  /** count_characters: the length of the decoded text, which is the number of bytes that are not continuation bytes. */
  function CountCharacters(b: seq<Byte>): (r: Option<nat>)
    ensures r.Some? <==> Decode(b).Some?
    ensures r.Some? ==> r.value == LeadBytes(b)
    ensures r.Some? ==> r.value <= CountBytes(b)
    ensures r.Some? ==> (r.value == CountBytes(b) <==> forall k | 0 <= k < |b| :: b[k] < 0x80)
  {
    match Decode(b)
    case None => None
    case Some(text) =>
      DecodedLengthIsLeadBytes(b);
      DecodedLengthBound(b);
      Some(|text|)
  }

  // ---------------------------------------------------------------------------
  // Properties relating the counters

  /** The word and line counts never exceed the character count, and all three fail on the same buffers. */
  lemma CountsAtMostCharacters(b: seq<Byte>)
    ensures CountWords(b).Some? <==> CountCharacters(b).Some?
    ensures LineCount(b).Some? <==> CountCharacters(b).Some?
    ensures CountCharacters(b).Some? ==> CountWords(b).value <= CountCharacters(b).value
    ensures CountCharacters(b).Some? ==> LineCount(b).value <= CountCharacters(b).value
  {
  }

  /** A decodable buffer has no words exactly when its text is whitespace only (the empty text included). */
  lemma NoWordsIffAllSpace(b: seq<Byte>)
    requires Decode(b).Some?
    ensures CountWords(b) == Some(0) <==> forall k | 0 <= k < |Decode(b).value| :: IsSpace(Decode(b).value[k])
  {
    NoRunsIffAllSeparators(Decode(b).value, IsSpace);
  }

  /** Appending one character's encoding adds one line for a newline and none for anything else: a trailing unterminated line is never counted. */
  lemma LinesAfterAppend(b: seq<Byte>, c: char)
    requires Decode(b).Some?
    ensures LineCount(b + EncodeChar(c)).Some?
    ensures LineCount(b + EncodeChar(c)).value == LineCount(b).value + if c == '\n' then 1 else 0
  {
    DecodeChar(c);
    LinesOfChar(c);
    LinesOfAppend(b, EncodeChar(c));
  }

  /** The lines of two decodable buffers add up. */
  lemma LinesOfAppend(x: seq<Byte>, y: seq<Byte>)
    requires Decode(x).Some? && Decode(y).Some?
    ensures LineCount(x + y).Some?
    ensures LineCount(x + y).value == LineCount(x).value + LineCount(y).value
  {
    DecodableAppend(x, y);
    MultisetAppend(x, y);
  }

  lemma LinesOfChar(c: char)
    ensures LineCount(EncodeChar(c)).Some?
    ensures LineCount(EncodeChar(c)).value == if c == '\n' then 1 else 0
  {
    DecodeChar(c);
    assert multiset([c])['\n'] == if c == '\n' then 1 else 0;
  }
}
