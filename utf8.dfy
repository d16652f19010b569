/**
  Strict UTF-8, as `bytes.decode()` without arguments performs it: the
  well-formed byte sequences are those of the syntax in section 4 of
  RFC 3629 (no overlong forms, no surrogates, nothing above U+10FFFF), and
  any other input makes the whole decode fail.

  A Dafny `char` is a Unicode scalar value, so a decoded text is a `string`.
*/
module Utf8 {
  import opened Options
  import opened Seqs

  type Byte = x: int | 0 <= x < 0x100

  predicate IsContinuation(x: Byte) {
    0x80 <= x <= 0xBF
  }

  /** The length of the character encoding that lead byte `x` starts, or 0 when no encoding starts with `x`. */
  function SequenceLength(x: Byte): (n: nat)
    ensures n <= 4
    ensures x < 0x80 <==> n == 1
    ensures n == 0 <==> IsContinuation(x) || x == 0xC0 || x == 0xC1 || x >= 0xF5
  {
    if x <= 0x7F then 1
    else if 0xC2 <= x <= 0xDF then 2
    else if 0xE0 <= x <= 0xEF then 3
    else if 0xF0 <= x <= 0xF4 then 4
    else 0
  }

  /** The range RFC 3629 allows for the byte after lead byte `x` (narrower than a plain continuation byte after E0, ED, F0 and F4). */
  predicate SecondOk(x: Byte, y: Byte) {
    if x == 0xE0 then 0xA0 <= y <= 0xBF
    else if x == 0xED then 0x80 <= y <= 0x9F
    else if x == 0xF0 then 0x90 <= y <= 0xBF
    else if x == 0xF4 then 0x80 <= y <= 0x8F
    else IsContinuation(y)
  }

  /** `s` is exactly one UTF8-char of RFC 3629, section 4. */
  predicate IsCharEncoding(s: seq<Byte>) {
    && |s| >= 1
    && SequenceLength(s[0]) == |s|
    && (|s| >= 2 ==> SecondOk(s[0], s[1]))
    && (forall i | 2 <= i < |s| :: IsContinuation(s[i]))
  }

  /** The code point one well-formed encoding stands for: a scalar value in the range its length is reserved for. */
  function ScalarOf(s: seq<Byte>): (cp: int)
    requires IsCharEncoding(s)
    ensures 0 <= cp < 0xD800 || 0xE000 <= cp < 0x11_0000
    ensures |s| == 1 <==> cp < 0x80
    ensures |s| == 2 <==> 0x80 <= cp < 0x800
    ensures |s| == 3 <==> 0x800 <= cp < 0x1_0000
    ensures |s| == 4 <==> 0x1_0000 <= cp
  {
    var b0 := s[0] as int;
    if |s| == 1 then b0
    else if |s| == 2 then (b0 - 0xC0) * 64 + (s[1] as int - 0x80)
    else if |s| == 3 then (b0 - 0xE0) * 4096 + (s[1] as int - 0x80) * 64 + (s[2] as int - 0x80)
    else (b0 - 0xF0) * 262144 + (s[1] as int - 0x80) * 4096 + (s[2] as int - 0x80) * 64 + (s[3] as int - 0x80)
  }

  /** Strict decoding: the text `b` encodes, or None as soon as some position does not start a well-formed encoding. */
  function Decode(b: seq<Byte>): (r: Option<string>)
    decreases |b|
  {
    if b == [] then Some("")
    else
      var n := SequenceLength(b[0]);
      if n == 0 || n > |b| || !IsCharEncoding(b[..n]) then None
      else
        match Decode(b[n..])
        case None => None
        case Some(rest) => Some([ScalarOf(b[..n]) as char] + rest)
  }

  /** The shortest-form encoding of one character: its bits cut into six-bit groups behind the lead byte. */
  function EncodeChar(c: char): (s: seq<Byte>)
  {
    var cp := c as int;
    var hi := cp / 64;
    if cp < 0x80 then [cp]
    else if cp < 0x800 then [0xC0 + hi, 0x80 + cp % 64]
    else if cp < 0x1_0000 then [0xE0 + hi / 64, 0x80 + hi % 64, 0x80 + cp % 64]
    else [0xF0 + hi / 4096, 0x80 + hi / 64 % 64, 0x80 + hi % 64, 0x80 + cp % 64]
  }

  function Encode(s: string): (b: seq<Byte>)
  {
    if s == [] then [] else EncodeChar(s[0]) + Encode(s[1..])
  }

  /** The bytes that start a character rather than continue one (`10xxxxxx`). */
  function LeadBytes(b: seq<Byte>): (n: nat)
    ensures n <= |b|
  {
    if b == [] then 0 else (if IsContinuation(b[0]) then 0 else 1) + LeadBytes(b[1..])
  }

  // ---------------------------------------------------------------------------
  // One character

  lemma DivMod64(x: int, q: int, r: int)
    requires 0 <= r < 64 && x == q * 64 + r
    ensures x / 64 == q && x % 64 == r
  {
  }

  lemma ThreeByteForm(cp: int, d0: int, d1: int, d2: int)
    requires 0x800 <= cp < 0xD800 || 0xE000 <= cp < 0x1_0000
    requires 0 <= d1 < 64 && 0 <= d2 < 64 && cp == (d0 * 64 + d1) * 64 + d2
    ensures 0 <= d0 < 16
    ensures IsCharEncoding([0xE0 + d0, 0x80 + d1, 0x80 + d2])
    ensures ScalarOf([0xE0 + d0, 0x80 + d1, 0x80 + d2]) == cp
  {
  }

  lemma FourByteForm(cp: int, d0: int, d1: int, d2: int, d3: int)
    requires 0x1_0000 <= cp < 0x11_0000
    requires 0 <= d1 < 64 && 0 <= d2 < 64 && 0 <= d3 < 64 && cp == ((d0 * 64 + d1) * 64 + d2) * 64 + d3
    ensures 0 <= d0 < 5
    ensures IsCharEncoding([0xF0 + d0, 0x80 + d1, 0x80 + d2, 0x80 + d3])
    ensures ScalarOf([0xF0 + d0, 0x80 + d1, 0x80 + d2, 0x80 + d3]) == cp
  {
  }

  lemma EncodeCharIsEncoding(c: char)
    ensures IsCharEncoding(EncodeChar(c))
    ensures ScalarOf(EncodeChar(c)) == c as int
  {
    var cp := c as int;
    if cp < 0x80 {
    } else if cp < 0x800 {
      TwoByteChar(c);
    } else if cp < 0x1_0000 {
      ThreeByteChar(c);
    } else {
      FourByteChar(c);
    }
  }

  lemma TwoByteChar(c: char)
    requires 0x80 <= c as int < 0x800
    ensures IsCharEncoding(EncodeChar(c))
    ensures ScalarOf(EncodeChar(c)) == c as int
  {
    var cp := c as int;
    DivMod64(cp, cp / 64, cp % 64);
  }

  lemma ThreeByteChar(c: char)
    requires 0x800 <= c as int < 0x1_0000
    ensures IsCharEncoding(EncodeChar(c))
    ensures ScalarOf(EncodeChar(c)) == c as int
  {
    var cp := c as int;
    var hi := cp / 64;
    DivMod64(cp, hi, cp % 64);
    DivMod64(hi, hi / 64, hi % 64);
    ThreeByteForm(cp, hi / 64, hi % 64, cp % 64);
  }

  lemma FourByteChar(c: char)
    requires 0x1_0000 <= c as int
    ensures IsCharEncoding(EncodeChar(c))
    ensures ScalarOf(EncodeChar(c)) == c as int
  {
    var cp := c as int;
    var hi := cp / 64;
    var hh := hi / 64;
    DivMod64(cp, hi, cp % 64);
    DivMod64(hi, hh, hi % 64);
    DivMod64(hh, hh / 64, hh % 64);
    assert hi / 4096 == hh / 64;
    FourByteForm(cp, hh / 64, hh % 64, hi % 64, cp % 64);
  }

  lemma ScalarOfEncodes(s: seq<Byte>)
    requires IsCharEncoding(s)
    ensures EncodeChar(ScalarOf(s) as char) == s
  {
    var cp := ScalarOf(s);
    var b0 := s[0] as int;
    if |s| == 2 {
      DivMod64(cp, b0 - 0xC0, s[1] - 0x80);
    } else if |s| == 3 {
      var hi := (b0 - 0xE0) * 64 + (s[1] - 0x80);
      DivMod64(cp, hi, s[2] - 0x80);
      DivMod64(hi, b0 - 0xE0, s[1] - 0x80);
    } else if |s| == 4 {
      var hh := (b0 - 0xF0) * 64 + (s[1] - 0x80);
      var hi := hh * 64 + (s[2] - 0x80);
      DivMod64(cp, hi, s[3] - 0x80);
      DivMod64(hi, hh, s[2] - 0x80);
      DivMod64(hh, b0 - 0xF0, s[1] - 0x80);
      assert hi / 4096 == hh / 64;
    }
  }

  // ---------------------------------------------------------------------------
  // Round trips: Decode and Encode are inverse bijections between the
  // well-formed byte strings and all strings.

  lemma {:induction false} EncodeAppend(s: string, t: string)
    ensures Encode(s + t) == Encode(s) + Encode(t)
  {
    if s != [] {
      assert (s + t)[0] == s[0] && (s + t)[1..] == s[1..] + t;
      EncodeAppend(s[1..], t);
    } else {
      assert s + t == t;
    }
  }

  lemma {:induction false} DecodeEncode(s: string)
    ensures Decode(Encode(s)) == Some(s)
  {
    if s != [] {
      var e, b := EncodeChar(s[0]), Encode(s);
      EncodeCharIsEncoding(s[0]);
      assert b == e + Encode(s[1..]);
      assert b[0] == e[0] && b[..|e|] == e && b[|e|..] == Encode(s[1..]);
      DecodeEncode(s[1..]);
      assert ScalarOf(e) as char == s[0];
      assert Decode(b) == Some([s[0]] + s[1..]);
      assert [s[0]] + s[1..] == s;
    }
  }

  /** One step of a successful decode: a well-formed first encoding, followed by a decodable rest. */
  lemma DecodeStep(b: seq<Byte>)
    requires b != [] && Decode(b).Some?
    ensures 1 <= SequenceLength(b[0]) <= |b| && IsCharEncoding(b[..SequenceLength(b[0])])
    ensures Decode(b[SequenceLength(b[0])..]).Some?
    ensures Decode(b).value == [ScalarOf(b[..SequenceLength(b[0])]) as char] + Decode(b[SequenceLength(b[0])..]).value
  {
  }

  lemma {:induction false} EncodeDecode(b: seq<Byte>)
    requires Decode(b).Some?
    ensures Encode(Decode(b).value) == b
  {
    if b != [] {
      DecodeStep(b);
      var n := SequenceLength(b[0]);
      var s := Decode(b).value;
      EncodeDecode(b[n..]);
      ScalarOfEncodes(b[..n]);
      assert s[0] == ScalarOf(b[..n]) as char && s[1..] == Decode(b[n..]).value;
      SplitAt(b, n);
    }
  }

  /** The encoding of one character decodes to that character alone. */
  lemma DecodeChar(c: char)
    ensures Decode(EncodeChar(c)) == Some([c])
  {
    DecodeEncode([c]);
    assert [c][1..] == [];
    AppendEmpty(EncodeChar(c));
  }

  /** Strict decoding works piecewise: two well-formed buffers concatenate to one that decodes to the concatenated texts. */
  lemma DecodeAppend(x: seq<Byte>, y: seq<Byte>)
    requires Decode(x).Some? && Decode(y).Some?
    ensures Decode(x + y) == Some(Decode(x).value + Decode(y).value)
  {
    var s, t := Decode(x).value, Decode(y).value;
    EncodeDecode(x);
    EncodeDecode(y);
    EncodeAppend(s, t);
    DecodeEncode(s + t);
  }

  lemma DecodableAppend(x: seq<Byte>, y: seq<Byte>)
    requires Decode(x).Some? && Decode(y).Some?
    ensures Decode(x + y).Some?
  {
    DecodeAppend(x, y);
  }

  // ---------------------------------------------------------------------------
  // Counting

  lemma {:induction false} LeadBytesSkipContinuations(b: seq<Byte>, k: nat)
    requires k <= |b|
    requires forall i | 0 <= i < k :: IsContinuation(b[i])
    ensures LeadBytes(b) == LeadBytes(b[k..])
  {
    if k > 0 {
      LeadBytesSkipContinuations(b[1..], k - 1);
      assert b[1..][k - 1..] == b[k..];
    }
  }

  /** Every character is encoded by exactly one byte that is not a continuation byte. */
  lemma {:induction false} DecodedLengthIsLeadBytes(b: seq<Byte>)
    requires Decode(b).Some?
    ensures |Decode(b).value| == LeadBytes(b)
  {
    if b != [] {
      var n := SequenceLength(b[0]);
      DecodedLengthIsLeadBytes(b[n..]);
      assert forall i | 1 <= i < n :: b[1..][i - 1] == b[..n][i];
      LeadBytesSkipContinuations(b[1..], n - 1);
      assert b[1..][n - 1..] == b[n..];
    }
  }

  /** Decoding never lengthens, and keeps the length exactly when every byte is ASCII. */
  lemma {:induction false} DecodedLengthBound(b: seq<Byte>)
    requires Decode(b).Some?
    ensures |Decode(b).value| <= |b|
    ensures |Decode(b).value| == |b| <==> forall i | 0 <= i < |b| :: b[i] < 0x80
  {
    if b != [] {
      var n := SequenceLength(b[0]);
      DecodedLengthBound(b[n..]);
      if n == 1 {
        assert forall i | 1 <= i < |b| :: b[i] == b[1..][i - 1];
      }
    }
  }

  /** An ASCII byte value occurs in a well-formed buffer as often as its character occurs in the text: bytes of multi-byte encodings are all at least 0x80. */
  lemma {:induction false} AsciiCountPreserved(b: seq<Byte>, x: Byte)
    requires x < 0x80
    requires Decode(b).Some?
    ensures multiset(Decode(b).value)[x as char] == multiset(b)[x]
  {
    if b != [] {
      DecodeStep(b);
      var n := SequenceLength(b[0]);
      var head, tail := b[..n], b[n..];
      var c := ScalarOf(head) as char;
      var rest := Decode(tail).value;
      AsciiCountPreserved(tail, x);
      SplitAt(b, n);
      MultisetAppend(head, tail);
      MultisetAppend([c], rest);
      if n == 1 {
        assert head == [b[0]];
      } else {
        assert forall i | 0 <= i < n :: head[i] != x;
        assert x !in head;
      }
    }
  }

}
