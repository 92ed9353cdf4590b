/**
  UTF-8 as defined in section 3 of RFC 3629: the reference semantics of the
  strict `'utf-8'` codec that `u` and `string` use. A Dafny `char` is a Unicode
  scalar value, so every `char` has exactly one encoding.
 */
module Utf8 {
  import opened Wrappers

  newtype byte = x: int | 0 <= x < 256

  /**
    What a decoder makes of the bytes that remain: one character read from the
    first `size` bytes, or a malformed span of `size` bytes it cannot decode.
   */
  datatype Step = Decoded(c: char, size: nat) | Malformed(size: nat)

  /** Positions of a decode error, as carried by Python's UnicodeDecodeError. */
  datatype Span = Span(start: nat, end: nat)

  predicate IsTail(b: byte) {
    0x80 <= b <= 0xBF
  }

  /** Lowest allowed second byte after lead byte `b0` (RFC 3629, section 4 grammar). */
  function SecondLow(b0: int): int {
    if b0 == 0xE0 then 0xA0 else if b0 == 0xF0 then 0x90 else 0x80
  }

  /** Highest allowed second byte after lead byte `b0`. */
  function SecondHigh(b0: int): int {
    if b0 == 0xED then 0x9F else if b0 == 0xF4 then 0x8F else 0xBF
  }

  /**
    Decodes the first character of `s`. A malformed span is the longest prefix
    of `s` that could still begin a well-formed sequence (at least one byte),
    which is the span a strict decoder reports and an error handler replaces.
    On no input at all it reports an empty span; a decoder loop never asks.
   */
  function Utf8Step(s: seq<byte>): (r: Step)
    ensures |s| >= 1 ==> 1 <= r.size <= |s|
    ensures |s| >= 1 && r.Malformed? ==> r.size <= 3
    ensures |s| == 0 ==> r == Malformed(0)
  {
    if |s| == 0 then Malformed(0)
    else
      var b0 := s[0] as int;
      if b0 <= 0x7F then Decoded(b0 as char, 1)
      else if 0xC2 <= b0 <= 0xDF then
        if |s| < 2 || !IsTail(s[1]) then Malformed(1)
        else Decoded(((b0 - 0xC0) * 64 + (s[1] as int - 0x80)) as char, 2)
      else if 0xE0 <= b0 <= 0xEF then
        if |s| < 2 || !(SecondLow(b0) <= s[1] as int <= SecondHigh(b0)) then Malformed(1)
        else if |s| < 3 || !IsTail(s[2]) then Malformed(2)
        else Decoded(((b0 - 0xE0) * 4096 + (s[1] as int - 0x80) * 64 + (s[2] as int - 0x80)) as char, 3)
      else if 0xF0 <= b0 <= 0xF4 then
        if |s| < 2 || !(SecondLow(b0) <= s[1] as int <= SecondHigh(b0)) then Malformed(1)
        else if |s| < 3 || !IsTail(s[2]) then Malformed(2)
        else if |s| < 4 || !IsTail(s[3]) then Malformed(3)
        else Decoded(((b0 - 0xF0) * 262144 + (s[1] as int - 0x80) * 4096
                      + (s[2] as int - 0x80) * 64 + (s[3] as int - 0x80)) as char, 4)
      else Malformed(1)
  }

  /** The UTF-8 encoding of one scalar value: 1 to 4 bytes. */
  function EncodeChar(c: char): (r: seq<byte>)
    ensures 1 <= |r| <= 4
  {
    var n := c as int;
    if n < 0x80 then [n as byte]
    else if n < 0x800 then
      [(0xC0 + n / 64) as byte, (0x80 + n % 64) as byte]
    else if n < 0x10000 then
      [(0xE0 + n / 64 / 64) as byte, (0x80 + n / 64 % 64) as byte, (0x80 + n % 64) as byte]
    else
      [(0xF0 + n / 64 / 64 / 64) as byte, (0x80 + n / 64 / 64 % 64) as byte,
       (0x80 + n / 64 % 64) as byte, (0x80 + n % 64) as byte]
  }

  /** `s.encode('utf-8')`. */
  function Encode(s: string): seq<byte> {
    if s == [] then [] else EncodeChar(s[0]) + Encode(s[1..])
  }

  /**
    Strict decoding of `bs` from position `i`: the text, or the span of the
    first malformed sequence.
   */
  function DecodeFrom(bs: seq<byte>, i: nat): (r: Result<string, Span>)
    requires i <= |bs|
    ensures r.Failure? ==> i <= r.error.start < r.error.end <= |bs|
    decreases |bs| - i
  {
    if i == |bs| then Success([])
    else
      match Utf8Step(bs[i..])
      case Malformed(n) => Failure(Span(i, i + n))
      case Decoded(c, n) =>
        match DecodeFrom(bs, i + n)
        case Success(rest) => Success([c] + rest)
        case Failure(e) => Failure(e)
  }

  /** `bs.decode('utf-8')` with the strict error handler. */
  function Decode(bs: seq<byte>): Result<string, Span> {
    DecodeFrom(bs, 0)
  }

  lemma DivMod64(q: int, r: int)
    requires 0 <= r < 64
    ensures (q * 64 + r) / 64 == q && (q * 64 + r) % 64 == r
  {
  }

  /** Decoding reads back exactly the character that was encoded, whatever follows it. */
  lemma StepEncodeChar(c: char, rest: seq<byte>)
    ensures Utf8Step(EncodeChar(c) + rest) == Decoded(c, |EncodeChar(c)|)
  {
    var n := c as int;
    var s := EncodeChar(c) + rest;
    if n < 0x80 {
    } else if n < 0x800 {
      assert s[0] as int == 0xC0 + n / 64 && s[1] as int == 0x80 + n % 64;
    } else if n < 0x10000 {
      assert s[0] as int == 0xE0 + n / 64 / 64;
      assert s[1] as int == 0x80 + n / 64 % 64 && s[2] as int == 0x80 + n % 64;
    } else {
      assert s[0] as int == 0xF0 + n / 64 / 64 / 64;
      assert s[1] as int == 0x80 + n / 64 / 64 % 64;
      assert s[2] as int == 0x80 + n / 64 % 64 && s[3] as int == 0x80 + n % 64;
    }
  }

  /** A decoded character re-encodes to exactly the bytes it was read from. */
  lemma StepSound(s: seq<byte>)
    requires Utf8Step(s).Decoded?
    ensures s[..Utf8Step(s).size] == EncodeChar(Utf8Step(s).c)
  {
    var r := Utf8Step(s);
    var b0 := s[0] as int;
    var n := r.c as int;
    if b0 <= 0x7F {
    } else if b0 <= 0xDF {
      var t1 := s[1] as int - 0x80;
      DivMod64(b0 - 0xC0, t1);
    } else if b0 <= 0xEF {
      var t1, t2 := s[1] as int - 0x80, s[2] as int - 0x80;
      DivMod64((b0 - 0xE0) * 64 + t1, t2);
      DivMod64(b0 - 0xE0, t1);
    } else {
      var t1, t2, t3 := s[1] as int - 0x80, s[2] as int - 0x80, s[3] as int - 0x80;
      DivMod64(((b0 - 0xF0) * 64 + t1) * 64 + t2, t3);
      DivMod64((b0 - 0xF0) * 64 + t1, t2);
      DivMod64(b0 - 0xF0, t1);
    }
  }

  /**
    A malformed span is maximal: no character's encoding starts `s`; a span
    of two or three bytes begins the encoding of some character; and the
    span followed by the next byte begins none.
   */
  lemma MalformedSpanIsMaximal(s: seq<byte>)
    requires |s| >= 1 && Utf8Step(s).Malformed?
    ensures forall c: char :: !(EncodeChar(c) <= s)
    ensures Utf8Step(s).size > 1 ==> exists c: char :: s[..Utf8Step(s).size] <= EncodeChar(c)
    ensures Utf8Step(s).size < |s| ==> forall c: char :: !(s[..Utf8Step(s).size + 1] <= EncodeChar(c))
  {
    var n := Utf8Step(s).size;
    forall c: char ensures !(EncodeChar(c) <= s) {
      if EncodeChar(c) <= s {
        assert EncodeChar(c) + s[|EncodeChar(c)|..] == s;
        StepEncodeChar(c, s[|EncodeChar(c)|..]);
      }
    }
    if n > 1 {
      var t := s[..n] + [0x80, 0x80];
      assert Utf8Step(t).Decoded? && Utf8Step(t).size > n;
      StepSound(t);
      assert s[..n] <= EncodeChar(Utf8Step(t).c);
    }
    if n < |s| {
      forall c: char ensures !(s[..n + 1] <= EncodeChar(c)) {
        NoLongerPrefix(s, c);
      }
    }
  }

  /** Helper of MalformedSpanIsMaximal: the span and one more byte begin no encoding. */
  lemma NoLongerPrefix(s: seq<byte>, c: char)
    requires |s| >= 1 && Utf8Step(s).Malformed? && Utf8Step(s).size < |s|
    ensures !(s[..Utf8Step(s).size + 1] <= EncodeChar(c))
  {
    var e := EncodeChar(c);
    StepEncodeChar(c, []);
    assert e + [] == e;
  }

  lemma {:induction false} DecodeEncodeFrom(prefix: seq<byte>, s: string)
    ensures DecodeFrom(prefix + Encode(s), |prefix|) == Success(s)
    decreases |s|
  {
    var bs := prefix + Encode(s);
    if s != [] {
      var head := EncodeChar(s[0]);
      assert bs[|prefix|..] == head + Encode(s[1..]);
      StepEncodeChar(s[0], Encode(s[1..]));
      assert bs == (prefix + head) + Encode(s[1..]);
      DecodeEncodeFrom(prefix + head, s[1..]);
      assert [s[0]] + s[1..] == s;
    }
  }

  /** Round trip: strict decoding of an encoding gives back the text. */
  lemma DecodeEncode(s: string)
    ensures Decode(Encode(s)) == Success(s)
  {
    DecodeEncodeFrom([], s);
    assert [] + Encode(s) == Encode(s);
  }

  lemma {:induction false} EncodeDecodeFrom(bs: seq<byte>, i: nat)
    requires i <= |bs|
    requires DecodeFrom(bs, i).Success?
    ensures Encode(DecodeFrom(bs, i).value) == bs[i..]
    decreases |bs| - i
  {
    if i < |bs| {
      var r := Utf8Step(bs[i..]);
      StepSound(bs[i..]);
      EncodeDecodeFrom(bs, i + r.size);
      var text := DecodeFrom(bs, i).value;
      assert text == [r.c] + DecodeFrom(bs, i + r.size).value;
      assert text[1..] == DecodeFrom(bs, i + r.size).value;
      assert bs[i..] == bs[i..][..r.size] + bs[i + r.size..];
    }
  }

  /** Round trip: whatever decodes strictly is the encoding of the decoded text. */
  lemma EncodeDecode(bs: seq<byte>)
    requires Decode(bs).Success?
    ensures Encode(Decode(bs).value) == bs
  {
    EncodeDecodeFrom(bs, 0);
  }
}
