/**
  The text helpers of powerline/lib/unicode.py: strict decoding (`u`), the
  `powerline_decode_error` codec error handler, display decoding (`out_u`)
  and conversion to the interpreter's native string type (`string`).
 */
module Unicode {
  import opened Wrappers
  import opened Utf8

  /** The Python values these helpers dispatch on. `Object` is any other object, one without `encode`. */
  datatype PyValue = NoneValue | Text(text: string) | Bytes(bytes: seq<byte>) | Object

  /** The exceptions the modelled code raises or receives. */
  datatype PyError =
    | OSError(errno: int)
    | UnicodeDecodeError(obj: seq<byte>, start: nat, end: nat)
    | UnicodeEncodeError
    | TypeError
    | AttributeError
    | NotImplementedError
    | IndexError

  /** Python 2 and Python 3 differ in what the name `str` stands for. */
  datatype Runtime = Python2 | Python3

  /** Python truth value of a value. */
  predicate Truthy(v: PyValue) {
    match v
    case NoneValue => false
    case Text(t) => t != []
    case Bytes(b) => b != []
    case Object => true
  }

  /**
    `u(s)`: text is returned as it is; anything else goes through
    `unicode(s, 'utf-8')`, which decodes bytes strictly and raises TypeError
    for objects that are not bytes.
   */
  function U(v: PyValue): (r: Result<string, PyError>)
    ensures v.Text? ==> r == Success(v.text)
    ensures v.Bytes? && r.Success? ==> Encode(r.value) == v.bytes
    ensures v.Bytes? && r.Failure? ==>
              r.error.UnicodeDecodeError? && r.error.obj == v.bytes &&
              r.error.start < r.error.end <= |v.bytes|
    ensures !v.Text? && !v.Bytes? ==> r == Failure(TypeError)
  {
    match v
    case Text(t) => Success(t)
    case Bytes(b) =>
      (match Decode(b)
       case Success(t) => EncodeDecode(b); Success(t)
       case Failure(span) => Failure(UnicodeDecodeError(b, span.start, span.end)))
    case _ => Failure(TypeError)
  }

  /** The sixteen digits of `'{0:02X}'`, upper case. */
  const HexDigits: string := "0123456789ABCDEF"

  /** `'<{0:02X}>'.format(b)`. */
  function HexToken(b: byte): (t: string)
    ensures |t| == 4 && t[0] == '<' && t[3] == '>'
  {
    ['<', HexDigits[b as int / 16], HexDigits[b as int % 16], '>']
  }

  /** Value of an upper-case hexadecimal digit. */
  function HexDigitValue(ch: char): Option<nat> {
    if '0' <= ch <= '9' then Some(ch as nat - '0' as nat)
    else if 'A' <= ch <= 'F' then Some(ch as nat - 'A' as nat + 10)
    else None
  }

  /** Reads one `<XX>` token back; the inverse of HexToken. */
  function ParseHexToken(t: string): Option<byte> {
    if |t| != 4 || t[0] != '<' || t[3] != '>' then None
    else
      match (HexDigitValue(t[1]), HexDigitValue(t[2]))
      case (Some(hi), Some(lo)) => Some((hi * 16 + lo) as byte)
      case _ => None
  }

  lemma HexTokenParses(b: byte)
    ensures ParseHexToken(HexToken(b)) == Some(b)
  {
    var hi, lo := b as int / 16, b as int % 16;
    assert HexDigitValue(HexDigits[hi]) == Some(hi);
    assert HexDigitValue(HexDigits[lo]) == Some(lo);
  }

  /** The tokens of `bytes`, one `<XX>` per byte, joined in byte order. */
  function HexTokens(bytes: seq<byte>): (t: string)
    ensures |t| == 4 * |bytes|
  {
    if bytes == [] then [] else HexToken(bytes[0]) + HexTokens(bytes[1..])
  }

  lemma {:induction false} HexTokensAt(bytes: seq<byte>, k: nat)
    requires k < |bytes|
    ensures HexTokens(bytes)[4 * k..4 * k + 4] == HexToken(bytes[k])
  {
    if k > 0 {
      HexTokensAt(bytes[1..], k - 1);
      var t := HexTokens(bytes);
      assert t == HexToken(bytes[0]) + HexTokens(bytes[1..]);
      assert t[4 * k..4 * k + 4] == HexTokens(bytes[1..])[4 * (k - 1)..4 * (k - 1) + 4];
    }
  }

  /** Reads a run of tokens back into the bytes they show. */
  function ParseHexTokens(t: string): Option<seq<byte>>
    decreases |t|
  {
    if t == [] then Some([])
    else if |t| < 4 then None
    else
      match (ParseHexToken(t[..4]), ParseHexTokens(t[4..]))
      case (Some(b), Some(rest)) => Some([b] + rest)
      case _ => None
  }

  /** No byte is lost: the escaped run reads back as exactly the bytes it replaced. */
  lemma {:induction false} HexTokensParse(bytes: seq<byte>)
    ensures ParseHexTokens(HexTokens(bytes)) == Some(bytes)
  {
    if bytes != [] {
      var t := HexTokens(bytes);
      assert t[..4] == HexToken(bytes[0]);
      assert t[4..] == HexTokens(bytes[1..]);
      HexTokenParses(bytes[0]);
      HexTokensParse(bytes[1..]);
      assert [bytes[0]] + bytes[1..] == bytes;
    }
  }

  /** `object[start:end]` with Python's clamping of indices beyond the end. */
  function PySlice(obj: seq<byte>, start: nat, end: nat): (s: seq<byte>)
    ensures start <= end <= |obj| ==> s == obj[start..end]
    ensures |s| <= |obj|
  {
    var lo := if start < |obj| then start else |obj|;
    var hi := if end < |obj| then end else |obj|;
    if lo < hi then obj[lo..hi] else []
  }

  /**
    `powerline_decode_error(e)`: for a decode error, the replacement text
    (one `<XX>` per byte of `object[start:end]`) and the position where
    decoding resumes, `end`; for any other error, NotImplementedError.
   */
  function PowerlineDecodeError(e: PyError): (r: Result<(string, nat), PyError>)
    ensures r.Success? <==> e.UnicodeDecodeError?
    ensures r.Failure? ==> r.error == NotImplementedError
    ensures r.Success? ==> r.value.1 == e.end
    ensures r.Success? ==> |r.value.0| == 4 * |PySlice(e.obj, e.start, e.end)|
  {
    match e
    case UnicodeDecodeError(obj, start, end) =>
      Success((HexTokens(PySlice(obj, start, end)), end))
    case _ => Failure(NotImplementedError)
  }

  /** The handler's text reads back as exactly the bytes of the failing span. */
  lemma HandlerOutputParses(e: PyError)
    requires e.UnicodeDecodeError?
    ensures ParseHexTokens(PowerlineDecodeError(e).value.0) == Some(PySlice(e.obj, e.start, e.end))
  {
    HexTokensParse(PySlice(e.obj, e.start, e.end));
  }

  /**
    For a span inside the object, the handler's text has length
    `4 * (end - start)` and its `k`-th token shows byte `start + k`.
   */
  lemma HandlerTokens(obj: seq<byte>, start: nat, end: nat, k: nat)
    requires start <= end <= |obj| && k < end - start
    ensures var text := PowerlineDecodeError(UnicodeDecodeError(obj, start, end)).value.0;
            |text| == 4 * (end - start) && text[4 * k..4 * k + 4] == HexToken(obj[start + k])
  {
    HexTokensAt(obj[start..end], k);
  }

  /** A decoder for some encoding, applied to the bytes that remain. */
  type Decoder = seq<byte> -> Step

  /** A decoder always consumes at least one byte and never more than it was given. */
  ghost predicate WellBehaved(dec: Decoder) {
    forall s: seq<byte> {:trigger dec(s)} :: |s| >= 1 ==> 1 <= dec(s).size <= |s|
  }

  /**
    One step of the codec machinery at position `i`: a decoded character, or
    the text the error handler returns for the malformed span together with
    the position it says to resume at.
   */
  function CodecStep(dec: Decoder, bs: seq<byte>, i: nat): (r: (string, nat))
    requires WellBehaved(dec) && i < |bs|
    ensures i < r.1 <= |bs|
  {
    match dec(bs[i..])
    case Decoded(c, n) => ([c], i + n)
    case Malformed(n) => PowerlineDecodeError(UnicodeDecodeError(bs, i, i + n)).value
  }

  /**
    What `unicode(bs, encoding, 'powerline_decode_error')` produces from
    position `i` on.
   */
  function DecodeReplacingFrom(dec: Decoder, bs: seq<byte>, i: nat): string
    requires WellBehaved(dec) && i <= |bs|
    decreases |bs| - i
  {
    if i == |bs| then []
    else
      var (text, next) := CodecStep(dec, bs, i);
      text + DecodeReplacingFrom(dec, bs, next)
  }

  lemma ReplacingUnfold(dec: Decoder, bs: seq<byte>, i: nat, text: string)
    requires WellBehaved(dec) && i < |bs|
    ensures var (piece, next) := CodecStep(dec, bs, i);
            (text + piece) + DecodeReplacingFrom(dec, bs, next) == text + DecodeReplacingFrom(dec, bs, i)
  {
  }

  /**
    The decoding loop the codec runs with `powerline_decode_error` registered:
    walks the byte index, appends each decoded character, and on a malformed
    span calls the handler, appends its text and continues at the position it
    returns. It never raises.
   */
  method DecodeWithHandler(dec: Decoder, bs: seq<byte>) returns (text: string)
    requires WellBehaved(dec)
    ensures text == DecodeReplacingFrom(dec, bs, 0)
  {
    text := [];
    var i := 0;
    while i < |bs|
      invariant i <= |bs|
      invariant text + DecodeReplacingFrom(dec, bs, i) == DecodeReplacingFrom(dec, bs, 0)
      decreases |bs| - i
    {
      ReplacingUnfold(dec, bs, i, text);
      var step := dec(bs[i..]);
      if step.Decoded? {
        text := text + [step.c];
        i := i + step.size;
      } else {
        var handled := PowerlineDecodeError(UnicodeDecodeError(bs, i, i + step.size));
        text := text + handled.value.0;
        i := handled.value.1;
      }
    }
  }

  /** One unit of the decoder's work: a character with the bytes it came from, or an escaped span. */
  datatype Piece = Char(c: char, raw: seq<byte>) | Escaped(raw: seq<byte>)

  /** The piece the decoder cuts at position `i`. */
  function PieceAt(dec: Decoder, bs: seq<byte>, i: nat): (p: Piece)
    requires WellBehaved(dec) && i < |bs|
    ensures p.raw == bs[i..i + dec(bs[i..]).size]
  {
    match dec(bs[i..])
    case Decoded(c, n) => Char(c, bs[i..i + n])
    case Malformed(n) => Escaped(bs[i..i + n])
  }

  /** The pieces the decoder cuts `bs[i..]` into. */
  function Pieces(dec: Decoder, bs: seq<byte>, i: nat): (ps: seq<Piece>)
    requires WellBehaved(dec) && i <= |bs|
    decreases |bs| - i
  {
    if i == |bs| then []
    else [PieceAt(dec, bs, i)] + Pieces(dec, bs, i + dec(bs[i..]).size)
  }

  /** How a piece is shown: a character as itself, an escaped span as `<XX>` tokens. */
  function RenderPiece(p: Piece): string {
    match p
    case Char(c, _) => [c]
    case Escaped(raw) => HexTokens(raw)
  }

  function Render(ps: seq<Piece>): string {
    if ps == [] then [] else RenderPiece(ps[0]) + Render(ps[1..])
  }

  /** The input bytes the pieces account for, in order. */
  function Raw(ps: seq<Piece>): seq<byte> {
    if ps == [] then [] else ps[0].raw + Raw(ps[1..])
  }

  /** Every byte is accounted for: the pieces cover the input exactly, in order. */
  lemma {:induction false} PiecesCoverInput(dec: Decoder, bs: seq<byte>, i: nat)
    requires WellBehaved(dec) && i <= |bs|
    ensures Raw(Pieces(dec, bs, i)) == bs[i..]
    decreases |bs| - i
  {
    if i < |bs| {
      var n := dec(bs[i..]).size;
      PiecesCoverInput(dec, bs, i + n);
      var ps := Pieces(dec, bs, i);
      assert ps[1..] == Pieces(dec, bs, i + n);
      assert bs[i..] == bs[i..i + n] + bs[i + n..];
    }
  }

  /** One piece shows what one codec step appends, and both resume at the same position. */
  lemma PieceRendersStep(dec: Decoder, bs: seq<byte>, i: nat)
    requires WellBehaved(dec) && i < |bs|
    ensures RenderPiece(PieceAt(dec, bs, i)) == CodecStep(dec, bs, i).0
    ensures CodecStep(dec, bs, i).1 == i + dec(bs[i..]).size
  {
    var n := dec(bs[i..]).size;
    assert PySlice(bs, i, i + n) == bs[i..i + n];
  }

  /** The decoded text is the rendering of the pieces: nothing is shown that no byte accounts for. */
  lemma {:induction false} PiecesRenderOutput(dec: Decoder, bs: seq<byte>, i: nat)
    requires WellBehaved(dec) && i <= |bs|
    ensures Render(Pieces(dec, bs, i)) == DecodeReplacingFrom(dec, bs, i)
    decreases |bs| - i
  {
    if i < |bs| {
      var next := i + dec(bs[i..]).size;
      PiecesRenderOutput(dec, bs, next);
      PieceRendersStep(dec, bs, i);
      var ps := Pieces(dec, bs, i);
      assert ps[1..] == Pieces(dec, bs, next);
    }
  }

  /** A character the UTF-8 decoder reads re-encodes to the bytes it came from. */
  lemma Utf8PieceReencodes(bs: seq<byte>, i: nat)
    requires i < |bs|
    ensures PieceAt(Utf8Step, bs, i).Char? ==> EncodeChar(PieceAt(Utf8Step, bs, i).c) == PieceAt(Utf8Step, bs, i).raw
  {
    var s := bs[i..];
    if Utf8Step(s).Decoded? {
      StepSound(s);
      assert s[..Utf8Step(s).size] == bs[i..i + Utf8Step(s).size];
    }
  }

  /**
    With UTF-8 as the codec, every decoded character re-encodes to the bytes
    it was read from, so the input can be rebuilt from what is shown.
   */
  lemma {:induction false} Utf8PiecesReencode(bs: seq<byte>, i: nat)
    requires i <= |bs|
    ensures forall k :: 0 <= k < |Pieces(Utf8Step, bs, i)| && Pieces(Utf8Step, bs, i)[k].Char? ==>
              EncodeChar(Pieces(Utf8Step, bs, i)[k].c) == Pieces(Utf8Step, bs, i)[k].raw
    decreases |bs| - i
  {
    if i < |bs| {
      var next := i + Utf8Step(bs[i..]).size;
      Utf8PieceReencodes(bs, i);
      Utf8PiecesReencode(bs, next);
      var ps := Pieces(Utf8Step, bs, i);
      assert ps[1..] == Pieces(Utf8Step, bs, next);
    }
  }

  /** On well-formed UTF-8, decoding with the handler gives what strict decoding gives. */
  lemma {:induction false} ReplacingAgreesWithStrict(bs: seq<byte>, i: nat)
    requires i <= |bs|
    requires DecodeFrom(bs, i).Success?
    ensures DecodeReplacingFrom(Utf8Step, bs, i) == DecodeFrom(bs, i).value
    decreases |bs| - i
  {
    if i < |bs| {
      ReplacingAgreesWithStrict(bs, i + Utf8Step(bs[i..]).size);
    }
  }

  /**
    `out_u(s)`: text is returned as it is; bytes are decoded with the locale's
    codec `dec` and the `powerline_decode_error` handler; anything else raises
    TypeError.
   */
  function OutU(dec: Decoder, v: PyValue): (r: Result<string, PyError>)
    requires WellBehaved(dec)
    ensures r.Failure? <==> !v.Text? && !v.Bytes?
    ensures r.Failure? ==> r.error == TypeError
    ensures v.Text? ==> r == Success(v.text)
    ensures v.Bytes? ==> r == Success(Render(Pieces(dec, v.bytes, 0)))
  {
    match v
    case Text(t) => Success(t)
    case Bytes(b) => PiecesRenderOutput(dec, b, 0); Success(DecodeReplacingFrom(dec, b, 0))
    case _ => Failure(TypeError)
  }

  /** With UTF-8 as the locale codec, `out_u` agrees with `u` wherever `u` succeeds. */
  lemma OutUAgreesWithU(v: PyValue)
    requires U(v).Success?
    ensures OutU(Utf8Step, v) == U(v)
  {
    if v.Bytes? {
      ReplacingAgreesWithStrict(v.bytes, 0);
    }
  }

  /** Whether `v` has the type the name `str` stands for. */
  predicate IsNativeStr(rt: Runtime, v: PyValue) {
    match rt
    case Python2 => v.Bytes?
    case Python3 => v.Text?
  }

  /**
    `string(s)`: a value whose type is `str` is returned as it is; anything
    else is sent `encode('utf-8')`, which only text has (bytes have no
    `encode` in Python 3, other objects none at all).
   */
  function NativeString(rt: Runtime, v: PyValue): (r: Result<PyValue, PyError>)
    ensures IsNativeStr(rt, v) ==> r == Success(v)
    ensures r.Success? ==> IsNativeStr(rt, r.value)
    ensures !IsNativeStr(rt, v) && v.Text? ==> r == Success(Bytes(Encode(v.text)))
    ensures !IsNativeStr(rt, v) && !v.Text? ==> r == Failure(AttributeError)
  {
    if IsNativeStr(rt, v) then Success(v)
    else
      match v
      case Text(t) => Success(Bytes(Encode(t)))
      case _ => Failure(AttributeError)
  }

  /** Text survives `string` followed by `u` on either runtime. */
  lemma NativeStringRoundTrip(rt: Runtime, t: string)
    ensures NativeString(rt, Text(t)).Success?
    ensures U(NativeString(rt, Text(t)).value) == Success(t)
  {
    if rt == Python2 {
      DecodeEncode(t);
    }
  }
}
