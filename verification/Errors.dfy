/** Why a frame does not decode, and the text that goes back to the peer in a rejected ack. */
module Errors {
  import opened Bytes
  import Utf8

  datatype Reason =
    | UnterminatedEscape | InvalidEscape(b: byte) | InvalidHexEscape | NoHighSurrogate | NoLowSurrogate
    | UnterminatedString | ControlCharacter | NotUtf8 | StringAtEnd | NotAString
    | NumberAtEnd | NotANumber | NoDigitAfterSign | LeadingZero | NoDigitAfterPoint | NoDigitAfterExponent
    | NotAnInteger(token: bytes) | IntegerRange(token: bytes) | NumberRange(token: bytes)
    | BooleanAtEnd | NotABoolean | NotNull
    | ExpectedAtEnd(want: byte) | Expected(want: byte, b: byte) | NestingTooDeep
    | UnterminatedObject | UnterminatedArray | TrailingContent
    | RangeArity | BadDirection(text: bytes) | BadStatus(text: bytes)
    | UnexpectedField(text: bytes) | MissingRequired(text: bytes)
    | PrefixNotFourBytes | FrameLength(length: nat)

  /** What a reader step yields: a value and the text after it, or the reason it stopped. */
  datatype Scan<+T> = Ok(value: T, rest: bytes) | Err(reason: Reason)

  function LowHex(d: int): (b: byte)
    requires 0 <= d < 16
    ensures 0x30 <= b <= 0x39 || 0x61 <= b <= 0x66
  {
    if d < 10 then 0x30 + d else 0x61 + d - 10
  }

  /** `hex_byte`: a byte lifted out of a frame is shown as two hexadecimal digits. */
  function HexByte(b: byte): (s: bytes)
    ensures |s| == 2 && s[0] < 128 && s[1] < 128
  {
    [LowHex(b / 16), LowHex(b % 16)]
  }

  function NatText(n: nat): (s: bytes)
    ensures s != [] && AllDigits(s) && (s[0] == ZERO ==> n == 0 && s == [ZERO])
  {
    if n < 10 then [ZERO + n] else NatText(n / 10) + [ZERO + n % 10]
  }

  /** The messages about strings, as src/json.cpp spells them. */
  function StringWording(r: Reason): (s: string)
    ensures |s| <= 46
  {
    match r
    case UnterminatedEscape => "unterminated escape sequence"
    case InvalidEscape(_) => "invalid escape: byte 0x"
    case InvalidHexEscape => "invalid \\u escape"
    case NoHighSurrogate => "no high surrogate in string"
    case NoLowSurrogate => "no low surrogate in string"
    case UnterminatedString => "unterminated string"
    case ControlCharacter => "unexpected control character in string"
    case NotUtf8 => "str is not valid UTF-8"
    case StringAtEnd => "expected a string, got end of input"
    case _ => "expected a string"
  }

  /** The messages about numbers and the other literals. */
  function LiteralWording(r: Reason): (s: string)
    ensures |s| <= 46
  {
    match r
    case NumberAtEnd => "expected a number, got end of input"
    case NotANumber => "expected a number"
    case NoDigitAfterSign => "no digit after sign"
    case LeadingZero => "number with leading zero is not allowed"
    case NoDigitAfterPoint => "no digit after decimal point"
    case NoDigitAfterExponent => "no digit after exponent"
    case BooleanAtEnd => "expected a boolean, got end of input"
    case NotABoolean => "expected a boolean"
    case _ => "expected null"
  }

  /** The messages about structure. */
  function StructureWording(r: Reason): (s: string)
    ensures |s| <= 46
  {
    match r
    case NestingTooDeep => "nesting too deep"
    case UnterminatedObject => "unterminated object"
    case UnterminatedArray => "unterminated array"
    case TrailingContent => "unexpected content after document"
    case RangeArity => "price_ranges entry is not [start, end, step]"
    case PrefixNotFourBytes => "length prefix must be 4 bytes"
    case FrameLength(_) => "frame length "
    case _ => "expected '"
  }

  /** The messages that end with part of the frame, as src/json.cpp and src/protocol.cpp spell them. */
  function EchoWording(r: Reason): (s: string)
    ensures |s| <= 46
  {
    match r
    case NotAnInteger(_) => "expected an integer, got "
    case IntegerRange(_) => "integer out of range: "
    case NumberRange(_) => "number out of range: "
    case BadDirection(_) => "direction must be yes or no, got "
    case BadStatus(_) => "status must be accepted or rejected, got "
    case UnexpectedField(_) => "unexpected field: "
    case _ => "missing required field: "
  }

  /** The fixed front of each message. */
  function Wording(r: Reason): (s: string)
    ensures |s| <= 46
  {
    match r
    case UnterminatedEscape | InvalidEscape(_) | InvalidHexEscape | NoHighSurrogate | NoLowSurrogate
    | UnterminatedString | ControlCharacter | NotUtf8 | StringAtEnd | NotAString => StringWording(r)
    case NumberAtEnd | NotANumber | NoDigitAfterSign | LeadingZero | NoDigitAfterPoint | NoDigitAfterExponent
    | BooleanAtEnd | NotABoolean | NotNull => LiteralWording(r)
    case NotAnInteger(_) | IntegerRange(_) | NumberRange(_) | BadDirection(_) | BadStatus(_) | UnexpectedField(_)
    | MissingRequired(_) => EchoWording(r)
    case _ => StructureWording(r)
  }

  /** The part of a message that depends on the frame. */
  function Detail(r: Reason): (s: bytes) {
    match r
    case InvalidEscape(b) => HexByte(b)
    case NotAnInteger(token) => token
    case IntegerRange(token) => token
    case NumberRange(token) => token
    case ExpectedAtEnd(want) => [want] + Ascii("', got end of input")
    case Expected(want, b) => [want] + Ascii("', got byte 0x") + HexByte(b)
    case BadDirection(text) => text
    case BadStatus(text) => text
    case UnexpectedField(text) => text
    case MissingRequired(text) => text
    case FrameLength(n) => NatText(n) + Ascii(" exceeds max 65536")
    case _ => []
  }

  function Message(r: Reason): (s: bytes) {
    Ascii(Wording(r)) + Detail(r)
  }

  /** The texts a reason carries are UTF-8, and the delimiter it names is ASCII. */
  predicate Clean(r: Reason) {
    match r
    case NotAnInteger(token) => Utf8.WellFormed(token)
    case IntegerRange(token) => Utf8.WellFormed(token)
    case NumberRange(token) => Utf8.WellFormed(token)
    case ExpectedAtEnd(want) => want < 128
    case Expected(want, _) => want < 128
    case BadDirection(text) => Utf8.WellFormed(text)
    case BadStatus(text) => Utf8.WellFormed(text)
    case UnexpectedField(text) => Utf8.WellFormed(text)
    case MissingRequired(text) => Utf8.WellFormed(text)
    case _ => true
  }

  /** The reason quotes nothing of the frame but at most one byte, in hexadecimal. */
  predicate Fixed(r: Reason) {
    match r
    case NotAnInteger(_) | IntegerRange(_) | NumberRange(_) | BadDirection(_) | BadStatus(_) | UnexpectedField(_)
    | MissingRequired(_) | FrameLength(_) => false
    case ExpectedAtEnd(want) => want < 128
    case Expected(want, _) => want < 128
    case _ => true
  }

  lemma CleanDetail(r: Reason)
    requires Clean(r)
    ensures Utf8.WellFormed(Detail(r))
  {
    if r.ExpectedAtEnd? || r.Expected? || r.InvalidEscape? || r.FrameLength? {
      Utf8.AsciiWellFormed(Detail(r));
    }
  }

  /** A clean reason is sent as UTF-8 text, even when the byte it names is not. */
  lemma MessageWellFormed(r: Reason)
    requires Clean(r)
    ensures Utf8.WellFormed(Message(r))
  {
    CleanDetail(r);
    Utf8.AsciiWellFormed(Ascii(Wording(r)));
    Utf8.ConcatWellFormed(Ascii(Wording(r)), Detail(r));
  }
}
