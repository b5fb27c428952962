/** Character encodings as far as the readers need them: the width range of a character
    and whether a byte string is valid. The host's encoding table, its defaults and its
    transcoder are parameters (`Env`). */
module Encoding {
  import opened Bytes
  import opened Wrappers

  datatype Encoding = Binary | UsAscii | Utf8 | Utf16BE | Utf16LE | Utf32BE | Utf32LE
                    | SingleByte(name: string)

  /** The smallest and largest character width in bytes. */
  function MinMax(e: Encoding): (r: (nat, nat))
    ensures 1 <= r.0 <= r.1 <= 4 && r.1 % r.0 == 0
  {
    match e
    case Utf8 => (1, 4)
    case Utf16BE => (2, 4)
    case Utf16LE => (2, 4)
    case Utf32BE => (4, 4)
    case Utf32LE => (4, 4)
    case _ => (1, 1)
  }

  predicate IsTail(b: byte)
  {
    0x80 <= b <= 0xBF
  }

  /** The length of the UTF-8 character at the start of `s` (section 4 of RFC 3629), or 0
      when `s` does not start with one. */
  function Utf8CharLen(s: seq<byte>): (r: nat)
    ensures r <= 4 && r <= |s| && (s == [] ==> r == 0)
  {
    if s == [] then 0
    else if s[0] <= 0x7F then 1
    else if 0xC2 <= s[0] <= 0xDF then (if |s| >= 2 && IsTail(s[1]) then 2 else 0)
    else if s[0] == 0xE0 then (if |s| >= 3 && 0xA0 <= s[1] <= 0xBF && IsTail(s[2]) then 3 else 0)
    else if 0xE1 <= s[0] <= 0xEC || 0xEE <= s[0] <= 0xEF then
      (if |s| >= 3 && IsTail(s[1]) && IsTail(s[2]) then 3 else 0)
    else if s[0] == 0xED then (if |s| >= 3 && 0x80 <= s[1] <= 0x9F && IsTail(s[2]) then 3 else 0)
    else if s[0] == 0xF0 then
      (if |s| >= 4 && 0x90 <= s[1] <= 0xBF && IsTail(s[2]) && IsTail(s[3]) then 4 else 0)
    else if 0xF1 <= s[0] <= 0xF3 then
      (if |s| >= 4 && IsTail(s[1]) && IsTail(s[2]) && IsTail(s[3]) then 4 else 0)
    else if s[0] == 0xF4 then
      (if |s| >= 4 && 0x80 <= s[1] <= 0x8F && IsTail(s[2]) && IsTail(s[3]) then 4 else 0)
    else 0
  }

  predicate ValidUtf8(s: seq<byte>)
    decreases |s|
  {
    s == [] || (Utf8CharLen(s) > 0 && ValidUtf8(s[Utf8CharLen(s)..]))
  }

  /** The 16-bit code unit at the start of `s`. */
  function Unit16(s: seq<byte>, bigEndian: bool): int
    requires |s| >= 2
  {
    if bigEndian then s[0] as int * 256 + s[1] else s[1] as int * 256 + s[0]
  }

  predicate ValidUtf16(s: seq<byte>, bigEndian: bool)
    decreases |s|
  {
    if s == [] then true
    else if |s| < 2 then false
    else
      var u := Unit16(s, bigEndian);
      if 0xD800 <= u <= 0xDBFF then
        |s| >= 4 && 0xDC00 <= Unit16(s[2..], bigEndian) <= 0xDFFF && ValidUtf16(s[4..], bigEndian)
      else if 0xDC00 <= u <= 0xDFFF then false
      else ValidUtf16(s[2..], bigEndian)
  }

  function Unit32(s: seq<byte>, bigEndian: bool): int
    requires |s| >= 4
  {
    if bigEndian then ((s[0] as int * 256 + s[1]) * 256 + s[2]) * 256 + s[3]
    else ((s[3] as int * 256 + s[2]) * 256 + s[1]) * 256 + s[0]
  }

  predicate ValidUtf32(s: seq<byte>, bigEndian: bool)
    decreases |s|
  {
    if s == [] then true
    else if |s| < 4 then false
    else
      var u := Unit32(s, bigEndian);
      u <= 0x10FFFF && !(0xD800 <= u <= 0xDFFF) && ValidUtf32(s[4..], bigEndian)
  }

  /** `valid_encoding?` of the bytes `s` tagged with `e`. */
  predicate Valid(e: Encoding, s: seq<byte>)
  {
    match e
    case UsAscii => forall i :: 0 <= i < |s| ==> s[i] < 0x80
    case Utf8 => ValidUtf8(s)
    case Utf16BE => ValidUtf16(s, true)
    case Utf16LE => ValidUtf16(s, false)
    case Utf32BE => ValidUtf32(s, true)
    case Utf32LE => ValidUtf32(s, false)
    case _ => true
  }

  /** A byte string shorter than the smallest character is never valid unless empty. */
  lemma ShortIsInvalid(e: Encoding, s: seq<byte>)
    requires 0 < |s| < MinMax(e).0
    ensures !Valid(e, s)
  {
  }

  /** Every single byte is a character in encodings of width one except US-ASCII. */
  lemma SingleBytesValid(e: Encoding, b: byte)
    requires MinMax(e).1 == 1 && (e == UsAscii ==> b < 0x80)
    ensures Valid(e, [b])
  {
  }

  lemma AsciiValidUtf8(b: byte)
    requires b < 0x80
    ensures ValidUtf8([b])
  {
    assert [b][1..] == [];
  }

  /** `Encoding#ascii_compatible?`: every encoding here but the UTF-16 and UTF-32 ones
      (the single-byte table encodings are all ASCII supersets). */
  predicate AsciiCompatible(e: Encoding)
  {
    !(e.Utf16BE? || e.Utf16LE? || e.Utf32BE? || e.Utf32LE?)
  }

  /** Every byte is below 0x80 (the "7bit" code range). */
  predicate AsciiOnly(s: seq<byte>)
  {
    forall i :: 0 <= i < |s| ==> s[i] < 0x80
  }

  /** Whether two strings may meet in one operation (`rb_enc_compatible`): the same
      encoding, or one of them empty, or both encodings ASCII supersets with at least
      one of the strings plain ASCII. */
  predicate Compatible(e1: Encoding, s1: seq<byte>, e2: Encoding, s2: seq<byte>)
  {
    e1 == e2 || s1 == [] || s2 == [] || (AsciiCompatible(e1) && AsciiCompatible(e2) && (AsciiOnly(s1) || AsciiOnly(s2)))
  }

  /** A UTF-16 code unit byte that starts a low surrogate (DC00..DFFF). */
  predicate LowSurrogateByte(b: byte)
  {
    0xDC <= b <= 0xDF
  }

  /** Offset `i` of `s` starts a character, as the encoding's left-adjust rule sees it:
      UTF-8 backs up over continuation bytes, UTF-16 to an even offset and over the second
      half of a surrogate pair, UTF-32 to a multiple of four; single bytes never move. */
  predicate CharHead(e: Encoding, s: seq<byte>, i: nat)
    requires i < |s|
  {
    i == 0 ||
    match e
    case Utf8 => !IsTail(s[i])
    case Utf16BE => i % 2 == 0 && !(i >= 2 && LowSurrogateByte(s[i]))
    case Utf16LE => i % 2 == 0 && !(i >= 2 && i + 1 < |s| && LowSurrogateByte(s[i + 1]))
    case Utf32BE => i % 4 == 0
    case Utf32LE => i % 4 == 0
    case _ => true
  }

  /** Transcoder options (`universal_newline: true`, ...), passed through unread. */
  type Options = seq<(string, string)>

  /** What the model takes from the host: the process-wide default encodings, the
      encoding name table (`Encoding.find`, None when the name is unknown), the transcoder
      (`String#encode`) and the input record separator `$/` with its encoding (US-ASCII
      for the standard "\n"). */
  datatype Env = Env(
    defaultExternal: Encoding,
    defaultInternal: Option<Encoding>,
    find: string -> Option<Encoding>,
    transcode: (seq<byte>, Encoding, Encoding, Options) -> seq<byte>,
    recordSeparator: Option<seq<byte>>,
    recordSeparatorEnc: Encoding)

  /** `encode(data)`: the data as external-encoding text, converted to the internal
      encoding when there is one. */
  function Encode(env: Env, data: seq<byte>, ext: Encoding, internal: Option<Encoding>, opts: Options): (r: seq<byte>)
    ensures internal.None? ==> r == data
  {
    if internal.None? then data else env.transcode(data, ext, internal.value, opts)
  }

  /** `str.encode(to)` for a string tagged `from`: unchanged when the encodings agree. */
  function Convert(env: Env, data: seq<byte>, from: Encoding, to: Encoding): (r: seq<byte>)
    ensures from == to ==> r == data
  {
    if from == to then data else env.transcode(data, from, to, [])
  }
}
