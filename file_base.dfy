/** What the entry reader and the entry writer share: seek translation, the parsing of
    encoding arguments, and the name lookup with its fallbacks. */
module FileBase {
  import opened Bytes
  import opened Wrappers
  import opened Errors
  import opened Encoding

  /** `IO::SEEK_SET`/`:SET`, `IO::SEEK_CUR`/`:CUR`, `IO::SEEK_END`/`:END`, or anything else. */
  datatype SeekMode = SeekSet | SeekCur | SeekEnd | OtherMode

  /** `relativize(amount, mode)`: the offset from the current position that the seek
      moves by. Seeking from the end of an entry of unknown size fails, as `nil + amount` does. */
  function Relativize(amount: int, mode: SeekMode, pos: int, size: Option<int>): (r: Result<int, Error>)
    ensures mode == OtherMode ==> r == Err(ArgumentError)
    ensures mode == SeekEnd && size.None? ==> r == Err(NoMethodError)
    ensures r.Ok? ==> pos + r.value == (match mode
                                         case SeekSet => amount
                                         case SeekCur => pos + amount
                                         case SeekEnd => size.value + amount
                                         case OtherMode => pos)
  {
    match mode
    case SeekCur => Ok(amount)
    case SeekSet => Ok(amount - pos)
    case SeekEnd => if size.None? then Err(NoMethodError) else Ok(size.value + amount - pos)
    case OtherMode => Err(ArgumentError)
  }

  /** An encoding argument: nil, a name, or an `Encoding` object. */
  datatype EncArg = NoEnc | Name(name: string) | Enc(enc: Encoding)

  const COLON: char := ':'

  function IndexOf(s: string, c: char): (r: nat)
    ensures r <= |s| && c !in s[..r] && (r < |s| ==> s[r] == c)
  {
    if s == [] || s[0] == c then 0 else 1 + IndexOf(s[1..], c)
  }

  /** `s.split(":", 2)`: nothing for the empty string, otherwise the text before the first
      colon and, when there is a colon, everything after it. */
  function SplitColon(s: string): (r: seq<string>)
    ensures s == [] ==> r == []
    ensures s != [] && COLON !in s ==> r == [s]
    ensures COLON in s ==> |r| == 2 && r[0] + [COLON] + r[1] == s && COLON !in r[0]
  {
    if s == [] then []
    else
      var k := IndexOf(s, COLON);
      if k == |s| then
        assert s[..k] == s;
        [s]
      else
        assert s == s[..k] + [COLON] + s[k + 1..];
        [s[..k], s[k + 1..]]
  }

  /** `extract_encodings(external, *internal)`: more than one internal argument is an
      ArgumentError; a lone external name is split at its first colon into external and
      internal names. */
  function ExtractEncodings(ext: EncArg, internal: seq<EncArg>): (r: Result<(EncArg, EncArg), Error>)
    ensures |internal| > 1 <==> r == Err(ArgumentError)
    ensures |internal| == 1 ==> r == Ok((ext, internal[0]))
    ensures internal == [] && !ext.Name? ==> r == Ok((ext, NoEnc))
    ensures internal == [] && ext.Name? ==> r.Ok? && var parts := SplitColon(ext.name);
              r.value == (if parts == [] then NoEnc else Name(parts[0]),
                          if |parts| < 2 then NoEnc else Name(parts[1]))
  {
    if |internal| > 1 then Err(ArgumentError)
    else if ext.NoEnc? || ext.Enc? || |internal| == 1 then
      Ok((ext, if internal == [] then NoEnc else internal[0]))
    else
      var parts := SplitColon(ext.name);
      Ok((if parts == [] then NoEnc else Name(parts[0]),
          if |parts| < 2 then NoEnc else Name(parts[1])))
  }

  /** `find_encoding(arg, if_nil:, if_unsupported:)`: nil or "" gives `ifNil`, an unknown
      name gives `ifUnsupported` (after a warning); it never fails. */
  function FindEncoding(env: Env, arg: EncArg, ifNil: Option<Encoding>, ifUnsupported: Option<Encoding>): (r: Option<Encoding>)
    ensures arg == NoEnc || arg == Name("") ==> r == ifNil
    ensures arg.Enc? ==> r == Some(arg.enc)
    ensures arg.Name? && arg.name != "" && env.find(arg.name).Some? ==> r == env.find(arg.name)
    ensures arg.Name? && arg.name != "" && env.find(arg.name).None? ==> r == ifUnsupported
  {
    match arg
    case NoEnc => ifNil
    case Enc(e) => Some(e)
    case Name(n) => if n == "" then ifNil else if env.find(n).Some? then env.find(n) else ifUnsupported
  }

  /** The encodings `set_encoding` settles on for already extracted arguments: the external
      one falls back to the default external encoding, the internal one is nil when not
      given and the default internal encoding when unknown. */
  function Settle(env: Env, ext: EncArg, internal: EncArg): (r: (Encoding, Option<Encoding>))
    ensures r.1 == FindEncoding(env, internal, None, env.defaultInternal)
    ensures Some(r.0) == FindEncoding(env, ext, Some(env.defaultExternal), Some(env.defaultExternal))
  {
    var e := FindEncoding(env, ext, Some(env.defaultExternal), Some(env.defaultExternal));
    (e.value, FindEncoding(env, internal, None, env.defaultInternal))
  }

  /** `set_encoding` without a byte-order mark: argument extraction, then the lookups. */
  function ResolveEncodings(env: Env, ext: EncArg, internal: seq<EncArg>): (r: Result<(Encoding, Option<Encoding>), Error>)
    ensures r.Err? <==> |internal| > 1
    ensures r.Err? ==> r.error == ArgumentError
  {
    match ExtractEncodings(ext, internal)
    case Err(e) => Err(e)
    case Ok(pair) => Ok(Settle(env, pair.0, pair.1))
  }

  /** "EXT:INT" names both encodings. */
  lemma ColonNamesBoth(env: Env, a: string, b: string)
    requires COLON !in a && a != "" && b != ""
    requires env.find(a).Some? && env.find(b).Some?
    ensures ResolveEncodings(env, Name(a + [COLON] + b), []) == Ok((env.find(a).value, env.find(b)))
  {
    var s := a + [COLON] + b;
    assert COLON in s by { assert s[|a|] == COLON; }
    var parts := SplitColon(s);
    assert parts[0] == a by {
      assert parts[0] + [COLON] + parts[1] == a + [COLON] + b;
      PrefixBeforeColon(parts[0], parts[1], a, b);
    }
  }

  lemma PrefixBeforeColon(x: string, y: string, a: string, b: string)
    requires COLON !in x && COLON !in a && x + [COLON] + y == a + [COLON] + b
    ensures x == a && y == b
  {
    var s := a + [COLON] + b;
    FirstColon(x, y);
    FirstColon(a, b);
    assert x == s[..|x|] == a;
    assert y == s[|x| + 1..] == b;
  }

  lemma {:induction false} FirstColon(p: string, q: string)
    requires COLON !in p
    ensures IndexOf(p + [COLON] + q, COLON) == |p|
  {
    if p != [] {
      assert (p + [COLON] + q)[1..] == p[1..] + [COLON] + q;
      FirstColon(p[1..], q);
    }
  }

  /** Nil or empty names select the defaults, and an omitted internal encoding is nil. */
  lemma DefaultsWhenMissing(env: Env)
    ensures ResolveEncodings(env, NoEnc, []) == Ok((env.defaultExternal, None))
    ensures ResolveEncodings(env, Name(""), []) == Ok((env.defaultExternal, None))
    ensures ResolveEncodings(env, NoEnc, [NoEnc]) == Ok((env.defaultExternal, None))
    ensures ResolveEncodings(env, Name(""), [Name("")]) == Ok((env.defaultExternal, None))
  {
  }

  /** An unknown name falls back rather than failing. */
  lemma UnknownFallsBack(env: Env, a: string, b: string)
    requires a != "" && b != "" && env.find(a).None? && env.find(b).None?
    ensures ResolveEncodings(env, Name(a), [Name(b)]) == Ok((env.defaultExternal, env.defaultInternal))
  {
  }

  /** `binmode?`: the external encoding is BINARY and there is no internal one. */
  predicate IsBinmode(ext: Encoding, internal: Option<Encoding>)
  {
    ext == Binary && internal.None?
  }

  /** `binmode` is `set_encoding(Encoding::BINARY)`, after which `binmode?` holds. */
  lemma BinmodeSetsBinmode(env: Env)
    ensures ResolveEncodings(env, Enc(Binary), []).Ok?
    ensures var r := ResolveEncodings(env, Enc(Binary), []).value; IsBinmode(r.0, r.1)
  {
  }

  /** `/^BOM\|/i`: some line of the name starts with "BOM|", in any letter case. */
  predicate HasBomPrefix(s: string)
  {
    exists k :: 0 <= k <= |s| && BomLineAt(s, k)
  }

  /** A line starts at `k` and its first four characters are "BOM|". */
  predicate BomLineAt(s: string, k: nat)
  {
    k + 4 <= |s| && (k == 0 || s[k - 1] == '\n') && IsBomBar(s[k..k + 4])
  }

  predicate IsBomBar(s: string)
    requires |s| == 4
  {
    (s[0] == 'B' || s[0] == 'b') && (s[1] == 'O' || s[1] == 'o') && (s[2] == 'M' || s[2] == 'm') && s[3] == '|'
  }

  /** "BOM|X" without the marker: `name[4..-1]`. */
  function AfterBomBar(s: string): string
  {
    if |s| >= 4 then s[4..] else []
  }
}
