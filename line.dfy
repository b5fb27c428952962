/** `Tar::File::Line`: how the arguments of `gets`, `readline` and `each_line` become a
    separator, a limit and (in paragraph mode) a run of newlines to skip, and what one
    `read` of a line does to an open entry reader's state. */
module Line {
  import opened Bytes
  import opened Wrappers
  import opened Errors
  import opened Encoding
  import opened EntryState

  /** An argument as the line reader sees it: nil, a string with its encoding, something
      that answers `to_int`, or anything else. */
  datatype Arg = Nil | Str(bytes: seq<byte>, enc: Encoding) | Int(n: int) | Other

  /** `@separator`, `@limit` and `@skip`, with the encoding the separator string carries:
      the line encoding for a separator given as an argument, `$/`'s own otherwise. */
  datatype Spec = Spec(separator: Option<seq<byte>>, limit: Option<int>, skip: Option<seq<byte>>, sepEnc: Encoding)

  const NEWLINE: seq<byte> := [0x0A]
  const PARAGRAPH: seq<byte> := [0x0A, 0x0A]

  /** `encoding`: the internal encoding if there is one, else the external one. */
  function LineEncoding(codec: Codec): (r: Encoding)
    ensures codec.internal.None? ==> r == codec.ext
    ensures codec.internal.Some? ==> r == codec.internal.value
  {
    if codec.internal.Some? then codec.internal.value else codec.ext
  }

  /** `extract_separator`: nil gives no separator; "" gives paragraph mode; a string is
      converted to the line encoding; anything else fails in `to_str`. Reading the line
      encoding of a closed reader is an IOError. */
  function Separator(env: Env, closed: bool, codec: Codec, a: Arg): (r: Result<(Option<seq<byte>>, Option<seq<byte>>), Error>)
    ensures a.Nil? ==> r == Ok((None, None))
    ensures (a.Int? || a.Other?) ==> r == Err(NoMethodError)
    ensures a.Str? && closed ==> r == Err(IOError)
    ensures a.Str? && !closed && a.bytes != [] ==>
      r == Ok((Some(Convert(env, a.bytes, a.enc, LineEncoding(codec))), None))
    ensures a.Str? && !closed && a.bytes == [] ==>
      r == Ok((Some(Convert(env, PARAGRAPH, Utf8, LineEncoding(codec))), Some(Convert(env, NEWLINE, Utf8, LineEncoding(codec)))))
  {
    match a
    case Nil => Ok((None, None))
    case Str(bytes, enc) =>
      if closed then Err(IOError)
      else if bytes == [] then
        Ok((Some(Convert(env, PARAGRAPH, Utf8, LineEncoding(codec))), Some(Convert(env, NEWLINE, Utf8, LineEncoding(codec)))))
      else Ok((Some(Convert(env, bytes, enc, LineEncoding(codec))), None))
    case _ => Err(NoMethodError)
  }

  /** `extract_limit`: nil and negative limits mean no limit; only `to_int` is accepted. */
  function Limit(a: Arg): (r: Result<Option<int>, Error>)
    ensures r.Ok? <==> (a.Nil? || a.Int?)
    ensures r.Ok? && r.value.Some? ==> a == Int(r.value.value) && r.value.value >= 0
    ensures a.Int? && a.n >= 0 ==> r == Ok(Some(a.n))
    ensures r.Err? ==> r.error == NoMethodError
  {
    match a
    case Nil => Ok(None)
    case Int(n) => if n < 0 then Ok(None) else Ok(Some(n))
    case _ => Err(NoMethodError)
  }

  /** `Line.new(file, *args)`: none, one or two arguments. The default separator is `$/`
      as it stands, not converted to the line encoding. */
  function ParseArgs(env: Env, closed: bool, codec: Codec, args: seq<Arg>): (r: Result<Spec, Error>)
  {
    if |args| == 0 then Ok(Spec(env.recordSeparator, None, None, env.recordSeparatorEnc))
    else if |args| == 1 then
      if args[0].Int? then
        var l := Limit(args[0]);
        if l.Err? then Err(l.error) else Ok(Spec(env.recordSeparator, l.value, None, env.recordSeparatorEnc))
      else
        var sep := Separator(env, closed, codec, args[0]);
        if sep.Err? then Err(sep.error) else Ok(Spec(sep.value.0, None, sep.value.1, LineEncoding(codec)))
    else if |args| == 2 then
      var sep := Separator(env, closed, codec, args[0]);
      if sep.Err? then Err(sep.error)
      else
        var l := Limit(args[1]);
        if l.Err? then Err(l.error) else Ok(Spec(sep.value.0, l.value, sep.value.1, LineEncoding(codec)))
    else Err(ArgumentError)
  }

  /** More than two arguments is the only ArgumentError; a lone integer-like argument is a
      limit under the default separator, a lone other argument a separator with no limit. */
  lemma ArgsShape(env: Env, closed: bool, codec: Codec, args: seq<Arg>)
    ensures var r := ParseArgs(env, closed, codec, args);
      (|args| > 2 <==> r == Err(ArgumentError))
      && (|args| == 0 ==> r == Ok(Spec(env.recordSeparator, None, None, env.recordSeparatorEnc)))
      && (|args| == 1 && args[0].Int? ==>
            r == Ok(Spec(env.recordSeparator, if args[0].n < 0 then None else Some(args[0].n), None, env.recordSeparatorEnc)))
      && (|args| == 1 && !args[0].Int? && r.Ok? ==> r.value.limit.None?)
      && (|args| == 1 && args[0] == Nil ==> r == Ok(Spec(None, None, None, LineEncoding(codec))))
  {
  }

  /** A negative or nil limit is no limit at all. */
  lemma UnlimitedLimits(env: Env, closed: bool, codec: Codec, sep: Arg, n: int)
    requires n < 0
    ensures ParseArgs(env, closed, codec, [sep, Int(n)]) == ParseArgs(env, closed, codec, [sep, Nil])
    ensures ParseArgs(env, closed, codec, [Int(n)]) == ParseArgs(env, closed, codec, [])
  {
  }

  /** Paragraph mode: "" separates at blank lines and skips runs of newlines. */
  lemma ParagraphMode(env: Env, codec: Codec, enc: Encoding)
    ensures var e := LineEncoding(codec);
      ParseArgs(env, false, codec, [Str([], enc)])
        == Ok(Spec(Some(Convert(env, PARAGRAPH, Utf8, e)), None, Some(Convert(env, NEWLINE, Utf8, e)), e))
  {
  }

  /** `line.end_with?(sep)` for a line in encoding `e`, once the two strings are found
      compatible: the last bytes are `sep` and they start on a character of the line. */
  predicate EndsWith(e: Encoding, line: seq<byte>, sep: seq<byte>)
  {
    sep == [] || (|sep| <= |line| && CharHead(e, line, |line| - |sep|) && line[|line| - |sep|..] == sep)
  }

  /** `end_with?` raises Encoding::CompatibilityError before it compares anything when the
      line and the separator cannot meet: with the default `$/` (US-ASCII) that is every
      non-empty line in UTF-16 or UTF-32. */
  predicate SeparatorClash(codec: Codec, spec: Spec, line: seq<byte>)
  {
    spec.separator.Some? && !Compatible(LineEncoding(codec), line, spec.sepEnc, spec.separator.value)
  }

  /** `reached_separator?` where it does not raise. */
  predicate ReachedSeparator(codec: Codec, spec: Spec, line: seq<byte>)
  {
    spec.separator.Some? && EndsWith(LineEncoding(codec), line, spec.separator.value)
  }

  /** `stop_reading?` where it does not raise: the separator ends the line, the limit is
      reached, or the entry is. */
  predicate StopReading(codec: Codec, spec: Spec, size: int, s: State, line: seq<byte>)
  {
    ReachedSeparator(codec, spec, line) || (spec.limit.Some? && |line| >= spec.limit.value) || AtEof(size, s)
  }

  /** `after` lies `k` bytes further on in the stream of `s`, for some `k` in range. */
  predicate Span(s: State, after: State)
  {
    0 <= after.pos - s.pos <= |Left(s)| && after == Advance(s, after.pos - s.pos)
  }

  predicate Extends(line: seq<byte>, longer: seq<byte>)
  {
    |line| <= |longer| && longer[..|line|] == line
  }

  /** What a finished line loop promises: the line only grew, it ends where reading
      stops, and without an internal encoding it gained exactly the bytes moved over;
      when there was anything to read, the state moved on; the separator test did not
      raise on the final line. */
  predicate LineDone(codec: Codec, size: int, spec: Spec, s: State, line: seq<byte>, res: seq<byte>, after: State)
  {
    Span(s, after) && !SeparatorClash(codec, spec, res) && StopReading(codec, spec, size, after, res) && Extends(line, res)
    && (codec.internal.None? ==> res == line + Left(s)[..after.pos - s.pos])
    && (!StopReading(codec, spec, size, s, line) ==> after.pos > s.pos)
  }

  /** `line << @file.getc until stop_reading?(line)`; the separator test comes first, and
      when it raises the loop ends with that error where it stands. */
  function ReadLineLoop(env: Env, codec: Codec, size: int, spec: Spec, s: State, line: seq<byte>): (r: Out<seq<byte>>)
    ensures SeparatorClash(codec, spec, line) ==> r == Out(Err(EncodingCompatibilityError), s)
    ensures r.result.Ok? ==> LineDone(codec, size, spec, s, line, r.result.value, r.after)
    decreases size - s.pos, 1
  {
    if SeparatorClash(codec, spec, line) then Out(Err(EncodingCompatibilityError), s)
    else if StopReading(codec, spec, size, s, line) then
      assert Left(s)[..0] == [] && Advance(s, 0) == s && line[..|line|] == line;
      Out(Ok(line), s)
    else ReadLineOn(env, codec, size, spec, s, line)
  }

  /** One turn of that loop inside the entry: `line << @file.getc`, then the rest. */
  function ReadLineOn(env: Env, codec: Codec, size: int, spec: Spec, s: State, line: seq<byte>): (r: Out<seq<byte>>)
    requires !AtEof(size, s)
    ensures r.result.Ok? ==> LineDone(codec, size, spec, s, line, r.result.value, r.after)
    decreases size - s.pos, 0
  {
    var g := Getc(env, codec, size, s);
    if g.result.Err? then Out(Err(g.result.error), g.after)
    else
      var c := g.result.value.value;
      var r := ReadLineLoop(env, codec, size, spec, g.after, line + c);
      if r.result.Ok? then
        LineOn(codec, size, spec, s, g.after, r.after, line, c, r.result.value);
        r
      else r
  }

  /** The limit is checked between characters: a character that carries the line past
      the limit is kept whole, and reading stops after it. */
  lemma LimitStopsAfterChar(env: Env, codec: Codec, size: int, spec: Spec, s: State, line: seq<byte>, c: seq<byte>, mid: State)
    requires !SeparatorClash(codec, spec, line) && !SeparatorClash(codec, spec, line + c)
    requires !StopReading(codec, spec, size, s, line) && Getc(env, codec, size, s) == Out(Ok(Some(c)), mid)
    requires spec.limit.Some? && |line + c| >= spec.limit.value
    ensures ReadLineLoop(env, codec, size, spec, s, line) == Out(Ok(line + c), mid)
  {
    assert ReadLineLoop(env, codec, size, spec, mid, line + c) == Out(Ok(line + c), mid);
  }

  /** "whā/" in UTF-8. */
  const WHA: seq<byte> := [0x77, 0x68, 0xC4, 0x81, 0x2F]

  /** `getc` after "wh" takes both bytes of "ā". */
  lemma GetcMacron(env: Env, codec: Codec)
    requires codec.ext == Utf8 && codec.internal.None?
    ensures Getc(env, codec, 5, State(WHA, 2, 2, 0)) == Out(Ok(Some([0xC4, 0x81])), State(WHA, 4, 4, 0))
  {
    var s := State(WHA, 2, 2, 0);
    var w := Window(5, Utf8, s);
    assert w == [0xC4, 0x81, 0x2F];
    assert w[..2] == [0xC4, 0x81] && w[..1] == [0xC4];
    assert [0xC4, 0x81][2..] == [];
    assert ValidUtf8(w[..2]) && !ValidUtf8(w[..1]);
    GetcShortestValid(env, codec, 5, s, 2);
  }

  /** `gets("/", 3)` on "whā/": once "wh" is in, "ā" takes the line to four bytes. */
  lemma LimitExample(env: Env, opts: Options)
    ensures ReadLineLoop(env, Codec(Utf8, None, opts), 5, Spec(Some([0x2F]), Some(3), None, Utf8), State(WHA, 2, 2, 0), [0x77, 0x68])
        == Out(Ok(WHA[..4]), State(WHA, 4, 4, 0))
  {
    var codec := Codec(Utf8, None, opts);
    GetcMacron(env, codec);
    assert [0x77, 0x68] + [0xC4, 0x81] == WHA[..4];
    LimitStopsAfterChar(env, codec, 5, Spec(Some([0x2F]), Some(3), None, Utf8), State(WHA, 2, 2, 0), [0x77, 0x68], [0xC4, 0x81], State(WHA, 4, 4, 0));
  }

  /** One character, then the rest of the line. */
  lemma LineOn(codec: Codec, size: int, spec: Spec, s: State, mid: State, after: State, line: seq<byte>, c: seq<byte>, res: seq<byte>)
    requires Span(s, mid) && mid.pos > s.pos
    requires codec.internal.None? ==> c == Left(s)[..mid.pos - s.pos]
    requires LineDone(codec, size, spec, mid, line + c, res, after)
    ensures LineDone(codec, size, spec, s, line, res, after)
  {
    var k := mid.pos - s.pos;
    var m := after.pos - mid.pos;
    assert Left(mid) == Left(s)[k..];
    JoinSlices(Left(s), k, m);
    assert res[..|line + c|][..|line|] == line;
    if codec.internal.None? {
      assert line + c + Left(mid)[..m] == line + (Left(s)[..k] + Left(s)[k..][..m]);
    }
  }

  /** `read_line`: a fresh line, and `lineno` counts it only when it ends with the
      separator; an incompatible separator raises instead. */
  function ReadLine(env: Env, codec: Codec, size: int, spec: Spec, s: State): (r: Out<seq<byte>>)
    ensures r.result.Ok? ==>
      var k := r.after.pos - s.pos;
      0 <= k <= |Left(s)| && r.after.data == s.data && r.after.at == s.at + k
      && !SeparatorClash(codec, spec, r.result.value)
      && StopReading(codec, spec, size, r.after, r.result.value)
      && r.after.lineno == s.lineno + (if ReachedSeparator(codec, spec, r.result.value) then 1 else 0)
      && (codec.internal.None? ==> r.result.value == Left(s)[..k])
      && (!StopReading(codec, spec, size, s, []) ==> k > 0)
  {
    var r := ReadLineLoop(env, codec, size, spec, s, []);
    if r.result.Ok? then
      assert [] + Left(s)[..r.after.pos - s.pos] == Left(s)[..r.after.pos - s.pos];
      if ReachedSeparator(codec, spec, r.result.value) then Out(r.result, r.after.(lineno := r.after.lineno + 1))
      else r
    else r
  }

  /** A separator given as an argument is converted to the line encoding, so its test
      never raises. */
  lemma ArgumentSeparatorNeverClashes(env: Env, closed: bool, codec: Codec, args: seq<Arg>, line: seq<byte>)
    requires 1 <= |args| && !args[0].Int? && ParseArgs(env, closed, codec, args).Ok?
    ensures !SeparatorClash(codec, ParseArgs(env, closed, codec, args).value, line)
  {
  }

  /** The default `$/`, left in its own encoding, cannot meet a non-empty line in an
      encoding that is not an ASCII superset: both `gets` and `gets(limit)` get a separator
      whose test raises. */
  lemma DefaultSeparatorClashes(env: Env, codec: Codec, args: seq<Arg>, line: seq<byte>)
    requires |args| == 0 || (|args| == 1 && args[0].Int?)
    requires !AsciiCompatible(LineEncoding(codec)) && env.recordSeparatorEnc != LineEncoding(codec)
    requires env.recordSeparator.Some? && env.recordSeparator.value != [] && line != []
    ensures ParseArgs(env, false, codec, args).Ok? && SeparatorClash(codec, ParseArgs(env, false, codec, args).value, line)
  {
  }

  /** With such a separator `read_line` takes one character and then raises
      Encoding::CompatibilityError, leaving the stream after that character and `lineno`
      where it was. */
  lemma ClashAfterFirstChar(env: Env, codec: Codec, size: int, spec: Spec, s: State, c: seq<byte>, mid: State)
    requires spec.separator.Some? && spec.separator.value != [] && (spec.limit.Some? ==> spec.limit.value > 0)
    requires !Compatible(LineEncoding(codec), c, spec.sepEnc, spec.separator.value)
    requires !AtEof(size, s) && Getc(env, codec, size, s) == Out(Ok(Some(c)), mid)
    ensures ReadLine(env, codec, size, spec, s) == Out(Err(EncodingCompatibilityError), mid)
  {
    assert !SeparatorClash(codec, spec, []) && !StopReading(codec, spec, size, s, []);
    assert ReadLineLoop(env, codec, size, spec, s, []) == ReadLineOn(env, codec, size, spec, s, []);
    assert [] + c == c;
    LoopAfterGetc(env, codec, size, spec, s, [], c, mid);
    assert SeparatorClash(codec, spec, c);
  }

  /** A turn of the loop that reads `c` goes on with the line extended by it. */
  lemma LoopAfterGetc(env: Env, codec: Codec, size: int, spec: Spec, s: State, line: seq<byte>, c: seq<byte>, mid: State)
    requires !AtEof(size, s) && Getc(env, codec, size, s) == Out(Ok(Some(c)), mid)
    ensures ReadLineOn(env, codec, size, spec, s, line) == ReadLineLoop(env, codec, size, spec, mid, line + c)
  {
  }

  /** "a\n" in UTF-16BE. */
  const WIDE: seq<byte> := [0x00, 0x61, 0x00, 0x0A]

  /** `getc` on it takes the two bytes of "a". */
  lemma GetcWide(env: Env, codec: Codec)
    requires codec.ext == Utf16BE && codec.internal.None?
    ensures Getc(env, codec, 4, State(WIDE, 0, 0, 0)) == Out(Ok(Some([0x00, 0x61])), State(WIDE, 2, 2, 0))
  {
    var s := State(WIDE, 0, 0, 0);
    var w := Window(4, Utf16BE, s);
    assert w == WIDE;
    assert w[..2] == [0x00, 0x61] && [0x00, 0x61][2..] == [];
    assert Valid(Utf16BE, w[..2]);
    GetcShortestValid(env, codec, 4, s, 2);
  }

  /** `gets` with the standard `$/` on that entry read as UTF-16BE: "a" is read, then the
      separator test raises, and no line is returned. */
  lemma WideGetsRaises(env: Env, opts: Options)
    requires env.recordSeparator == Some(NEWLINE) && env.recordSeparatorEnc == UsAscii
    ensures Gets(env, false, Codec(Utf16BE, None, opts), 4, State(WIDE, 0, 0, 0), [])
        == Out(Err(EncodingCompatibilityError), State(WIDE, 2, 2, 0))
  {
    var codec := Codec(Utf16BE, None, opts);
    var spec := Spec(Some(NEWLINE), None, None, UsAscii);
    var s := State(WIDE, 0, 0, 0);
    var mid := State(WIDE, 2, 2, 0);
    assert ParseArgs(env, false, codec, []) == Ok(spec);
    GetcWide(env, codec);
    assert !Compatible(Utf16BE, [0x00, 0x61], UsAscii, NEWLINE);
    ClashAfterFirstChar(env, codec, 4, spec, s, [0x00, 0x61], mid);
    LineReadRaises(env, codec, 4, spec, s, mid);
  }

  /** Outside paragraph mode, a line read that raises is `read_line` raising. */
  lemma LineReadRaises(env: Env, codec: Codec, size: int, spec: Spec, s: State, mid: State)
    requires spec.separator.Some? && spec.skip.None?
    requires ReadLine(env, codec, size, spec, s) == Out(Err(EncodingCompatibilityError), mid)
    ensures LineRead(env, codec, size, spec, s) == Out(Err(EncodingCompatibilityError), mid)
  {
  }

  /** A match must start a character: "ā" (C4 81) does not end with the byte 81 in UTF-8,
      though it does as binary; in UTF-16LE a match at an odd offset does not count. */
  lemma MatchStartsACharacter()
    ensures !EndsWith(Utf8, [0xC4, 0x81], [0x81]) && EndsWith(Utf8, [0xC4, 0x81], [0xC4, 0x81])
    ensures EndsWith(Binary, [0xC4, 0x81], [0x81])
    ensures !EndsWith(Utf16LE, [0x05, 0x0A], [0x0A]) && EndsWith(Utf16LE, [0x61, 0x00, 0x0A, 0x00], [0x0A, 0x00])
  {
  }

  /** `skip_newlines`: read characters while they are `skip`; the first other one is
      pushed back (converted from the line encoding to the external one). */
  function SkipNewlines(env: Env, codec: Codec, size: int, skip: seq<byte>, s: State): (r: Out<()>)
    ensures r.result.Ok? ==> r.after.lineno == s.lineno
    decreases size - s.pos, 1
  {
    if AtEof(size, s) then Out(Ok(()), s) else SkipNext(env, codec, size, skip, s)
  }

  /** One turn of `skip_newlines` inside the entry: a `skip` character read goes on skipping. */
  function SkipNext(env: Env, codec: Codec, size: int, skip: seq<byte>, s: State): (r: Out<()>)
    requires !AtEof(size, s)
    ensures r.result.Ok? ==> r.after.lineno == s.lineno
    decreases size - s.pos, 0
  {
    var g := Getc(env, codec, size, s);
    if g.result.Err? then Out(Err(g.result.error), g.after)
    else
      var c := g.result.value.value;
      if c != skip then Out(Ok(()), Ungetc(env, codec, g.after, c, LineEncoding(codec)))
      else SkipNewlines(env, codec, size, skip, g.after)
  }

  /** `after` lies a run of whole `skip` characters further on than `s`. */
  predicate Skipped(skip: seq<byte>, s: State, after: State)
  {
    Span(s, after) && AllSkips(Left(s)[..after.pos - s.pos], skip)
  }

  /** Without an internal encoding, skipping moves over whole `skip` characters only and
      stops at the end of the entry or before the first other character. */
  lemma {:induction false} SkipMovesOverSkips(env: Env, codec: Codec, size: int, skip: seq<byte>, s: State)
    requires codec.internal.None? && s.at <= |s.data|
    ensures var r := SkipNewlines(env, codec, size, skip, s);
      r.result.Ok? ==> Skipped(skip, s, r.after)
    decreases size - s.pos
  {
    if AtEof(size, s) {
      assert Left(s)[..0] == [] && Advance(s, 0) == s;
    } else {
      var g := Getc(env, codec, size, s);
      if g.result.Ok? {
        var c := g.result.value.value;
        if c != skip {
          GetcUngetcRestores(env, codec, size, s);
          assert Left(s)[..0] == [] && Advance(s, 0) == s;
        } else {
          SkipMovesOverSkips(env, codec, size, skip, g.after);
          var r := SkipNewlines(env, codec, size, skip, g.after);
          if r.result.Ok? {
            SkipOn(skip, s, g.after, r.after, c);
          }
        }
      }
    }
  }

  /** One `skip` character, then a run of them. */
  lemma SkipOn(skip: seq<byte>, s: State, mid: State, after: State, c: seq<byte>)
    requires Span(s, mid) && mid.pos > s.pos && c == Left(s)[..mid.pos - s.pos] && c == skip
    requires Skipped(skip, mid, after)
    ensures Skipped(skip, s, after)
  {
    var k := mid.pos - s.pos;
    var m := after.pos - mid.pos;
    assert Left(mid) == Left(s)[k..];
    JoinSlices(Left(s), k, m);
    SkipsJoin(c, Left(mid)[..m], skip);
  }

  /** `b` is a run of copies of `skip`. */
  predicate AllSkips(b: seq<byte>, skip: seq<byte>)
    decreases |b|
  {
    b == [] || (|skip| > 0 && |skip| <= |b| && b[..|skip|] == skip && AllSkips(b[|skip|..], skip))
  }

  lemma SkipsJoin(c: seq<byte>, rest: seq<byte>, skip: seq<byte>)
    requires c == skip && |c| > 0 && AllSkips(rest, skip)
    ensures AllSkips(c + rest, skip)
  {
    assert (c + rest)[..|skip|] == skip && (c + rest)[|skip|..] == rest;
  }

  /** `Line#read` on an open reader: the rest of the entry when there is neither separator
      nor limit; otherwise a line, with newlines skipped around it in paragraph mode. */
  function LineRead(env: Env, codec: Codec, size: int, spec: Spec, s: State): (r: Out<seq<byte>>)
    ensures r.result.Ok? && codec.internal.None? && s.at <= |s.data| ==>
      Moved(s, r.after) && (!AtEof(size, s) && Advancing(spec) ==> r.after.at > s.at)
  {
    if spec.separator.None? && spec.limit.None? then Read(env, codec, size, s, None)
    else
      var before := Skip(env, codec, size, spec.skip, s);
      if before.result.Err? then Out(Err(before.result.error), before.after)
      else
        var line := ReadLine(env, codec, size, spec, before.after);
        if line.result.Err? then line
        else
          var after := Skip(env, codec, size, spec.skip, line.after);
          if after.result.Err? then Out(Err(after.result.error), after.after)
          else
            assert codec.internal.None? && s.at <= |s.data| && !AtEof(size, s) && Advancing(spec) ==>
              (!AtEof(size, before.after) ==> !StopReading(codec, spec, size, before.after, []));
            Out(line.result, after.after)
  }

  /** The stream and `pos` moved forward together, within the stream. */
  predicate Moved(s: State, after: State)
  {
    after.data == s.data && s.at <= after.at <= |s.data| && after.pos - s.pos == after.at - s.at
  }

  /** `skip_newlines if @skip`. */
  function Skip(env: Env, codec: Codec, size: int, skip: Option<seq<byte>>, s: State): (r: Out<()>)
    ensures skip.None? ==> r == Out(Ok(()), s)
    ensures r.result.Ok? && codec.internal.None? && s.at <= |s.data| ==>
      Span(s, r.after) && r.after.lineno == s.lineno
  {
    if skip.None? then Out(Ok(()), s)
    else
      var r := SkipNewlines(env, codec, size, skip.value, s);
      if codec.internal.None? && s.at <= |s.data| then
        SkipMovesOverSkips(env, codec, size, skip.value, s);
        r
      else r
  }

  /** With neither separator nor limit the line is `read()`: the rest of the entry, and
      `lineno` does not move. */
  lemma ReadToEofKeepsLineno(env: Env, codec: Codec, size: int, s: State)
    requires Pending(size, s) <= |Left(s)|
    ensures var r := LineRead(env, codec, size, Spec(None, None, None, LineEncoding(codec)), s);
      r.result == Ok(Encode(env, Left(s)[..Pending(size, s)], codec.ext, codec.internal, codec.opts))
      && r.after.lineno == s.lineno && AtEof(size, r.after)
  {
    ReadAllReachesEof(env, codec, size, s);
  }

  /** Outside paragraph mode, `lineno` moves by one exactly when the line returned ends
      with the separator, and a line cut by the limit alone is not counted. */
  lemma LinenoCountsSeparators(env: Env, codec: Codec, size: int, spec: Spec, s: State)
    requires spec.skip.None? && (spec.separator.Some? || spec.limit.Some?)
    ensures var r := LineRead(env, codec, size, spec, s);
      r.result.Ok? ==>
        r.after.lineno == s.lineno + (if ReachedSeparator(codec, spec, r.result.value) then 1 else 0)
  {
  }

  /** `gets(*args)`: the arguments are checked first, then the closed state; nil at the end
      of the entry. */
  function Gets(env: Env, closed: bool, codec: Codec, size: int, s: State, args: seq<Arg>): (r: Out<Option<seq<byte>>>)
    ensures var spec := ParseArgs(env, closed, codec, args);
      (spec.Err? ==> r == Out(Err(spec.error), s))
      && (spec.Ok? && closed ==> r == Out(Err(IOError), s))
      && (spec.Ok? && !closed && AtEof(size, s) ==> r == Out(Ok(None), s))
      && (spec.Ok? && !closed && !AtEof(size, s) ==> r.result != Ok(None))
  {
    var spec := ParseArgs(env, closed, codec, args);
    if spec.Err? then Out(Err(spec.error), s)
    else if closed then Out(Err(IOError), s)
    else if AtEof(size, s) then Out(Ok(None), s)
    else
      var l := LineRead(env, codec, size, spec.value, s);
      Out(if l.result.Ok? then Ok(Some(l.result.value)) else Err(l.result.error), l.after)
  }

  /** `readline(*args)`: as `gets`, but EOFError at the end of the entry. */
  function ReadLineOrFail(env: Env, closed: bool, codec: Codec, size: int, s: State, args: seq<Arg>): (r: Out<seq<byte>>)
    ensures var g := Gets(env, closed, codec, size, s, args);
      (g.result == Ok(None) <==> r.result == Err(EOFError) && !closed && AtEof(size, s) && ParseArgs(env, closed, codec, args).Ok?)
      && r.after == g.after
      && (g.result.Ok? && g.result.value.Some? ==> r.result == Ok(g.result.value.value))
  {
    var g := Gets(env, closed, codec, size, s, args);
    if g.result.Err? then Out(Err(g.result.error), g.after)
    else if g.result.value.None? then Out(Err(EOFError), g.after)
    else Out(Ok(g.result.value.value), g.after)
  }

  /** `yield step until eof?`: at most `fuel` rounds of `step`, each yielding what it read,
      until the end of the entry or the first error. */
  function Rounds(step: State -> Out<seq<byte>>, size: int, s: State, fuel: nat): Yield<seq<byte>>
    decreases fuel
  {
    if AtEof(size, s) || fuel == 0 then Yield([], None, s)
    else
      var l := step(s);
      if l.result.Err? then Yield([], Some(l.result.error), l.after)
      else
        var rest := Rounds(step, size, l.after, fuel - 1);
        Yield([l.result.value] + rest.items, rest.error, rest.after)
  }

  /** `line.read` as the step of `each_line`. */
  function LineStep(env: Env, codec: Codec, size: int, spec: Spec): State -> Out<seq<byte>>
  {
    t => LineRead(env, codec, size, spec, t)
  }

  /** `each_line` as written: a line per round until `gets` answers nil at the end of the
      entry, an error is raised, or `fuel` rounds are done. */
  function EachLineAsWritten(env: Env, codec: Codec, size: int, spec: Spec, s: State, fuel: nat): Yield<seq<byte>>
    decreases fuel, 0
  {
    if AtEof(size, s) || fuel == 0 then Yield([], None, s)
    else LineThenRounds(env, codec, size, spec, s, fuel - 1)
  }

  /** One round inside the entry: `line.read`, then `fuel` more rounds unless it raised. */
  function LineThenRounds(env: Env, codec: Codec, size: int, spec: Spec, s: State, fuel: nat): Yield<seq<byte>>
    decreases fuel, 1
  {
    var l := LineRead(env, codec, size, spec, s);
    if l.result.Err? then Yield([], Some(l.result.error), l.after)
    else
      var rest := EachLineAsWritten(env, codec, size, spec, l.after, fuel);
      Yield([l.result.value] + rest.items, rest.error, rest.after)
  }

  /** `each_line` is the rounds of `line.read`. */
  lemma {:induction false} EachLineIsRounds(env: Env, codec: Codec, size: int, spec: Spec, s: State, fuel: nat)
    ensures EachLineAsWritten(env, codec, size, spec, s, fuel) == Rounds(LineStep(env, codec, size, spec), size, s, fuel)
    decreases fuel
  {
    if !AtEof(size, s) && fuel > 0 {
      var l := LineRead(env, codec, size, spec, s);
      assert LineStep(env, codec, size, spec)(s) == l;
      EachLineIsRounds(env, codec, size, spec, l.after, fuel - 1);
    }
  }

  /** Every step taken inside the entry that raises nothing leaves fewer bytes pending. */
  ghost predicate MovesOn(step: State -> Out<seq<byte>>, size: int)
  {
    forall t: State :: t.at <= |t.data| && !AtEof(size, t) && step(t).result.Ok? ==>
      step(t).after.at <= |step(t).after.data| && Pending(size, step(t).after) < Pending(size, t)
  }

  /** Rounds of a step that moves on reach the end of the entry, unless an error stops them,
      once there are as many rounds as bytes pending. */
  lemma {:induction false} RoundsEnd(step: State -> Out<seq<byte>>, size: int, s: State, fuel: nat)
    requires MovesOn(step, size) && s.at <= |s.data| && fuel >= Pending(size, s)
    ensures var r := Rounds(step, size, s, fuel); r.error.None? ==> AtEof(size, r.after)
    decreases fuel
  {
    if !AtEof(size, s) && fuel > 0 {
      var l := step(s);
      if l.result.Ok? {
        RoundsEnd(step, size, l.after, fuel - 1);
      }
    }
  }

  /** When every line moves on (no "" separator, no zero limit) and there is no internal
      encoding, `line.read` is a step that moves on. */
  lemma LineStepMovesOn(env: Env, codec: Codec, size: int, spec: Spec)
    requires codec.internal.None? && Advancing(spec)
    ensures MovesOn(LineStep(env, codec, size, spec), size)
  {
    var step := LineStep(env, codec, size, spec);
    forall t: State | t.at <= |t.data| && !AtEof(size, t) && step(t).result.Ok?
      ensures step(t).after.at <= |step(t).after.data| && Pending(size, step(t).after) < Pending(size, t)
    {
      LineMovesOn(env, codec, size, spec, t);
    }
  }

  /** When every line moves on and there is no internal encoding, as many rounds as bytes
      are pending reach the end of the entry unless an error stops them. */
  lemma RoundsReachEnd(env: Env, codec: Codec, size: int, spec: Spec, s: State, fuel: nat)
    requires codec.internal.None? && s.at <= |s.data| && Advancing(spec) && fuel >= Pending(size, s)
    ensures var r := EachLineAsWritten(env, codec, size, spec, s, fuel);
      r.error.None? ==> AtEof(size, r.after)
  {
    LineStepMovesOn(env, codec, size, spec);
    RoundsEnd(LineStep(env, codec, size, spec), size, s, fuel);
    EachLineIsRounds(env, codec, size, spec, s, fuel);
  }

  /** A line read inside the entry, when every line moves on, leaves fewer bytes pending. */
  lemma LineMovesOn(env: Env, codec: Codec, size: int, spec: Spec, s: State)
    requires codec.internal.None? && s.at <= |s.data| && Advancing(spec) && !AtEof(size, s)
    requires LineRead(env, codec, size, spec, s).result.Ok?
    ensures var after := LineRead(env, codec, size, spec, s).after;
      after.at <= |after.data| && Pending(size, after) < Pending(size, s)
  {
    var after := LineRead(env, codec, size, spec, s).after;
    assert Moved(s, after) && after.at > s.at;
  }

  /** One round of `each_line` inside the entry: the line read, then the rounds after it;
      an error ends the rounds with nothing more yielded. */
  lemma EachLineRound(env: Env, codec: Codec, size: int, spec: Spec, s: State, fuel: nat)
    requires !AtEof(size, s) && fuel > 0
    ensures var l := LineRead(env, codec, size, spec, s);
      var r := EachLineAsWritten(env, codec, size, spec, s, fuel);
      var rest := EachLineAsWritten(env, codec, size, spec, l.after, fuel - 1);
      (l.result.Err? ==> r == Yield([], Some(l.result.error), l.after))
      && (l.result.Ok? ==> r == Yield([l.result.value] + rest.items, rest.error, rest.after))
  {
  }

  /** At the end of the entry, or out of rounds, `each_line` yields nothing more. */
  lemma EachLineStops(env: Env, codec: Codec, size: int, spec: Spec, s: State, fuel: nat)
    requires AtEof(size, s) || fuel == 0
    ensures EachLineAsWritten(env, codec, size, spec, s, fuel) == Yield([], None, s)
  {
  }

  /** Collecting `line` before the rest is collecting them together. */
  lemma Collect(items: seq<seq<byte>>, line: seq<byte>, rest: seq<seq<byte>>)
    ensures items + ([line] + rest) == (items + [line]) + rest
  {
  }

  /** A zero limit reads nothing: the line is "" and the state does not move, so
      `each_line(0)` yields "" for ever without reaching the end of the entry. */
  lemma ZeroLimitNeverEnds(env: Env, codec: Codec, size: int, sep: Option<seq<byte>>, sepEnc: Encoding, s: State, fuel: nat)
    requires !AtEof(size, s) && sep != Some([])
    ensures var r := EachLineAsWritten(env, codec, size, Spec(sep, Some(0), None, sepEnc), s, fuel);
      r.error.None? && r.after == s && |r.items| == fuel && !AtEof(size, r.after)
    decreases fuel
  {
    var spec := Spec(sep, Some(0), None, sepEnc);
    var l := LineRead(env, codec, size, spec, s);
    assert l == Out(Ok([]), s);
    if fuel > 0 {
      ZeroLimitNeverEnds(env, codec, size, sep, sepEnc, s, fuel - 1);
    }
  }

  /** `each_line` as Ruby's own IO has it: a zero limit is an ArgumentError, and then
      every limit `gets` accepts leads to the end of the entry. */
  function EachLine(env: Env, codec: Codec, size: int, spec: Spec, s: State, fuel: nat): (r: Yield<seq<byte>>)
    ensures spec.limit == Some(0) ==> r == Yield([], Some(ArgumentError), s)
    ensures (r.error.None? && codec.internal.None? && s.at <= |s.data| && spec.separator != Some([])
             && (spec.limit.Some? ==> spec.limit.value >= 0) && fuel >= Pending(size, s)) ==> AtEof(size, r.after)
  {
    if spec.limit == Some(0) then Yield([], Some(ArgumentError), s)
    else
      if codec.internal.None? && s.at <= |s.data| && Advancing(spec) && fuel >= Pending(size, s) then
        RoundsReachEnd(env, codec, size, spec, s, fuel);
        EachLineAsWritten(env, codec, size, spec, s, fuel)
      else EachLineAsWritten(env, codec, size, spec, s, fuel)
  }

  /** No separator "" and no limit 0: each line read from inside the entry moves on. */
  predicate Advancing(spec: Spec)
  {
    spec.separator != Some([]) && (spec.limit.Some? ==> spec.limit.value > 0)
  }

  /** `each_line(*args)` on a reader: the arguments are checked first, then the closed
      state, then the lines are read. */
  function EachLineOf(env: Env, closed: bool, codec: Codec, size: int, s: State, args: seq<Arg>, fuel: nat): (r: Yield<seq<byte>>)
    ensures ParseArgs(env, closed, codec, args).Err? ==> r == Yield([], Some(ParseArgs(env, closed, codec, args).error), s)
    ensures ParseArgs(env, closed, codec, args).Ok? && closed ==> r == Yield([], Some(IOError), s)
  {
    var spec := ParseArgs(env, closed, codec, args);
    if spec.Err? then Yield([], Some(spec.error), s)
    else if closed then Yield([], Some(IOError), s)
    else EachLine(env, codec, size, spec.value, s, fuel)
  }
}
