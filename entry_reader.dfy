/** `Tar::File::Reader`: the reader of one archive entry. It shares the archive's stream,
    counts its own position `pos` against the header's size, and keeps the encodings and
    the line counter. Every method is proved to answer and to move the reader exactly as
    the engine function of the same name does on its `View()`. */
module EntryReader {
  import opened Bytes
  import opened Wrappers
  import opened Errors
  import opened Encoding
  import opened Stream
  import opened EntryState
  import FileBase
  import Bom
  import Line
  import Header

  class Reader {
    const io: ByteStream
    const header: Header.Header
    const env: Env
    var closed: bool
    var pos: int
    var lineno: int
    var ext: Encoding
    var internal: Option<Encoding>
    var opts: Options

    /** The engine state of this reader: the stream's contents and cursor, `pos`, `lineno`. */
    function View(): State
      reads this, io
    {
      State(io.data, io.cursor, pos, lineno)
    }

    function CodecOf(): Codec
      reads this
    {
      Codec(ext, internal, opts)
    }

    /** `closed?`: closed here, or the stream is. */
    predicate IsClosed()
      reads this, io
    {
      closed || io.closed
    }

    /** Only `close`, `set_encoding` and the stream's own `close` change these. */
    twostate predicate Kept()
      reads this, io
    {
      closed == old(closed) && io.closed == old(io.closed)
      && ext == old(ext) && internal == old(internal) && opts == old(opts)
    }

    constructor (stream: ByteStream, h: Header.Header, e: Env, external: Encoding, inner: Option<Encoding>, options: Options)
      ensures io == stream && header == h && env == e
      ensures !closed && pos == 0 && lineno == 0
      ensures ext == external && internal == inner && opts == options
    {
      io := stream;
      header := h;
      env := e;
      closed := false;
      pos := 0;
      lineno := 0;
      ext := external;
      internal := inner;
      opts := options;
    }

    /** `File::Reader.new(io:, header:, external_encoding:, internal_encoding:, **options)`:
        `set_encoding` runs with both encodings given, so a name is not split at a colon;
        it runs before `@header` is set, so a "BOM|..." name fails on the missing header. */
    static method Open(stream: ByteStream, h: Header.Header, e: Env, external: FileBase.EncArg, inner: FileBase.EncArg, options: Options)
      returns (r: Result<Reader, Error>)
      ensures stream.closed ==> r == Err(IOError)
      ensures !stream.closed && external.Name? && FileBase.HasBomPrefix(external.name) ==> r == Err(NoMethodError)
      ensures !stream.closed && !(external.Name? && FileBase.HasBomPrefix(external.name)) ==>
                r.Ok? && fresh(r.value) && r.value.io == stream && r.value.header == h && r.value.env == e
                && !r.value.closed && r.value.pos == 0 && r.value.lineno == 0 && r.value.opts == options
                && (r.value.ext, r.value.internal) == FileBase.Settle(e, external, inner)
    {
      if stream.closed {
        return Err(IOError);
      }
      if external.Name? && FileBase.HasBomPrefix(external.name) {
        return Err(NoMethodError);
      }
      var settled := FileBase.Settle(e, external, inner);
      var reader := new Reader(stream, h, e, settled.0, settled.1, options);
      return Ok(reader);
    }

    method Close()
      modifies this
      ensures closed && pos == old(pos) && lineno == old(lineno)
      ensures ext == old(ext) && internal == old(internal) && opts == old(opts)
    {
      closed := true;
    }

    /** `eof?`: nothing is pending. */
    function Eof(): (r: Result<bool, Error>)
      reads this, io
      ensures IsClosed() <==> r == Err(IOError)
      ensures r.Ok? ==> (r.value <==> Pending(header.size, View()) == 0)
    {
      if IsClosed() then Err(IOError) else Ok(AtEof(header.size, View()))
    }

    /** `pos`. */
    function Tell(): (r: Result<int, Error>)
      reads this, io
      ensures IsClosed() <==> r == Err(IOError)
      ensures r.Ok? ==> r.value == pos
    {
      if IsClosed() then Err(IOError) else Ok(pos)
    }

    /** `pending`: what is left of the declared size, never negative. */
    function PendingBytes(): (r: Result<nat, Error>)
      reads this, io
      ensures IsClosed() <==> r == Err(IOError)
      ensures r.Ok? ==> r.value >= header.size - pos && (r.value == 0 || pos + r.value == header.size)
    {
      if IsClosed() then Err(IOError) else Ok(Pending(header.size, View()))
    }

    /** `lineno`. */
    function Lineno(): (r: Result<int, Error>)
      reads this, io
      ensures IsClosed() <==> r == Err(IOError)
      ensures r.Ok? ==> r.value == lineno
    {
      if IsClosed() then Err(IOError) else Ok(lineno)
    }

    /** `binmode?`: BINARY without an internal encoding, whatever the options. */
    function Binmode(): (r: Result<bool, Error>)
      reads this, io
      ensures IsClosed() <==> r == Err(IOError)
      ensures r.Ok? ==> (r.value <==> ext == Binary && internal.None?)
    {
      if IsClosed() then Err(IOError) else Ok(FileBase.IsBinmode(ext, internal))
    }

    /** `lineno = n`. */
    method SetLineno(n: int) returns (r: Outcome<Error>)
      modifies this
      ensures Kept() && pos == old(pos) && (r.Pass? <==> !old(IsClosed()))
      ensures old(IsClosed()) ==> r == Fail(IOError) && lineno == old(lineno)
      ensures !old(IsClosed()) ==> lineno == n
    {
      if IsClosed() {
        return Fail(IOError);
      }
      lineno := n;
      return Pass;
    }

    /** `read(length = nil)`. */
    method Read(length: Option<int>) returns (r: Result<seq<byte>, Error>)
      modifies this, io
      ensures Kept()
      ensures old(IsClosed()) ==> r == Err(IOError) && View() == old(View())
      ensures !old(IsClosed()) ==> var o := EntryState.Read(env, CodecOf(), header.size, old(View()), length);
                r == o.result && View() == o.after
    {
      if IsClosed() {
        return Err(IOError);
      }
      var n := Truncate(Pending(header.size, View()), length);
      var got := io.Read(n);
      match got {
        case Err(e) => r := Err(e);
        case Ok(None) => r := Err(NoMethodError);
        case Ok(Some(data)) =>
          pos := pos + |data|;
          r := if length.None? then Ok(Encode(env, data, ext, internal, opts)) else Ok(data);
      }
    }

    /** `readpartial(max_length)`. */
    method ReadPartial(maxLength: int) returns (r: Result<seq<byte>, Error>)
      modifies this, io
      ensures Kept()
      ensures old(IsClosed()) ==> r == Err(IOError) && View() == old(View())
      ensures !old(IsClosed()) ==> var o := EntryState.ReadPartial(header.size, old(View()), maxLength);
                r == o.result && View() == o.after
    {
      if IsClosed() {
        return Err(IOError);
      }
      var n := Truncate(Pending(header.size, View()), Some(maxLength));
      r := io.ReadPartial(n);
      if r.Ok? {
        pos := pos + |r.value|;
      }
    }

    /** `seek(amount, mode)`: SeekNotSupported comes before the closed and mode checks;
        the answer is the new position. */
    method Seek(amount: int, mode: FileBase.SeekMode) returns (r: Result<int, Error>)
      modifies this, io
      ensures Kept()
      ensures !io.seekable ==> r == Err(SeekNotSupported) && View() == old(View())
      ensures io.seekable && old(IsClosed()) ==> r == Err(IOError) && View() == old(View())
      ensures io.seekable && !old(IsClosed()) ==>
                var o := EntryState.Seek(header.size, old(View()), amount, mode);
                (o.Err? ==> r == Err(o.error) && View() == old(View()))
                && (o.Ok? ==> r == Ok(o.value.pos) && View() == o.value)
    {
      if !io.seekable {
        return Err(SeekNotSupported);
      }
      if IsClosed() {
        return Err(IOError);
      }
      var offset := FileBase.Relativize(amount, mode, pos, Some(header.size));
      if offset.Err? {
        return Err(offset.error);
      }
      var moved := io.SeekTo(io.cursor + offset.value);
      if moved.Fail? {
        return Err(moved.error);
      }
      pos := pos + offset.value;
      return Ok(pos);
    }

    /** `pos = new_pos`. */
    method SetPos(newPos: int) returns (r: Result<int, Error>)
      modifies this, io
      ensures Kept()
      ensures !io.seekable ==> r == Err(SeekNotSupported) && View() == old(View())
      ensures io.seekable && old(IsClosed()) ==> r == Err(IOError) && View() == old(View())
      ensures io.seekable && !old(IsClosed()) ==>
                (old(io.cursor) + (newPos - old(pos)) < 0 ==> r == Err(InvalidSeek) && View() == old(View()))
                && (old(io.cursor) + (newPos - old(pos)) >= 0 ==>
                      r == Ok(newPos) && View() == old(View()).(at := old(io.cursor) + (newPos - old(pos)), pos := newPos))
    {
      r := Seek(newPos, FileBase.SeekSet);
    }

    /** `rewind`: back to the start of the entry, and `lineno` to 0. */
    method Rewind() returns (r: Result<int, Error>)
      modifies this, io
      ensures Kept()
      ensures !io.seekable ==> r == Err(SeekNotSupported) && View() == old(View())
      ensures io.seekable && old(IsClosed()) ==> r == Err(IOError) && View() == old(View())
      ensures io.seekable && !old(IsClosed()) && old(io.cursor) < old(pos) ==> r == Err(InvalidSeek) && View() == old(View())
      ensures io.seekable && !old(IsClosed()) && old(io.cursor) >= old(pos) ==>
                r == Ok(0) && View() == State(old(io.data), old(io.cursor) - old(pos), 0, 0)
    {
      r := Seek(0, FileBase.SeekSet);
      if r.Ok? {
        lineno := 0;
      }
    }

    /** `skip_to_next_record`: to the end of the padded body, by a seek when the stream
        can seek and otherwise by reading and dropping the bytes up to it. */
    method SkipToNextRecord() returns (r: Outcome<Error>)
      modifies this, io
      ensures Kept()
      ensures old(IsClosed()) ==> r == Fail(IOError) && View() == old(View())
      ensures !old(IsClosed()) ==>
                var o := SkipTo(header.size, io.seekable, old(View()), SkipTarget(header.size));
                (o.Err? ==> r == Fail(o.error) && View() == old(View()))
                && (o.Ok? ==> r == Pass && View() == o.value)
    {
      if IsClosed() {
        return Fail(IOError);
      }
      var target := SkipTarget(header.size);
      if io.seekable {
        var moved := Seek(target, FileBase.SeekSet);
        return if moved.Err? then Fail(moved.error) else Pass;
      }
      var dropped := io.Read(target - pos);
      if dropped.Err? {
        return Fail(dropped.error);
      }
      pos := target;
      return Pass;
    }

    /** `getbyte`. */
    method GetByte() returns (r: Result<Option<byte>, Error>)
      modifies this, io
      ensures Kept()
      ensures old(IsClosed()) ==> r == Err(IOError) && View() == old(View())
      ensures !old(IsClosed()) ==> var g := EntryState.GetByte(header.size, old(View()));
                r == Ok(g.0) && View() == g.1
    {
      if IsClosed() {
        return Err(IOError);
      }
      if AtEof(header.size, View()) {
        return Ok(None);
      }
      pos := pos + 1;
      r := io.GetByte();
    }

    /** `ungetbyte(byte)`. */
    method UngetByte(b: Option<byte>) returns (r: Outcome<Error>)
      modifies this, io
      ensures Kept()
      ensures old(IsClosed()) ==> r == Fail(IOError) && View() == old(View())
      ensures !old(IsClosed()) ==> r == Pass && View() == EntryState.UngetByte(old(View()), b)
    {
      if IsClosed() {
        return Fail(IOError);
      }
      pos := pos - 1;
      r := io.UngetByte(b);
    }

    /** `readbyte`: as `getbyte`, but EOFError at the end of the entry. */
    method ReadByte() returns (r: Result<Option<byte>, Error>)
      modifies this, io
      ensures Kept()
      ensures old(IsClosed()) ==> r == Err(IOError) && View() == old(View())
      ensures !old(IsClosed()) && AtEof(header.size, old(View())) ==> r == Err(EOFError) && View() == old(View())
      ensures !old(IsClosed()) && !AtEof(header.size, old(View())) ==>
                var g := EntryState.GetByte(header.size, old(View())); r == Ok(g.0) && View() == g.1
    {
      if IsClosed() {
        return Err(IOError);
      }
      if AtEof(header.size, View()) {
        return Err(EOFError);
      }
      r := GetByte();
    }

    /** `each_byte`, its block collecting what it is given. */
    method EachByte() returns (r: Result<seq<Option<byte>>, Error>)
      modifies this, io
      ensures Kept()
      ensures old(IsClosed()) ==> r == Err(IOError) && View() == old(View())
      ensures !old(IsClosed()) ==> var e := EntryState.EachByte(header.size, old(View()));
                r == Ok(e.0) && View() == e.1
    {
      if IsClosed() {
        return Err(IOError);
      }
      ghost var s0 := View();
      var items: seq<Option<byte>> := [];
      while !AtEof(header.size, View())
        invariant Kept() && !IsClosed()
        invariant items + EntryState.EachByte(header.size, View()).0 == EntryState.EachByte(header.size, s0).0
        invariant EntryState.EachByte(header.size, View()).1 == EntryState.EachByte(header.size, s0).1
        decreases header.size - pos
      {
        ghost var before := View();
        var b := GetByte();
        assert items + [b.value] + EntryState.EachByte(header.size, View()).0
            == items + EntryState.EachByte(header.size, before).0;
        items := items + [b.value];
      }
      assert items + [] == items;
      return Ok(items);
    }

    /** Pushes `bs` back, last byte first, so that they are read next in their own order. */
    method UngetAll(bs: seq<byte>)
      requires !IsClosed()
      modifies this, io
      ensures Kept() && View() == UngetBytes(old(View()), bs)
    {
      var k := |bs|;
      assert bs[..k] == bs;
      while k > 0
        invariant 0 <= k <= |bs| && Kept() && !IsClosed()
        invariant UngetBytes(View(), bs[..k]) == UngetBytes(old(View()), bs)
      {
        ghost var before := View();
        var _ := UngetByte(Some(bs[k - 1]));
        assert bs[..k][..k - 1] == bs[..k - 1];
        k := k - 1;
      }
    }

    /** `getc`: read `min_char_size` bytes at a time until they make a valid character or
        the maximum width or the end of the entry is reached; failing that, keep the first
        `min_char_size` bytes and push the rest back (`undo_getc_attempt`). */
    method GetC() returns (r: Result<Option<seq<byte>>, Error>)
      modifies this, io
      ensures Kept()
      ensures old(IsClosed()) ==> r == Err(IOError) && View() == old(View())
      ensures !old(IsClosed()) ==> var g := Getc(env, CodecOf(), header.size, old(View()));
                r == g.result && View() == g.after
    {
      if IsClosed() {
        return Err(IOError);
      }
      if AtEof(header.size, View()) {
        return Ok(None);
      }
      ghost var s0 := View();
      ghost var codec := CodecOf();
      var mm := MinMax(ext);
      var buf: seq<byte> := [];
      while !(|buf| == mm.1 || AtEof(header.size, View()))
        invariant Kept() && !IsClosed() && CodecOf() == codec
        invariant GetcLoop(header.size, ext, View(), buf) == GetcLoop(header.size, ext, s0, [])
        decreases header.size - pos
      {
        GetcLoopTurn(env, codec, header.size, View(), buf);
        var piece := Read(Some(mm.0));
        if piece.Err? {
          GetcFails(env, codec, header.size, s0, piece.error, View());
          return Err(piece.error);
        }
        buf := buf + piece.value;
        if Valid(ext, buf) {
          GetcEnds(env, codec, header.size, s0, buf, true, View());
          return Ok(Some(Encode(env, buf, ext, internal, opts)));
        }
      }
      GetcEnds(env, codec, header.size, s0, buf, false, View());
      if mm.0 > |buf| {
        return Err(NoMethodError);
      }
      UngetAll(buf[mm.0..]);
      return Ok(Some(Encode(env, buf[..mm.0], ext, internal, opts)));
    }

    /** `ungetc(char)`: the character, converted to the external encoding, is pushed back. */
    method UngetC(c: seq<byte>, from: Encoding) returns (r: Outcome<Error>)
      modifies this, io
      ensures Kept()
      ensures old(IsClosed()) ==> r == Fail(IOError) && View() == old(View())
      ensures !old(IsClosed()) ==> r == Pass && View() == Ungetc(env, CodecOf(), old(View()), c, from)
    {
      if IsClosed() {
        return Fail(IOError);
      }
      UngetAll(Convert(env, c, from, ext));
      return Pass;
    }

    /** `readchar`: as `getc`, but EOFError at the end of the entry. */
    method ReadChar() returns (r: Result<seq<byte>, Error>)
      modifies this, io
      ensures Kept()
      ensures old(IsClosed()) ==> r == Err(IOError) && View() == old(View())
      ensures !old(IsClosed()) && AtEof(header.size, old(View())) ==> r == Err(EOFError) && View() == old(View())
      ensures !old(IsClosed()) && !AtEof(header.size, old(View())) ==>
                var g := Getc(env, CodecOf(), header.size, old(View()));
                (g.result.Err? ==> r == Err(g.result.error)) && (g.result.Ok? ==> r == Ok(g.result.value.value))
                && View() == g.after
    {
      if IsClosed() {
        return Err(IOError);
      }
      if AtEof(header.size, View()) {
        return Err(EOFError);
      }
      var c := GetC();
      return if c.Err? then Err(c.error) else Ok(c.value.value);
    }

    /** `each_char`, its block collecting what it is given. */
    method EachChar() returns (items: seq<seq<byte>>, err: Option<Error>)
      modifies this, io
      ensures Kept()
      ensures old(IsClosed()) ==> items == [] && err == Some(IOError) && View() == old(View())
      ensures !old(IsClosed()) ==> var e := EntryState.EachChar(env, CodecOf(), header.size, old(View()));
                items == e.items && err == e.error && View() == e.after
    {
      items := [];
      if IsClosed() {
        return [], Some(IOError);
      }
      ghost var e0 := EntryState.EachChar(env, CodecOf(), header.size, View());
      while !AtEof(header.size, View())
        invariant Kept() && !IsClosed()
        invariant EachCharResumes(env, CodecOf(), header.size, items, View(), e0)
        decreases header.size - pos
      {
        ghost var before := View();
        var c := GetC();
        if c.Err? {
          EachCharFails(env, CodecOf(), header.size, before);
          return items, Some(c.error);
        }
        EachCharOn(env, CodecOf(), header.size, items, before, e0);
        items := items + [c.value.value];
      }
      return items, None;
    }

    /** `parse_bom`: only at position 0. */
    method ParseBom() returns (found: Option<Encoding>)
      requires !IsClosed()
      modifies this, io
      ensures Kept() && (found, View()) == Bom.ParseBom(header.size, old(View()))
    {
      if pos != 0 {
        return None;
      }
      found := WalkBomTree(Bom.BOM_TREE);
    }

    /** `walk_bom_tree`: read a byte; walk on below it when it continues a mark; push it
        back (nil included) when nothing was found below. */
    method WalkBomTree(t: Bom.Tree) returns (found: Option<Encoding>)
      requires !IsClosed()
      modifies this, io
      ensures Kept() && (found, View()) == Bom.Walk(header.size, old(View()), t)
      decreases t
    {
      var g := GetByte();
      var b := g.value;
      var i := Bom.Child(t, b);
      var below: Option<Encoding> := None;
      if i.Some? {
        assert t.children[i.value] in t.children;
        below := WalkBomTree(t.children[i.value].1);
      }
      if below.None? {
        var _ := UngetByte(b);
      }
      found := if below.Some? then below else t.enc;
    }

    /** `set_encoding(external, *internal, **options)`, with "BOM|X" sniffing the mark. */
    method SetEncoding(external: FileBase.EncArg, inner: seq<FileBase.EncArg>, options: Options) returns (r: Outcome<Error>)
      modifies this, io
      ensures closed == old(closed) && io.closed == old(io.closed)
      ensures old(IsClosed()) ==> r == Fail(IOError) && View() == old(View()) && CodecOf() == old(CodecOf())
      ensures !old(IsClosed()) ==> var o := Bom.SetEncoding(env, header.size, old(View()), external, inner);
                View() == o.after
                && (o.result.Err? ==> r == Fail(o.result.error) && CodecOf() == old(CodecOf()))
                && (o.result.Ok? ==> r == Pass && (ext, internal) == o.result.value && opts == options)
    {
      if IsClosed() {
        return Fail(IOError);
      }
      var pair := FileBase.ExtractEncodings(external, inner);
      if pair.Err? {
        return Fail(pair.error);
      }
      var e := pair.value.0;
      if e.Name? && FileBase.HasBomPrefix(e.name) {
        var found := ParseBom();
        e := if found.Some? then FileBase.Enc(found.value) else FileBase.Name(FileBase.AfterBomBar(e.name));
      }
      var settled := FileBase.Settle(env, e, pair.value.1);
      ext, internal, opts := settled.0, settled.1, options;
      return Pass;
    }

    /** `binmode`: `set_encoding(Encoding::BINARY)`. */
    method SetBinmode() returns (r: Outcome<Error>)
      modifies this, io
      ensures closed == old(closed) && io.closed == old(io.closed) && View() == old(View())
      ensures old(IsClosed()) ==> r == Fail(IOError) && CodecOf() == old(CodecOf())
      ensures !old(IsClosed()) ==> r == Pass && ext == Binary && internal.None? && opts == []
    {
      r := SetEncoding(FileBase.Enc(Binary), [], []);
    }

    /** `skip_newlines`. */
    method SkipNewlines(skip: seq<byte>) returns (r: Result<(), Error>)
      requires !IsClosed()
      modifies this, io
      ensures Kept()
      ensures var o := Line.SkipNewlines(env, CodecOf(), header.size, skip, old(View()));
                r == o.result && View() == o.after
    {
      while !AtEof(header.size, View())
        invariant Kept() && !IsClosed()
        invariant Line.SkipNewlines(env, CodecOf(), header.size, skip, View())
               == Line.SkipNewlines(env, CodecOf(), header.size, skip, old(View()))
        decreases header.size - pos
      {
        var c := GetC();
        if c.Err? {
          return Err(c.error);
        }
        if c.value.value != skip {
          var _ := UngetC(c.value.value, Line.LineEncoding(CodecOf()));
          return Ok(());
        }
      }
      return Ok(());
    }

    /** `skip_newlines if @skip`. */
    method SkipIf(skip: Option<seq<byte>>) returns (r: Result<(), Error>)
      requires !IsClosed()
      modifies this, io
      ensures Kept()
      ensures var o := Line.Skip(env, CodecOf(), header.size, skip, old(View()));
                r == o.result && View() == o.after
    {
      if skip.None? {
        return Ok(());
      }
      r := SkipNewlines(skip.value);
    }

    /** `read_line`: characters until `stop_reading?`, then `lineno` counts the line if it
        ends with the separator; the separator test raises on an incompatible line. */
    method ReadLineOf(spec: Line.Spec) returns (r: Result<seq<byte>, Error>)
      requires !IsClosed()
      modifies this, io
      ensures Kept()
      ensures var o := Line.ReadLine(env, CodecOf(), header.size, spec, old(View()));
                r == o.result && View() == o.after
    {
      var line: seq<byte> := [];
      while !Line.SeparatorClash(CodecOf(), spec, line) && !Line.StopReading(CodecOf(), spec, header.size, View(), line)
        invariant Kept() && !IsClosed()
        invariant Line.ReadLineLoop(env, CodecOf(), header.size, spec, View(), line)
               == Line.ReadLineLoop(env, CodecOf(), header.size, spec, old(View()), [])
        decreases header.size - pos
      {
        var c := GetC();
        if c.Err? {
          return Err(c.error);
        }
        line := line + c.value.value;
      }
      if Line.SeparatorClash(CodecOf(), spec, line) {
        return Err(EncodingCompatibilityError);
      }
      if Line.ReachedSeparator(CodecOf(), spec, line) {
        lineno := lineno + 1;
      }
      return Ok(line);
    }

    /** `Line#read`: the rest of the entry when there is neither separator nor limit;
        otherwise a line, with `skip_newlines` around it in paragraph mode. */
    method LineOnce(spec: Line.Spec) returns (r: Result<seq<byte>, Error>)
      requires !IsClosed()
      modifies this, io
      ensures Kept()
      ensures var o := Line.LineRead(env, CodecOf(), header.size, spec, old(View()));
                r == o.result && View() == o.after
    {
      if spec.separator.None? && spec.limit.None? {
        r := Read(None);
        return;
      }
      var before := SkipIf(spec.skip);
      if before.Err? {
        return Err(before.error);
      }
      r := ReadLineOf(spec);
      if r.Err? {
        return;
      }
      var after := SkipIf(spec.skip);
      if after.Err? {
        return Err(after.error);
      }
    }

    /** `gets(*args)`. */
    method Gets(args: seq<Line.Arg>) returns (r: Result<Option<seq<byte>>, Error>)
      modifies this, io
      ensures Kept()
      ensures var o := Line.Gets(env, old(IsClosed()), CodecOf(), header.size, old(View()), args);
                r == o.result && View() == o.after
    {
      var spec := Line.ParseArgs(env, IsClosed(), CodecOf(), args);
      if spec.Err? {
        return Err(spec.error);
      }
      if IsClosed() {
        return Err(IOError);
      }
      if AtEof(header.size, View()) {
        return Ok(None);
      }
      var l := LineOnce(spec.value);
      return if l.Ok? then Ok(Some(l.value)) else Err(l.error);
    }

    /** `readline(*args)`: as `gets`, but EOFError at the end of the entry. */
    method ReadLine(args: seq<Line.Arg>) returns (r: Result<seq<byte>, Error>)
      modifies this, io
      ensures Kept()
      ensures var o := Line.ReadLineOrFail(env, old(IsClosed()), CodecOf(), header.size, old(View()), args);
                r == o.result && View() == o.after
    {
      var g := Gets(args);
      r := if g.Err? then Err(g.error) else if g.value.None? then Err(EOFError) else Ok(g.value.value);
    }

    /** `each_line(*args)`, its block collecting the lines, for at most `fuel` lines; a
        zero limit is refused as Ruby's own IO refuses it. */
    method EachLine(args: seq<Line.Arg>, fuel: nat) returns (items: seq<seq<byte>>, err: Option<Error>)
      modifies this, io
      ensures Kept()
      ensures var o := Line.EachLineOf(env, old(IsClosed()), CodecOf(), header.size, old(View()), args, fuel);
                items == o.items && err == o.error && View() == o.after
    {
      var spec := Line.ParseArgs(env, IsClosed(), CodecOf(), args);
      if spec.Err? {
        return [], Some(spec.error);
      }
      if IsClosed() {
        return [], Some(IOError);
      }
      if spec.value.limit == Some(0) {
        return [], Some(ArgumentError);
      }
      items, err := LineRounds(spec.value, fuel);
    }

    /** The loop of `each_line`: a line per round until the end of the entry, the first
        error, or the last of `fuel` rounds. */
    method LineRounds(spec: Line.Spec, fuel: nat) returns (items: seq<seq<byte>>, err: Option<Error>)
      requires !IsClosed()
      modifies this, io
      ensures Kept()
      ensures var o := Line.EachLineAsWritten(env, CodecOf(), header.size, spec, old(View()), fuel);
                items == o.items && err == o.error && View() == o.after
    {
      items := [];
      ghost var codec := CodecOf();
      ghost var e0 := Line.EachLineAsWritten(env, codec, header.size, spec, View(), fuel);
      ghost var e := e0;
      var n: nat := 0;
      while !AtEof(header.size, View()) && n < fuel
        invariant n <= fuel && Kept() && !IsClosed() && CodecOf() == codec
        invariant e == Line.EachLineAsWritten(env, codec, header.size, spec, View(), fuel - n)
        invariant items + e.items == e0.items && e.error == e0.error && e.after == e0.after
        decreases fuel - n
      {
        Line.EachLineRound(env, codec, header.size, spec, View(), fuel - n);
        var l := LineOnce(spec);
        if l.Err? {
          assert items + [] == items;
          return items, Some(l.error);
        }
        ghost var rest := Line.EachLineAsWritten(env, codec, header.size, spec, View(), fuel - n - 1);
        Line.Collect(items, l.value, rest.items);
        items := items + [l.value];
        e := rest;
        n := n + 1;
      }
      Line.EachLineStops(env, codec, header.size, spec, View(), fuel - n);
      assert items + [] == items;
      return items, None;
    }

    /** `readlines(*args)`: the lines of `each_line`, or the error that stopped it. */
    method ReadLines(args: seq<Line.Arg>, fuel: nat) returns (r: Result<seq<seq<byte>>, Error>)
      modifies this, io
      ensures Kept()
      ensures var o := Line.EachLineOf(env, old(IsClosed()), CodecOf(), header.size, old(View()), args, fuel);
                (o.error.None? ==> r == Ok(o.items)) && (o.error.Some? ==> r == Err(o.error.value))
                && View() == o.after
    {
      var items, err := EachLine(args, fuel);
      r := if err.Some? then Err(err.value) else Ok(items);
    }
  }
}
