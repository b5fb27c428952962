/** `Tar::FileReader`: the older reader of one archive entry. It keeps the same state as
    `Tar::File::Reader` and most methods behave alike; it asks the stream to seek without
    checking that it can, knows no byte-order marks, has no `readpartial`, and its
    `lineno` accessor works on a closed reader. */
module LegacyReader {
  import opened Bytes
  import opened Wrappers
  import opened Errors
  import opened Encoding
  import opened Stream
  import opened EntryState
  import FileBase
  import Header

  class FileReader {
    const io: ByteStream
    const header: Header.Header
    const env: Env
    var closed: bool
    var pos: int
    var lineno: int
    var ext: Encoding
    var internal: Option<Encoding>
    var opts: Options

    /** The engine state of this reader: the stream's contents and cursor, `pos`, `lineno`. */
    function View(): State
      reads this, io
    {
      State(io.data, io.cursor, pos, lineno)
    }

    function CodecOf(): Codec
      reads this
    {
      Codec(ext, internal, opts)
    }

    /** `closed?`: closed here, or the stream is. */
    predicate IsClosed()
      reads this, io
    {
      closed || io.closed
    }

    /** Only `close`, `set_encoding` and the stream's own `close` change these. */
    twostate predicate Kept()
      reads this, io
    {
      closed == old(closed) && io.closed == old(io.closed)
      && ext == old(ext) && internal == old(internal) && opts == old(opts)
    }

    constructor (h: Header.Header, stream: ByteStream, e: Env, external: Encoding, inner: Option<Encoding>, options: Options)
      ensures io == stream && header == h && env == e
      ensures !closed && pos == 0 && lineno == 0
      ensures ext == external && internal == inner && opts == options
    {
      io := stream;
      header := h;
      env := e;
      closed := false;
      pos := 0;
      lineno := 0;
      ext := external;
      internal := inner;
      opts := options;
    }

    /** `FileReader.new(header, io, external_encoding:, internal_encoding:, **options)`:
        `set_encoding` with both encodings given, which fails on a closed stream. */
    static method Open(h: Header.Header, stream: ByteStream, e: Env, external: FileBase.EncArg, inner: FileBase.EncArg, options: Options)
      returns (r: Result<FileReader, Error>)
      ensures stream.closed ==> r == Err(IOError)
      ensures !stream.closed ==>
                r.Ok? && fresh(r.value) && r.value.io == stream && r.value.header == h && r.value.env == e
                && !r.value.closed && r.value.pos == 0 && r.value.lineno == 0 && r.value.opts == options
                && (r.value.ext, r.value.internal) == FileBase.Settle(e, external, inner)
    {
      if stream.closed {
        return Err(IOError);
      }
      var settled := FileBase.Settle(e, external, inner);
      var reader := new FileReader(h, stream, e, settled.0, settled.1, options);
      return Ok(reader);
    }

    method Close()
      modifies this
      ensures closed && pos == old(pos) && lineno == old(lineno)
      ensures ext == old(ext) && internal == old(internal) && opts == old(opts)
    {
      closed := true;
    }

    /** `eof?`: nothing is pending. */
    function Eof(): (r: Result<bool, Error>)
      reads this, io
      ensures IsClosed() <==> r == Err(IOError)
      ensures r.Ok? ==> (r.value <==> Pending(header.size, View()) == 0)
    {
      if IsClosed() then Err(IOError) else Ok(AtEof(header.size, View()))
    }

    /** `pos`. */
    function Tell(): (r: Result<int, Error>)
      reads this, io
      ensures IsClosed() <==> r == Err(IOError)
      ensures r.Ok? ==> r.value == pos
    {
      if IsClosed() then Err(IOError) else Ok(pos)
    }

    /** `pending`: what is left of the declared size, never negative. */
    function PendingBytes(): (r: Result<nat, Error>)
      reads this, io
      ensures IsClosed() <==> r == Err(IOError)
      ensures r.Ok? ==> r.value >= header.size - pos && (r.value == 0 || pos + r.value == header.size)
    {
      if IsClosed() then Err(IOError) else Ok(Pending(header.size, View()))
    }

    /** `binmode?`: BINARY without an internal encoding. */
    function Binmode(): (r: Result<bool, Error>)
      reads this, io
      ensures IsClosed() <==> r == Err(IOError)
      ensures r.Ok? ==> (r.value <==> ext == Binary && internal.None?)
    {
      if IsClosed() then Err(IOError) else Ok(FileBase.IsBinmode(ext, internal))
    }

    /** `lineno = n`: a plain accessor, open or closed. */
    method SetLineno(n: int)
      modifies this
      ensures Kept() && pos == old(pos) && lineno == n
    {
      lineno := n;
    }

    /** `read(length = nil)`. */
    method Read(length: Option<int>) returns (r: Result<seq<byte>, Error>)
      modifies this, io
      ensures Kept()
      ensures old(IsClosed()) ==> r == Err(IOError) && View() == old(View())
      ensures !old(IsClosed()) ==> var o := EntryState.Read(env, CodecOf(), header.size, old(View()), length);
                r == o.result && View() == o.after
    {
      if IsClosed() {
        return Err(IOError);
      }
      var n := Truncate(Pending(header.size, View()), length);
      var got := io.Read(n);
      match got {
        case Err(e) => r := Err(e);
        case Ok(None) => r := Err(NoMethodError);
        case Ok(Some(data)) =>
          pos := pos + |data|;
          r := if length.None? then Ok(Encode(env, data, ext, internal, opts)) else Ok(data);
      }
    }

    /** `seek(amount, mode)`: the new position, or the stream's refusal when it cannot seek. */
    method Seek(amount: int, mode: FileBase.SeekMode) returns (r: Result<int, Error>)
      modifies this, io
      ensures Kept()
      ensures old(IsClosed()) ==> r == Err(IOError) && View() == old(View())
      ensures !old(IsClosed()) ==>
                var o := StreamSeek(header.size, io.seekable, old(View()), amount, mode);
                (o.Err? ==> r == Err(o.error) && View() == old(View()))
                && (o.Ok? ==> r == Ok(o.value.pos) && View() == o.value)
    {
      if IsClosed() {
        return Err(IOError);
      }
      var offset := FileBase.Relativize(amount, mode, pos, Some(header.size));
      if offset.Err? {
        return Err(offset.error);
      }
      var moved := io.SeekTo(io.cursor + offset.value);
      if moved.Fail? {
        return Err(moved.error);
      }
      pos := pos + offset.value;
      return Ok(pos);
    }

    /** `pos = new_pos`. */
    method SetPos(newPos: int) returns (r: Result<int, Error>)
      modifies this, io
      ensures Kept()
      ensures old(IsClosed()) ==> r == Err(IOError) && View() == old(View())
      ensures !old(IsClosed()) && !io.seekable ==> r == Err(IllegalSeek) && View() == old(View())
      ensures !old(IsClosed()) && io.seekable ==>
                (old(io.cursor) + (newPos - old(pos)) < 0 ==> r == Err(InvalidSeek) && View() == old(View()))
                && (old(io.cursor) + (newPos - old(pos)) >= 0 ==>
                      r == Ok(newPos) && View() == old(View()).(at := old(io.cursor) + (newPos - old(pos)), pos := newPos))
    {
      r := Seek(newPos, FileBase.SeekSet);
    }

    /** `rewind`: back to the start of the entry; `lineno` becomes 0 once the seek is done. */
    method Rewind() returns (r: Result<int, Error>)
      modifies this, io
      ensures Kept()
      ensures old(IsClosed()) ==> r == Err(IOError) && View() == old(View())
      ensures !old(IsClosed()) && !io.seekable ==> r == Err(IllegalSeek) && View() == old(View())
      ensures !old(IsClosed()) && io.seekable && old(io.cursor) < old(pos) ==> r == Err(InvalidSeek) && View() == old(View())
      ensures !old(IsClosed()) && io.seekable && old(io.cursor) >= old(pos) ==>
                r == Ok(0) && View() == State(old(io.data), old(io.cursor) - old(pos), 0, 0)
    {
      r := Seek(0, FileBase.SeekSet);
      if r.Ok? {
        lineno := 0;
      }
    }

    /** `skip_to_next_record`: a seek to the end of the padded body. */
    method SkipToNextRecord() returns (r: Outcome<Error>)
      modifies this, io
      ensures Kept()
      ensures old(IsClosed()) ==> r == Fail(IOError) && View() == old(View())
      ensures !old(IsClosed()) ==>
                var o := StreamSeek(header.size, io.seekable, old(View()), SkipTarget(header.size), FileBase.SeekSet);
                (o.Err? ==> r == Fail(o.error) && View() == old(View()))
                && (o.Ok? ==> r == Pass && View() == o.value)
    {
      var moved := Seek(SkipTarget(header.size), FileBase.SeekSet);
      return if moved.Err? then Fail(moved.error) else Pass;
    }

    /** `getbyte`. */
    method GetByte() returns (r: Result<Option<byte>, Error>)
      modifies this, io
      ensures Kept()
      ensures old(IsClosed()) ==> r == Err(IOError) && View() == old(View())
      ensures !old(IsClosed()) ==> var g := EntryState.GetByte(header.size, old(View()));
                r == Ok(g.0) && View() == g.1
    {
      if IsClosed() {
        return Err(IOError);
      }
      if AtEof(header.size, View()) {
        return Ok(None);
      }
      pos := pos + 1;
      r := io.GetByte();
    }

    /** `ungetbyte(byte)`. */
    method UngetByte(b: Option<byte>) returns (r: Outcome<Error>)
      modifies this, io
      ensures Kept()
      ensures old(IsClosed()) ==> r == Fail(IOError) && View() == old(View())
      ensures !old(IsClosed()) ==> r == Pass && View() == EntryState.UngetByte(old(View()), b)
    {
      if IsClosed() {
        return Fail(IOError);
      }
      pos := pos - 1;
      r := io.UngetByte(b);
    }

    /** `readbyte`: as `getbyte`, but EOFError at the end of the entry. */
    method ReadByte() returns (r: Result<Option<byte>, Error>)
      modifies this, io
      ensures Kept()
      ensures old(IsClosed()) ==> r == Err(IOError) && View() == old(View())
      ensures !old(IsClosed()) && AtEof(header.size, old(View())) ==> r == Err(EOFError) && View() == old(View())
      ensures !old(IsClosed()) && !AtEof(header.size, old(View())) ==>
                var g := EntryState.GetByte(header.size, old(View())); r == Ok(g.0) && View() == g.1
    {
      if IsClosed() {
        return Err(IOError);
      }
      if AtEof(header.size, View()) {
        return Err(EOFError);
      }
      r := GetByte();
    }

    /** `each_byte`, its block collecting what it is given. */
    method EachByte() returns (r: Result<seq<Option<byte>>, Error>)
      modifies this, io
      ensures Kept()
      ensures old(IsClosed()) ==> r == Err(IOError) && View() == old(View())
      ensures !old(IsClosed()) ==> var e := EntryState.EachByte(header.size, old(View()));
                r == Ok(e.0) && View() == e.1
    {
      if IsClosed() {
        return Err(IOError);
      }
      ghost var s0 := View();
      var items: seq<Option<byte>> := [];
      while !AtEof(header.size, View())
        invariant Kept() && !IsClosed()
        invariant items + EntryState.EachByte(header.size, View()).0 == EntryState.EachByte(header.size, s0).0
        invariant EntryState.EachByte(header.size, View()).1 == EntryState.EachByte(header.size, s0).1
        decreases header.size - pos
      {
        ghost var before := View();
        var b := GetByte();
        assert items + [b.value] + EntryState.EachByte(header.size, View()).0
            == items + EntryState.EachByte(header.size, before).0;
        items := items + [b.value];
      }
      assert items + [] == items;
      return Ok(items);
    }

    /** Pushes `bs` back, last byte first, so that they are read next in their own order. */
    method UngetAll(bs: seq<byte>)
      requires !IsClosed()
      modifies this, io
      ensures Kept() && View() == UngetBytes(old(View()), bs)
    {
      var k := |bs|;
      assert bs[..k] == bs;
      while k > 0
        invariant 0 <= k <= |bs| && Kept() && !IsClosed()
        invariant UngetBytes(View(), bs[..k]) == UngetBytes(old(View()), bs)
      {
        var _ := UngetByte(Some(bs[k - 1]));
        assert bs[..k][..k - 1] == bs[..k - 1];
        k := k - 1;
      }
    }

    /** `getc`: the same character reading as the newer reader (`undo_getc_attempt` included). */
    method GetC() returns (r: Result<Option<seq<byte>>, Error>)
      modifies this, io
      ensures Kept()
      ensures old(IsClosed()) ==> r == Err(IOError) && View() == old(View())
      ensures !old(IsClosed()) ==> var g := Getc(env, CodecOf(), header.size, old(View()));
                r == g.result && View() == g.after
    {
      if IsClosed() {
        return Err(IOError);
      }
      if AtEof(header.size, View()) {
        return Ok(None);
      }
      ghost var s0 := View();
      ghost var codec := CodecOf();
      var mm := MinMax(ext);
      var buf: seq<byte> := [];
      while !(|buf| == mm.1 || AtEof(header.size, View()))
        invariant Kept() && !IsClosed() && CodecOf() == codec
        invariant GetcLoop(header.size, ext, View(), buf) == GetcLoop(header.size, ext, s0, [])
        decreases header.size - pos
      {
        GetcLoopTurn(env, codec, header.size, View(), buf);
        var piece := Read(Some(mm.0));
        if piece.Err? {
          GetcFails(env, codec, header.size, s0, piece.error, View());
          return Err(piece.error);
        }
        buf := buf + piece.value;
        if Valid(ext, buf) {
          GetcEnds(env, codec, header.size, s0, buf, true, View());
          return Ok(Some(Encode(env, buf, ext, internal, opts)));
        }
      }
      GetcEnds(env, codec, header.size, s0, buf, false, View());
      if mm.0 > |buf| {
        return Err(NoMethodError);
      }
      UngetAll(buf[mm.0..]);
      return Ok(Some(Encode(env, buf[..mm.0], ext, internal, opts)));
    }

    /** `ungetc(char)`: the character, converted to the external encoding, is pushed back. */
    method UngetC(c: seq<byte>, from: Encoding) returns (r: Outcome<Error>)
      modifies this, io
      ensures Kept()
      ensures old(IsClosed()) ==> r == Fail(IOError) && View() == old(View())
      ensures !old(IsClosed()) ==> r == Pass && View() == Ungetc(env, CodecOf(), old(View()), c, from)
    {
      if IsClosed() {
        return Fail(IOError);
      }
      UngetAll(Convert(env, c, from, ext));
      return Pass;
    }

    /** `readchar`: as `getc`, but EOFError at the end of the entry. */
    method ReadChar() returns (r: Result<seq<byte>, Error>)
      modifies this, io
      ensures Kept()
      ensures old(IsClosed()) ==> r == Err(IOError) && View() == old(View())
      ensures !old(IsClosed()) && AtEof(header.size, old(View())) ==> r == Err(EOFError) && View() == old(View())
      ensures !old(IsClosed()) && !AtEof(header.size, old(View())) ==>
                var g := Getc(env, CodecOf(), header.size, old(View()));
                (g.result.Err? ==> r == Err(g.result.error)) && (g.result.Ok? ==> r == Ok(g.result.value.value))
                && View() == g.after
    {
      if IsClosed() {
        return Err(IOError);
      }
      if AtEof(header.size, View()) {
        return Err(EOFError);
      }
      var c := GetC();
      return if c.Err? then Err(c.error) else Ok(c.value.value);
    }

    /** `each_char`, its block collecting what it is given. */
    method EachChar() returns (items: seq<seq<byte>>, err: Option<Error>)
      modifies this, io
      ensures Kept()
      ensures old(IsClosed()) ==> items == [] && err == Some(IOError) && View() == old(View())
      ensures !old(IsClosed()) ==> var e := EntryState.EachChar(env, CodecOf(), header.size, old(View()));
                items == e.items && err == e.error && View() == e.after
    {
      items := [];
      if IsClosed() {
        return [], Some(IOError);
      }
      ghost var e0 := EntryState.EachChar(env, CodecOf(), header.size, View());
      while !AtEof(header.size, View())
        invariant Kept() && !IsClosed()
        invariant EachCharResumes(env, CodecOf(), header.size, items, View(), e0)
        decreases header.size - pos
      {
        ghost var before := View();
        var c := GetC();
        if c.Err? {
          EachCharFails(env, CodecOf(), header.size, before);
          return items, Some(c.error);
        }
        EachCharOn(env, CodecOf(), header.size, items, before, e0);
        items := items + [c.value.value];
      }
      return items, None;
    }

    /** `set_encoding(external, *internal, **options)`: no byte-order mark is looked for. */
    method SetEncoding(external: FileBase.EncArg, inner: seq<FileBase.EncArg>, options: Options) returns (r: Outcome<Error>)
      modifies this
      ensures closed == old(closed) && pos == old(pos) && lineno == old(lineno)
      ensures old(IsClosed()) ==> r == Fail(IOError) && CodecOf() == old(CodecOf())
      ensures !old(IsClosed()) ==> var o := FileBase.ResolveEncodings(env, external, inner);
                (o.Err? ==> r == Fail(o.error) && CodecOf() == old(CodecOf()))
                && (o.Ok? ==> r == Pass && (ext, internal) == o.value && opts == options)
    {
      if IsClosed() {
        return Fail(IOError);
      }
      var pair := FileBase.ExtractEncodings(external, inner);
      if pair.Err? {
        return Fail(pair.error);
      }
      var settled := FileBase.Settle(env, pair.value.0, pair.value.1);
      ext, internal, opts := settled.0, settled.1, options;
      return Pass;
    }

    /** `binmode`: `set_encoding(Encoding::BINARY)`. */
    method SetBinmode() returns (r: Outcome<Error>)
      modifies this
      ensures closed == old(closed) && pos == old(pos) && lineno == old(lineno)
      ensures old(IsClosed()) ==> r == Fail(IOError) && CodecOf() == old(CodecOf())
      ensures !old(IsClosed()) ==> r == Pass && ext == Binary && internal.None? && opts == []
    {
      r := SetEncoding(FileBase.Enc(Binary), [], []);
    }
  }
}
