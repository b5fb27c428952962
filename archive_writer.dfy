/** `Tar::Writer`: writes entries, each a header record followed by its body padded to a
    record boundary, and ends the archive with two zero records. When the size of an entry
    is not given, a zero record holds its place and is patched once the body is written. */
module ArchiveWriter {
  import opened Bytes
  import opened Wrappers
  import opened Errors
  import opened Stream
  import opened Ustar
  import EntryWriter

  /** The header values given to `add` besides the size, as name/value pairs. */
  type Values = seq<(string, string)>

  /** `Header.create(**values)` turns the values and a size into a header record; the
      formatter is a parameter of the model. */
  type Formatter = (Values, int) -> seq<byte>

  /** The header record written for an entry: what the formatter makes, as one record. */
  function FormatHeader(format: Formatter, values: Values, size: int): (r: seq<byte>)
    ensures |r| == RECORD_SIZE
    ensures |format(values, size)| == RECORD_SIZE ==> r == format(values, size)
  {
    var h := format(values, size);
    if |h| >= RECORD_SIZE then h[..RECORD_SIZE] else h + Zeros(RECORD_SIZE - |h|)
  }

  /** One call of `add`: `contents:`, the block (as the chunks it writes to the entry
      writer, in order), `size:`, and the other header values. */
  datatype Add = Add(contents: Option<seq<byte>>, block: Option<seq<seq<byte>>>, size: Option<int>, values: Values)

  /** `add`'s choice of size and body from its arguments. */
  function Body(a: Add): Result<(Option<int>, seq<seq<byte>>), Error>
  {
    if a.contents.Some? then
      if a.block.Some? then Err(ArgumentError) else Ok((Some(|a.contents.value|), [a.contents.value]))
    else if a.block.None? then Ok((Some(0), []))
    else Ok((a.size, a.block.value))
  }

  /** An entry as it lands on the stream: the header record, the body, NULs up to the next
      record boundary. */
  function EntryBytes(format: Formatter, values: Values, headerSize: int, body: seq<byte>): (r: seq<byte>)
    ensures |r| == RECORD_SIZE + RecordsSize(|body|) && |r| % RECORD_SIZE == 0
    ensures r[..RECORD_SIZE] == FormatHeader(format, values, headerSize)
    ensures r[RECORD_SIZE..RECORD_SIZE + |body|] == body
    ensures forall i :: RECORD_SIZE + |body| <= i < |r| ==> r[i] == NUL
  {
    var h := FormatHeader(format, values, headerSize);
    var pad := Zeros(RecordsPadding(|body|));
    PaddingCompletesSize(|body|);
    assert (h + body + pad)[RECORD_SIZE..RECORD_SIZE + |body|] == body;
    h + body + pad
  }

  /** The stream as the writer sees it: contents and cursor. */
  datatype Tape = Tape(data: seq<byte>, at: nat)

  /** `add` on a writer that is or is not closed, over a stream that can or cannot seek:
      the entry is written at the cursor, with the size given or, failing that, the
      number of bytes the block wrote. */
  function AddTo(format: Formatter, closed: bool, seekable: bool, t: Tape, a: Add): (r: Result<Tape, Error>)
  {
    match Body(a)
    case Err(e) => Err(e)
    case Ok(chosen) =>
      if closed then Err(IOError)
      else if chosen.0.None? && !seekable then Err(SeekNotSupported)
      else
        var body := Concat(chosen.1);
        var e := EntryBytes(format, a.values, chosen.0.GetOr(|body|), body);
        Ok(Tape(Overwrite(t.data, t.at, e), t.at + |e|))
  }

  /** `add` as written: `write_file` builds `FileWriter.new(@io, size: size)`, which binds
      `Tar::FileWriter`'s `header` to the stream and its `io` to the hash `{size: ...}`.
      The first `file.write` of the block, or else `file.close`, calls `write` on that hash:
      every `add` that gets past its refusals fails with NoMethodError once the header (or
      the placeholder, when the size is deferred) is on the stream. */
  function AddAsWritten(format: Formatter, closed: bool, seekable: bool, t: Tape, a: Add): (r: (Error, Tape))
    ensures AddTo(format, closed, seekable, t, a).Err? ==> r == (AddTo(format, closed, seekable, t, a).error, t)
    ensures AddTo(format, closed, seekable, t, a).Ok? ==>
              r.0 == NoMethodError && r.1.at == t.at + RECORD_SIZE && |r.1.data| >= r.1.at
              && r.1.data[t.at..r.1.at] == (if Body(a).value.0.Some? then FormatHeader(format, a.values, Body(a).value.0.value)
                                            else Zeros(RECORD_SIZE))
  {
    match Body(a)
    case Err(e) => (e, t)
    case Ok(chosen) =>
      if closed then (IOError, t)
      else if chosen.0.None? && !seekable then (SeekNotSupported, t)
      else
        var first := if chosen.0.Some? then FormatHeader(format, a.values, chosen.0.value) else Zeros(RECORD_SIZE);
        var written := Overwrite(t.data, t.at, first);
        assert written[t.at..t.at + RECORD_SIZE] == first;
        (NoMethodError, Tape(written, t.at + RECORD_SIZE))
  }

  /** `contents:` together with a block is refused before anything else, a closed writer
      next; neither writes anything. */
  lemma AddRefusals(format: Formatter, closed: bool, seekable: bool, t: Tape, a: Add)
    ensures a.contents.Some? && a.block.Some? ==> AddTo(format, closed, seekable, t, a) == Err(ArgumentError)
    ensures !(a.contents.Some? && a.block.Some?) && closed ==> AddTo(format, closed, seekable, t, a) == Err(IOError)
    ensures !(a.contents.Some? && a.block.Some?) && a.contents.None? && a.block.Some? && a.size.None? && !closed && !seekable
            ==> AddTo(format, closed, seekable, t, a) == Err(SeekNotSupported)
  {
  }

  /** `contents:` gives the size and the body, whatever `size:` says. */
  lemma AddContents(format: Formatter, seekable: bool, t: Tape, a: Add)
    requires a.contents.Some? && a.block.None?
    ensures var e := EntryBytes(format, a.values, |a.contents.value|, a.contents.value);
      AddTo(format, false, seekable, t, a) == Ok(Tape(Overwrite(t.data, t.at, e), t.at + |e|))
      && |e| == RECORD_SIZE + RecordsSize(|a.contents.value|)
  {
    assert Concat([a.contents.value]) == a.contents.value + Concat([]);
    assert a.contents.value + [] == a.contents.value;
  }

  /** Neither contents nor a block: a header of size 0 and nothing after it. */
  lemma AddNothing(format: Formatter, seekable: bool, t: Tape, a: Add)
    requires a.contents.None? && a.block.None?
    ensures var h := FormatHeader(format, a.values, 0);
      AddTo(format, false, seekable, t, a) == Ok(Tape(Overwrite(t.data, t.at, h), t.at + RECORD_SIZE))
  {
    assert EntryBytes(format, a.values, 0, []) == FormatHeader(format, a.values, 0) + [] + [];
  }

  /** Leaving the size out and having the header patched writes the same entry as giving
      the size of the body up front. */
  lemma DeferredSizeMatchesKnown(format: Formatter, t: Tape, a: Add)
    requires a.contents.None? && a.block.Some? && a.size.None?
    ensures AddTo(format, false, true, t, a) == AddTo(format, false, true, t, a.(size := Some(|Concat(a.block.value)|)))
  {
  }

  /** `add` one after another; the first failure stops the block. */
  function AddAll(format: Formatter, closed: bool, seekable: bool, t: Tape, adds: seq<Add>): (r: (Tape, Option<Error>))
    decreases |adds|
  {
    if adds == [] then (t, None)
    else match AddTo(format, closed, seekable, t, adds[0])
      case Err(e) => (t, Some(e))
      case Ok(next) => AddAll(format, closed, seekable, next, adds[1..])
  }

  /** From a record boundary at the end of the stream, an entry that is written grows the
      stream by whole records and leaves the cursor at its end. */
  lemma AddAppends(format: Formatter, seekable: bool, t: Tape, a: Add)
    requires t.at == |t.data| && |t.data| % RECORD_SIZE == 0
    requires AddTo(format, false, seekable, t, a).Ok?
    ensures var next := AddTo(format, false, seekable, t, a).value;
      next.at == |next.data| && |next.data| % RECORD_SIZE == 0 && |next.data| >= |t.data|
      && next.data[..|t.data|] == t.data
  {
    var body := Concat(Body(a).value.1);
    var e := EntryBytes(format, a.values, Body(a).value.0.GetOr(|body|), body);
    OverwriteAtEnd(t.data, e);
    assert AddTo(format, false, seekable, t, a).value.data == t.data + e;
  }

  /** From a record boundary at the end of the stream, entries that all succeed grow the
      stream by whole records and leave the cursor at its end. */
  lemma {:induction false} AddAllKeepsRecords(format: Formatter, seekable: bool, t: Tape, adds: seq<Add>)
    requires t.at == |t.data| && |t.data| % RECORD_SIZE == 0
    requires AddAll(format, false, seekable, t, adds).1.None?
    decreases |adds|
    ensures var r := AddAll(format, false, seekable, t, adds).0;
      r.at == |r.data| && |r.data| % RECORD_SIZE == 0 && |r.data| >= |t.data| && r.data[..|t.data|] == t.data
  {
    if adds != [] {
      AddAppends(format, seekable, t, adds[0]);
      var next := AddTo(format, false, seekable, t, adds[0]).value;
      AddAllKeepsRecords(format, seekable, next, adds[1..]);
      var r := AddAll(format, false, seekable, next, adds[1..]).0;
      assert r.data[..|t.data|] == r.data[..|next.data|][..|t.data|];
    }
  }

  class Writer {
    const io: ByteStream
    const format: Formatter
    var closed: bool

    /** `closed?`: closed here, or the stream is. */
    predicate IsClosed()
      reads this, io
    {
      closed || io.closed
    }

    /** `Writer.new(io)` without a block. */
    constructor (stream: ByteStream, f: Formatter)
      ensures io == stream && format == f && !closed
    {
      io := stream;
      format := f;
      closed := false;
    }

    /** `Writer.new(io) { |writer| ... }`: the block's `add` calls run until one fails, and
        the writer is closed in any case; a failing `close` hides the block's error. */
    static method Create(stream: ByteStream, f: Formatter, adds: seq<Add>) returns (w: Writer, err: Option<Error>)
      modifies stream
      ensures fresh(w) && w.io == stream && w.format == f && stream.closed == old(stream.closed)
      ensures old(stream.closed) ==> !w.closed && err == Some(IOError)
                                     && stream.data == old(stream.data) && stream.cursor == old(stream.cursor)
      ensures !old(stream.closed) ==>
                var o := AddAll(f, false, stream.seekable, Tape(old(stream.data), old(stream.cursor)), adds);
                w.closed && err == o.1
                && stream.data == Overwrite(o.0.data, o.0.at, EOF) && stream.cursor == o.0.at + |EOF|
    {
      w := new Writer(stream, f);
      ghost var t0 := Tape(stream.data, stream.cursor);
      err := None;
      var i := 0;
      while i < |adds| && err.None?
        invariant 0 <= i <= |adds| && !w.closed && stream.closed == old(stream.closed)
        invariant err.None? ==> AddAll(f, stream.closed, stream.seekable, Tape(stream.data, stream.cursor), adds[i..])
                                == AddAll(f, stream.closed, stream.seekable, t0, adds)
        invariant err.Some? ==> AddAll(f, stream.closed, stream.seekable, t0, adds) == (Tape(stream.data, stream.cursor), err)
      {
        ghost var before := Tape(stream.data, stream.cursor);
        assert adds[i..][0] == adds[i] && adds[i..][1..] == adds[i + 1..];
        var r := w.AddEntry(adds[i]);
        if r.Fail? {
          err := Some(r.error);
        }
        i := i + 1;
      }
      assert err.None? ==> adds[i..] == [];
      var c := w.Close();
      if c.Fail? {
        err := Some(c.error);
      }
    }

    /** `close`: the two zero records, then closed; a second close writes them again. */
    method Close() returns (r: Outcome<Error>)
      modifies this, io
      ensures io.closed == old(io.closed)
      ensures old(io.closed) ==> r == Fail(IOError) && closed == old(closed)
                                 && io.data == old(io.data) && io.cursor == old(io.cursor)
      ensures !old(io.closed) ==> r == Pass && closed
                                  && io.data == Overwrite(old(io.data), old(io.cursor), EOF) && io.cursor == old(io.cursor) + |EOF|
    {
      var n := io.Write(EOF);
      if n.Err? {
        return Fail(n.error);
      }
      closed := true;
      return Pass;
    }

    /** `add(contents:, size:, **values, &block)`. */
    method AddEntry(a: Add) returns (r: Outcome<Error>)
      modifies io
      ensures io.closed == old(io.closed)
      ensures var o := AddTo(format, old(IsClosed()), io.seekable, Tape(old(io.data), old(io.cursor)), a);
        (o.Err? ==> r == Fail(o.error) && io.data == old(io.data) && io.cursor == old(io.cursor))
        && (o.Ok? ==> r == Pass && Tape(io.data, io.cursor) == o.value)
    {
      var chosen := Body(a);
      if chosen.Err? {
        return Fail(chosen.error);
      }
      if IsClosed() {
        return Fail(IOError);
      }
      var size, chunks := chosen.value.0, chosen.value.1;
      if size.Some? {
        WriteWithSize(size.value, a.values, chunks);
        return Pass;
      }
      r := WriteWithoutSize(a.values, chunks);
    }

    /** `write_with_size`: the header, then the body through an entry writer. */
    method WriteWithSize(size: int, values: Values, chunks: seq<seq<byte>>)
      requires !io.closed
      modifies io
      ensures !io.closed
      ensures io.data == Overwrite(old(io.data), old(io.cursor), EntryBytes(format, values, size, Concat(chunks)))
      ensures io.cursor == old(io.cursor) + |EntryBytes(format, values, size, Concat(chunks))|
    {
      var h := FormatHeader(format, values, size);
      var _ := io.Write(h);
      var _ := WriteFile(Some(size), chunks);
      var body := Concat(chunks);
      OverwriteJoin(old(io.data), old(io.cursor), h, body + Zeros(RecordsPadding(|body|)));
      assert h + (body + Zeros(RecordsPadding(|body|))) == EntryBytes(format, values, size, body);
    }

    /** `write_without_size`: only on a stream that can seek; a zero record at the start,
        the body, then the header with the size written, over the zero record. */
    method WriteWithoutSize(values: Values, chunks: seq<seq<byte>>) returns (r: Outcome<Error>)
      requires !io.closed
      modifies io
      ensures !io.closed
      ensures !io.seekable ==> r == Fail(SeekNotSupported) && io.data == old(io.data) && io.cursor == old(io.cursor)
      ensures io.seekable ==> var e := EntryBytes(format, values, |Concat(chunks)|, Concat(chunks));
                r == Pass && io.data == Overwrite(old(io.data), old(io.cursor), e) && io.cursor == old(io.cursor) + |e|
    {
      if !io.seekable {
        return Fail(SeekNotSupported);
      }
      var startPos := io.cursor;
      var _ := io.Write(Zeros(RECORD_SIZE));
      var written := WriteFile(None, chunks);
      var endPos := io.cursor;
      var _ := io.SeekTo(startPos);
      var h := FormatHeader(format, values, written);
      var _ := io.Write(h);
      var _ := io.SeekTo(endPos);
      var body := Concat(chunks);
      var rest := body + Zeros(RecordsPadding(|body|));
      OverwriteJoin(old(io.data), old(io.cursor), Zeros(RECORD_SIZE), rest);
      OverwriteRewrite(old(io.data), old(io.cursor), Zeros(RECORD_SIZE), rest, h);
      assert h + rest == EntryBytes(format, values, |body|, body);
      return Pass;
    }

    /** `write_file(size:)`: an entry writer is given the block's chunks and closed; the
        answer is its `bytes_written`. */
    method WriteFile(size: Option<int>, chunks: seq<seq<byte>>) returns (written: nat)
      requires !io.closed
      modifies io
      ensures !io.closed && written == |Concat(chunks)|
      ensures io.data == Overwrite(old(io.data), old(io.cursor), Concat(chunks) + Zeros(RecordsPadding(|Concat(chunks)|)))
      ensures io.cursor == old(io.cursor) + RecordsSize(|Concat(chunks)|)
    {
      var made := EntryWriter.Writer.Open(io, size);
      var file := made.value;
      ghost var s0 := file.View();
      var i := 0;
      while i < |chunks|
        invariant 0 <= i <= |chunks| && file.io == io && !io.closed
        invariant EntryWriter.PutAll(file.View(), chunks[i..]) == EntryWriter.PutAll(s0, chunks)
      {
        assert chunks[i..][0] == chunks[i] && chunks[i..][1..] == chunks[i + 1..];
        var _ := file.Write(chunks[i]);
        i := i + 1;
      }
      assert chunks[i..] == [];
      var _ := file.Close();
      EntryWriter.ClosedBodyFillsRecords(s0.data, s0.at, chunks);
      written := file.bytesWritten;
    }
  }
}
