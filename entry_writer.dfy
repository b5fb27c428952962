/** `Tar::File::Writer`: the writer of one archive entry's body. It shares the archive's
    stream, counts its own position `pos`, remembers the furthest position written as
    `bytes_written`, and on `close` pads the body with NULs to a record boundary. */
module EntryWriter {
  import opened Bytes
  import opened Wrappers
  import opened Errors
  import opened Stream
  import opened Ustar
  import FileBase

  /** What a writer works on: the stream's contents and cursor, `pos`, `bytes_written`. */
  datatype Sink = Sink(data: seq<byte>, at: nat, pos: int, written: nat)

  /** `write(data)`: the bytes go to the stream at its cursor, `pos` moves past them and
      `bytes_written` becomes the further of itself and the new `pos`. */
  function Put(s: Sink, bytes: seq<byte>): (r: Sink)
    ensures r.data == Overwrite(s.data, s.at, bytes) && r.at == s.at + |bytes| && r.pos == s.pos + |bytes|
    ensures r.written >= s.written && r.written >= r.pos && (r.written == s.written || r.written == r.pos)
  {
    var p := s.pos + |bytes|;
    Sink(Overwrite(s.data, s.at, bytes), s.at + |bytes|, p, if p > s.written then p else s.written)
  }

  /** The chunks written one after another. */
  function PutAll(s: Sink, chunks: seq<seq<byte>>): Sink
    decreases |chunks|
  {
    if chunks == [] then s else PutAll(Put(s, chunks[0]), chunks[1..])
  }

  /** Writing chunks in turn writes them end to end from the cursor; once `pos` is at
      the furthest point written, `bytes_written` follows it. */
  lemma {:induction false} PutAllWritesConcat(s: Sink, chunks: seq<seq<byte>>)
    requires s.written == s.pos
    decreases |chunks|
    ensures var r := PutAll(s, chunks);
      r.data == Overwrite(s.data, s.at, Concat(chunks)) && r.at == s.at + |Concat(chunks)|
      && r.pos == s.pos + |Concat(chunks)| && r.written == r.pos
  {
    if chunks != [] {
      var t := Put(s, chunks[0]);
      PutAllWritesConcat(t, chunks[1..]);
      OverwriteJoin(s.data, s.at, chunks[0], Concat(chunks[1..]));
    }
  }

  /** Writing back over what was written does not make the body longer. */
  lemma RewriteKeepsLength(s: Sink, bytes: seq<byte>)
    requires s.pos + |bytes| <= s.written
    ensures Put(s, bytes).written == s.written && Put(s, bytes).pos == s.pos + |bytes|
  {
  }

  /** A gap left by seeking past the end of the stream reads as NULs once something is
      written after it. */
  lemma SeekPastEndZeroFills(s: Sink, gap: nat, bytes: seq<byte>)
    requires s.at == |s.data| && bytes != []
    ensures Put(s.(at := s.at + gap, pos := s.pos + gap), bytes).data == s.data + Zeros(gap) + bytes
  {
    OverwritePastEnd(s.data, gap, bytes);
  }

  /** `close`: `records_padding(bytes_written)` NULs at the cursor; `pos` does not move. */
  function Finish(s: Sink): (r: Sink)
    ensures r.data == Overwrite(s.data, s.at, Zeros(RecordsPadding(s.written)))
    ensures r.at == s.at + RecordsPadding(s.written) && r.pos == s.pos && r.written == s.written
  {
    var pad := Zeros(RecordsPadding(s.written));
    s.(data := Overwrite(s.data, s.at, pad), at := s.at + |pad|)
  }

  /** A fresh writer that is given some chunks and closed leaves the chunks followed by
      NULs up to the next record boundary: `records_size(bytes_written)` bytes in all. */
  lemma ClosedBodyFillsRecords(data: seq<byte>, at: nat, chunks: seq<seq<byte>>)
    ensures var r := Finish(PutAll(Sink(data, at, 0, 0), chunks));
      var body := Concat(chunks);
      r.written == |body|
      && r.data == Overwrite(data, at, body + Zeros(RecordsPadding(|body|)))
      && r.at == at + RecordsSize(|body|) && RecordsSize(|body|) % RECORD_SIZE == 0
  {
    var body := Concat(chunks);
    PutAllWritesConcat(Sink(data, at, 0, 0), chunks);
    OverwriteJoin(data, at, body, Zeros(RecordsPadding(|body|)));
    PaddingCompletesSize(|body|);
  }

  /** `seek` once the seekable and closed checks have passed: the stream moves by the same
      offset as `pos`, and refuses a target before its start. */
  function SeekSink(size: Option<int>, s: Sink, amount: int, mode: FileBase.SeekMode): (r: Result<Sink, Error>)
    ensures mode == FileBase.OtherMode ==> r == Err(ArgumentError)
    ensures mode == FileBase.SeekEnd && size.None? ==> r == Err(NoMethodError)
    ensures r.Ok? ==> r.value.data == s.data && r.value.written == s.written
                      && r.value.at - s.at == r.value.pos - s.pos
                      && r.value.pos == (match mode
                                           case SeekSet => amount
                                           case SeekCur => s.pos + amount
                                           case SeekEnd => size.value + amount
                                           case OtherMode => s.pos)
  {
    var offset := FileBase.Relativize(amount, mode, s.pos, size);
    if offset.Err? then Err(offset.error)
    else if s.at + offset.value < 0 then Err(InvalidSeek)
    else Ok(s.(at := s.at + offset.value, pos := s.pos + offset.value))
  }

  class Writer {
    const io: ByteStream
    const size: Option<int>
    var closed: bool
    var pos: int
    var bytesWritten: nat

    function View(): Sink
      reads this, io
    {
      Sink(io.data, io.cursor, pos, bytesWritten)
    }

    /** `closed?`: closed here, or the stream is. */
    predicate IsClosed()
      reads this, io
    {
      closed || io.closed
    }

    constructor (stream: ByteStream, declared: Option<int>)
      ensures io == stream && size == declared && !closed && pos == 0 && bytesWritten == 0
    {
      io := stream;
      size := declared;
      closed := false;
      pos := 0;
      bytesWritten := 0;
    }

    /** `File::Writer.new(io:, size:)`: the encodings are set first, which fails on a
        closed stream; a new writer is at 0 with nothing written. */
    static method Open(stream: ByteStream, declared: Option<int>) returns (r: Result<Writer, Error>)
      ensures stream.closed ==> r == Err(IOError)
      ensures !stream.closed ==> r.Ok? && fresh(r.value) && r.value.io == stream && r.value.size == declared
                                 && !r.value.closed && r.value.pos == 0 && r.value.bytesWritten == 0
    {
      if stream.closed {
        return Err(IOError);
      }
      var w := new Writer(stream, declared);
      return Ok(w);
    }

    /** `pos`. */
    function Tell(): (r: Result<int, Error>)
      reads this, io
      ensures IsClosed() <==> r == Err(IOError)
      ensures r.Ok? ==> r.value == pos
    {
      if IsClosed() then Err(IOError) else Ok(pos)
    }

    /** `size` as written: `super` finds no `size` in `File::Base`. */
    function SizeAsWritten(): (r: Result<int, Error>)
      ensures r == Err(NoMethodError)
    {
      Err(NoMethodError)
    }

    /** `size`: the declared size when there is one, otherwise `bytes_written`. */
    function Size(): (r: int)
      reads this
      ensures size.Some? ==> r == size.value
      ensures size.None? ==> r == bytesWritten
    {
      size.GetOr(bytesWritten)
    }

    /** `write(data)`: no closed check of its own; only a closed stream refuses. */
    method Write(bytes: seq<byte>) returns (r: Outcome<Error>)
      modifies this, io
      ensures closed == old(closed) && io.closed == old(io.closed)
      ensures old(io.closed) ==> r == Fail(IOError) && View() == old(View())
      ensures !old(io.closed) ==> r == Pass && View() == Put(old(View()), bytes)
    {
      var n := io.Write(bytes);
      if n.Err? {
        return Fail(n.error);
      }
      pos := pos + n.value;
      if pos > bytesWritten {
        bytesWritten := pos;
      }
      return Pass;
    }

    /** `close`: pad to the record boundary, then mark closed; a closed stream refuses the
        padding and the writer stays open. */
    method Close() returns (r: Outcome<Error>)
      modifies this, io
      ensures io.closed == old(io.closed)
      ensures old(io.closed) ==> r == Fail(IOError) && closed == old(closed) && View() == old(View())
      ensures !old(io.closed) ==> r == Pass && closed && View() == Finish(old(View()))
    {
      var n := io.Write(Zeros(RecordsPadding(bytesWritten)));
      if n.Err? {
        return Fail(n.error);
      }
      closed := true;
      return Pass;
    }

    /** `seek(amount, mode)`: SeekNotSupported comes first, then the closed check; from
        the end of an entry of unknown size there is nothing to add to. */
    method Seek(amount: int, mode: FileBase.SeekMode) returns (r: Result<int, Error>)
      modifies this, io
      ensures closed == old(closed) && io.closed == old(io.closed)
      ensures !io.seekable ==> r == Err(SeekNotSupported) && View() == old(View())
      ensures io.seekable && old(IsClosed()) ==> r == Err(IOError) && View() == old(View())
      ensures io.seekable && !old(IsClosed()) ==>
                var o := SeekSink(size, old(View()), amount, mode);
                (o.Err? ==> r == Err(o.error) && View() == old(View()))
                && (o.Ok? ==> r == Ok(o.value.pos) && View() == o.value)
    {
      if !io.seekable {
        return Err(SeekNotSupported);
      }
      if IsClosed() {
        return Err(IOError);
      }
      var offset := FileBase.Relativize(amount, mode, pos, size);
      if offset.Err? {
        return Err(offset.error);
      }
      var moved := io.SeekTo(io.cursor + offset.value);
      if moved.Fail? {
        return Err(moved.error);
      }
      pos := pos + offset.value;
      return Ok(pos);
    }

    /** `pos = new_pos`. */
    method SetPos(newPos: int) returns (r: Result<int, Error>)
      modifies this, io
      ensures closed == old(closed) && io.closed == old(io.closed)
      ensures !io.seekable ==> r == Err(SeekNotSupported) && View() == old(View())
      ensures io.seekable && old(IsClosed()) ==> r == Err(IOError) && View() == old(View())
      ensures io.seekable && !old(IsClosed()) ==>
                (old(io.cursor) + (newPos - old(pos)) < 0 ==> r == Err(InvalidSeek) && View() == old(View()))
                && (old(io.cursor) + (newPos - old(pos)) >= 0 ==>
                      r == Ok(newPos) && View() == old(View()).(at := old(io.cursor) + (newPos - old(pos)), pos := newPos))
    {
      r := Seek(newPos, FileBase.SeekSet);
    }

    /** `rewind`: back to the start of the entry. */
    method Rewind() returns (r: Result<int, Error>)
      modifies this, io
      ensures closed == old(closed) && io.closed == old(io.closed)
      ensures !io.seekable ==> r == Err(SeekNotSupported) && View() == old(View())
      ensures io.seekable && old(IsClosed()) ==> r == Err(IOError) && View() == old(View())
      ensures io.seekable && !old(IsClosed()) && old(io.cursor) < old(pos) ==> r == Err(InvalidSeek) && View() == old(View())
      ensures io.seekable && !old(IsClosed()) && old(io.cursor) >= old(pos) ==>
                r == Ok(0) && View() == old(View()).(at := old(io.cursor) - old(pos), pos := 0)
    {
      r := Seek(0, FileBase.SeekSet);
    }
  }
}
