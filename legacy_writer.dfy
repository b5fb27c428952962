/** `Tar::FileWriter`: the older entry writer. It forwards every write to the stream and
    on `close` pads by the size the header declares, whatever was written. */
module LegacyWriter {
  import opened Bytes
  import opened Wrappers
  import opened Errors
  import opened Stream
  import opened Ustar
  import Header

  /** When exactly the declared number of bytes was written from `at`, the padding that
      `close` adds completes `records_size(header.size)` bytes, ending on a record boundary. */
  lemma DeclaredBodyFillsRecords(data: seq<byte>, at: nat, size: int, body: seq<byte>)
    requires |body| == size
    ensures Overwrite(Overwrite(data, at, body), at + |body|, Zeros(RecordsPadding(size)))
         == Overwrite(data, at, body + Zeros(RecordsPadding(size)))
    ensures |body + Zeros(RecordsPadding(size))| == RecordsSize(size)
    ensures (at + RecordsSize(size)) % RECORD_SIZE == at % RECORD_SIZE
  {
    OverwriteJoin(data, at, body, Zeros(RecordsPadding(size)));
    PaddingCompletesSize(size);
    ShiftByRecords(at, RecordsSize(size));
  }

  /** The padding follows the declared size only: a body of another length ends on a record
      boundary exactly when it differs from the declared size by whole records. */
  lemma PaddingIgnoresBody(size: int, written: nat)
    ensures (written + RecordsPadding(size)) % RECORD_SIZE == 0 <==> (size - written) % RECORD_SIZE == 0
  {
    PaddingCompletesSize(size);
    assert written + RecordsPadding(size) == RecordsSize(size) - (size - written);
  }

  class FileWriter {
    const header: Header.Header
    const io: ByteStream

    /** `FileWriter.new(header, io)`. */
    constructor (h: Header.Header, stream: ByteStream)
      ensures header == h && io == stream
    {
      header := h;
      io := stream;
    }

    /** `write(data)`: straight to the stream, answering the count it answers. */
    method Write(bytes: seq<byte>) returns (r: Result<nat, Error>)
      modifies io
      ensures io.closed == old(io.closed)
      ensures old(io.closed) ==> r == Err(IOError) && io.data == old(io.data) && io.cursor == old(io.cursor)
      ensures !old(io.closed) ==> r == Ok(|bytes|) && io.data == Overwrite(old(io.data), old(io.cursor), bytes)
                                  && io.cursor == old(io.cursor) + |bytes|
    {
      r := io.Write(bytes);
    }

    /** `close`: `records_padding(header.size)` NULs at the cursor. */
    method Close() returns (r: Result<nat, Error>)
      modifies io
      ensures io.closed == old(io.closed)
      ensures old(io.closed) ==> r == Err(IOError) && io.data == old(io.data) && io.cursor == old(io.cursor)
      ensures !old(io.closed) ==> r == Ok(RecordsPadding(header.size))
                                  && io.data == Overwrite(old(io.data), old(io.cursor), Zeros(RecordsPadding(header.size)))
                                  && io.cursor == old(io.cursor) + RecordsPadding(header.size)
    {
      r := io.Write(Zeros(RecordsPadding(header.size)));
    }
  }
}
