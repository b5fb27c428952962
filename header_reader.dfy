/** `Tar::HeaderReader`: reads the next header record from the archive stream, recognises
    the terminator of two zero records, and refuses a lone zero record. */
module HeaderReader {
  import opened Bytes
  import opened Wrappers
  import opened Errors
  import opened Stream
  import opened Ustar
  import Header

  /** `empty?(record)`: the whole record matches `\0+`, so it has at least one byte and
      every byte is NUL. */
  predicate IsEmpty(record: seq<byte>)
  {
    |record| > 0 && forall i :: 0 <= i < |record| ==> record[i] == NUL
  }

  /** An empty record is a run of zeros, and a run of zeros is empty. */
  lemma EmptyIsZeros(record: seq<byte>)
    ensures IsEmpty(record) <==> |record| > 0 && record == Zeros(|record|)
  {
    if |record| > 0 && record == Zeros(|record|) {
      assert forall i :: 0 <= i < |record| ==> record[i] == Zeros(|record|)[i];
    }
  }

  /** `Header.parse` with the header wrapped as the non-nil answer of `read`. */
  function ParseHeader(record: seq<byte>): (r: Result<Option<Header.Header>, Error>)
    ensures r != Ok(None)
    ensures r.Err? <==> Header.Parse(record).Err?
  {
    match Header.Parse(record)
    case Ok(h) => Ok(Some(h))
    case Err(e) => Err(e)
  }

  /** The rest of `read` once the first record came back empty: a second empty record
      is the terminator, anything else is an InvalidArchive. */
  function AfterEmpty(more: seq<byte>): (r: (Result<Option<Header.Header>, Error>, nat))
    ensures |more| < RECORD_SIZE ==> r == (Err(UnexpectedEOF(|more|)), |more|)
    ensures |more| >= RECORD_SIZE && IsEmpty(more[..RECORD_SIZE]) ==> r == (Ok(None), RECORD_SIZE)
    ensures |more| >= RECORD_SIZE && !IsEmpty(more[..RECORD_SIZE]) ==> r == (Err(InvalidArchive), RECORD_SIZE)
  {
    if |more| < RECORD_SIZE then (Err(UnexpectedEOF(|more|)), |more|)
    else if IsEmpty(more[..RECORD_SIZE]) then (Ok(None), RECORD_SIZE)
    else (Err(InvalidArchive), RECORD_SIZE)
  }

  /** `read` on the bytes the stream still holds: the answer, and how many bytes it takes. */
  function ReadHeader(rest: seq<byte>): (r: (Result<Option<Header.Header>, Error>, nat))
    ensures r.1 <= |rest|
  {
    if |rest| < RECORD_SIZE then (Err(UnexpectedEOF(|rest|)), |rest|)
    else if IsEmpty(rest[..RECORD_SIZE]) then
      var t := AfterEmpty(rest[RECORD_SIZE..]);
      (t.0, RECORD_SIZE + t.1)
    else (ParseHeader(rest[..RECORD_SIZE]), RECORD_SIZE)
  }

  /** A record that parses gives its header as the non-nil answer. */
  lemma ParsesTo(record: seq<byte>, h: Header.Header)
    requires Header.Parse(record) == Ok(h)
    ensures ParseHeader(record) == Ok(Some(h))
  {
  }

  /** A stream whose next record is not empty answers with that record parsed, taking
      just the record. */
  lemma ReadsRecord(rest: seq<byte>, record: seq<byte>)
    requires |record| == RECORD_SIZE && |rest| >= RECORD_SIZE && rest[..RECORD_SIZE] == record
    requires !IsEmpty(record)
    ensures ReadHeader(rest) == (ParseHeader(record), RECORD_SIZE)
  {
  }

  /** The two records after the cursor, when the stream holds them. */
  lemma SplitRecords(rest: seq<byte>)
    requires |rest| >= 2 * RECORD_SIZE
    ensures rest[RECORD_SIZE..][..RECORD_SIZE] == rest[RECORD_SIZE..2 * RECORD_SIZE]
    ensures rest[..2 * RECORD_SIZE] == rest[..RECORD_SIZE] + rest[RECORD_SIZE..2 * RECORD_SIZE]
  {
  }

  /** Two zero records end the archive after taking exactly 1024 bytes. */
  lemma TerminatorEndsArchive(rest: seq<byte>)
    requires |rest| >= |EOF| && rest[..|EOF|] == EOF
    ensures ReadHeader(rest) == (Ok(None), |EOF|)
  {
    SplitRecords(rest);
    EofIsTwoZeroRecords();
    var a := rest[..RECORD_SIZE];
    var b := rest[RECORD_SIZE..2 * RECORD_SIZE];
    assert a == Zeros(RECORD_SIZE) && b == Zeros(RECORD_SIZE);
    EmptyIsZeros(a);
    EmptyIsZeros(b);
  }

  /** `read` answers nil only on the terminator. */
  lemma NilOnlyAtTerminator(rest: seq<byte>)
    requires ReadHeader(rest).0 == Ok(None)
    ensures |rest| >= |EOF| && rest[..|EOF|] == EOF
  {
    assert |rest| >= RECORD_SIZE;
    var a := rest[..RECORD_SIZE];
    assert IsEmpty(a);
    var more := rest[RECORD_SIZE..];
    assert AfterEmpty(more).0 == Ok(None);
    assert |more| >= RECORD_SIZE && IsEmpty(more[..RECORD_SIZE]);
    SplitRecords(rest);
    var b := rest[RECORD_SIZE..2 * RECORD_SIZE];
    EmptyIsZeros(a);
    EmptyIsZeros(b);
    EofIsTwoZeroRecords();
  }

  /** A zero record followed by one that is not empty is an InvalidArchive after two
      records; a zero record at the end of the stream is cut short. */
  lemma LoneZeroRecord(rest: seq<byte>)
    requires |rest| >= RECORD_SIZE && IsEmpty(rest[..RECORD_SIZE])
    ensures |rest| >= 2 * RECORD_SIZE && !IsEmpty(rest[RECORD_SIZE..2 * RECORD_SIZE])
            ==> ReadHeader(rest) == (Err(InvalidArchive), 2 * RECORD_SIZE)
    ensures |rest| < 2 * RECORD_SIZE ==> ReadHeader(rest) == (Err(UnexpectedEOF(|rest| - RECORD_SIZE)), |rest|)
  {
    if |rest| >= 2 * RECORD_SIZE {
      SplitRecords(rest);
    }
  }

  class HeaderReader {
    const io: ByteStream

    constructor (stream: ByteStream)
      ensures io == stream
    {
      io := stream;
    }

    /** `read`: one record, or two when the first is empty. */
    method Read() returns (r: Result<Option<Header.Header>, Error>)
      modifies io
      ensures io.data == old(io.data) && io.closed == old(io.closed)
      ensures old(io.closed) ==> r == Err(IOError) && io.cursor == old(io.cursor)
      ensures !old(io.closed) ==> var o := ReadHeader(old(io.Remaining()));
                r == o.0 && io.cursor == old(io.cursor) + o.1
    {
      ghost var rest := io.Remaining();
      var record := ReadRecord(io);
      if record.Err? {
        return Err(record.error);
      }
      if IsEmpty(record.value) {
        assert io.Remaining() == rest[RECORD_SIZE..];
        var second := ReadRecord(io);
        if second.Err? {
          return Err(second.error);
        }
        if IsEmpty(second.value) {
          return Ok(None);
        }
        return Err(InvalidArchive);
      }
      return ParseHeader(record.value);
    }
  }
}
