/** Record arithmetic of the ustar format: an archive is a sequence of 512-byte records
    and ends with two all-zero records. */
module Ustar {
  import opened Bytes
  import opened Wrappers
  import opened Errors
  import opened Stream

  const RECORD_SIZE: nat := 512

  /** The end-of-archive marker: two records of zero bytes. */
  const EOF: seq<byte> := Zeros(2 * RECORD_SIZE)

  /** The number of records a payload of `fileSize` bytes occupies, `(n - 1) / 512 + 1`
      with floor division; for a non-negative size it is the ceiling of `n / 512`. */
  function Records(fileSize: int): (r: int)
    ensures fileSize >= 0 ==> r >= 0 && (r - 1) * RECORD_SIZE < fileSize <= r * RECORD_SIZE
  {
    (fileSize - 1) / RECORD_SIZE + 1
  }

  /** The payload size rounded up to a whole number of records. */
  function RecordsSize(fileSize: int): (r: int)
    ensures r % RECORD_SIZE == 0 && fileSize <= r < fileSize + RECORD_SIZE
  {
    RECORD_SIZE * Records(fileSize)
  }

  /** The number of zero bytes that follow a payload up to the next record boundary. */
  function RecordsPadding(fileSize: int): (r: int)
    ensures 0 <= r < RECORD_SIZE && (fileSize + r) % RECORD_SIZE == 0
  {
    RecordsSize(fileSize) - fileSize
  }

  /** Padding a payload and the padded size agree. */
  lemma PaddingCompletesSize(fileSize: int)
    ensures fileSize + RecordsPadding(fileSize) == RecordsSize(fileSize)
  {
  }

  /** A payload that already ends on a boundary is not padded, and adding whole records
      adds whole records. */
  lemma {:induction false} RecordsShift(fileSize: int, k: nat)
    requires fileSize >= 0
    ensures Records(fileSize + k * RECORD_SIZE) == Records(fileSize) + k
    ensures RecordsPadding(fileSize + k * RECORD_SIZE) == RecordsPadding(fileSize)
  {
    if k > 0 {
      RecordsShift(fileSize, k - 1);
      assert fileSize + k * RECORD_SIZE == (fileSize + (k - 1) * RECORD_SIZE) + RECORD_SIZE;
      assert (fileSize + k * RECORD_SIZE - 1) / RECORD_SIZE == (fileSize + (k - 1) * RECORD_SIZE - 1) / RECORD_SIZE + 1;
    }
  }

  /** Moving by whole records keeps the offset within the record. */
  lemma ShiftByRecords(at: int, n: int)
    requires n % RECORD_SIZE == 0
    ensures (at + n) % RECORD_SIZE == at % RECORD_SIZE
  {
    var q, m := n / RECORD_SIZE, at % RECORD_SIZE;
    assert n == RECORD_SIZE * q;
    assert at + n == RECORD_SIZE * (at / RECORD_SIZE + q) + m;
  }

  lemma RecordsExamples()
    ensures Records(0) == 0 && Records(1) == 1 && Records(512) == 1 && Records(513) == 2
    ensures Records(1024) == 2 && Records(9000) == 18
    ensures RecordsSize(0) == 0 && RecordsSize(1) == 512 && RecordsSize(512) == 512
    ensures RecordsSize(513) == 1024 && RecordsSize(1024) == 1024 && RecordsSize(9000) == 9216
  {
  }

  lemma EofIsTwoZeroRecords()
    ensures |EOF| == 1024 && EOF == Zeros(RECORD_SIZE) + Zeros(RECORD_SIZE)
  {
  }

  /** `io.read(512) || ""` followed by the size check, as a function of the bytes the
      stream still holds. */
  function RecordRead(rest: seq<byte>): (r: Result<seq<byte>, Error>)
    ensures r.Ok? <==> |rest| >= RECORD_SIZE
    ensures r.Ok? ==> |r.value| == RECORD_SIZE && rest == r.value + rest[RECORD_SIZE..]
    ensures r.Err? ==> r.error == UnexpectedEOF(|rest|) && r.error.UnexpectedEOF?
  {
    if |rest| >= RECORD_SIZE then Ok(rest[..RECORD_SIZE]) else Err(UnexpectedEOF(|rest|))
  }

  /** How many bytes that read takes from the stream. */
  function RecordConsumed(rest: seq<byte>): nat
  {
    if |rest| >= RECORD_SIZE then RECORD_SIZE else |rest|
  }

  /** Two reads in a row return two consecutive records. */
  lemma ConsecutiveRecords(rest: seq<byte>)
    requires |rest| >= 2 * RECORD_SIZE
    ensures RecordRead(rest).Ok? && RecordRead(rest[RecordConsumed(rest)..]).Ok?
    ensures RecordRead(rest).value + RecordRead(rest[RecordConsumed(rest)..]).value == rest[..2 * RECORD_SIZE]
  {
    assert rest[..2 * RECORD_SIZE] == rest[..RECORD_SIZE] + rest[RECORD_SIZE..][..RECORD_SIZE];
  }

  /** `read_record(io)`: exactly the next 512 bytes, or UnexpectedEOF when fewer remain. */
  method ReadRecord(io: ByteStream) returns (r: Result<seq<byte>, Error>)
    modifies io
    ensures io.data == old(io.data) && io.closed == old(io.closed)
    ensures old(io.closed) ==> r == Err(IOError) && io.cursor == old(io.cursor)
    ensures !old(io.closed) ==> r == RecordRead(old(io.Remaining()))
                                && io.cursor == old(io.cursor) + RecordConsumed(old(io.Remaining()))
  {
    ghost var rest := io.Remaining();
    var got := io.Read(RECORD_SIZE);
    match got {
      case Err(e) => return Err(e);
      case Ok(None) => return RecordRead([]);
      case Ok(Some(record)) =>
        assert |rest| >= RECORD_SIZE ==> record == rest[..RECORD_SIZE];
        assert |rest| < RECORD_SIZE ==> record == rest;
        assert RecordRead(record) == RecordRead(rest) by {
          if |rest| >= RECORD_SIZE {
            assert record[..RECORD_SIZE] == rest[..RECORD_SIZE];
          }
        }
        return RecordRead(record);
    }
  }
}
