/** The header checksum: the unsigned sum of the record's bytes, counting the checksum
    field itself as eight spaces. */
module Checksum {
  import opened Bytes
  import opened Wrappers
  import opened Errors
  import opened Schema
  import opened HeaderSchema

  /** `Checksum.new(record)`'s value: the byte sum of the record with its checksum field
      blanked (the record is binary, so each character is one byte). */
  function Value(record: seq<byte>): (r: Result<int, Error>)
    ensures r.Ok? <==> |record| >= CHECKSUM_OFFSET
    ensures r.Err? ==> r.error == IndexError
    ensures r.Ok? ==> r.value == Sum(record[..CHECKSUM_OFFSET]) + CHECKSUM_SIZE * SPACE
                                 + Sum(Drop(record, CHECKSUM_OFFSET + CHECKSUM_SIZE))
  {
    match ClearChecksum(record)
    case Err(e) => Err(e)
    case Ok(cleared) =>
      SumAppend(record[..CHECKSUM_OFFSET] + Spaces(CHECKSUM_SIZE), Drop(record, CHECKSUM_OFFSET + CHECKSUM_SIZE));
      SumAppend(record[..CHECKSUM_OFFSET], Spaces(CHECKSUM_SIZE));
      SumConstant(Spaces(CHECKSUM_SIZE), SPACE);
      Ok(Sum(cleared))
  }

  /** `check!(expected)`: passes exactly when the computed value equals `expected`. */
  function Check(actual: int, expected: int): (r: Outcome<Error>)
    ensures r.Pass? <==> actual == expected
    ensures r.Fail? ==> r.error == ChecksumMismatch(expected, actual) && IsInvalidArchive(r.error)
  {
    if actual == expected then Pass else Fail(ChecksumMismatch(expected, actual))
  }

  /** The value does not depend on what the checksum field holds. */
  lemma IgnoresStoredChecksum(a: seq<byte>, b: seq<byte>)
    requires |a| == |b|
    requires forall i :: 0 <= i < |a| && !(CHECKSUM_OFFSET <= i < CHECKSUM_OFFSET + CHECKSUM_SIZE) ==> a[i] == b[i]
    ensures Value(a) == Value(b)
  {
    if |a| >= CHECKSUM_OFFSET {
      assert a[..CHECKSUM_OFFSET] == b[..CHECKSUM_OFFSET];
      assert Drop(a, CHECKSUM_OFFSET + CHECKSUM_SIZE) == Drop(b, CHECKSUM_OFFSET + CHECKSUM_SIZE);
    }
  }

  /** Changing one byte outside the checksum field changes the value. */
  lemma SingleByteChangeDetected(record: seq<byte>, i: nat, b: byte)
    requires |record| >= CHECKSUM_OFFSET && i < |record| && record[i] != b
    requires !(CHECKSUM_OFFSET <= i < CHECKSUM_OFFSET + CHECKSUM_SIZE)
    ensures Value(record[i := b]).Ok? && Value(record).Ok?
    ensures Value(record[i := b]).value == Value(record).value - record[i] + b
    ensures Value(record[i := b]).value != Value(record).value
  {
    var changed := record[i := b];
    if i < CHECKSUM_OFFSET {
      assert changed[..CHECKSUM_OFFSET] == record[..CHECKSUM_OFFSET][i := b];
      SumUpdate(record[..CHECKSUM_OFFSET], i, b);
      assert Drop(changed, CHECKSUM_OFFSET + CHECKSUM_SIZE) == Drop(record, CHECKSUM_OFFSET + CHECKSUM_SIZE);
    } else {
      var k := CHECKSUM_OFFSET + CHECKSUM_SIZE;
      assert changed[..CHECKSUM_OFFSET] == record[..CHECKSUM_OFFSET];
      assert Drop(changed, k) == Drop(record, k)[i - k := b];
      SumUpdate(Drop(record, k), i - k, b);
    }
  }

  /** So a record whose check passed fails it once any byte outside the field changes. */
  lemma CorruptionFailsCheck(record: seq<byte>, i: nat, b: byte, expected: int)
    requires |record| >= CHECKSUM_OFFSET && i < |record| && record[i] != b
    requires !(CHECKSUM_OFFSET <= i < CHECKSUM_OFFSET + CHECKSUM_SIZE)
    requires Value(record) == Ok(expected)
    ensures Value(record[i := b]).Ok? && Check(Value(record[i := b]).value, expected).Fail?
  {
    SingleByteChangeDetected(record, i, b);
  }

  /** For a full record the value lies between 256 (all other bytes zero) and
      256 + 504 * 255 (all other bytes 0xFF). */
  lemma ValueBounds(record: seq<byte>)
    requires |record| == 512
    ensures Value(record).Ok?
    ensures 256 <= Value(record).value <= 256 + 504 * 255
  {
    SumBounds(record[..CHECKSUM_OFFSET]);
    SumBounds(Drop(record, CHECKSUM_OFFSET + CHECKSUM_SIZE));
  }
}
