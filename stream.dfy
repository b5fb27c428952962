/** The underlying byte stream the archive is read from or written to (an IO, a StringIO,
    a pipe). It holds the stream contents, a cursor, and whether it is closed and whether
    it can seek; `seekable` is a plain flag rather than a probe of the host object. */
module Stream {
  import opened Bytes
  import opened Wrappers
  import opened Errors

  /** The contents after writing `bytes` at offset `at`: a gap past the old end is
      zero-filled, the written range is overwritten, and the contents may grow; writing
      nothing changes nothing. */
  function Overwrite(data: seq<byte>, at: nat, bytes: seq<byte>): (r: seq<byte>)
    ensures |r| == if bytes != [] && at + |bytes| > |data| then at + |bytes| else |data|
    ensures forall i :: 0 <= i < |bytes| ==> r[at + i] == bytes[i]
    ensures forall i :: 0 <= i < |data| && !(at <= i < at + |bytes|) ==> r[i] == data[i]
    ensures bytes != [] ==> forall i :: |data| <= i < at ==> r[i] == NUL
  {
    if bytes == [] then data else
    var padded := if at > |data| then data + Zeros(at - |data|) else data;
    padded[..at] + bytes + (if at + |bytes| < |padded| then padded[at + |bytes|..] else [])
  }

  /** Writing at the end appends. */
  lemma OverwriteAtEnd(data: seq<byte>, bytes: seq<byte>)
    ensures Overwrite(data, |data|, bytes) == data + bytes
  {
    var r := Overwrite(data, |data|, bytes);
    forall i | 0 <= i < |r| ensures r[i] == (data + bytes)[i] {
      if i >= |data| {
        assert r[|data| + (i - |data|)] == bytes[i - |data|];
      }
    }
  }

  /** Writing past the end zero-fills the gap. */
  lemma OverwritePastEnd(data: seq<byte>, gap: nat, bytes: seq<byte>)
    requires bytes != []
    ensures Overwrite(data, |data| + gap, bytes) == data + Zeros(gap) + bytes
  {
    if gap == 0 {
      assert data + Zeros(0) == data;
      OverwriteAtEnd(data, bytes);
    } else {
      var padded := data + Zeros(gap);
      assert padded[..|data| + gap] == padded;
    }
  }

  /** Two writes where the second starts where the first ended are one write. */
  lemma OverwriteJoin(data: seq<byte>, at: nat, x: seq<byte>, y: seq<byte>)
    ensures Overwrite(Overwrite(data, at, x), at + |x|, y) == Overwrite(data, at, x + y)
  {
    var m := Overwrite(data, at, x);
    var l := Overwrite(m, at + |x|, y);
    var r := Overwrite(data, at, x + y);
    forall i | 0 <= i < |l| ensures l[i] == r[i] {
      if at <= i < at + |x| {
        assert m[at + (i - at)] == x[i - at];
        assert r[at + (i - at)] == (x + y)[i - at];
      } else if at + |x| <= i < at + |x| + |y| {
        assert l[at + |x| + (i - at - |x|)] == y[i - at - |x|];
        assert r[at + (i - at)] == (x + y)[i - at];
      }
    }
  }

  /** Writing `z` over the first `|z|` bytes of an earlier write `x + y` leaves `z + y`. */
  lemma OverwriteRewrite(data: seq<byte>, at: nat, x: seq<byte>, y: seq<byte>, z: seq<byte>)
    requires |z| == |x|
    ensures Overwrite(Overwrite(data, at, x + y), at, z) == Overwrite(data, at, z + y)
  {
    var m := Overwrite(data, at, x + y);
    var l := Overwrite(m, at, z);
    var r := Overwrite(data, at, z + y);
    forall i | 0 <= i < |l| ensures l[i] == r[i] {
      if at <= i < at + |z| {
        assert l[at + (i - at)] == z[i - at];
        assert r[at + (i - at)] == (z + y)[i - at];
      } else if at + |z| <= i < at + |z| + |y| {
        assert m[at + (i - at)] == (x + y)[i - at];
        assert r[at + (i - at)] == (z + y)[i - at];
      }
    }
  }

  /** What the next reads deliver from `cursor` on. */
  function Rest(data: seq<byte>, cursor: nat): seq<byte>
  {
    if cursor <= |data| then data[cursor..] else []
  }

  /** Pushing one byte back: before the cursor it overwrites the previous byte and steps
      back (StringIO); at offset 0 it is inserted in front. */
  function Unread(data: seq<byte>, cursor: nat, b: byte): (r: (seq<byte>, nat))
    ensures Rest(r.0, r.1) == [b] + Rest(data, cursor)
  {
    if cursor == 0 then ([b] + data, 0)
    else
      OverwriteBehind(data, cursor, b);
      (Overwrite(data, cursor - 1, [b]), cursor - 1)
  }

  lemma OverwriteBehind(data: seq<byte>, cursor: nat, b: byte)
    requires cursor > 0
    ensures Rest(Overwrite(data, cursor - 1, [b]), cursor - 1) == [b] + Rest(data, cursor)
  {
    var r := Overwrite(data, cursor - 1, [b]);
    assert r[cursor - 1 + 0] == b;
    var l := Rest(r, cursor - 1);
    var k := [b] + Rest(data, cursor);
    assert |l| == |k|;
    forall i | 0 <= i < |l| ensures l[i] == k[i] {
      if i > 0 {
        assert l[i] == r[cursor - 1 + i];
      }
    }
  }

  lemma UnreadRestores(data: seq<byte>, cursor: nat)
    requires 0 < cursor <= |data|
    ensures Unread(data, cursor, data[cursor - 1]) == (data, cursor - 1)
  {
    var r := Overwrite(data, cursor - 1, [data[cursor - 1]]);
    assert r == data;
  }

  class ByteStream {
    var data: seq<byte>
    var cursor: nat
    var closed: bool
    const seekable: bool

    constructor (contents: seq<byte>, canSeek: bool)
      ensures data == contents && cursor == 0 && !closed && seekable == canSeek
    {
      data := contents;
      cursor := 0;
      closed := false;
      seekable := canSeek;
    }

    function Remaining(): seq<byte>
      reads this
    {
      Rest(data, cursor)
    }

    method Close()
      modifies this
      ensures closed && data == old(data) && cursor == old(cursor)
    {
      closed := true;
    }

    /** `read(n)`: "" for 0, nil at the end, otherwise up to `n` bytes. */
    method Read(n: int) returns (r: Result<Option<seq<byte>>, Error>)
      modifies this
      ensures data == old(data) && closed == old(closed)
      ensures old(closed) ==> r == Err(IOError) && cursor == old(cursor)
      ensures !old(closed) && n < 0 ==> r == Err(ArgumentError) && cursor == old(cursor)
      ensures !old(closed) && n == 0 ==> r == Ok(Some([])) && cursor == old(cursor)
      ensures !old(closed) && n > 0 && old(Remaining()) == [] ==> r == Ok(None) && cursor == old(cursor)
      ensures !old(closed) && n > 0 && old(Remaining()) != [] ==>
                var k := if n < |old(Remaining())| then n else |old(Remaining())|;
                r == Ok(Some(old(Remaining())[..k])) && cursor == old(cursor) + k
    {
      if closed {
        return Err(IOError);
      }
      if n < 0 {
        return Err(ArgumentError);
      }
      if n == 0 {
        return Ok(Some([]));
      }
      var rest := Rest(data, cursor);
      if rest == [] {
        return Ok(None);
      }
      var k := if n < |rest| then n else |rest|;
      cursor := cursor + k;
      return Ok(Some(rest[..k]));
    }

    /** `readpartial(n)`: like `read` on an in-memory stream, but EOFError at the end. */
    method ReadPartial(n: int) returns (r: Result<seq<byte>, Error>)
      modifies this
      ensures data == old(data) && closed == old(closed)
      ensures old(closed) ==> r == Err(IOError) && cursor == old(cursor)
      ensures !old(closed) && n < 0 ==> r == Err(ArgumentError) && cursor == old(cursor)
      ensures !old(closed) && n == 0 ==> r == Ok([]) && cursor == old(cursor)
      ensures !old(closed) && n > 0 && old(Remaining()) == [] ==> r == Err(EOFError) && cursor == old(cursor)
      ensures !old(closed) && n > 0 && old(Remaining()) != [] ==>
                var k := if n < |old(Remaining())| then n else |old(Remaining())|;
                r == Ok(old(Remaining())[..k]) && cursor == old(cursor) + k
    {
      var got := Read(n);
      match got {
        case Err(e) => return Err(e);
        case Ok(None) => return Err(EOFError);
        case Ok(Some(s)) => return Ok(s);
      }
    }

    /** `getbyte`: the next byte, or nil at the end. */
    method GetByte() returns (r: Result<Option<byte>, Error>)
      modifies this
      ensures data == old(data) && closed == old(closed)
      ensures old(closed) ==> r == Err(IOError) && cursor == old(cursor)
      ensures !old(closed) && old(Remaining()) == [] ==> r == Ok(None) && cursor == old(cursor)
      ensures !old(closed) && old(Remaining()) != [] ==>
                r == Ok(Some(old(Remaining())[0])) && cursor == old(cursor) + 1
    {
      if closed {
        return Err(IOError);
      }
      var rest := Rest(data, cursor);
      if rest == [] {
        return Ok(None);
      }
      cursor := cursor + 1;
      return Ok(Some(rest[0]));
    }

    /** `ungetbyte(b)`: pushes `b` back so that it is read next; `ungetbyte(nil)` does nothing. */
    method UngetByte(b: Option<byte>) returns (r: Outcome<Error>)
      modifies this
      ensures closed == old(closed)
      ensures old(closed) ==> r == Fail(IOError) && data == old(data) && cursor == old(cursor)
      ensures !old(closed) && b.None? ==> r == Pass && data == old(data) && cursor == old(cursor)
      ensures !old(closed) && b.Some? ==> r == Pass && (data, cursor) == Unread(old(data), old(cursor), b.value)
    {
      if closed {
        return Fail(IOError);
      }
      if b.Some? {
        data, cursor := Unread(data, cursor, b.value).0, Unread(data, cursor, b.value).1;
      }
      return Pass;
    }

    /** `write(bytes)`: overwrites from the cursor on and answers the number of bytes written. */
    method Write(bytes: seq<byte>) returns (r: Result<nat, Error>)
      modifies this
      ensures closed == old(closed)
      ensures old(closed) ==> r == Err(IOError) && data == old(data) && cursor == old(cursor)
      ensures !old(closed) ==> r == Ok(|bytes|) && data == Overwrite(old(data), old(cursor), bytes)
                               && cursor == old(cursor) + |bytes|
    {
      if closed {
        return Err(IOError);
      }
      data := Overwrite(data, cursor, bytes);
      cursor := cursor + |bytes|;
      return Ok(|bytes|);
    }

    /** `seek(target)` to an absolute offset; `seek(offset, IO::SEEK_CUR)` is `SeekTo(cursor + offset)`. */
    method SeekTo(target: int) returns (r: Outcome<Error>)
      modifies this
      ensures data == old(data) && closed == old(closed)
      ensures old(closed) ==> r == Fail(IOError) && cursor == old(cursor)
      ensures !old(closed) && !seekable ==> r == Fail(IllegalSeek) && cursor == old(cursor)
      ensures !old(closed) && seekable && target < 0 ==> r == Fail(InvalidSeek) && cursor == old(cursor)
      ensures !old(closed) && seekable && target >= 0 ==> r == Pass && cursor == target
    {
      if closed {
        return Fail(IOError);
      }
      if !seekable {
        return Fail(IllegalSeek);
      }
      if target < 0 {
        return Fail(InvalidSeek);
      }
      cursor := target;
      return Pass;
    }
  }
}
