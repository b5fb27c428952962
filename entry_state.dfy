/** The read engine of an entry (`Tar::File::Reader` and the older `Tar::FileReader`) as
    functions on its state: the shared stream's contents and cursor, the entry position
    `pos` and the line counter `lineno`. Each reader method is proved to move its object
    exactly as the function of the same name moves this state. All of them describe an
    open reader; the closed checks are in the classes. */
module EntryState {
  import opened Bytes
  import opened Wrappers
  import opened Errors
  import opened Encoding
  import opened Stream
  import Ustar
  import FileBase

  datatype State = State(data: seq<byte>, at: nat, pos: int, lineno: int)

  /** What an operation returns (or raises) and the state it leaves behind. */
  datatype Out<T> = Out(result: Result<T, Error>, after: State)

  /** What an each-style operation yielded before it stopped, and what stopped it. */
  datatype Yield<T> = Yield(items: seq<T>, error: Option<Error>, after: State)

  /** The external and internal encodings and the transcoder options of a reader. */
  datatype Codec = Codec(ext: Encoding, internal: Option<Encoding>, opts: Options)

  function Min(a: int, b: int): int { if a < b then a else b }

  /** The bytes the stream delivers next. */
  function Left(s: State): seq<byte> { Rest(s.data, s.at) }

  /** The state after `k` bytes were read from the stream. */
  function Advance(s: State, k: nat): State { s.(at := s.at + k, pos := s.pos + k) }

  /** `eof?`: the position has reached the declared size. */
  predicate AtEof(size: int, s: State) { s.pos >= size }

  /** `pending`: `[0, size - pos].max`. */
  function Pending(size: int, s: State): (r: nat)
    ensures r >= size - s.pos && (r == 0 || r == size - s.pos)
  {
    if size - s.pos > 0 then size - s.pos else 0
  }

  lemma EofIffNothingPending(size: int, s: State)
    ensures AtEof(size, s) <==> Pending(size, s) == 0
  {
  }

  /** `truncate(length)`: `[pending, length].compact.min`. */
  function Truncate(pending: nat, length: Option<int>): (r: int)
    ensures r <= pending && (length.Some? ==> r <= length.value)
    ensures r == pending || (length.Some? && r == length.value)
  {
    if length.Some? && length.value < pending then length.value else pending
  }

  /** `data = @io.read(n); @pos += data.bytesize`: a negative count is an ArgumentError,
      `read(0)` gives "", and a read at the end of the stream gives nil, on which
      `bytesize` fails. */
  function RawRead(s: State, n: int): (r: Out<seq<byte>>)
    ensures r.after.data == s.data
    ensures n < 0 ==> r == Out(Err(ArgumentError), s)
    ensures n == 0 ==> r == Out(Ok([]), s)
    ensures n > 0 && Left(s) == [] ==> r == Out(Err(NoMethodError), s)
    ensures r.result.Ok? ==> |r.result.value| <= n && |r.result.value| <= |Left(s)|
                             && r.after == Advance(s, |r.result.value|)
                             && r.result.value == Left(s)[..|r.result.value|]
    ensures r.result.Ok? && n > 0 ==> |r.result.value| == Min(n, |Left(s)|) > 0
  {
    if n < 0 then Out(Err(ArgumentError), s)
    else if n == 0 then Out(Ok([]), s)
    else if Left(s) == [] then Out(Err(NoMethodError), s)
    else
      var k := Min(n, |Left(s)|);
      Out(Ok(Left(s)[..k]), Advance(s, k))
  }

  /** `read(length = nil)`: at most `pending` bytes, raw when a length is given and encoded
      when it is not. */
  function Read(env: Env, codec: Codec, size: int, s: State, length: Option<int>): (r: Out<seq<byte>>)
    ensures r.after.data == s.data
  {
    var raw := RawRead(s, Truncate(Pending(size, s), length));
    if raw.result.Ok? && length.None? then
      Out(Ok(Encode(env, raw.result.value, codec.ext, codec.internal, codec.opts)), raw.after)
    else raw
  }

  /** `read(n)` returns at most `min(n, pending)` bytes, the next ones of the stream, and
      moves `pos` by their count; exactly that many when the stream holds the rest of the
      entry, and "" at the end of the entry. A negative `n` is an ArgumentError. */
  lemma ReadBounded(env: Env, codec: Codec, size: int, s: State, n: int)
    ensures var r := Read(env, codec, size, s, Some(n));
      (n < 0 ==> r.result == Err(ArgumentError))
      && (n >= 0 && AtEof(size, s) ==> r == Out(Ok([]), s))
      && (r.result.Ok? ==> var got := r.result.value;
            |got| <= Min(n, Pending(size, s)) && got == Left(s)[..|got|] && r.after == Advance(s, |got|))
      && (n >= 0 && Pending(size, s) <= |Left(s)| ==>
            r.result.Ok? && |r.result.value| == Min(n, Pending(size, s)))
  {
  }

  /** `read()` returns the rest of the entry, encoded, and leaves the reader at its end. */
  lemma ReadAllReachesEof(env: Env, codec: Codec, size: int, s: State)
    requires Pending(size, s) <= |Left(s)|
    ensures var r := Read(env, codec, size, s, None);
      r.result == Ok(Encode(env, Left(s)[..Pending(size, s)], codec.ext, codec.internal, codec.opts))
      && r.after == Advance(s, Pending(size, s)) && AtEof(size, r.after)
  {
  }

  /** `readpartial(max)`: like `read(max)`, but at the end of the stream `@io.readpartial`
      raises EOFError. */
  function ReadPartial(size: int, s: State, maxLength: int): (r: Out<seq<byte>>)
    ensures var n := Truncate(Pending(size, s), Some(maxLength));
      (n < 0 ==> r.result == Err(ArgumentError))
      && (n > 0 && Left(s) == [] ==> r.result == Err(EOFError))
      && (r.result.Err? ==> r.after == s)
      && (r.result.Ok? ==> |r.result.value| <= n && |r.result.value| <= |Left(s)|
                           && r.result.value == Left(s)[..|r.result.value|]
                           && r.after == Advance(s, |r.result.value|))
  {
    var n := Truncate(Pending(size, s), Some(maxLength));
    if n > 0 && Left(s) == [] then Out(Err(EOFError), s) else RawRead(s, n)
  }

  /** `getbyte`: nil at the end of the entry without moving; otherwise `pos` moves on by
      one, even when the stream itself has nothing left. */
  function GetByte(size: int, s: State): (r: (Option<byte>, State))
    ensures AtEof(size, s) ==> r == (None, s)
    ensures !AtEof(size, s) ==> r.1.pos == s.pos + 1 && r.1.data == s.data && r.1.lineno == s.lineno
    ensures !AtEof(size, s) && Left(s) != [] ==> r.0 == Some(Left(s)[0]) && r.1 == Advance(s, 1)
    ensures !AtEof(size, s) && Left(s) == [] ==> r.0 == None && r.1.at == s.at
  {
    if AtEof(size, s) then (None, s)
    else if Left(s) == [] then (None, s.(pos := s.pos + 1))
    else (Some(Left(s)[0]), Advance(s, 1))
  }

  /** `ungetbyte(b)`: `pos` moves back by one; a byte is pushed back onto the stream, nil
      leaves the stream as it is. */
  function UngetByte(s: State, b: Option<byte>): (r: State)
    ensures r.pos == s.pos - 1 && r.lineno == s.lineno
    ensures b.None? ==> r.data == s.data && r.at == s.at
    ensures b.Some? ==> Left(r) == [b.value] + Left(s)
  {
    if b.None? then s.(pos := s.pos - 1)
    else
      var u := Unread(s.data, s.at, b.value);
      State(u.0, u.1, s.pos - 1, s.lineno)
  }

  /** `bytes.reverse_each { |b| ungetbyte b }`: the bytes come back in their own order. */
  function UngetBytes(s: State, bs: seq<byte>): (r: State)
    ensures Left(r) == bs + Left(s) && r.pos == s.pos - |bs| && r.lineno == s.lineno
    decreases |bs|
  {
    if bs == [] then s
    else
      var s1 := UngetByte(s, Some(bs[|bs| - 1]));
      var r := UngetBytes(s1, bs[..|bs| - 1]);
      PushBackLast(bs, Left(s));
      r
  }

  /** Pushing back the last byte, then the ones before it, puts all of them in front. */
  lemma PushBackLast(bs: seq<byte>, rest: seq<byte>)
    requires bs != []
    ensures bs + rest == bs[..|bs| - 1] + ([bs[|bs| - 1]] + rest)
  {
    assert bs == bs[..|bs| - 1] + [bs[|bs| - 1]];
  }

  /** Pushing back the bytes just read restores the earlier state, contents included. */
  lemma UngetBytesRestores(s: State, bs: seq<byte>)
    requires |bs| <= s.at <= |s.data| && bs == s.data[s.at - |bs|..s.at]
    ensures UngetBytes(s, bs) == State(s.data, s.at - |bs|, s.pos - |bs|, s.lineno)
  {
    UngetBytesStepsBack(s, bs);
  }

  /** Field by field: the contents are unchanged and the stream steps back over `bs`. */
  lemma {:induction false} UngetBytesStepsBack(s: State, bs: seq<byte>)
    requires |bs| <= s.at <= |s.data| && bs == s.data[s.at - |bs|..s.at]
    ensures UngetBytes(s, bs).data == s.data && UngetBytes(s, bs).at == s.at - |bs|
    decreases |bs|
  {
    if bs != [] {
      var s1 := UngetByte(s, Some(bs[|bs| - 1]));
      var front := bs[..|bs| - 1];
      assert bs[|bs| - 1] == s.data[s.at - 1];
      UngetByteRestores(s);
      assert s1.data == s.data && s1.at == s.at - 1;
      assert front == s1.data[s1.at - |front|..s1.at];
      UngetBytesStepsBack(s1, front);
    }
  }

  /** Pushing back the byte just read steps back over it, contents unchanged. */
  lemma UngetByteRestores(s: State)
    requires 0 < s.at <= |s.data|
    ensures UngetByte(s, Some(s.data[s.at - 1])) == State(s.data, s.at - 1, s.pos - 1, s.lineno)
  {
    UnreadRestores(s.data, s.at);
  }

  /** The `until char.size == max_char_size || eof?` loop of `getc`: read `min_char_size`
      bytes at a time and stop at the first valid character. The flag says whether the
      loop returned a valid character. */
  function GetcLoop(size: int, ext: Encoding, s: State, buf: seq<byte>): (r: Out<(seq<byte>, bool)>)
    ensures r.result.Ok? ==>
      var k := |r.result.value.0| - |buf|;
      0 <= k <= |Left(s)| && r.result.value.0 == buf + Left(s)[..k] && r.after == Advance(s, k)
    ensures r.result.Ok? && r.result.value.1 ==> |r.result.value.0| > |buf|
    decreases size - s.pos
  {
    var mm := MinMax(ext);
    if |buf| == mm.1 || AtEof(size, s) then Out(Ok((buf, false)), s)
    else
      var piece := RawRead(s, Truncate(Pending(size, s), Some(mm.0)));
      if piece.result.Err? then Out(Err(piece.result.error), piece.after)
      else
        var p := piece.result.value;
        var got := buf + p;
        if Valid(ext, got) then Out(Ok((got, true)), piece.after)
        else
          var r := GetcLoop(size, ext, piece.after, got);
          ReadOn(s, p, r.after, r.result, buf);
          r
  }

  /** Reading `p` and then the rest of a loop reads the concatenation. */
  lemma ReadOn(s: State, p: seq<byte>, after: State, result: Result<(seq<byte>, bool), Error>, buf: seq<byte>)
    requires |p| <= |Left(s)| && p == Left(s)[..|p|]
    requires result.Ok? ==>
      var k := |result.value.0| - |buf + p|;
      0 <= k <= |Left(Advance(s, |p|))| && result.value.0 == buf + p + Left(Advance(s, |p|))[..k]
      && after == Advance(Advance(s, |p|), k)
    ensures result.Ok? ==>
      var k := |result.value.0| - |buf|;
      0 <= k <= |Left(s)| && result.value.0 == buf + Left(s)[..k] && after == Advance(s, k)
  {
    if result.Ok? {
      var k := |result.value.0| - |buf + p|;
      var l := Left(s);
      assert Left(Advance(s, |p|)) == l[|p|..];
      assert l[..|p|] + l[|p|..][..k] == l[..|p| + k];
    }
  }

  /** `getc`: nil at the end of the entry; the shortest valid character of at most the
      maximum width; failing that, the first `min_char_size` bytes, with the rest pushed
      back (`undo_getc_attempt`), and NoMethodError when fewer than that were read. */
  function Getc(env: Env, codec: Codec, size: int, s: State): (r: Out<Option<seq<byte>>>)
    ensures AtEof(size, s) <==> r.result == Ok(None)
    ensures AtEof(size, s) ==> r.after == s
    ensures r.result.Ok? && r.result.value.Some? ==> Delivered(env, codec, s, r.result.value.value, r.after)
  {
    if AtEof(size, s) then Out(Ok(None), s)
    else
      var lp := GetcLoop(size, codec.ext, s, []);
      if lp.result.Err? then Out(Err(lp.result.error), lp.after)
      else
        var got := lp.result.value.0;
        assert got == Left(s)[..|got|] by { assert [] + Left(s)[..|got|] == Left(s)[..|got|]; }
        FinishGetc(env, codec, s, got, lp.result.value.1)
  }

  /** One turn of `getc`'s loop: a read of `min_char_size` bytes ends the loop on an
      error or a valid character, and otherwise the loop goes on from after the read. */
  lemma GetcLoopTurn(env: Env, codec: Codec, size: int, s: State, buf: seq<byte>)
    requires !(|buf| == MinMax(codec.ext).1 || AtEof(size, s))
    ensures var piece := Read(env, codec, size, s, Some(MinMax(codec.ext).0));
      var r := GetcLoop(size, codec.ext, s, buf);
      (piece.result.Err? ==> r == Out(Err(piece.result.error), piece.after))
      && (piece.result.Ok? && Valid(codec.ext, buf + piece.result.value) ==>
            r == Out(Ok((buf + piece.result.value, true)), piece.after))
      && (piece.result.Ok? && !Valid(codec.ext, buf + piece.result.value) ==>
            r == GetcLoop(size, codec.ext, piece.after, buf + piece.result.value))
  {
  }

  /** `getc` once its loop has read `got` and left the stream at `after`. */
  lemma GetcEnds(env: Env, codec: Codec, size: int, s: State, got: seq<byte>, valid: bool, after: State)
    requires !AtEof(size, s) && GetcLoop(size, codec.ext, s, []) == Out(Ok((got, valid)), after)
    ensures |got| <= |Left(s)| && got == Left(s)[..|got|] && after == Advance(s, |got|)
    ensures Getc(env, codec, size, s) == FinishGetc(env, codec, s, got, valid)
  {
    assert [] + Left(s)[..|got|] == Left(s)[..|got|];
  }

  /** `getc` once its loop has failed with `e`. */
  lemma GetcFails(env: Env, codec: Codec, size: int, s: State, e: Error, after: State)
    requires !AtEof(size, s) && GetcLoop(size, codec.ext, s, []) == Out(Err(e), after)
    ensures Getc(env, codec, size, s) == Out(Err(e), after)
  {
  }

  /** `got`, returned from `s` leaving `after`, is the encoding of the bytes between. */
  predicate Delivered(env: Env, codec: Codec, s: State, got: seq<byte>, after: State)
  {
    var k := after.pos - s.pos;
    0 < k <= |Left(s)| && after == Advance(s, k)
    && got == Encode(env, Left(s)[..k], codec.ext, codec.internal, codec.opts)
  }

  /** What `getc` makes of the bytes `got` its loop read: the valid character it found,
      or the first `min_char_size` bytes after `undo_getc_attempt`. */
  function FinishGetc(env: Env, codec: Codec, s: State, got: seq<byte>, valid: bool): (r: Out<Option<seq<byte>>>)
    requires |got| <= |Left(s)| && got == Left(s)[..|got|]
    requires valid ==> |got| > 0
    ensures r.result != Ok(None)
    ensures r.result.Ok? ==> r.result.value.Some? && Delivered(env, codec, s, r.result.value.value, r.after)
  {
    var mn := MinMax(codec.ext).0;
    if valid then
      Out(Ok(Some(Encode(env, got, codec.ext, codec.internal, codec.opts))), Advance(s, |got|))
    else if mn > |got| then Out(Err(NoMethodError), Advance(s, |got|))
    else UndoGetc(env, codec, s, got, mn)
  }

  /** `undo_getc_attempt`: the first `mn` bytes the loop read are the character, the rest
      go back to the stream. */
  function UndoGetc(env: Env, codec: Codec, s: State, got: seq<byte>, mn: nat): (r: Out<Option<seq<byte>>>)
    requires 0 < mn <= |got| <= |Left(s)| && got == Left(s)[..|got|]
    ensures r.result.Ok? && r.result.value.Some? && Delivered(env, codec, s, r.result.value.value, r.after)
  {
    UndoRestores(s, got, mn);
    assert got[..mn] == Left(s)[..mn];
    Out(Ok(Some(Encode(env, got[..mn], codec.ext, codec.internal, codec.opts))),
        UngetBytes(Advance(s, |got|), got[mn..]))
  }

  /** `undo_getc_attempt` after `getc` read `got`: pushing back all but the first `mn`
      bytes returns the state to just after those `mn` bytes. */
  lemma UndoRestores(s: State, got: seq<byte>, mn: nat)
    requires 0 < mn <= |got| <= |Left(s)| && got == Left(s)[..|got|]
    ensures UngetBytes(Advance(s, |got|), got[mn..]) == Advance(s, mn)
  {
    var after, back := Advance(s, |got|), got[mn..];
    assert s.at + |got| <= |s.data|;
    TailOfPrefix(s.data, s.at, |got|, mn);
    assert back == after.data[after.at - |back|..after.at];
    UngetBytesStepsBack(after, back);
  }

  /** The tail, from `m` on, of the `n` bytes at `at` is the stretch between. */
  lemma TailOfPrefix(d: seq<byte>, at: nat, n: nat, m: nat)
    requires m <= n && at + n <= |d|
    ensures d[at..][..n][m..] == d[at + m..at + n]
  {
    assert d[at..][..n] == d[at..at + n];
  }

  /** `ungetc(char)`: the character, converted from its encoding to the external one, is
      pushed back byte by byte. */
  function Ungetc(env: Env, codec: Codec, s: State, buf: seq<byte>, from: Encoding): (r: State)
    ensures var bytes := Convert(env, buf, from, codec.ext);
      Left(r) == bytes + Left(s) && r.pos == s.pos - |bytes| && r.lineno == s.lineno
  {
    UngetBytes(s, Convert(env, buf, from, codec.ext))
  }

  /** Without an internal encoding, `ungetc` of what `getc` returned restores the state. */
  lemma GetcUngetcRestores(env: Env, codec: Codec, size: int, s: State)
    requires codec.internal.None?
    requires s.at <= |s.data|
    ensures var g := Getc(env, codec, size, s);
      g.result.Ok? && g.result.value.Some? ==> Ungetc(env, codec, g.after, g.result.value.value, codec.ext) == s
  {
    var g := Getc(env, codec, size, s);
    if g.result.Ok? && g.result.value.Some? {
      UngetDelivered(env, codec, s, g.result.value.value, g.after);
    }
  }

  /** Without an internal encoding, pushing back what was delivered restores the state. */
  lemma UngetDelivered(env: Env, codec: Codec, s: State, got: seq<byte>, after: State)
    requires codec.internal.None? && s.at <= |s.data|
    requires Delivered(env, codec, s, got, after)
    ensures Ungetc(env, codec, after, got, codec.ext) == s
  {
    var k := after.pos - s.pos;
    assert got == after.data[after.at - k..after.at];
    UngetBytesRestores(after, got);
  }

  /** Where `getc` looks, when the stream holds the rest of the entry: the next
      `min(max_char_size, pending)` bytes. */
  function Window(size: int, ext: Encoding, s: State): seq<byte>
    requires Pending(size, s) <= |Left(s)|
  {
    Left(s)[..Min(MinMax(ext).1, Pending(size, s))]
  }

  /** The character lengths `getc` tries: multiples of `min_char_size`, and the whole
      window when it ends in between. */
  predicate Tried(w: seq<byte>, mn: nat, t: int)
  {
    0 < t <= |w| && ((mn > 0 && t % mn == 0) || t == |w|)
  }

  ghost predicate Ready(size: int, s: State)
  {
    !AtEof(size, s) && Pending(size, s) <= |Left(s)|
  }

  /** Reading one more chunk never overshoots the maximum width. */
  lemma ChunkFits(t: int, mn: nat, mx: nat)
    requires 1 <= mn <= mx <= 4 && mx % mn == 0 && 0 <= t < mx && t % mn == 0
    ensures t + mn <= mx && (t + mn) % mn == 0
  {
  }

  lemma NextTried(t: int, u: int, mn: nat)
    requires 1 <= mn <= 4 && 0 <= t < u && t % mn == 0 && u % mn == 0
    ensures t + mn <= u
  {
  }

  /** One more chunk after a multiple of the chunk size is a multiple too. */
  lemma NextMultiple(t: int, mn: nat)
    requires 1 <= mn <= 4 && t % mn == 0
    ensures (t + mn) % mn == 0
  {
    if mn == 1 {
    } else if mn == 2 {
    } else if mn == 3 {
    } else {
    }
  }

  /** A stretch of what follows the first `t` bytes is a stretch of a prefix. */
  lemma SliceShift(a: seq<byte>, x: nat, t: nat, u: nat)
    requires t <= u <= x <= |a|
    ensures a[t..][..u - t] == a[..x][t..u]
  {
    assert a[t..][..u - t] == a[t..u];
    assert a[..x][t..u] == a[t..u];
  }

  /** The chunk the loop reads once `t` bytes of the window are in. */
  lemma ChunkRead(size: int, ext: Encoding, s: State, t: nat)
    requires Ready(size, s)
    requires t % MinMax(ext).0 == 0 && t < |Window(size, ext, s)|
    ensures var w := Window(size, ext, s);
      var t' := Min(t + MinMax(ext).0, |w|);
      var st := Advance(s, t);
      t < t' && Tried(w, MinMax(ext).0, t') && !AtEof(size, st) && t < MinMax(ext).1
      && RawRead(st, Truncate(Pending(size, st), Some(MinMax(ext).0))) == Out(Ok(w[t..t']), Advance(s, t'))
  {
    var w := Window(size, ext, s);
    var mm := MinMax(ext);
    var t' := Min(t + mm.0, |w|);
    ChunkFits(t, mm.0, mm.1);
    var st := Advance(s, t);
    assert Pending(size, st) == Pending(size, s) - t;
    assert Left(st) == Left(s)[t..];
    assert |w| == Min(mm.1, Pending(size, s)) && |Left(st)| == |Left(s)| - t;
    assert Truncate(Pending(size, st), Some(mm.0)) == Min(mm.0, Pending(size, s) - t);
    assert Min(Truncate(Pending(size, st), Some(mm.0)), |Left(st)|) == t' - t;
    SliceShift(Left(s), |w|, t, t');
  }

  /** One turn of the `getc` loop once `t` bytes of the window are in. */
  lemma LoopStep(size: int, ext: Encoding, s: State, t: nat)
    requires Ready(size, s)
    requires t % MinMax(ext).0 == 0 && t < |Window(size, ext, s)|
    ensures var w := Window(size, ext, s);
      var t' := Min(t + MinMax(ext).0, |w|);
      t < t' && Tried(w, MinMax(ext).0, t')
      && GetcLoop(size, ext, Advance(s, t), w[..t])
         == if Valid(ext, w[..t']) then Out(Ok((w[..t'], true)), Advance(s, t'))
            else GetcLoop(size, ext, Advance(s, t'), w[..t'])
  {
    var w := Window(size, ext, s);
    var t' := Min(t + MinMax(ext).0, |w|);
    ChunkRead(size, ext, s, t);
    assert w[..t] + w[t..t'] == w[..t'];
  }

  /** When no tried length after `t` is valid, the loop reads the whole window. */
  lemma {:induction false} LoopExhausts(size: int, ext: Encoding, s: State, t: nat)
    requires Ready(size, s)
    requires t <= |Window(size, ext, s)| && (t % MinMax(ext).0 == 0 || t == |Window(size, ext, s)|)
    requires forall u :: Tried(Window(size, ext, s), MinMax(ext).0, u) && u > t ==> !Valid(ext, Window(size, ext, s)[..u])
    ensures var w := Window(size, ext, s);
      GetcLoop(size, ext, Advance(s, t), w[..t]) == Out(Ok((w, false)), Advance(s, |w|))
    decreases |Window(size, ext, s)| - t
  {
    var w := Window(size, ext, s);
    if t == |w| {
      assert w[..t] == w;
    } else {
      LoopStep(size, ext, s, t);
      var t' := Min(t + MinMax(ext).0, |w|);
      LoopExhausts(size, ext, s, t');
    }
  }

  /** The loop stops at the first tried length whose bytes are a valid character. */
  lemma {:induction false} LoopFinds(size: int, ext: Encoding, s: State, t: nat, v: nat)
    requires Ready(size, s)
    requires t % MinMax(ext).0 == 0 && t < v && Tried(Window(size, ext, s), MinMax(ext).0, v)
    requires Valid(ext, Window(size, ext, s)[..v])
    requires forall u :: Tried(Window(size, ext, s), MinMax(ext).0, u) && t < u < v ==> !Valid(ext, Window(size, ext, s)[..u])
    ensures var w := Window(size, ext, s);
      GetcLoop(size, ext, Advance(s, t), w[..t]) == Out(Ok((w[..v], true)), Advance(s, v))
    decreases v - t
  {
    var w := Window(size, ext, s);
    var mn := MinMax(ext).0;
    LoopStep(size, ext, s, t);
    var t' := Min(t + mn, |w|);
    if v % mn == 0 { NextTried(t, v, mn); }
    assert t' <= v;
    if t' < v {
      NextMultiple(t, mn);
      assert Tried(w, mn, t') && t < t' < v;
      assert !Valid(ext, w[..t']);
      LoopFinds(size, ext, s, t', v);
    }
  }

  /** `getc` returns the shortest tried prefix that is a valid character. */
  lemma GetcShortestValid(env: Env, codec: Codec, size: int, s: State, v: nat)
    requires Ready(size, s)
    requires Tried(Window(size, codec.ext, s), MinMax(codec.ext).0, v)
    requires Valid(codec.ext, Window(size, codec.ext, s)[..v])
    requires forall u :: Tried(Window(size, codec.ext, s), MinMax(codec.ext).0, u) && u < v ==> !Valid(codec.ext, Window(size, codec.ext, s)[..u])
    ensures var w := Window(size, codec.ext, s);
      Getc(env, codec, size, s) == Out(Ok(Some(Encode(env, w[..v], codec.ext, codec.internal, codec.opts))), Advance(s, v))
  {
    var w := Window(size, codec.ext, s);
    LoopFinds(size, codec.ext, s, 0, v);
    assert w[..0] == [] && Advance(s, 0) == s;
    assert w[..v] == Left(s)[..v];
    assert Getc(env, codec, size, s) == FinishGetc(env, codec, s, w[..v], true);
  }

  /** With no valid tried prefix, `getc` keeps the first `min_char_size` bytes and pushes
      the rest back; with fewer bytes than that it fails. */
  lemma GetcNoValid(env: Env, codec: Codec, size: int, s: State)
    requires Ready(size, s)
    requires forall u :: Tried(Window(size, codec.ext, s), MinMax(codec.ext).0, u) ==> !Valid(codec.ext, Window(size, codec.ext, s)[..u])
    ensures var w := Window(size, codec.ext, s); var mn := MinMax(codec.ext).0;
      (|w| >= mn ==> Getc(env, codec, size, s) == Out(Ok(Some(Encode(env, w[..mn], codec.ext, codec.internal, codec.opts))), Advance(s, mn)))
      && (|w| < mn ==> Getc(env, codec, size, s).result == Err(NoMethodError))
  {
    var w := Window(size, codec.ext, s);
    var mn := MinMax(codec.ext).0;
    LoopExhausts(size, codec.ext, s, 0);
    assert w[..0] == [] && Advance(s, 0) == s;
    assert w == Left(s)[..|w|];
    assert Getc(env, codec, size, s) == FinishGetc(env, codec, s, w, false);
    if |w| >= mn {
      UndoRestores(s, w, mn);
    }
  }

  /** `yield getbyte until eof?`: one item per position up to the declared size. */
  function EachByte(size: int, s: State): (r: (seq<Option<byte>>, State))
    ensures AtEof(size, r.1) && |r.0| == Pending(size, s)
    decreases size - s.pos
  {
    if AtEof(size, s) then ([], s)
    else
      var g := GetByte(size, s);
      var rest := EachByte(size, g.1);
      ([g.0] + rest.0, rest.1)
  }

  function Somes(bs: seq<byte>): (r: seq<Option<byte>>)
    ensures |r| == |bs| && forall i :: 0 <= i < |bs| ==> r[i] == Some(bs[i])
  {
    if bs == [] then [] else [Some(bs[0])] + Somes(bs[1..])
  }

  /** When the stream holds the rest of the entry, `each_byte` yields exactly those bytes. */
  lemma {:induction false} EachByteYieldsRest(size: int, s: State)
    requires Pending(size, s) <= |Left(s)|
    ensures EachByte(size, s) == (Somes(Left(s)[..Pending(size, s)]), Advance(s, Pending(size, s)))
    decreases size - s.pos
  {
    if !AtEof(size, s) {
      var g := GetByte(size, s);
      assert g.1 == Advance(s, 1) && Left(g.1) == Left(s)[1..];
      EachByteYieldsRest(size, g.1);
      assert Advance(g.1, Pending(size, g.1)) == Advance(s, Pending(size, s));
      assert Left(s)[..Pending(size, s)][1..] == Left(g.1)[..Pending(size, g.1)];
    } else {
      assert Left(s)[..0] == [];
    }
  }

  /** `yield getc until eof?`: the characters up to the end of the entry, or up to the
      first error. */
  function EachChar(env: Env, codec: Codec, size: int, s: State): (r: Yield<seq<byte>>)
    ensures r.error.None? ==> AtEof(size, r.after) && r.after.pos >= s.pos
                              && r.after == Advance(s, r.after.pos - s.pos)
    decreases size - s.pos
  {
    if AtEof(size, s) then Yield([], None, s)
    else
      var g := Getc(env, codec, size, s);
      if g.result.Err? then Yield([], Some(g.result.error), g.after)
      else
        var rest := EachChar(env, codec, size, g.after);
        Yield([g.result.value.value] + rest.items, rest.error, rest.after)
  }

  /** `y`, from `s` on, ended without error having yielded, end to end, exactly the bytes
      it moved over. */
  predicate Covers(s: State, y: Yield<seq<byte>>)
  {
    y.error.None? ==> y.after.pos >= s.pos && y.after.pos - s.pos <= |Left(s)|
                      && Concat(y.items) == Left(s)[..y.after.pos - s.pos]
  }

  /** Without an internal encoding, the characters `each_char` yields are, end to end,
      the bytes it moved over. */
  lemma {:induction false} EachCharCoversBytes(env: Env, codec: Codec, size: int, s: State)
    requires codec.internal.None?
    ensures Covers(s, EachChar(env, codec, size, s))
    decreases size - s.pos
  {
    if !AtEof(size, s) {
      var g := Getc(env, codec, size, s);
      if g.result.Ok? {
        EachCharCoversBytes(env, codec, size, g.after);
        CoverTurn(env, codec, size, s);
      }
    } else {
      assert Left(s)[..0] == [];
    }
  }

  /** One turn of `each_char`: what the rest of the loop covers, with the character in
      front, covers the bytes from `s` on. */
  lemma CoverTurn(env: Env, codec: Codec, size: int, s: State)
    requires codec.internal.None? && !AtEof(size, s) && Getc(env, codec, size, s).result.Ok?
    requires Covers(Getc(env, codec, size, s).after, EachChar(env, codec, size, Getc(env, codec, size, s).after))
    ensures Covers(s, EachChar(env, codec, size, s))
  {
    var g := Getc(env, codec, size, s);
    var rest := EachChar(env, codec, size, g.after);
    CoverStep(env, codec, s, g.result.value.value, g.after, rest);
    EachCharUnfold(env, codec, size, s);
  }

  lemma EachCharUnfold(env: Env, codec: Codec, size: int, s: State)
    requires !AtEof(size, s) && Getc(env, codec, size, s).result.Ok?
    ensures var g := Getc(env, codec, size, s); var rest := EachChar(env, codec, size, g.after);
      EachChar(env, codec, size, s) == Yield([g.result.value.value] + rest.items, rest.error, rest.after)
  {
  }

  lemma EachCharFails(env: Env, codec: Codec, size: int, s: State)
    requires !AtEof(size, s) && Getc(env, codec, size, s).result.Err?
    ensures var g := Getc(env, codec, size, s);
      EachChar(env, codec, size, s) == Yield([], Some(g.result.error), g.after)
  {
  }

  /** `items` were yielded on the way from where `e0` started to `s`, and `e0` is what
      the rest of the loop yields after them. */
  ghost predicate EachCharResumes(env: Env, codec: Codec, size: int, items: seq<seq<byte>>, s: State, e0: Yield<seq<byte>>)
  {
    var e := EachChar(env, codec, size, s);
    items + e.items == e0.items && e.error == e0.error && e.after == e0.after
  }

  lemma EachCharOn(env: Env, codec: Codec, size: int, items: seq<seq<byte>>, s: State, e0: Yield<seq<byte>>)
    requires !AtEof(size, s) && Getc(env, codec, size, s).result.Ok?
    requires EachCharResumes(env, codec, size, items, s, e0)
    ensures var g := Getc(env, codec, size, s);
      EachCharResumes(env, codec, size, items + [g.result.value.value], g.after, e0)
  {
    EachCharUnfold(env, codec, size, s);
    var g := Getc(env, codec, size, s);
    assert items + [g.result.value.value] + EachChar(env, codec, size, g.after).items
        == items + EachChar(env, codec, size, s).items;
  }

  lemma CoverStep(env: Env, codec: Codec, s: State, c: seq<byte>, mid: State, rest: Yield<seq<byte>>)
    requires codec.internal.None? && Delivered(env, codec, s, c, mid) && Covers(mid, rest)
    ensures Covers(s, Yield([c] + rest.items, rest.error, rest.after))
  {
    if rest.error.None? {
      var k := mid.pos - s.pos;
      var m := rest.after.pos - mid.pos;
      assert Left(mid) == Left(s)[k..];
      JoinSlices(Left(s), k, m);
      assert ([c] + rest.items)[1..] == rest.items;
      assert Concat([c] + rest.items) == c + Concat(rest.items);
    }
  }

  lemma JoinSlices(l: seq<byte>, k: nat, m: nat)
    requires k + m <= |l|
    ensures l[..k] + l[k..][..m] == l[..k + m]
  {
  }

  /** `@io.seek offset, IO::SEEK_CUR; @pos += offset`: the stream refuses a target before
      its start (EINVAL). */
  function SeekBy(s: State, offset: int): (r: Result<State, Error>)
    ensures s.at + offset < 0 <==> r == Err(InvalidSeek)
    ensures r.Ok? ==> r.value.data == s.data && r.value.lineno == s.lineno
                      && r.value.pos == s.pos + offset && r.value.at == s.at + offset
  {
    if s.at + offset < 0 then Err(InvalidSeek)
    else Ok(s.(at := s.at + offset, pos := s.pos + offset))
  }

  /** `seek(amount, mode)` once the seekable and closed checks have passed. */
  function Seek(size: int, s: State, amount: int, mode: FileBase.SeekMode): (r: Result<State, Error>)
  {
    var offset := FileBase.Relativize(amount, mode, s.pos, Some(size));
    if offset.Err? then Err(offset.error) else SeekBy(s, offset.value)
  }

  /** SET, CUR and END seeks land on `amount`, `pos + amount` and `size + amount`, and move
      the stream by the same offset; an unknown mode is an ArgumentError. */
  lemma SeekLands(size: int, s: State, amount: int, mode: FileBase.SeekMode)
    ensures var r := Seek(size, s, amount, mode);
      (mode == FileBase.OtherMode ==> r == Err(ArgumentError))
      && (mode != FileBase.OtherMode ==>
            var target := match mode
              case SeekSet => amount
              case SeekCur => s.pos + amount
              case _ => size + amount;
            (s.at + (target - s.pos) < 0 <==> r == Err(InvalidSeek))
            && (r.Ok? ==> r.value == s.(at := s.at + (target - s.pos), pos := target)))
  {
  }

  /** `seek` of the older reader, which asks the stream without checking first: the
      mode is looked at first, then a stream that cannot seek refuses (ESPIPE). */
  function StreamSeek(size: int, seekable: bool, s: State, amount: int, mode: FileBase.SeekMode): (r: Result<State, Error>)
    ensures mode == FileBase.OtherMode ==> r == Err(ArgumentError)
    ensures mode != FileBase.OtherMode && !seekable ==> r == Err(IllegalSeek)
    ensures seekable ==> r == Seek(size, s, amount, mode)
  {
    var offset := FileBase.Relativize(amount, mode, s.pos, Some(size));
    if offset.Err? then Err(offset.error)
    else if !seekable then Err(IllegalSeek)
    else SeekBy(s, offset.value)
  }

  /** Where `skip_to_next_record` moves to: the end of the padded body. A size of -512 or
      less gives a target before the entry. */
  function SkipTargetAsWritten(size: int): (r: int)
    ensures r == Ustar.RecordsSize(size)
  {
    Ustar.RecordsSize(size)
  }

  /** A declared size of -512 sends the skip as written 512 bytes back, into the header
      before the entry; the corrected target stays at the entry's start. */
  lemma SkipAsWrittenGoesBack()
    ensures SkipTargetAsWritten(-512) == -512 && SkipTarget(-512) == 0
  {
  }

  /** The skip target, never before the entry's start. */
  function SkipTarget(size: int): (r: nat)
    ensures size >= 0 ==> r == Ustar.RecordsSize(size)
    ensures r >= size && r % Ustar.RECORD_SIZE == 0 && r < (if size > 0 then size else 0) + Ustar.RECORD_SIZE
  {
    if Ustar.RecordsSize(size) < 0 then 0 else Ustar.RecordsSize(size)
  }

  /** `@io.read(n)` with the result dropped, on a stream that cannot seek: nothing is read
      back, and a short stream is no error. */
  function Discard(s: State, n: int): (r: Result<State, Error>)
    ensures n < 0 <==> r == Err(ArgumentError)
    ensures r.Ok? ==> r.value == Advance(s, Min(n, |Left(s)|)).(pos := s.pos)
  {
    if n < 0 then Err(ArgumentError)
    else Ok(Advance(s, Min(n, |Left(s)|)).(pos := s.pos))
  }

  /** `skip_to_next_record` for a given target: a seek when the stream can seek, otherwise
      the bytes up to it are read and dropped and `pos` is set. */
  function SkipTo(size: int, seekable: bool, s: State, target: int): (r: Result<State, Error>)
    ensures r.Ok? ==> r.value.pos == target && r.value.lineno == s.lineno && r.value.data == s.data
    ensures r.Ok? && seekable ==> r.value.at == s.at + (target - s.pos)
  {
    if seekable then Seek(size, s, target, FileBase.SeekSet)
    else
      var d := Discard(s, target - s.pos);
      if d.Err? then Err(d.error) else Ok(d.value.(pos := target))
  }
}
