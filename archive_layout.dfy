/** The ustar tape format as the reader meets it: each entry a 512-byte header record,
    then the body, zero-padded to the next record boundary; the archive ends with two
    zero records. */
module ArchiveLayout {
  import opened Bytes
  import opened Wrappers
  import opened Ustar
  import opened Stream
  import Header
  import HeaderReader

  /** An entry as it is laid out in an archive: its header record, the header that record
      stands for, and its body. */
  datatype Entry = Entry(record: seq<byte>, header: Header.Header, body: seq<byte>)

  /** A header record that is not empty, parses to the entry's header, and declares the
      size of the body. */
  predicate WellFormed(e: Entry)
  {
    |e.record| == RECORD_SIZE && !HeaderReader.IsEmpty(e.record)
    && Header.Parse(e.record) == Ok(e.header) && e.header.size == |e.body|
  }

  /** `data` holds, from `at` on, the archive of the well-formed entries `es`. */
  predicate LaidOut(data: seq<byte>, at: nat, es: seq<Entry>)
  {
    (forall i :: 0 <= i < |es| ==> WellFormed(es[i])) && Holds(data, at, Layout(es))
  }

  /** An entry on the tape: header record, body, zero padding up to the record boundary. */
  function Image(e: Entry): (r: seq<byte>)
    ensures |r| == |e.record| + RecordsSize(|e.body|)
  {
    PaddingCompletesSize(|e.body|);
    e.record + e.body + Zeros(RecordsPadding(|e.body|))
  }

  /** The entries one after the other. */
  function Images(es: seq<Entry>): seq<byte>
  {
    if es == [] then [] else Image(es[0]) + Images(es[1..])
  }

  /** An archive: the entries one after the other, then the terminator. */
  function Layout(es: seq<Entry>): seq<byte>
  {
    Images(es) + EOF
  }

  /** `data` holds `piece` from `at` on. */
  predicate Holds(data: seq<byte>, at: nat, piece: seq<byte>)
  {
    at + |piece| <= |data| && data[at..at + |piece|] == piece
  }

  /** A stretch of a stretch of `data` is a stretch of `data`. */
  lemma SliceOfSlice(data: seq<byte>, at: nat, n: nat, i: nat, j: nat)
    requires at + n <= |data| && i <= j <= n
    ensures data[at..at + n][i..j] == data[at + i..at + j]
  {
    var inner, outer := data[at..at + n][i..j], data[at + i..at + j];
    assert forall k :: 0 <= k < |inner| ==> inner[k] == outer[k];
  }

  /** Where `data` holds `a + b + c`, it holds `a` at the start and `b` after it. */
  lemma HoldsThree(data: seq<byte>, at: nat, a: seq<byte>, b: seq<byte>, c: seq<byte>)
    requires Holds(data, at, a + b + c)
    ensures Holds(data, at, a) && Holds(data, at + |a|, b)
  {
    var w := a + b + c;
    SliceOfSlice(data, at, |w|, 0, |a|);
    SliceOfSlice(data, at, |w|, |a|, |a| + |b|);
    assert w[..|a|] == a;
    assert w[|a|..|a| + |b|] == b;
  }

  /** Where `data` holds `a + b`, it holds `a`, then `b` after it. */
  lemma HoldsPair(data: seq<byte>, at: nat, a: seq<byte>, b: seq<byte>)
    requires Holds(data, at, a + b)
    ensures Holds(data, at, a) && Holds(data, at + |a|, b)
  {
    assert a + b + [] == a + b;
    HoldsThree(data, at, a, b, []);
  }

  /** The header record, then the body, of an entry image held at `at`. */
  lemma ImagePieces(data: seq<byte>, at: nat, e: Entry)
    requires Holds(data, at, Image(e))
    ensures Holds(data, at, e.record) && Holds(data, at + |e.record|, e.body)
  {
    HoldsThree(data, at, e.record, e.body, Zeros(RecordsPadding(|e.body|)));
  }

  /** Where each entry of an archive starting at `at` starts, then where its terminator
      starts, just past all the images. */
  function Offsets(at: nat, es: seq<Entry>): (r: seq<nat>)
    ensures |r| == |es| + 1 && r[0] == at && r[|es|] == at + |Images(es)|
    decreases |es|
  {
    if es == [] then [at] else [at] + Offsets(at + |Image(es[0])|, es[1..])
  }

  /** The first entry starts at `at`, the others where its image ends. */
  lemma OffsetsCons(at: nat, es: seq<Entry>)
    requires es != []
    ensures Offsets(at, es) == [at] + Offsets(at + |Image(es[0])|, es[1..])
    ensures forall j :: 0 < j <= |es| ==> Offsets(at, es)[j] == Offsets(at + |Image(es[0])|, es[1..])[j - 1]
  {
  }

  /** Each entry starts where the one before it starts, plus that entry's image. */
  lemma {:induction false} OffsetsStep(at: nat, es: seq<Entry>, j: nat)
    requires j < |es|
    ensures Offsets(at, es)[j + 1] == Offsets(at, es)[j] + |Image(es[j])|
    decreases j
  {
    var next := at + |Image(es[0])|;
    if j > 0 {
      OffsetsStep(next, es[1..], j - 1);
      OffsetsCons(at, es);
      assert es[j] == es[1..][j - 1];
    }
  }

  /** An archive held at `at` holds every entry's image where it starts, then the
      terminator, which ends where the archive does. */
  lemma {:induction false} LayoutAt(data: seq<byte>, at: nat, es: seq<Entry>)
    requires Holds(data, at, Layout(es))
    ensures forall j :: 0 <= j < |es| ==> Holds(data, Offsets(at, es)[j], Image(es[j]))
    ensures Holds(data, Offsets(at, es)[|es|], EOF)
    ensures Offsets(at, es)[|es|] + |EOF| == at + |Layout(es)|
    decreases |es|
  {
    if es != [] {
      var e, tail := es[0], es[1..];
      var next := at + |Image(e)|;
      LayoutCons(es);
      HoldsPair(data, at, Image(e), Layout(tail));
      LayoutAt(data, next, tail);
      var r, rs := Offsets(at, es), Offsets(next, tail);
      OffsetsCons(at, es);
      forall j | 0 <= j < |es|
        ensures Holds(data, r[j], Image(es[j]))
      {
        if j > 0 {
          assert es[j] == tail[j - 1];
        }
      }
    }
  }

  /** An archive of at least one entry: the first entry's image, then the archive of
      the others. */
  lemma LayoutCons(es: seq<Entry>)
    requires es != []
    ensures Layout(es) == Image(es[0]) + Layout(es[1..])
  {
  }

  /** What the stream still holds from `at` starts with the piece held there. */
  lemma RestStarts(data: seq<byte>, at: nat, piece: seq<byte>)
    requires Holds(data, at, piece)
    ensures |Rest(data, at)| >= |piece| && Rest(data, at)[..|piece|] == piece
  {
    assert Rest(data, at)[..|piece|] == data[at..at + |piece|];
  }

  /** The header reader returns the header of a well-formed entry whose record is held at
      `at`, and consumes the record. */
  lemma HeaderOfEntry(data: seq<byte>, at: nat, e: Entry)
    requires WellFormed(e) && Holds(data, at, e.record)
    ensures HeaderReader.ReadHeader(Rest(data, at)) == (Ok(Some(e.header)), RECORD_SIZE)
  {
    RestStarts(data, at, e.record);
    HeaderReader.ReadsRecord(Rest(data, at), e.record);
    HeaderReader.ParsesTo(e.record, e.header);
  }
}
