/** `Tar::Reader`: iterates over the entries of an archive. For each header it opens an
    entry reader on the shared stream with the reader's encoding options, hands it to the
    block, then skips to the next record boundary; it stops at the terminator. */
module ArchiveReader {
  import opened Bytes
  import opened Wrappers
  import opened Errors
  import opened Encoding
  import opened Stream
  import opened Ustar
  import opened EntryState
  import FileBase
  import Header
  import HeaderReader
  import EntryReader
  import opened ArchiveLayout

  /** The keyword options of `Reader.new(io, **encoding_options)`, as given to every
      `File::Reader.new`; an option left out stands for its default. */
  datatype EncodingOptions = EncodingOptions(external: FileBase.EncArg, internal: FileBase.EncArg, options: Options)

  /** What the block collects from an entry: its header and what `read(length)` gave. */
  datatype Item = Item(header: Header.Header, body: seq<byte>)

  /** The codec an entry reader opened with these options has. */
  function CodecFor(env: Env, enc: EncodingOptions): Codec
  {
    var settled := FileBase.Settle(env, enc.external, enc.internal);
    Codec(settled.0, settled.1, enc.options)
  }

  /** One entry once its header is read, the body starting at `at`: `File::Reader.new`,
      the block's `read(length)`, `skip_to_next_record`; the answer and where the stream
      is left. */
  function RunEntry(env: Env, enc: EncodingOptions, h: Header.Header, length: Option<int>, seekable: bool,
                    data: seq<byte>, at: nat): (r: (Result<seq<byte>, Error>, int))
    ensures r.0.Ok? ==> r.1 >= at
    ensures r.0.Ok? && seekable ==> r.1 == at + SkipTarget(h.size)
    ensures r.0.Ok? && !seekable && at + SkipTarget(h.size) <= |data| ==> r.1 == at + SkipTarget(h.size)
  {
    if enc.external.Name? && FileBase.HasBomPrefix(enc.external.name) then (Err(NoMethodError), at)
    else
      var s := State(data, at, 0, 0);
      var o := EntryState.Read(env, CodecFor(env, enc), h.size, s, length);
      if o.result.Err? then (Err(o.result.error), o.after.at)
      else
        assert o.after.pos <= SkipTarget(h.size) && o.after.at - at == o.after.pos;
        match SkipTo(h.size, seekable, o.after, SkipTarget(h.size))
        case Err(e) => (Err(e), o.after.at)
        case Ok(t) => (Ok(o.result.value), t.at)
  }

  /** The body an entry reader opened with these options gives for `read()`. */
  function Decoded(env: Env, enc: EncodingOptions, body: seq<byte>): seq<byte>
  {
    var c := CodecFor(env, enc);
    Encode(env, body, c.ext, c.internal, c.opts)
  }

  /** When the stream holds the whole entry up to its record boundary, `read()` gives the
      `size` bytes of the body, decoded, and the stream is left on the boundary. */
  lemma RunEntryDelivers(env: Env, enc: EncodingOptions, h: Header.Header, seekable: bool, data: seq<byte>, at: nat,
                         body: seq<byte>)
    requires !(enc.external.Name? && FileBase.HasBomPrefix(enc.external.name))
    requires h.size == |body| && at + RecordsSize(|body|) <= |data| && data[at..at + |body|] == body
    ensures RunEntry(env, enc, h, None, seekable, data, at) == (Ok(Decoded(env, enc, body)), at + RecordsSize(|body|))
  {
    var s := State(data, at, 0, 0);
    PaddingCompletesSize(|body|);
    assert Left(s)[..Pending(h.size, s)] == body;
    ReadAllReachesEof(env, CodecFor(env, enc), h.size, s);
  }

  /** `skip_to_next_record` as written after a header whose size reads as -512: `read()`
      finds nothing pending, and the seek to `records_size(-512)` takes a seekable stream
      back to the header's own start; on a stream that cannot seek, `read(-512)` is an
      ArgumentError. The corrected target leaves the stream at the body start. */
  lemma AsWrittenSkipGoesBack(env: Env, enc: EncodingOptions, size: int, data: seq<byte>, start: nat)
    requires size == -512
    ensures var s := State(data, start + RECORD_SIZE, 0, 0);
      EntryState.Read(env, CodecFor(env, enc), size, s, None).after == s
      && SkipTo(size, true, s, SkipTargetAsWritten(size)) == Ok(State(data, start, -512, 0))
      && SkipTo(size, false, s, SkipTargetAsWritten(size)) == Err(ArgumentError)
      && SkipTo(size, true, s, SkipTarget(size)) == Ok(s)
  {
    var s := State(data, start + RECORD_SIZE, 0, 0);
    assert SkipTargetAsWritten(size) == -512 && SkipTarget(size) == 0 by { SkipAsWrittenGoesBack(); }
    assert RawRead(s, Truncate(Pending(size, s), None)) == Out(Ok([]), s);
    assert FileBase.Relativize(-512, FileBase.SeekSet, 0, Some(size)) == Ok(-512);
    assert FileBase.Relativize(0, FileBase.SeekSet, 0, Some(size)) == Ok(0);
  }

  /** So `each` as written never ends on a seekable stream: after such a header the stream
      is back where that header starts, and the next turn reads the same header again. */
  lemma AsWrittenSkipRereadsHeader(env: Env, enc: EncodingOptions, h: Header.Header, data: seq<byte>, start: nat)
    requires h.size == -512 && HeaderReader.ReadHeader(Rest(data, start)) == (Ok(Some(h)), RECORD_SIZE)
    ensures var s := State(data, start + RECORD_SIZE, 0, 0);
      var back := SkipTo(h.size, true, s, SkipTargetAsWritten(h.size));
      back.Ok? && HeaderReader.ReadHeader(Rest(data, back.value.at)) == (Ok(Some(h)), RECORD_SIZE)
  {
    AsWrittenSkipGoesBack(env, enc, h.size, data, start);
  }

  /** A measure of what is left to read after `at`. */
  function Unvisited(data: seq<byte>, at: nat): nat
  {
    if at <= |data| then |data| - at + 1 else 0
  }

  /** Past a header record the stream has moved on. */
  lemma Progress(data: seq<byte>, at: nat, next: nat)
    requires |Rest(data, at)| >= RECORD_SIZE && next >= at + RECORD_SIZE
    ensures Unvisited(data, next) < Unvisited(data, at)
  {
  }

  /** What one turn of the loop in `each` comes to: the entry it yields and where the
      stream is left, or the end of the iteration with the error that ended it, if any. */
  datatype Step = Stop(error: Option<Error>, next: int) | Next(item: Item, next: int)

  /** One turn of `each`: read a header; at the terminator stop, otherwise run the entry. */
  function EntryStep(env: Env, enc: EncodingOptions, length: Option<int>, seekable: bool, data: seq<byte>, at: nat)
    : (r: Step)
    ensures r.Next? ==> |Rest(data, at)| >= RECORD_SIZE && r.next >= at + RECORD_SIZE
    ensures r.Next? ==> HeaderReader.ReadHeader(Rest(data, at)) == (Ok(Some(r.item.header)), RECORD_SIZE)
    ensures r.Next? && (seekable || at + RECORD_SIZE + SkipTarget(r.item.header.size) <= |data|) ==>
              r.next == at + RECORD_SIZE + SkipTarget(r.item.header.size)
  {
    var h := HeaderReader.ReadHeader(Rest(data, at));
    StepAfter(env, enc, length, seekable, data, at, h.0, h.1)
  }

  /** The turn once the header reader has answered `h` and consumed `used` bytes. */
  function StepAfter(env: Env, enc: EncodingOptions, length: Option<int>, seekable: bool, data: seq<byte>, at: nat,
                     h: Result<Option<Header.Header>, Error>, used: nat): (r: Step)
    ensures r.Next? ==> h == Ok(Some(r.item.header)) && r.next >= at + used
    ensures r.Next? && (seekable || at + used + SkipTarget(r.item.header.size) <= |data|) ==>
              r.next == at + used + SkipTarget(r.item.header.size)
  {
    if h.Err? then Stop(Some(h.error), at + used)
    else if h.value.None? then Stop(None, at + used)
    else
      var e := RunEntry(env, enc, h.value.value, length, seekable, data, at + used);
      if e.0.Err? then Stop(Some(e.0.error), e.1)
      else Next(Item(h.value.value, e.0.value), e.1)
  }

  /** `each` with a block that collects `read(length)` of every entry: the items in
      archive order, the error that stopped it if any, and where the stream is left. */
  function Entries(env: Env, enc: EncodingOptions, length: Option<int>, seekable: bool, data: seq<byte>, at: nat)
    : (r: (seq<Item>, Option<Error>, int))
    decreases Unvisited(data, at)
  {
    var st := EntryStep(env, enc, length, seekable, data, at);
    if st.Stop? then ([], st.error, st.next)
    else
      Progress(data, at, st.next);
      var tail := Entries(env, enc, length, seekable, data, st.next);
      ([st.item] + tail.0, tail.1, tail.2)
  }

  /** `total` is what is collected so far followed by what `rest` still yields. */
  predicate Continues(items: seq<Item>, rest: (seq<Item>, Option<Error>, int), total: (seq<Item>, Option<Error>, int))
  {
    items + rest.0 == total.0 && rest.1 == total.1 && rest.2 == total.2
  }

  /** A turn that stops ends the iteration with what was collected so far. */
  lemma StopEndsEntries(env: Env, enc: EncodingOptions, length: Option<int>, seekable: bool, data: seq<byte>, at: nat,
                        items: seq<Item>, total: (seq<Item>, Option<Error>, int))
    requires Continues(items, Entries(env, enc, length, seekable, data, at), total)
    requires EntryStep(env, enc, length, seekable, data, at).Stop?
    ensures var st := EntryStep(env, enc, length, seekable, data, at);
      (items, st.error, st.next) == total
  {
    assert items + [] == items;
  }

  /** A turn that yields an item adds it to what was collected and moves on. */
  lemma NextContinuesEntries(env: Env, enc: EncodingOptions, length: Option<int>, seekable: bool, data: seq<byte>, at: nat,
                             items: seq<Item>, total: (seq<Item>, Option<Error>, int))
    requires Continues(items, Entries(env, enc, length, seekable, data, at), total)
    requires EntryStep(env, enc, length, seekable, data, at).Next?
    ensures var st := EntryStep(env, enc, length, seekable, data, at);
      Continues(items + [st.item], Entries(env, enc, length, seekable, data, st.next), total)
      && Unvisited(data, st.next) < Unvisited(data, at)
  {
    var st := EntryStep(env, enc, length, seekable, data, at);
    var tail := Entries(env, enc, length, seekable, data, st.next);
    EntriesUnfold(env, enc, length, seekable, data, at);
    ContinuesPush(items, st.item, Entries(env, enc, length, seekable, data, at), tail, total);
  }

  lemma ContinuesPush(items: seq<Item>, item: Item, whole: (seq<Item>, Option<Error>, int),
                      tail: (seq<Item>, Option<Error>, int), total: (seq<Item>, Option<Error>, int))
    requires Continues(items, whole, total) && whole == ([item] + tail.0, tail.1, tail.2)
    ensures Continues(items + [item], tail, total)
  {
    assert items + [item] + tail.0 == items + ([item] + tail.0);
  }

  /** Past an entry, the iteration yields that entry and then what follows it. */
  lemma EntriesUnfold(env: Env, enc: EncodingOptions, length: Option<int>, seekable: bool, data: seq<byte>, at: nat)
    requires EntryStep(env, enc, length, seekable, data, at).Next?
    ensures var st := EntryStep(env, enc, length, seekable, data, at);
      var tail := Entries(env, enc, length, seekable, data, st.next);
      Entries(env, enc, length, seekable, data, at) == ([st.item] + tail.0, tail.1, tail.2)
      && Unvisited(data, st.next) < Unvisited(data, at)
  {
    var st := EntryStep(env, enc, length, seekable, data, at);
    Progress(data, at, st.next);
  }

  /** An archive that is only the terminator yields nothing and leaves the stream after it. */
  lemma EmptyArchive(env: Env, enc: EncodingOptions, length: Option<int>, seekable: bool, data: seq<byte>, at: nat)
    requires at <= |data| && |Rest(data, at)| >= |EOF| && Rest(data, at)[..|EOF|] == EOF
    ensures Entries(env, enc, length, seekable, data, at) == ([], None, at + |EOF|)
  {
    HeaderReader.TerminatorEndsArchive(Rest(data, at));
  }

  /** What a reader collecting `read()` of every entry should see: each header with its
      body decoded, in archive order. */
  function Expected(env: Env, enc: EncodingOptions, es: seq<Entry>): (r: seq<Item>)
    ensures |r| == |es|
    ensures forall i :: 0 <= i < |es| ==> r[i] == Item(es[i].header, Decoded(env, enc, es[i].body))
  {
    if es == [] then [] else [Item(es[0].header, Decoded(env, enc, es[0].body))] + Expected(env, enc, es[1..])
  }

  /** From entry `i` on, the expected items are entry `i`'s, then those after it. */
  lemma ExpectedFrom(env: Env, enc: EncodingOptions, es: seq<Entry>, i: nat)
    requires i < |es|
    ensures Expected(env, enc, es)[i..] == [Item(es[i].header, Decoded(env, enc, es[i].body))] + Expected(env, enc, es)[i + 1..]
  {
    var items := Expected(env, enc, es);
    assert items[i..] == [items[i]] + items[i + 1..];
  }

  /** Past a header the header reader returned, with the body held after it: the turn
      yields the header and the body and moves past the padding. */
  lemma StepOverEntry(env: Env, enc: EncodingOptions, seekable: bool, data: seq<byte>, at: nat, h: Header.Header,
                      body: seq<byte>)
    requires !(enc.external.Name? && FileBase.HasBomPrefix(enc.external.name))
    requires h.size == |body| && at + RECORD_SIZE + RecordsSize(|body|) <= |data|
    requires data[at + RECORD_SIZE..at + RECORD_SIZE + |body|] == body
    ensures StepAfter(env, enc, None, seekable, data, at, Ok(Some(h)), RECORD_SIZE)
            == Next(Item(h, Decoded(env, enc, body)), at + RECORD_SIZE + RecordsSize(|body|))
  {
    var v := Decoded(env, enc, body);
    var next := at + RECORD_SIZE + RecordsSize(|body|);
    assert RunEntry(env, enc, h, None, seekable, data, at + RECORD_SIZE) == (Ok(v), next) by {
      RunEntryDelivers(env, enc, h, seekable, data, at + RECORD_SIZE, body);
    }
    StepAfterRuns(env, enc, None, seekable, data, at, h, RECORD_SIZE, v, next);
  }

  /** A turn past a non-nil header yields it with what the entry run gave. */
  lemma StepAfterRuns(env: Env, enc: EncodingOptions, length: Option<int>, seekable: bool, data: seq<byte>, at: nat,
                      h: Header.Header, used: nat, v: seq<byte>, next: int)
    requires RunEntry(env, enc, h, length, seekable, data, at + used) == (Ok(v), next)
    ensures StepAfter(env, enc, length, seekable, data, at, Ok(Some(h)), used) == Next(Item(h, v), next)
  {
  }

  /** The turn with the header the header reader gives. */
  lemma StepOnHeader(env: Env, enc: EncodingOptions, length: Option<int>, seekable: bool, data: seq<byte>, at: nat,
                     h: Header.Header)
    requires HeaderReader.ReadHeader(Rest(data, at)) == (Ok(Some(h)), RECORD_SIZE)
    ensures EntryStep(env, enc, length, seekable, data, at) == StepAfter(env, enc, length, seekable, data, at, Ok(Some(h)), RECORD_SIZE)
  {
  }

  /** Where the stream stands once the image of `e`, held at `at`, is read. */
  function ImageEnd(at: nat, e: Entry): int
  {
    at + |Image(e)|
  }

  /** Past the header record of a well-formed entry, the entry is run and the stream left
      after its padding. */
  lemma RunOverImage(env: Env, enc: EncodingOptions, seekable: bool, data: seq<byte>, at: nat, e: Entry)
    requires |e.record| == RECORD_SIZE && e.header.size == |e.body|
    requires !(enc.external.Name? && FileBase.HasBomPrefix(enc.external.name))
    requires Holds(data, at, Image(e))
    ensures StepAfter(env, enc, None, seekable, data, at, Ok(Some(e.header)), RECORD_SIZE)
            == Next(Item(e.header, Decoded(env, enc, e.body)), ImageEnd(at, e))
  {
    ImagePieces(data, at, e);
    StepOverEntry(env, enc, seekable, data, at, e.header, e.body);
  }

  /** The header reader returns the header of a well-formed entry whose image is held at
      `at`. */
  lemma HeaderOfImage(data: seq<byte>, at: nat, e: Entry)
    requires WellFormed(e) && Holds(data, at, Image(e))
    ensures HeaderReader.ReadHeader(Rest(data, at)) == (Ok(Some(e.header)), RECORD_SIZE)
  {
    ImagePieces(data, at, e);
    HeaderOfEntry(data, at, e);
  }

  /** A well-formed entry held at `at`: the turn yields its header and its decoded body and
      leaves the stream after its padding. */
  lemma NextOverImage(env: Env, enc: EncodingOptions, seekable: bool, data: seq<byte>, at: nat, e: Entry)
    requires WellFormed(e) && !(enc.external.Name? && FileBase.HasBomPrefix(enc.external.name))
    requires Holds(data, at, Image(e))
    ensures EntryStep(env, enc, None, seekable, data, at)
            == Next(Item(e.header, Decoded(env, enc, e.body)), ImageEnd(at, e))
  {
    HeaderOfImage(data, at, e);
    RunOverImage(env, enc, seekable, data, at, e);
    StepOnHeader(env, enc, None, seekable, data, at, e.header);
  }

  /** An entry read in full, then the rest of the iteration. */
  lemma EntriesCons(env: Env, enc: EncodingOptions, seekable: bool, data: seq<byte>, at: nat,
                    item: Item, next: int, tail: seq<Item>, end: int)
    requires EntryStep(env, enc, None, seekable, data, at) == Next(item, next)
    requires Entries(env, enc, None, seekable, data, next) == (tail, None, end)
    ensures Entries(env, enc, None, seekable, data, at) == ([item] + tail, None, end)
  {
    EntriesUnfold(env, enc, None, seekable, data, at);
  }

  /** A well-formed entry held at `at` is one turn, to just past its image. */
  lemma TurnOver(env: Env, enc: EncodingOptions, seekable: bool, data: seq<byte>, at: nat, e: Entry, next: int)
    requires WellFormed(e) && !(enc.external.Name? && FileBase.HasBomPrefix(enc.external.name))
    requires Holds(data, at, Image(e)) && next == ImageEnd(at, e)
    ensures EntryStep(env, enc, None, seekable, data, at) == Next(Item(e.header, Decoded(env, enc, e.body)), next)
  {
    NextOverImage(env, enc, seekable, data, at, e);
  }

  /** Entry `j` is one turn, from its start to the next. */
  predicate TurnFrom(env: Env, enc: EncodingOptions, seekable: bool, data: seq<byte>, starts: seq<nat>,
                     es: seq<Entry>, j: nat)
    requires j < |es| && |starts| == |es| + 1
  {
    EntryStep(env, enc, None, seekable, data, starts[j])
    == Next(Item(es[j].header, Decoded(env, enc, es[j].body)), starts[j + 1])
  }

  /** Every entry is one turn, from its start to the next. */
  predicate EveryTurn(env: Env, enc: EncodingOptions, seekable: bool, data: seq<byte>, starts: seq<nat>,
                      es: seq<Entry>)
    requires |starts| == |es| + 1
  {
    forall j :: 0 <= j < |es| ==> TurnFrom(env, enc, seekable, data, starts, es, j)
  }

  /** The archive at `at` is laid out as turns from `starts`, with the terminator after the
      last one, ending at `end`. */
  predicate TurnsLaid(env: Env, enc: EncodingOptions, seekable: bool, data: seq<byte>, at: nat,
                      starts: seq<nat>, es: seq<Entry>, end: int)
  {
    && |starts| == |es| + 1 && starts[0] == at
    && EveryTurn(env, enc, seekable, data, starts, es)
    && Holds(data, starts[|es|], EOF) && end == starts[|es|] + |EOF|
  }

  /** The well-formed entries of an archive held at `at` are one turn each. */
  lemma AllTurns(env: Env, enc: EncodingOptions, seekable: bool, data: seq<byte>, at: nat, es: seq<Entry>)
    requires LaidOut(data, at, es)
    requires !(enc.external.Name? && FileBase.HasBomPrefix(enc.external.name))
    ensures TurnsLaid(env, enc, seekable, data, at, Offsets(at, es), es, at + |Layout(es)|)
  {
    LayoutAt(data, at, es);
    var starts := Offsets(at, es);
    forall j | 0 <= j < |es|
      ensures TurnFrom(env, enc, seekable, data, starts, es, j)
    {
      OffsetsStep(at, es, j);
      TurnOver(env, enc, seekable, data, starts[j], es[j], starts[j + 1]);
    }
  }

  /** Turns that go entry by entry, with the terminator after the last, add up to the
      whole iteration from any entry on. */
  lemma {:induction false} TurnsAddUp(env: Env, enc: EncodingOptions, seekable: bool, data: seq<byte>,
                                      starts: seq<nat>, es: seq<Entry>, i: nat, end: int)
    requires |starts| == |es| + 1 && i <= |es|
    requires EveryTurn(env, enc, seekable, data, starts, es)
    requires Holds(data, starts[|es|], EOF) && end == starts[|es|] + |EOF|
    ensures Entries(env, enc, None, seekable, data, starts[i]) == (Expected(env, enc, es)[i..], None, end)
    decreases |es| - i
  {
    if i == |es| {
      assert Rest(data, starts[i])[..|EOF|] == EOF;
      EmptyArchive(env, enc, None, seekable, data, starts[i]);
      assert Expected(env, enc, es)[i..] == [];
    } else {
      TurnsAddUp(env, enc, seekable, data, starts, es, i + 1, end);
      assert TurnFrom(env, enc, seekable, data, starts, es, i);
      ExpectedFrom(env, enc, es, i);
      EntriesCons(env, enc, seekable, data, starts[i], Item(es[i].header, Decoded(env, enc, es[i].body)), starts[i + 1],
                  Expected(env, enc, es)[i + 1..], end);
    }
  }

  /** The turns from the first start on are the whole iteration. */
  lemma TurnsFromStart(env: Env, enc: EncodingOptions, seekable: bool, data: seq<byte>, at: nat,
                       starts: seq<nat>, es: seq<Entry>, end: int)
    requires TurnsLaid(env, enc, seekable, data, at, starts, es, end)
    ensures Entries(env, enc, None, seekable, data, at) == (Expected(env, enc, es), None, end)
  {
    TurnsAddUp(env, enc, seekable, data, starts, es, 0, end);
    assert Expected(env, enc, es)[0..] == Expected(env, enc, es);
  }

  /** Entries come out in archive order, each with its header and exactly `size` bytes of
      body, decoded; the iteration ends at the terminator with no error and the stream just
      after it, whatever follows. */
  lemma ReadsLayout(env: Env, enc: EncodingOptions, seekable: bool, data: seq<byte>, at: nat, es: seq<Entry>)
    requires LaidOut(data, at, es)
    requires !(enc.external.Name? && FileBase.HasBomPrefix(enc.external.name))
    ensures Entries(env, enc, None, seekable, data, at) == (Expected(env, enc, es), None, at + |Layout(es)|)
  {
    AllTurns(env, enc, seekable, data, at, es);
    TurnsFromStart(env, enc, seekable, data, at, Offsets(at, es), es, at + |Layout(es)|);
  }

  class Reader {
    const io: ByteStream
    const env: Env
    const enc: EncodingOptions
    const headerReader: HeaderReader.HeaderReader

    /** `Reader.new(io, **encoding_options)`. */
    constructor (stream: ByteStream, e: Env, options: EncodingOptions)
      ensures io == stream && env == e && enc == options && headerReader.io == stream
    {
      io := stream;
      env := e;
      enc := options;
      headerReader := new HeaderReader.HeaderReader(stream);
    }

    /** One turn of the loop in `each`: the header, the entry reader on the shared
        stream, the block's `read(length)`, then `skip_to_next_record`. */
    method Turn(length: Option<int>) returns (st: Step)
      requires headerReader.io == io && !io.closed
      modifies io
      ensures io.data == old(io.data) && !io.closed
      ensures st == EntryStep(env, enc, length, io.seekable, old(io.data), old(io.cursor)) && io.cursor == st.next
    {
      var h := headerReader.Read();
      if h.Err? {
        return Stop(Some(h.error), io.cursor);
      }
      if h.value.None? {
        return Stop(None, io.cursor);
      }
      var header := h.value.value;
      var made := EntryReader.Reader.Open(io, header, env, enc.external, enc.internal, enc.options);
      if made.Err? {
        return Stop(Some(made.error), io.cursor);
      }
      var file := made.value;
      assert file.CodecOf() == CodecFor(env, enc);
      var body := file.Read(length);
      if body.Err? {
        return Stop(Some(body.error), io.cursor);
      }
      var skipped := file.SkipToNextRecord();
      if skipped.Fail? {
        return Stop(Some(skipped.error), io.cursor);
      }
      return Next(Item(header, body.value), io.cursor);
    }

    method Each(length: Option<int>) returns (items: seq<Item>, err: Option<Error>)
      requires headerReader.io == io
      modifies io
      ensures io.data == old(io.data) && io.closed == old(io.closed)
      ensures old(io.closed) ==> items == [] && err == Some(IOError) && io.cursor == old(io.cursor)
      ensures !old(io.closed) ==> (items, err, io.cursor) == Entries(env, enc, length, io.seekable, old(io.data), old(io.cursor))
    {
      items := [];
      if io.closed {
        return [], Some(IOError);
      }
      ghost var total := Entries(env, enc, length, io.seekable, io.data, io.cursor);
      while true
        invariant io.data == old(io.data) && !io.closed
        invariant Continues(items, Entries(env, enc, length, io.seekable, io.data, io.cursor), total)
        decreases Unvisited(io.data, io.cursor)
      {
        ghost var at := io.cursor;
        var st := Turn(length);
        if st.Stop? {
          StopEndsEntries(env, enc, length, io.seekable, io.data, at, items, total);
          return items, st.error;
        }
        NextContinuesEntries(env, enc, length, io.seekable, io.data, at, items, total);
        items := items + [st.item];
      }
    }
  }
}
