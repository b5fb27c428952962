# ustar archives in Dafny

A model of `tar`, a Ruby library that reads and writes ustar archives (the tape format
of the "ustar Interchange Format" subsection of the pax utility in POSIX.1-2017). An
archive is a sequence of 512-byte records. Each entry is one header record followed by
its body, padded with zero bytes to a record boundary. Two all-zero records end the
archive.

The model follows the library's structure, one module per source file or concern:

- `Ustar` holds the record arithmetic (`records`, `records_size`, `records_padding`),
  `read_record` and the 1024-byte terminator.
- `Schema` is the fixed field table, with its builder, `clear`, `parse` and the three
  field types. `HeaderSchema` is the sixteen-field ustar layout and `clear_checksum`.
- `Checksum` is the byte sum with the checksum field blanked. `Header` is the parsed
  header, with `path` and `parse`. `HeaderReader` reads the next header and recognises
  the terminator.
- `ArchiveLayout` is the archive as a byte image of well-formed entries. `ArchiveReader`
  is `Reader#each`: a class whose loop is proved to yield exactly the reference
  iteration, and lemmas proving that a laid-out archive yields its entries in order.
- `Stream` is the shared host stream: a class over a byte sequence with a cursor, a
  closed flag and a seekable flag.
- `EntryState` is the read engine of an entry as pure functions over the stream
  contents, cursor, `pos` and `lineno`. It covers bounded reads, seeks, byte and
  character stepping with push-back, and the greedy `getc`.
- `EntryReader.Reader` is `Tar::File::Reader`, a class whose methods are proved
  against those functions. `FileBase` is what it shares with the writer: seek
  translation and encoding arguments.
- `Bom` is the byte-order-mark walk. `Line` is `Tar::File::Line`: argument parsing,
  `read_line`, `skip_newlines`, `gets`, `readline` and `each_line`.
- `EntryWriter.Writer` is `Tar::File::Writer`. `ArchiveWriter.Writer` is `Tar::Writer`,
  including the deferred-size placeholder and patch.
- `LegacyReader.FileReader` and `LegacyWriter.FileWriter` are the older
  `Tar::FileReader` and `Tar::FileWriter`.
- `Encoding` gives character widths, validity (UTF-8 as in section 4 of RFC 3629) and
  the host environment. `Bytes`, `Errors` and `Wrappers` hold shared definitions.

Ruby integers are unbounded, so sizes and positions are `int`. They may be negative,
because `String#oct` accepts a sign and `ungetbyte(nil)` can move `pos` below zero.

## Model

| member | source | states |
|---|---|---|
| Ustar.Records | lib/tar/ustar.rb:21-23 | for a non-negative size, the smallest record count whose 512-byte records hold the payload: `(r - 1) * 512 < n <= r * 512` |
| Ustar.RecordsSize | lib/tar/ustar.rb:25-27 | the padded size is a multiple of 512, at least the payload and less than one record more |
| Ustar.RecordsPadding | lib/tar/ustar.rb:29-31 | the padding is below 512 and brings the payload to a record boundary |
| Ustar.PaddingCompletesSize | lib/tar/ustar.rb:25-31 | payload plus padding is the padded size |
| Ustar.RecordsShift | lib/tar/ustar.rb:21-31 | adding `k` whole records to a payload adds `k` records and leaves the padding unchanged |
| Ustar.ShiftByRecords | lib/tar/ustar.rb:25-27 | moving by a padded size keeps the offset within the record |
| Ustar.RecordsExamples | lib/tar/ustar.rb:21-27 | record counts and padded sizes for 0, 1, 512, 513, 1024 and 9000 bytes, including 0 records for an empty payload |
| Ustar.EofIsTwoZeroRecords | lib/tar/ustar.rb:9-11 | the end-of-archive marker is 1024 zero bytes, two zero records |
| Ustar.RecordRead | lib/tar/ustar.rb:13-19 | the read succeeds exactly when 512 bytes remain and then returns exactly the next 512; otherwise UnexpectedEOF with the count that was there |
| Ustar.ConsecutiveRecords | lib/tar/ustar.rb:13-19 | two reads in a row return the next 1024 bytes, record by record |
| Ustar.ReadRecord | lib/tar/ustar.rb:13-19 | on an open stream the result is the record read of the remaining bytes and the cursor moves by what was taken; a closed stream gives IOError and does not move |
| Checksum.Value | lib/tar/checksum.rb:7-10 | defined exactly when the record reaches the checksum field (else IndexError); the value is the byte sum before the field, plus eight spaces, plus the byte sum after it |
| Checksum.Check | lib/tar/checksum.rb:12-14 | passes if and only if the computed and expected values agree; otherwise ChecksumMismatch, which is an InvalidArchive |
| Checksum.IgnoresStoredChecksum | lib/tar/checksum.rb:7-10 | records that differ only inside the checksum field have the same value |
| Checksum.SingleByteChangeDetected | lib/tar/checksum.rb:7-10 | changing one byte outside the field shifts the value by the difference, so the value changes |
| Checksum.CorruptionFailsCheck | lib/tar/checksum.rb:7-14 | a record that passed its check fails it after any single-byte change outside the field |
| Checksum.ValueBounds | lib/tar/checksum.rb:7-10 | for a 512-byte record the value lies between 256 and 256 + 504 * 255 |
| Schema.Lookup | lib/tar/schema.rb:19 | a lookup finds nothing exactly when the name is not among the table's names, the case in which `fetch` raises KeyError |
| Schema.LookupAt | lib/tar/schema.rb:19 | the field found is the first one with that name |
| Schema.PutNames | lib/tar/schema.rb:46-49 | `@fields[name] = ...` keeps the existing names in their order and appends a new name last, as a Ruby hash does |
| Schema.PutFinds | lib/tar/schema.rb:46-49 | after the assignment the name maps to the new field type |
| Schema.PutNew | lib/tar/schema.rb:46-49 | assigning a name that is not there appends exactly one pair |
| Schema.LayoutStep | lib/tar/schema.rb:46-49 | one more declaration puts one more field at the running offset and moves the offset by its size |
| Schema.LayoutOffsets | lib/tar/schema.rb:5-9 | for distinct names the built table has one field per declaration, in declaration order, each at the sum of the widths declared before it; the final offset is the total width |
| Schema.Builder.constructor | lib/tar/schema.rb:5-9 | running the builder calls leaves the fields and offset the declarations lay out |
| Schema.Builder.AddField | lib/tar/schema.rb:46-49 | the field is recorded at the old offset and the offset grows by the size |
| Schema.Take | lib/tar/schema.rb:27 | a directive of width `n` reads at most `n` bytes, a prefix of what is left |
| Schema.UntilNul | lib/tar/schema.rb:61-64 | the `Z` directive: a prefix without NUL, cut at the first NUL |
| Schema.StripTrailing | lib/tar/schema.rb:71-74 | the `A` directive: a prefix that ends in neither space nor NUL, with only spaces and NULs removed |
| Schema.OctalValueLeadingZeros | lib/tar/schema.rb:76-78 | leading zero digits do not change the value an octal field reads as |
| Schema.OctalReadsAll | lib/tar/schema.rb:76-78 | a field made only of octal digits reads as their value |
| Schema.DigitsRoundTrip | lib/tar/schema.rb:71-78 | octal digits followed by spaces and NULs read back as the digits' value |
| Schema.OctalFieldRoundTrip | lib/tar/schema.rb:71-78 | a number written as zero-padded octal digits followed by spaces and NULs reads back as that number |
| Schema.ParseValue | lib/tar/schema.rb:61-85 | a string field gives nil when nothing precedes the first NUL and those bytes otherwise; an octal number and a timestamp give the octal value of the field without trailing spaces and NULs |
| Schema.Parse | lib/tar/schema.rb:26-30 | one value per field, paired with the field names in table order |
| Schema.ParseFieldwise | lib/tar/schema.rb:11 | with distinct names the joined unpack format reads each field from its own offset and width, so value `i` is field `i` decoded from its own bytes |
| Schema.Clear | lib/tar/schema.rb:18-24 | KeyError for an unknown name, IndexError when the field starts past the end; otherwise the field's bytes become spaces, every other byte is kept, and a field that runs past the end makes the copy longer |
| HeaderSchema.HeaderDeclsDistinct | lib/tar/header.rb:9-26 | no two header fields share a name |
| HeaderSchema.SchemaLayout | lib/tar/header.rb:9-26 | the header fields lie at the ustar offsets (name 0, mode 100, ..., prefix 345) and together fill 500 bytes |
| HeaderSchema.ChecksumField | lib/tar/header.rb:16 | the checksum field is an octal number, 8 bytes wide at offset 148 |
| HeaderSchema.ClearChecksum | lib/tar/header.rb:50-52 | IndexError exactly when the record ends before offset 148; otherwise the record with bytes 148 to 155 replaced by eight spaces |
| Schema.OctalModeExample | lib/tar/schema.rb:76-78 | the mode field "000644 " plus NUL reads as 420 |
| Schema.OctalSizeExample | lib/tar/schema.rb:76-78 | the size field "00000002070 " reads as 1080 |
| Header.Path | lib/tar/header.rb:38-42 | the name when there is no prefix; otherwise the prefix, a slash, then the name |
| Header.FetchField | lib/tar/header.rb:32-36 | each accessor finds its field's value among the parsed values, decoded from that field's own bytes |
| Header.StoredChecksumParsed | lib/tar/header.rb:46 | the checksum value `parse` checks against is the octal number in bytes 148 to 155 |
| Header.Parse | lib/tar/header.rb:44-48 | a header only when the record reaches the checksum field and the stored checksum equals the computed one; IndexError for a record that stops before the field; ChecksumMismatch with both values otherwise |
| Header.DecodesMode | lib/tar/header.rb:11 | `mode` is the octal number in bytes 100 to 107 |
| Header.DecodesUid | lib/tar/header.rb:12 | `uid` is the octal number in bytes 108 to 115 |
| Header.DecodesGid | lib/tar/header.rb:13 | `gid` is the octal number in bytes 116 to 123 |
| Header.DecodesSize | lib/tar/header.rb:14 | `size` is the octal number in bytes 124 to 135 |
| Header.DecodesMtime | lib/tar/header.rb:15 | `mtime` is the seconds the octal number in bytes 136 to 147 gives |
| Header.DecodesChecksum | lib/tar/header.rb:16 | `checksum` is the octal number in bytes 148 to 155 |
| Header.DecodesName | lib/tar/header.rb:10 | `name` is the string before the first NUL of bytes 0 to 99, nil when empty |
| Header.DecodesTypeflag | lib/tar/header.rb:17 | `typeflag` is byte 156 unless it is NUL |
| Header.DecodesLinkName | lib/tar/header.rb:18 | `link_name` is the string in bytes 157 to 256 |
| Header.DecodesMagic | lib/tar/header.rb:19 | `magic` is the string in bytes 257 to 262 |
| Header.DecodesVersion | lib/tar/header.rb:20 | `version` is the string in bytes 263 and 264 |
| Header.DecodesUname | lib/tar/header.rb:21 | `uname` is the string in bytes 265 to 296 |
| Header.DecodesGname | lib/tar/header.rb:22 | `gname` is the string in bytes 297 to 328 |
| Header.DecodesDevMajor | lib/tar/header.rb:23 | `dev_major` is the octal number in bytes 329 to 336 |
| Header.DecodesDevMinor | lib/tar/header.rb:24 | `dev_minor` is the octal number in bytes 337 to 344 |
| Header.DecodesPrefix | lib/tar/header.rb:25 | `prefix` is the string in bytes 345 to 499 |
| Header.ParseDecodes | lib/tar/header.rb:28-48 | a header that parses holds, in its sixteen accessors, exactly the values read straight from the ustar field offsets |
| HeaderReader.EmptyIsZeros | lib/tar/header_reader.rb:34-36 | `empty?` holds exactly for a non-empty record of zero bytes |
| HeaderReader.AfterEmpty | lib/tar/header_reader.rb:19-22 | after an empty record: a short stream is an UnexpectedEOF, a second empty record gives nil, any other record is an InvalidArchive |
| HeaderReader.ParsesTo | lib/tar/header_reader.rb:25 | a record that parses is returned as that header |
| HeaderReader.ReadsRecord | lib/tar/header_reader.rb:17-25 | a next record that is not empty is parsed, and exactly 512 bytes are taken |
| HeaderReader.TerminatorEndsArchive | lib/tar/header_reader.rb:19-20 | two zero records give nil after taking 1024 bytes |
| HeaderReader.NilOnlyAtTerminator | lib/tar/header_reader.rb:16-26 | nil comes back only when the next 1024 bytes are the terminator |
| HeaderReader.ParseHeader | lib/tar/header_reader.rb:25 | parsing a record never gives nil, and fails exactly when `Header.parse` does |
| HeaderReader.LoneZeroRecord | lib/tar/header_reader.rb:19-22 | a zero record then a record that is not empty is an InvalidArchive after 1024 bytes; a zero record at the end of the stream is an UnexpectedEOF |
| HeaderReader.HeaderReader.constructor | lib/tar/header_reader.rb:12-14 | the reader reads from the given stream |
| HeaderReader.HeaderReader.Read | lib/tar/header_reader.rb:16-26 | on an open stream the answer and the bytes taken are those of the reference `ReadHeader` on what the stream still holds; the stream's bytes are unchanged; on a closed stream IOError and nothing moves |
| ArchiveLayout.Image | lib/tar/ustar.rb:25-31 | an entry on the tape takes its header record plus the body rounded up to whole records |
| ArchiveLayout.OffsetsStep | lib/tar/reader.rb:20-27 | each entry starts where the previous one starts plus that entry's image |
| ArchiveLayout.LayoutAt | lib/tar/reader.rb:20-27 | an archive held at `at` holds each entry's image at its start and the terminator after the last, ending where the archive ends |
| ArchiveLayout.HeaderOfEntry | lib/tar/header_reader.rb:16-26 | a well-formed header record at the cursor is read as its header, taking 512 bytes |
| ArchiveReader.RunEntry | lib/tar/reader.rb:24-26 | with the block's read done, a successful entry leaves the stream at its body start plus `SkipTarget(size)`, whatever the block read; that is `records_size(size)` for every size of 0 or more and the body start for the negative sizes (Findings row 1's corrected target); on a stream that cannot seek, when the stream holds the padding |
| ArchiveReader.RunEntryDelivers | lib/tar/reader.rb:24-26 | when the stream holds the whole entry, `read()` gives exactly the `size` bytes of the body, decoded with the reader's encoding options, and the stream ends on the record boundary |
| ArchiveReader.EntryStep | lib/tar/reader.rb:21-26 | a turn that yields an entry read that entry's header from the stream, took 512 bytes for it, and ends at the body start plus `SkipTarget(size)` (`records_size(size)` for sizes of 0 or more) |
| ArchiveReader.StepAfter | lib/tar/reader.rb:22-26 | a turn yields only for a non-nil header, and then ends at the body start plus `SkipTarget(size)` (`records_size(size)` for sizes of 0 or more) |
| ArchiveReader.StopEndsEntries | lib/tar/reader.rb:21-22 | a turn that stops ends the iteration with the items collected so far and the error of that turn |
| ArchiveReader.NextContinuesEntries | lib/tar/reader.rb:20-27 | a turn that yields adds its item to those collected and the rest of the iteration goes on from where it left the stream |
| ArchiveReader.EntriesUnfold | lib/tar/reader.rb:20-27 | once a turn yields, the iteration is that item followed by the iteration from where the turn ended |
| ArchiveReader.EmptyArchive | lib/tar/reader.rb:20-22 | an archive of only the terminator yields nothing, ends with no error and leaves the stream after the 1024 bytes |
| ArchiveReader.Expected | lib/tar/reader.rb:25 | the items a reader is expected to collect: one per entry, in archive order, each header with its body decoded |
| ArchiveReader.StepOverEntry | lib/tar/reader.rb:24-26 | past a header, with its body held after it, the turn yields the header and the decoded body and ends after the padding |
| ArchiveReader.NextOverImage | lib/tar/reader.rb:20-27 | a well-formed entry at the cursor is one turn yielding its header and decoded body, ending after its image |
| ArchiveReader.EntriesCons | lib/tar/reader.rb:20-27 | an entry read in full followed by a clean iteration is a clean iteration with that entry first |
| ArchiveReader.AllTurns | lib/tar/reader.rb:20-27 | in an archive held at `at`, every entry is one turn from its own start to the next one's, and the terminator follows the last |
| ArchiveReader.TurnsAddUp | lib/tar/reader.rb:20-27 | turns laid entry after entry add up, from any entry on, to the remaining expected items, no error, and the stream after the terminator |
| ArchiveReader.ReadsLayout | lib/tar/reader.rb:17-28 | for the well-formed entries of an archive held at `at`, the iteration yields them in archive order, each with its header and exactly `size` body bytes decoded, ends at the terminator with no error, and leaves the stream right after it, whatever follows |
| ArchiveReader.Reader.constructor | lib/tar/reader.rb:11-15 | the reader keeps the stream and the encoding options, and its header reader reads the same stream |
| ArchiveReader.Reader.Turn | lib/tar/reader.rb:21-26 | one turn of the loop equals the reference `EntryStep` for the stream's bytes and cursor, leaves the stream at the turn's end, and changes no bytes |
| ArchiveReader.Reader.Each | lib/tar/reader.rb:17-28 | the loop collects exactly the items, the error and the final cursor of the reference `Entries`, where every entry reader gets the reader's encoding options; a closed stream gives IOError at once |
| ArchiveWriter.FormatHeader | lib/tar/writer.rb:80-82 | the header written is always one 512-byte record, the formatter's own record when it makes one |
| ArchiveWriter.EntryBytes | lib/tar/writer.rb:63-66 | an entry is the header record, the body, then NULs up to the record boundary: `512 + records_size(size)` bytes, a whole number of records |
| ArchiveWriter.AddRefusals | lib/tar/writer.rb:27-29 | contents with a block is an ArgumentError first; a closed writer is an IOError next; a deferred size on a stream that cannot seek is SeekNotSupported; none of them writes |
| ArchiveWriter.AddContents | lib/tar/writer.rb:28-32 | contents alone is written with its byte size as the size, whatever `size:` says |
| ArchiveWriter.AddNothing | lib/tar/writer.rb:33-36 | neither contents nor a block writes just a header of size 0 |
| ArchiveWriter.DeferredSizeMatchesKnown | lib/tar/writer.rb:68-78 | leaving the size out and patching the placeholder writes the same bytes, and leaves the cursor in the same place, as giving the body's size up front |
| ArchiveWriter.AddAppends | lib/tar/writer.rb:27-39 | from a record boundary at the end of the stream, an `add` that succeeds appends whole records and leaves the cursor at the new end |
| ArchiveWriter.AddAllKeepsRecords | lib/tar/writer.rb:27-39 | successive `add` calls from a record boundary at the end keep the stream a whole number of records, keep what was there, and leave the cursor at the end |
| ArchiveWriter.Writer.constructor | lib/tar/writer.rb:12-14 | a new writer on the stream is not closed |
| ArchiveWriter.Writer.Create | lib/tar/writer.rb:12-16 | with a block, the `add` calls run until one fails and then the terminator is written and the writer closed in any case |
| ArchiveWriter.Writer.Close | lib/tar/writer.rb:18-21 | writes the 1024-byte terminator at the cursor and marks the writer closed; a closed stream fails with IOError and nothing changes |
| ArchiveWriter.Writer.AddEntry | lib/tar/writer.rb:27-39 | the outcome and the new stream are those of the reference `AddTo`: a refusal writes nothing, otherwise the entry is written at the cursor |
| ArchiveWriter.Writer.WriteWithSize | lib/tar/writer.rb:63-66 | writes the entry bytes for the given size at the cursor and moves past them |
| ArchiveWriter.Writer.WriteWithoutSize | lib/tar/writer.rb:68-78 | on a stream that cannot seek, SeekNotSupported before anything is written; otherwise the placeholder is overwritten by the header with the body's size, and the cursor ends after the padding |
| ArchiveWriter.Writer.WriteFile | lib/tar/writer.rb:88-93 | the block's chunks are written through a `File::Writer` entry writer and padded on close; the answer is the number of body bytes (Findings row 4's corrected form) |
| ArchiveWriter.AddAsWritten | lib/tar/writer.rb:88-93 | as written, every `add` that passes its refusals ends in NoMethodError with only its header (or the placeholder record) on the stream; a refusal writes nothing, as in `AddTo` |
| EntryWriter.Put | lib/tar/file/writer.rb:23-26 | the bytes land at the stream's cursor, `pos` moves by their count, and `bytes_written` becomes the larger of itself and the new `pos` |
| EntryWriter.PutAllWritesConcat | lib/tar/file/writer.rb:23-26 | writes in turn, while `pos` is at the furthest point written, put the chunks end to end and keep `bytes_written` equal to `pos` |
| EntryWriter.RewriteKeepsLength | lib/tar/file/writer.rb:25 | writing back over what was already written moves `pos` but does not grow `bytes_written` |
| EntryWriter.SeekPastEndZeroFills | lib/tar/file/writer.rb:23-26 | after a seek past the end of the stream, a write leaves NULs in the gap |
| EntryWriter.Finish | lib/tar/file/writer.rb:18-21 | `close` writes `records_padding(bytes_written)` NULs at the cursor and leaves `pos` and `bytes_written` alone |
| EntryWriter.ClosedBodyFillsRecords | lib/tar/file/writer.rb:18-26 | a fresh writer given some chunks and closed leaves the chunks then NULs, `records_size(bytes_written)` bytes in all, so the body ends on a record boundary |
| EntryWriter.SeekSink | lib/tar/file/base.rb:71-77 | an unknown mode is an ArgumentError; from the end of an entry of unknown size, NoMethodError; otherwise `pos` becomes the amount (SET), `pos` plus the amount (CUR) or the size plus the amount (END), and the stream moves by the same offset |
| EntryWriter.Writer.constructor | lib/tar/file/writer.rb:9-12 | a new writer is open, at `pos` 0, with nothing written |
| EntryWriter.Writer.Tell | lib/tar/file/base.rb:26-29 | IOError exactly when closed; otherwise `pos` |
| EntryWriter.Writer.Size | lib/tar/file/writer.rb:14-16 | the declared size when there is one, otherwise `bytes_written` |
| EntryWriter.Writer.SizeAsWritten | lib/tar/file/writer.rb:14-16 | as written, `super` finds no `size` in `File::Base`, so the call is a NoMethodError |
| EntryWriter.Writer.Write | lib/tar/file/writer.rb:23-26 | on an open stream the new state is `Put` of the old one; a closed stream refuses with IOError and nothing changes |
| EntryWriter.Writer.Close | lib/tar/file/writer.rb:18-21 | pads by `Finish` and marks the writer closed; a closed stream refuses and the writer stays open |
| EntryWriter.Writer.Seek | lib/tar/file/base.rb:71-77 | SeekNotSupported first, IOError next, then the outcome and new state of `SeekSink` |
| EntryWriter.Writer.SetPos | lib/tar/file/base.rb:32-34 | `pos = n` seeks to `n` from the start of the entry |
| EntryWriter.Writer.Rewind | lib/tar/file/base.rb:79-82 | seeks back to the start of the entry |
| LegacyWriter.DeclaredBodyFillsRecords | lib/tar/file_writer.rb:14-20 | when exactly `header.size` bytes were written, the body and the padding together are `records_size(header.size)` bytes, ending on a record boundary |
| LegacyWriter.PaddingIgnoresBody | lib/tar/file_writer.rb:14-16 | the padding follows the declared size only: a body of another length ends on a record boundary exactly when it differs from the declared size by whole records |
| LegacyWriter.FileWriter.constructor | lib/tar/file_writer.rb:9-12 | the writer keeps the header and the stream |
| LegacyWriter.FileWriter.Write | lib/tar/file_writer.rb:18-20 | the bytes go to the stream at its cursor unchanged, and the count is returned |
| LegacyWriter.FileWriter.Close | lib/tar/file_writer.rb:14-16 | `records_padding(header.size)` NULs at the cursor |
| EntryState.Pending | lib/tar/file/reader.rb:29-32 | never negative, and the bytes left to the declared size whenever there are any |
| EntryState.EofIffNothingPending | lib/tar/file/reader.rb:23-32 | `eof?` holds exactly when nothing is pending |
| EntryState.Truncate | lib/tar/file/reader.rb:223-225 | the smaller of `pending` and the length, `pending` when no length is given |
| EntryState.RawRead | lib/tar/file/reader.rb:47-48 | a negative count is an ArgumentError and 0 gives ""; at the end of the stream `@io.read` gives nil and `bytesize` fails; otherwise the next `min(n, what the stream holds)` bytes, with the cursor and `pos` moved by their count |
| EntryState.Read | lib/tar/file/reader.rb:44-55 | the stream's contents are never changed by a read |
| EntryState.ReadBounded | lib/tar/file/reader.rb:44-55 | `read(n)` gives at most `min(n, pending)` bytes, the next ones of the stream, moving `pos` by their count; exactly that many when the stream holds the rest of the entry; "" at the end of the entry; ArgumentError for a negative `n` |
| EntryState.ReadAllReachesEof | lib/tar/file/reader.rb:44-51 | `read()` gives the rest of the entry, encoded, and leaves the reader at its end |
| EntryState.ReadPartial | lib/tar/file/reader.rb:57-63 | like `read(max)`, at most `min(max, pending)` raw bytes, the next ones, with `pos` moved by their count; EOFError when the stream has nothing left though bytes are pending; a failure moves nothing |
| EntryState.GetByte | lib/tar/file/reader.rb:83-89 | nil at the end of the entry without moving; otherwise `pos` moves on by one and the next byte of the stream is returned, or nil with `pos` still moved when the stream itself is exhausted |
| EntryState.UngetByte | lib/tar/file/reader.rb:91-95 | `pos` drops by one; a byte comes back in front of what the stream delivers next, and nil leaves the stream alone |
| EntryState.UngetBytes | lib/tar/file/reader.rb:233-237 | pushing bytes back in reverse order puts them, in their own order, in front of what the stream delivers next, and `pos` drops by their count |
| EntryState.UngetBytesRestores | lib/tar/file/reader.rb:233-237 | pushing back the bytes just read restores the earlier state, stream contents included |
| EntryState.UngetByteRestores | lib/tar/file/reader.rb:91-95 | pushing back the byte just read steps back over it and leaves the contents as they were |
| EntryState.GetcLoop | lib/tar/file/reader.rb:122-129 | what the loop collected is the next bytes of the stream, the state is moved past them, and a valid character was found only after at least one more byte |
| EntryState.GetcLoopTurn | lib/tar/file/reader.rb:122-129 | one turn reads `min_char_size` bytes: an error ends the loop, a valid buffer ends it with that character, and otherwise the loop goes on from after the read |
| EntryState.Getc | lib/tar/file/reader.rb:115-134 | nil exactly at the end of the entry, without moving; a character returned is the encoding of exactly the bytes the reader moved over |
| EntryState.GetcEnds | lib/tar/file/reader.rb:115-134 | once the loop has read some bytes, `getc` finishes with them, and they are the next bytes of the stream |
| EntryState.GetcFails | lib/tar/file/reader.rb:122-126 | a read that fails inside the loop is the error of `getc` |
| EntryState.FinishGetc | lib/tar/file/reader.rb:126-133 | never nil once bytes were read; the character returned is the encoding of the bytes moved over |
| EntryState.UndoGetc | lib/tar/file/reader.rb:131-133 | keeping the first `min_char_size` bytes and pushing back the rest delivers the encoding of exactly those bytes and leaves the reader just after them |
| EntryState.UndoRestores | lib/tar/file/reader.rb:233-237 | pushing back all but the first `min_char_size` bytes read returns the reader to just after those bytes |
| EntryState.Ungetc | lib/tar/file/reader.rb:136-140 | the character, converted to the external encoding, comes back in front of what the stream delivers next, and `pos` drops by its byte count |
| EntryState.GetcUngetcRestores | lib/tar/file/reader.rb:115-140 | without an internal encoding, `ungetc` of what `getc` returned gives back the state before the `getc` |
| EntryState.UngetDelivered | lib/tar/file/reader.rb:136-140 | without an internal encoding, pushing back a character that was read restores the state before it was read |
| EntryState.LoopExhausts | lib/tar/file/reader.rb:122-129 | when no tried length is valid, the loop reads the whole window of `min(max_char_size, pending)` bytes and reports no character |
| EntryState.LoopFinds | lib/tar/file/reader.rb:122-129 | the loop stops at the first tried length whose bytes are a valid character |
| EntryState.GetcShortestValid | lib/tar/file/reader.rb:115-134 | `getc` returns the shortest tried prefix, of at most the maximum width, that is valid in the external encoding, and moves past exactly it |
| EntryState.GetcNoValid | lib/tar/file/reader.rb:131-133 | with no valid tried prefix, `getc` keeps the first `min_char_size` bytes and pushes the rest back; with fewer bytes than that it fails |
| EntryState.EachByte | lib/tar/file/reader.rb:103-108 | the loop ends at the end of the entry having yielded one item per pending position |
| EntryState.EachByteYieldsRest | lib/tar/file/reader.rb:103-108 | when the stream holds the rest of the entry, `each_byte` yields exactly those bytes and ends after them |
| EntryState.EachChar | lib/tar/file/reader.rb:148-153 | a loop that ends without error ends at the end of the entry, having moved the stream by as much as `pos` |
| EntryState.EachCharCoversBytes | lib/tar/file/reader.rb:148-153 | without an internal encoding, the characters `each_char` yields are, end to end, exactly the bytes it moved over |
| EntryState.EachCharUnfold | lib/tar/file/reader.rb:152 | before the end, `each_char` yields the character `getc` gives and then what the loop yields after it |
| EntryState.EachCharFails | lib/tar/file/reader.rb:152 | an error from `getc` stops `each_char` with that error |
| EntryState.SeekBy | lib/tar/file/base.rb:75-76 | the stream and `pos` both move by the offset; a target before the stream's start is refused |
| EntryState.SeekLands | lib/tar/file/base.rb:71-77 | SET, CUR and END land on the amount, `pos` plus the amount and the size plus the amount, moving the stream by the same offset; an unknown mode is an ArgumentError |
| EntryState.SkipTargetAsWritten | lib/tar/file/reader.rb:68 | as written, the target is `records_size(size)`, which for a size of -512 or less lies before the entry |
| EntryState.SkipAsWrittenGoesBack | lib/tar/file/reader.rb:68 | a declared size of -512 sends the skip, as written, 512 bytes back into the header; the corrected target is the entry's start |
| ArchiveReader.AsWrittenSkipGoesBack | lib/tar/file/reader.rb:65-76 | after a header of size -512, `read()` reads nothing; the skip as written seeks a seekable stream back to the header's start and refuses a non-seekable one with ArgumentError from `read(-512)`; the corrected skip stays at the body start |
| ArchiveReader.AsWrittenSkipRereadsHeader | lib/tar/reader.rb:20-27 | after the skip as written the header reader reads the same header again, so `each` as written never ends on a seekable stream |
| EntryState.SkipTarget | lib/tar/file/reader.rb:68 | for a size of at least 0, `records_size(size)`; always a record boundary at or after the end of the body, less than a record past it, and never before the entry |
| EntryState.Discard | lib/tar/file/reader.rb:73 | a negative count is an ArgumentError; otherwise the stream moves past what it holds of the bytes and `pos` is untouched |
| EntryState.SkipTo | lib/tar/file/reader.rb:65-76 | `pos` ends on the target; a seekable stream moves by the same offset, another one reads and drops the bytes up to it |
| LegacyReader.FileReader.constructor | lib/tar/file_reader.rb:16-23 | a new reader on the stream is open, at `pos` 0 and `lineno` 0, with the given encodings |
| LegacyReader.FileReader.Open | lib/tar/file_reader.rb:16-23 | `set_encoding` runs with both encodings given and fails with IOError on a closed stream; otherwise the reader starts at 0 with the settled encodings |
| LegacyReader.FileReader.Close | lib/tar/file_reader.rb:25-27 | marks the reader closed and changes nothing else |
| LegacyReader.FileReader.Eof | lib/tar/file_reader.rb:33-36 | IOError exactly when closed; otherwise true exactly when nothing of `header.size` is pending |
| LegacyReader.FileReader.Tell | lib/tar/file_reader.rb:39-42 | IOError exactly when closed; otherwise `pos` |
| LegacyReader.FileReader.PendingBytes | lib/tar/file_reader.rb:45-48 | IOError exactly when closed; otherwise `max(0, header.size - pos)` |
| LegacyReader.FileReader.Binmode | lib/tar/file_reader.rb:85-88 | IOError exactly when closed; otherwise whether the external encoding is BINARY with no internal encoding |
| LegacyReader.FileReader.SetLineno | lib/tar/file_reader.rb:14 | the plain accessor sets `lineno`, closed or not |
| LegacyReader.FileReader.Read | lib/tar/file_reader.rb:50-56 | IOError when closed; otherwise the answer and new state of the shared `Read` |
| LegacyReader.FileReader.Seek | lib/tar/file_reader.rb:96-101 | IOError when closed; otherwise the mode is checked first, then the stream refuses when it cannot seek, else the shared seek |
| LegacyReader.FileReader.SetPos | lib/tar/file_reader.rb:103-105 | `pos = n` seeks to `n`; a stream that cannot seek refuses |
| LegacyReader.FileReader.Rewind | lib/tar/file_reader.rb:107-110 | seeks to the start of the entry, then sets `lineno` to 0 |
| LegacyReader.FileReader.SkipToNextRecord | lib/tar/file_reader.rb:58-60 | the legacy seek (closed check, mode, then a stream that cannot seek refuses) to the end of the padded body, using the corrected target of the findings below |
| LegacyReader.FileReader.GetByte | lib/tar/file_reader.rb:112-117 | IOError when closed; otherwise the shared `GetByte` |
| LegacyReader.FileReader.UngetByte | lib/tar/file_reader.rb:119-123 | IOError when closed; otherwise the shared `UngetByte` |
| LegacyReader.FileReader.ReadByte | lib/tar/file_reader.rb:125-129 | EOFError at the end of the entry, where `getbyte` gives nil |
| LegacyReader.FileReader.EachByte | lib/tar/file_reader.rb:131-135 | the bytes collected and the final state are those of the shared `EachByte` |
| LegacyReader.FileReader.UngetAll | lib/tar/file_reader.rb:266-270 | pushing back bytes last first leaves the state `UngetBytes` gives |
| LegacyReader.FileReader.GetC | lib/tar/file_reader.rb:142-160 | IOError when closed; otherwise the answer and new state of the shared `Getc` |
| LegacyReader.FileReader.UngetC | lib/tar/file_reader.rb:162-166 | the character, converted to the external encoding, is pushed back as the shared `Ungetc` says |
| LegacyReader.FileReader.ReadChar | lib/tar/file_reader.rb:168-172 | EOFError at the end of the entry, otherwise what `getc` gives |
| LegacyReader.FileReader.EachChar | lib/tar/file_reader.rb:174-178 | the characters collected, the error and the final state are those of the shared `EachChar` |
| LegacyReader.FileReader.SetEncoding | lib/tar/file_reader.rb:72-79 | IOError when closed; otherwise the encodings `extract_encodings` and `find_encoding` settle on, with no byte-order mark looked for |
| LegacyReader.FileReader.SetBinmode | lib/tar/file_reader.rb:81-83 | BINARY external encoding, no internal encoding, no options |
| Line.LineEncoding | lib/tar/file/line.rb:54-56 | the line encoding is the internal encoding when one is set, otherwise the external one |
| Line.Separator | lib/tar/file/line.rb:76-86 | nil gives no separator; "" gives the separator "\n\n" and the skip character "\n" in the line encoding; any other string is converted to the line encoding; a value without `to_str` is a NoMethodError; on a closed reader the encoding lookup is an IOError |
| Line.Limit | lib/tar/file/line.rb:88-95 | only nil and integer-like arguments are accepted (else NoMethodError); nil and negative integers mean no limit; a kept limit equals the argument and is never negative |
| Line.ArgsShape | lib/tar/file/line.rb:8-24 | more than two arguments is exactly the ArgumentError case; no argument gives `$/` and no limit; a lone integer is a limit under `$/`; a lone non-integer sets no limit; a lone nil reads to the end (also lib/tar/file/line.rb:58-74) |
| Line.UnlimitedLimits | lib/tar/file/line.rb:88-95 | a negative limit parses exactly as a nil limit, with one argument or two |
| Line.ParagraphMode | lib/tar/file/line.rb:80-82 | `""` as the only argument gives paragraph mode: "\n\n" converted to the line encoding, skipping "\n", with no limit |
| Line.ReadLineLoop | lib/tar/file/line.rb:101-111 | the separator test comes first and raises Encoding::CompatibilityError, where the line stands, when the line and the separator's encodings cannot meet; otherwise the `getc` loop only extends the line, stops where `stop_reading?` first holds (a separator match counting only when it starts a character), and without an internal encoding the line is exactly the bytes the stream moved over (also lib/tar/file/line.rb:49) |
| Line.ReadLineOn | lib/tar/file/line.rb:49 | one turn of the loop inside the entry keeps the same promise as the whole loop: a line it returns passed the separator's compatibility test and ends where `stop_reading?` holds |
| Line.LoopAfterGetc | lib/tar/file/line.rb:49 | a turn that reads a character goes on with the line extended by exactly that character |
| Line.LimitStopsAfterChar | lib/tar/file/line.rb:101-111 | the limit is checked only between characters: a character that takes the line to or past the limit ends the loop with that whole character included (also lib/tar/file/line.rb:49) |
| Line.GetcMacron | lib/tar/file/reader.rb:115-134 | on "whā/" in UTF-8, `getc` after "wh" returns both bytes of "ā" and moves `pos` by two |
| Line.LimitExample | lib/tar/file/line.rb:109-111 | `gets("/", 3)` with "wh" read returns four bytes "whā": a line may exceed the limit by the rest of its last character |
| Line.ReadLine | lib/tar/file/line.rb:47-52 | a line returned passed the separator's compatibility test, ends where reading must stop, is the bytes moved over when there is no internal encoding, is non-empty when reading was not already over, and `lineno` grows by one exactly when the line ends with the separator on a character boundary |
| Line.ArgumentSeparatorNeverClashes | lib/tar/file/line.rb:81-84 | a separator given as an argument is converted to the line encoding, so its test never raises, whatever the line |
| Line.DefaultSeparatorClashes | lib/tar/file/line.rb:58-60 | with no separator argument `$/` keeps its own encoding, and against a non-empty line in a non-ASCII-superset encoding (UTF-16, UTF-32) its test raises |
| Line.ClashAfterFirstChar | lib/tar/file/line.rb:105-107 | with a separator that cannot meet the first character, `read_line` reads that character and then raises Encoding::CompatibilityError, the stream left after the character |
| Line.LineReadRaises | lib/tar/file/line.rb:26-33 | outside paragraph mode a raising `read_line` is a raising `Line#read`, with the same state |
| Line.GetcWide | lib/tar/file/reader.rb:115-134 | on 00 61 00 0A in UTF-16BE, `getc` returns the two bytes of "a" and moves `pos` by two |
| Line.WideGetsRaises | lib/tar/file/line.rb:105-107 | `gets` with the standard US-ASCII `$/` on a UTF-16BE entry holding 00 61 00 0A (`"a\n"`) reads "a" and raises Encoding::CompatibilityError with `pos` at 2, returning no line |
| Line.MatchStartsACharacter | lib/tar/file/line.rb:105-107 | `end_with?` counts a match only from a character start: UTF-8 "ā" does not end with byte 81 though binary does, and UTF-16LE needs an even offset |
| Line.SkipNewlines | lib/tar/file/line.rb:37-45 | skipping never changes `lineno` |
| Line.SkipNext | lib/tar/file/line.rb:38-43 | one turn of the skip loop inside the entry leaves `lineno` alone |
| Line.SkipMovesOverSkips | lib/tar/file/line.rb:37-45 | without an internal encoding, skipping moves over a run of whole skip characters and nothing else: the first other character is pushed back |
| Line.SkipOn | lib/tar/file/line.rb:39-40 | one skip character followed by a run of them is a run of them |
| Line.SkipsJoin | lib/tar/file/line.rb:37-45 | a skip character prepended to a run of skip characters is a run |
| Line.LineRead | lib/tar/file/line.rb:26-33 | reading a line moves the stream and `pos` forward together within the stream, and strictly forward inside the entry unless the separator is empty or the limit 0 |
| Line.Skip | lib/tar/file/line.rb:29-31 | no skip character means no move; otherwise a run of skip characters is passed over and `lineno` kept |
| Line.ReadToEofKeepsLineno | lib/tar/file/line.rb:27 | with neither separator nor limit the line is the encoded rest of the entry, `lineno` does not move and the entry is at its end (also lib/tar/file/line.rb:97-99) |
| Line.LinenoCountsSeparators | lib/tar/file/line.rb:47-52 | outside paragraph mode `lineno` moves by one exactly when the returned line ends with the separator (also lib/tar/file/line.rb:105-107) |
| Line.Gets | lib/tar/file/reader.rb:176-182 | argument errors come first, then IOError when closed, then nil at the end of the entry; inside the entry the answer is never nil |
| Line.ReadLineOrFail | lib/tar/file/reader.rb:184-189 | as `gets` with the same new state, except that exactly where `gets` answers nil it fails with EOFError |
| Line.EachLineIsRounds | lib/tar/file/reader.rb:191-197 | `each_line` as written is repeated `line.read` until `eof?` |
| Line.RoundsEnd | lib/tar/file/reader.rb:196 | rounds of any step that strictly consumes pending bytes reach the end of the entry within as many rounds as bytes pending, unless an error stops them |
| Line.LineStepMovesOn | lib/tar/file/line.rb:26-33 | with no internal encoding and no empty separator and no zero limit, every `line.read` inside the entry leaves fewer bytes pending |
| Line.RoundsReachEnd | lib/tar/file/reader.rb:191-197 | under those conditions `each_line` ends at the end of the entry unless an error stops it |
| Line.LineMovesOn | lib/tar/file/line.rb:26-33 | a successful line read inside the entry leaves fewer bytes pending and stays within the stream |
| Line.EachLineRound | lib/tar/file/reader.rb:196 | one round yields the line just read followed by the later rounds; an error in `line.read` ends the rounds with nothing yielded |
| Line.EachLineStops | lib/tar/file/reader.rb:196 | at the end of the entry `each_line` yields nothing and changes nothing |
| Line.ZeroLimitNeverEnds | lib/tar/file/line.rb:109-111 | with limit 0 every round yields "" without moving, so `each_line(0)` never reaches the end of the entry (Findings; also lib/tar/file/reader.rb:196) |
| Line.EachLine | lib/tar/file/reader.rb:191-197 | corrected `each_line`: a zero limit is an ArgumentError, and otherwise (no empty separator, no internal encoding) it ends at the end of the entry unless an error stops it |
| Line.EachLineOf | lib/tar/file/reader.rb:191-197 | argument errors come first, then IOError on a closed reader, before any line is read |
| EntryReader.Reader.constructor | lib/tar/file/reader.rb:17-21 | a new reader shares the given stream, holds the header, starts open at `pos` 0 and `lineno` 0 with the settled encodings (also lib/tar/file/base.rb:10-16) |
| EntryReader.Reader.Open | lib/tar/file/reader.rb:17-21 | a closed stream is an IOError; a "BOM\|..." external name fails with NoMethodError because `@header` is not yet set; otherwise a fresh open reader at 0 whose encodings are `set_encoding`'s settled pair (also lib/tar/file/base.rb:10-16, lib/tar/file/base.rb:46-54) |
| EntryReader.Reader.Close | lib/tar/file/base.rb:18-20 | the reader is closed and nothing else changes |
| EntryReader.Reader.Eof | lib/tar/file/reader.rb:23-26 | IOError exactly when closed; otherwise true exactly when nothing of the declared size is pending |
| EntryReader.Reader.Tell | lib/tar/file/base.rb:26-29 | IOError exactly when closed; otherwise `pos` |
| EntryReader.Reader.PendingBytes | lib/tar/file/reader.rb:29-32 | IOError exactly when closed; otherwise the non-negative rest of the declared size, zero once `pos` is past it |
| EntryReader.Reader.Lineno | lib/tar/file/reader.rb:34-37 | IOError exactly when closed; otherwise `lineno` |
| EntryReader.Reader.Binmode | lib/tar/file/base.rb:60-63 | IOError exactly when closed; otherwise true exactly when the external encoding is BINARY and there is no internal one |
| EntryReader.Reader.SetLineno | lib/tar/file/reader.rb:39-42 | succeeds exactly when open, and then sets `lineno`; a closed reader is an IOError and `lineno` is kept |
| EntryReader.Reader.Read | lib/tar/file/reader.rb:44-55 | IOError when closed; otherwise exactly the pure read of the entry state (`truncate` to what is pending, `pos` moved by what came, only `read()` transcoded) (also lib/tar/file/reader.rb:223-231) |
| EntryReader.Reader.ReadPartial | lib/tar/file/reader.rb:57-63 | IOError when closed; otherwise exactly the pure partial read, `pos` moved by what came |
| EntryReader.Reader.Seek | lib/tar/file/base.rb:71-77 | a stream that cannot seek fails first with SeekNotSupported, then a closed reader with IOError; otherwise the pure seek: the relativized offset moves stream and `pos` together and the answer is the new `pos` (also lib/tar/file/base.rb:99-106) |
| EntryReader.Reader.SetPos | lib/tar/file/base.rb:32-34 | `pos = n` moves stream and `pos` by `n - pos`, answering `n`, unless the stream would go before 0 |
| EntryReader.Reader.Rewind | lib/tar/file/base.rb:79-82 | back to the entry's first byte with `pos` and `lineno` 0, or InvalidSeek when the stream holds fewer bytes before the entry than `pos` |
| EntryReader.Reader.SkipToNextRecord | lib/tar/file/reader.rb:65-76 | IOError when closed; otherwise exactly the pure skip to the corrected target (end of the padded body), by seek or by reading |
| EntryReader.Reader.GetByte | lib/tar/file/reader.rb:83-89 | IOError when closed; otherwise exactly the pure `getbyte`: nil at the end of the entry, else the next byte with `pos` one on |
| EntryReader.Reader.UngetByte | lib/tar/file/reader.rb:91-95 | IOError when closed; otherwise the byte is pushed back and `pos` steps back by one, even for nil |
| EntryReader.Reader.ReadByte | lib/tar/file/reader.rb:97-101 | IOError when closed, EOFError at the end of the entry with nothing changed, otherwise as `getbyte` |
| EntryReader.Reader.EachByte | lib/tar/file/reader.rb:103-108 | IOError when closed; otherwise the loop yields exactly the pure `each_byte`: every pending byte in order, ending at the end of the entry |
| EntryReader.Reader.UngetAll | lib/tar/file/reader.rb:233-237 | pushing a run of bytes back last byte first leaves exactly the state of the pure push-back |
| EntryReader.Reader.GetC | lib/tar/file/reader.rb:115-134 | IOError when closed; otherwise the loop computes exactly the pure `getc`: bytes taken `min_char_size` at a time until they make a valid character or the largest size is reached, the attempt undone otherwise |
| EntryReader.Reader.UngetC | lib/tar/file/reader.rb:136-140 | IOError when closed; otherwise the character, converted back to the external encoding, is pushed back |
| EntryReader.Reader.ReadChar | lib/tar/file/reader.rb:142-146 | IOError when closed, EOFError at the end of the entry with nothing changed, otherwise as `getc` |
| EntryReader.Reader.EachChar | lib/tar/file/reader.rb:148-153 | IOError when closed; otherwise exactly the pure `each_char` |
| EntryReader.Reader.ParseBom | lib/tar/file/reader.rb:239-247 | the mark is looked for only at `pos` 0; the result and the new state are those of the pure BOM walk |
| EntryReader.Reader.WalkBomTree | lib/tar/file/reader.rb:249-254 | the recursive walk computes exactly the pure walk of the mark tree, pushing back each byte (nil included) below which nothing was found |
| EntryReader.Reader.SetEncoding | lib/tar/file/base.rb:46-54 | IOError when closed; otherwise the new state and encodings are the pure `set_encoding`'s, an error leaving the encodings as they were (also lib/tar/file/reader.rb:211-215) |
| EntryReader.Reader.SetBinmode | lib/tar/file/base.rb:56-58 | on an open reader, BINARY with no internal encoding and no options; nothing is read |
| EntryReader.Reader.SkipNewlines | lib/tar/file/line.rb:37-45 | the loop computes exactly the pure `skip_newlines` |
| EntryReader.Reader.SkipIf | lib/tar/file/line.rb:29-31 | skipping only when a skip character is set, as the pure `Skip` |
| EntryReader.Reader.ReadLineOf | lib/tar/file/line.rb:47-52 | the `getc` loop computes exactly the pure `read_line`, the separator's Encoding::CompatibilityError and `lineno` included |
| EntryReader.Reader.LineOnce | lib/tar/file/line.rb:26-33 | exactly the pure `Line#read` |
| EntryReader.Reader.Gets | lib/tar/file/reader.rb:176-182 | exactly the pure `gets`: argument errors first, then closed, then nil at the end of the entry |
| EntryReader.Reader.ReadLine | lib/tar/file/reader.rb:184-189 | exactly the pure `readline` |
| EntryReader.Reader.EachLine | lib/tar/file/reader.rb:191-197 | the collected lines and error are the corrected `each_line`'s (a zero limit refused), within `fuel` rounds |
| EntryReader.Reader.LineRounds | lib/tar/file/reader.rb:196 | the loop yields exactly the rounds of `line.read` until `eof?` |
| EntryReader.Reader.ReadLines | lib/tar/file/reader.rb:205-207 | the lines of the corrected `each_line` (a zero limit refused), or the error that stopped it |
| Bom.Child | lib/tar/file/reader.rb:251 | `tree.key?(byte)`: the index found holds the byte read; none is found for nil or a byte no child holds |
| Bom.Sniff | lib/tar/file/reader.rb:256-261 | the marks as a table: an encoding is announced exactly when a non-zero number of mark bytes is consumed |
| Bom.WalkMiss | lib/tar/file/reader.rb:250-253 | a byte that continues no mark at this level is pushed back at once and the level's encoding (if any) is the answer |
| Bom.ChildFromFinds | lib/tar/file/reader.rb:251 | the first child holding the byte is the one found |
| Bom.WalkDown | lib/tar/file/reader.rb:249-254 | a byte that continues a mark leads one level down; the byte is pushed back exactly when nothing is found below |
| Bom.BackOne | lib/tar/file/reader.rb:91-95 | pushing back the byte just read restores the state |
| Bom.SniffUtf8 | lib/tar/file/reader.rb:258 | EF BB BF followed by another byte of the entry: UTF-8, the three mark bytes consumed |
| Bom.SniffUtf16BE | lib/tar/file/reader.rb:259 | FE FF followed by another byte: UTF-16BE, two bytes consumed |
| Bom.SniffUtf32BE | lib/tar/file/reader.rb:257 | 00 00 FE FF followed by another byte: UTF-32BE, four bytes consumed |
| Bom.SniffUtf32LE | lib/tar/file/reader.rb:260 | FF FE 00 00 followed by another byte: UTF-32LE, four bytes consumed |
| Bom.SniffUtf16LE | lib/tar/file/reader.rb:260 | FF FE not followed by 00 00: UTF-16LE, exactly the two mark bytes consumed and the bytes after them pushed back |
| Bom.MissAfter00 | lib/tar/file/reader.rb:257 | 00 not followed by 00 FE FF: nothing found and every byte read pushed back |
| Bom.MissAfterEF | lib/tar/file/reader.rb:258 | EF not followed by BB BF: nothing found and every byte read pushed back |
| Bom.MissOther | lib/tar/file/reader.rb:256-261 | a first two bytes that begin no mark: nothing found, state unchanged |
| Bom.SniffNone | lib/tar/file/reader.rb:249-261 | bytes the table finds no mark in leave the state unchanged |
| Bom.WalkSniffs | lib/tar/file/reader.rb:249-261 | with room for the walk, walking the tree finds exactly the table's mark and consumes exactly its bytes |
| Bom.ParseBom | lib/tar/file/reader.rb:243-247 | away from `pos` 0 nothing is read and nothing found |
| Bom.ExactMarkLeavesPosBehind | lib/tar/file/reader.rb:250-252 | an entry holding exactly EF BB BF is UTF-8, but the nil read at its end is pushed back, so `pos` is 2 while the stream moved 3 (also lib/tar/file/reader.rb:91-95) |
| Bom.EmptyEntryGoesNegative | lib/tar/file/reader.rb:250-252 | in an empty entry the nil pushed back leaves `pos` at -1 (also lib/tar/file/reader.rb:91-95) |
| Bom.SetEncoding | lib/tar/file/reader.rb:211-215 | more than one internal argument is exactly the ArgumentError case, and an error reads nothing (also lib/tar/file/base.rb:46-54) |
| Bom.PlainNameReadsNothing | lib/tar/file/reader.rb:213 | a name without "BOM\|" resolves as in any file and reads nothing (also lib/tar/file/reader.rb:239-241) |
| Bom.BomSelectsEncoding | lib/tar/file/reader.rb:211-215 | "BOM\|X" at `pos` 0 with room: a mark found becomes the external encoding and is consumed; with none, nothing is consumed and X is looked up; the internal encoding is resolved as usual |
| Bom.BomOnlyAtStart | lib/tar/file/reader.rb:213 | away from `pos` 0 "BOM\|X" is just X and nothing is read (also lib/tar/file/reader.rb:244) |
| FileBase.Relativize | lib/tar/file/base.rb:99-106 | the offset found takes `pos` to the target: `amount` for SET, `pos + amount` for CUR, `size + amount` for END; an unknown mode is an ArgumentError; END on a writer, which has no size, is a NoMethodError |
| FileBase.IndexOf | lib/tar/file/base.rb:94 | the first occurrence of the character, or the length when it does not occur |
| FileBase.SplitColon | lib/tar/file/base.rb:94 | `split(":", 2)`: nothing for "", the whole name without a colon, otherwise the part before the first colon and everything after it, which join back to the name |
| FileBase.ExtractEncodings | lib/tar/file/base.rb:90-95 | more than one internal argument is exactly the ArgumentError case; a given internal argument is passed through; nil or an Encoding external gives no internal; a name with no internal argument is split at its first colon |
| FileBase.FindEncoding | lib/tar/file/base.rb:108-115 | nil and "" give the `if_nil` value, an Encoding is itself, a known name is found, an unknown name gives the `if_unsupported` value |
| FileBase.Settle | lib/tar/file/base.rb:51-52 | the external encoding falls back to the default external one in both cases; the internal one is nil when missing and the default internal one when unknown |
| FileBase.ResolveEncodings | lib/tar/file/base.rb:46-54 | `set_encoding` fails exactly when more than one internal argument is given, and then with ArgumentError |
| FileBase.ColonNamesBoth | lib/tar/file/base.rb:94 | "EXT:INT" with both names known selects both encodings (also lib/tar/file/base.rb:108-115) |
| FileBase.PrefixBeforeColon | lib/tar/file/base.rb:94 | text before the first colon and text after it determine a colon-joined name uniquely |
| FileBase.FirstColon | lib/tar/file/base.rb:94 | the first colon of "a:b" is right after a colon-free `a` |
| FileBase.DefaultsWhenMissing | lib/tar/file/base.rb:109 | nil or "" names pick the default external encoding and no internal one |
| FileBase.UnknownFallsBack | lib/tar/file/base.rb:112-114 | unknown names fall back to the defaults rather than fail |
| FileBase.BinmodeSetsBinmode | lib/tar/file/base.rb:56-63 | after `binmode`, `binmode?` holds |
| Encoding.MinMax | lib/tar/file/reader.rb:120-122 | the smallest character width is between 1 and 4, at most the largest, and divides it, so `getc` reaches the largest width in whole steps |
| Encoding.Utf8CharLen | lib/tar/file/reader.rb:125-126 | the length of the leading UTF-8 character is at most 4 and at most what is there, and 0 for no bytes |
| Encoding.ShortIsInvalid | lib/tar/file/reader.rb:122-126 | fewer bytes than the smallest character width are never a valid character |
| Encoding.SingleBytesValid | lib/tar/file/reader.rb:122-126 | in a one-byte encoding every byte (below 0x80 for US-ASCII) is a character, so `getc` takes one byte there |
| Encoding.AsciiValidUtf8 | lib/tar/file/reader.rb:126 | an ASCII byte is a whole UTF-8 character |
| Encoding.Encode | lib/tar/file/reader.rb:227-231 | without an internal encoding the data is returned unchanged |
| Encoding.Convert | lib/tar/file/line.rb:81-84 | converting between equal encodings changes nothing |
| Bytes.Zeros | lib/tar/writer.rb:85 | `"\0" * n` is `n` NUL bytes (also lib/tar/file_writer.rb:15) |
| Bytes.Spaces | lib/tar/schema.rb:22 | `" " * n` is `n` spaces |
| Bytes.SumAppend | lib/tar/checksum.rb:9 | the byte sum of a concatenation is the sum of the sums |
| Bytes.SumBounds | lib/tar/checksum.rb:9 | a byte sum lies between 0 and 255 times the length |
| Bytes.SumConstant | lib/tar/checksum.rb:9 | the sum of `n` copies of a byte is `n` times it |
| Bytes.SumUpdate | lib/tar/checksum.rb:9 | replacing one byte changes the sum by exactly the difference of the two bytes |
| EntryWriter.Writer.Open | lib/tar/file/writer.rb:9-12 | a closed stream is an IOError (from `set_encoding`); otherwise a fresh open writer on the stream with the declared size, at `pos` 0 with nothing written (also lib/tar/file/base.rb:10-16) |
| HeaderReader.ReadHeader | lib/tar/header_reader.rb:16-26 | reading a header never takes more bytes than the stream still holds |
| HeaderSchema.HeaderWidth | lib/tar/header.rb:9-26 | the sixteen declared header fields are 500 bytes wide together |
| HeaderSchema.DeclaredHeader | lib/tar/header.rb:9-26 | laying out the declarations gives exactly the ustar field table |
| HeaderSchema.UstarChecksumField | lib/tar/header.rb:16 | the table's checksum entry is an octal number of 8 bytes at offset 148 |
| Header.FieldValue | lib/tar/header.rb:32-36 | the value parsed for a field is that field decoded from its own bytes |
| Header.NumberField | lib/tar/header.rb:32-36 | a numeric field's value is the octal number in its own bytes |
| Header.StringField | lib/tar/header.rb:32-36 | a string field's value is the text of its own bytes |
| Schema.OctalValueOfDigits | lib/tar/schema.rb:76-78 | the octal spelling of `n` reads back as `n` |
| Schema.StripTrailingKeeps | lib/tar/schema.rb:71-74 | text that ends in neither space nor NUL survives the `A` directive when any run of spaces and NULs follows it |
| Schema.PaddedValue | lib/tar/schema.rb:76-78 | zero-padded octal digits of `n` are all octal digits and read as `n` |
| EntryState.StreamSeek | lib/tar/file_reader.rb:96-101 | the older reader checks the mode first (ArgumentError), then a stream that cannot seek refuses with ESPIPE; a seekable stream seeks as the entry reader does |
| ArchiveReader.HeaderOfImage | lib/tar/reader.rb:21-22 | the header reader returns the header of a well-formed entry whose image the stream holds, taking one record (also lib/tar/header_reader.rb:16-26) |
| ArchiveReader.TurnsFromStart | lib/tar/reader.rb:17-28 | turns laid entry after entry from the first start are the whole iteration: the expected items, no error, the stream after the terminator |

## Left out

- Host I/O is an abstract `Stream` over a byte sequence. Whether the host object can seek is a flag, not a `respond_to?(:seek)` probe, and host I/O errors other than a closed stream or a refused seek are not modelled.
- Transcoding, `Encoding.find`, the default external and internal encodings, and `$/` with its encoding come from an `Env` value given as a parameter. Transcoding is a function field whose behaviour is not modelled; only the identity case (no internal encoding, or equal encodings) is stated.
- `CharSize` (lib/char_size.rb) is not part of this model. Its widths are given per encoding by `Encoding.MinMax`.
- `Header.create` and header formatting are not part of this model. `Tar::Writer` takes them as a `Formatter` function parameter, assumed to return a 512-byte record.
- `String#oct` is modelled as leading whitespace, an optional sign and a run of octal digits. Radix prefixes (`0x`, `0b`, `0o`) and underscores are not modelled.
- The older reader's `gets`, `readline`, `each_line` and `readlines` use tar/file_reader/line.rb, which is not part of this model.
- `tty?`/`isatty`, the buffer arguments of `read` and `readpartial`, the deprecated aliases (`bytes`, `chars`, `lines`, `codepoints`), `each_codepoint`, `warn` messages and the enumerators returned without a block are not modelled.
- Exception messages are not modelled; an error is its class only.
- Line.EachLine: it takes a `fuel` bound on the rounds, because `each_line` as written need not end (see Findings). It ends at the end of the entry only when the fuel is at least the pending byte count, and this is proved only when there is no internal encoding.
- EntryReader.Reader.EachLine: it is bounded by `fuel` in the same way, and it refuses a limit of 0 with ArgumentError where the code as written loops for ever (Findings row 2).
- EntryReader.Reader.ReadLines: it is bounded by `fuel` in the same way, and it refuses a limit of 0 with ArgumentError where the code as written loops for ever (Findings row 2).
- Line.LineRead: that a line read moves forward is proved only without an internal encoding. With one, the line is transcoded and its length no longer measures the move.
- HeaderReader.ReadHeader: its own contract states only that it takes no more than the stream holds. What it returns is stated by the HeaderReader lemmas above.
- The reference record of the header tests is not restated byte for byte. Its octal fields are shown by `Schema.OctalModeExample` and `Schema.OctalSizeExample`.
- Where the code and the library's documentation differ, the model follows the code:
  - `File::Writer#write` has no closed check of its own; only a closed stream refuses it.
  - `Writer#close` does not refuse a second close.
- The byte-order-mark walk pushes back the nil read at the end of the entry, which moves `pos` back without moving the stream. This is reproduced, and so is the NoMethodError of a "BOM|" name given to `File::Reader.new` before `@header` is set (`Bom.ExactMarkLeavesPosBehind`, `Bom.EmptyEntryGoesNegative`, `EntryReader.Reader.Open`).
- ArchiveReader.RunEntry: it skips to the corrected target `SkipTarget(size)` (Findings row 1). As written, a declared size of -512 or less sends the skip before the entry's start: a seekable stream goes back into the header, a stream that cannot seek raises ArgumentError from `read` of a negative count.
- ArchiveReader.EntryStep: it skips to the corrected target `SkipTarget(size)` (Findings row 1). As written, a declared size of -512 or less sends the skip before the entry's start: a seekable stream goes back into the header, a stream that cannot seek raises ArgumentError from `read` of a negative count.
- ArchiveReader.StepAfter: it skips to the corrected target `SkipTarget(size)` (Findings row 1). As written, a declared size of -512 or less sends the skip before the entry's start: a seekable stream goes back into the header, a stream that cannot seek raises ArgumentError from `read` of a negative count.
- ArchiveReader.Reader.Turn: it skips to the corrected target `SkipTarget(size)` (Findings row 1). As written, a declared size of -512 or less sends the skip before the entry's start: a seekable stream goes back into the header, a stream that cannot seek raises ArgumentError from `read` of a negative count.
- ArchiveReader.Reader.Each: it skips to the corrected target `SkipTarget(size)` (Findings row 1). As written, a declared size of -512 or less sends the skip before the entry's start: a seekable stream goes back into the header, a stream that cannot seek raises ArgumentError from `read` of a negative count. So `each` as written never ends on a seekable stream after such a header; `Entries`, which `Each` is proved against, uses the corrected target too.
- EntryReader.Reader.SkipToNextRecord: it skips to the corrected target `SkipTarget(size)` (Findings row 1). As written, a declared size of -512 or less sends the skip before the entry's start: a seekable stream goes back into the header, a stream that cannot seek raises ArgumentError from `read` of a negative count.
- LegacyReader.FileReader.SkipToNextRecord: it skips to the corrected target `SkipTarget(size)` (Findings row 1). As written, a declared size of -512 or less sends the skip before the entry's start: a seekable stream goes back into the header, a stream that cannot seek raises ArgumentError from `read` of a negative count.
- ArchiveWriter.Writer.WriteFile: it writes through a `File::Writer` of the declared size, which the tests of `add` expect. As written, `FileWriter.new(@io, size: size)` builds the older `Tar::FileWriter` on the wrong arguments (Findings row 4).
- Line.ReadLineLoop: `String#end_with?`'s encoding rules are modelled as Ruby's `rb_enc_compatible` and Onigmo's left-adjust rule for the encodings here. The single-byte table encodings are taken to be ASCII supersets.
- Concurrency and a stream shared with other writers are not modelled.

## Findings

| source | as written | input that shows it | evidently intended | confidence | as-written member | corrected member |
|---|---|---|---|---|---|---|
| lib/tar/file/reader.rb:68 | `skip_to_next_record` targets `records_size(header.size)`, which is negative for a size of -512 or less (an octal size field may carry a sign) | a header whose size field reads -512: the target is -512, which sends the reader back into the header record; `Reader#each` then reads the same header again for ever on a seekable stream, and raises ArgumentError from `read(-512)` on one that cannot seek (`ArchiveReader.AsWrittenSkipGoesBack`, `ArchiveReader.AsWrittenSkipRereadsHeader`) | the target is never before the entry's start | not executed | EntryState.SkipAsWrittenGoesBack | EntryState.SkipTarget |
| lib/tar/file/line.rb:109-111 | with a limit of 0, `reached_limit?` holds for the empty line, so `read_line` reads nothing and `each_line(0)` loops for ever yielding "" | `each_line(0)` on any entry with bytes pending | a zero limit is refused with ArgumentError, as Ruby's own `IO#each_line` does | not executed | Line.ZeroLimitNeverEnds | Line.EachLine |
| lib/tar/file/writer.rb:14-16 | `size` calls `super` first, but neither `File::Base` nor `Seekable` defines `size`, so every call raises NoMethodError | `File::Writer.new(io:, size: 42)` followed by `size` | the declared size when there is one, otherwise `bytes_written` | not executed | EntryWriter.Writer.SizeAsWritten | EntryWriter.Writer.Size |
| lib/tar/writer.rb:89 | `write_file` builds `FileWriter.new(@io, size: size)`; with `Tar::FileWriter#initialize(header, io)` Ruby binds `header` to the stream and `io` to the hash `{size: size}`, and the first `write` or the `close` calls `write` on that hash | `add(contents: "x")` on any open writer: the header record is written, then NoMethodError | the entry writer is `File::Writer.new(io: @io, size: size)`, as the tests of `add` expect | not executed | ArchiveWriter.AddAsWritten | ArchiveWriter.Writer.WriteFile |
