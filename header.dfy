/** A parsed ustar header: the decoded values of its sixteen fields. A header never
    changes once built. */
module Header {
  import opened Bytes
  import opened Wrappers
  import opened Errors
  import Schema
  import opened HeaderSchema
  import Checksum

  datatype Header = Header(
    name: Option<seq<byte>>,
    mode: int,
    uid: int,
    gid: int,
    size: int,
    mtime: int,
    checksum: int,
    typeflag: Option<seq<byte>>,
    linkName: Option<seq<byte>>,
    magic: Option<seq<byte>>,
    version: Option<seq<byte>>,
    uname: Option<seq<byte>>,
    gname: Option<seq<byte>>,
    devMajor: int,
    devMinor: int,
    prefix: Option<seq<byte>>)

  const SLASH: byte := 0x2F

  /** The string a decoded field holds; nil unless it is a string field. */
  function TextOf(values: seq<(string, Schema.Value)>, name: string): Option<seq<byte>>
  {
    var v := Schema.Lookup(values, name);
    if v.Some? && v.value.Text? then v.value.text else None
  }

  /** The number a decoded field holds (a timestamp as seconds since the epoch). */
  function NumberOf(values: seq<(string, Schema.Value)>, name: string): int
  {
    var v := Schema.Lookup(values, name);
    if v.Some? && v.value.Number? then v.value.number
    else if v.Some? && v.value.Time? then v.value.seconds
    else 0
  }

  /** `Header.new(values)` together with its accessors, each of which fetches its field. */
  function FromValues(values: seq<(string, Schema.Value)>): Header
  {
    Header(
      TextOf(values, "name"), NumberOf(values, "mode"), NumberOf(values, "uid"),
      NumberOf(values, "gid"), NumberOf(values, "size"), NumberOf(values, "mtime"),
      NumberOf(values, "checksum"), TextOf(values, "typeflag"), TextOf(values, "link_name"),
      TextOf(values, "magic"), TextOf(values, "version"), TextOf(values, "uname"),
      TextOf(values, "gname"), NumberOf(values, "dev_major"), NumberOf(values, "dev_minor"),
      TextOf(values, "prefix"))
  }

  /** A NUL-terminated string field at a fixed place in the record; nil when empty. */
  function TextField(record: seq<byte>, offset: nat, size: nat): (r: Option<seq<byte>>)
  {
    var s := Schema.UntilNul(Schema.Take(Schema.Drop(record, offset), size));
    if s == [] then None else Some(s)
  }

  /** An octal field at a fixed place in the record. */
  function OctalField(record: seq<byte>, offset: nat, size: nat): int
  {
    Schema.Oct(Schema.StripTrailing(Schema.Take(Schema.Drop(record, offset), size)))
  }

  /** The header a record describes, read straight from the ustar field offsets: an
      independent reference for `Parse`. */
  function Decoded(record: seq<byte>): Header
  {
    Header(
      TextField(record, 0, 100), OctalField(record, 100, 8), OctalField(record, 108, 8),
      OctalField(record, 116, 8), OctalField(record, 124, 12), OctalField(record, 136, 12),
      OctalField(record, 148, 8), TextField(record, 156, 1), TextField(record, 157, 100),
      TextField(record, 257, 6), TextField(record, 263, 2), TextField(record, 265, 32),
      TextField(record, 297, 32), OctalField(record, 329, 8), OctalField(record, 337, 8),
      TextField(record, 345, 155))
  }

  /** The checksum the record claims for itself. */
  function StoredChecksum(record: seq<byte>): int
  {
    OctalField(record, CHECKSUM_OFFSET, CHECKSUM_SIZE)
  }

  /** `path`: the name, behind the prefix and a slash when there is a prefix (a missing
      name then reads as the empty string). */
  function Path(h: Header): (r: Option<seq<byte>>)
    ensures h.prefix.None? ==> r == h.name
    ensures h.prefix.Some? ==> r.Some? && |r.value| == |h.prefix.value| + 1 + |h.name.GetOr([])|
                               && r.value[..|h.prefix.value|] == h.prefix.value
                               && r.value[|h.prefix.value|] == SLASH
                               && r.value[|h.prefix.value| + 1..] == h.name.GetOr([])
  {
    if h.prefix.None? then h.name
    else Some(h.prefix.value + [SLASH] + h.name.GetOr([]))
  }

  /** The values `SCHEMA.parse(record)` delivers, one per header field. */
  function ParsedValues(record: seq<byte>): seq<(string, Schema.Value)>
  {
    Schema.Parse(SCHEMA, record)
  }

  /** Each decoded value is found under its field's name and comes from that field's bytes. */
  lemma FetchField(record: seq<byte>, i: nat)
    requires i < |HEADER_DECLS|
    ensures Schema.Lookup(ParsedValues(record), HEADER_DECLS[i].name)
         == Some(Schema.ParseValue(HEADER_DECLS[i].kind,
                                   Schema.FieldBytes(record, USTAR_FIELDS[i].1)))
  {
    HeaderDeclsDistinct();
    Schema.ParseFieldwise(HEADER_DECLS, record);
    SchemaLayout();
    var values := ParsedValues(record);
    forall j | 0 <= j < i
      ensures values[j].0 != HEADER_DECLS[i].name
    {
      assert values[j].0 == HEADER_DECLS[j].name;
    }
    Schema.LookupAt(values, HEADER_DECLS[i].name, i);
  }

  /** The same, for a field named by its place in the layout. */
  lemma FieldValue(record: seq<byte>, i: nat, name: string, kind: Schema.Kind, offset: nat, size: nat)
    requires i < |HEADER_DECLS| && HEADER_DECLS[i] == Schema.Decl(name, kind, size)
    requires USTAR_FIELDS[i].1 == Schema.FieldType(kind, size, offset)
    ensures Schema.Lookup(ParsedValues(record), name)
         == Some(Schema.ParseValue(kind, Schema.Take(Schema.Drop(record, offset), size)))
  {
    FetchField(record, i);
  }

  lemma StoredChecksumParsed(record: seq<byte>)
    ensures NumberOf(ParsedValues(record), "checksum") == StoredChecksum(record)
  {
    DecodesChecksum(record);
  }

  /** `Header.parse(record)`: decode the fields, then check the stored checksum against the
      computed one. */
  function Parse(record: seq<byte>): (r: Result<Header, Error>)
    ensures r.Ok? <==> |record| >= CHECKSUM_OFFSET && Checksum.Value(record).value == StoredChecksum(record)
    ensures |record| < CHECKSUM_OFFSET ==> r == Err(IndexError)
    ensures |record| >= CHECKSUM_OFFSET && r.Err? ==>
              r.error == ChecksumMismatch(StoredChecksum(record), Checksum.Value(record).value)
  {
    var values := ParsedValues(record);
    StoredChecksumParsed(record);
    match Checksum.Value(record)
    case Err(e) => Err(e)
    case Ok(actual) =>
      match Checksum.Check(actual, NumberOf(values, "checksum"))
      case Fail(e) => Err(e)
      case Pass => Ok(FromValues(values))
  }

  lemma NumberField(record: seq<byte>, i: nat, name: string, kind: Schema.Kind, offset: nat, size: nat)
    requires i < |HEADER_DECLS| && HEADER_DECLS[i] == Schema.Decl(name, kind, size) && kind != Schema.Str
    requires USTAR_FIELDS[i].1 == Schema.FieldType(kind, size, offset)
    ensures NumberOf(ParsedValues(record), name) == OctalField(record, offset, size)
  {
    FieldValue(record, i, name, kind, offset, size);
  }

  lemma StringField(record: seq<byte>, i: nat, name: string, offset: nat, size: nat)
    requires i < |HEADER_DECLS| && HEADER_DECLS[i] == Schema.Decl(name, Schema.Str, size)
    requires USTAR_FIELDS[i].1 == Schema.FieldType(Schema.Str, size, offset)
    ensures TextOf(ParsedValues(record), name) == TextField(record, offset, size)
  {
    FieldValue(record, i, name, Schema.Str, offset, size);
  }

  // One lemma per field keeps each proof about the literal layout small.

  lemma DecodesMode(record: seq<byte>)
    ensures NumberOf(ParsedValues(record), "mode") == OctalField(record, 100, 8)
  {
    NumberField(record, 1, "mode", Schema.OctalNumber, 100, 8);
  }

  lemma DecodesUid(record: seq<byte>)
    ensures NumberOf(ParsedValues(record), "uid") == OctalField(record, 108, 8)
  {
    NumberField(record, 2, "uid", Schema.OctalNumber, 108, 8);
  }

  lemma DecodesGid(record: seq<byte>)
    ensures NumberOf(ParsedValues(record), "gid") == OctalField(record, 116, 8)
  {
    NumberField(record, 3, "gid", Schema.OctalNumber, 116, 8);
  }

  lemma DecodesSize(record: seq<byte>)
    ensures NumberOf(ParsedValues(record), "size") == OctalField(record, 124, 12)
  {
    NumberField(record, 4, "size", Schema.OctalNumber, 124, 12);
  }

  lemma DecodesMtime(record: seq<byte>)
    ensures NumberOf(ParsedValues(record), "mtime") == OctalField(record, 136, 12)
  {
    NumberField(record, 5, "mtime", Schema.Timestamp, 136, 12);
  }

  lemma DecodesChecksum(record: seq<byte>)
    ensures NumberOf(ParsedValues(record), "checksum") == OctalField(record, 148, 8)
  {
    NumberField(record, 6, "checksum", Schema.OctalNumber, 148, 8);
  }

  lemma DecodesDevMajor(record: seq<byte>)
    ensures NumberOf(ParsedValues(record), "dev_major") == OctalField(record, 329, 8)
  {
    NumberField(record, 13, "dev_major", Schema.OctalNumber, 329, 8);
  }

  lemma DecodesDevMinor(record: seq<byte>)
    ensures NumberOf(ParsedValues(record), "dev_minor") == OctalField(record, 337, 8)
  {
    NumberField(record, 14, "dev_minor", Schema.OctalNumber, 337, 8);
  }

  lemma DecodesName(record: seq<byte>)
    ensures TextOf(ParsedValues(record), "name") == TextField(record, 0, 100)
  {
    StringField(record, 0, "name", 0, 100);
  }

  lemma DecodesTypeflag(record: seq<byte>)
    ensures TextOf(ParsedValues(record), "typeflag") == TextField(record, 156, 1)
  {
    StringField(record, 7, "typeflag", 156, 1);
  }

  lemma DecodesLinkName(record: seq<byte>)
    ensures TextOf(ParsedValues(record), "link_name") == TextField(record, 157, 100)
  {
    StringField(record, 8, "link_name", 157, 100);
  }

  lemma DecodesMagic(record: seq<byte>)
    ensures TextOf(ParsedValues(record), "magic") == TextField(record, 257, 6)
  {
    StringField(record, 9, "magic", 257, 6);
  }

  lemma DecodesVersion(record: seq<byte>)
    ensures TextOf(ParsedValues(record), "version") == TextField(record, 263, 2)
  {
    StringField(record, 10, "version", 263, 2);
  }

  lemma DecodesUname(record: seq<byte>)
    ensures TextOf(ParsedValues(record), "uname") == TextField(record, 265, 32)
  {
    StringField(record, 11, "uname", 265, 32);
  }

  lemma DecodesGname(record: seq<byte>)
    ensures TextOf(ParsedValues(record), "gname") == TextField(record, 297, 32)
  {
    StringField(record, 12, "gname", 297, 32);
  }

  lemma DecodesPrefix(record: seq<byte>)
    ensures TextOf(ParsedValues(record), "prefix") == TextField(record, 345, 155)
  {
    StringField(record, 15, "prefix", 345, 155);
  }

  /** A header that parses holds exactly the values at the ustar field offsets. */
  lemma ParseDecodes(record: seq<byte>)
    requires Parse(record).Ok?
    ensures Parse(record).value == Decoded(record)
  {
    DecodesMode(record);
    DecodesUid(record);
    DecodesGid(record);
    DecodesSize(record);
    DecodesMtime(record);
    DecodesChecksum(record);
    DecodesDevMajor(record);
    DecodesDevMinor(record);
    DecodesName(record);
    DecodesTypeflag(record);
    DecodesLinkName(record);
    DecodesMagic(record);
    DecodesVersion(record);
    DecodesUname(record);
    DecodesGname(record);
    DecodesPrefix(record);
  }
}
