/** The ustar header layout (the first 500 bytes of a header record) and the blanking of
    its checksum field. */
module HeaderSchema {
  import opened Bytes
  import opened Wrappers
  import opened Errors
  import opened Schema

  /** The builder calls of the header schema, in declaration order. */
  const HEADER_DECLS: seq<Decl> := [
    Decl("name", Str, 100),
    Decl("mode", OctalNumber, 8),
    Decl("uid", OctalNumber, 8),
    Decl("gid", OctalNumber, 8),
    Decl("size", OctalNumber, 12),
    Decl("mtime", Timestamp, 12),
    Decl("checksum", OctalNumber, 8),
    Decl("typeflag", Str, 1),
    Decl("link_name", Str, 100),
    Decl("magic", Str, 6),
    Decl("version", Str, 2),
    Decl("uname", Str, 32),
    Decl("gname", Str, 32),
    Decl("dev_major", OctalNumber, 8),
    Decl("dev_minor", OctalNumber, 8),
    Decl("prefix", Str, 155)
  ]

  /** The frozen field table of the header schema. */
  const SCHEMA: Table := Layout(HEADER_DECLS).0

  const CHECKSUM_OFFSET: nat := 148
  const CHECKSUM_SIZE: nat := 8

  /** No two header fields share a name: any two names differ in length, in one of their
      first two letters, or in their sixth. */
  lemma HeaderDeclsDistinct()
    ensures DistinctNames(HEADER_DECLS)
  {
    forall i | 0 <= i < |HEADER_DECLS|
      ensures forall j :: i < j < |HEADER_DECLS| ==> HEADER_DECLS[i].name != HEADER_DECLS[j].name
    {
      var n := HEADER_DECLS[i].name;
      assert |n| >= 3;
      forall j | i < j < |HEADER_DECLS| ensures n != HEADER_DECLS[j].name {
        var m := HEADER_DECLS[j].name;
        assert |m| >= 3;
        assert |n| != |m| || n[0] != m[0] || n[1] != m[1] || (|n| > 5 && n[5] != m[5]);
      }
    }
  }

  const HEADER_OFFSETS: seq<nat> := [0, 100, 108, 116, 124, 136, 148, 156, 157, 257, 263, 265, 297, 329, 337, 345]

  /** The field table of the ustar format, spelled out. */
  const USTAR_FIELDS: Table := [
    ("name", FieldType(Str, 100, 0)),
    ("mode", FieldType(OctalNumber, 8, 100)),
    ("uid", FieldType(OctalNumber, 8, 108)),
    ("gid", FieldType(OctalNumber, 8, 116)),
    ("size", FieldType(OctalNumber, 12, 124)),
    ("mtime", FieldType(Timestamp, 12, 136)),
    ("checksum", FieldType(OctalNumber, 8, 148)),
    ("typeflag", FieldType(Str, 1, 156)),
    ("link_name", FieldType(Str, 100, 157)),
    ("magic", FieldType(Str, 6, 257)),
    ("version", FieldType(Str, 2, 263)),
    ("uname", FieldType(Str, 32, 265)),
    ("gname", FieldType(Str, 32, 297)),
    ("dev_major", FieldType(OctalNumber, 8, 329)),
    ("dev_minor", FieldType(OctalNumber, 8, 337)),
    ("prefix", FieldType(Str, 155, 345))
  ]

  lemma HeaderOffsets(i: nat)
    requires i < |HEADER_DECLS|
    ensures DeclWidth(HEADER_DECLS[..i]) == HEADER_OFFSETS[i]
  {
    DeclaredOffsets(HEADER_DECLS, HEADER_OFFSETS, i);
  }

  /** Entry `i` of the spelled-out table is declaration `i` placed at offset `i`. */
  lemma UstarFieldAt(i: nat)
    requires i < |HEADER_DECLS|
    ensures USTAR_FIELDS[i] == (HEADER_DECLS[i].name, FieldType(HEADER_DECLS[i].kind, HEADER_DECLS[i].size, HEADER_OFFSETS[i]))
  {
  }

  lemma DeclaredHeader()
    ensures Declared(HEADER_DECLS) == USTAR_FIELDS
  {
    forall i | 0 <= i < |HEADER_DECLS|
      ensures Declared(HEADER_DECLS)[i] == USTAR_FIELDS[i]
    {
      HeaderOffsets(i);
      UstarFieldAt(i);
    }
  }

  lemma HeaderWidth()
    ensures DeclWidth(HEADER_DECLS) == 500
  {
    HeaderOffsets(15);
    assert HEADER_DECLS[..16] == HEADER_DECLS;
  }

  /** The header fields lie at the offsets of the ustar format and fill 500 bytes. */
  lemma SchemaLayout()
    ensures SCHEMA == USTAR_FIELDS
    ensures Layout(HEADER_DECLS).1 == 500
  {
    HeaderDeclsDistinct();
    LayoutOffsets(HEADER_DECLS);
    DeclaredHeader();
    HeaderWidth();
  }

  lemma ChecksumField()
    ensures Lookup(SCHEMA, "checksum") == Some(FieldType(OctalNumber, CHECKSUM_SIZE, CHECKSUM_OFFSET))
  {
    SchemaLayout();
    UstarChecksumField();
  }

  lemma UstarChecksumField()
    ensures Lookup(USTAR_FIELDS, "checksum") == Some(FieldType(OctalNumber, CHECKSUM_SIZE, CHECKSUM_OFFSET))
  {
    LookupAt(USTAR_FIELDS, "checksum", 6);
  }

  /** `Header.clear_checksum(record)`: the record with its checksum field set to spaces;
      IndexError when the record ends before the field starts. */
  function ClearChecksum(record: seq<byte>): (r: Result<seq<byte>, Error>)
    ensures r.Ok? <==> |record| >= CHECKSUM_OFFSET
    ensures r.Err? ==> r.error == IndexError
    ensures r.Ok? ==> r.value == record[..CHECKSUM_OFFSET] + Spaces(CHECKSUM_SIZE) + Drop(record, CHECKSUM_OFFSET + CHECKSUM_SIZE)
  {
    ChecksumField();
    var r := Clear(SCHEMA, record, "checksum");
    assert r.Ok? ==> r.value == record[..CHECKSUM_OFFSET] + Spaces(CHECKSUM_SIZE) + Drop(record, CHECKSUM_OFFSET + CHECKSUM_SIZE) by {
      if r.Ok? {
        var expected := record[..CHECKSUM_OFFSET] + Spaces(CHECKSUM_SIZE) + Drop(record, CHECKSUM_OFFSET + CHECKSUM_SIZE);
        assert |r.value| == |expected|;
        forall i | 0 <= i < |expected|
          ensures r.value[i] == expected[i]
        {
        }
      }
    }
    r
  }
}
