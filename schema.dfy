/** A fixed record layout: an ordered table of named fields, each with a width, an offset
    and a type that says how its bytes are decoded. */
module Schema {
  import opened Bytes
  import opened Wrappers
  import opened Errors

  /** The three field types: NUL-terminated strings, octal numbers, octal timestamps. */
  datatype Kind = Str | OctalNumber | Timestamp

  datatype FieldType = FieldType(kind: Kind, size: nat, offset: nat)

  /** One declaration of the builder (`string :name, 100`, `octal_number :mode, 8`, ...). */
  datatype Decl = Decl(name: string, kind: Kind, size: nat)

  /** The ordered field table; like a Ruby hash its names are kept in insertion order. */
  type Table = seq<(string, FieldType)>

  /** A decoded field: a string (nil when empty), a number, or a time in seconds since the
      Unix epoch. */
  datatype Value = Text(text: Option<seq<byte>>) | Number(number: int) | Time(seconds: int)

  function Names<V>(t: seq<(string, V)>): (r: seq<string>)
    ensures |r| == |t| && forall i :: 0 <= i < |t| ==> r[i] == t[i].0
  {
    if t == [] then [] else [t[0].0] + Names(t[1..])
  }

  /** `fetch(name)` without the exception: the entry of the first pair so named. */
  function Lookup<V>(t: seq<(string, V)>, name: string): (r: Option<V>)
    ensures r.None? <==> name !in Names(t)
  {
    if t == [] then None
    else if t[0].0 == name then Some(t[0].1)
    else Lookup(t[1..], name)
  }

  /** The field found by name is the first one so named. */
  lemma {:induction false} LookupAt<V>(t: seq<(string, V)>, name: string, i: nat)
    requires i < |t| && t[i].0 == name
    requires forall j :: 0 <= j < i ==> t[j].0 != name
    ensures Lookup(t, name) == Some(t[i].1)
  {
    if i > 0 {
      LookupAt(t[1..], name, i - 1);
    }
  }

  /** `fields[name] = type`: a new name goes last, an existing one keeps its place and gets
      the new type. */
  function Put(t: Table, name: string, ft: FieldType): Table
  {
    if t == [] then [(name, ft)]
    else if t[0].0 == name then [(name, ft)] + t[1..]
    else [t[0]] + Put(t[1..], name, ft)
  }

  /** After `fields[name] = type` the names are the old ones, with `name` added last when
      it was not among them. */
  lemma {:induction false} PutNames(t: Table, name: string, ft: FieldType)
    ensures Names(Put(t, name, ft)) == if name in Names(t) then Names(t) else Names(t) + [name]
    decreases |t|
  {
    if t != [] {
      var ns := Names(t);
      assert ns == [t[0].0] + Names(t[1..]);
      assert name in ns <==> name == t[0].0 || name in Names(t[1..]);
      if t[0].0 == name {
        PairFirst((name, ft), t[1..], name);
      } else {
        var rest := Names(t[1..]);
        PutNames(t[1..], name, ft);
        assert Put(t, name, ft) == [t[0]] + Put(t[1..], name, ft);
        PairFirst(t[0], Put(t[1..], name, ft), name);
        if name !in rest {
          assert [t[0].0] + (rest + [name]) == ns + [name];
        }
      }
    }
  }

  /** After `fields[name] = type` the name is found with the new type. */
  lemma {:induction false} PutFinds(t: Table, name: string, ft: FieldType)
    ensures Lookup(Put(t, name, ft), name) == Some(ft)
    decreases |t|
  {
    if t != [] {
      if t[0].0 == name {
        PairFirst((name, ft), t[1..], name);
      } else {
        PutFinds(t[1..], name, ft);
        PairFirst(t[0], Put(t[1..], name, ft), name);
      }
    }
  }

  /** A pair put in front of a table: its name comes first, and a lookup of another name
      goes on to the table. */
  lemma PairFirst<V>(p: (string, V), t: seq<(string, V)>, name: string)
    ensures Names([p] + t) == [p.0] + Names(t)
    ensures Lookup([p] + t, name) == if p.0 == name then Some(p.1) else Lookup(t, name)
  {
    assert ([p] + t)[0] == p && ([p] + t)[1..] == t;
  }

  /** The table and the running offset after a sequence of declarations, each declaration
      placing its field at the current offset and moving the offset past it. */
  function Layout(decls: seq<Decl>): (Table, nat)
  {
    if decls == [] then ([], 0)
    else
      var prev := Layout(decls[..|decls| - 1]);
      var d := decls[|decls| - 1];
      (Put(prev.0, d.name, FieldType(d.kind, d.size, prev.1)), prev.1 + d.size)
  }

  /** The sum of the declared widths. */
  function DeclWidth(decls: seq<Decl>): nat
  {
    if decls == [] then 0 else DeclWidth(decls[..|decls| - 1]) + decls[|decls| - 1].size
  }

  /** The sum of the widths in a table. */
  function TableWidth(t: Table): nat
  {
    if t == [] then 0 else TableWidth(t[..|t| - 1]) + t[|t| - 1].1.size
  }

  predicate DistinctNames(decls: seq<Decl>)
  {
    forall i, j :: 0 <= i < j < |decls| ==> decls[i].name != decls[j].name
  }

  /** The table the declarations describe when their names are distinct: one field per
      declaration, in declaration order, at the sum of the widths declared before it. */
  function Declared(decls: seq<Decl>): (t: Table)
    ensures |t| == |decls|
  {
    seq(|decls|, i requires 0 <= i < |decls| =>
      (decls[i].name, FieldType(decls[i].kind, decls[i].size, DeclWidth(decls[..i]))))
  }

  /** Each field's offset is the sum of the widths declared before it, the names keep
      declaration order, and the final offset is the total width. */
  lemma {:induction false} LayoutOffsets(decls: seq<Decl>)
    requires DistinctNames(decls)
    ensures Layout(decls).0 == Declared(decls)
    ensures Layout(decls).1 == DeclWidth(decls)
  {
    if decls != [] {
      var n := |decls| - 1;
      var init := decls[..n];
      assert DistinctNames(init);
      LayoutOffsets(init);
      LayoutStep(decls, n);
      assert decls[..n + 1] == decls;
      var d := decls[n];
      var t0 := Layout(init).0;
      assert d.name !in Names(t0) by {
        forall i | 0 <= i < |t0|
          ensures Names(t0)[i] != d.name
        {
          assert t0[i].0 == init[i].name == decls[i].name;
        }
      }
      PutNew(t0, d.name, FieldType(d.kind, d.size, Layout(init).1));
      DeclaredSnoc(decls);
    }
  }

  /** The offsets of `Declared(decls)` are the running sums listed in `offsets`. */
  lemma {:induction false} DeclaredOffsets(decls: seq<Decl>, offsets: seq<nat>, i: nat)
    requires |offsets| == |decls| && i < |decls| && offsets[0] == 0
    requires forall k :: 0 <= k < |decls| - 1 ==> offsets[k + 1] == offsets[k] + decls[k].size
    ensures DeclWidth(decls[..i]) == offsets[i]
  {
    if i > 0 {
      DeclaredOffsets(decls, offsets, i - 1);
      assert decls[..i][..i - 1] == decls[..i - 1];
    }
  }

  lemma DeclaredSnoc(decls: seq<Decl>)
    requires decls != []
    ensures var n := |decls| - 1; var d := decls[n];
      Declared(decls) == Declared(decls[..n]) + [(d.name, FieldType(d.kind, d.size, DeclWidth(decls[..n])))]
  {
    var n := |decls| - 1;
    forall i | 0 <= i < n
      ensures Declared(decls)[i] == Declared(decls[..n])[i]
    {
      assert decls[..i] == decls[..n][..i];
    }
  }

  /** One more declaration puts one more field at the running offset. */
  lemma LayoutStep(decls: seq<Decl>, i: nat)
    requires i < |decls|
    ensures Layout(decls[..i + 1]).0
         == Put(Layout(decls[..i]).0, decls[i].name, FieldType(decls[i].kind, decls[i].size, Layout(decls[..i]).1))
    ensures Layout(decls[..i + 1]).1 == Layout(decls[..i]).1 + decls[i].size
  {
    assert decls[..i + 1][..i] == decls[..i];
  }

  /** Putting a name that is not there yet appends it. */
  lemma {:induction false} PutNew(t: Table, name: string, ft: FieldType)
    requires name !in Names(t)
    ensures Put(t, name, ft) == t + [(name, ft)]
  {
    if t != [] {
      assert Names(t)[0] == t[0].0;
      assert name !in Names(t[1..]) by {
        forall k | 0 <= k < |t| - 1
          ensures Names(t[1..])[k] != name
        {
          assert Names(t[1..])[k] == Names(t)[k + 1];
        }
      }
      PutNew(t[1..], name, ft);
      assert [t[0]] + (t[1..] + [(name, ft)]) == t + [(name, ft)];
    }
  }

  /** A schema under construction, as the builder block sees it: the fields declared so far
      and the offset at which the next one goes. */
  class Builder {
    var fields: Table
    var offset: nat

    /** `Schema.new { ... }` with the builder calls listed in `decls`. */
    constructor (decls: seq<Decl>)
      ensures fields == Layout(decls).0 && offset == Layout(decls).1
    {
      fields := [];
      offset := 0;
      new;
      var i := 0;
      while i < |decls|
        invariant 0 <= i <= |decls|
        invariant fields == Layout(decls[..i]).0 && offset == Layout(decls[..i]).1
        modifies this
      {
        LayoutStep(decls, i);
        ghost var want := Layout(decls[..i + 1]);
        AddField(decls[i].name, decls[i].kind, decls[i].size);
        assert fields == want.0 && offset == want.1;
        i := i + 1;
      }
      assert decls[..|decls|] == decls;
    }

    /** `add_field`: records the field at the current offset and moves the offset past it. */
    method AddField(name: string, kind: Kind, size: nat)
      modifies this
      ensures fields == Put(old(fields), name, FieldType(kind, size, old(offset)))
      ensures offset == old(offset) + size
    {
      fields := Put(fields, name, FieldType(kind, size, offset));
      offset := offset + size;
    }

    function FieldNames(): seq<string>
      reads this
    {
      Names(fields)
    }
  }

  /** `s[0, n]`: at most the first `n` bytes. */
  function Take(s: seq<byte>, n: nat): (r: seq<byte>)
    ensures |r| == if n < |s| then n else |s|
    ensures r <= s
  {
    if n < |s| then s[..n] else s
  }

  /** What follows the first `n` bytes, empty when there are fewer. */
  function Drop(s: seq<byte>, n: nat): (r: seq<byte>)
    ensures Take(s, n) + r == s
  {
    if n <= |s| then s[n..] else []
  }

  /** Unpack directive `Z`: the bytes before the first NUL. */
  function UntilNul(s: seq<byte>): (r: seq<byte>)
    ensures r <= s && NUL !in r
    ensures |r| < |s| ==> s[|r|] == NUL
  {
    if s == [] || s[0] == NUL then [] else [s[0]] + UntilNul(s[1..])
  }

  /** Unpack directive `A`: the bytes without their trailing spaces and NULs. */
  function StripTrailing(s: seq<byte>): (r: seq<byte>)
    ensures r <= s
    ensures r == [] || (r[|r| - 1] != SPACE && r[|r| - 1] != NUL)
    ensures forall i :: |r| <= i < |s| ==> s[i] == SPACE || s[i] == NUL
  {
    if s != [] && (s[|s| - 1] == SPACE || s[|s| - 1] == NUL) then StripTrailing(s[..|s| - 1])
    else s
  }

  const DIGIT_0: byte := 0x30

  predicate IsOctalDigit(b: byte)
  {
    DIGIT_0 <= b < DIGIT_0 + 8
  }

  /** Ruby's white-space characters: space, tab, newline, vertical tab, form feed, return. */
  predicate IsSpace(b: byte)
  {
    b == SPACE || 0x09 <= b <= 0x0D
  }

  /** The number a run of octal digits denotes. */
  function OctalValue(digits: seq<byte>): nat
    requires forall i :: 0 <= i < |digits| ==> IsOctalDigit(digits[i])
  {
    if digits == [] then 0
    else
      var d := digits[|digits| - 1];
      assert IsOctalDigit(d);
      OctalValue(digits[..|digits| - 1]) * 8 + (d - DIGIT_0)
  }

  /** The length of the leading run of octal digits. */
  function OctalRun(s: seq<byte>): (r: nat)
    ensures r <= |s| && forall i :: 0 <= i < r ==> IsOctalDigit(s[i])
    ensures r < |s| ==> !IsOctalDigit(s[r])
  {
    if s == [] || !IsOctalDigit(s[0]) then 0 else 1 + OctalRun(s[1..])
  }

  /** The length of the leading run of white space. */
  function SpaceRun(s: seq<byte>): (r: nat)
    ensures r <= |s| && forall i :: 0 <= i < r ==> IsSpace(s[i])
    ensures r < |s| ==> !IsSpace(s[r])
  {
    if s == [] || !IsSpace(s[0]) then 0 else 1 + SpaceRun(s[1..])
  }

  /** `String#oct` on decimal-free input: leading white space, an optional sign and the
      leading run of octal digits; 0 when there are none. */
  function Oct(s: seq<byte>): int
  {
    var t := s[SpaceRun(s)..];
    if t != [] && t[0] == 0x2D then 0 - OctalValue(t[1..][..OctalRun(t[1..])])
    else if t != [] && t[0] == 0x2B then OctalValue(t[1..][..OctalRun(t[1..])])
    else OctalValue(t[..OctalRun(t)])
  }

  /** `"0" * k` */
  function ZeroDigits(k: nat): (r: seq<byte>)
    ensures |r| == k && forall i :: 0 <= i < k ==> r[i] == DIGIT_0
  {
    seq(k, _ => DIGIT_0)
  }

  /** The shortest octal spelling of `n` (an independent reference for `Oct`). */
  function OctalDigits(n: nat): (r: seq<byte>)
    ensures |r| > 0 && forall i :: 0 <= i < |r| ==> IsOctalDigit(r[i])
  {
    if n < 8 then [DIGIT_0 + n] else OctalDigits(n / 8) + [DIGIT_0 + n % 8]
  }

  lemma {:induction false} OctalValueOfDigits(n: nat)
    ensures OctalValue(OctalDigits(n)) == n
  {
    var d := OctalDigits(n);
    if n >= 8 {
      OctalValueOfDigits(n / 8);
      assert d[..|d| - 1] == OctalDigits(n / 8);
    } else {
      assert d[..|d| - 1] == [];
    }
  }

  /** Leading zero digits do not change the value. */
  lemma {:induction false} OctalValueLeadingZeros(k: nat, digits: seq<byte>)
    requires forall i :: 0 <= i < |digits| ==> IsOctalDigit(digits[i])
    ensures forall i :: 0 <= i < k + |digits| ==> IsOctalDigit((ZeroDigits(k) + digits)[i])
    ensures OctalValue(ZeroDigits(k) + digits) == OctalValue(digits)
  {
    var z := ZeroDigits(k);
    if digits == [] {
      assert z + digits == z;
      OctalValueZeros(k);
    } else {
      var n := |digits| - 1;
      OctalValueLeadingZeros(k, digits[..n]);
      assert (z + digits)[..k + n] == z + digits[..n];
    }
  }

  lemma {:induction false} OctalValueZeros(k: nat)
    ensures OctalValue(ZeroDigits(k)) == 0
  {
    if k > 0 {
      OctalValueZeros(k - 1);
      assert ZeroDigits(k)[..k - 1] == ZeroDigits(k - 1);
    }
  }

  lemma {:induction false} OctalRunAll(digits: seq<byte>, tail: seq<byte>)
    requires forall i :: 0 <= i < |digits| ==> IsOctalDigit(digits[i])
    requires tail == [] || !IsOctalDigit(tail[0])
    ensures OctalRun(digits + tail) == |digits|
  {
    if digits != [] {
      assert (digits + tail)[1..] == digits[1..] + tail;
      OctalRunAll(digits[1..], tail);
    } else {
      assert digits + tail == tail;
    }
  }

  /** An octal field written the usual way (zero-padded octal digits, then spaces and NULs)
      reads back the number it spells. */
  lemma OctalFieldRoundTrip(n: nat, pad: nat, trailer: seq<byte>)
    requires forall i :: 0 <= i < |trailer| ==> trailer[i] == SPACE || trailer[i] == NUL
    ensures Oct(StripTrailing(ZeroDigits(pad) + OctalDigits(n) + trailer)) == n
  {
    PaddedValue(pad, n);
    DigitsRoundTrip(ZeroDigits(pad) + OctalDigits(n), trailer);
  }

  /** A run of octal digits followed by spaces and NULs reads back as the digits' value. */
  lemma DigitsRoundTrip(digits: seq<byte>, trailer: seq<byte>)
    requires digits != [] && forall i :: 0 <= i < |digits| ==> IsOctalDigit(digits[i])
    requires forall i :: 0 <= i < |trailer| ==> trailer[i] == SPACE || trailer[i] == NUL
    ensures Oct(StripTrailing(digits + trailer)) == OctalValue(digits)
  {
    assert IsOctalDigit(digits[|digits| - 1]);
    StripTrailingKeeps(digits, trailer);
    assert IsOctalDigit(digits[0]);
    OctalReadsAll(digits);
  }

  /** Zero-padding the octal spelling of `n` keeps it all digits, worth `n`. */
  lemma PaddedValue(pad: nat, n: nat)
    ensures var digits := ZeroDigits(pad) + OctalDigits(n);
      (forall i :: 0 <= i < |digits| ==> IsOctalDigit(digits[i])) && OctalValue(digits) == n
  {
    OctalValueLeadingZeros(pad, OctalDigits(n));
    OctalValueOfDigits(n);
  }

  /** A field made only of octal digits reads as their value. */
  lemma OctalReadsAll(digits: seq<byte>)
    requires digits != [] && forall i :: 0 <= i < |digits| ==> IsOctalDigit(digits[i])
    ensures Oct(digits) == OctalValue(digits)
  {
    assert digits + [] == digits;
    OctalRunAll(digits, []);
    assert digits[..OctalRun(digits)] == digits;
    assert IsOctalDigit(digits[0]);
  }

  /** An octal field as archives hold it: "000644 " and a NUL read as 420. */
  lemma OctalModeExample()
    ensures ParseValue(OctalNumber, [0x30, 0x30, 0x30, 0x36, 0x34, 0x34, SPACE, NUL]) == Number(420)
  {
    Spells420();
    OctalFieldRoundTrip(420, 3, [SPACE, NUL]);
  }

  /** "000644" is 420 in octal, zero-padded to six digits. */
  lemma Spells420()
    ensures ZeroDigits(3) + OctalDigits(420) + [SPACE, NUL] == [0x30, 0x30, 0x30, 0x36, 0x34, 0x34, SPACE, NUL]
  {
    assert OctalDigits(52) == [0x36, 0x34];
    assert OctalDigits(420) == [0x36, 0x34, 0x34];
  }

  /** "00000002070 " reads as 1080. */
  lemma OctalSizeExample()
    ensures ParseValue(OctalNumber, [0x30, 0x30, 0x30, 0x30, 0x30, 0x30, 0x30, 0x32, 0x30, 0x37, 0x30, SPACE]) == Number(1080)
  {
    Spells1080();
    OctalFieldRoundTrip(1080, 7, [SPACE]);
  }

  /** "00000002070" is 1080 in octal, zero-padded to eleven digits. */
  lemma Spells1080()
    ensures ZeroDigits(7) + OctalDigits(1080) + [SPACE] == [0x30, 0x30, 0x30, 0x30, 0x30, 0x30, 0x30, 0x32, 0x30, 0x37, 0x30, SPACE]
  {
    assert OctalDigits(16) == [0x32, 0x30];
    assert OctalDigits(135) == [0x32, 0x30, 0x37];
    assert OctalDigits(1080) == [0x32, 0x30, 0x37, 0x30];
  }

  lemma {:induction false} StripTrailingKeeps(s: seq<byte>, trailer: seq<byte>)
    requires s != [] && s[|s| - 1] != SPACE && s[|s| - 1] != NUL
    requires forall i :: 0 <= i < |trailer| ==> trailer[i] == SPACE || trailer[i] == NUL
    ensures StripTrailing(s + trailer) == s
  {
    if trailer == [] {
      assert s + trailer == s;
    } else {
      var n := |trailer| - 1;
      assert (s + trailer)[..|s + trailer| - 1] == s + trailer[..n];
      StripTrailingKeeps(s, trailer[..n]);
    }
  }

  /** How one field type decodes the bytes its unpack directive delivers. */
  function ParseValue(kind: Kind, field: seq<byte>): (v: Value)
    ensures kind == Str <==> v.Text?
    ensures kind == OctalNumber <==> v.Number?
    ensures kind == Timestamp <==> v.Time?
    ensures v.Text? ==> (v.text.None? <==> UntilNul(field) == []) && (v.text.Some? ==> v.text.value == UntilNul(field))
    ensures v.Number? ==> v.number == Oct(StripTrailing(field))
    ensures v.Time? ==> v.seconds == Oct(StripTrailing(field))
  {
    match kind
    case Str => var s := UntilNul(field); Text(if s == [] then None else Some(s))
    case OctalNumber => Number(Oct(StripTrailing(field)))
    case Timestamp => Time(Oct(StripTrailing(field)))
  }

  /** The bytes of one field of `record`, clamped to the record's end. */
  function FieldBytes(record: seq<byte>, ft: FieldType): seq<byte>
  {
    Take(Drop(record, ft.offset), ft.size)
  }

  /** `parse(record)`: the unpack format is the fields' directives in table order, so the
      i-th directive reads its width of bytes from where the previous ones stopped. */
  function Parse(t: Table, record: seq<byte>): (r: seq<(string, Value)>)
    ensures |r| == |t|
    ensures forall i :: 0 <= i < |t| ==> r[i].0 == t[i].0
  {
    seq(|t|, i requires 0 <= i < |t| =>
      (t[i].0, ParseValue(t[i].1.kind, Take(Drop(record, TableWidth(t[..i])), t[i].1.size))))
  }

  lemma {:induction false} TableWidthDeclared(decls: seq<Decl>, i: nat)
    requires i <= |decls|
    ensures TableWidth(Declared(decls)[..i]) == DeclWidth(decls[..i])
  {
    if i > 0 {
      TableWidthDeclared(decls, i - 1);
      assert Declared(decls)[..i][..i - 1] == Declared(decls)[..i - 1];
      assert decls[..i][..i - 1] == decls[..i - 1];
    }
  }

  /** For a schema built from distinct declarations, `parse` yields one value per declared
      field, in declaration order, each decoded from the bytes at that field's own offset. */
  lemma ParseFieldwise(decls: seq<Decl>, record: seq<byte>)
    requires DistinctNames(decls)
    ensures var r := Parse(Layout(decls).0, record);
      |r| == |decls| &&
      forall i :: 0 <= i < |decls| ==>
        r[i] == (decls[i].name, ParseValue(decls[i].kind, FieldBytes(record, Layout(decls).0[i].1)))
  {
    LayoutOffsets(decls);
    forall i | 0 <= i < |decls|
      ensures TableWidth(Layout(decls).0[..i]) == Layout(decls).0[i].1.offset
    {
      TableWidthDeclared(decls, i);
    }
  }

  /** `clear(record, name)`: a copy of `record` with the named field's bytes set to spaces.
      An unknown name raises KeyError; an offset past the end raises IndexError. A field that
      runs past the end replaces the tail, so the copy then grows. */
  function Clear(t: Table, record: seq<byte>, name: string): (r: Result<seq<byte>, Error>)
    ensures Lookup(t, name).None? ==> r == Err(KeyError)
    ensures Lookup(t, name).Some? && Lookup(t, name).value.offset > |record| ==> r == Err(IndexError)
    ensures r.Ok? ==>
      var ft := Lookup(t, name).value;
      var end := ft.offset + ft.size;
      |r.value| == (if end > |record| then end else |record|) &&
      (forall i :: ft.offset <= i < end ==> r.value[i] == SPACE) &&
      (forall i :: 0 <= i < |record| && !(ft.offset <= i < end) ==> r.value[i] == record[i])
  {
    match Lookup(t, name)
    case None => Err(KeyError)
    case Some(ft) =>
      if ft.offset > |record| then Err(IndexError)
      else
        var end := ft.offset + ft.size;
        Ok(record[..ft.offset] + Spaces(ft.size) + (if end < |record| then record[end..] else []))
  }
}
