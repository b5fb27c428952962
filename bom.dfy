/** Byte-order-mark sniffing for `set_encoding("BOM|...")`: a walk down a prefix tree of
    the marks of section 2.6 (Encoding Schemes) of the Unicode Standard, reading a byte
    per level and pushing back every byte that did not complete a mark. */
module Bom {
  import opened Bytes
  import opened Wrappers
  import opened Encoding
  import opened EntryState
  import opened Stream
  import opened Errors
  import FileBase

  /** A tree level: the bytes that continue a mark, and the encoding a mark ending here
      names. */
  datatype Tree = Tree(children: seq<(byte, Tree)>, enc: Option<Encoding>)

  /** `BOM_TREE`: 00 00 FE FF, EF BB BF, FE FF, FF FE (00 00), one constant per level. */
  const BOM_TREE: Tree := Tree([(0x00, T00), (0xEF, TEF), (0xFE, TFE), (0xFF, TFF)], None)
  const T00: Tree := Tree([(0x00, T0000)], None)
  const T0000: Tree := Tree([(0xFE, T0000FE)], None)
  const T0000FE: Tree := Tree([(0xFF, Tree([], Some(Utf32BE)))], None)
  const TEF: Tree := Tree([(0xBB, TEFBB)], None)
  const TEFBB: Tree := Tree([(0xBF, Tree([], Some(Utf8)))], None)
  const TFE: Tree := Tree([(0xFF, Tree([], Some(Utf16BE)))], None)
  const TFF: Tree := Tree([(0xFE, TFFFE)], None)
  const TFFFE: Tree := Tree([(0x00, TFFFE00)], Some(Utf16LE))
  const TFFFE00: Tree := Tree([(0x00, Tree([], Some(Utf32LE)))], None)

  /** `tree.key?(byte)` and `tree[byte]`: the index of the first child for the byte. */
  function Child(t: Tree, b: Option<byte>): (r: Option<nat>)
    ensures r.Some? ==> r.value < |t.children| && b == Some(t.children[r.value].0)
    ensures r.None? ==> b.None? || forall i :: 0 <= i < |t.children| ==> t.children[i].0 != b.value
  {
    if b.None? then None else ChildFrom(t.children, b.value, 0)
  }

  function ChildFrom(cs: seq<(byte, Tree)>, b: byte, i: nat): (r: Option<nat>)
    requires i <= |cs|
    requires forall j :: 0 <= j < i ==> cs[j].0 != b
    ensures r.Some? ==> r.value < |cs| && cs[r.value].0 == b
    ensures r.None? ==> forall j :: 0 <= j < |cs| ==> cs[j].0 != b
    decreases |cs| - i
  {
    if i == |cs| then None else if cs[i].0 == b then Some(i) else ChildFrom(cs, b, i + 1)
  }

  /** `walk_bom_tree`: read a byte; if it continues a mark, walk on; if nothing below was
      found, push it back (nil included); the result is what was found below, or this
      level's own encoding. */
  function Walk(size: int, s: State, t: Tree): (r: (Option<Encoding>, State))
    decreases t
  {
    var g := GetByte(size, s);
    var i := Child(t, g.0);
    var below := if i.Some? then (assert t.children[i.value] in t.children; Walk(size, g.1, t.children[i.value].1)) else (None, g.1);
    var after := if below.0.None? then UngetByte(below.1, g.0) else below.1;
    (if below.0.Some? then below.0 else t.enc, after)
  }

  /** The marks as a table: the encoding a stream's first bytes announce and the
      length of its mark; FF FE 00 00 is UTF-32LE before it is UTF-16LE. */
  function Sniff(b: seq<byte>): (r: (Option<Encoding>, nat))
    requires |b| >= 4
    ensures r.0.None? <==> r.1 == 0
  {
    if b[..4] == [0x00, 0x00, 0xFE, 0xFF] then (Some(Utf32BE), 4)
    else if b[..3] == [0xEF, 0xBB, 0xBF] then (Some(Utf8), 3)
    else if b[..2] == [0xFE, 0xFF] then (Some(Utf16BE), 2)
    else if b[..4] == [0xFF, 0xFE, 0x00, 0x00] then (Some(Utf32LE), 4)
    else if b[..2] == [0xFF, 0xFE] then (Some(Utf16LE), 2)
    else (None, 0)
  }

  /** A byte that continues no mark at this level is pushed back at once. */
  lemma WalkMiss(size: int, s: State, t: Tree)
    requires !AtEof(size, s) && Left(s) != [] && Child(t, Some(Left(s)[0])).None?
    ensures Walk(size, s, t) == (t.enc, s)
  {
    UnreadRestores(s.data, s.at + 1);
  }

  /** The first child for `b` is found whatever the children after it are. */
  lemma {:induction false} ChildFromFinds(cs: seq<(byte, Tree)>, b: byte, i: nat, k: nat)
    requires i <= k < |cs| && cs[k].0 == b
    requires forall j :: 0 <= j < k ==> cs[j].0 != b
    ensures ChildFrom(cs, b, i) == Some(k)
    decreases k - i
  {
    if i < k { ChildFromFinds(cs, b, i + 1, k); }
  }

  /** A byte that continues a mark leads one level down; if nothing is found there, the
      byte goes back and this level's own encoding is the answer. */
  lemma WalkDown(size: int, s: State, t: Tree, i: nat)
    requires !AtEof(size, s) && Left(s) != []
    requires i < |t.children| && t.children[i].0 == Left(s)[0]
    requires forall j :: 0 <= j < i ==> t.children[j].0 != Left(s)[0]
    ensures var below := Walk(size, Advance(s, 1), t.children[i].1);
      Walk(size, s, t) == if below.0.Some? then below else (t.enc, UngetByte(below.1, Some(Left(s)[0])))
  {
    ChildFromFinds(t.children, Left(s)[0], 0, i);
  }

  /** Going back over the byte just read restores the state. */
  lemma BackOne(s: State)
    requires Left(s) != []
    ensures UngetByte(Advance(s, 1), Some(Left(s)[0])) == s
  {
    UnreadRestores(s.data, s.at + 1);
  }

  /** Room for the walk: at least `n` bytes pending and in the stream. */
  ghost predicate Room(size: int, s: State, n: nat)
  {
    Pending(size, s) >= n && |Left(s)| >= n
  }

  lemma RoomOn(size: int, s: State, n: nat)
    requires n > 0 && Room(size, s, n)
    ensures !AtEof(size, s) && Left(s) != [] && Room(size, Advance(s, 1), n - 1)
    ensures Left(Advance(s, 1)) == Left(s)[1..]
  {
  }

  /** EF BB BF followed by another byte of the entry: UTF-8, the mark consumed. */
  lemma SniffUtf8(size: int, s: State)
    requires Room(size, s, 4) && Left(s)[..3] == [0xEF, 0xBB, 0xBF]
    ensures Walk(size, s, BOM_TREE) == (Some(Utf8), Advance(s, 3))
  {
    assert Left(s)[0] == 0xEF && Left(s)[1] == 0xBB && Left(s)[2] == 0xBF;
    var s1 := Advance(s, 1); var s2 := Advance(s1, 1); var s3 := Advance(s2, 1);
    RoomOn(size, s, 4); RoomOn(size, s1, 3); RoomOn(size, s2, 2); RoomOn(size, s3, 1);
    WalkMiss(size, s3, TEFBB.children[0].1);
    WalkDown(size, s2, TEFBB, 0);
    WalkDown(size, s1, TEF, 0);
    WalkDown(size, s, BOM_TREE, 1);
  }

  /** FE FF followed by another byte: UTF-16BE, the mark consumed. */
  lemma SniffUtf16BE(size: int, s: State)
    requires Room(size, s, 3) && Left(s)[..2] == [0xFE, 0xFF]
    ensures Walk(size, s, BOM_TREE) == (Some(Utf16BE), Advance(s, 2))
  {
    assert Left(s)[0] == 0xFE && Left(s)[1] == 0xFF;
    var s1 := Advance(s, 1); var s2 := Advance(s1, 1);
    RoomOn(size, s, 3); RoomOn(size, s1, 2); RoomOn(size, s2, 1);
    WalkMiss(size, s2, TFE.children[0].1);
    WalkDown(size, s1, TFE, 0);
    WalkDown(size, s, BOM_TREE, 2);
  }

  /** 00 00 FE FF followed by another byte: UTF-32BE, the mark consumed. */
  lemma SniffUtf32BE(size: int, s: State)
    requires Room(size, s, 5) && Left(s)[..4] == [0x00, 0x00, 0xFE, 0xFF]
    ensures Walk(size, s, BOM_TREE) == (Some(Utf32BE), Advance(s, 4))
  {
    assert Left(s)[0] == 0x00 && Left(s)[1] == 0x00 && Left(s)[2] == 0xFE && Left(s)[3] == 0xFF;
    var s1 := Advance(s, 1); var s2 := Advance(s1, 1); var s3 := Advance(s2, 1); var s4 := Advance(s3, 1);
    RoomOn(size, s, 5); RoomOn(size, s1, 4); RoomOn(size, s2, 3); RoomOn(size, s3, 2); RoomOn(size, s4, 1);
    WalkMiss(size, s4, T0000FE.children[0].1);
    WalkDown(size, s3, T0000FE, 0);
    WalkDown(size, s2, T0000, 0);
    WalkDown(size, s1, T00, 0);
    WalkDown(size, s, BOM_TREE, 0);
  }

  /** FF FE 00 00 followed by another byte: UTF-32LE, the mark consumed. */
  lemma SniffUtf32LE(size: int, s: State)
    requires Room(size, s, 5) && Left(s)[..4] == [0xFF, 0xFE, 0x00, 0x00]
    ensures Walk(size, s, BOM_TREE) == (Some(Utf32LE), Advance(s, 4))
  {
    assert Left(s)[0] == 0xFF && Left(s)[1] == 0xFE && Left(s)[2] == 0x00 && Left(s)[3] == 0x00;
    var s1 := Advance(s, 1); var s2 := Advance(s1, 1); var s3 := Advance(s2, 1); var s4 := Advance(s3, 1);
    RoomOn(size, s, 5); RoomOn(size, s1, 4); RoomOn(size, s2, 3); RoomOn(size, s3, 2); RoomOn(size, s4, 1);
    WalkMiss(size, s4, TFFFE00.children[0].1);
    WalkDown(size, s3, TFFFE00, 0);
    WalkDown(size, s2, TFFFE, 0);
    WalkDown(size, s1, TFF, 0);
    WalkDown(size, s, BOM_TREE, 3);
  }

  /** FF FE not followed by 00 00: UTF-16LE, the two mark bytes consumed and whatever
      was read after them pushed back. */
  lemma SniffUtf16LE(size: int, s: State)
    requires Room(size, s, 4) && Left(s)[..2] == [0xFF, 0xFE] && Left(s)[2..4] != [0x00, 0x00]
    ensures Walk(size, s, BOM_TREE) == (Some(Utf16LE), Advance(s, 2))
  {
    assert Left(s)[0] == 0xFF && Left(s)[1] == 0xFE;
    var s1 := Advance(s, 1); var s2 := Advance(s1, 1); var s3 := Advance(s2, 1);
    RoomOn(size, s, 4); RoomOn(size, s1, 3); RoomOn(size, s2, 2); RoomOn(size, s3, 1);
    if Left(s)[2] == 0x00 {
      assert Left(s)[3] != 0x00 by { assert Left(s)[2..4] == [Left(s)[2], Left(s)[3]]; }
      WalkMiss(size, s3, TFFFE00);
      WalkDown(size, s2, TFFFE, 0);
      BackOne(s2);
    } else {
      WalkMiss(size, s2, TFFFE);
    }
    WalkDown(size, s1, TFF, 0);
    WalkDown(size, s, BOM_TREE, 3);
  }

  /** 00 not followed by 00 FE FF: every byte read goes back. */
  lemma MissAfter00(size: int, s: State)
    requires Room(size, s, 4) && Left(s)[0] == 0x00
    requires !(Left(s)[1] == 0x00 && Left(s)[2] == 0xFE && Left(s)[3] == 0xFF)
    ensures Walk(size, s, BOM_TREE) == (None, s)
  {
    var l := Left(s);
    var s1 := Advance(s, 1); var s2 := Advance(s1, 1); var s3 := Advance(s2, 1);
    RoomOn(size, s, 4); RoomOn(size, s1, 3); RoomOn(size, s2, 2); RoomOn(size, s3, 1);
    if l[1] != 0x00 {
      WalkMiss(size, s1, T00);
    } else {
      if l[2] != 0xFE {
        WalkMiss(size, s2, T0000);
      } else {
        WalkMiss(size, s3, T0000FE);
        WalkDown(size, s2, T0000, 0);
        BackOne(s2);
      }
      WalkDown(size, s1, T00, 0);
      BackOne(s1);
    }
    WalkDown(size, s, BOM_TREE, 0);
    BackOne(s);
  }

  /** EF not followed by BB BF: every byte read goes back. */
  lemma MissAfterEF(size: int, s: State)
    requires Room(size, s, 3) && Left(s)[0] == 0xEF && !(Left(s)[1] == 0xBB && Left(s)[2] == 0xBF)
    ensures Walk(size, s, BOM_TREE) == (None, s)
  {
    var l := Left(s);
    var s1 := Advance(s, 1); var s2 := Advance(s1, 1);
    RoomOn(size, s, 3); RoomOn(size, s1, 2); RoomOn(size, s2, 1);
    if l[1] != 0xBB {
      WalkMiss(size, s1, TEF);
    } else {
      WalkMiss(size, s2, TEFBB);
      WalkDown(size, s1, TEF, 0);
      BackOne(s1);
    }
    WalkDown(size, s, BOM_TREE, 1);
    BackOne(s);
  }

  /** 00 00 FE FF, EF BB BF, FE FF and FF FE are the only beginnings of a mark. */
  lemma MissOther(size: int, s: State)
    requires Room(size, s, 2) && Left(s)[0] != 0x00 && Left(s)[0] != 0xEF
    requires !(Left(s)[0] == 0xFE && Left(s)[1] == 0xFF) && !(Left(s)[0] == 0xFF && Left(s)[1] == 0xFE)
    ensures Walk(size, s, BOM_TREE) == (None, s)
  {
    var l := Left(s);
    var s1 := Advance(s, 1);
    RoomOn(size, s, 2); RoomOn(size, s1, 1);
    if l[0] == 0xFE {
      WalkMiss(size, s1, TFE);
      WalkDown(size, s, BOM_TREE, 2);
      BackOne(s);
    } else if l[0] == 0xFF {
      WalkMiss(size, s1, TFF);
      WalkDown(size, s, BOM_TREE, 3);
      BackOne(s);
    } else {
      WalkMiss(size, s, BOM_TREE);
    }
  }

  /** Bytes that begin no mark: every byte read is pushed back and nothing is found. */
  lemma SniffNone(size: int, s: State)
    requires Room(size, s, 4) && Sniff(Left(s)[..4]).0.None?
    ensures Walk(size, s, BOM_TREE) == (None, s)
  {
    var l := Left(s);
    assert l[..4] == [l[0], l[1], l[2], l[3]];
    if l[0] == 0x00 { MissAfter00(size, s); }
    else if l[0] == 0xEF { MissAfterEF(size, s); }
    else { MissOther(size, s); }
  }

  /** Given five bytes of room the walk finds exactly the mark the table names and
      consumes exactly its bytes; with no mark the state is as before. */
  lemma WalkSniffs(size: int, s: State)
    requires Room(size, s, 5)
    ensures var m := Sniff(Left(s)[..4]);
      Walk(size, s, BOM_TREE) == (m.0, Advance(s, m.1))
  {
    var l := Left(s);
    var m := Sniff(l[..4]);
    assert l[..4][..3] == l[..3] && l[..4][..2] == l[..2] && l[..4][2..4] == l[2..4];
    if m.0 == Some(Utf32BE) { SniffUtf32BE(size, s); }
    else if m.0 == Some(Utf8) { SniffUtf8(size, s); }
    else if m.0 == Some(Utf16BE) { SniffUtf16BE(size, s); }
    else if m.0 == Some(Utf32LE) { SniffUtf32LE(size, s); }
    else if m.0 == Some(Utf16LE) { SniffUtf16LE(size, s); }
    else { assert Advance(s, 0) == s; SniffNone(size, s); }
  }

  /** `parse_bom`: only at position 0. */
  function ParseBom(size: int, s: State): (r: (Option<Encoding>, State))
    ensures s.pos != 0 ==> r == (None, s)
  {
    if s.pos == 0 then Walk(size, s, BOM_TREE) else (None, s)
  }

  /** An entry holding exactly the UTF-8 mark: the walk reads past the end, `getbyte`
      gives nil there, and pushing that nil back moves `pos` but not the stream, so `pos`
      is left one short of the bytes taken (2 against 3). */
  lemma ExactMarkLeavesPosBehind()
    ensures var s := State([0xEF, 0xBB, 0xBF], 0, 0, 0);
      ParseBom(3, s) == (Some(Utf8), State([0xEF, 0xBB, 0xBF], 3, 2, 0))
  {
    var s := State([0xEF, 0xBB, 0xBF], 0, 0, 0);
    var s1 := Advance(s, 1); var s2 := Advance(s1, 1); var s3 := Advance(s2, 1);
    assert Left(s) == [0xEF, 0xBB, 0xBF] && Left(s1) == [0xBB, 0xBF] && Left(s2) == [0xBF];
    assert Walk(3, s3, TEFBB.children[0].1) == (Some(Utf8), s3.(pos := 2));
    WalkDown(3, s2, TEFBB, 0);
    WalkDown(3, s1, TEF, 0);
    WalkDown(3, s, BOM_TREE, 1);
  }

  /** An empty entry: the nil read at its end is pushed back, and `pos` becomes -1. */
  lemma EmptyEntryGoesNegative()
    ensures ParseBom(0, State([], 0, 0, 0)) == (None, State([], 0, -1, 0))
  {
  }

  /** `set_encoding` of an entry reader: the arguments are extracted as for any file, and
      an external name "BOM|X" is replaced by the encoding whose mark opens the entry
      (consuming the mark) or, when there is none, by the name X. */
  function SetEncoding(env: Env, size: int, s: State, ext: FileBase.EncArg, internal: seq<FileBase.EncArg>): (r: Out<(Encoding, Option<Encoding>)>)
    ensures |internal| > 1 <==> r.result == Err(ArgumentError)
    ensures r.result.Err? ==> r.after == s
  {
    match FileBase.ExtractEncodings(ext, internal)
    case Err(e) => Out(Err(e), s)
    case Ok(pair) =>
      if pair.0.Name? && FileBase.HasBomPrefix(pair.0.name) then
        var w := ParseBom(size, s);
        var e := if w.0.Some? then FileBase.Enc(w.0.value) else FileBase.Name(FileBase.AfterBomBar(pair.0.name));
        Out(Ok(FileBase.Settle(env, e, pair.1)), w.1)
      else Out(Ok(FileBase.Settle(env, pair.0, pair.1)), s)
  }

  /** A name without "BOM|" is resolved as in any file, and nothing is read. */
  lemma PlainNameReadsNothing(env: Env, size: int, s: State, name: string, internal: FileBase.EncArg)
    requires !FileBase.HasBomPrefix(name)
    ensures SetEncoding(env, size, s, FileBase.Name(name), [internal])
         == Out(FileBase.ResolveEncodings(env, FileBase.Name(name), [internal]), s)
  {
  }

  /** "BOM|X" at the start of an entry with room for the walk: a mark found selects its
      encoding and is consumed; with none, nothing is consumed and X is looked up. */
  lemma BomSelectsEncoding(env: Env, size: int, s: State, name: string, internal: FileBase.EncArg)
    requires s.pos == 0 && Room(size, s, 5)
    requires |name| >= 4 && FileBase.IsBomBar(name[..4])
    ensures var m := Sniff(Left(s)[..4]);
      var r := SetEncoding(env, size, s, FileBase.Name(name), [internal]);
      r.after == Advance(s, m.1)
      && r.result.Ok?
      && r.result.value.1 == FileBase.FindEncoding(env, internal, None, env.defaultInternal)
      && (m.0.Some? ==> r.result.value.0 == m.0.value)
      && (m.0.None? ==>
            Some(r.result.value.0) == FileBase.FindEncoding(env, FileBase.Name(name[4..]), Some(env.defaultExternal), Some(env.defaultExternal)))
  {
    assert FileBase.BomLineAt(name, 0);
    WalkSniffs(size, s);
  }

  /** Away from the start of the entry "BOM|X" is just X, and nothing is read. */
  lemma BomOnlyAtStart(env: Env, size: int, s: State, name: string, internal: FileBase.EncArg)
    requires s.pos != 0 && FileBase.HasBomPrefix(name)
    ensures SetEncoding(env, size, s, FileBase.Name(name), [internal])
         == Out(FileBase.ResolveEncodings(env, FileBase.Name(FileBase.AfterBomBar(name)), [internal]), s)
  {
  }
}
