/** Bytes and the byte-string helpers shared by the codec and the streams. */
module Bytes {

  type byte = b: int | 0 <= b < 256

  const NUL: byte := 0
  const SPACE: byte := 0x20
  const NEWLINE: byte := 0x0A

  /** `"\0" * n` */
  function Zeros(n: nat): (r: seq<byte>)
    ensures |r| == n && forall i :: 0 <= i < n ==> r[i] == NUL
  {
    seq(n, _ => NUL)
  }

  /** `" " * n` */
  function Spaces(n: nat): (r: seq<byte>)
    ensures |r| == n && forall i :: 0 <= i < n ==> r[i] == SPACE
  {
    seq(n, _ => SPACE)
  }

  /** The bytes of a string literal whose characters are all below 256 (ISO-8859-1). */
  function Latin1(s: string): (r: seq<byte>)
    ensures |r| == |s|
  {
    seq(|s|, i requires 0 <= i < |s| => if s[i] as int < 256 then s[i] as int else 0)
  }

  /** Byte strings end to end. */
  function Concat(items: seq<seq<byte>>): seq<byte>
  {
    if items == [] then [] else items[0] + Concat(items[1..])
  }

  lemma {:induction false} ConcatAppend(items: seq<seq<byte>>, last: seq<byte>)
    ensures Concat(items + [last]) == Concat(items) + last
  {
    if items != [] {
      assert (items + [last])[1..] == items[1..] + [last];
      ConcatAppend(items[1..], last);
    } else {
      assert Concat([last]) == last + Concat([]);
    }
  }

  /** The unsigned sum of the bytes of `s`. */
  function Sum(s: seq<byte>): int
  {
    if s == [] then 0 else Sum(s[..|s| - 1]) + s[|s| - 1]
  }

  lemma {:induction false} SumAppend(a: seq<byte>, b: seq<byte>)
    ensures Sum(a + b) == Sum(a) + Sum(b)
  {
    if b == [] {
      assert a + b == a;
    } else {
      assert (a + b)[..|a + b| - 1] == a + b[..|b| - 1];
      SumAppend(a, b[..|b| - 1]);
    }
  }

  lemma {:induction false} SumBounds(s: seq<byte>)
    ensures 0 <= Sum(s) <= 255 * |s|
  {
    if s != [] {
      SumBounds(s[..|s| - 1]);
    }
  }

  lemma {:induction false} SumConstant(s: seq<byte>, b: byte)
    requires forall i :: 0 <= i < |s| ==> s[i] == b
    ensures Sum(s) == b * |s|
  {
    if s != [] {
      SumConstant(s[..|s| - 1], b);
    }
  }

  /** Replacing one byte changes the sum by exactly the difference of the two bytes. */
  lemma SumUpdate(s: seq<byte>, i: nat, b: byte)
    requires i < |s|
    ensures Sum(s[i := b]) == Sum(s) - s[i] + b
  {
    assert s == s[..i] + [s[i]] + s[i + 1..];
    assert s[i := b] == s[..i] + [b] + s[i + 1..];
    SumAppend(s[..i] + [s[i]], s[i + 1..]);
    SumAppend(s[..i], [s[i]]);
    SumAppend(s[..i] + [b], s[i + 1..]);
    SumAppend(s[..i], [b]);
    assert Sum([s[i]]) == s[i] by { assert [s[i]][..0] == []; }
    assert Sum([b]) == b by { assert [b][..0] == []; }
  }
}
