/**
  Go strings as the server sees them: immutable sequences of bytes.
  `len`, slicing and comparison in the source all work on bytes, so the
  model does too; literals are written in Dafny as Unicode text and turned
  into their UTF-8 bytes by `Utf8`, which is what the Go compiler does with
  a string literal.
 */
module GoString {
  import Seqs

  newtype byte = x: int | 0 <= x < 256

  /** A Go `string` value. */
  type Str = seq<byte>

  datatype Option<T> = None | Some(value: T)

  /** The separator the command syntax uses, `'|'`. */
  const Bar: byte := 124

  /** The line terminator, `'\n'`. */
  const Newline: byte := 10

  /** UTF-8 encoding of one Unicode scalar value. */
  function EncodeChar(c: char): (r: Str)
    ensures 1 <= |r| <= 4
    ensures (c as int < 0x80) == (|r| == 1)
    ensures |r| == 1 ==> r[0] as int == c as int
    ensures |r| > 1 ==> forall i :: 0 <= i < |r| ==> r[i] >= 0x80
  {
    var n := c as int;
    if n < 0x80 then [n as byte]
    else if n < 0x800 then [(0xC0 + n / 0x40) as byte, (0x80 + n % 0x40) as byte]
    else if n < 0x10000 then
      [(0xE0 + n / 0x1000) as byte, (0x80 + n / 0x40 % 0x40) as byte, (0x80 + n % 0x40) as byte]
    else
      [(0xF0 + n / 0x40000) as byte, (0x80 + n / 0x1000 % 0x40) as byte,
       (0x80 + n / 0x40 % 0x40) as byte, (0x80 + n % 0x40) as byte]
  }

  /** The bytes of a Go string literal whose text is `s`. */
  function Utf8(s: string): (r: Str)
    ensures |r| >= |s|
  {
    if s == [] then [] else EncodeChar(s[0]) + Utf8(s[1..])
  }

  /** An ASCII byte never occurs inside the encoding of a non-ASCII
      character, so splitting the bytes of a literal on `'|'` splits
      exactly where the text has a `'|'`. */
  lemma {:induction false} Utf8HasNoAsciiOutsideText(s: string, b: byte)
    requires b < 0x80
    requires forall i :: 0 <= i < |s| ==> s[i] as int != b as int
    ensures b !in Utf8(s)
  {
    if s != [] {
      Utf8HasNoAsciiOutsideText(s[1..], b);
      var e := EncodeChar(s[0]);
      assert b !in e by {
        if |e| == 1 { assert e[0] as int == s[0] as int; }
      }
      assert Utf8(s) == e + Utf8(s[1..]);
    }
  }

  /** `strings.Split(s, sep)` for a one-byte separator: the pieces of `s`
      between occurrences of `sep`; always at least one piece. */
  function Split(s: Str, sep: byte): (r: seq<Str>)
    ensures |r| >= 1
    ensures |r| == 1 <==> sep !in s
  {
    if s == [] then [[]]
    else if s[0] == sep then [[]] + Split(s[1..], sep)
    else
      var rest := Split(s[1..], sep);
      [[s[0]] + rest[0]] + rest[1..]
  }

  /** `strings.Join(fs, sep)`: the inverse of `Split`. */
  function Join(fs: seq<Str>, sep: byte): Str
    requires |fs| >= 1
  {
    if |fs| == 1 then fs[0] else fs[0] + [sep] + Join(fs[1..], sep)
  }

  /** `strings.Split(s, "|")[i]`; `None` where Go's index panics. */
  function Field(s: Str, i: nat): (r: Option<Str>)
    ensures r.Some? <==> i < |Split(s, Bar)|
  {
    var fs := Split(s, Bar);
    if i < |fs| then Some(fs[i]) else None
  }

  /** No piece produced by `Split` contains the separator. */
  lemma {:induction false} SplitPiecesOmitSep(s: Str, sep: byte)
    ensures forall i :: 0 <= i < |Split(s, sep)| ==> sep !in Split(s, sep)[i]
  {
    if s != [] {
      SplitPiecesOmitSep(s[1..], sep);
    }
  }

  /** Joining the pieces back together gives the original string. */
  lemma {:induction false} JoinSplit(s: Str, sep: byte)
    ensures Join(Split(s, sep), sep) == s
  {
    if s != [] {
      JoinSplit(s[1..], sep);
      var rest := Split(s[1..], sep);
      if s[0] != sep && |rest| > 1 {
        assert rest == [rest[0]] + rest[1..];
        assert Join(rest, sep) == rest[0] + [sep] + Join(rest[1..], sep);
      }
    }
  }

  /** Splitting a join of separator-free pieces gives the pieces back. */
  lemma {:induction false} SplitJoin(fs: seq<Str>, sep: byte)
    requires |fs| >= 1
    requires forall i :: 0 <= i < |fs| ==> sep !in fs[i]
    ensures Split(Join(fs, sep), sep) == fs
  {
    if |fs| == 1 {
      SplitPrefix(fs[0], [], sep);
      assert fs[0] + [] == fs[0];
    } else {
      SplitJoin(fs[1..], sep);
      SplitAfterPiece(fs[0], Join(fs[1..], sep), sep);
      assert fs == [fs[0]] + fs[1..];
    }
  }

  /** A separator-free prefix `p` glues onto the first piece of the rest. */
  lemma {:induction false} SplitPrefix(p: Str, s: Str, sep: byte)
    requires sep !in p
    ensures Split(p + s, sep) == [p + Split(s, sep)[0]] + Split(s, sep)[1..]
  {
    var whole := Split(s, sep);
    if p == [] {
      assert p + s == s;
      assert p + whole[0] == whole[0];
      assert whole == [whole[0]] + whole[1..];
    } else {
      var tail := p[1..] + s;
      assert p + s == [p[0]] + tail;
      SplitPrefix(p[1..], s, sep);
      SplitCons(p[0], tail, sep);
      assert [p[0]] + p[1..] == p;
      Seqs.AppendAssoc([p[0]], p[1..], whole[0]);
    }
  }

  /** A first byte other than the separator starts the first piece. */
  lemma SplitCons(c: byte, s: Str, sep: byte)
    requires c != sep
    ensures Split([c] + s, sep) == [[c] + Split(s, sep)[0]] + Split(s, sep)[1..]
  {
    assert ([c] + s)[0] == c && ([c] + s)[1..] == s;
  }

  /** A string without the separator is its own single piece. */
  lemma SplitWithoutSep(s: Str, sep: byte)
    requires sep !in s
    ensures Split(s, sep) == [s]
  {
    SplitPrefix(s, [], sep);
    assert s + [] == s;
  }

  /** A separator-free piece followed by the separator splits off as the
      first field. */
  lemma {:induction false} SplitAfterPiece(p: Str, s: Str, sep: byte)
    requires sep !in p
    ensures Split(p + [sep] + s, sep) == [p] + Split(s, sep)
  {
    SplitPrefix(p, [sep] + s, sep);
    assert p + [sep] + s == p + ([sep] + s);
    assert ([sep] + s)[1..] == s;
    assert Split([sep] + s, sep) == [[]] + Split(s, sep);
    assert p + [] == p;
  }
}
