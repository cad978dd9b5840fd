/** The chunks of a recording: four characters of code, the size in 32 bits, the data, and a
    padding byte after data of odd size. */
module Riff {
  newtype byte = x: int | 0 <= x < 256

  /** Characters of the chunk codes. */
  const ZERO: byte := 48
  const NINE: byte := 57
  const D: byte := 100
  const B: byte := 98
  const JUNK: seq<byte> := [74, 85, 78, 75]

  const SIZES: nat := 0x1_0000_0000

  datatype Chunk = Chunk(fcc: seq<byte>, data: seq<byte>) {
    /** A chunk that the writing functions can write and the reading ones read. */
    predicate Valid() { |fcc| == 4 && 0 < |data| < SIZES }
  }

  function Word(n: nat): (s: seq<byte>)
    requires n < SIZES
    ensures |s| == 4
  {
    [(n % 256) as byte, (n / 256 % 256) as byte, (n / 256 / 256 % 256) as byte, (n / 256 / 256 / 256) as byte]
  }

  function Value(s: seq<byte>): nat
    requires |s| == 4
  {
    s[0] as nat + 256 * (s[1] as nat + 256 * (s[2] as nat + 256 * (s[3] as nat)))
  }

  lemma ValueOfWord(n: nat)
    requires n < SIZES
    ensures Value(Word(n)) == n
  {}

  /** The bytes of a word, the lowest first. */
  lemma WordBytes(n: nat)
    requires n < SIZES
    ensures var s := Word(n);
      && s[0] as nat == n % 256 && s[1] as nat == n / 256 % 256
      && s[2] as nat == n / 65536 % 256 && s[3] as nat == n / 16777216 % 256
  {}

  lemma ValueBytes(s: seq<byte>)
    requires |s| == 4
    ensures Value(s) == s[0] as nat + 256 * s[1] as nat + 65536 * s[2] as nat + 16777216 * s[3] as nat
  {}

  function Pad(n: nat): (s: seq<byte>)
    ensures |s| == n % 2
  {
    if n % 2 == 1 then [0] else []
  }

  function Header(fcc: seq<byte>, size: nat): (s: seq<byte>)
    requires |fcc| == 4 && size < SIZES
    ensures |s| == 8
  {
    fcc + Word(size)
  }

  /** A chunk in the file. */
  function Encode(c: Chunk): seq<byte>
    requires |c.fcc| == 4 && |c.data| < SIZES
  {
    Header(c.fcc, |c.data|) + c.data + Pad(|c.data|)
  }

  ghost predicate AllValid(cs: seq<Chunk>) {
    forall i :: 0 <= i < |cs| ==> cs[i].Valid()
  }

  function EncodeAll(cs: seq<Chunk>): seq<byte>
    requires AllValid(cs)
  {
    if cs == [] then [] else Encode(cs[0]) + EncodeAll(cs[1..])
  }

  lemma {:induction false} EncodeOneMore(cs: seq<Chunk>, c: Chunk)
    requires AllValid(cs) && c.Valid()
    ensures EncodeAll(cs + [c]) == EncodeAll(cs) + Encode(c)
  {
    if cs == [] {
      assert EncodeAll([c]) == Encode(c) + EncodeAll([]);
    } else {
      assert (cs + [c])[1..] == cs[1..] + [c];
      EncodeOneMore(cs[1..], c);
    }
  }

  function EncodedSize(c: Chunk): nat { 8 + |c.data| + |c.data| % 2 }

  /** From position p on the file holds these chunks, and nothing else. */
  ghost predicate Holds(bytes: seq<byte>, p: nat, cs: seq<Chunk>) {
    p <= |bytes| && AllValid(cs) && bytes[p..] == EncodeAll(cs)
  }

  lemma Slice(bytes: seq<byte>, p: nat, i: nat, j: nat)
    requires p <= |bytes| && i <= j <= |bytes| - p
    ensures bytes[p + i..p + j] == bytes[p..][i..j]
  {}

  lemma Concat4(e: seq<byte>, w: seq<byte>, x: seq<byte>, y: seq<byte>, z: seq<byte>)
    requires e == w + (x + (y + z))
    ensures e[..|w|] == w && e[|w|..|w| + |x|] == x
    ensures e[|w| + |x|..|w| + |x| + |y|] == y && e[|w| + |x| + |y|..] == z
  {}

  lemma EncodedParts(cs: seq<Chunk>)
    requires AllValid(cs) && cs != []
    ensures var c := cs[0];
      EncodeAll(cs) == c.fcc + (Word(|c.data|) + (c.data + (Pad(|c.data|) + EncodeAll(cs[1..]))))
  {}

  /** A chunk stands in the file at position p. */
  ghost predicate Stands(bytes: seq<byte>, p: nat, c: Chunk) {
    && c.Valid()
    && p + EncodedSize(c) <= |bytes|
    && bytes[p..p + 4] == c.fcc
    && Value(bytes[p + 4..p + 8]) == |c.data|
    && bytes[p + 8..p + 8 + |c.data|] == c.data
  }

  /** What stands in a file where a chunk begins. */
  lemma ChunkAt(bytes: seq<byte>, p: nat, cs: seq<Chunk>)
    requires Holds(bytes, p, cs) && cs != []
    ensures Stands(bytes, p, cs[0]) && Holds(bytes, p + EncodedSize(cs[0]), cs[1..])
  {
    EncodedParts(cs);
    StandsFirst(bytes, p, cs[0], EncodeAll(cs[1..]));
  }

  lemma StandsFirst(bytes: seq<byte>, p: nat, c: Chunk, rest: seq<byte>)
    requires p <= |bytes| && c.Valid()
    requires bytes[p..] == c.fcc + (Word(|c.data|) + (c.data + (Pad(|c.data|) + rest)))
    ensures Stands(bytes, p, c) && bytes[p + EncodedSize(c)..] == rest
  {
    var n := |c.data|;
    ChunkParts(bytes, p, c.fcc, Word(n), c.data, Pad(n), rest);
    ValueOfWord(n);
  }

  /** Read from position p on, the file consists of these chunks. */
  ghost predicate Parses(bytes: seq<byte>, p: nat, cs: seq<Chunk>)
    decreases |cs|
  {
    if cs == [] then p == |bytes| else Stands(bytes, p, cs[0]) && Parses(bytes, p + EncodedSize(cs[0]), cs[1..])
  }

  lemma {:induction false} EncodedParses(bytes: seq<byte>, p: nat, cs: seq<Chunk>)
    requires Holds(bytes, p, cs)
    ensures Parses(bytes, p, cs)
    decreases |cs|
  {
    if cs != [] {
      ChunkAt(bytes, p, cs);
      EncodedParses(bytes, p + EncodedSize(cs[0]), cs[1..]);
    }
  }

  lemma ChunkParts(bytes: seq<byte>, p: nat, fcc: seq<byte>, word: seq<byte>, data: seq<byte>, pad: seq<byte>,
                   rest: seq<byte>)
    requires p <= |bytes| && bytes[p..] == fcc + (word + (data + (pad + rest)))
    requires |fcc| == 4 && |word| == 4
    ensures var n := |data|;
      && p + 8 + n + |pad| <= |bytes|
      && bytes[p..p + 4] == fcc
      && bytes[p + 4..p + 8] == word
      && bytes[p + 8..p + 8 + n] == data
      && bytes[p + 8 + n + |pad|..] == rest
  {
    var e, n := bytes[p..], |data|;
    Concat4(e, fcc, word, data, pad + rest);
    Slice(bytes, p, 0, 4);
    Slice(bytes, p, 4, 8);
    Slice(bytes, p, 8, 8 + n);
    Slice(bytes, p, 8 + n + |pad|, |bytes| - p);
    assert e[8 + n + |pad|..] == e[8 + n..][|pad|..] == rest;
  }

  /** The number of the image stream that a chunk belongs to, or -1. */
  function StreamOf(fcc: seq<byte>): (n: int)
    requires |fcc| == 4
    ensures -1 <= n <= 9
    ensures n >= 0 ==> fcc[0] == 48 && fcc[1] as int == 48 + n && fcc[2] == 100 && fcc[3] == 98
    ensures n == -1 ==> !(fcc[0] == 48 && 48 <= fcc[1] <= 57 && fcc[2] == 100 && fcc[3] == 98)
  {
    if fcc[0] != ZERO then -1
    else if fcc[1] < ZERO || fcc[1] > NINE then -1
    else if fcc[2] != D then -1
    else if fcc[3] != B then -1
    else (fcc[1] - ZERO) as int
  }

  /** The code of an index, "idx1". */
  predicate IsIndex(fcc: seq<byte>)
    requires |fcc| == 4
  {
    fcc[0] == 105 && fcc[1] == 100 && fcc[2] == 120 && fcc[3] == 49
  }

  function StreamCode(stream: nat): seq<byte>
    requires stream <= 10
  {
    [ZERO, ZERO + stream as byte, D, B]
  }

  /** The code of stream 10, which can be written too, is not recognised. */
  lemma StreamCodes(stream: nat)
    requires stream <= 10
    ensures StreamOf(StreamCode(stream)) == stream <==> stream <= 9
  {}

  // ---------------------------------------------------------------------- writing

  /** A file that is written at its end. */
  class Writer {
    var bytes: seq<byte>

    constructor ()
      ensures bytes == []
    {
      bytes := [];
    }

    /** fwrite of one item: nothing is written, and that is an error, if it has no bytes. */
    method Fwrite(s: seq<byte>) returns (items: nat)
      modifies this
      ensures bytes == old(bytes) + s && items == if s == [] then 0 else 1
    {
      bytes := bytes + s;
      items := if s == [] then 0 else 1;
    }

    method FputChunk(fcc: seq<byte>, data: seq<byte>) returns (ret: int)
      requires |fcc| == 4 && |data| < SIZES
      modifies this
      ensures ret == 0 <==> data != []
      ensures ret == 0 ==> bytes == old(bytes) + Encode(Chunk(fcc, data))
      ensures ret != 0 ==> bytes == old(bytes) + Header(fcc, 0)
    {
      var items := Fwrite(Header(fcc, |data|));
      if items != 1 { assert false; }
      items := Fwrite(data);
      if items != 1 { return -1; }
      if |data| % 2 == 1 {
        items := Fwrite([0]);
        if items != 1 { assert false; }
      }
      ret := 0;
    }

    method FputStream(stream: int, data: seq<byte>) returns (ret: int)
      requires |data| < SIZES
      modifies this
      ensures ret == 0 <==> 0 <= stream <= 10 && data != []
      ensures ret == 0 ==> bytes == old(bytes) + Encode(Chunk(StreamCode(stream), data))
      ensures !(0 <= stream <= 10) ==> bytes == old(bytes)
    {
      if stream < 0 || stream > 10 { return -1; }
      ret := FputChunk(StreamCode(stream), data);
    }

    method FputJunk(data: seq<byte>) returns (ret: int)
      requires |data| < SIZES
      modifies this
      ensures ret == 0 <==> data != []
      ensures ret == 0 ==> bytes == old(bytes) + Encode(Chunk(JUNK, data))
    {
      ret := FputChunk(JUNK, data);
    }
  }

  // ---------------------------------------------------------------------- reading

  class Reader {
    const bytes: seq<byte>
    var pos: nat

    ghost predicate Valid()
      reads this
    {
      pos <= |bytes|
    }

    constructor (bytes: seq<byte>)
      ensures Valid() && this.bytes == bytes && pos == 0
    {
      this.bytes, pos := bytes, 0;
    }

    /** fread of one item of n bytes: at the end of the file whatever is left is consumed. */
    method Fread(n: nat) returns (items: nat, s: seq<byte>)
      requires Valid()
      modifies this
      ensures Valid()
      ensures items == if n > 0 && old(pos) + n <= |bytes| then 1 else 0
      ensures items == 1 ==> s == bytes[old(pos)..old(pos) + n] && pos == old(pos) + n
      ensures items == 0 ==> s == [] && pos == if n == 0 then old(pos) else |bytes|
    {
      if n == 0 { return 0, []; }
      if pos + n <= |bytes| {
        items, s := 1, bytes[pos..pos + n];
        pos := pos + n;
      } else {
        items, s := 0, [];
        pos := |bytes|;
      }
    }

    method FgetChunkHeader() returns (ret: int, fcc: seq<byte>, cb: nat)
      requires Valid()
      modifies this
      ensures Valid()
      ensures ret == 0 <==> old(pos) + 8 <= |bytes|
      ensures ret != 0 ==> pos == |bytes|
      ensures ret == 0 ==> pos == old(pos) + 8 && |fcc| == 4
      ensures ret == 0 ==> fcc == bytes[old(pos)..old(pos) + 4] && cb == Value(bytes[old(pos) + 4..old(pos) + 8])
    {
      var items, s := Fread(8);
      if items != 1 { return -1, [], 0; }
      return 0, s[..4], Value(s[4..]);
    }

    /** The data of a chunk whose header has been read; -1 if there is not enough room or data. */
    method FgetChunkData(cb: nat, maxSize: nat) returns (ret: int, data: seq<byte>)
      requires Valid()
      modifies this
      ensures Valid()
      ensures ret == (if 0 < cb <= maxSize && old(pos) + cb + cb % 2 <= |bytes| then cb else -1)
      ensures ret != -1 ==> data == bytes[old(pos)..old(pos) + cb] && pos == old(pos) + cb + cb % 2
    {
      if cb > maxSize { return -1, []; }
      var pad := if cb % 2 == 1 then 1 else 0;
      var items, s := Fread(cb + pad);
      if items != 1 { return -1, []; }
      return cb, s[..cb];
    }

    /** The next chunk, if there is one. */
    method ReadChunk(maxSize: nat, ghost rest: seq<Chunk>) returns (more: bool, c: Chunk)
      requires Parses(bytes, pos, rest) && (rest != [] ==> |rest[0].data| <= maxSize)
      modifies this
      ensures more <==> rest != []
      ensures more ==> c == rest[0] && Parses(bytes, pos, rest[1..])
      ensures !more ==> pos == |bytes|
    {
      c := Chunk([], []);
      var ret, fcc, cb := FgetChunkHeader();
      if ret != 0 { return false, c; }
      var got, data := FgetChunkData(cb, maxSize);
      if got < 0 { return false, c; }
      return true, Chunk(fcc, data);
    }

    /** Read chunk after chunk until there is no more. */
    method ReadChunks(maxSize: nat, ghost cs: seq<Chunk>) returns (chunks: seq<Chunk>)
      requires Parses(bytes, pos, cs)
      requires forall i :: 0 <= i < |cs| ==> |cs[i].data| <= maxSize
      modifies this
      ensures chunks == cs && pos == |bytes|
    {
      chunks := [];
      ghost var rest := cs;
      while true
        invariant Parses(bytes, pos, rest)
        invariant |chunks| <= |cs| && chunks == cs[..|chunks|] && rest == cs[|chunks|..]
        decreases |rest|
      {
        var more, c := ReadChunk(maxSize, rest);
        if !more { break; }
        NextOf(cs, |chunks|);
        chunks := chunks + [c];
        rest := rest[1..];
      }
    }
  }

  lemma NextOf(cs: seq<Chunk>, k: nat)
    requires k < |cs|
    ensures cs[k..][0] == cs[k] && cs[k..][1..] == cs[k + 1..] && cs[..k + 1] == cs[..k] + [cs[k]]
  {}

  /** What is written chunk by chunk is read back chunk by chunk. */
  method WriteThenRead(cs: seq<Chunk>, maxSize: nat) returns (back: seq<Chunk>)
    requires AllValid(cs) && forall i :: 0 <= i < |cs| ==> |cs[i].data| <= maxSize
    ensures back == cs
  {
    var w := new Writer();
    var i := 0;
    while i < |cs|
      invariant 0 <= i <= |cs| && w.bytes == EncodeAll(cs[..i])
    {
      var ret := w.FputChunk(cs[i].fcc, cs[i].data);
      EncodeOneMore(cs[..i], cs[i]);
      assert cs[..i + 1] == cs[..i] + [cs[i]];
      i := i + 1;
    }
    assert cs[..|cs|] == cs;
    var r := new Reader(w.bytes);
    assert w.bytes[0..] == w.bytes;
    EncodedParses(w.bytes, 0, cs);
    back := r.ReadChunks(maxSize, cs);
  }
}
