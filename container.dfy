/**
 * The compressed file: the number of chunks and the 128 character counts,
 * each a 32-bit `int`, then for every chunk in index order its size in
 * bytes (an `int`), its padding (one `char`) and its bytes.  The `int`s are
 * written here in little-endian two's complement.
 */
module FileFormat {
  import opened Wrappers
  import opened Bits

  const Int32Min := -0x8000_0000
  const Int32Max := 0x7fff_ffff

  /** Number of counts in the header. */
  const HeaderCounts := 128

  predicate IsInt32(v: int)
  {
    Int32Min <= v <= Int32Max
  }

  /** A signed `char`. */
  predicate IsChar(v: int)
  {
    -128 <= v < 128
  }

  /** One encoded chunk: its padding and its bytes (the size is the length). */
  datatype ChunkRecord = ChunkRecord(padding: int, data: seq<Byte>)

  /** The contents of a compressed file. */
  datatype Container = Container(counts: seq<int>, chunks: seq<ChunkRecord>)

  /** What the writers can store: 32-bit counts and sizes, and a `char` padding. */
  predicate ValidContainer(c: Container)
  {
    && |c.counts| == HeaderCounts
    && (forall i :: 0 <= i < |c.counts| ==> IsInt32(c.counts[i]))
    && |c.chunks| <= Int32Max
    && forall k :: 0 <= k < |c.chunks| ==> |c.chunks[k].data| <= Int32Max && IsChar(c.chunks[k].padding)
  }

  /** The four bytes of an `int`, least significant first. */
  function Int32Bytes(v: int): (bs: seq<Byte>)
    requires IsInt32(v)
    ensures |bs| == 4
  {
    var u := if v < 0 then v + 0x1_0000_0000 else v;
    [u % 256, u / 256 % 256, u / 256 / 256 % 256, u / 256 / 256 / 256 % 256]
  }

  /** The `int` four bytes hold. */
  function Int32Of(bs: seq<Byte>): (v: int)
    requires |bs| == 4
    ensures IsInt32(v)
  {
    var u := Digits(bs[0], bs[1], bs[2], bs[3]);
    if u > Int32Max then u - 0x1_0000_0000 else u
  }

  /** The value of four base-256 digits, least significant first. */
  function Digits(b0: Byte, b1: Byte, b2: Byte, b3: Byte): (u: int)
    ensures 0 <= u < 0x1_0000_0000
  {
    b0 as int + 256 * (b1 as int + 256 * (b2 as int + 256 * (b3 as int)))
  }

  lemma Int32RoundTrip(v: int)
    requires IsInt32(v)
    ensures Int32Of(Int32Bytes(v)) == v
  {
    var u := if v < 0 then v + 0x1_0000_0000 else v;
    var bs := Int32Bytes(v);
    assert Digits(bs[0], bs[1], bs[2], bs[3]) == u;
  }

  lemma Int32BytesRoundTrip(bs: seq<Byte>)
    requires |bs| == 4
    ensures Int32Bytes(Int32Of(bs)) == bs
  {
    var w2 := bs[2] as int + 256 * (bs[3] as int);
    var w1 := bs[1] as int + 256 * w2;
    var u := bs[0] as int + 256 * w1;
    DigitStep(bs[0], w1);
    DigitStep(bs[1], w2);
    DigitStep(bs[2], bs[3] as int);
  }

  /** Dividing by 256 drops the lowest digit. */
  lemma DigitStep(b: Byte, w: nat)
    ensures (b + 256 * w) % 256 == b && (b + 256 * w) / 256 == w
  {
  }

  /** The byte a signed `char` is written as. */
  function CharByte(v: int): Byte
    requires IsChar(v)
  {
    if v < 0 then v + 256 else v
  }

  /** The signed `char` a byte is read back as. */
  function CharOf(b: Byte): (v: int)
    ensures IsChar(v)
  {
    if b >= 128 then b - 256 else b
  }

  /** A run of `int`s laid out one after the other. */
  function Int32sBytes(vs: seq<int>): (bs: seq<Byte>)
    requires forall i :: 0 <= i < |vs| ==> IsInt32(vs[i])
    ensures |bs| == 4 * |vs|
  {
    if vs == [] then [] else Int32Bytes(vs[0]) + Int32sBytes(vs[1..])
  }

  /** The header: chunk count, then the counts in symbol order. */
  function HeaderBytes(nChunks: int, counts: seq<int>): (bs: seq<Byte>)
    requires IsInt32(nChunks)
    requires forall i :: 0 <= i < |counts| ==> IsInt32(counts[i])
    ensures |bs| == 4 + 4 * |counts|
  {
    Int32Bytes(nChunks) + Int32sBytes(counts)
  }

  /** One chunk: size, padding byte, data. */
  function ChunkBytes(r: ChunkRecord): (bs: seq<Byte>)
    requires |r.data| <= Int32Max && IsChar(r.padding)
    ensures |bs| == 5 + |r.data|
  {
    Int32Bytes(|r.data|) + [CharByte(r.padding)] + r.data
  }

  /** The chunks in index order. */
  function ChunksBytes(rs: seq<ChunkRecord>): seq<Byte>
    requires forall k :: 0 <= k < |rs| ==> |rs[k].data| <= Int32Max && IsChar(rs[k].padding)
  {
    if rs == [] then [] else ChunksBytes(rs[..|rs| - 1]) + ChunkBytes(rs[|rs| - 1])
  }

  function Serialize(c: Container): seq<Byte>
    requires ValidContainer(c)
  {
    HeaderBytes(|c.chunks|, c.counts) + ChunksBytes(c.chunks)
  }

  /** n `int`s from the front of bs. */
  function ParseInt32s(bs: seq<Byte>, n: nat): (vs: seq<int>)
    requires |bs| >= 4 * n
    ensures |vs| == n && forall i :: 0 <= i < n ==> IsInt32(vs[i])
  {
    if n == 0 then [] else [Int32Of(bs[..4])] + ParseInt32s(bs[4..], n - 1)
  }

  /**
   * The decoder's chunk loop reads `n` chunks (none for n <= 0); a
   * negative size or a file that ends early gives no result.
   */
  function ParseChunks(bs: seq<Byte>, n: int): Option<seq<ChunkRecord>>
    decreases n
  {
    if n <= 0 then Some([])
    else if |bs| < 5 then None
    else
      var size := Int32Of(bs[..4]);
      if size < 0 || |bs| < 5 + size then None
      else
        match ParseChunks(bs[5 + size..], n - 1)
        case None => None
        case Some(rest) => Some([ChunkRecord(CharOf(bs[4]), bs[5..5 + size])] + rest)
  }

  /** The header read by the decoder, then its chunks; bytes after the last chunk are ignored. */
  function Parse(bs: seq<Byte>): Option<Container>
  {
    if |bs| < 4 + 4 * HeaderCounts then None
    else
      var n := Int32Of(bs[..4]);
      var counts := ParseInt32s(bs[4..4 + 4 * HeaderCounts], HeaderCounts);
      match ParseChunks(bs[4 + 4 * HeaderCounts..], n)
      case None => None
      case Some(chunks) => Some(Container(counts, chunks))
  }

  lemma {:induction false} ParseInt32sRoundTrip(vs: seq<int>, rest: seq<Byte>)
    requires forall i :: 0 <= i < |vs| ==> IsInt32(vs[i])
    ensures ParseInt32s(Int32sBytes(vs) + rest, |vs|) == vs
  {
    if vs != [] {
      var bs := Int32sBytes(vs) + rest;
      assert bs[..4] == Int32Bytes(vs[0]);
      assert bs[4..] == Int32sBytes(vs[1..]) + rest;
      Int32RoundTrip(vs[0]);
      ParseInt32sRoundTrip(vs[1..], rest);
    }
  }

  /** The chunks written front to back: the first chunk, then the others. */
  lemma ChunksBytesCons(rs: seq<ChunkRecord>)
    requires rs != []
    requires forall k :: 0 <= k < |rs| ==> |rs[k].data| <= Int32Max && IsChar(rs[k].padding)
    ensures ChunksBytes(rs) == ChunkBytes(rs[0]) + ChunksBytes(rs[1..])
  {
    var first, more := [rs[0]], rs[1..];
    assert rs == first + more;
    assert forall k :: 0 <= k < |more| ==> more[k] == rs[k + 1];
    assert first[..0] == [];
    assert ChunksBytes(first) == ChunksBytes([]) + ChunkBytes(rs[0]) == ChunkBytes(rs[0]);
    ChunksBytesAppend(first, more);
  }

  /** Writing a + b is writing a, then b. */
  lemma {:induction false} ChunksBytesAppend(a: seq<ChunkRecord>, b: seq<ChunkRecord>)
    requires forall k :: 0 <= k < |a| ==> |a[k].data| <= Int32Max && IsChar(a[k].padding)
    requires forall k :: 0 <= k < |b| ==> |b[k].data| <= Int32Max && IsChar(b[k].padding)
    ensures forall k :: 0 <= k < |a + b| ==> |(a + b)[k].data| <= Int32Max && IsChar((a + b)[k].padding)
    ensures ChunksBytes(a + b) == ChunksBytes(a) + ChunksBytes(b)
    decreases |b|
  {
    if b == [] {
      assert a + b == a;
    } else {
      var init, last := b[..|b| - 1], b[|b| - 1];
      assert forall k :: 0 <= k < |init| ==> init[k] == b[k];
      ChunksBytesAppend(a, init);
      assert (a + b)[..|a + b| - 1] == a + init && (a + b)[|a + b| - 1] == last;
      assert (ChunksBytes(a) + ChunksBytes(init)) + ChunkBytes(last) == ChunksBytes(a) + (ChunksBytes(init) + ChunkBytes(last));
    }
  }

  /** Where the fields of one written chunk sit in front of what follows it. */
  lemma ChunkFields(r: ChunkRecord, tail: seq<Byte>)
    requires |r.data| <= Int32Max && IsChar(r.padding)
    ensures var bs := ChunkBytes(r) + tail;
      && |bs| >= 5 + |r.data|
      && bs[..4] == Int32Bytes(|r.data|)
      && bs[4] == CharByte(r.padding)
      && bs[5..5 + |r.data|] == r.data
      && bs[5 + |r.data|..] == tail
  {
    var bs := ChunkBytes(r) + tail;
    assert bs == Int32Bytes(|r.data|) + ([CharByte(r.padding)] + (r.data + tail));
  }

  /** Reading one written chunk, then n - 1 more from what follows it. */
  lemma ParseChunkStep(r: ChunkRecord, tail: seq<Byte>, n: int)
    requires |r.data| <= Int32Max && IsChar(r.padding) && n > 0
    ensures ParseChunks(ChunkBytes(r) + tail, n) ==
      if ParseChunks(tail, n - 1).Some? then Some([r] + ParseChunks(tail, n - 1).value) else None
  {
    ChunkFields(r, tail);
    Int32RoundTrip(|r.data|);
  }

  lemma {:induction false} ParseChunksRoundTrip(rs: seq<ChunkRecord>, rest: seq<Byte>)
    requires forall k :: 0 <= k < |rs| ==> |rs[k].data| <= Int32Max && IsChar(rs[k].padding)
    ensures ParseChunks(ChunksBytes(rs) + rest, |rs|) == Some(rs)
  {
    if rs != [] {
      var tail := ChunksBytes(rs[1..]) + rest;
      ChunksBytesCons(rs);
      assert ChunksBytes(rs) + rest == ChunkBytes(rs[0]) + tail;
      ParseChunkStep(rs[0], tail, |rs|);
      ParseChunksRoundTrip(rs[1..], rest);
      assert [rs[0]] + rs[1..] == rs;
    }
  }

  /** What the encoders write, the decoder reads back. */
  lemma ParseSerialize(c: Container)
    requires ValidContainer(c)
    ensures Parse(Serialize(c)) == Some(c)
  {
    var bs := Serialize(c);
    var n := |c.chunks|;
    assert bs[..4] == Int32Bytes(n);
    Int32RoundTrip(n);
    assert bs[4..4 + 4 * HeaderCounts] == Int32sBytes(c.counts) + [];
    ParseInt32sRoundTrip(c.counts, []);
    assert bs[4 + 4 * HeaderCounts..] == ChunksBytes(c.chunks) + [];
    ParseChunksRoundTrip(c.chunks, []);
  }
}
