/**
 * The compressor as a whole: the file is split into chunks, every chunk's
 * characters are counted into a table of its own, the tables are joined,
 * the tree and code table are built from the joined counts, every chunk is
 * encoded, and the header and the chunks are written in chunk order.  The
 * threads of the parallel drivers only decide when each step runs; every
 * chunk has a table and a result of its own, so the outcome is the one of
 * these steps run in index order.
 */
module Pipeline {
  import opened Bits
  import opened Huffman
  import opened Codes
  import opened Chunking
  import opened Counting
  import opened Encoder
  import opened FileFormat
  import opened HuffmanTrees
  import opened Decoder

  /** Every symbol of s has a leaf in root. */
  predicate InTree(root: Tree, s: seq<int>)
  {
    forall i :: 0 <= i < |s| ==> HasSymbol(root, s[i])
  }

  /**
   * A chunk record as the encoder leaves it for the symbols s: its bytes
   * hold the codes of s followed by zero bits; an empty code sequence gives
   * no byte and padding 8, any other a padding in 0..7 that tells the zero
   * bits apart from the code bits.
   */
  predicate EncodedAs(root: Tree, s: seq<int>, r: ChunkRecord)
    requires InTree(root, s)
  {
    var bits := Paths(root, s);
    && |bits| <= 8 * |r.data|
    && BytesToBits(r.data) == bits + Zeros(8 * |r.data| - |bits|)
    && (bits == [] ==> r.padding == 8 && r.data == [])
    && (bits != [] ==> 0 <= r.padding < 8 && RealSize(r) == |bits|)
  }

  /** The n chunks of the file, in order. */
  function Chunks(file: seq<int>, n: nat): (cs: seq<seq<int>>)
    requires n >= 1
    ensures |cs| == n
  {
    seq(n, i requires 0 <= i < n => ChunkOf(file, n, i))
  }

  /**
   * What the decoder as written recovers from the encoded chunks: an empty
   * chunk adds nothing, a chunk whose codes fill its bytes exactly loses
   * its last symbol, and the first chunk whose codes end inside its last
   * byte is recovered whole and ends the decoding.
   */
  function AsWrittenOutput(root: Tree, chunks: seq<seq<int>>): seq<int>
    requires forall k :: 0 <= k < |chunks| ==> InTree(root, chunks[k])
  {
    if chunks == [] then []
    else
      var c := chunks[0];
      assert InTree(root, c);
      if c == [] then AsWrittenOutput(root, chunks[1..])
      else if |Paths(root, c)| % 8 == 0 then c[..|c| - 1] + AsWrittenOutput(root, chunks[1..])
      else c
  }

  // ------------------------------------------------------------------ counting

  /**
   * The read-and-count phase: one zeroed 128-entry table per chunk, each
   * filled by the counting loop over its own chunk, then joined into the
   * count vector.  The result is the count table of the whole file.
   */
  method CountChunks(chunks: seq<seq<int>>) returns (counts: seq<int>)
    requires forall k :: 0 <= k < |chunks| ==> InRange(chunks[k], AsciiSize)
    ensures counts == Histogram(Concat(chunks), AsciiSize)
  {
    var partials: seq<seq<int>> := [];
    var k := 0;
    while k < |chunks|
      invariant 0 <= k <= |chunks|
      invariant |partials| == k
      invariant forall j :: 0 <= j < k ==> partials[j] == Histogram(chunks[j], AsciiSize)
    {
      var partial := new int[AsciiSize](_ => 0);
      CountChars(chunks[k], partial);
      assert partial[..] == Histogram(chunks[k], AsciiSize);
      partials := partials + [partial[..]];
      k := k + 1;
    }
    assert partials == Histograms(chunks, AsciiSize);
    counts := JoinCounts(partials);
    JoinedCountsOfChunks(Concat(chunks), chunks);
  }

  // ------------------------------------------------------------------ encoding

  /** In a tree at most 31 levels deep, the code bits of s take at most 31 bits per symbol. */
  lemma {:induction false} PathsBound(t: Tree, s: seq<int>)
    requires InTree(t, s) && Height(t) <= 31
    ensures |Paths(t, s)| <= 31 * |s|
  {
    if s != [] {
      assert InTree(t, s[1..]);
      PathsBound(t, s[1..]);
    }
  }

  /** With codes of at most 31 bits, a chunk encodes into at most 4 bytes per symbol. */
  lemma EncodedSize(nbits: nat, bytes: nat, symbols: nat)
    requires nbits <= 31 * symbols && bytes == (nbits + 7) / 8
    ensures bytes <= 4 * symbols
  {
  }

  /**
   * One task of the encoding phase: `encode_chunk` on a chunk with the code
   * table of the tree, giving the chunk's record.
   */
  method EncodeRecord(root: Tree, codeTable: seq<(int, int)>, chunk: seq<int>) returns (r: ChunkRecord)
    requires Height(root) <= 31 && InTree(root, chunk)
    requires Encodable(codeTable, chunk) && EncodeBits(codeTable, chunk) == Paths(root, chunk)
    ensures EncodedAs(root, chunk, r)
    ensures |r.data| <= 4 * |chunk| && IsChar(r.padding)
  {
    var encoded, padding := EncodeChunk(codeTable, chunk);
    r := ChunkRecord(padding, encoded);
    RecordOfBits(root, chunk, EncodeBits(codeTable, chunk), r);
  }

  /** A record laid out by the packing loop from the code bits of chunk encodes chunk. */
  lemma RecordOfBits(root: Tree, chunk: seq<int>, bits: seq<bool>, r: ChunkRecord)
    requires Height(root) <= 31 && InTree(root, chunk) && bits == Paths(root, chunk)
    requires |r.data| == (|bits| + 7) / 8
    requires BytesToBits(r.data) == bits + Zeros(8 * |r.data| - |bits|)
    requires bits == [] ==> r.padding == 8 && r.data == []
    requires bits != [] ==> 0 <= r.padding < 8 && 8 * |r.data| - r.padding == |bits|
    ensures EncodedAs(root, chunk, r)
    ensures |r.data| <= 4 * |chunk| && IsChar(r.padding)
  {
    PathsBound(root, chunk);
    EncodedSize(|bits|, |r.data|, |chunk|);
  }

  /** The encoding phase: one record per chunk, collected in chunk order. */
  method EncodeChunks(root: Tree, codeTable: seq<(int, int)>, chunks: seq<seq<int>>) returns (records: seq<ChunkRecord>)
    requires Height(root) <= 31 && codeTable == CodeTable(root, 256)
    requires forall k :: 0 <= k < |chunks| ==> InRange(chunks[k], 256) && InTree(root, chunks[k])
    ensures |records| == |chunks|
    ensures forall k :: 0 <= k < |chunks| ==> EncodedAs(root, chunks[k], records[k])
    ensures forall k :: 0 <= k < |chunks| ==> |records[k].data| <= 4 * |chunks[k]| && IsChar(records[k].padding)
  {
    records := [];
    var i := 0;
    while i < |chunks|
      invariant 0 <= i <= |chunks|
      invariant |records| == i
      invariant forall k :: 0 <= k < i ==> EncodedAs(root, chunks[k], records[k])
      invariant forall k :: 0 <= k < i ==> |records[k].data| <= 4 * |chunks[k]| && IsChar(records[k].padding)
    {
      EncodeWithTree(root, 256, chunks[i]);
      var r := EncodeRecord(root, codeTable, chunks[i]);
      RecordsSnoc(root, chunks, records, r);
      records := records + [r];
      i := i + 1;
    }
  }

  /** Adding the record of the next chunk keeps every record encoding its chunk. */
  lemma RecordsSnoc(root: Tree, chunks: seq<seq<int>>, records: seq<ChunkRecord>, r: ChunkRecord)
    requires |records| < |chunks|
    requires forall k :: 0 <= k < |chunks| ==> InTree(root, chunks[k])
    requires forall k :: 0 <= k < |records| ==> EncodedAs(root, chunks[k], records[k])
    requires forall k :: 0 <= k < |records| ==> |records[k].data| <= 4 * |chunks[k]| && IsChar(records[k].padding)
    requires EncodedAs(root, chunks[|records|], r) && |r.data| <= 4 * |chunks[|records|]| && IsChar(r.padding)
    ensures forall k :: 0 <= k <= |records| ==> EncodedAs(root, chunks[k], (records + [r])[k])
    ensures forall k :: 0 <= k <= |records| ==> |(records + [r])[k].data| <= 4 * |chunks[k]| && IsChar((records + [r])[k].padding)
  {
    forall k | 0 <= k <= |records|
      ensures (records + [r])[k] == if k < |records| then records[k] else r
    {
    }
  }

  // ------------------------------------------------------------------ writing

  /**
   * The writer: the chunk count and the counts, then for every chunk its
   * size, its padding byte and its bytes, in chunk order.
   */
  method WriteContainer(counts: seq<int>, records: seq<ChunkRecord>) returns (output: seq<Byte>)
    requires ValidContainer(Container(counts, records))
    ensures output == Serialize(Container(counts, records))
  {
    output := HeaderBytes(|records|, counts);
    var i := 0;
    while i < |records|
      invariant 0 <= i <= |records|
      invariant output == HeaderBytes(|records|, counts) + ChunksBytes(records[..i])
    {
      assert records[..i + 1][..i] == records[..i];
      output := output + ChunkBytes(records[i]);
      i := i + 1;
    }
    assert records[..i] == records;
  }

  // ------------------------------------------------------------------ the file

  /** Every symbol of the file has a leaf in the tree built from its counts. */
  lemma FileSymbolsInTree(file: seq<int>, sortedLeaves: seq<Tree>)
    requires InRange(file, AsciiSize)
    requires SortedPermutationOf(sortedLeaves, NonzeroLeaves(Histogram(file, AsciiSize), AsciiSize))
    requires |sortedLeaves| >= 1
    ensures InTree(HuffmanOf(sortedLeaves), file)
  {
    var counts := Histogram(file, AsciiSize);
    var root := HuffmanOf(sortedLeaves);
    PermutedLeaves(sortedLeaves, counts, AsciiSize);
    HuffmanOfKeeps(sortedLeaves);
    NonzeroLeavesExact(counts, AsciiSize);
    forall i | 0 <= i < |file|
      ensures HasSymbol(root, file[i])
    {
      var c := file[i];
      OccursPositive(file, i);
      var l := Leaf(c, counts[c]);
      assert l in NonzeroLeaves(counts, AsciiSize);
      assert l in multiset(NonzeroLeaves(counts, AsciiSize));
      assert l in multiset(LeavesOf(root));
      LeafHasSymbol(root, l);
    }
  }

  /** Every chunk of the file holds symbols of the file only, and no more than the file has. */
  lemma ChunksOfFile(file: seq<int>, n: nat, root: Tree)
    requires n >= 1 && InRange(file, AsciiSize) && InTree(root, file)
    ensures forall k :: 0 <= k < n ==>
              InRange(Chunks(file, n)[k], AsciiSize) && InTree(root, Chunks(file, n)[k]) && |Chunks(file, n)[k]| <= |file|
  {
    forall k | 0 <= k < n
      ensures InRange(Chunks(file, n)[k], AsciiSize) && InTree(root, Chunks(file, n)[k]) && |Chunks(file, n)[k]| <= |file|
    {
      ChunkOfSlice(file, n, k);
    }
  }

  /** The counts of the file fit a 32-bit `int`. */
  lemma CountsFit(file: seq<int>)
    requires |file| <= Int32Max
    ensures forall c :: 0 <= c < AsciiSize ==> IsInt32(Histogram(file, AsciiSize)[c])
  {
    forall c | 0 <= c < AsciiSize
      ensures IsInt32(Histogram(file, AsciiSize)[c])
    {
      OccurrencesBound(file, c);
    }
  }

  /**
   * The compressor: split, count, build the tree, encode, write.  The file
   * it writes parses back to the count table of the input and one record per
   * chunk; the corrected decoder recovers the input from those records, and
   * the decoder as written recovers `AsWrittenOutput`.
   */
  method CompressFile(file: seq<int>, nChunks: int, sortedLeaves: seq<Tree>) returns (output: seq<Byte>)
    requires InRange(file, AsciiSize)
    requires 1 <= nChunks <= Int32Max
    requires 4 * |file| <= Int32Max
    requires SortedPermutationOf(sortedLeaves, NonzeroLeaves(Histogram(file, AsciiSize), AsciiSize))
    requires |sortedLeaves| >= 2
    requires Height(HuffmanOf(sortedLeaves)) <= 31
    ensures HuffmanOf(sortedLeaves).Node? && InTree(HuffmanOf(sortedLeaves), file)
    ensures Parse(output).Some?
    ensures Parse(output).value.counts == Histogram(file, AsciiSize)
    ensures |Parse(output).value.chunks| == nChunks
    ensures DecodeChunksFixed(HuffmanOf(sortedLeaves), Parse(output).value.chunks) == file
    ensures (forall k :: 0 <= k < nChunks ==> InTree(HuffmanOf(sortedLeaves), Chunks(file, nChunks)[k]))
            && DecodeChunks(HuffmanOf(sortedLeaves), Parse(output).value.chunks)
               == AsWrittenOutput(HuffmanOf(sortedLeaves), Chunks(file, nChunks))
  {
    var chunks := SplitChunks(file, nChunks);
    assert chunks == Chunks(file, nChunks);
    var root := HuffmanOf(sortedLeaves);
    FileSymbolsInTree(file, sortedLeaves);
    ChunksOfFile(file, nChunks, root);

    var counts := CountChunks(chunks);
    CountsFit(file);
    var ht := new HuffmanTree(counts, sortedLeaves);
    var codeTable := ht.codeTable[..];

    var records := EncodeChunks(root, codeTable, chunks);
    var container := Container(counts, records);
    assert ValidContainer(container);
    output := WriteContainer(counts, records);
    ParseSerialize(container);
    FixedDecodes(root, chunks, records);
    AsWrittenDecodes(root, chunks, records);
  }

  /** The corrected decoder recovers the concatenation of the encoded chunks. */
  lemma {:induction false} FixedDecodes(root: Tree, chunks: seq<seq<int>>, records: seq<ChunkRecord>)
    requires root.Node? && |chunks| == |records|
    requires forall k :: 0 <= k < |chunks| ==> InTree(root, chunks[k])
    requires forall k :: 0 <= k < |chunks| ==> EncodedAs(root, chunks[k], records[k])
    ensures DecodeChunksFixed(root, records) == Concat(chunks)
  {
    if chunks != [] {
      FixedChunkRoundTrip(root, chunks[0], records[0]);
      FixedDecodes(root, chunks[1..], records[1..]);
      ConcatCons(chunks);
    }
  }

  /** The decoder as written recovers `AsWrittenOutput` of the encoded chunks. */
  lemma {:induction false} AsWrittenDecodes(root: Tree, chunks: seq<seq<int>>, records: seq<ChunkRecord>)
    requires root.Node? && |chunks| == |records|
    requires forall k :: 0 <= k < |chunks| ==> InTree(root, chunks[k])
    requires forall k :: 0 <= k < |chunks| ==> EncodedAs(root, chunks[k], records[k])
    ensures DecodeChunks(root, records) == AsWrittenOutput(root, chunks)
  {
    if chunks != [] {
      var c, r, more := chunks[0], records[0], records[1..];
      assert records == [r] + more;
      AsWrittenDecodes(root, chunks[1..], more);
      AsWrittenChunk(root, c, r, more);
    }
  }

  /** The decoder as written on an encoded chunk followed by more chunks. */
  lemma AsWrittenChunk(root: Tree, c: seq<int>, r: ChunkRecord, more: seq<ChunkRecord>)
    requires root.Node? && InTree(root, c) && EncodedAs(root, c, r)
    ensures DecodeChunks(root, [r] + more)
            == if c == [] then DecodeChunks(root, more)
               else if |Paths(root, c)| % 8 == 0 then c[..|c| - 1] + DecodeChunks(root, more)
               else c
  {
    var bits := Paths(root, c);
    if c == [] {
      assert BytesToBits(r.data) == [];
      assert ([r] + more)[1..] == more;
    } else {
      assert HasSymbol(root, c[0]);
      assert |bits| >= 1;
      PaddingZero(|bits|, |r.data|, r.padding);
      if r.padding == 0 {
        assert Zeros(0) == [] && bits + [] == bits;
        UnpaddedChunkLosesLast(root, c, r, more);
      } else {
        PaddedChunkEndsDecoding(root, c, r, more);
      }
    }
  }

  /** With 8 * bytes - padding == nbits and padding in 0..7, padding is 0 exactly when nbits fills whole bytes. */
  lemma PaddingZero(nbits: nat, bytes: nat, padding: int)
    requires 0 <= padding < 8 && 8 * bytes - padding == nbits
    ensures padding == 0 <==> nbits % 8 == 0
  {
  }
}
