/**
 * The decoder: it reads the header, rebuilds the tree from the counts and
 * walks the bits of every chunk from the root, most significant bit of
 * each byte first.  Before each bit it checks whether the cursor is at a
 * leaf; if so it emits the leaf's symbol and goes back to the root.  When
 * its bit counter reaches `chunk_size * 8 - padding` it returns from the
 * program.
 *
 * Two behaviours follow from that order of checks: a chunk whose padding is
 * 0 never emits its last symbol (the loop ends before the leaf check that
 * would), and the first chunk whose useful bits end inside its last byte
 * ends the whole decoding.  `DecodeChunks` models the loop as written;
 * `DecodeChunksFixed` decodes every chunk over its useful bits and is the
 * decoder the round trip is proved for.
 */
module Decoder {
  import opened Bits
  import opened Huffman
  import opened Codes
  import opened Encoder
  import opened FileFormat
  import opened HuffmanTrees

  /** `chunk_size * 8 - padding`: the number of bits of the chunk that carry codes. */
  function RealSize(r: ChunkRecord): int
  {
    8 * |r.data| - r.padding
  }

  /**
   * The bit loop over one chunk, as written: the symbols emitted and whether
   * the counter reached `realSize` (which returns from the program).  A
   * leaf reached by the last bit is not emitted, as no check follows it.
   */
  function Walk(root: Tree, cur: Tree, bits: seq<bool>, counter: int, realSize: int): (r: (seq<int>, bool))
    requires root.Node?
    decreases |bits|
  {
    if bits == [] then ([], false)
    else
      var emitted := if cur.Leaf? then [cur.ch] else [];
      var at := if cur.Leaf? then root else cur;
      if counter == realSize then (emitted, true)
      else
        var r := Walk(root, if bits[0] then at.right else at.left, bits[1..], counter + 1, realSize);
        (emitted + r.0, r.1)
  }

  /** The chunk loop, as written: it stops after the first chunk whose walk returned. */
  function DecodeChunks(root: Tree, chunks: seq<ChunkRecord>): seq<int>
    requires root.Node?
  {
    if chunks == [] then []
    else
      var r := Walk(root, root, BytesToBits(chunks[0].data), 0, RealSize(chunks[0]));
      if r.1 then r.0 else r.0 + DecodeChunks(root, chunks[1..])
  }

  /** One step of the walk over a bit string that is not exhausted. */
  lemma WalkStep(root: Tree, cur: Tree, bits: seq<bool>, k: nat, realSize: int)
    requires root.Node? && k < |bits|
    ensures var emitted := if cur.Leaf? then [cur.ch] else [];
            var at := if cur.Leaf? then root else cur;
            var w := Walk(root, cur, bits[k..], k, realSize);
            if k == realSize then w == (emitted, true)
            else
              var next := Walk(root, if bits[k] then at.right else at.left, bits[k + 1..], k + 1, realSize);
              w == (emitted + next.0, next.1)
  {
    assert bits[k..][1..] == bits[k + 1..];
  }

  /**
   * The decoder's `main` after the header: the tree is rebuilt from the
   * counts (with the same sort outcome as the encoder), then the chunks are
   * decoded in order until one of them returns.  The output is the
   * as-written decoding of the chunks.
   */
  method DecodeFile(file: Container, sortedLeaves: seq<Tree>) returns (output: seq<int>)
    requires |file.counts| == HeaderCounts
    requires SortedPermutationOf(sortedLeaves, NonzeroLeaves(file.counts, |file.counts|))
    requires |sortedLeaves| >= 2
    ensures HuffmanOf(sortedLeaves).Node?
    ensures output == DecodeChunks(HuffmanOf(sortedLeaves), file.chunks)
  {
    var ht := new HuffmanTree(file.counts, sortedLeaves);
    var root := ht.root;
    var chunks := file.chunks;
    output := [];
    var i := 0;
    while i < |chunks|
      invariant 0 <= i <= |chunks|
      invariant DecodeChunks(root, chunks) == output + DecodeChunks(root, chunks[i..])
    {
      assert chunks[i..][0] == chunks[i] && chunks[i..][1..] == chunks[i + 1..];
      var emitted, stop := DecodeChunk(root, chunks[i]);
      output := output + emitted;
      if stop {
        return;
      }
      i := i + 1;
    }
  }

  /**
   * The output so far plus the rest of the walk still gives the whole walk
   * once the next step's emitted symbols move from the rest to the output.
   */
  lemma OutputStep(whole: (seq<int>, bool), done: seq<int>, more: seq<int>,
                   w: (seq<int>, bool), rest: (seq<int>, bool))
    requires whole == (done + w.0, w.1)
    requires w == (more + rest.0, rest.1)
    ensures whole == ((done + more) + rest.0, rest.1)
  {
    assert done + (more + rest.0) == (done + more) + rest.0;
  }

  /**
   * The walk over one chunk, byte by byte; `stop` says that the counter
   * reached `chunk_size * 8 - padding`, where the source returns from the
   * program.
   */
  method DecodeChunk(root: Tree, rec: ChunkRecord) returns (emitted: seq<int>, stop: bool)
    requires root.Node?
    ensures (emitted, stop) == Walk(root, root, BytesToBits(rec.data), 0, RealSize(rec))
  {
    var realSize := 8 * |rec.data| - rec.padding;
    ghost var bits := BytesToBits(rec.data);
    ghost var whole := Walk(root, root, bits, 0, realSize);
    emitted := [];
    var current := root;
    var counter := 0;
    assert bits[counter..] == bits;
    assert emitted + whole.0 == whole.0;
    var b := 0;
    while b < |rec.data|
      invariant 0 <= b <= |rec.data| && counter == 8 * b
      invariant whole == (emitted + Walk(root, current, bits[counter..], counter, realSize).0,
                          Walk(root, current, bits[counter..], counter, realSize).1)
    {
      ghost var w := Walk(root, current, bits[counter..], counter, realSize);
      ghost var done := emitted;
      forall j | 0 <= j < 8
        ensures bits[counter..counter + 8][j] == NatToBits(rec.data[b], 8)[j]
      {
        BytesToBitsIndex(rec.data, b, j);
      }
      var more;
      more, current, stop := DecodeByte(root, bits, rec.data[b], current, counter, realSize);
      emitted := emitted + more;
      if stop {
        return;
      }
      ghost var rest := Walk(root, current, bits[counter + 8..], counter + 8, realSize);
      OutputStep(whole, done, more, w, rest);
      counter := counter + 8;
      b := b + 1;
    }
    assert bits[counter..] == [];
    assert emitted + [] == emitted;
    stop := false;
  }

  /**
   * The walk over one byte `buf` of the chunk's bits, which sits at
   * position `counter`: bit j is `(buf >> buf_shift) & 1` with `buf_shift`
   * running from 7 to 0.
   */
  method DecodeByte(root: Tree, ghost bits: seq<bool>, buf: Byte, current: Tree, counter: nat, realSize: int)
    returns (emitted: seq<int>, current': Tree, stop: bool)
    requires root.Node?
    requires counter + 8 <= |bits| && bits[counter..counter + 8] == NatToBits(buf, 8)
    ensures stop ==> Walk(root, current, bits[counter..], counter, realSize) == (emitted, true)
    ensures !stop ==> Walk(root, current, bits[counter..], counter, realSize)
                      == (emitted + Walk(root, current', bits[counter + 8..], counter + 8, realSize).0,
                          Walk(root, current', bits[counter + 8..], counter + 8, realSize).1)
  {
    ghost var whole := Walk(root, current, bits[counter..], counter, realSize);
    emitted := [];
    current' := current;
    assert emitted + whole.0 == whole.0;
    var bufShift := 7;
    var j := 0;
    while j < 8
      invariant 0 <= j <= 8 && bufShift == 7 - j
      invariant whole == (emitted + Walk(root, current', bits[counter + j..], counter + j, realSize).0,
                          Walk(root, current', bits[counter + j..], counter + j, realSize).1)
    {
      var k := counter + j;
      assert bits[k] == bits[counter..counter + 8][j];
      ByteBit(buf, j);
      ghost var done := emitted;
      var here;
      here, current', stop := DecodeBit(root, bits, buf, bufShift, current', k, realSize);
      emitted := emitted + here;
      if stop {
        return;
      }
      ghost var tail := Walk(root, current', bits[k + 1..], k + 1, realSize).0;
      assert done + (here + tail) == (done + here) + tail;
      bufShift := bufShift - 1;
      j := j + 1;
    }
    stop := false;
  }

  /**
   * One bit of the byte loop: a leaf under the cursor is emitted and the
   * cursor goes back to the root; at `realSize` the program returns;
   * otherwise bit `(buf >> bufShift) & 1` moves the cursor.
   */
  method DecodeBit(root: Tree, ghost bits: seq<bool>, buf: Byte, bufShift: nat, current: Tree, k: nat, realSize: int)
    returns (emitted: seq<int>, current': Tree, stop: bool)
    requires root.Node? && k < |bits| && bits[k] == (ShiftRight(buf, bufShift) % 2 == 1)
    ensures stop ==> Walk(root, current, bits[k..], k, realSize) == (emitted, true)
    ensures !stop ==> Walk(root, current, bits[k..], k, realSize)
                      == (emitted + Walk(root, current', bits[k + 1..], k + 1, realSize).0,
                          Walk(root, current', bits[k + 1..], k + 1, realSize).1)
  {
    WalkStep(root, current, bits, k, realSize);
    emitted := [];
    current' := current;
    if current'.Leaf? {
      emitted := [current'.ch];
      current' := root;
    }
    if k == realSize {
      stop := true;
      return;
    }
    stop := false;
    if ShiftRight(buf, bufShift) % 2 == 1 {
      current' := current'.right;
    } else {
      current' := current'.left;
    }
  }

  // The as-written walk over encoded symbols.

  /** Only the symbol of a leaf matters to the walk. */
  lemma LeafSymbolOnly(root: Tree, l1: Tree, l2: Tree, bits: seq<bool>, k: int, realSize: int)
    requires root.Node? && l1.Leaf? && l2.Leaf? && l1.ch == l2.ch
    ensures Walk(root, l1, bits, k, realSize) == Walk(root, l2, bits, k, realSize)
  {
  }

  /**
   * Following the path of c from t (counter below its end) leads to the
   * leaf of c with the counter advanced by the path length; no symbol is
   * emitted on the way.
   */
  lemma {:induction false} WalkDescend(root: Tree, t: Tree, c: int, rest: seq<bool>, k: int, realSize: int)
    requires root.Node? && t.Node? && HasSymbol(t, c)
    requires k + |PathTo(t, c)| <= realSize
    ensures Walk(root, t, PathTo(t, c) + rest, k, realSize) == Walk(root, Leaf(c, 0), rest, k + |PathTo(t, c)|, realSize)
    decreases t
  {
    var p := PathTo(t, c);
    var next := if HasSymbol(t.right, c) then t.right else t.left;
    var q := PathTo(next, c);
    assert p == [p[0]] + q;
    assert (p + rest)[1..] == q + rest;
    assert (p + rest)[0] == HasSymbol(t.right, c);
    var w := Walk(root, next, q + rest, k + 1, realSize);
    assert Walk(root, t, p + rest, k, realSize) == ([] + w.0, w.1);
    assert [] + w.0 == w.0;
    if next.Leaf? {
      assert q == [];
      assert q + rest == rest;
      LeafSymbolOnly(root, next, Leaf(c, 0), rest, k + 1, realSize);
    } else {
      WalkDescend(root, next, c, rest, k + 1, realSize);
    }
  }

  /** At a leaf with bits left and the counter short of the end: the leaf's symbol, then the walk from the root. */
  lemma PendingLeaf(root: Tree, c: int, bits: seq<bool>, k: int, realSize: int)
    requires root.Node? && bits != [] && k != realSize
    ensures Walk(root, Leaf(c, 0), bits, k, realSize)
            == ([c] + Walk(root, root, bits, k, realSize).0, Walk(root, root, bits, k, realSize).1)
  {
    var w := Walk(root, if bits[0] then root.right else root.left, bits[1..], k + 1, realSize);
    assert Walk(root, root, bits, k, realSize) == ([] + w.0, w.1);
    assert [] + w.0 == w.0;
  }

  /**
   * The as-written walk over the codes of xs followed by padding bits, with
   * `realSize` at the end of the codes: with padding it emits all of xs and
   * returns; without padding it misses the last symbol and goes on.
   */
  lemma {:induction false} WalkCodes(root: Tree, xs: seq<int>, pad: seq<bool>, k: int)
    requires root.Node? && xs != []
    requires forall i :: 0 <= i < |xs| ==> HasSymbol(root, xs[i])
    ensures Walk(root, root, Paths(root, xs) + pad, k, k + |Paths(root, xs)|)
            == if pad == [] then (xs[..|xs| - 1], false) else (xs, true)
    decreases |xs|
  {
    var c, tail := xs[0], xs[1..];
    assert forall i :: 0 <= i < |tail| ==> tail[i] == xs[i + 1];
    PathsCons(root, xs, pad);
    if tail == [] {
      WalkLastCode(root, c, pad, k);
      assert xs == [c];
    } else {
      var k' := k + |PathTo(root, c)|;
      WalkNextCode(root, c, tail, pad, k);
      WalkCodes(root, tail, pad, k');
      ConsOutcome(xs, pad, Walk(root, root, Paths(root, tail) + pad, k', k' + |Paths(root, tail)|));
    }
  }

  /** The codes of xs, then pad: the code of its first symbol, then the codes of the others and pad. */
  lemma PathsCons(root: Tree, xs: seq<int>, pad: seq<bool>)
    requires xs != [] && forall i :: 0 <= i < |xs| ==> HasSymbol(root, xs[i])
    ensures forall i :: 0 <= i < |xs[1..]| ==> HasSymbol(root, xs[1..][i])
    ensures Paths(root, xs) + pad == PathTo(root, xs[0]) + (Paths(root, xs[1..]) + pad)
    ensures |Paths(root, xs)| == |PathTo(root, xs[0])| + |Paths(root, xs[1..])|
  {
    assert forall i :: 0 <= i < |xs[1..]| ==> xs[1..][i] == xs[i + 1];
  }

  /** The walk over the code of a last symbol c, its end at the counter limit, then pad. */
  lemma WalkLastCode(root: Tree, c: int, pad: seq<bool>, k: int)
    requires root.Node? && HasSymbol(root, c)
    ensures Walk(root, root, PathTo(root, c) + ([] + pad), k, k + (|PathTo(root, c)| + 0))
            == if pad == [] then ([], false) else ([c], true)
  {
    var R := k + |PathTo(root, c)|;
    assert [] + pad == pad;
    WalkDescend(root, root, c, pad, k, R);
  }

  /** The walk over the code of c followed by more codes: c, then the walk over the rest from the root. */
  lemma WalkNextCode(root: Tree, c: int, tail: seq<int>, pad: seq<bool>, k: int)
    requires root.Node? && HasSymbol(root, c) && tail != []
    requires forall i :: 0 <= i < |tail| ==> HasSymbol(root, tail[i])
    ensures var k' := k + |PathTo(root, c)|;
      var R := k' + |Paths(root, tail)|;
      var w := Walk(root, root, Paths(root, tail) + pad, k', R);
      Walk(root, root, PathTo(root, c) + (Paths(root, tail) + pad), k, R) == ([c] + w.0, w.1)
  {
    var k' := k + |PathTo(root, c)|;
    var R := k' + |Paths(root, tail)|;
    var rest := Paths(root, tail) + pad;
    WalkDescend(root, root, c, rest, k, R);
    assert |Paths(root, tail)| >= |PathTo(root, tail[0])| >= 1;
    PendingLeaf(root, c, rest, k', R);
  }

  /** The outcome for xs is its first symbol followed by the outcome for the rest of xs. */
  lemma ConsOutcome(xs: seq<int>, pad: seq<bool>, w: (seq<int>, bool))
    requires |xs| >= 2
    requires w == if pad == [] then (xs[1..][..|xs| - 2], false) else (xs[1..], true)
    ensures ([xs[0]] + w.0, w.1) == if pad == [] then (xs[..|xs| - 1], false) else (xs, true)
  {
    if pad == [] {
      assert xs[..|xs| - 1] == [xs[0]] + xs[1..][..|xs| - 2];
    } else {
      assert xs == [xs[0]] + xs[1..];
    }
  }

  /**
   * A chunk whose bytes hold the codes of xs exactly (padding 0) is decoded
   * without its last symbol, and the decoder goes on to the next chunk.
   */
  lemma UnpaddedChunkLosesLast(root: Tree, xs: seq<int>, r: ChunkRecord, more: seq<ChunkRecord>)
    requires root.Node? && xs != []
    requires forall i :: 0 <= i < |xs| ==> HasSymbol(root, xs[i])
    requires BytesToBits(r.data) == Paths(root, xs) && r.padding == 0
    ensures DecodeChunks(root, [r] + more) == xs[..|xs| - 1] + DecodeChunks(root, more)
  {
    WalkCodes(root, xs, [], 0);
    assert Paths(root, xs) + [] == Paths(root, xs);
    assert ([r] + more)[1..] == more;
  }

  /**
   * A chunk whose codes end inside its last byte (padding 1..7) is decoded
   * in full, and then the decoder returns: the chunks after it are lost.
   */
  lemma PaddedChunkEndsDecoding(root: Tree, xs: seq<int>, r: ChunkRecord, more: seq<ChunkRecord>)
    requires root.Node? && xs != []
    requires forall i :: 0 <= i < |xs| ==> HasSymbol(root, xs[i])
    requires 1 <= r.padding && BytesToBits(r.data) == Paths(root, xs) + Zeros(r.padding)
    ensures DecodeChunks(root, [r] + more) == xs
  {
    assert RealSize(r) == 0 + |Paths(root, xs)|;
    WalkCodes(root, xs, Zeros(r.padding), 0);
    assert Walk(root, root, BytesToBits(r.data), 0, RealSize(r)) == (xs, true);
  }

  // The corrected decoder.

  /**
   * The corrected bit walk: each bit moves the cursor, and a leaf reached by
   * a bit emits its symbol at once and sends the cursor back to the root.
   */
  function WalkFixed(root: Tree, cur: Tree, bits: seq<bool>): seq<int>
    requires root.Node? && cur.Node?
    decreases |bits|
  {
    if bits == [] then []
    else
      var next := if bits[0] then cur.right else cur.left;
      if next.Leaf? then [next.ch] + WalkFixed(root, root, bits[1..])
      else WalkFixed(root, next, bits[1..])
  }

  /** The useful bits of a chunk: `chunk_size * 8 - padding`, kept within the chunk. */
  function UsefulBits(r: ChunkRecord): (bs: seq<bool>)
  {
    var n := RealSize(r);
    var bits := BytesToBits(r.data);
    if n <= 0 then [] else if n >= |bits| then bits else bits[..n]
  }

  /** The corrected chunk loop: every chunk is decoded over its useful bits. */
  function DecodeChunksFixed(root: Tree, chunks: seq<ChunkRecord>): seq<int>
    requires root.Node?
  {
    if chunks == [] then []
    else WalkFixed(root, root, UsefulBits(chunks[0])) + DecodeChunksFixed(root, chunks[1..])
  }

  /** Following the path of c from t emits c and returns to the root. */
  lemma {:induction false} FixedDescend(root: Tree, t: Tree, c: int, rest: seq<bool>)
    requires root.Node? && t.Node? && HasSymbol(t, c)
    ensures WalkFixed(root, t, PathTo(t, c) + rest) == [c] + WalkFixed(root, root, rest)
    decreases t
  {
    var p := PathTo(t, c);
    var next := if HasSymbol(t.right, c) then t.right else t.left;
    var q := PathTo(next, c);
    assert p == [p[0]] + q;
    assert (p + rest)[1..] == q + rest;
    assert (p + rest)[0] == HasSymbol(t.right, c);
    if next.Leaf? {
      assert q == [];
      assert q + rest == rest;
    } else {
      FixedDescend(root, next, c, rest);
    }
  }

  /** The corrected walk over the codes of xs gives back xs. */
  lemma {:induction false} FixedRoundTrip(root: Tree, xs: seq<int>)
    requires root.Node?
    requires forall i :: 0 <= i < |xs| ==> HasSymbol(root, xs[i])
    ensures WalkFixed(root, root, Paths(root, xs)) == xs
  {
    if xs != [] {
      FixedDescend(root, root, xs[0], Paths(root, xs[1..]));
      FixedRoundTrip(root, xs[1..]);
    }
  }

  /**
   * A chunk as the encoder leaves it (its bytes hold the codes of xs and
   * then zero bits, and its padding says how many) decodes to xs.
   */
  lemma FixedChunkRoundTrip(root: Tree, xs: seq<int>, r: ChunkRecord)
    requires root.Node?
    requires forall i :: 0 <= i < |xs| ==> HasSymbol(root, xs[i])
    requires |Paths(root, xs)| <= 8 * |r.data|
    requires BytesToBits(r.data) == Paths(root, xs) + Zeros(8 * |r.data| - |Paths(root, xs)|)
    requires Paths(root, xs) == [] ==> r.data == []
    requires Paths(root, xs) != [] ==> RealSize(r) == |Paths(root, xs)|
    ensures WalkFixed(root, root, UsefulBits(r)) == xs
  {
    var bits := Paths(root, xs);
    if bits != [] {
      assert BytesToBits(r.data)[..|bits|] == bits;
      assert UsefulBits(r) == bits;
    } else {
      assert UsefulBits(r) == [];
    }
    FixedRoundTrip(root, xs);
  }

  // Concrete instances of the two behaviours of the as-written decoder.

  /** A two-symbol tree: 'a' (97) has code 0, 'b' (98) has code 1. */
  function TwoSymbolTree(): (t: Tree)
    ensures t.Node? && HasSymbol(t, 97) && HasSymbol(t, 98)
  {
    Node(2, Leaf(97, 1), Leaf(98, 1))
  }

  /**
   * "abababab" packs into the single byte 0b01010101 with padding 0; the
   * as-written decoder gives back only "abababa", the corrected one all of it.
   */
  lemma UnpaddedChunkExample()
    ensures DecodeChunks(TwoSymbolTree(), [ChunkRecord(0, [85])]) == [97, 98, 97, 98, 97, 98, 97]
    ensures DecodeChunksFixed(TwoSymbolTree(), [ChunkRecord(0, [85])]) == [97, 98, 97, 98, 97, 98, 97, 98]
  {
    var ys := [97, 98, 97, 98, 97, 98, 97];
    AlternatingCodes();
    assert ys + [98] == [97, 98, 97, 98, 97, 98, 97, 98];
    UnpaddedChunkDecodes(TwoSymbolTree(), ys, 98, ChunkRecord(0, [85]));
  }

  /** A single unpadded chunk holding the codes of ys + [y]: the as-written decoder drops y, the corrected one does not. */
  lemma UnpaddedChunkDecodes(t: Tree, ys: seq<int>, y: int, r: ChunkRecord)
    requires t.Node? && (forall i :: 0 <= i < |ys + [y]| ==> HasSymbol(t, (ys + [y])[i]))
    requires BytesToBits(r.data) == Paths(t, ys + [y]) && r.padding == 0
    ensures DecodeChunks(t, [r]) == ys
    ensures DecodeChunksFixed(t, [r]) == ys + [y]
  {
    var xs := ys + [y];
    UnpaddedChunkLosesLast(t, xs, r, []);
    assert xs[..|xs| - 1] == ys;
    assert Paths(t, xs) + Zeros(0) == Paths(t, xs);
    FixedChunkRoundTrip(t, xs, r);
    assert [r][1..] == [];
  }

  /** The codes of "abababab" fill the byte 85 exactly. */
  lemma AlternatingCodes()
    ensures var xs := [97, 98, 97, 98, 97, 98, 97, 98];
      && (forall i :: 0 <= i < |xs| ==> HasSymbol(TwoSymbolTree(), xs[i]))
      && BytesToBits([85]) == Paths(TwoSymbolTree(), xs)
  {
    var t := TwoSymbolTree();
    var ab2, ab4, ab6 := [97, 98], [97, 98, 97, 98], [97, 98, 97, 98, 97, 98];
    AbCodes([]);
    assert [97, 98] + [] == ab2;
    AbCodes(ab2);
    assert [97, 98] + ab2 == ab4;
    AbCodes(ab4);
    assert [97, 98] + ab4 == ab6;
    AbCodes(ab6);
    Byte85();
  }

  /** "ab" in front of rest puts the bits 0, 1 in front of the codes of rest. */
  lemma AbCodes(rest: seq<int>)
    requires forall i :: 0 <= i < |rest| ==> HasSymbol(TwoSymbolTree(), rest[i])
    ensures forall i :: 0 <= i < |[97, 98] + rest| ==> HasSymbol(TwoSymbolTree(), ([97, 98] + rest)[i])
    ensures Paths(TwoSymbolTree(), [97, 98] + rest) == [false, true] + Paths(TwoSymbolTree(), rest)
  {
    var t := TwoSymbolTree();
    var s := [97, 98] + rest;
    assert s[1..] == [98] + rest && ([98] + rest)[1..] == rest;
    assert Paths(t, s) == [false] + Paths(t, [98] + rest);
    assert Paths(t, [98] + rest) == [true] + Paths(t, rest);
  }

  /** 85 = 0b01010101. */
  lemma Byte85()
    ensures BytesToBits([85]) == [false, true, false, true, false, true, false, true]
  {
    assert NatToBits(0, 1) == [false];
    assert NatToBits(1, 2) == [false, true];
    assert NatToBits(2, 3) == [false, true, false];
    assert NatToBits(5, 4) == [false, true, false, true];
    assert NatToBits(10, 5) == [false, true, false, true, false];
    assert NatToBits(21, 6) == [false, true, false, true, false, true];
    assert NatToBits(42, 7) == [false, true, false, true, false, true, false];
    assert NatToBits(85, 8) == [false, true, false, true, false, true, false, true];
    assert BytesToBits([85]) == NatToBits(85, 8) + BytesToBits([]);
  }

  /**
   * "ab" in each of two chunks: each packs into 0b01000000 with padding 6;
   * the as-written decoder returns after the first chunk and gives "ab",
   * the corrected one "abab".
   */
  lemma PaddedChunksExample()
    ensures DecodeChunks(TwoSymbolTree(), [ChunkRecord(6, [64]), ChunkRecord(6, [64])]) == [97, 98]
    ensures DecodeChunksFixed(TwoSymbolTree(), [ChunkRecord(6, [64]), ChunkRecord(6, [64])]) == [97, 98, 97, 98]
  {
    var t := TwoSymbolTree();
    var xs := [97, 98];
    var r := ChunkRecord(6, [64]);
    assert NatToBits(64, 8) == [false, true, false, false, false, false, false, false];
    assert BytesToBits(r.data) == NatToBits(64, 8) + BytesToBits([]);
    assert Paths(t, xs) == [false, true];
    assert BytesToBits(r.data) == Paths(t, xs) + Zeros(6);
    PaddedChunkEndsDecoding(t, xs, r, [r]);
    FixedChunkRoundTrip(t, xs, r);
    assert [r, r][1..] == [r] && [r][1..] == [];
  }
}
