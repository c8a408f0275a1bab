/**
 * Splitting the input file into `n` contiguous chunks, as the readers of the
 * parallel drivers do: every chunk gets `filesize / n` bytes and the last one
 * also gets the remainder `filesize % n`.  A byte of the file is an `int`.
 */
module Chunking {

  /** Length of chunk i (0 <= i < n) of a file of fs bytes. */
  function ChunkLength(fs: nat, n: nat, i: nat): nat
    requires n >= 1
  {
    fs / n + (if i == n - 1 then fs % n else 0)
  }

  /** Offset of the first byte of chunk i. */
  function ChunkStart(fs: nat, n: nat, i: nat): nat
    requires n >= 1
  {
    i * (fs / n)
  }

  /** The concatenation of a sequence of chunks. */
  function Concat(chunks: seq<seq<int>>): (s: seq<int>)
    ensures chunks == [] ==> s == []
  {
    if chunks == [] then [] else Concat(chunks[..|chunks| - 1]) + chunks[|chunks| - 1]
  }

  /** Sum of the first k chunk lengths. */
  function LengthsUpTo(fs: nat, n: nat, k: nat): nat
    requires n >= 1
  {
    if k == 0 then 0 else LengthsUpTo(fs, n, k - 1) + ChunkLength(fs, n, k - 1)
  }

  lemma ConcatAppend(chunks: seq<seq<int>>, c: seq<int>)
    ensures Concat(chunks + [c]) == Concat(chunks) + c
  {
    assert (chunks + [c])[..|chunks|] == chunks;
  }

  /** Chunk i ends where chunk i + 1 starts, and the last one ends at the end of the file. */
  lemma ChunkEnd(fs: nat, n: nat, i: nat)
    requires n >= 1 && i < n
    ensures ChunkStart(fs, n, i) + ChunkLength(fs, n, i)
            == if i + 1 < n then ChunkStart(fs, n, i + 1) else fs
  {
    var cs := fs / n;
    assert (i + 1) * cs == i * cs + cs;
    if i + 1 == n {
      assert n * cs + fs % n == fs;
    }
  }

  /** Every chunk start lies within the file. */
  lemma ChunkStartBound(fs: nat, n: nat, i: nat)
    requires n >= 1 && i < n
    ensures ChunkStart(fs, n, i) + fs / n <= fs
  {
    var cs := fs / n;
    assert (i + 1) * cs <= n * cs by {
      MulMono(i + 1, n, cs);
    }
    assert n * cs <= fs;
  }

  lemma MulMono(a: nat, b: nat, c: nat)
    requires a <= b
    ensures a * c <= b * c
  {
  }

  /** The chunk lengths add up to the file size (the last chunk takes the remainder). */
  lemma LengthsSum(fs: nat, n: nat)
    requires n >= 1
    ensures LengthsUpTo(fs, n, n) == fs
  {
    LengthsPrefix(fs, n, n);
  }

  /** Chunk k < n starts at k * (filesize / n); all n chunks end at the end of the file. */
  lemma {:induction false} LengthsPrefix(fs: nat, n: nat, k: nat)
    requires n >= 1 && k <= n
    ensures LengthsUpTo(fs, n, k) == if k < n then ChunkStart(fs, n, k) else fs
  {
    if k > 0 {
      LengthsPrefix(fs, n, k - 1);
      ChunkEnd(fs, n, k - 1);
    }
  }

  lemma LengthsBound(fs: nat, n: nat, k: nat)
    requires n >= 1 && k <= n
    ensures LengthsUpTo(fs, n, k) <= fs
  {
    LengthsPrefix(fs, n, k);
    if k < n {
      ChunkStartBound(fs, n, k);
    }
  }

  /** Chunk i of the file: the bytes between the ends of chunks i - 1 and i. */
  function ChunkOf(file: seq<int>, n: nat, i: nat): (c: seq<int>)
    requires n >= 1 && i < n
    ensures |c| == ChunkLength(|file|, n, i)
  {
    LengthsBound(|file|, n, i + 1);
    file[LengthsUpTo(|file|, n, i) .. LengthsUpTo(|file|, n, i + 1)]
  }

  /**
   * The reader loop: chunk i is the next `filesize / n` bytes of the file,
   * plus `filesize % n` more for the last chunk.
   */
  method SplitChunks(file: seq<int>, n: int) returns (chunks: seq<seq<int>>)
    requires n >= 1
    ensures |chunks| == n
    ensures forall i :: 0 <= i < n ==> chunks[i] == ChunkOf(file, n, i)
    ensures Concat(chunks) == file
  {
    chunks := [];
    var offset := 0;
    var i := 0;
    while i < n
      invariant 0 <= i <= n
      invariant |chunks| == i
      invariant offset == LengthsUpTo(|file|, n, i) <= |file|
      invariant forall j :: 0 <= j < i ==> chunks[j] == ChunkOf(file, n, j)
      invariant Concat(chunks) == file[..offset]
    {
      var chunk, next := ReadChunk(file, n, i, offset);
      ConcatSlice(file, chunks, chunk, offset, next);
      chunks := chunks + [chunk];
      offset := next;
      i := i + 1;
    }
    LengthsSum(|file|, n);
    assert file[..offset] == file;
  }

  /** One pass of the reader loop: chunk i, and the offset where chunk i + 1 starts. */
  method ReadChunk(file: seq<int>, n: int, i: int, offset: int) returns (chunk: seq<int>, next: int)
    requires 1 <= n && 0 <= i < n && offset == LengthsUpTo(|file|, n, i)
    ensures chunk == ChunkOf(file, n, i)
    ensures next == LengthsUpTo(|file|, n, i + 1) <= |file|
    ensures offset <= next && chunk == file[offset..next]
  {
    var fs := |file|;
    var readSize := fs / n;
    if i == n - 1 {
      readSize := readSize + fs % n;
    }
    assert readSize == ChunkLength(fs, n, i);
    LengthsBound(fs, n, i + 1);
    chunk := file[offset .. offset + readSize];
    next := offset + readSize;
  }

  /** Appending the slice between a and b to chunks that make up the first a bytes gives the first b bytes. */
  lemma ConcatSlice(file: seq<int>, chunks: seq<seq<int>>, chunk: seq<int>, a: nat, b: nat)
    requires a <= b <= |file| && Concat(chunks) == file[..a] && chunk == file[a..b]
    ensures Concat(chunks + [chunk]) == file[..b]
  {
    ConcatAppend(chunks, chunk);
    assert file[..b] == file[..a] + file[a..b];
  }

  /** Chunk k is the slice of the file that starts at the end of chunk k - 1. */
  lemma ChunkOfSlice(file: seq<int>, n: nat, k: nat)
    requires n >= 1 && k < n
    ensures LengthsUpTo(|file|, n, k) + |ChunkOf(file, n, k)| <= |file|
    ensures forall i :: 0 <= i < |ChunkOf(file, n, k)| ==> ChunkOf(file, n, k)[i] == file[LengthsUpTo(|file|, n, k) + i]
  {
    LengthsBound(|file|, n, k + 1);
  }

  /** The concatenation read front to back: the first chunk, then the others. */
  lemma {:induction false} ConcatCons(chunks: seq<seq<int>>)
    requires chunks != []
    ensures Concat(chunks) == chunks[0] + Concat(chunks[1..])
    decreases |chunks|
  {
    if |chunks| > 1 {
      var init, last := chunks[..|chunks| - 1], chunks[|chunks| - 1];
      ConcatCons(init);
      assert init[0] == chunks[0];
      assert chunks[1..][..|chunks[1..]| - 1] == init[1..];
      assert Concat(chunks[1..]) == Concat(init[1..]) + last;
      calc {
        Concat(chunks);
        Concat(init) + last;
        (chunks[0] + Concat(init[1..])) + last;
        chunks[0] + (Concat(init[1..]) + last);
      }
    } else {
      assert chunks[..0] == [];
    }
  }
}
