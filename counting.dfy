/**
 * Character frequency counting: the 128-entry count table indexed by the
 * (ASCII) byte, the per-chunk partial tables of the parallel drivers and
 * their element-wise join.
 */
module Counting {
  import opened Chunking

  /** Size of the count tables: one entry per ASCII symbol. */
  const AsciiSize := 128

  /** Number of occurrences of c in s. */
  function Occurrences(s: seq<int>, c: int): nat
  {
    if s == [] then 0
    else Occurrences(s[..|s| - 1], c) + (if s[|s| - 1] == c then 1 else 0)
  }

  /** Every byte of s indexes a table of the given size. */
  predicate InRange(s: seq<int>, size: nat)
  {
    forall i :: 0 <= i < |s| ==> 0 <= s[i] < size
  }

  /** The count table of s: entry c is the number of occurrences of c. */
  function Histogram(s: seq<int>, size: nat): seq<int>
  {
    seq(size, c => Occurrences(s, c))
  }

  /** Sum of the entries of a table. */
  function Sum(t: seq<int>): int
  {
    if t == [] then 0 else Sum(t[..|t| - 1]) + t[|t| - 1]
  }

  /** Entry i summed over a list of tables; a table shorter than i + 1 adds nothing. */
  function ColumnSum(tables: seq<seq<int>>, i: nat): int
  {
    if tables == [] then 0
    else
      var last := tables[|tables| - 1];
      ColumnSum(tables[..|tables| - 1], i) + (if i < |last| then last[i] else 0)
  }

  /** The partial count tables, one per chunk. */
  function Histograms(chunks: seq<seq<int>>, size: nat): (ts: seq<seq<int>>)
    ensures |ts| == |chunks|
  {
    seq(|chunks|, k requires 0 <= k < |chunks| => Histogram(chunks[k], size))
  }

  /**
   * The counting loop of a worker: `partial[b]++` for every byte b of the
   * chunk, on a table the caller owns.
   */
  method CountChars(chunk: seq<int>, partial: array<int>)
    requires InRange(chunk, partial.Length)
    modifies partial
    ensures forall c :: 0 <= c < partial.Length ==> partial[c] == old(partial[c]) + Occurrences(chunk, c)
  {
    var i := 0;
    while i < |chunk|
      invariant 0 <= i <= |chunk|
      invariant forall c :: 0 <= c < partial.Length ==> partial[c] == old(partial[c]) + Occurrences(chunk[..i], c)
    {
      assert chunk[..i + 1][..i] == chunk[..i];
      partial[chunk[i]] := partial[chunk[i]] + 1;
      i := i + 1;
    }
    assert chunk[..i] == chunk;
  }

  /** `count_characters`: a fresh zeroed 128-entry table filled by the counting loop. */
  method CountCharacters(file: seq<int>) returns (counts: seq<int>)
    requires InRange(file, AsciiSize)
    ensures counts == Histogram(file, AsciiSize)
  {
    var table := new int[AsciiSize](_ => 0);
    CountChars(file, table);
    counts := table[..];
  }

  /** The join: `count_vector[i] += c[i]` for every partial table c, into a zeroed 128-entry table. */
  method JoinCounts(partials: seq<seq<int>>) returns (total: seq<int>)
    requires forall k :: 0 <= k < |partials| ==> |partials[k]| <= AsciiSize
    ensures |total| == AsciiSize
    ensures forall i :: 0 <= i < AsciiSize ==> total[i] == ColumnSum(partials, i)
  {
    var table := new int[AsciiSize](_ => 0);
    var k := 0;
    while k < |partials|
      invariant 0 <= k <= |partials|
      invariant forall i :: 0 <= i < AsciiSize ==> table[i] == ColumnSum(partials[..k], i)
    {
      var c := partials[k];
      assert partials[..k + 1][..k] == partials[..k];
      var i := 0;
      while i < |c|
        invariant 0 <= i <= |c|
        invariant forall j :: 0 <= j < i ==> table[j] == ColumnSum(partials[..k + 1], j)
        invariant forall j :: i <= j < AsciiSize ==> table[j] == ColumnSum(partials[..k], j)
      {
        table[i] := table[i] + c[i];
        i := i + 1;
      }
      k := k + 1;
    }
    assert partials[..k] == partials;
    total := table[..];
  }

  lemma {:induction false} OccurrencesAppend(a: seq<int>, b: seq<int>, c: int)
    ensures Occurrences(a + b, c) == Occurrences(a, c) + Occurrences(b, c)
    decreases |b|
  {
    if b != [] {
      assert (a + b)[..|a + b| - 1] == a + b[..|b| - 1];
      OccurrencesAppend(a, b[..|b| - 1], c);
    } else {
      assert a + b == a;
    }
  }

  /**
   * Partition and sum: joining the count tables of the chunks gives the
   * count table of their concatenation.
   */
  lemma {:induction false} PartitionAndSum(chunks: seq<seq<int>>, size: nat, c: nat)
    requires c < size
    ensures ColumnSum(Histograms(chunks, size), c) == Occurrences(Concat(chunks), c)
  {
    if chunks != [] {
      var init := chunks[..|chunks| - 1];
      var last := chunks[|chunks| - 1];
      assert Histograms(chunks, size)[..|chunks| - 1] == Histograms(init, size);
      PartitionAndSum(init, size, c);
      OccurrencesAppend(Concat(init), last, c);
    }
  }

  /** Counting the chunks separately and joining gives the table of the whole file. */
  lemma JoinedCountsOfChunks(file: seq<int>, chunks: seq<seq<int>>)
    requires Concat(chunks) == file
    ensures forall c :: 0 <= c < AsciiSize ==> ColumnSum(Histograms(chunks, AsciiSize), c) == Histogram(file, AsciiSize)[c]
  {
    forall c | 0 <= c < AsciiSize
      ensures ColumnSum(Histograms(chunks, AsciiSize), c) == Histogram(file, AsciiSize)[c]
    {
      PartitionAndSum(chunks, AsciiSize, c);
    }
  }

  /** Occurrences of the symbols below size, summed. */
  function OccurrencesBelow(s: seq<int>, size: nat): nat
  {
    if size == 0 then 0 else OccurrencesBelow(s, size - 1) + Occurrences(s, size - 1)
  }

  lemma {:induction false} SumHistogram(s: seq<int>, size: nat)
    ensures Sum(Histogram(s, size)) == OccurrencesBelow(s, size)
  {
    if size > 0 {
      assert Histogram(s, size)[..size - 1] == Histogram(s, size - 1);
      SumHistogram(s, size - 1);
    }
  }

  lemma {:induction false} OccurrencesBelowAll(s: seq<int>, size: nat)
    requires InRange(s, size)
    ensures OccurrencesBelow(s, size) == |s|
    decreases |s|
  {
    if s != [] {
      var init := s[..|s| - 1];
      assert InRange(init, size);
      OccurrencesBelowAll(init, size);
      OccurrencesBelowSplit(s, size);
    } else {
      OccurrencesBelowEmpty(size);
    }
  }

  lemma {:induction false} OccurrencesBelowEmpty(size: nat)
    ensures OccurrencesBelow([], size) == 0
  {
    if size > 0 {
      OccurrencesBelowEmpty(size - 1);
    }
  }

  /** Removing the last byte x of s lowers the count of the symbols below size by one iff x < size. */
  lemma {:induction false} OccurrencesBelowSplit(s: seq<int>, size: nat)
    requires s != []
    ensures OccurrencesBelow(s, size)
            == OccurrencesBelow(s[..|s| - 1], size) + (if 0 <= s[|s| - 1] < size then 1 else 0)
  {
    if size > 0 {
      OccurrencesBelowSplit(s, size - 1);
    }
  }

  /** The counts of a file whose bytes are all in range add up to its size. */
  lemma CountsSumToSize(file: seq<int>)
    requires InRange(file, AsciiSize)
    ensures Sum(Histogram(file, AsciiSize)) == |file|
  {
    SumHistogram(file, AsciiSize);
    OccurrencesBelowAll(file, AsciiSize);
  }

  /** A symbol occurs at most once per byte. */
  lemma {:induction false} OccurrencesBound(s: seq<int>, c: int)
    ensures Occurrences(s, c) <= |s|
  {
    if s != [] {
      OccurrencesBound(s[..|s| - 1], c);
    }
  }

  /** A byte of s is counted. */
  lemma {:induction false} OccursPositive(s: seq<int>, i: nat)
    requires i < |s|
    ensures Occurrences(s, s[i]) > 0
  {
    if i < |s| - 1 {
      var init := s[..|s| - 1];
      assert init[i] == s[i];
      OccursPositive(init, i);
    }
  }
}
