/**
 * The tree object of the encoder and decoder: it builds the Huffman tree
 * from the count table and fills its code table in place by a recursive
 * walk.  Two variants exist: one walks the whole count table and keeps a
 * 256-entry code table, the other walks the first 128 counts and keeps a
 * 128-entry code table.
 *
 * `std::sort` is not stable, so the order it leaves equal-frequency leaves
 * in is not determined by the input.  The constructors take that order as
 * the argument `sortedLeaves`: any ascending permutation of the leaves.
 */
module HuffmanTrees {
  import opened Bits
  import opened Huffman
  import opened Codes
  import Counting

  /** A possible outcome of sorting `leaves` ascending by frequency. */
  predicate SortedPermutationOf(sorted: seq<Tree>, leaves: seq<Tree>)
  {
    SortedByFrequency(sorted) && multiset(sorted) == multiset(leaves)
  }

  /** 2^(k+1) code words: the code shifted left by one, plus the new bit. */
  lemma ShiftCode(code: nat, b: nat, k: nat)
    ensures (2 * code + b) * Pow2(k) == code * Pow2(k + 1) + b * Pow2(k)
  {
    calc {
      (2 * code + b) * Pow2(k);
      2 * code * Pow2(k) + b * Pow2(k);
      code * (2 * Pow2(k)) + b * Pow2(k);
    }
  }

  /** A tree built from the leaves of a count table only carries symbols below limit. */
  lemma {:induction false} TreeSymbolsBelow(t: Tree, leaves: seq<Tree>, counts: seq<int>, limit: nat)
    requires limit <= |counts|
    requires multiset(LeavesOf(t)) == multiset(leaves)
    requires multiset(leaves) == multiset(NonzeroLeaves(counts, limit))
    ensures SymbolsBelow(t, limit)
  {
    NonzeroLeavesExact(counts, limit);
    forall i | 0 <= i < |LeavesOf(t)|
      ensures 0 <= LeavesOf(t)[i].ch < limit
    {
      var l := LeavesOf(t)[i];
      assert l in multiset(LeavesOf(t));
      assert l in multiset(NonzeroLeaves(counts, limit));
      var k :| 0 <= k < |NonzeroLeaves(counts, limit)| && NonzeroLeaves(counts, limit)[k] == l;
    }
    LeavesBelow(t, limit);
  }

  /** A permutation of the leaves of a count table holds leaves only. */
  lemma PermutedLeaves(sorted: seq<Tree>, counts: seq<int>, limit: nat)
    requires limit <= |counts|
    requires multiset(sorted) == multiset(NonzeroLeaves(counts, limit))
    ensures AllLeaves(sorted)
  {
    NonzeroLeavesExact(counts, limit);
    forall i | 0 <= i < |sorted|
      ensures sorted[i].Leaf?
    {
      assert sorted[i] in multiset(NonzeroLeaves(counts, limit));
    }
  }

  lemma {:induction false} LeavesBelow(t: Tree, limit: nat)
    requires forall i :: 0 <= i < |LeavesOf(t)| ==> 0 <= LeavesOf(t)[i].ch < limit
    ensures SymbolsBelow(t, limit)
  {
    if t.Node? {
      var l, r := LeavesOf(t.left), LeavesOf(t.right);
      assert forall i :: 0 <= i < |l| ==> l[i] == LeavesOf(t)[i];
      assert forall i :: 0 <= i < |r| ==> r[i] == LeavesOf(t)[|l| + i];
      LeavesBelow(t.left, limit);
      LeavesBelow(t.right, limit);
    } else {
      assert LeavesOf(t)[0] == t;
    }
  }

  class HuffmanTree {
    var root: Tree
    var codeTable: array<(int, int)>

    /**
     * The constructor over the whole count table (at most 256 symbols, as
     * the leaf symbol is an `unsigned char`), with a 256-entry code table.
     * Fewer than two symbols with a nonzero count crash the source: the
     * extraction starts on the root's children.
     */
    constructor (charCounts: seq<int>, sortedLeaves: seq<Tree>)
      requires |charCounts| <= 256
      requires SortedPermutationOf(sortedLeaves, NonzeroLeaves(charCounts, |charCounts|))
      requires |sortedLeaves| >= 2
      ensures root == HuffmanOf(sortedLeaves) && root.Node?
      ensures fresh(codeTable) && codeTable.Length == 256
      ensures codeTable[..] == CodeTable(root, 256)
    {
      var leaves := MakeLeaves(charCounts, |charCounts|);
      // std::sort is abstracted: the caller supplies the sorted order of these leaves.
      assert SortedPermutationOf(sortedLeaves, leaves);
      var tree := CreateHuffmanTree(sortedLeaves);
      PermutedLeaves(sortedLeaves, charCounts, |charCounts|);
      HuffmanOfKeeps(sortedLeaves);
      TreeSymbolsBelow(tree, sortedLeaves, charCounts, |charCounts|);
      SymbolsBelowMono(tree, |charCounts|, 256);
      root := tree;
      codeTable := new (int, int)[256](_ => (0, 0));
      new;
      ExtractAll();
    }

    /** The variant over the first 128 counts, with a 128-entry code table. */
    constructor Ascii(charCounts: seq<int>, sortedLeaves: seq<Tree>)
      requires |charCounts| >= 128
      requires SortedPermutationOf(sortedLeaves, NonzeroLeaves(charCounts, 128))
      requires |sortedLeaves| >= 2
      ensures root == HuffmanOf(sortedLeaves) && root.Node?
      ensures fresh(codeTable) && codeTable.Length == 128
      ensures codeTable[..] == CodeTable(root, 128)
    {
      var leaves := MakeLeaves(charCounts, 128);
      // std::sort is abstracted: the caller supplies the sorted order of these leaves.
      assert SortedPermutationOf(sortedLeaves, leaves);
      var tree := CreateHuffmanTree(sortedLeaves);
      PermutedLeaves(sortedLeaves, charCounts, 128);
      HuffmanOfKeeps(sortedLeaves);
      TreeSymbolsBelow(tree, sortedLeaves, charCounts, 128);
      root := tree;
      codeTable := new (int, int)[128](_ => (0, 0));
      new;
      ExtractAll();
    }

    /** The two top-level calls: the left child with code 0, the right child with code 1, both of length 1. */
    method ExtractAll()
      requires root.Node? && SymbolsBelow(root, codeTable.Length)
      requires forall c :: 0 <= c < codeTable.Length ==> codeTable[c] == (0, 0)
      modifies codeTable
      ensures codeTable[..] == CodeTable(root, codeTable.Length)
    {
      ExtractCodesRec(root.left, 0, 1);
      ExtractCodesRec(root.right, 1, 1);
      forall c | 0 <= c < codeTable.Length
        ensures codeTable[c] == CodeTable(root, codeTable.Length)[c]
      {
        if HasSymbol(root.right, c) {
          BitsToNatCons(true, PathTo(root.right, c));
        } else if HasSymbol(root.left, c) {
          BitsToNatCons(false, PathTo(root.left, c));
        }
      }
    }

    /**
     * `extract_codes_rec`: a leaf stores `(length, code)` at its symbol; an
     * internal node passes `code << 1` to its left child and `(code << 1) + 1`
     * to its right child, one bit longer.
     */
    method ExtractCodesRec(t: Tree, code: nat, length: nat)
      requires SymbolsBelow(t, codeTable.Length)
      modifies codeTable
      ensures forall c :: 0 <= c < codeTable.Length ==>
                codeTable[c] == if HasSymbol(t, c)
                                then (length + |PathTo(t, c)|, code * Pow2(|PathTo(t, c)|) + BitsToNat(PathTo(t, c)))
                                else old(codeTable[c])
      decreases t
    {
      if t.Leaf? {
        codeTable[t.ch] := (length, code);
      } else {
        var shifted := code * 2;
        ExtractCodesRec(t.left, shifted, length + 1);
        ExtractCodesRec(t.right, shifted + 1, length + 1);
        forall c | 0 <= c < codeTable.Length && HasSymbol(t, c)
          ensures codeTable[c].1 == code * Pow2(|PathTo(t, c)|) + BitsToNat(PathTo(t, c))
        {
          ChildCode(t, code, c);
        }
      }
    }
  }

  /** The code word of c below a node: one bit for the child holding c, then c's code word in that child. */
  lemma ChildCode(t: Tree, code: nat, c: int)
    requires t.Node? && HasSymbol(t, c)
    ensures var b := if HasSymbol(t.right, c) then 1 else 0;
      var child := if HasSymbol(t.right, c) then t.right else t.left;
      && HasSymbol(child, c)
      && |PathTo(t, c)| == 1 + |PathTo(child, c)|
      && code * Pow2(|PathTo(t, c)|) + BitsToNat(PathTo(t, c))
         == (2 * code + b) * Pow2(|PathTo(child, c)|) + BitsToNat(PathTo(child, c))
  {
    var b := HasSymbol(t.right, c);
    var p := PathTo(if b then t.right else t.left, c);
    assert PathTo(t, c) == [b] + p;
    BitsToNatCons(b, p);
    ShiftCode(code, if b then 1 else 0, |p|);
  }

  /** The leaves of a count table weigh the sum of its first limit counts. */
  lemma {:induction false} NonzeroLeavesWeight(counts: seq<int>, limit: nat)
    requires limit <= |counts|
    ensures QueueWeight(NonzeroLeaves(counts, limit)) == Counting.Sum(counts[..limit])
  {
    if limit > 0 {
      var last := if counts[limit - 1] != 0 then [Leaf(limit - 1, counts[limit - 1])] else [];
      NonzeroLeavesWeight(counts, limit - 1);
      QueueWeightConcat(NonzeroLeaves(counts, limit - 1), last);
      assert counts[..limit][..limit - 1] == counts[..limit - 1];
      assert QueueWeight(last) == counts[limit - 1] by {
        if last != [] {
          assert last[1..] == [];
        }
      }
    }
  }

  /**
   * The root's frequency is the total of the counts the tree is built
   * from: the node constructor adds its children's frequencies, and the
   * leaves of zero counts that are not built would add nothing.
   */
  lemma RootWeight(counts: seq<int>, limit: nat, sortedLeaves: seq<Tree>)
    requires limit <= |counts|
    requires SortedPermutationOf(sortedLeaves, NonzeroLeaves(counts, limit))
    requires |sortedLeaves| >= 1
    ensures HuffmanOf(sortedLeaves).f == Counting.Sum(counts[..limit])
  {
    PermutedLeaves(sortedLeaves, counts, limit);
    HuffmanOfKeeps(sortedLeaves);
    QueueWeightPermutation(sortedLeaves, NonzeroLeaves(counts, limit));
    NonzeroLeavesWeight(counts, limit);
  }

  lemma {:induction false} SymbolsBelowMono(t: Tree, m: nat, n: nat)
    requires SymbolsBelow(t, m) && m <= n
    ensures SymbolsBelow(t, n)
  {
    if t.Node? {
      SymbolsBelowMono(t.left, m, n);
      SymbolsBelowMono(t.right, m, n);
    }
  }
}
