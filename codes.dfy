/**
 * The code of a symbol is the path from the root to its leaf: a 0 bit for
 * a step to the left child, a 1 bit for a step to the right child.  The
 * code table stores, per symbol, the number of bits and the bits read as
 * an integer; symbols with no leaf keep `(0, 0)`.
 */
module Codes {
  import opened Wrappers
  import opened Bits
  import opened Huffman

  /** Some leaf of t carries symbol c. */
  predicate HasSymbol(t: Tree, c: int)
  {
    match t
    case Leaf(ch, _) => ch == c
    case Node(_, l, r) => HasSymbol(l, c) || HasSymbol(r, c)
  }

  /** Every leaf symbol of t indexes a table of the given size. */
  predicate SymbolsBelow(t: Tree, size: nat)
  {
    match t
    case Leaf(ch, _) => 0 <= ch < size
    case Node(_, l, r) => SymbolsBelow(l, size) && SymbolsBelow(r, size)
  }

  /**
   * The path to the leaf of c whose table entry survives extraction: the
   * depth-first walk visits the right subtree after the left one, so when a
   * symbol has two leaves the rightmost one is written last.
   */
  function PathTo(t: Tree, c: int): (p: seq<bool>)
    requires HasSymbol(t, c)
    ensures |p| <= Height(t)
    ensures t.Node? ==> |p| >= 1
  {
    match t
    case Leaf(_, _) => []
    case Node(_, l, r) => if HasSymbol(r, c) then [true] + PathTo(r, c) else [false] + PathTo(l, c)
  }

  /** Where the bits p lead from t: a 1 bit to the right child, a 0 bit to the left; None past a leaf. */
  function Reach(t: Tree, p: seq<bool>): Option<Tree>
  {
    if p == [] then Some(t)
    else if t.Leaf? then None
    else Reach(if p[0] then t.right else t.left, p[1..])
  }

  /** The path of c leads to a leaf carrying c. */
  lemma {:induction false} PathReachesLeaf(t: Tree, c: int)
    requires HasSymbol(t, c)
    ensures Reach(t, PathTo(t, c)).Some?
    ensures Reach(t, PathTo(t, c)).value.Leaf? && Reach(t, PathTo(t, c)).value.ch == c
  {
    if t.Node? {
      if HasSymbol(t.right, c) {
        PathReachesLeaf(t.right, c);
        assert ([true] + PathTo(t.right, c))[1..] == PathTo(t.right, c);
      } else {
        PathReachesLeaf(t.left, c);
        assert ([false] + PathTo(t.left, c))[1..] == PathTo(t.left, c);
      }
    }
  }

  /** A path that ends at a leaf is a prefix of another path that leads somewhere only if the two are equal. */
  lemma {:induction false} ReachPrefix(t: Tree, p1: seq<bool>, p2: seq<bool>)
    requires Reach(t, p1).Some? && Reach(t, p1).value.Leaf? && Reach(t, p2).Some?
    ensures p1 <= p2 ==> p1 == p2
  {
    if p1 != [] && p2 != [] && p1[0] == p2[0] {
      ReachPrefix(if p1[0] then t.right else t.left, p1[1..], p2[1..]);
    }
  }

  /** The codes are prefix-free: no symbol's code begins another symbol's code. */
  lemma PrefixFree(t: Tree, c1: int, c2: int)
    requires HasSymbol(t, c1) && HasSymbol(t, c2) && c1 != c2
    ensures !(PathTo(t, c1) <= PathTo(t, c2))
  {
    PathReachesLeaf(t, c1);
    PathReachesLeaf(t, c2);
    ReachPrefix(t, PathTo(t, c1), PathTo(t, c2));
  }

  /**
   * The table extraction fills: (number of bits, code) for each symbol with
   * a leaf, (0, 0) for the others.
   */
  function CodeTable(t: Tree, size: nat): (table: seq<(int, int)>)
    ensures |table| == size
    ensures forall c :: 0 <= c < size ==> 0 <= table[c].0 <= Height(t) && 0 <= table[c].1 < Pow2(table[c].0)
    ensures forall c :: 0 <= c < size && !HasSymbol(t, c) ==> table[c] == (0, 0)
  {
    seq(size, c => if HasSymbol(t, c) then (|PathTo(t, c)|, BitsToNat(PathTo(t, c))) else (0, 0))
  }

  /** The entry of a symbol, written out in its number of bits, is the symbol's path. */
  lemma EntryBits(t: Tree, size: nat, c: int)
    requires 0 <= c < size && HasSymbol(t, c)
    ensures NatToBits(CodeTable(t, size)[c].1, CodeTable(t, size)[c].0) == PathTo(t, c)
  {
    BitsRoundTrip(PathTo(t, c));
  }

  /** Every leaf of t carries a symbol of t. */
  lemma {:induction false} LeafHasSymbol(t: Tree, l: Tree)
    requires l in LeavesOf(t)
    ensures HasSymbol(t, l.ch)
  {
    if t.Node? {
      if l in LeavesOf(t.left) {
        LeafHasSymbol(t.left, l);
      } else {
        LeafHasSymbol(t.right, l);
      }
    }
  }
}
