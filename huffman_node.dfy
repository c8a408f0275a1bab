/**
 * The heap node of the source: symbol, frequency and three pointers that
 * start out null and may each be set once.  The merge loops link a fresh
 * node to the two nodes they popped through these setters.
 */
module HuffmanNodes {

  class HuffmanNode {
    var ch: int
    var frequency: int
    var leftChild: HuffmanNode?
    var rightChild: HuffmanNode?
    var parent: HuffmanNode?

    /** A fresh node holds its arguments and no pointers. */
    constructor (initCh: int, initFrequency: int)
      ensures ch == initCh && frequency == initFrequency
      ensures leftChild == null && rightChild == null && parent == null
    {
      ch := initCh;
      frequency := initFrequency;
      leftChild := null;
      rightChild := null;
      parent := null;
    }

    /** The test the decoder uses for "at a leaf". */
    predicate IsLeaf()
      reads this
    {
      leftChild == null
    }

    /** Stores the child only over a null pointer, and says whether it did. */
    method SetLeftChild(newChild: HuffmanNode?) returns (ok: bool)
      modifies this`leftChild
      ensures ok == (old(leftChild) == null)
      ensures leftChild == if ok then newChild else old(leftChild)
    {
      if leftChild == null {
        leftChild := newChild;
        ok := true;
      } else {
        ok := false;
      }
    }

    method SetRightChild(newChild: HuffmanNode?) returns (ok: bool)
      modifies this`rightChild
      ensures ok == (old(rightChild) == null)
      ensures rightChild == if ok then newChild else old(rightChild)
    {
      if rightChild == null {
        rightChild := newChild;
        ok := true;
      } else {
        ok := false;
      }
    }

    method SetParent(newParent: HuffmanNode?) returns (ok: bool)
      modifies this`parent
      ensures ok == (old(parent) == null)
      ensures parent == if ok then newParent else old(parent)
    {
      if parent == null {
        parent := newParent;
        ok := true;
      } else {
        ok := false;
      }
    }
  }

  /**
   * The body of the merge loop of the class-based trees: a fresh node with
   * the summed frequency, `min` on the left and `secondMin` on the right;
   * parents are left alone.
   */
  method Combine(min: HuffmanNode, secondMin: HuffmanNode) returns (node: HuffmanNode)
    ensures fresh(node)
    ensures node.ch == 0 && node.frequency == min.frequency + secondMin.frequency
    ensures node.leftChild == min && node.rightChild == secondMin && node.parent == null
    ensures !node.IsLeaf()
  {
    node := new HuffmanNode(0, min.frequency + secondMin.frequency);
    var okLeft := node.SetLeftChild(min);
    var okRight := node.SetRightChild(secondMin);
  }

  /**
   * The body of the merge loop of the raw-pointer program, which also calls
   * `min->setParent(new_node)` twice: the first call sets an unset parent,
   * the second always fails, and `secondMin` never gets a parent.
   */
  method CombineWithParent(min: HuffmanNode, secondMin: HuffmanNode) returns (node: HuffmanNode, again: bool)
    modifies min`parent
    ensures fresh(node)
    ensures node.ch == 0 && node.frequency == old(min.frequency) + old(secondMin.frequency)
    ensures node.leftChild == min && node.rightChild == secondMin && node.parent == null
    ensures min.parent == if old(min.parent) == null then node else old(min.parent)
    ensures !again
    ensures secondMin != min ==> secondMin.parent == old(secondMin.parent)
  {
    node := new HuffmanNode(0, min.frequency + secondMin.frequency);
    var okLeft := node.SetLeftChild(min);
    var okRight := node.SetRightChild(secondMin);
    var first := min.SetParent(node);
    again := min.SetParent(node);
  }
}
