/**
 * `TreeNode`, `BinaryTreeNode` and `TernaryTreeNode`: the node records of
 * the tree package. The n-ary operations update a node's parent, its list
 * of children and its `is_root`/`is_parent` flags in place; the payload is
 * never reassigned. The binary and ternary records have no operations.
 */
module TreeNodes {
  import opened Wrappers

  class TreeNode<T> {
    const data: T
    var parent: TreeNode?<T>
    var children: seq<TreeNode<T>>
    var isRoot: bool
    var isParent: bool
    var isLeft: bool
    var isRight: bool
    var isLeaf: bool

    /** Stores the payload and the parent given; the children are the list given, or none when it is None. Every flag starts false. */
    constructor (data: T, parent: TreeNode?<T>, children: Option<seq<TreeNode<T>>>)
      ensures this.data == data && this.parent == parent
      ensures children.Some? ==> this.children == children.value
      ensures children.None? ==> this.children == []
      ensures !isRoot && !isParent && !isLeft && !isRight && !isLeaf
    {
      this.data := data;
      this.parent := parent;
      this.children := if children.Some? then children.value else [];
      isRoot := false;
      isParent := false;
      isLeft := false;
      isRight := false;
      isLeaf := false;
    }

    /** The five flags, none of which the tree operations write except `isParent` when a child is added. */
    ghost function Flags(): (bool, bool, bool, bool, bool)
      reads this
    {
      (isRoot, isParent, isLeft, isRight, isLeaf)
    }

    /** Where the node hangs and how it is flagged, apart from its children and `isParent`. */
    ghost function Place(): (TreeNode?<T>, bool, bool, bool, bool)
      reads this
    {
      (parent, isRoot, isLeft, isRight, isLeaf)
    }
  }

  class BinaryTreeNode<T> {
    const data: T
    var parent: BinaryTreeNode?<T>
    var leftChild: BinaryTreeNode?<T>
    var rightChild: BinaryTreeNode?<T>
    var isRoot: bool
    var isParent: bool
    var isLeft: bool
    var isRight: bool
    var isLeaf: bool

    /** Stores the payload, the parent and the two child slots given; every flag starts false. */
    constructor (data: T, parent: BinaryTreeNode?<T>, leftChild: BinaryTreeNode?<T>, rightChild: BinaryTreeNode?<T>)
      ensures this.data == data && this.parent == parent
      ensures this.leftChild == leftChild && this.rightChild == rightChild
      ensures !isRoot && !isParent && !isLeft && !isRight && !isLeaf
    {
      this.data := data;
      this.parent := parent;
      this.leftChild := leftChild;
      this.rightChild := rightChild;
      isRoot := false;
      isParent := false;
      isLeft := false;
      isRight := false;
      isLeaf := false;
    }
  }

  class TernaryTreeNode<T> {
    const data: T
    var parent: TernaryTreeNode?<T>
    var leftChild: TernaryTreeNode?<T>
    var middleChild: TernaryTreeNode?<T>
    var rightChild: TernaryTreeNode?<T>
    var isRoot: bool
    var isParent: bool
    var isLeft: bool
    var isMiddle: bool
    var isRight: bool
    var isLeaf: bool

    /** Stores the payload, the parent and the three child slots given; every flag starts false. */
    constructor (data: T, parent: TernaryTreeNode?<T>, leftChild: TernaryTreeNode?<T>,
                 middleChild: TernaryTreeNode?<T>, rightChild: TernaryTreeNode?<T>)
      ensures this.data == data && this.parent == parent
      ensures this.leftChild == leftChild && this.middleChild == middleChild && this.rightChild == rightChild
      ensures !isRoot && !isParent && !isLeft && !isMiddle && !isRight && !isLeaf
    {
      this.data := data;
      this.parent := parent;
      this.leftChild := leftChild;
      this.middleChild := middleChild;
      this.rightChild := rightChild;
      isRoot := false;
      isParent := false;
      isLeft := false;
      isMiddle := false;
      isRight := false;
      isLeaf := false;
    }
  }
}
