/**
 * The heap tree of lib/Tree.cpp: nodes with a label, two child pointers and
 * a parent back-pointer, and a tree record holding the root.
 *
 * A valid tree carries a ghost abstraction: `Nodes` is the set of its nodes,
 * `Pos` gives every node its position (the answers leading to it from the
 * root, `true` for left), and `Shape` is the whole tree as a DecisionTree
 * value. Validity says that the pointers and the abstraction agree: each
 * node's label and children are those of `Shape` at its position, children
 * point back at their parent, and no two nodes share a position.
 */
module TreeLib {
  import opened Wrappers
  import D = DecisionTree

  /** TreeStatus_t. */
  datatype Status = SUCCESS | FAIL

  /** Node_t. */
  class Node {
    var value: D.Label
    var right: Node?
    var left: Node?
    var parent: Node?

    /** A zero-filled node, as `calloc` returns it: NULL label, no children, no parent. */
    constructor ()
      ensures value == None && right == null && left == null && parent == null
    {
      value := None;
      right := null;
      left := null;
      parent := null;
    }
  }

  /** The four fields of a node, as a value. */
  datatype Links = Links(value: D.Label, left: Node?, right: Node?, parent: Node?)

  /** `n`'s label, and which children it has, are those of `shape` at `n`'s position. */
  ghost predicate NodeAgrees(h: map<Node, Links>, pos: map<Node, seq<bool>>, shape: D.Tree, n: Node)
    requires n in h && n in pos
  {
    var s := D.Subtree(shape, pos[n]);
    && s.Node?
    && h[n].value == s.value
    && (h[n].left == null <==> s.left.Nil?)
    && (h[n].right == null <==> s.right.Nil?)
  }

  /** `n`'s child on side `d` (left for true), if any, sits one step further down and points back at `n`. */
  ghost predicate ChildLinked(h: map<Node, Links>, pos: map<Node, seq<bool>>, n: Node, d: bool)
    requires n in h && h.Keys == pos.Keys
  {
    var c := if d then h[n].left else h[n].right;
    c != null ==> c in h && pos[c] == pos[n] + [d] && h[c].parent == n
  }

  /** Only the root has no parent; a parent sits one step up and holds `n` in the slot of `n`'s last step. */
  ghost predicate ParentLinked(h: map<Node, Links>, pos: map<Node, seq<bool>>, n: Node)
    requires n in h && h.Keys == pos.Keys
  {
    var u := h[n].parent;
    && (u == null <==> pos[n] == [])
    && (u != null ==>
          && u in h
          && pos[u] + [pos[n][|pos[n]| - 1]] == pos[n]
          && (if pos[n][|pos[n]| - 1] then h[u].left == n else h[u].right == n))
  }

  /** The links `h` around `n` agree with `shape` at `n`'s position `pos[n]`. */
  ghost predicate MirrorsAt(h: map<Node, Links>, pos: map<Node, seq<bool>>, shape: D.Tree, n: Node)
    requires n in h && h.Keys == pos.Keys
  {
    NodeAgrees(h, pos, shape, n) && ChildLinked(h, pos, n, true) && ChildLinked(h, pos, n, false) && ParentLinked(h, pos, n)
  }

  /** The links `h` form the tree `shape` hanging from `root`, with `pos` giving each node's place. */
  ghost predicate Consistent(root: Node, h: map<Node, Links>, pos: map<Node, seq<bool>>, shape: D.Tree) {
    && root in h
    && h.Keys == pos.Keys
    && pos[root] == []
    && (forall n, m :: n in pos && m in pos && pos[n] == pos[m] ==> n == m)
    && (forall n {:trigger MirrorsAt(h, pos, shape, n)} :: n in h ==> MirrorsAt(h, pos, shape, n))
  }

  /** The fields of every node in `h` hold what `h` records for it. */
  ghost predicate HeldBy(h: map<Node, Links>)
    reads h.Keys
  {
    forall n :: n in h ==> Links(n.value, n.left, n.right, n.parent) == h[n]
  }

  /** Tree_t (its reader buffer and debug logging are not modelled). */
  class Tree {
    var root: Node
    ghost var Nodes: set<Node>
    ghost var Pos: map<Node, seq<bool>>
    ghost var Shape: D.Tree
    /** The links of every node, as the fields hold them. */
    ghost var Heap: map<Node, Links>

    /** The snapshot `Heap` is what the fields of the nodes hold. */
    ghost predicate Coupled()
      reads this, Nodes
    {
      && Heap.Keys == Nodes
      && HeldBy(Heap)
    }

    ghost predicate Valid()
      reads this, Nodes
    {
      Pos.Keys == Nodes && Coupled() && Consistent(root, Heap, Pos, Shape)
    }

    /** TreeCtor: a fresh tree whose root is a fresh, zero-filled node, a single leaf without a label. */
    constructor ()
      ensures Valid() && fresh(root) && Nodes == {root}
      ensures Shape == D.Node(None, D.Nil, D.Nil)
      ensures root.value == None && root.left == null && root.right == null && root.parent == null
    {
      var r := new Node();
      root := r;
      Nodes := {r};
      Pos := map[r := []];
      Shape := D.Node(None, D.Nil, D.Nil);
      Heap := map[r := Links(None, null, null, null)];
      new;
      assert MirrorsAt(Heap, Pos, Shape, r);
    }
  }

  /** A tree whose fields hold the snapshot `h` is valid when the snapshot is consistent. */
  lemma ValidFrom(tree: Tree, root: Node, h: map<Node, Links>, pos: map<Node, seq<bool>>, shape: D.Tree)
    requires tree.root == root && tree.Nodes == h.Keys && tree.Pos == pos && tree.Shape == shape && tree.Heap == h
    requires HeldBy(h)
    requires Consistent(root, h, pos, shape)
    ensures tree.Valid()
  {
  }

  /** What validity says about the fields of one node. */
  lemma LinksOf(tree: Tree, n: Node)
    requires tree.Valid() && n in tree.Nodes
    ensures var s := D.Subtree(tree.Shape, tree.Pos[n]);
      && s.Node? && n.value == s.value
      && (n.left == null <==> s.left.Nil?) && (n.right == null <==> s.right.Nil?)
      && (n.left != null ==> n.left in tree.Nodes && tree.Pos[n.left] == tree.Pos[n] + [true] && n.left.parent == n)
      && (n.right != null ==> n.right in tree.Nodes && tree.Pos[n.right] == tree.Pos[n] + [false] && n.right.parent == n)
      && (n.parent == null <==> tree.Pos[n] == [])
      && (n.parent != null ==>
            && n.parent in tree.Nodes && tree.Pos[n] == tree.Pos[n.parent] + [tree.Pos[n][|tree.Pos[n]| - 1]]
            && if tree.Pos[n][|tree.Pos[n]| - 1] then n.parent.left == n else n.parent.right == n)
  {
    assert MirrorsAt(tree.Heap, tree.Pos, tree.Shape, n);
  }

  /** A node with a parent hangs on the side its last step names, one level below the parent. */
  lemma ParentSide(tree: Tree, n: Node)
    requires tree.Valid() && n in tree.Nodes && n.parent != null
    ensures var u := n.parent; var p := tree.Pos[n];
      && u in tree.Nodes && |p| > 0 && tree.Pos[u] == p[..|p| - 1]
      && D.ValidPath(tree.Shape, p) && D.ValidPath(tree.Shape, tree.Pos[u])
      && u.value == D.Subtree(tree.Shape, tree.Pos[u]).value
      && (u.left == n <==> p[|p| - 1]) && (u.left != n ==> u.right == n)
  {
    LinksOf(tree, n);
    LinksOf(tree, n.parent);
    assert tree.Pos[n][..|tree.Pos[n]| - 1] == tree.Pos[n.parent];
  }

  /** NodeCreate: a fresh node holding `field`, hung from `parent`, without children. */
  method NodeCreate(field: D.Label, parent: Node?) returns (node: Node)
    ensures fresh(node)
    ensures node.value == field && node.parent == parent && node.left == null && node.right == null
  {
    node := new Node();
    node.value := field;
    node.parent := parent;
  }

  /** The node at the root of a valid tree is its root pointer, and only it has no parent. */
  lemma RootIsOnlyOrphan(tree: Tree, n: Node)
    requires tree.Valid() && n in tree.Nodes
    ensures n.parent == null <==> n == tree.root
  {
    LinksOf(tree, n);
    LinksOf(tree, tree.root);
  }

  /** In a valid tree whose shape is full, no node has exactly one child. */
  lemma NoSingleChild(tree: Tree, n: Node)
    requires tree.Valid() && D.Full(tree.Shape) && n in tree.Nodes
    ensures (n.left == null) == (n.right == null)
  {
    LinksOf(tree, n);
    D.FullSubtree(tree.Shape, tree.Pos[n]);
  }

  /**
   * `visited` and `values` are a trace of the nodes at or under position `p`:
   * one label per node, each node listed once.
   */
  ghost predicate IsTrace(tree: Tree, p: seq<bool>, values: seq<D.Label>, visited: seq<Node>)
    reads tree, tree.Nodes
  {
    && |visited| == |values|
    && (forall i :: 0 <= i < |visited| ==>
          visited[i] in tree.Nodes && visited[i] in tree.Pos && visited[i].value == values[i] && p <= tree.Pos[visited[i]])
    && (forall i, j :: 0 <= i < j < |visited| ==> visited[i] != visited[j])
  }

  /**
   * NodeDelete: the labels handed to the cleanup callback, in post-order.
   * The ghost `visited` lists the nodes freed, in the same order: each node
   * of the subtree exactly once. Nothing is freed in the model, so the heap
   * is left as it is.
   */
  method NodeDelete(tree: Tree, node: Node) returns (status: Status, values: seq<D.Label>, ghost visited: seq<Node>)
    requires tree.Valid() && node in tree.Nodes
    ensures status == SUCCESS
    ensures values == D.PostOrder(D.Subtree(tree.Shape, tree.Pos[node]))
    ensures IsTrace(tree, tree.Pos[node], values, visited)
    decreases D.Subtree(tree.Shape, tree.Pos[node])
  {
    ghost var p := tree.Pos[node];
    LinksOf(tree, node);
    D.SubtreeSnoc(tree.Shape, p, true);
    D.SubtreeSnoc(tree.Shape, p, false);
    var leftValues, rightValues := [], [];
    ghost var leftVisited: seq<Node>, rightVisited: seq<Node> := [], [];
    if node.left != null {
      var _, lv, lvis := NodeDelete(tree, node.left);
      leftValues, leftVisited := lv, lvis;
    }
    if node.right != null {
      var _, rv, rvis := NodeDelete(tree, node.right);
      rightValues, rightVisited := rv, rvis;
    }
    JoinTrace(tree, node, leftValues, leftVisited, rightValues, rightVisited);
    values := leftValues + rightValues + [node.value];
    visited := leftVisited + rightVisited + [node];
    status := SUCCESS;
  }

  /** The traces of the two subtrees, then the node itself, are a trace of the node's subtree. */
  lemma JoinTrace(tree: Tree, node: Node, lv: seq<D.Label>, lvis: seq<Node>, rv: seq<D.Label>, rvis: seq<Node>)
    requires node in tree.Nodes && node in tree.Pos
    requires IsTrace(tree, tree.Pos[node] + [true], lv, lvis)
    requires IsTrace(tree, tree.Pos[node] + [false], rv, rvis)
    ensures IsTrace(tree, tree.Pos[node], lv + rv + [node.value], lvis + rvis + [node])
  {
    var p := tree.Pos[node];
    var vis, vals := lvis + rvis + [node], lv + rv + [node.value];
    forall i | 0 <= i < |vis|
      ensures vis[i] in tree.Nodes && vis[i] in tree.Pos && vis[i].value == vals[i] && p <= tree.Pos[vis[i]]
      ensures i < |lvis| + |rvis| ==> |tree.Pos[vis[i]]| > |p| && tree.Pos[vis[i]][|p|] == (i < |lvis|)
    {
      if i < |lvis| {
        assert vis[i] == lvis[i] && vals[i] == lv[i];
        assert (p + [true])[|p|];
      } else if i < |lvis| + |rvis| {
        assert vis[i] == rvis[i - |lvis|] && vals[i] == rv[i - |lvis|];
        assert !(p + [false])[|p|];
      }
    }
    forall i, j | 0 <= i < j < |vis|
      ensures vis[i] != vis[j]
    {
      if j < |lvis| {
        assert vis[i] == lvis[i] && vis[j] == lvis[j];
      } else if i >= |lvis| && j < |lvis| + |rvis| {
        assert vis[i] == rvis[i - |lvis|] && vis[j] == rvis[j - |lvis|];
      } else if j < |lvis| + |rvis| {
        assert tree.Pos[vis[i]][|p|] != tree.Pos[vis[j]][|p|];
      } else {
        assert |tree.Pos[vis[i]]| > |tree.Pos[vis[j]]|;
      }
    }
  }

  /** The caller's `Tree_t*` variable, which TreeDtor receives by address. */
  class TreeRef {
    var tree: Tree?

    constructor (tree: Tree?)
      ensures this.tree == tree
    {
      this.tree := tree;
    }
  }

  /** TreeDtor: deletes the whole tree from its root, in post-order, and sets the caller's pointer to NULL. */
  method TreeDtor(cell: TreeRef) returns (status: Status, values: seq<D.Label>)
    requires cell.tree != null && cell.tree.Valid()
    modifies cell
    ensures cell.tree == null && status == SUCCESS
    ensures values == D.PostOrder(old(cell.tree.Shape))
    ensures |values| == D.Size(old(cell.tree.Shape))
  {
    var tree := cell.tree;
    var _, trace, _ := NodeDelete(tree, tree.root);
    D.PostOrderCoversTree(tree.Shape);
    values := trace;
    cell.tree := null;
    status := SUCCESS;
  }
}
