/**
 * The game operations of src/Akinator.cpp on the heap tree: the leaf-to-
 * question splice that teaches a new object, the descent of one round, the
 * lookup of an object by name, its trait list and the text writer.
 */
module Akinator {
  import opened Wrappers
  import D = DecisionTree
  import opened TreeLib
  import YesNo
  import OS = ObjectSearch
  import Serializer

  // ---------------------------------------------------------------------------
  // The leaf-to-question splice (AddQuestion)

  /**
   * The links after AddQuestion: the question node `q` takes the leaf's place
   * under the leaf's parent and holds the object node `o` on the yes side iff
   * `yes`, the leaf on the other; the leaf and `o` hang from `q`.
   */
  ghost function SpliceHeap(h: map<Node, Links>, leaf: Node, q: Node, o: Node,
                            question: string, objectName: string, yes: bool): map<Node, Links>
    requires leaf in h
  {
    var parent := h[leaf].parent;
    var h' := h[leaf := h[leaf].(parent := q)]
               [q := Links(Some(question), if yes then o else leaf, if yes then leaf else o, parent)]
               [o := Links(Some(objectName), null, null, q)];
    if parent == null || parent !in h then h'
    else if h[parent].left == leaf then h'[parent := h[parent].(left := q)]
    else h'[parent := h[parent].(right := q)]
  }

  /** The positions after AddQuestion: the leaf one step down, the question node in its place. */
  function SplicePos(pos: map<Node, seq<bool>>, leaf: Node, q: Node, o: Node, yes: bool): map<Node, seq<bool>>
    requires leaf in pos
  {
    pos[leaf := pos[leaf] + [!yes]][q := pos[leaf]][o := pos[leaf] + [yes]]
  }

  /** A leaf of a consistent tree, and two distinct nodes that are not in it. */
  ghost predicate SpliceReady(root: Node, h: map<Node, Links>, pos: map<Node, seq<bool>>, shape: D.Tree,
                              leaf: Node, q: Node, o: Node)
  {
    && Consistent(root, h, pos, shape)
    && leaf in h && h[leaf].left == null && h[leaf].right == null
    && q !in h && o !in h && q != o
  }

  /** The spliced leaf is a leaf of the shape, and every other node lies off it. */
  lemma SpliceOffLeaf(root: Node, h: map<Node, Links>, pos: map<Node, seq<bool>>, shape: D.Tree,
                      leaf: Node, q: Node, o: Node, n: Node)
    requires SpliceReady(root, h, pos, shape, leaf, q, o)
    ensures D.ValidPath(shape, pos[leaf]) && D.IsLeaf(D.Subtree(shape, pos[leaf]))
    ensures n in h && n != leaf ==> !(pos[leaf] <= pos[n])
  {
    assert MirrorsAt(h, pos, shape, leaf);
    if n in h && n != leaf {
      assert MirrorsAt(h, pos, shape, n);
      D.UnderLeafIsLeaf(shape, pos[leaf], pos[n]);
    }
  }

  /** A node other than the three the splice touches keeps mirroring the shape. */
  lemma SpliceMirrorsOther(root: Node, h: map<Node, Links>, pos: map<Node, seq<bool>>, shape: D.Tree,
                           leaf: Node, q: Node, o: Node, question: string, objectName: string, yes: bool, n: Node)
    requires SpliceReady(root, h, pos, shape, leaf, q, o)
    requires n in h && n != leaf
    ensures var h' := SpliceHeap(h, leaf, q, o, question, objectName, yes);
      n in h' && MirrorsAt(h', SplicePos(pos, leaf, q, o, yes), D.Splice(shape, pos[leaf], question, objectName, yes), n)
  {
    SpliceNodeAgrees(root, h, pos, shape, leaf, q, o, question, objectName, yes, n);
    SpliceChildLinked(root, h, pos, shape, leaf, q, o, question, objectName, yes, n, true);
    SpliceChildLinked(root, h, pos, shape, leaf, q, o, question, objectName, yes, n, false);
    SpliceParentLinked(root, h, pos, shape, leaf, q, o, question, objectName, yes, n);
  }

  lemma SpliceNodeAgrees(root: Node, h: map<Node, Links>, pos: map<Node, seq<bool>>, shape: D.Tree,
                         leaf: Node, q: Node, o: Node, question: string, objectName: string, yes: bool, n: Node)
    requires SpliceReady(root, h, pos, shape, leaf, q, o)
    requires n in h && n != leaf
    ensures var h' := SpliceHeap(h, leaf, q, o, question, objectName, yes);
      var pos' := SplicePos(pos, leaf, q, o, yes);
      n in h' && n in pos' && NodeAgrees(h', pos', D.Splice(shape, pos[leaf], question, objectName, yes), n)
  {
    var p := pos[leaf];
    var shape' := D.Splice(shape, p, question, objectName, yes);
    SpliceOffLeaf(root, h, pos, shape, leaf, q, o, n);
    D.SpliceLayout(shape, p, question, objectName, yes);
    assert D.SameNode(D.Subtree(shape', pos[n]), D.Subtree(shape, pos[n]));
    assert MirrorsAt(h, pos, shape, n);
    assert MirrorsAt(h, pos, shape, leaf);
    SpliceHeapElsewhere(h, leaf, q, o, question, objectName, yes, n);
  }

  lemma SpliceChildLinked(root: Node, h: map<Node, Links>, pos: map<Node, seq<bool>>, shape: D.Tree,
                          leaf: Node, q: Node, o: Node, question: string, objectName: string, yes: bool, n: Node, d: bool)
    requires SpliceReady(root, h, pos, shape, leaf, q, o)
    requires n in h && n != leaf
    ensures var h' := SpliceHeap(h, leaf, q, o, question, objectName, yes);
      var pos' := SplicePos(pos, leaf, q, o, yes);
      n in h' && h'.Keys == pos'.Keys && ChildLinked(h', pos', n, d)
  {
    var c := if d then h[n].left else h[n].right;
    assert MirrorsAt(h, pos, shape, n);
    assert MirrorsAt(h, pos, shape, leaf);
    if c == leaf {
      SpliceChildLinkedParent(root, h, pos, shape, leaf, q, o, question, objectName, yes, n, d);
    } else {
      SpliceChildLinkedOther(h, pos, leaf, q, o, question, objectName, yes, n, d);
    }
  }

  /** A slot that did not hold the leaf keeps its child, which keeps its position and parent. */
  lemma SpliceChildLinkedOther(h: map<Node, Links>, pos: map<Node, seq<bool>>,
                               leaf: Node, q: Node, o: Node, question: string, objectName: string, yes: bool,
                               n: Node, d: bool)
    requires leaf in h && q !in h && o !in h && q != o && h.Keys == pos.Keys && h[leaf].parent != leaf
    requires n in h && n != leaf && (if d then h[n].left else h[n].right) != leaf
    requires ChildLinked(h, pos, n, d) && ParentLinked(h, pos, leaf)
    ensures var h' := SpliceHeap(h, leaf, q, o, question, objectName, yes);
      var pos' := SplicePos(pos, leaf, q, o, yes);
      n in h' && h'.Keys == pos'.Keys && ChildLinked(h', pos', n, d)
  {
    var c := if d then h[n].left else h[n].right;
    SpliceHeapTouched(h, leaf, q, o, question, objectName, yes);
    SpliceHeapElsewhere(h, leaf, q, o, question, objectName, yes, n);
    if c != null {
      SpliceHeapElsewhere(h, leaf, q, o, question, objectName, yes, c);
    }
  }

  /** The slot of the leaf's parent that held the leaf now holds the question node. */
  lemma SpliceChildLinkedParent(root: Node, h: map<Node, Links>, pos: map<Node, seq<bool>>, shape: D.Tree,
                                leaf: Node, q: Node, o: Node, question: string, objectName: string, yes: bool,
                                n: Node, d: bool)
    requires SpliceReady(root, h, pos, shape, leaf, q, o)
    requires n in h && n != leaf && (if d then h[n].left else h[n].right) == leaf
    ensures var h' := SpliceHeap(h, leaf, q, o, question, objectName, yes);
      var pos' := SplicePos(pos, leaf, q, o, yes);
      n in h' && h'.Keys == pos'.Keys && ChildLinked(h', pos', n, d)
  {
    assert MirrorsAt(h, pos, shape, n);
    assert ChildLinked(h, pos, n, true) && ChildLinked(h, pos, n, false);
    SpliceLocal(root, h, pos, shape, leaf, q, o, question, objectName, yes);
    SpliceHeapElsewhere(h, leaf, q, o, question, objectName, yes, n);
  }

  lemma SpliceParentLinked(root: Node, h: map<Node, Links>, pos: map<Node, seq<bool>>, shape: D.Tree,
                           leaf: Node, q: Node, o: Node, question: string, objectName: string, yes: bool, n: Node)
    requires SpliceReady(root, h, pos, shape, leaf, q, o)
    requires n in h && n != leaf
    ensures var h' := SpliceHeap(h, leaf, q, o, question, objectName, yes);
      var pos' := SplicePos(pos, leaf, q, o, yes);
      n in h' && h'.Keys == pos'.Keys && ParentLinked(h', pos', n)
  {
    var h' := SpliceHeap(h, leaf, q, o, question, objectName, yes);
    var pos' := SplicePos(pos, leaf, q, o, yes);
    var parent := h[leaf].parent;
    var u := h[n].parent;
    assert MirrorsAt(h, pos, shape, n);
    assert ParentLinked(h, pos, n);
    SpliceHeapElsewhere(h, leaf, q, o, question, objectName, yes, n);
    assert h'[n].parent == u && pos'[n] == pos[n];
    if u != null {
      var last := pos[n][|pos[n]| - 1];
      assert MirrorsAt(h, pos, shape, leaf);
      assert u != leaf;
      SpliceHeapElsewhere(h, leaf, q, o, question, objectName, yes, u);
      assert pos'[u] == pos[u];
      if u == parent {
        assert (if last then h'[u].left == n else h'[u].right == n);
      } else {
        assert h'[u] == h[u];
      }
    }
  }

  /** What SpliceHeap holds for the leaf and the two new nodes, and which nodes it holds. */
  lemma SpliceHeapTouched(h: map<Node, Links>, leaf: Node, q: Node, o: Node,
                          question: string, objectName: string, yes: bool)
    requires leaf in h && h[leaf].parent != leaf && q !in h && o !in h && q != o
    ensures var h' := SpliceHeap(h, leaf, q, o, question, objectName, yes);
      && h'.Keys == h.Keys + {q, o}
      && h'[leaf] == h[leaf].(parent := q)
      && h'[q] == Links(Some(question), if yes then o else leaf, if yes then leaf else o, h[leaf].parent)
      && h'[o] == Links(Some(objectName), null, null, q)
  {
  }

  /** SpliceHeap changes no node but the leaf, and at most one child slot of the leaf's parent. */
  lemma SpliceHeapElsewhere(h: map<Node, Links>, leaf: Node, q: Node, o: Node,
                            question: string, objectName: string, yes: bool, n: Node)
    requires leaf in h && q !in h && o !in h && n in h && n != leaf
    ensures var h' := SpliceHeap(h, leaf, q, o, question, objectName, yes);
      var parent := h[leaf].parent;
      && n in h'
      && h'[n] == if n != parent then h[n]
                  else if h[n].left == leaf then h[n].(left := q)
                  else h[n].(right := q)
  {
  }

  /** The facts about the splice that the three new placements share. */
  lemma SpliceLocal(root: Node, h: map<Node, Links>, pos: map<Node, seq<bool>>, shape: D.Tree,
                    leaf: Node, q: Node, o: Node, question: string, objectName: string, yes: bool)
    requires SpliceReady(root, h, pos, shape, leaf, q, o)
    ensures var h' := SpliceHeap(h, leaf, q, o, question, objectName, yes);
      var pos' := SplicePos(pos, leaf, q, o, yes);
      var shape' := D.Splice(shape, pos[leaf], question, objectName, yes);
      var p := pos[leaf];
      var parent := h[leaf].parent;
      && h'.Keys == pos'.Keys && leaf in h' && q in h' && o in h'
      && pos'[q] == p && pos'[leaf] == p + [!yes] && pos'[o] == p + [yes]
      && h'[leaf] == h[leaf].(parent := q)
      && h'[q] == Links(Some(question), if yes then o else leaf, if yes then leaf else o, parent)
      && h'[o] == Links(Some(objectName), null, null, q)
      && D.ValidPath(shape, p) && D.IsLeaf(D.Subtree(shape, p))
      && D.Internal(D.Subtree(shape', p)) && D.Subtree(shape', p).value == Some(question)
      && D.Subtree(shape', p + [yes]) == D.ObjectLeaf(objectName)
      && D.Subtree(shape', p + [!yes]) == D.Subtree(shape, p)
      && h[leaf].value == D.Subtree(shape, p).value
      && (parent == null <==> p == [])
      && (parent != null ==>
            && parent in h && parent != leaf && pos[parent] + [p[|p| - 1]] == p
            && (if p[|p| - 1] then h[parent].left == leaf else h[parent].right == leaf))
  {
    var p := pos[leaf];
    SpliceOffLeaf(root, h, pos, shape, leaf, q, o, leaf);
    D.SpliceLayout(shape, p, question, objectName, yes);
    assert MirrorsAt(h, pos, shape, leaf);
    SpliceHeapTouched(h, leaf, q, o, question, objectName, yes);
  }

  lemma SpliceMirrorsQuestion(root: Node, h: map<Node, Links>, pos: map<Node, seq<bool>>, shape: D.Tree,
                              leaf: Node, q: Node, o: Node, question: string, objectName: string, yes: bool)
    requires SpliceReady(root, h, pos, shape, leaf, q, o)
    ensures var h' := SpliceHeap(h, leaf, q, o, question, objectName, yes);
      var pos' := SplicePos(pos, leaf, q, o, yes);
      && h'.Keys == pos'.Keys && q in h'
      && MirrorsAt(h', pos', D.Splice(shape, pos[leaf], question, objectName, yes), q)
  {
    SpliceLocal(root, h, pos, shape, leaf, q, o, question, objectName, yes);
    var parent := h[leaf].parent;
    if parent != null {
      assert MirrorsAt(h, pos, shape, parent);
      SpliceHeapElsewhere(h, leaf, q, o, question, objectName, yes, parent);
    }
  }

  lemma SpliceMirrorsLeaf(root: Node, h: map<Node, Links>, pos: map<Node, seq<bool>>, shape: D.Tree,
                          leaf: Node, q: Node, o: Node, question: string, objectName: string, yes: bool)
    requires SpliceReady(root, h, pos, shape, leaf, q, o)
    ensures var h' := SpliceHeap(h, leaf, q, o, question, objectName, yes);
      var pos' := SplicePos(pos, leaf, q, o, yes);
      && h'.Keys == pos'.Keys && leaf in h'
      && MirrorsAt(h', pos', D.Splice(shape, pos[leaf], question, objectName, yes), leaf)
  {
    SpliceLocal(root, h, pos, shape, leaf, q, o, question, objectName, yes);
  }

  lemma SpliceMirrorsObject(root: Node, h: map<Node, Links>, pos: map<Node, seq<bool>>, shape: D.Tree,
                            leaf: Node, q: Node, o: Node, question: string, objectName: string, yes: bool)
    requires SpliceReady(root, h, pos, shape, leaf, q, o)
    ensures var h' := SpliceHeap(h, leaf, q, o, question, objectName, yes);
      var pos' := SplicePos(pos, leaf, q, o, yes);
      && h'.Keys == pos'.Keys && o in h'
      && MirrorsAt(h', pos', D.Splice(shape, pos[leaf], question, objectName, yes), o)
  {
    SpliceLocal(root, h, pos, shape, leaf, q, o, question, objectName, yes);
  }

  /** After the splice, no two nodes share a position. */
  lemma SpliceInjective(root: Node, h: map<Node, Links>, pos: map<Node, seq<bool>>, shape: D.Tree,
                        leaf: Node, q: Node, o: Node, yes: bool)
    requires SpliceReady(root, h, pos, shape, leaf, q, o)
    ensures var pos' := SplicePos(pos, leaf, q, o, yes);
      forall n, m :: n in pos' && m in pos' && pos'[n] == pos'[m] ==> n == m
  {
    var p := pos[leaf];
    var pos' := SplicePos(pos, leaf, q, o, yes);
    forall n, m | n in pos' && m in pos' && pos'[n] == pos'[m]
      ensures n == m
    {
      var touched := {leaf, q, o};
      if n !in touched && m !in touched {
        assert pos[n] == pos'[n] && pos[m] == pos'[m];
      } else if n in touched && m in touched {
        assert pos'[q] == p && pos'[leaf] == p + [!yes] && pos'[o] == p + [yes];
        assert (p + [yes])[|p|] != (p + [!yes])[|p|];
      } else {
        var other: Node := if n in touched then m else n;
        SpliceOffLeaf(root, h, pos, shape, leaf, q, o, other);
      }
    }
  }

  /**
   * Splicing a leaf of a consistent tree gives a consistent tree: the links of
   * SpliceHeap form the shape of Splice, the leaf moves one step down, the
   * question node takes its old position and the object node the other child.
   */
  lemma SpliceConsistent(root: Node, h: map<Node, Links>, pos: map<Node, seq<bool>>, shape: D.Tree,
                         leaf: Node, q: Node, o: Node, question: string, objectName: string, yes: bool)
    requires SpliceReady(root, h, pos, shape, leaf, q, o)
    ensures Consistent(if h[leaf].parent == null then q else root,
                       SpliceHeap(h, leaf, q, o, question, objectName, yes),
                       SplicePos(pos, leaf, q, o, yes),
                       D.Splice(shape, pos[leaf], question, objectName, yes))
  {
    var p := pos[leaf];
    var h' := SpliceHeap(h, leaf, q, o, question, objectName, yes);
    var pos' := SplicePos(pos, leaf, q, o, yes);
    var shape' := D.Splice(shape, p, question, objectName, yes);
    var root' := if h[leaf].parent == null then q else root;
    assert root' in h' && h'.Keys == pos'.Keys && pos'[root'] == [] by {
      assert MirrorsAt(h, pos, shape, leaf);
      if h[leaf].parent != null {
        assert MirrorsAt(h, pos, shape, root);
      }
    }
    SpliceMirrorsQuestion(root, h, pos, shape, leaf, q, o, question, objectName, yes);
    SpliceMirrorsLeaf(root, h, pos, shape, leaf, q, o, question, objectName, yes);
    SpliceMirrorsObject(root, h, pos, shape, leaf, q, o, question, objectName, yes);
    forall n | n in h'
      ensures MirrorsAt(h', pos', shape', n)
    {
      if n != q && n != leaf && n != o {
        SpliceMirrorsOther(root, h, pos, shape, leaf, q, o, question, objectName, yes, n);
      }
    }
    SpliceInjective(root, h, pos, shape, leaf, q, o, yes);
  }

  /** The pointer surgery of AddQuestion: a fresh question node takes the leaf's place under its
      parent, with the leaf and a fresh object node as its children. */
  method Relink(leaf: Node, newQuestion: string, newObject: string, yes: bool)
    returns (question: Node, objectNode: Node)
    requires leaf.parent != leaf
    modifies leaf, leaf.parent
    ensures fresh(question) && fresh(objectNode)
    ensures question.value == Some(newQuestion) && question.parent == old(leaf.parent)
    ensures question.left == (if yes then objectNode else leaf)
    ensures question.right == (if yes then leaf else objectNode)
    ensures objectNode.value == Some(newObject) && objectNode.parent == question
    ensures objectNode.left == null && objectNode.right == null
    ensures leaf.value == old(leaf.value) && leaf.left == old(leaf.left) && leaf.right == old(leaf.right)
    ensures leaf.parent == question
    ensures var u := old(leaf.parent);
      u != null ==>
        && u.value == old(u.value) && u.parent == old(u.parent)
        && u.left == (if old(u.left) == leaf then question else old(u.left))
        && u.right == (if old(u.left) == leaf then old(u.right) else question)
  {
    question := new Node();
    question.value := Some(newQuestion);
    objectNode := NodeCreate(Some(newObject), question);
    if yes {
      question.left := objectNode;
      question.right := leaf;
    } else {
      question.right := objectNode;
      question.left := leaf;
    }
    question.parent := leaf.parent;
    leaf.parent := question;
    if question.parent != null {
      if question.parent.left == leaf {
        question.parent.left := question;
      } else {
        question.parent.right := question;
      }
    }
  }

  /** After the pointer surgery, the fields of every node hold what SpliceHeap says of it. */
  lemma SpliceFields(root: Node, h: map<Node, Links>, pos: map<Node, seq<bool>>, shape: D.Tree,
                     leaf: Node, q: Node, o: Node, question: string, objectName: string, yes: bool)
    requires SpliceReady(root, h, pos, shape, leaf, q, o)
    requires forall n :: n in h && n != leaf && n != h[leaf].parent ==> Links(n.value, n.left, n.right, n.parent) == h[n]
    requires leaf.value == h[leaf].value && leaf.left == null && leaf.right == null && leaf.parent == q
    requires q.value == Some(question) && q.parent == h[leaf].parent
    requires q.left == (if yes then o else leaf) && q.right == (if yes then leaf else o)
    requires o.value == Some(objectName) && o.left == null && o.right == null && o.parent == q
    requires var u := h[leaf].parent;
      u != null && u in h ==>
        && u.value == h[u].value && u.parent == h[u].parent
        && u.left == (if h[u].left == leaf then q else h[u].left)
        && u.right == (if h[u].left == leaf then h[u].right else q)
    ensures var h' := SpliceHeap(h, leaf, q, o, question, objectName, yes);
      && h'.Keys == h.Keys + {q, o}
      && HeldBy(h')
  {
    var h' := SpliceHeap(h, leaf, q, o, question, objectName, yes);
    assert MirrorsAt(h, pos, shape, leaf);
    SpliceHeapTouched(h, leaf, q, o, question, objectName, yes);
    forall n | n in h && n != leaf
      ensures Links(n.value, n.left, n.right, n.parent) == h'[n]
    {
      SpliceHeapElsewhere(h, leaf, q, o, question, objectName, yes, n);
    }
  }

  /** A tree whose fields hold the spliced snapshot, whose nodes hold the spliced links, is valid. */
  lemma SpliceValid(tree: Tree, root: Node, h: map<Node, Links>, pos: map<Node, seq<bool>>, shape: D.Tree,
                    leaf: Node, q: Node, o: Node, question: string, objectName: string, yes: bool)
    requires SpliceReady(root, h, pos, shape, leaf, q, o)
    requires HeldBy(SpliceHeap(h, leaf, q, o, question, objectName, yes))
    requires tree.root == (if h[leaf].parent == null then q else root)
    requires tree.Nodes == h.Keys + {q, o}
    requires tree.Pos == SplicePos(pos, leaf, q, o, yes)
    requires tree.Shape == D.Splice(shape, pos[leaf], question, objectName, yes)
    requires tree.Heap == SpliceHeap(h, leaf, q, o, question, objectName, yes)
    ensures tree.Valid()
  {
    assert MirrorsAt(h, pos, shape, leaf);
    SpliceHeapTouched(h, leaf, q, o, question, objectName, yes);
    SpliceConsistent(root, h, pos, shape, leaf, q, o, question, objectName, yes);
    ValidFrom(tree, tree.root, tree.Heap, tree.Pos, tree.Shape);
  }

  /**
   * The end of AddQuestion: a question node without a parent becomes the
   * root, and the ghost state moves to the spliced snapshot.
   */
  method SetRoot(tree: Tree, ghost root: Node, ghost h: map<Node, Links>, ghost pos: map<Node, seq<bool>>,
                 ghost shape: D.Tree, leaf: Node, q: Node, ghost o: Node, ghost question: string,
                 ghost objectName: string, ghost yes: bool)
    requires SpliceReady(root, h, pos, shape, leaf, q, o) && tree.root == root
    requires HeldBy(SpliceHeap(h, leaf, q, o, question, objectName, yes))
    requires q.parent == h[leaf].parent
    modifies tree
    ensures tree.Valid()
    ensures tree.root == if h[leaf].parent == null then q else root
    ensures tree.Nodes == h.Keys + {q, o}
    ensures tree.Pos == SplicePos(pos, leaf, q, o, yes)
    ensures tree.Shape == D.Splice(shape, pos[leaf], question, objectName, yes)
    ensures tree.Heap == SpliceHeap(h, leaf, q, o, question, objectName, yes)
  {
    if q.parent == null {
      tree.root := q;
    }
    tree.Nodes := h.Keys + {q, o};
    tree.Pos := SplicePos(pos, leaf, q, o, yes);
    tree.Shape := D.Splice(shape, pos[leaf], question, objectName, yes);
    tree.Heap := SpliceHeap(h, leaf, q, o, question, objectName, yes);
    SpliceValid(tree, root, h, pos, shape, leaf, q, o, question, objectName, yes);
  }

  /**
   * AddQuestion: replaces `leaf` by a fresh question node whose children are
   * a fresh leaf for the new object and the old leaf; the new object goes on
   * the yes (left) side iff `yes`. The question node takes the old leaf's
   * place under its parent, or at the root. No other node changes.
   */
  method AddQuestion(tree: Tree, leaf: Node, newQuestion: string, newObject: string, yes: bool)
    returns (question: Node, ghost objectNode: Node)
    requires tree.Valid() && leaf in tree.Nodes && leaf.left == null && leaf.right == null
    modifies tree, leaf, leaf.parent
    ensures tree.Valid()
    ensures fresh(question) && fresh(objectNode)
    ensures tree.Heap == SpliceHeap(old(tree.Heap), leaf, question, objectNode, newQuestion, newObject, yes)
    ensures tree.root == if old(leaf.parent) == null then question else old(tree.root)
    ensures tree.Nodes == old(tree.Nodes) + {question, objectNode}
    ensures tree.Pos == SplicePos(old(tree.Pos), leaf, question, objectNode, yes)
    ensures tree.Shape == D.Splice(old(tree.Shape), old(tree.Pos[leaf]), newQuestion, newObject, yes)
  {
    ghost var h := tree.Heap;
    ghost var pos := tree.Pos;
    ghost var S := tree.Shape;
    ghost var root := tree.root;
    LinksOf(tree, leaf);
    ghost var up := leaf.parent;
    assert up == h[leaf].parent;
    var created;
    question, created := Relink(leaf, newQuestion, newObject, yes);
    objectNode := created;
    SpliceFields(root, h, pos, S, leaf, question, created, newQuestion, newObject, yes);
    SetRoot(tree, root, h, pos, S, leaf, question, created, newQuestion, newObject, yes);
  }

  // ---------------------------------------------------------------------------
  // One round of the game (AskQuestion, PlayRound, HandleIncorrectGuess)

  /**
   * AskQuestion: a node without children asks nothing and yields null; any
   * other node reads one answer, from the word at `from` on, and yields its
   * left child on yes and its right child on no. When the words run out the
   * program would wait for input; here the result is null.
   */
  method AskQuestion(tree: Tree, current: Node, words: seq<string>, from: nat)
    returns (next: Node?, ghost answer: Option<bool>, at: nat)
    requires tree.Valid() && current in tree.Nodes && from <= |words|
    ensures from <= at <= |words|
    ensures current.left == null && current.right == null ==> next == null && at == from
    ensures !(current.left == null && current.right == null) ==>
      && (answer.None? ==> next == null && at == |words| && YesNo.Answers(words[from..]) == [])
      && (answer.Some? ==>
            && YesNo.Answers(words[from..]) == [answer.value] + YesNo.Answers(words[at..])
            && next == if answer.value then current.left else current.right)
    ensures next != null ==> answer.Some? && next in tree.Nodes && tree.Pos[next] == tree.Pos[current] + [answer.value]
  {
    if current.left == null && current.right == null {
      return null, None, from;
    }
    LinksOf(tree, current);
    var a;
    a, at := YesNo.YesOrNoAnswer(words, from);
    answer := a;
    match a {
      case None => next := null;
      case Some(yes) => next := if yes then current.left else current.right;
    }
  }

  /**
   * The descent loop of PlayRound: from the root, ask the question of the
   * current node while it has both children. It stops at the node Descend
   * reaches on the shape, or with null when the answers run out first.
   */
  method Descent(tree: Tree, words: seq<string>) returns (current: Node?, at: nat)
    requires tree.Valid()
    ensures at <= |words|
    ensures tree.Shape.Node?
    ensures current == null ==> D.Descend(tree.Shape, YesNo.Answers(words)) == None
    ensures current != null ==>
      && current in tree.Nodes
      && D.Descend(tree.Shape, YesNo.Answers(words)) == Some(tree.Pos[current])
      && YesNo.Answers(words)[|tree.Pos[current]|..] == YesNo.Answers(words[at..])
  {
    ghost var S := tree.Shape;
    ghost var A := YesNo.Answers(words);
    ghost var path: seq<bool> := [];
    LinksOf(tree, tree.root);
    current := tree.root;
    at := 0;
    assert D.Subtree(S, path) == S && A[|path|..] == A;
    match D.Descend(S, A) {
      case None =>
      case Some(q) => assert path + q == q;
    }
    while current != null && current.left != null && current.right != null
      invariant at <= |words| && A == path + YesNo.Answers(words[at..])
      invariant D.ValidPath(S, path)
      invariant D.Descend(S, A) == D.Extend(path, D.Descend(D.Subtree(S, path), A[|path|..]))
      invariant current != null ==> current in tree.Nodes && tree.Pos[current] == path
      invariant current == null ==> D.Internal(D.Subtree(S, path)) && YesNo.Answers(words[at..]) == []
      decreases |words| - at, current != null
    {
      LinksOf(tree, current);
      ghost var answer;
      var next, after;
      next, answer, after := AskQuestion(tree, current, words, at);
      if answer.Some? {
        D.DescendStep(S, path, A);
        D.AppendAssoc(path, [answer.value], YesNo.Answers(words[after..]));
        path := path + [answer.value];
      } else {
        assert words[after..] == [];
      }
      current, at := next, after;
    }
    if current != null {
      LinksOf(tree, current);
      assert A[|path|..] == YesNo.Answers(words[at..]);
      assert path + [] == path;
    }
  }

  /**
   * PlayRound: descend from the root while the current node has both
   * children, then guess the node reached; on a wrong guess, hand over to
   * HandleIncorrectGuess. The round does what Round says of the shape.
   */
  method PlayRound(tree: Tree, words: seq<string>, newObject: string, newQuestion: string)
    returns (outcome: D.Outcome)
    requires tree.Valid() && tree.Shape.Node? && D.Full(tree.Shape)
    modifies tree, tree.Nodes
    ensures tree.Valid() && D.Full(tree.Shape)
    ensures (outcome, tree.Shape) == D.Round(old(tree.Shape), YesNo.Answers(words), newQuestion, newObject)
  {
    ghost var S := tree.Shape;
    var current, at := Descent(tree, words);
    if current == null {
      return D.OutOfInput;
    }
    ghost var path := tree.Pos[current];
    LinksOf(tree, current);
    D.FullSubtree(S, path);
    var guess, next := YesNo.YesOrNoAnswer(words, at);
    match guess {
      case None => outcome := D.OutOfInput;
      case Some(correct) =>
        if correct {
          outcome := D.Guessed;
        } else {
          outcome := HandleIncorrectGuess(tree, current, words, next, newObject, newQuestion);
          D.SpliceCounts(S, path, newQuestion, newObject, true);
          D.SpliceCounts(S, path, newQuestion, newObject, false);
        }
    }
  }

  /**
   * HandleIncorrectGuess: "add a new object?"; on yes, the new object's name
   * and the question that tells it from the guess are taken as given, the
   * answer for the new object is read and the leaf becomes that question.
   */
  method HandleIncorrectGuess(tree: Tree, leaf: Node, words: seq<string>, from: nat,
                              newObject: string, newQuestion: string)
    returns (outcome: D.Outcome)
    requires tree.Valid() && leaf in tree.Nodes && leaf.left == null && leaf.right == null
    requires from <= |words|
    modifies tree, leaf, leaf.parent
    ensures tree.Valid()
    ensures (outcome, tree.Shape)
         == D.Teach(old(tree.Shape), old(tree.Pos[leaf]), YesNo.Answers(words[from..]), newQuestion, newObject)
  {
    ghost var S, p := tree.Shape, tree.Pos[leaf];
    ghost var A := YesNo.Answers(words[from..]);
    var answer, at := YesNo.YesOrNoAnswer(words, from);
    if answer == Some(false) {
      return D.Declined;
    }
    if answer.None? {
      return D.OutOfInput;
    }
    var side, rest := YesNo.YesOrNoAnswer(words, at);
    if side.None? {
      return D.OutOfInput;
    }
    assert |A| >= 2 && A[0] && A[1] == side.value;
    var question;
    ghost var objectNode;
    question, objectNode := AddQuestion(tree, leaf, newQuestion, newObject, side.value);
    outcome := D.Learned;
    assert tree.Shape == D.Splice(S, p, newQuestion, newObject, A[1]);
  }

  // ---------------------------------------------------------------------------
  // Looking an object up (SearchObjectRecursively, SearchObject)

  /**
   * SearchObjectRecursively: the first leaf in pre-order under `node` whose
   * lower-cased label starts with `query`, or null; it is the node at the
   * position the search on the shape finds.
   */
  method SearchObjectRecursively(tree: Tree, node: Node?, query: string) returns (found: Node?)
    requires tree.Valid() && (node == null || node in tree.Nodes)
    requires node != null ==> OS.SearchAt(tree.Shape, tree.Pos[node], query) != OS.Undefined
    ensures node == null ==> found == null
    ensures node != null ==> (found == null <==> OS.SearchAt(tree.Shape, tree.Pos[node], query) == OS.NotFound)
    ensures node != null && found != null ==>
      found in tree.Nodes && OS.SearchAt(tree.Shape, tree.Pos[node], query) == OS.Found(tree.Pos[found])
    decreases if node == null then D.Nil else D.Subtree(tree.Shape, tree.Pos[node])
  {
    if node == null {
      return null;
    }
    LinksOf(tree, node);
    OS.SearchAtStep(tree.Shape, tree.Pos[node], query);
    var nodeName := OS.LowerCopy(node.value.value);
    if node.left == null && node.right == null && query <= nodeName {
      return node;
    }
    found := SearchObjectRecursively(tree, node.left, query);
    if found != null {
      return found;
    }
    found := SearchObjectRecursively(tree, node.right, query);
  }

  /**
   * SearchObject, as written: it fills a lower-cased copy of the name but
   * passes the name itself to the search.
   */
  method SearchObject(tree: Tree, name: string) returns (found: Node?)
    requires tree.Valid() && OS.Search(tree.Shape, name) != OS.Undefined && OS.Utf8Len(name) < OS.MAX_LEN
    ensures found == null <==> OS.Search(tree.Shape, name) == OS.NotFound
    ensures found != null ==> found in tree.Nodes && OS.Search(tree.Shape, name) == OS.Found(tree.Pos[found])
  {
    var lowerName := OS.LowerCopy(name);
    LinksOf(tree, tree.root);
    found := SearchObjectRecursively(tree, tree.root, name);
  }

  /** SearchObject as evidently intended: the lower-cased copy is what is searched for. */
  method SearchObjectIgnoringCase(tree: Tree, name: string) returns (found: Node?)
    requires tree.Valid() && OS.SearchIgnoringCase(tree.Shape, name) != OS.Undefined && OS.Utf8Len(name) < OS.MAX_LEN
    ensures found == null <==> OS.SearchIgnoringCase(tree.Shape, name) == OS.NotFound
    ensures found != null ==> found in tree.Nodes && OS.SearchIgnoringCase(tree.Shape, name) == OS.Found(tree.Pos[found])
  {
    var lowerName := OS.LowerCopy(name);
    LinksOf(tree, tree.root);
    found := SearchObjectRecursively(tree, tree.root, lowerName);
  }

  // ---------------------------------------------------------------------------
  // The traits of an object (PrintObjectTraits)

  /** The node and its ancestors, nearest first: each entry is the parent of the one before, the last is the root. */
  ghost function Ancestors(tree: Tree, n: Node): (chain: seq<Node>)
    reads tree, tree.Nodes
    requires tree.Valid() && n in tree.Nodes
    ensures |chain| == |tree.Pos[n]| + 1 && chain[0] == n
    ensures forall k :: 0 <= k < |chain| ==> chain[k] in tree.Nodes
    ensures forall k :: 0 < k < |chain| ==> chain[k - 1].parent == chain[k]
    ensures chain[|chain| - 1].parent == null
    decreases |tree.Pos[n]|
  {
    if n.parent == null then
      LinksOf(tree, n);
      [n]
    else
      ParentSide(tree, n);
      [n] + Ancestors(tree, n.parent)
  }

  /**
   * The first loop of PrintObjectTraits: the node and its ancestors, stacked
   * into a MAX_LEN array by following parent links up to the root.
   */
  method StackAncestors(tree: Tree, node: Node) returns (path: array<Node?>, depth: nat)
    requires tree.Valid() && node in tree.Nodes && |tree.Pos[node]| < OS.MAX_LEN
    ensures fresh(path) && path.Length == OS.MAX_LEN
    ensures depth == |tree.Pos[node]| + 1 && path[..depth] == old(Ancestors(tree, node))
  {
    ghost var chain := Ancestors(tree, node);
    path := new Node?[OS.MAX_LEN];
    depth := 0;
    var current: Node? := node;
    while current != null
      invariant depth <= |chain| && current == (if depth < |chain| then chain[depth] else null)
      invariant path[..depth] == chain[..depth]
      modifies path
      decreases |chain| - depth
    {
      path[depth] := current;
      depth := depth + 1;
      current := current.parent;
    }
  }

  /**
   * The second loop of PrintObjectTraits: from the root down the stacked
   * chain, each ancestor gives its question and whether the chain turns
   * left (yes) below it. The result is the traits of the chain's first node.
   */
  method ReadTraits(tree: Tree, path: array<Node?>, depth: nat, ghost node: Node) returns (traits: seq<D.Trait>)
    requires tree.Valid() && node in tree.Nodes
    requires depth <= path.Length && path[..depth] == Ancestors(tree, node)
    ensures D.ValidPath(tree.Shape, tree.Pos[node])
    ensures traits == D.Traits(tree.Shape, tree.Pos[node])
  {
    ghost var chain := Ancestors(tree, node);
    LinksOf(tree, chain[depth - 1]);
    traits := [];
    var idx := depth - 1;
    while idx > 0
      invariant 0 <= idx < depth && path[idx] == chain[idx]
      invariant D.ValidPath(tree.Shape, tree.Pos[chain[idx]])
      invariant traits == D.Traits(tree.Shape, tree.Pos[chain[idx]])
      decreases idx
    {
      var parent := path[idx];
      var child := path[idx - 1];
      assert child == chain[idx - 1];
      ParentSide(tree, chain[idx - 1]);
      D.TraitsSnoc(tree.Shape, tree.Pos[child]);
      if parent.left == child {
        traits := traits + [D.Trait(parent.value, true)];
      } else if parent.right == child {
        traits := traits + [D.Trait(parent.value, false)];
      }
      idx := idx - 1;
    }
  }

  /** The two loops of PrintObjectTraits: stack the ancestors of `found`, then read its traits root first. */
  method ObjectTraits(tree: Tree, found: Node) returns (traits: seq<D.Trait>)
    requires tree.Valid() && found in tree.Nodes && |tree.Pos[found]| < OS.MAX_LEN
    ensures D.ValidPath(tree.Shape, tree.Pos[found])
    ensures traits == D.Traits(tree.Shape, tree.Pos[found])
  {
    var path, depth := StackAncestors(tree, found);
    traits := ReadTraits(tree, path, depth, found);
  }

  /**
   * PrintObjectTraits: the traits of the object SearchObject finds for the
   * name, or None when it finds none. The object found must lie less than
   * MAX_LEN levels deep: deeper, the stacking loop writes past `path`.
   */
  method PrintObjectTraits(tree: Tree, name: string) returns (traits: Option<seq<D.Trait>>)
    requires tree.Valid() && OS.Search(tree.Shape, name) != OS.Undefined && OS.Utf8Len(name) < OS.MAX_LEN
    requires OS.Search(tree.Shape, name).Found? ==> |OS.Search(tree.Shape, name).path| < OS.MAX_LEN
    ensures traits.None? <==> !OS.Search(tree.Shape, name).Found?
    ensures OS.Search(tree.Shape, name).Found? ==>
      var p := OS.Search(tree.Shape, name).path;
      D.ValidPath(tree.Shape, p) && traits == Some(D.Traits(tree.Shape, p))
  {
    var found := SearchObject(tree, name);
    if found == null {
      return None;
    }
    var list := ObjectTraits(tree, found);
    traits := Some(list);
  }

  /** PrintObjectTraits with the corrected lookup, SearchObjectIgnoringCase. */
  method PrintObjectTraitsIgnoringCase(tree: Tree, name: string) returns (traits: Option<seq<D.Trait>>)
    requires tree.Valid() && OS.SearchIgnoringCase(tree.Shape, name) != OS.Undefined && OS.Utf8Len(name) < OS.MAX_LEN
    requires OS.SearchIgnoringCase(tree.Shape, name).Found? ==> |OS.SearchIgnoringCase(tree.Shape, name).path| < OS.MAX_LEN
    ensures traits.None? <==> !OS.SearchIgnoringCase(tree.Shape, name).Found?
    ensures OS.SearchIgnoringCase(tree.Shape, name).Found? ==>
      var p := OS.SearchIgnoringCase(tree.Shape, name).path;
      D.ValidPath(tree.Shape, p) && traits == Some(D.Traits(tree.Shape, p))
  {
    var found := SearchObjectIgnoringCase(tree, name);
    if found == null {
      return None;
    }
    var list := ObjectTraits(tree, found);
    traits := Some(list);
  }

  // ---------------------------------------------------------------------------
  // Writing the knowledge base (WriteNode, TreeSaveToFile)

  /** WriteNode: the text of the subtree at `node` is the Serializer text of its shape. */
  function WriteNode(tree: Tree, node: Node?): (text: string)
    reads tree, tree.Nodes
    requires tree.Valid() && (node == null || node in tree.Nodes)
    ensures text == Serializer.Serialize(if node == null then D.Nil else D.Subtree(tree.Shape, tree.Pos[node]))
    decreases if node == null then D.Nil else D.Subtree(tree.Shape, tree.Pos[node])
  {
    if node == null then " nil"
    else
      LinksOf(tree, node);
      D.SubtreeSnoc(tree.Shape, tree.Pos[node], true);
      D.SubtreeSnoc(tree.Shape, tree.Pos[node], false);
      "( \"" + Serializer.LabelText(node.value) + "\" " + WriteNode(tree, node.left) + WriteNode(tree, node.right) + " )"
  }

  /** TreeSaveToFile: the contents written to the base file, the text of the whole tree. */
  function TreeSaveToFile(tree: Tree): (contents: string)
    reads tree, tree.Nodes
    requires tree.Valid()
    ensures contents == Serializer.Serialize(tree.Shape)
  {
    assert tree.Pos[tree.root] == [];
    WriteNode(tree, tree.root)
  }
}
