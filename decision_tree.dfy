/**
 * The knowledge base of the guessing game as a value: a binary decision tree
 * whose internal nodes hold yes/no questions and whose leaves hold objects.
 * A position in the tree is the sequence of answers that leads to it from the
 * root (`true` = yes = left child, `false` = no = right child).
 *
 * This module is the abstract view of the heap tree of TreeLib: every
 * heap operation of the game is specified in terms of these functions.
 */
module DecisionTree {
  import opened Wrappers

  /** A node label: a C string pointer, which may be NULL. */
  type Label = Option<string>

  datatype Tree = Nil | Node(value: Label, left: Tree, right: Tree)

  /** A node without children: a guessable object. */
  predicate IsLeaf(t: Tree) {
    t.Node? && t.left.Nil? && t.right.Nil?
  }

  /** A node with both children: the descent asks its question. */
  predicate Internal(t: Tree) {
    t.Node? && t.left.Node? && t.right.Node?
  }

  /** No node has exactly one child. */
  predicate Full(t: Tree) {
    match t
    case Nil => true
    case Node(_, l, r) => l.Nil? == r.Nil? && Full(l) && Full(r)
  }

  function Size(t: Tree): nat {
    match t
    case Nil => 0
    case Node(_, l, r) => 1 + Size(l) + Size(r)
  }

  function LeafCount(t: Tree): nat {
    match t
    case Nil => 0
    case Node(_, l, r) => if l.Nil? && r.Nil? then 1 else LeafCount(l) + LeafCount(r)
  }

  // ---------------------------------------------------------------------------
  // Positions

  function Child(t: Tree, yes: bool): Tree {
    match t
    case Nil => Nil
    case Node(_, l, r) => if yes then l else r
  }

  /** The subtree reached by following `p` from the root (Nil if `p` leaves the tree). */
  function Subtree(t: Tree, p: seq<bool>): Tree
    decreases |p|
  {
    if p == [] then t else Subtree(Child(t, p[0]), p[1..])
  }

  predicate ValidPath(t: Tree, p: seq<bool>) {
    Subtree(t, p).Node?
  }

  /** `t` with the subtree at `p` replaced by `s` (unchanged if `p` leaves the tree). */
  function Graft(t: Tree, p: seq<bool>, s: Tree): Tree
    decreases |p|
  {
    if p == [] then s
    else match t
      case Nil => Nil
      case Node(v, l, r) =>
        if p[0] then Node(v, Graft(l, p[1..], s), r) else Node(v, l, Graft(r, p[1..], s))
  }

  /** Two subtrees that look alike from their root: same label, same children present. */
  predicate SameNode(a: Tree, b: Tree) {
    a.Node? == b.Node? &&
    (a.Node? ==> a.value == b.value && a.left.Nil? == b.left.Nil? && a.right.Nil? == b.right.Nil?)
  }

  lemma {:induction false} SubtreeOfNil(p: seq<bool>)
    ensures Subtree(Nil, p) == Nil
    decreases |p|
  {
    if p != [] {
      SubtreeOfNil(p[1..]);
    }
  }

  lemma {:induction false} SubtreeAppend(t: Tree, p: seq<bool>, r: seq<bool>)
    ensures Subtree(t, p + r) == Subtree(Subtree(t, p), r)
    decreases |p|
  {
    if p != [] {
      assert p + r != [] && (p + r)[0] == p[0] && (p + r)[1..] == p[1..] + r;
      SubtreeAppend(Child(t, p[0]), p[1..], r);
    } else {
      assert p + r == r;
    }
  }

  /** One more step down: the child of the subtree at `p`. */
  lemma SubtreeSnoc(t: Tree, p: seq<bool>, yes: bool)
    ensures Subtree(t, p + [yes]) == Child(Subtree(t, p), yes)
  {
    SubtreeAppend(t, p, [yes]);
    assert [yes][1..] == [];
  }

  /** Every prefix of a path into the tree is a path into the tree. */
  lemma {:induction false} ValidPathPrefix(t: Tree, p: seq<bool>, k: nat)
    requires ValidPath(t, p) && k <= |p|
    ensures ValidPath(t, p[..k])
  {
    assert p == p[..k] + p[k..];
    SubtreeAppend(t, p[..k], p[k..]);
    if Subtree(t, p[..k]).Nil? {
      SubtreeOfNil(p[k..]);
    }
  }

  /** A leaf has no descendants. */
  lemma LeafHasNoDescendant(t: Tree, p: seq<bool>, r: seq<bool>)
    requires IsLeaf(Subtree(t, p)) && r != []
    ensures !ValidPath(t, p + r)
  {
    SubtreeAppend(t, p, r);
    SubtreeOfNil(r[1..]);
  }

  /** After grafting `s` at `p`, the subtree at and below `p` is that of `s`. */
  lemma {:induction false} GraftHere(t: Tree, p: seq<bool>, s: Tree, r: seq<bool>)
    requires ValidPath(t, p)
    ensures Subtree(Graft(t, p, s), p + r) == Subtree(s, r)
    decreases |p|
  {
    if p != [] {
      assert p + r != [] && (p + r)[0] == p[0] && (p + r)[1..] == p[1..] + r;
      GraftHere(Child(t, p[0]), p[1..], s, r);
    } else {
      assert p + r == r;
    }
  }

  /** A graft of a node at a path into the tree keeps the root a node with its label and children present. */
  lemma GraftKeepsTop(t: Tree, p: seq<bool>, s: Tree)
    requires ValidPath(t, p) && s.Node?
    ensures SameNode(Graft(t, p, s), t) || p == []
  {
    if p != [] && t.Nil? {
      SubtreeOfNil(p);
    }
  }

  /** Positions that are neither `p` nor below `p` look the same after a graft at `p`. */
  lemma {:induction false} GraftElsewhere(t: Tree, p: seq<bool>, s: Tree, r: seq<bool>)
    requires ValidPath(t, p) && s.Node? && !(p <= r)
    ensures SameNode(Subtree(Graft(t, p, s), r), Subtree(t, r))
    decreases |r|
  {
    assert p != [];
    if t.Nil? {
      SubtreeOfNil(p);
    } else if r == [] {
      var c := Child(t, p[0]);
      assert ValidPath(c, p[1..]);
      GraftKeepsTop(c, p[1..], s);
    } else if p[0] == r[0] {
      PrefixStep(p, r);
      GraftElsewhere(Child(t, p[0]), p[1..], s, r[1..]);
    }
  }

  /** Prefixes that start alike: compare the rests. */
  lemma PrefixStep<T>(p: seq<T>, r: seq<T>)
    requires p != [] && r != [] && p[0] == r[0]
    ensures p <= r <==> p[1..] <= r[1..]
  {
    assert p == [p[0]] + p[1..] && r == [r[0]] + r[1..];
  }

  lemma {:induction false} GraftFull(t: Tree, p: seq<bool>, s: Tree)
    requires ValidPath(t, p) && Full(t) && Full(s) && s.Node?
    ensures Full(Graft(t, p, s))
    decreases |p|
  {
    if p != [] {
      var c := Child(t, p[0]);
      assert ValidPath(c, p[1..]);
      GraftFull(c, p[1..], s);
      GraftKeepsTop(c, p[1..], s);
    }
  }

  lemma {:induction false} GraftSize(t: Tree, p: seq<bool>, s: Tree)
    ensures ValidPath(t, p) ==> Size(Graft(t, p, s)) + Size(Subtree(t, p)) == Size(t) + Size(s)
    decreases |p|
  {
    if p != [] {
      GraftSize(Child(t, p[0]), p[1..], s);
    }
  }

  lemma {:induction false} GraftLeafCount(t: Tree, p: seq<bool>, s: Tree)
    requires ValidPath(t, p) && s.Node?
    ensures LeafCount(Graft(t, p, s)) + LeafCount(Subtree(t, p)) == LeafCount(t) + LeafCount(s)
    decreases |p|
  {
    if p != [] {
      var c := Child(t, p[0]);
      GraftLeafCount(c, p[1..], s);
      GraftKeepsTop(c, p[1..], s);
    }
  }

  // ---------------------------------------------------------------------------
  // The leaf-to-question splice (AddQuestion)

  /** The leaf created for a new object. */
  function ObjectLeaf(objectName: string): Tree {
    Node(Some(objectName), Nil, Nil)
  }

  /**
   * The leaf at `p` replaced by a question node whose yes branch holds the new
   * object when `yes` holds and the old leaf otherwise.
   */
  function Splice(t: Tree, p: seq<bool>, question: string, objectName: string, yes: bool): (r: Tree)
    ensures ValidPath(t, p) ==> Size(r) == Size(t) + 2
  {
    var former := Subtree(t, p);
    var s := if yes then Node(Some(question), ObjectLeaf(objectName), former)
             else Node(Some(question), former, ObjectLeaf(objectName));
    assert Size(ObjectLeaf(objectName)) == 1;
    assert Size(s) == Size(former) + 2;
    GraftSize(t, p, s);
    Graft(t, p, s)
  }

  /** What a splice at the leaf `p` puts where, and what it leaves alone. */
  lemma SpliceLayout(t: Tree, p: seq<bool>, question: string, objectName: string, yes: bool)
    requires ValidPath(t, p) && IsLeaf(Subtree(t, p))
    ensures var t' := Splice(t, p, question, objectName, yes);
      && Internal(Subtree(t', p)) && Subtree(t', p).value == Some(question)
      && Subtree(t', p + [yes]) == ObjectLeaf(objectName)
      && Subtree(t', p + [!yes]) == Subtree(t, p)
      && forall r :: !(p <= r) ==> SameNode(Subtree(t', r), Subtree(t, r))
  {
    var s := if yes then Node(Some(question), ObjectLeaf(objectName), Subtree(t, p))
             else Node(Some(question), Subtree(t, p), ObjectLeaf(objectName));
    GraftHere(t, p, s, []);
    assert p + [] == p;
    GraftHere(t, p, s, [yes]);
    GraftHere(t, p, s, [!yes]);
    forall r | !(p <= r)
      ensures SameNode(Subtree(Graft(t, p, s), r), Subtree(t, r))
    {
      GraftElsewhere(t, p, s, r);
    }
  }

  /** A splice adds exactly two nodes and one leaf and keeps every node at zero or two children. */
  lemma SpliceCounts(t: Tree, p: seq<bool>, question: string, objectName: string, yes: bool)
    requires ValidPath(t, p) && IsLeaf(Subtree(t, p))
    ensures Size(Splice(t, p, question, objectName, yes)) == Size(t) + 2
    ensures LeafCount(Splice(t, p, question, objectName, yes)) == LeafCount(t) + 1
    ensures Full(t) ==> Full(Splice(t, p, question, objectName, yes))
  {
    var former := Subtree(t, p);
    var s := if yes then Node(Some(question), ObjectLeaf(objectName), Subtree(t, p))
             else Node(Some(question), former, ObjectLeaf(objectName));
    GraftSize(t, p, s);
    GraftLeafCount(t, p, s);
    if Full(t) {
      GraftFull(t, p, s);
    }
  }

  // ---------------------------------------------------------------------------
  // Descent (PlayRound / AskQuestion)

  /** `p` put in front of a path, if there is one. */
  function Extend(p: seq<bool>, r: Option<seq<bool>>): Option<seq<bool>> {
    match r
    case None => None
    case Some(q) => Some(p + q)
  }

  /**
   * One round's descent: from the root, go to the left child on yes and to the
   * right child on no, and stop at the first node that lacks a child. None when
   * the answers run out before such a node is reached.
   */
  function Descend(t: Tree, answers: seq<bool>): (r: Option<seq<bool>>)
    requires t.Node?
    ensures r.Some? ==> r.value <= answers && ValidPath(t, r.value) && !Internal(Subtree(t, r.value))
    ensures r.None? ==> Internal(t) && ValidPath(t, answers)
    decreases |answers|
  {
    if !Internal(t) then Some([])
    else if answers == [] then None
    else
      var a := answers[0];
      var r := Descend(Child(t, a), answers[1..]);
      assert answers == [a] + answers[1..];
      assert r.Some? ==> Subtree(t, [a] + r.value) == Subtree(Child(t, a), r.value) by {
        if r.Some? {
          assert ([a] + r.value)[1..] == r.value;
        }
      }
      Extend([a], r)
  }

  /** The descent stops at the first position, along the answers, that lacks a child. */
  lemma {:induction false} DescendStopsFirst(t: Tree, answers: seq<bool>)
    requires t.Node?
    ensures var r := Descend(t, answers);
      forall j :: 0 <= j <= |answers| && (r.None? || j < |r.value|) ==> Internal(Subtree(t, answers[..j]))
    decreases |answers|
  {
    var r := Descend(t, answers);
    if Internal(t) && answers != [] {
      var a := answers[0];
      DescendStopsFirst(Child(t, a), answers[1..]);
      forall j | 0 <= j <= |answers| && (r.None? || j < |r.value|)
        ensures Internal(Subtree(t, answers[..j]))
      {
        if j > 0 {
          assert answers[..j][0] == a && answers[..j][1..] == answers[1..][..j - 1];
        }
      }
    }
  }

  /** Any path that follows the answers, crosses only internal nodes and ends at a node lacking a child is the descent. */
  lemma {:induction false} DescendUnique(t: Tree, answers: seq<bool>, p: seq<bool>)
    requires t.Node? && p <= answers && ValidPath(t, p) && !Internal(Subtree(t, p))
    requires forall j :: 0 <= j < |p| ==> Internal(Subtree(t, p[..j]))
    ensures Descend(t, answers) == Some(p)
    decreases |p|
  {
    if p != [] {
      assert Internal(Subtree(t, p[..0]));
      var a := answers[0];
      assert p[0] == a;
      var c := Child(t, a);
      forall j | 0 <= j < |p[1..]|
        ensures Internal(Subtree(c, p[1..][..j]))
      {
        assert p[..j + 1][0] == a && p[..j + 1][1..] == p[1..][..j];
        assert Internal(Subtree(t, p[..j + 1]));
      }
      PrefixStep(p, answers);
      DescendUnique(c, answers[1..], p[1..]);
      assert [a] + p[1..] == p;
    }
  }

  lemma AppendAssoc(a: seq<bool>, b: seq<bool>, c: seq<bool>)
    ensures a + b + c == a + (b + c)
  {
  }

  /** From an internal node, the descent takes the first answer's side. */
  lemma DescendInternal(s: Tree, answers: seq<bool>)
    requires Internal(s) && answers != []
    ensures Descend(s, answers) == Extend([answers[0]], Descend(Child(s, answers[0]), answers[1..]))
  {
  }

  /** One step of the descent from an internal node, as the heap loop takes it. */
  lemma DescendStep(t: Tree, p: seq<bool>, answers: seq<bool>)
    requires ValidPath(t, p) && Internal(Subtree(t, p)) && |p| < |answers|
    ensures ValidPath(t, p + [answers[|p|]])
    ensures Extend(p, Descend(Subtree(t, p), answers[|p|..]))
         == Extend(p + [answers[|p|]], Descend(Subtree(t, p + [answers[|p|]]), answers[|p| + 1..]))
  {
    var a := answers[|p|];
    var rest := answers[|p|..];
    SubtreeSnoc(t, p, a);
    assert rest[0] == a && rest[1..] == answers[|p| + 1..];
    DescendInternal(Subtree(t, p), rest);
    var r := Descend(Subtree(t, p + [a]), answers[|p| + 1..]);
    if r.Some? {
      AppendAssoc(p, [a], r.value);
    }
  }

  // ---------------------------------------------------------------------------
  // Traits (PrintObjectTraits)

  /** A question met on the way to an object and the answer that leads towards it. */
  datatype Trait = Trait(question: Label, holds: bool)

  /** The traits of the node at `p`: one per ancestor, root first. */
  function Traits(t: Tree, p: seq<bool>): (r: seq<Trait>)
    requires ValidPath(t, p)
    ensures |r| == |p|
    ensures forall i :: 0 <= i < |p| ==> r[i].holds == p[i]
    decreases |p|
  {
    if p == [] then []
    else
      SubtreeOfNil(p[1..]);
      [Trait(t.value, p[0])] + Traits(Child(t, p[0]), p[1..])
  }

  /** The i-th trait asks the question of the i-th ancestor, and holds iff the path goes left there. */
  lemma {:induction false} TraitsAt(t: Tree, p: seq<bool>, i: nat)
    requires ValidPath(t, p) && i < |p|
    ensures ValidPath(t, p[..i])
    ensures Traits(t, p)[i] == Trait(Subtree(t, p[..i]).value, p[i])
    decreases |p|
  {
    ValidPathPrefix(t, p, i);
    SubtreeOfNil(p[1..]);
    if i > 0 {
      TraitsAt(Child(t, p[0]), p[1..], i - 1);
      assert p[..i][0] == p[0] && p[..i][1..] == p[1..][..i - 1];
    }
  }

  /** The traits of a node are its parent's traits and the parent's own question, answered by the last step. */
  lemma TraitsSnoc(t: Tree, p: seq<bool>)
    requires ValidPath(t, p) && |p| > 0
    ensures var q := p[..|p| - 1];
      && ValidPath(t, q)
      && Traits(t, p) == Traits(t, q) + [Trait(Subtree(t, q).value, p[|p| - 1])]
  {
    var q := p[..|p| - 1];
    TraitsAt(t, p, |q|);
    assert Traits(t, p)[..|q|] == Traits(t, q) by {
      forall i | 0 <= i < |q|
        ensures Traits(t, p)[i] == Traits(t, q)[i]
      {
        TraitsAt(t, p, i);
        TraitsAt(t, q, i);
        assert q[..i] == p[..i];
      }
    }
    assert Traits(t, p) == Traits(t, p)[..|q|] + [Traits(t, p)[|q|]];
  }

  /** Positions that share a node's view share its traits. */
  lemma TraitsAgree(t: Tree, t': Tree, p: seq<bool>)
    requires ValidPath(t, p) && ValidPath(t', p)
    requires forall j :: 0 <= j < |p| ==> SameNode(Subtree(t', p[..j]), Subtree(t, p[..j]))
    ensures Traits(t', p) == Traits(t, p)
  {
    forall i | 0 <= i < |p|
      ensures Traits(t', p)[i] == Traits(t, p)[i]
    {
      TraitsAt(t, p, i);
      TraitsAt(t', p, i);
    }
  }

  /**
   * After a splice at the leaf `p`, the new object and the old leaf have the
   * old leaf's traits plus the new question, answered yes for the object iff
   * `yes`; every node not at or under `p` keeps its traits.
   */
  lemma SpliceTraits(t: Tree, p: seq<bool>, question: string, objectName: string, yes: bool, r: seq<bool>)
    requires ValidPath(t, p) && IsLeaf(Subtree(t, p))
    ensures var t' := Splice(t, p, question, objectName, yes);
      && ValidPath(t', p + [yes]) && ValidPath(t', p + [!yes])
      && Traits(t', p + [yes]) == Traits(t, p) + [Trait(Some(question), yes)]
      && Traits(t', p + [!yes]) == Traits(t, p) + [Trait(Some(question), !yes)]
      && (ValidPath(t, r) && !(p <= r) ==> ValidPath(t', r) && Traits(t', r) == Traits(t, r))
  {
    var t' := Splice(t, p, question, objectName, yes);
    SpliceLayout(t, p, question, objectName, yes);
    forall d: bool
      ensures ValidPath(t', p + [d]) && Traits(t', p + [d]) == Traits(t, p) + [Trait(Some(question), d)]
    {
      var q := p + [d];
      assert q[..|p|] == p;
      forall j | 0 <= j < |p|
        ensures SameNode(Subtree(t', q[..j]), Subtree(t, q[..j]))
      {
        assert q[..j] == p[..j];
        assert !(p <= p[..j]);
      }
      forall i | 0 <= i < |q|
        ensures Traits(t', q)[i] == (Traits(t, p) + [Trait(Some(question), d)])[i]
      {
        TraitsAt(t', q, i);
        if i < |p| {
          TraitsAt(t, p, i);
          assert q[..i] == p[..i];
        }
      }
    }
    if ValidPath(t, r) && !(p <= r) {
      forall j | 0 <= j < |r|
        ensures SameNode(Subtree(t', r[..j]), Subtree(t, r[..j]))
      {
        assert !(p <= r[..j]);
      }
      TraitsAgree(t, t', r);
    }
  }

  // ---------------------------------------------------------------------------
  // One round of the game (PlayRound / HandleIncorrectGuess)

  datatype Outcome =
    | Guessed      // the guess was confirmed
    | Declined     // the guess was wrong and the player did not teach a new object
    | Learned      // the guess was wrong and the leaf became a question
    | OutOfInput   // the answers ran out (the program would wait for more input)

  /**
   * A whole round on the answers given in order: the descent, "did I guess
   * right?", "add a new object?" and, for the new object, the answer to the
   * new question. The object's name and the question are read as lines.
   */
  function Round(t: Tree, answers: seq<bool>, question: string, objectName: string): (r: (Outcome, Tree))
    requires t.Node?
    ensures r.0 != OutOfInput ==> Descend(t, answers).Some?
    ensures r.0 != Learned ==> r.1 == t
  {
    match Descend(t, answers)
    case None => (OutOfInput, t)
    case Some(p) =>
      var rest := answers[|p|..];
      if |rest| == 0 then (OutOfInput, t)
      else if rest[0] then (Guessed, t)
      else Teach(t, p, rest[1..], question, objectName)
  }

  /**
   * After a wrong guess at `p`: "add a new object?" and, on yes, the answer
   * for the new object to the new question, which decides its side.
   */
  function Teach(t: Tree, p: seq<bool>, answers: seq<bool>, question: string, objectName: string): (r: (Outcome, Tree))
    ensures r.0 == Learned ==> |answers| >= 2 && answers[0]
    ensures r.0 != Learned ==> r.1 == t
  {
    if |answers| == 0 then (OutOfInput, t)
    else if !answers[0] then (Declined, t)
    else if |answers| == 1 then (OutOfInput, t)
    else (Learned, Splice(t, p, question, objectName, answers[1]))
  }

  /**
   * A round that teaches a new object grows a full tree by one question and
   * one object, and replaying the descent with the old answers followed by the
   * new question's answer reaches the new object (or, with the other answer,
   * the old guess).
   */
  lemma RoundLearns(t: Tree, answers: seq<bool>, question: string, objectName: string)
    requires t.Node? && Full(t)
    requires Round(t, answers, question, objectName).0 == Learned
    ensures var p := Descend(t, answers).value;
      var yes := answers[|p| + 2];
      var t' := Round(t, answers, question, objectName).1;
      && Full(t') && Size(t') == Size(t) + 2 && LeafCount(t') == LeafCount(t) + 1
      && Descend(t', p + [yes]) == Some(p + [yes]) && Subtree(t', p + [yes]) == ObjectLeaf(objectName)
      && Descend(t', p + [!yes]) == Some(p + [!yes]) && Subtree(t', p + [!yes]) == Subtree(t, p)
  {
    var p := Descend(t, answers).value;
    var yes := answers[|p| + 2];
    assert answers[|p|..][2] == yes;
    var t' := Splice(t, p, question, objectName, yes);
    var leaf := Subtree(t, p);
    assert Full(leaf) && !Internal(leaf) by { FullSubtree(t, p); }
    SpliceLayout(t, p, question, objectName, yes);
    SpliceCounts(t, p, question, objectName, yes);
    DescendStopsFirst(t, answers);
    forall d: bool
      ensures Descend(t', p + [d]) == Some(p + [d])
    {
      var q := p + [d];
      forall j | 0 <= j < |q|
        ensures Internal(Subtree(t', q[..j]))
      {
        if j < |p| {
          assert q[..j] == p[..j] == answers[..j];
          assert !(p <= p[..j]);
        } else {
          assert q[..j] == p;
        }
      }
      GraftKeepsTop(t, p, Subtree(t', p));
      DescendUnique(t', q, q);
    }
  }

  /** Every subtree of a full tree is full. */
  lemma {:induction false} FullSubtree(t: Tree, p: seq<bool>)
    requires Full(t)
    ensures Full(Subtree(t, p))
    decreases |p|
  {
    if p != [] {
      FullSubtree(Child(t, p[0]), p[1..]);
    }
  }

  /** A node at or under a leaf is the leaf itself. */
  lemma UnderLeafIsLeaf(t: Tree, p: seq<bool>, r: seq<bool>)
    requires IsLeaf(Subtree(t, p))
    ensures ValidPath(t, r) && p <= r ==> r == p
  {
    if p <= r && r != p {
      assert r == p + r[|p|..];
      LeafHasNoDescendant(t, p, r[|p|..]);
    }
  }

  // ---------------------------------------------------------------------------
  // Disposal (NodeDelete)

  /** The labels in post-order: left subtree, right subtree, then the node itself. */
  function PostOrder(t: Tree): (r: seq<Label>)
    ensures |r| == Size(t)
  {
    match t
    case Nil => []
    case Node(v, l, r) => PostOrder(l) + PostOrder(r) + [v]
  }

  /** Post-order lists every node exactly once, the root last, and the label of every node of the tree. */
  lemma {:induction false} PostOrderCoversTree(t: Tree)
    ensures |PostOrder(t)| == Size(t)
    ensures t.Node? ==> PostOrder(t)[Size(t) - 1] == t.value
    ensures forall p :: ValidPath(t, p) ==> Subtree(t, p).value in PostOrder(t)
  {
    match t
    case Nil =>
      forall p | ValidPath(t, p)
        ensures false
      {
        SubtreeOfNil(p);
      }
    case Node(_, l, r) =>
      PostOrderCoversTree(l);
      PostOrderCoversTree(r);
      forall p | ValidPath(t, p)
        ensures Subtree(t, p).value in PostOrder(t)
      {
        if p != [] {
          assert ValidPath(Child(t, p[0]), p[1..]);
        }
      }
  }
}
