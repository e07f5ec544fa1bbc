/**
 * The text form of the knowledge base written by WriteNode: a pre-order,
 * fully parenthesised rendering in which an absent child is the bare token
 * `nil` and a label is written between double quotes without any escaping.
 */
module Serializer {
  import opened Wrappers
  import opened DecisionTree

  /** A NULL label is written as the empty string. */
  function LabelText(v: Label): string {
    match v
    case None => ""
    case Some(s) => s
  }

  /** WriteNode, on the position tree: `( "label" <left> <right> )`, or ` nil` for an absent node. */
  function Serialize(t: Tree): (r: string)
    ensures |r| >= 4 && (r[0] == '(' <==> t.Node?)
  {
    match t
    case Nil => " nil"
    case Node(v, l, r) => "( \"" + LabelText(v) + "\" " + Serialize(l) + Serialize(r) + " )"
  }

  /** No label holds the character `c`. */
  predicate LabelsAvoid(t: Tree, c: char) {
    match t
    case Nil => true
    case Node(v, l, r) => c !in LabelText(v) && LabelsAvoid(l, c) && LabelsAvoid(r, c)
  }

  /** The number of absent children written as `nil`: one more than the number of nodes. */
  function NilCount(t: Tree): nat {
    match t
    case Nil => 1
    case Node(_, l, r) => NilCount(l) + NilCount(r)
  }

  lemma {:induction false} NilCountIsSizePlusOne(t: Tree)
    ensures NilCount(t) == Size(t) + 1
  {
    match t
    case Nil =>
    case Node(_, l, r) =>
      NilCountIsSizePlusOne(l);
      NilCountIsSizePlusOne(r);
  }

  /** The text of a node, cut where its parts begin. */
  lemma NodeText(v: Label, l: Tree, r: Tree, x: string)
    ensures Serialize(Node(v, l, r)) + x
         == "( \"" + (LabelText(v) + "\"" + (" " + (Serialize(l) + (Serialize(r) + (" )" + x)))))
  {
  }

  /** The number of occurrences of `c` in `s`. */
  function Occurrences(s: string, c: char): (n: nat)
    ensures n <= |s|
    ensures n == 0 <==> c !in s
  {
    if s == [] then 0 else (if s[0] == c then 1 else 0) + Occurrences(s[1..], c)
  }

  lemma {:induction false} OccurrencesAppend(a: string, b: string, c: char)
    ensures Occurrences(a + b, c) == Occurrences(a, c) + Occurrences(b, c)
  {
    if a != [] {
      assert (a + b)[1..] == a[1..] + b;
      OccurrencesAppend(a[1..], b, c);
    } else {
      assert a + b == b;
    }
  }

  lemma OccurrencesSplit(p0: string, p1: string, p2: string, p3: string, p4: string, p5: string, c: char)
    ensures Occurrences(p0 + (p1 + (p2 + (p3 + (p4 + p5)))), c)
         == Occurrences(p0, c) + Occurrences(p1, c) + Occurrences(p2, c)
          + Occurrences(p3, c) + Occurrences(p4, c) + Occurrences(p5, c)
  {
    OccurrencesAppend(p0, p1 + (p2 + (p3 + (p4 + p5))), c);
    OccurrencesAppend(p1, p2 + (p3 + (p4 + p5)), c);
    OccurrencesAppend(p2, p3 + (p4 + p5), c);
    OccurrencesAppend(p3, p4 + p5, c);
    OccurrencesAppend(p4, p5, c);
  }

  /** The text of a node, as its label text and its children's texts between fixed pieces. */
  lemma NodeOccurrences(v: Label, l: Tree, r: Tree, c: char)
    ensures Occurrences(Serialize(Node(v, l, r)), c)
         == Occurrences("( \"", c) + Occurrences(LabelText(v), c) + Occurrences("\" ", c)
          + Occurrences(Serialize(l), c) + Occurrences(Serialize(r), c) + Occurrences(" )", c)
  {
    var s := LabelText(v);
    assert Serialize(Node(v, l, r)) == "( \"" + (s + ("\" " + (Serialize(l) + (Serialize(r) + " )"))));
    OccurrencesSplit("( \"", s, "\" ", Serialize(l), Serialize(r), " )", c);
  }

  /** Without the bracket `c` in labels, the text of a tree of n nodes holds n of them. */
  lemma {:induction false} BracketCount(t: Tree, c: char)
    requires c == '(' || c == ')'
    requires LabelsAvoid(t, c)
    ensures Occurrences(Serialize(t), c) == Size(t)
  {
    match t
    case Nil =>
    case Node(v, l, r) =>
      BracketCount(l, c);
      BracketCount(r, c);
      NodeOccurrences(v, l, r, c);
  }

  /** Without double quotes in labels, the text of a tree of n nodes holds 2n of them. */
  lemma {:induction false} QuoteCount(t: Tree)
    requires LabelsAvoid(t, '"')
    ensures Occurrences(Serialize(t), '"') == 2 * Size(t)
  {
    match t
    case Nil =>
    case Node(v, l, r) =>
      QuoteCount(l);
      QuoteCount(r);
      NodeOccurrences(v, l, r, '"');
  }

  /** The token written for an absent child, ` nil`, starts `s`. */
  predicate StartsNil(s: string) {
    |s| >= 4 && s[0] == ' ' && s[1] == 'n' && s[2] == 'i' && s[3] == 'l'
  }

  /** The number of places in `s` where the token ` nil` starts. */
  function NilTokens(s: string): nat
    decreases |s|
  {
    if |s| < 4 then 0 else (if StartsNil(s) then 1 else 0) + NilTokens(s[1..])
  }

  /** A ` nil` that starts in the last `k` characters of `a` and runs on into `b`. */
  predicate NilAcrossAt(a: string, b: string, k: nat) {
    0 < k <= |a| && k < 4 && StartsNil(a[|a| - k..] + b)
  }

  predicate NoNilAcross(a: string, b: string) {
    !NilAcrossAt(a, b, 1) && !NilAcrossAt(a, b, 2) && !NilAcrossAt(a, b, 3)
  }

  /** A token across the seam after `a[1..]` is one across the seam after `a`. */
  lemma NilAcrossShift(a: string, b: string, k: nat)
    requires a != [] && NilAcrossAt(a[1..], b, k)
    ensures NilAcrossAt(a, b, k)
  {
    assert a[1..][|a[1..]| - k..] == a[|a| - k..];
  }

  /** Dropping the first character of `a` cannot create a token across the seam. */
  lemma NoNilAcrossTail(a: string, b: string)
    requires a != [] && NoNilAcross(a, b)
    ensures NoNilAcross(a[1..], b)
  {
    if NilAcrossAt(a[1..], b, 1) { NilAcrossShift(a, b, 1); }
    if NilAcrossAt(a[1..], b, 2) { NilAcrossShift(a, b, 2); }
    if NilAcrossAt(a[1..], b, 3) { NilAcrossShift(a, b, 3); }
  }

  /** Without a token across the seam, a token starts `a + b` exactly when one starts `a`. */
  lemma NilAtHead(a: string, b: string)
    requires a != [] && NoNilAcross(a, b)
    ensures StartsNil(a + b) == StartsNil(a)
  {
    if |a| < 4 {
      assert a[|a| - |a|..] == a;
      assert !NilAcrossAt(a, b, |a|);
    } else {
      assert (a + b)[..4] == a[..4];
    }
  }

  /** Without a token running across the seam, the tokens of `a + b` are those of `a` and those of `b`. */
  lemma {:induction false} NilTokensAppend(a: string, b: string)
    requires NoNilAcross(a, b)
    ensures NilTokens(a + b) == NilTokens(a) + NilTokens(b)
    decreases |a|
  {
    if a == [] {
      assert a + b == b;
    } else {
      assert (a + b)[1..] == a[1..] + b;
      NoNilAcrossTail(a, b);
      NilTokensAppend(a[1..], b);
      NilAtHead(a, b);
      if |a| < 4 {
        assert NilTokens(a[1..]) == 0;
      }
    }
  }

  /** The text of a tree ends in ` nil` or in ` )`. */
  lemma SerializeEnding(t: Tree)
    ensures var s := Serialize(t); var n := |s|;
      n >= 4 && ((s[n - 4] == ' ' && s[n - 3] == 'n' && s[n - 2] == 'i' && s[n - 1] == 'l')
                 || (s[n - 2] == ' ' && s[n - 1] == ')'))
  {
    var s := Serialize(t);
    if t.Node? {
      assert s == ("( \"" + LabelText(t.value) + "\" " + Serialize(t.left) + Serialize(t.right)) + " )";
    }
  }

  /** No token runs from the text of a tree into whatever follows it. */
  lemma NoNilAfterTree(t: Tree, b: string)
    ensures NoNilAcross(Serialize(t), b)
  {
    SerializeEnding(t);
    var a := Serialize(t);
    forall k: nat | 0 < k < 4
      ensures !NilAcrossAt(a, b, k)
    {
      if k <= |a| {
        var w := a[|a| - k..] + b;
        assert w[0] == a[|a| - k];
        if k > 1 {
          assert w[1] == a[|a| - k + 1];
        }
      }
    }
  }

  /** No token runs from anything into a closing double quote. */
  lemma NoNilBeforeQuote(a: string, x: string)
    requires |x| > 0 && x[0] == '"'
    ensures NoNilAcross(a, x)
  {
    forall k: nat | 0 < k < 4
      ensures !NilAcrossAt(a, x, k)
    {
      if k <= |a| {
        assert (a[|a| - k..] + x)[k] == '"';
      }
    }
  }

  /** No token runs out of the opening `( "` of a node. */
  lemma NoNilAfterOpen(x: string)
    ensures NoNilAcross("( \"", x)
  {
    var a := "( \"";
    forall k: nat | 0 < k < 4
      ensures !NilAcrossAt(a, x, k)
    {
      assert (a[|a| - k..] + x)[k - 1] == '"';
    }
  }

  /** The tokens of the children's texts, followed by the closing ` )`. */
  lemma ChildrenNilTokens(l: Tree, r: Tree)
    ensures NilTokens(Serialize(l) + (Serialize(r) + " )")) == NilTokens(Serialize(l)) + NilTokens(Serialize(r))
  {
    var sl, sr := Serialize(l), Serialize(r);
    NoNilAfterTree(r, " )");
    NilTokensAppend(sr, " )");
    NoNilAfterTree(l, sr + " )");
    NilTokensAppend(sl, sr + " )");
  }

  /** The tokens of `( "label" ` followed by text that does not start with `nil`. */
  lemma OpenNilTokens(lt: string, tail: string)
    requires |tail| > 0 && tail[0] != 'n'
    ensures NilTokens("( \"" + (lt + ("\" " + tail))) == NilTokens(lt) + NilTokens(tail)
  {
    assert NoNilAcross("\" ", tail) by {
      assert ("\" "[1..] + tail)[1] == tail[0];
      assert ("\" "[0..] + tail)[0] == '"';
    }
    NilTokensAppend("\" ", tail);
    NoNilBeforeQuote(lt, "\" " + tail);
    NilTokensAppend(lt, "\" " + tail);
    NoNilAfterOpen(lt + ("\" " + tail));
    NilTokensAppend("( \"", lt + ("\" " + tail));
  }

  /** The tokens of a node's text: those of its label and of its children's texts. */
  lemma NodeNilTokens(v: Label, l: Tree, r: Tree)
    ensures NilTokens(Serialize(Node(v, l, r)))
         == NilTokens(LabelText(v)) + NilTokens(Serialize(l)) + NilTokens(Serialize(r))
  {
    NodeParts(v, l, r);
    FirstCharacter(l, Serialize(r) + " )");
    ChildrenNilTokens(l, r);
    OpenNilTokens(LabelText(v), Serialize(l) + (Serialize(r) + " )"));
  }

  /** The text of a node, grouped as its opening, label, blank and children's text. */
  lemma NodeParts(v: Label, l: Tree, r: Tree)
    ensures Serialize(Node(v, l, r))
         == "( \"" + (LabelText(v) + ("\" " + (Serialize(l) + (Serialize(r) + " )"))))
  {
  }

  /**
   * Each absent child is written as the token ` nil`: when no label holds
   * that token, the text of a tree of n nodes holds it exactly n + 1 times.
   */
  lemma {:induction false} NilTokenCount(t: Tree)
    requires LabelsAvoidNil(t)
    ensures NilTokens(Serialize(t)) == NilCount(t) == Size(t) + 1
  {
    NilCountIsSizePlusOne(t);
    match t
    case Nil =>
      assert Serialize(t)[1..] == "nil";
    case Node(v, l, r) =>
      NilTokenCount(l);
      NilTokenCount(r);
      NodeNilTokens(v, l, r);
  }

  /** No label holds the token ` nil`. */
  predicate LabelsAvoidNil(t: Tree) {
    match t
    case Nil => true
    case Node(v, l, r) => NilTokens(LabelText(v)) == 0 && LabelsAvoidNil(l) && LabelsAvoidNil(r)
  }

  // ---------------------------------------------------------------------------
  // The text determines the tree, when labels hold no double quote

  /** `t` with every NULL label read back as the empty string it is written as. */
  function Normalize(t: Tree): Tree {
    match t
    case Nil => Nil
    case Node(v, l, r) => Node(Some(LabelText(v)), Normalize(l), Normalize(r))
  }

  /** The index of the first double quote in `s` (|s| if there is none). */
  function QuoteIndex(s: string): (k: nat)
    ensures k <= |s|
  {
    if s == [] || s[0] == '"' then 0 else 1 + QuoteIndex(s[1..])
  }

  lemma {:induction false} QuoteIndexAfterLabel(s: string, rest: string)
    requires '"' !in s
    ensures QuoteIndex(s + "\"" + rest) == |s|
  {
    if s != [] {
      assert (s + "\"" + rest)[1..] == s[1..] + "\"" + rest;
      QuoteIndexAfterLabel(s[1..], rest);
    }
  }

  /** A label followed by its closing quote is recovered from the text. */
  lemma SplitAtQuote(a: string, b: string, x: string, y: string)
    requires '"' !in a && '"' !in b && a + "\"" + x == b + "\"" + y
    ensures a == b && x == y
  {
    QuoteIndexAfterLabel(a, x);
    QuoteIndexAfterLabel(b, y);
    assert a == (a + "\"" + x)[..|a|];
    assert b == (b + "\"" + y)[..|b|];
    assert x == (a + "\"" + x)[|a| + 1..];
    assert y == (b + "\"" + y)[|b| + 1..];
  }

  lemma FirstCharacter(t: Tree, x: string)
    ensures |Serialize(t) + x| > 0 && (Serialize(t) + x)[0] == if t.Nil? then ' ' else '('
  {
  }

  lemma CancelPrefix(a: string, x: string, y: string)
    requires a + x == a + y
    ensures x == y
  {
    assert x == (a + x)[|a|..];
    assert y == (a + y)[|a|..];
  }

  /**
   * No text of a tree is a proper prefix of the text of another: when no label
   * holds a double quote, the written text, even with anything after it,
   * determines the tree (up to NULL labels, which are written as empty).
   */
  lemma {:induction false} SerializeUniquelyDecodable(a: Tree, b: Tree, x: string, y: string)
    requires LabelsAvoid(a, '"') && LabelsAvoid(b, '"')
    requires Serialize(a) + x == Serialize(b) + y
    ensures Normalize(a) == Normalize(b) && x == y
    decreases a, 1
  {
    FirstCharacter(a, x);
    FirstCharacter(b, y);
    assert a.Nil? <==> b.Nil?;
    if a.Nil? {
      CancelPrefix(" nil", x, y);
    } else {
      NodesUniquelyDecodable(a, b, x, y);
    }
  }

  lemma {:induction false} NodesUniquelyDecodable(a: Tree, b: Tree, x: string, y: string)
    requires a.Node? && b.Node?
    requires LabelsAvoid(a, '"') && LabelsAvoid(b, '"')
    requires Serialize(a) + x == Serialize(b) + y
    ensures Normalize(a) == Normalize(b) && x == y
    decreases a, 0
  {
    var la, lb := LabelText(a.value), LabelText(b.value);
    var ta := Serialize(a.right) + (" )" + x);
    var tb := Serialize(b.right) + (" )" + y);
    var ra := " " + (Serialize(a.left) + ta);
    var rb := " " + (Serialize(b.left) + tb);
    NodeText(a.value, a.left, a.right, x);
    NodeText(b.value, b.left, b.right, y);
    CancelPrefix("( \"", la + "\"" + ra, lb + "\"" + rb);
    SplitAtQuote(la, lb, ra, rb);
    CancelPrefix(" ", Serialize(a.left) + ta, Serialize(b.left) + tb);
    SerializeUniquelyDecodable(a.left, b.left, ta, tb);
    SerializeUniquelyDecodable(a.right, b.right, " )" + x, " )" + y);
    CancelPrefix(" )", x, y);
  }

  /** Two trees without double quotes in their labels have the same text only if they are the same tree. */
  lemma SerializeInjective(a: Tree, b: Tree)
    requires LabelsAvoid(a, '"') && LabelsAvoid(b, '"') && Serialize(a) == Serialize(b)
    ensures Normalize(a) == Normalize(b)
  {
    SerializeUniquelyDecodable(a, b, "", "");
  }
}
