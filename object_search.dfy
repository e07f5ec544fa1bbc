/**
 * Looking an object up by name (SearchObject / SearchObjectRecursively).
 *
 * The search visits the tree in pre-order (node, then its yes subtree, then
 * its no subtree). At every visited node it copies the label into a 128-byte
 * buffer, lower-casing it; a leaf matches when the query, as passed, is a
 * prefix of that lower-cased copy. Internal nodes never match.
 */
module ObjectSearch {
  import opened Wrappers
  import opened DecisionTree

  /** Capacity, in bytes, of the game's fixed character buffers (MAX_LEN). */
  const MAX_LEN: nat := 128

  /** The number of bytes the UTF-8 encoding of a character takes. */
  function Utf8Width(c: char): (w: nat)
    ensures 1 <= w <= 4
  {
    if c as int < 0x80 then 1
    else if c as int < 0x800 then 2
    else if c as int < 0x1_0000 then 3
    else 4
  }

  /** The length in bytes of the UTF-8 encoding of a string: what the C buffers hold. */
  function Utf8Len(s: string): (n: nat)
    ensures |s| <= n <= 4 * |s|
  {
    if s == [] then 0 else Utf8Width(s[0]) + Utf8Len(s[1..])
  }

  /** `tolower` on the ASCII letters; every other character is kept. */
  function LowerChar(c: char): char {
    if 'A' <= c <= 'Z' then (c as int + ('a' as int - 'A' as int)) as char else c
  }

  /** The lower-casing copy loop: a character-by-character map with no capital ASCII letter left. */
  function Lower(s: string): (r: string)
    ensures |r| == |s|
    ensures forall i :: 0 <= i < |s| ==> r[i] == LowerChar(s[i])
    ensures forall i :: 0 <= i < |r| ==> !('A' <= r[i] <= 'Z')
  {
    if s == [] then [] else [LowerChar(s[0])] + Lower(s[1..])
  }

  /** The character-by-character copy loop that fills a lower-cased name buffer. */
  method LowerCopy(s: string) returns (r: string)
    ensures r == Lower(s)
  {
    r := [];
    var i := 0;
    while i < |s|
      invariant 0 <= i <= |s| && |r| == i
      invariant forall k :: 0 <= k < i ==> r[k] == LowerChar(s[k])
    {
      r := r + [LowerChar(s[i])];
      i := i + 1;
    }
  }

  /** The comparison of a leaf: the query, exactly as passed, starts the lower-cased label. */
  predicate Matches(text: string, query: string) {
    query <= Lower(text)
  }

  /** The outcome of a search: a leaf position, no leaf, or a visit the C code does not define. */
  datatype SearchResult =
    | Found(path: seq<bool>)
    | NotFound
    | Undefined   // a visited label is NULL or its bytes do not fit the 128-byte copy buffer

  /**
   * SearchObjectRecursively, on the position tree. A search that finds
   * nothing has read every label of the tree.
   */
  function Search(t: Tree, query: string): (r: SearchResult)
    ensures r == NotFound ==> Searchable(t)
  {
    match t
    case Nil => NotFound
    case Node(v, l, r) =>
      if v.None? || Utf8Len(v.value) > MAX_LEN then Undefined
      else if l.Nil? && r.Nil? && Matches(v.value, query) then Found([])
      else
        match Search(l, query)
        case Found(p) => Found([true] + p)
        case Undefined => Undefined
        case NotFound =>
          match Search(r, query)
          case Found(p) => Found([false] + p)
          case NotFound => NotFound
          case Undefined => Undefined
  }

  /** Every label is present and fits the copy buffer, so a search is always defined. */
  predicate Searchable(t: Tree) {
    match t
    case Nil => true
    case Node(v, l, r) => v.Some? && Utf8Len(v.value) <= MAX_LEN && Searchable(l) && Searchable(r)
  }

  /** The position `p` holds a leaf that the query matches. */
  predicate MatchesAt(t: Tree, p: seq<bool>, query: string) {
    var s := Subtree(t, p);
    IsLeaf(s) && s.value.Some? && Matches(s.value.value, query)
  }

  function Prepend(d: bool, ps: seq<seq<bool>>): seq<seq<bool>> {
    seq(|ps|, i requires 0 <= i < |ps| => [d] + ps[i])
  }

  /** The positions of all leaves, in pre-order: yes subtree before no subtree. */
  function LeafPaths(t: Tree): seq<seq<bool>> {
    match t
    case Nil => []
    case Node(_, l, r) =>
      if l.Nil? && r.Nil? then [[]] else Prepend(true, LeafPaths(l)) + Prepend(false, LeafPaths(r))
  }

  /** The first of the positions `ps` that holds a matching leaf. */
  function FirstMatch(ps: seq<seq<bool>>, t: Tree, query: string): (r: Option<seq<bool>>)
    ensures r.Some? ==> exists i :: 0 <= i < |ps| && ps[i] == r.value && MatchesAt(t, ps[i], query)
                                    && forall j :: 0 <= j < i ==> !MatchesAt(t, ps[j], query)
    ensures r.None? ==> forall i :: 0 <= i < |ps| ==> !MatchesAt(t, ps[i], query)
  {
    if ps == [] then None
    else if MatchesAt(t, ps[0], query) then Some(ps[0])
    else
      var r := FirstMatch(ps[1..], t, query);
      assert forall i :: 1 <= i < |ps| ==> ps[i] == ps[1..][i - 1];
      r
  }

  /** The search of the subtree at `p`, with a found position given from the root. */
  function SearchAt(t: Tree, p: seq<bool>, query: string): SearchResult {
    match Search(Subtree(t, p), query)
    case Found(r) => Found(p + r)
    case NotFound => NotFound
    case Undefined => Undefined
  }

  /** A searchable tree never makes the search undefined. */
  lemma {:induction false} SearchableIsDefined(t: Tree, query: string)
    requires Searchable(t)
    ensures Search(t, query) != Undefined
  {
    match t
    case Nil =>
    case Node(_, l, r) =>
      SearchableIsDefined(l, query);
      SearchableIsDefined(r, query);
  }

  /**
   * One step of the recursive search at position `p`, when the search there
   * is defined: the label is present and fits the buffer; a matching leaf is
   * found there; otherwise the yes side is searched, and the no side only
   * when the yes side finds nothing. Each of those searches is defined.
   */
  lemma SearchAtStep(t: Tree, p: seq<bool>, query: string)
    requires Subtree(t, p).Node? && SearchAt(t, p, query) != Undefined
    ensures var s := Subtree(t, p);
      && s.value.Some? && Utf8Len(s.value.value) <= MAX_LEN
      && Subtree(t, p + [true]) == s.left && Subtree(t, p + [false]) == s.right
      && SearchAt(t, p + [true], query) != Undefined
      && (SearchAt(t, p + [true], query) == NotFound ==> SearchAt(t, p + [false], query) != Undefined)
      && SearchAt(t, p, query)
         == if s.left.Nil? && s.right.Nil? && Matches(s.value.value, query) then Found(p)
            else if SearchAt(t, p + [true], query).Found? then SearchAt(t, p + [true], query)
            else SearchAt(t, p + [false], query)
  {
    var s := Subtree(t, p);
    SubtreeSnoc(t, p, true);
    SubtreeSnoc(t, p, false);
    if s.left.Nil? && s.right.Nil? && Matches(s.value.value, query) {
      assert p + [] == p;
    } else if Search(s.left, query).Found? {
      AppendAssoc(p, [true], Search(s.left, query).path);
    } else if Search(s.right, query).Found? {
      AppendAssoc(p, [false], Search(s.right, query).path);
    }
  }

  /** A found position holds a leaf that matches: the search returns only leaves. */
  lemma {:induction false} SearchFindsMatchingLeaf(t: Tree, query: string)
    requires Search(t, query).Found?
    ensures ValidPath(t, Search(t, query).path) && MatchesAt(t, Search(t, query).path, query)
  {
    match t
    case Node(v, l, r) =>
      if !(l.Nil? && r.Nil? && Matches(v.value, query)) {
        if Search(l, query).Found? {
          SearchFindsMatchingLeaf(l, query);
          assert ([true] + Search(l, query).path)[1..] == Search(l, query).path;
        } else {
          SearchFindsMatchingLeaf(r, query);
          assert ([false] + Search(r, query).path)[1..] == Search(r, query).path;
        }
      }
  }

  lemma FirstMatchAppend(a: seq<seq<bool>>, b: seq<seq<bool>>, t: Tree, query: string)
    ensures FirstMatch(a + b, t, query)
         == if FirstMatch(a, t, query).Some? then FirstMatch(a, t, query) else FirstMatch(b, t, query)
  {
    if a != [] {
      assert (a + b)[0] == a[0] && (a + b)[1..] == a[1..] + b;
      FirstMatchAppend(a[1..], b, t, query);
    } else {
      assert a + b == b;
    }
  }

  lemma FirstMatchPrepend(d: bool, ps: seq<seq<bool>>, t: Tree, query: string)
    ensures FirstMatch(Prepend(d, ps), t, query) == Extend([d], FirstMatch(ps, Child(t, d), query))
  {
    if ps != [] {
      assert ([d] + ps[0])[1..] == ps[0];
      assert Prepend(d, ps)[1..] == Prepend(d, ps[1..]);
      FirstMatchPrepend(d, ps[1..], t, query);
    }
  }

  /**
   * Whenever the search is defined (every label it reads before stopping is
   * present and short enough), it returns the first matching leaf in
   * pre-order, and NotFound exactly when no leaf matches.
   */
  lemma {:induction false} SearchIsFirstMatch(t: Tree, query: string)
    requires Search(t, query) != Undefined
    ensures Search(t, query) == match FirstMatch(LeafPaths(t), t, query)
                                case Some(p) => Found(p)
                                case None => NotFound
  {
    match t
    case Nil =>
    case Node(v, l, r) =>
      if !(l.Nil? && r.Nil?) {
        SearchIsFirstMatch(l, query);
        if Search(l, query) == NotFound {
          SearchIsFirstMatch(r, query);
        }
        FirstMatchAppend(Prepend(true, LeafPaths(l)), Prepend(false, LeafPaths(r)), t, query);
        FirstMatchPrepend(true, LeafPaths(l), t, query);
        FirstMatchPrepend(false, LeafPaths(r), t, query);
      }
  }

  /** Every leaf position is listed by LeafPaths. */
  lemma {:induction false} LeafPathsComplete(t: Tree, p: seq<bool>)
    requires IsLeaf(Subtree(t, p))
    ensures p in LeafPaths(t)
    decreases |p|
  {
    if p == [] {
    } else {
      SubtreeOfNil(p[1..]);
      var c := Child(t, p[0]);
      LeafPathsComplete(c, p[1..]);
      var i :| 0 <= i < |LeafPaths(c)| && LeafPaths(c)[i] == p[1..];
      assert p == [p[0]] + p[1..];
      assert Prepend(p[0], LeafPaths(c))[i] == p;
    }
  }

  /** A search that returns NotFound has checked every leaf. */
  lemma SearchNotFoundMeansUnknown(t: Tree, query: string, p: seq<bool>)
    requires Search(t, query) == NotFound
    ensures !MatchesAt(t, p, query)
  {
    SearchIsFirstMatch(t, query);
    if IsLeaf(Subtree(t, p)) {
      LeafPathsComplete(t, p);
    }
  }

  // ---------------------------------------------------------------------------
  // The query is compared as typed

  /**
   * As written, a query holding a capital ASCII letter never finds anything,
   * because it is compared with a lower-cased label.
   */
  lemma QueryWithCapitalNeverFound(t: Tree, query: string, i: nat)
    requires i < |query| && 'A' <= query[i] <= 'Z'
    ensures !Search(t, query).Found?
  {
    FoundQueryIsLowerCase(t, query);
  }

  /** Whatever the search finds, the query holds no capital ASCII letter. */
  lemma FoundQueryIsLowerCase(t: Tree, query: string)
    ensures Search(t, query).Found? ==> forall i :: 0 <= i < |query| ==> !('A' <= query[i] <= 'Z')
  {
    if Search(t, query).Found? {
      SearchFindsMatchingLeaf(t, query);
      var s := Subtree(t, Search(t, query).path);
      forall i | 0 <= i < |query|
        ensures !('A' <= query[i] <= 'Z')
      {
        assert Lower(s.value.value)[i] == query[i];
      }
    }
  }

  /** A one-leaf base holding "Duck": asking for "Duck" finds nothing. */
  lemma TypedNameOfKnownObjectMissed()
    ensures Search(Node(Some("Duck"), Nil, Nil), "Duck") == NotFound
  {
    QueryWithCapitalNeverFound(Node(Some("Duck"), Nil, Nil), "Duck", 0);
  }

  /** The search with the lower-cased query, as the lowered copy of the name was evidently meant for. */
  function SearchIgnoringCase(t: Tree, name: string): SearchResult {
    Search(t, Lower(name))
  }

  /**
   * With the query lower-cased, asking for the exact name of a known object
   * finds a leaf whenever the search is defined, and the leaf found starts
   * with the name up to case.
   */
  lemma KnownObjectIsFound(t: Tree, p: seq<bool>, name: string)
    requires SearchIgnoringCase(t, name) != Undefined
    requires IsLeaf(Subtree(t, p)) && Subtree(t, p).value == Some(name)
    ensures SearchIgnoringCase(t, name).Found?
    ensures var s := Subtree(t, SearchIgnoringCase(t, name).path);
      IsLeaf(s) && s.value.Some? && Lower(name) <= Lower(s.value.value)
  {
    LeafPathsComplete(t, p);
    assert MatchesAt(t, p, Lower(name));
    SearchIsFirstMatch(t, Lower(name));
    SearchFindsMatchingLeaf(t, Lower(name));
  }
}
