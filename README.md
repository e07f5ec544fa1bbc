# Akinator knowledge base in Dafny

The game is a "twenty questions" guesser. Its knowledge base is a binary
decision tree of heap nodes (`Node_t`: a label, `left`, `right` and a
`parent` back-link) hung from a `Tree_t` root:

- an internal node asks a yes/no question;
- a leaf names an object;
- the left child is taken on YES and the right child on NO.

A round descends from the root, asking questions, and guesses the node it
stops at. On a wrong guess the player may teach a new object. The guessed
leaf is then replaced by a new question node whose children are the old leaf
and a leaf for the new object. An object can be looked up by name and its
traits listed: the questions on the way to it, each with the answer that
leads there. The tree is saved as nested-parenthesis text. Pointers are
hashed with a bitwise CRC-32.

## Modules

- `DecisionTree` (`decision_tree.dfy`): the tree as a value.
  - Positions are answer paths from the root.
  - It defines the leaf-to-question splice, the descent, the trait list,
    a whole round and the post-order disposal trace.
  - The lemmas say what each of these does to the tree.
- `TreeLib` (`tree_lib.dfy`): `lib/Tree.cpp` on the heap.
  - `Node` and `Tree` are classes with mutable fields.
  - `Tree.Valid()` ties the fields of every node to a ghost position map and
    a ghost `DecisionTree.Tree`: child and parent links mirror each other,
    and positions are distinct.
  - It also holds `TreeCtor`, `NodeCreate`, `NodeDelete` and `TreeDtor`.
- `Akinator` (`akinator.dfy`): the heap operations of `src/Akinator.cpp`.
  - `AddQuestion`, the descent of `PlayRound`/`AskQuestion` and
    `HandleIncorrectGuess`.
  - The search, the two loops of `PrintObjectTraits`, and `WriteNode`.
  - Each is proved against the matching `DecisionTree`, `ObjectSearch` or
    `Serializer` function of the ghost shape.
- `YesNo` (`yes_no.dfy`): the answer prompt.
  - A word is YES iff it starts with `Y` and NO iff it starts with `N`;
    other words are refused.
  - Player input is modelled as a sequence of words.
- `ObjectSearch` (`object_search.dfy`): the lookup on the value tree.
  - It is a pre-order search: node, then the yes subtree, then the no
    subtree.
  - A leaf matches when the query is a prefix of the leaf's lower-cased
    label.
- `Serializer` (`serializer.dfy`): the text `WriteNode` produces, and what
  that text determines.
- `Crc` (`crc.dfy`): `crc32_ptr` as a method with its two nested loops,
  proved equal to the reflected CRC-32 of IEEE 802.3 over the 8
  little-endian bytes of the value.

Two behaviours of the code that a reader might not expect:

- **Lookup.** `SearchObject` fills a lower-cased copy `lower_name` of the
  name (`src/Akinator.cpp:321-324`) but never uses it. The search receives
  the name as typed. It checks that this name is a prefix of a leaf's
  lower-cased label (`src/Akinator.cpp:302-307`). See Findings.
- **Answers.** The prompts print `[Y/N]`, and the comparison looks only at
  the first character, case-sensitively (`src/Akinator.cpp:63-68`). `Yes`
  and `Nope` are answers; `yes` and `no` are refused.

## Model

| member | source | states |
|---|---|---|
| TreeLib.Tree.constructor | lib/Tree.cpp:28-33 | a fresh tree whose root is a fresh zero-filled node: one leaf without label, children or parent; the tree is valid |
| TreeLib.NodeCreate | lib/Tree.cpp:68-76 | a fresh node with the given label and parent and no children |
| TreeLib.NodeDelete | lib/Tree.cpp:78-94 | the callback receives the labels of the subtree in post-order (left, right, node); each node of the subtree is visited exactly once; the result is SUCCESS |
| TreeLib.TreeDtor | lib/Tree.cpp:57-66 | the whole tree is deleted from the root in post-order, one callback per node; the caller's pointer becomes NULL; the result is SUCCESS |
| TreeLib.LinksOf | include/Tree.h:15-22 | in a valid tree a node's label and children are those of its position in the shape; a child's parent link points back; only the root has no parent |
| TreeLib.RootIsOnlyOrphan | include/Tree.h:24-25 | in a valid tree, a node has no parent exactly when it is the root |
| TreeLib.NoSingleChild | src/Akinator.cpp:198-204 | in a valid tree with a full shape, no node has exactly one child |
| DecisionTree.PostOrder | lib/Tree.cpp:78-94 | the disposal trace (left subtree, right subtree, then the node) holds one label per node of the tree |
| DecisionTree.PostOrderCoversTree | lib/Tree.cpp:81-89 | the post-order trace lists as many labels as there are nodes, the root's label comes last, and the label of every node of the tree appears in it |
| Crc.Crc32 | lib/Tree.cpp:96-112 | the CRC-32 starts from an all-ones register and complements the result, so the empty string has CRC 0 |
| Crc.Crc32Ptr | lib/Tree.cpp:96-112 | the nested byte and bit loops compute the CRC-32 (initial register all ones, result complemented) of the value's 8 bytes, least significant first |
| Crc.Crc32Resume | lib/Tree.cpp:98-109 | the register is carried from byte to byte: the CRC of a longer string is the prefix's CRC, un-complemented, fed the remaining bytes and complemented again |
| Crc.ExtractByte | lib/Tree.cpp:101 | the shift-and-mask of step `i` yields byte `i` of the value, least significant first |
| Crc.PtrBytesRoundTrip | lib/Tree.cpp:100-101 | the 8 bytes the loop visits determine the value: reassembling them little-endian gives it back |
| Crc.CheckValue | lib/Tree.cpp:98-111 | the CRC-32 of "123456789" is 0xCBF43926, the check value of the IEEE 802.3 CRC-32 |
| YesNo.Classify | src/Akinator.cpp:63-71 | a word is YES iff its first character is `Y` and NO iff it is `N`; everything else is refused |
| YesNo.YesOrNoAnswer | src/Akinator.cpp:53-73 | the prompt skips refused words and returns the first answer; the words consumed contribute exactly that answer; when the words run out, no answer remains in them |
| YesNo.OnlyFirstCharacterCounts | src/Akinator.cpp:63-68 | every non-empty word classifies as its first character alone, and a word starting with a lower-case letter is refused |
| YesNo.RefusedWordsAreIgnored | src/Akinator.cpp:57-72 | inserting a refused word anywhere in the input does not change the answers read |
| DecisionTree.Splice | src/Akinator.cpp:181-219 | replacing a node of the tree by a question over it and a new object leaf adds exactly two nodes |
| DecisionTree.SpliceLayout | src/Akinator.cpp:198-216 | after the splice, the leaf's position holds the question with both children; the new object is on the yes side iff the answer for it is YES and the old leaf on the other; every position outside the old leaf's subtree looks as before |
| DecisionTree.SpliceCounts | src/Akinator.cpp:181-219 | a splice adds exactly two nodes and one leaf and keeps a full tree full |
| DecisionTree.SpliceTraits | src/Akinator.cpp:198-207 | after a splice, the new object and the old leaf have the old leaf's traits plus the new question, answered YES for the new object iff the given answer is YES; every other node keeps its traits |
| Akinator.Relink | src/Akinator.cpp:185-213 | a fresh question node with the new label takes the leaf's slot under the leaf's former parent; the sibling slot is unchanged; the new object leaf and the old leaf hang from the question node on the sides the answer decides |
| Akinator.SpliceFields | src/Akinator.cpp:206-213 | after the relinking, every node's fields hold the spliced links: the old leaf, its parent and the two new nodes are changed as described, and no other node |
| Akinator.SpliceConsistent | src/Akinator.cpp:181-219 | the spliced links, positions and shape again mirror each other: parent links point back to their holders and positions stay distinct |
| Akinator.SetRoot | src/Akinator.cpp:209-216 | a question node without a parent becomes the root; otherwise the root is kept; the tree is valid for the spliced shape |
| Akinator.AddQuestion | src/Akinator.cpp:181-219 | the tree stays valid; it gains exactly the two fresh nodes; its shape is the leaf-to-question splice at the leaf's position; the root changes only when the leaf was the root |
| DecisionTree.Descend | src/Akinator.cpp:130-133 | the descent follows the answers, ends at a node of the tree that lacks a child, and uses a prefix of the answers; it is None only when the answers run out at an internal node |
| DecisionTree.DescendStopsFirst | src/Akinator.cpp:131 | every node the descent passes through has both children, so it stops at the first node lacking one |
| DecisionTree.DescendUnique | src/Akinator.cpp:130-133 | any path that follows the answers through nodes with both children to a node lacking one is the descent |
| Akinator.AskQuestion | src/Akinator.cpp:221-242 | a leaf yields null and reads nothing; any other node reads one answer and yields its left child on YES and its right child on NO, one level below it |
| Akinator.Descent | src/Akinator.cpp:130-133 | the loop ends at the node the descent reaches on the shape, with the answers after it still unread, or with null when the answers run out first |
| DecisionTree.Round | src/Akinator.cpp:127-151 | a round reaches a verdict only after the descent has stopped at a node; every outcome but a learned object leaves the tree as it was |
| Akinator.PlayRound | src/Akinator.cpp:127-151 | the tree stays valid and full, and the outcome and the new shape are those of a round on the answers read: guessed, declined, learned (a splice at the guessed leaf) or out of input |
| DecisionTree.Teach | src/Akinator.cpp:153-178 | a new object is taught only after a YES to "add a new object?" and an answer for the object; otherwise the tree is unchanged |
| Akinator.HandleIncorrectGuess | src/Akinator.cpp:153-178 | NO to "add a new object?" leaves the tree alone; YES and an answer for the new object splice the leaf with the object on the side that answer names |
| DecisionTree.RoundLearns | src/Akinator.cpp:127-178 | a round that teaches an object grows the tree by two nodes and one leaf and keeps it full; replaying the answers with the new question answered as for the new object reaches the new object, and the other answer reaches the old guess |
| ObjectSearch.Lower | src/Akinator.cpp:302-304 | the lowered copy has the same length and maps each character by ASCII `tolower`; no capital letter is left |
| ObjectSearch.LowerCopy | src/Akinator.cpp:323-324 | the copy loop produces the lowered name, character by character |
| ObjectSearch.Search | src/Akinator.cpp:299-315 | the pre-order search is undefined when it reads a NULL or over-long label; a search that finds nothing has read every label, so all of them are present and fit the 128-byte buffer |
| ObjectSearch.SearchAtStep | src/Akinator.cpp:302-314 | at a node where the search is defined: the label is present and fits the 128-byte buffer; a matching leaf is found there; otherwise the yes subtree is searched, and the no subtree only when the yes subtree finds nothing; each of those searches is defined |
| ObjectSearch.SearchableIsDefined | src/Akinator.cpp:302-304 | when every label is present and fits the 128-byte buffer, the search is defined |
| ObjectSearch.SearchFindsMatchingLeaf | src/Akinator.cpp:306-308 | whatever the search finds is a leaf whose lower-cased label starts with the query; question nodes are never returned |
| ObjectSearch.SearchIsFirstMatch | src/Akinator.cpp:299-315 | whenever the search is defined, it returns the first matching leaf in pre-order (yes side before no side), and not found exactly when no leaf matches |
| ObjectSearch.SearchNotFoundMeansUnknown | src/Akinator.cpp:299-315 | when the search finds nothing, no position of the tree holds a matching leaf |
| ObjectSearch.QueryWithCapitalNeverFound | src/Akinator.cpp:302-307 | a query holding a capital ASCII letter never finds a leaf, since it is compared with a lower-cased label |
| ObjectSearch.FoundQueryIsLowerCase | src/Akinator.cpp:302-307 | whenever the search finds a leaf, the query holds no capital ASCII letter |
| ObjectSearch.TypedNameOfKnownObjectMissed | src/Akinator.cpp:321-326 | as written, a base holding only "Duck" does not find "Duck" |
| ObjectSearch.KnownObjectIsFound | src/Akinator.cpp:321-326 | with the lowered query, whenever the search is defined, asking for the exact name of a known object finds a leaf, and that leaf's lowered label starts with the lowered name |
| Akinator.SearchObjectRecursively | src/Akinator.cpp:299-315 | when the labels it reads before the first match are present and fit the buffer, the node returned is the node at the position the search on the shape finds under `node`; null exactly when that search finds nothing |
| Akinator.SearchObject | src/Akinator.cpp:317-327 | as written: the result is the search from the root for the name as typed; null exactly when that search finds nothing |
| Akinator.SearchObjectIgnoringCase | src/Akinator.cpp:317-327 | as intended: the result is the search from the root for the lower-cased name; null exactly when that search finds nothing |
| DecisionTree.Traits | src/Akinator.cpp:285-294 | one trait per ancestor, root first; the i-th trait holds YES iff the path turns left at step i |
| DecisionTree.TraitsAt | src/Akinator.cpp:286-293 | the i-th trait is the question of the i-th ancestor, answered YES iff the path goes to its left child |
| DecisionTree.TraitsSnoc | src/Akinator.cpp:285-294 | a node's traits are its parent's traits followed by the parent's question, answered by the side the node hangs on |
| Akinator.Ancestors | src/Akinator.cpp:277-280 | the chain starts at the node; each entry is the parent of the one before; it ends at the root; it is one longer than the node's depth |
| Akinator.StackAncestors | src/Akinator.cpp:275-280 | the array of MAX_LEN entries holds the node and its ancestors up to the root, nearest first; the count is the depth plus one |
| Akinator.ReadTraits | src/Akinator.cpp:285-294 | walking the stacked chain from the root down yields exactly the node's traits |
| Akinator.ObjectTraits | src/Akinator.cpp:275-294 | for a node less than 128 levels deep, the two loops yield exactly the node's traits, root first |
| Akinator.PrintObjectTraits | src/Akinator.cpp:255-297 | no traits iff SearchObject, as written, finds no object; otherwise the traits of the object it finds; only the found object must lie less than 128 levels deep |
| Akinator.PrintObjectTraitsIgnoringCase | src/Akinator.cpp:255-297 | the same with the corrected lookup: no traits iff the lower-cased name finds no object, otherwise the traits of the object found |
| Akinator.WriteNode | src/Akinator.cpp:329-341 | the text written for a node is the serialization of its subtree in the shape: ` nil` for an absent node, otherwise `( "label" `, both children and ` )` |
| Akinator.TreeSaveToFile | src/Akinator.cpp:343-354 | the contents written are the serialization of the whole tree |
| Serializer.Serialize | src/Akinator.cpp:329-341 | each node is written as `( "label" left right )` and an absent child as ` nil`; the first character tells the two apart |
| Serializer.BracketCount | src/Akinator.cpp:335-340 | when no label holds that bracket, the text of an n-node tree holds n opening and n closing brackets |
| Serializer.QuoteCount | src/Akinator.cpp:335 | when no label holds a double quote, the text of an n-node tree holds 2n double quotes |
| Serializer.NilTokenCount | src/Akinator.cpp:330-331 | when no label holds the token ` nil`, the text of an n-node tree holds exactly n + 1 occurrences of it, one per absent child |
| Serializer.NilTokensAppend | src/Akinator.cpp:335-340 | the ` nil` tokens of two pieces of text written one after the other add up, unless a token runs across the seam |
| Serializer.SerializeInjective | src/Akinator.cpp:329-341 | when labels hold no double quote, two trees with the same text are the same tree, with a NULL label read as empty |

## Left out

- Console I/O is not modelled: menus, prompts, colours, `Game`, `ShowMenu`, `PrintQuestion`, `ClearBuffer` and `HasExtraInput`.
  - The words the player types are a `seq<string>` parameter.
  - The name and question read with `scanf` are string parameters.
  - Where the program would block for more input, the model returns null or the `OutOfInput` outcome.
- Scanned lines are not truncated: the new object, the new question and the looked-up name arrive as given, without the 127-byte cut of `%127[^\n]`. SearchObject requires the name to fit in 127 bytes, as that cut guarantees.
- File handling is not modelled: `fopen`/`fclose` in `TreeSaveToFile`, the commented-out reader, and the debug and Graphviz dumps of `lib/Tree.cpp`. The text writer is modelled as a function returning the text.
- Memory management is not modelled.
  - `calloc` and `free` are not modelled, and `NodeDelete` frees nothing.
  - The cleanup callback is modelled as the returned sequence of labels handed to it.
  - The new object leaf points at a stack buffer of `HandleIncorrectGuess`, and that pointer dangles after the call. This is not modelled: labels are string values.
- `tolower` is modelled on ASCII letters only. Locale-dependent lowering of other bytes is left out.
- SearchObjectRecursively: a NULL label, or a label whose UTF-8 encoding is longer than the 128-byte `node_name` buffer, is undefined behaviour in the code.
  - The value-level search returns `Undefined` when it visits such a label.
  - The heap methods require the search not to be `Undefined`. This constrains only the labels read before the first match.
  - Lengths are counted in UTF-8 bytes (`Utf8Len`). Comparing whole characters gives the same prefix test as the byte-wise `strncmp`.
- StackAncestors: requires the node's depth to be below 128, because the `path[128]` array is filled without a bounds check. PrintObjectTraits requires this only of the object it finds, so a deeper node elsewhere is allowed.
- PlayRound: requires a full tree, meaning no node has exactly one child.
  - Every tree that `TreeCtor` and `AddQuestion` build is full.
  - On a non-full tree the code would guess a node with one child and splice it.
- AddQuestion: requires the spliced node to be a leaf. Its only caller passes the node where the descent stopped, which is a leaf in a full tree.
- PlayRound: the NULL-node error branch of the code is reached in the model only when the answers run out, because the root is never NULL here.
- PrintObjectTraits: returns the list of traits instead of printing it. A trait keeps the question label as an optional string. The prompt for the name is left out.
- Crc32Ptr: `uintptr_t` is taken to be 8 bytes wide (`bv64`).
- The declarations of `TreeDtor` and `NodeDelete` in `include/Tree.h:53,59` do not match their definitions in `lib/Tree.cpp`. The model follows the definitions.
- The seed tree built in `src/main.cpp` is not part of this model.

## Findings

| source | as written | input that shows it | evidently intended | confidence | as-written member | corrected member |
|---|---|---|---|---|---|---|
| src/Akinator.cpp:321-326 | `SearchObject` fills `lower_name` with the lower-cased name but passes the original `name_of_object` to `SearchObjectRecursively`, which compares it with lower-cased labels, so a name typed with a capital letter never matches | a base that is the single leaf "Duck", queried with the name "Duck": not found | search for `lower_name`, so a known object is found whatever the case of the typed name | not executed | Akinator.SearchObject, ObjectSearch.TypedNameOfKnownObjectMissed | Akinator.SearchObjectIgnoringCase, Akinator.PrintObjectTraitsIgnoringCase, ObjectSearch.KnownObjectIsFound |
