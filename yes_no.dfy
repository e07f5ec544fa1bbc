/**
 * The answer to a yes/no prompt (YesOrNoAnswer). The player's input is
 * modelled as the sequence of words read, one per prompt attempt; a word is
 * YES when it starts with a capital `Y`, NO when it starts with a capital
 * `N`, and anything else is refused and the prompt repeats.
 */
module YesNo {
  import opened Wrappers

  /** The classification of one word: the first character alone decides, case-sensitively. */
  function Classify(word: string): (r: Option<bool>)
    ensures r == Some(true) <==> |word| > 0 && word[0] == 'Y'
    ensures r == Some(false) <==> |word| > 0 && word[0] == 'N'
  {
    if |word| > 0 && word[0] == 'Y' then Some(true)
    else if |word| > 0 && word[0] == 'N' then Some(false)
    else None
  }

  /** The answers a run of words yields: the refused words are dropped. */
  function Answers(words: seq<string>): (r: seq<bool>)
    ensures |r| <= |words|
  {
    if words == [] then []
    else match Classify(words[0])
      case Some(a) => [a] + Answers(words[1..])
      case None => Answers(words[1..])
  }

  /**
   * YesOrNoAnswer: reads words from position `from` until one is classified.
   * It returns that answer and the position after it; `None` means the words
   * ran out, where the game would wait for input forever.
   */
  method YesOrNoAnswer(words: seq<string>, from: nat) returns (answer: Option<bool>, next: nat)
    requires from <= |words|
    ensures from <= next <= |words|
    ensures answer.None? ==> next == |words| && Answers(words[from..]) == []
    ensures answer.Some? ==> from < next && Classify(words[next - 1]) == answer
                             && Answers(words[from..]) == [answer.value] + Answers(words[next..])
  {
    next := from;
    while next < |words|
      invariant from <= next <= |words|
      invariant Answers(words[from..]) == Answers(words[next..])
    {
      var word := words[next];
      assert words[next..][0] == word && words[next..][1..] == words[next + 1..];
      next := next + 1;
      match Classify(word) {
        case Some(a) =>
          answer := Some(a);
          return;
        case None =>
      }
    }
    answer := None;
  }

  /**
   * Only the first character of a word counts, and case matters: a word
   * classifies as its first character alone, and one that starts with a
   * lower-case letter is refused.
   */
  lemma OnlyFirstCharacterCounts(word: string)
    requires |word| > 0
    ensures Classify(word) == Classify(word[..1])
    ensures 'a' <= word[0] <= 'z' ==> Classify(word).None?
  {
    assert word[..1][0] == word[0];
  }

  /** Adding refused words anywhere in the input does not change the answers read. */
  lemma {:induction false} RefusedWordsAreIgnored(a: seq<string>, w: string, b: seq<string>)
    requires Classify(w).None?
    ensures Answers(a + [w] + b) == Answers(a + b)
  {
    if a == [] {
      assert a + [w] + b == [w] + b;
      assert ([w] + b)[1..] == b;
      assert a + b == b;
    } else {
      assert (a + [w] + b)[0] == a[0] && (a + [w] + b)[1..] == a[1..] + [w] + b;
      assert (a + b)[0] == a[0] && (a + b)[1..] == a[1..] + b;
      RefusedWordsAreIgnored(a[1..], w, b);
    }
  }
}
