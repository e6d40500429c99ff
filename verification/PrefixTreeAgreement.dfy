/** The plain word-count map, and its agreement with the prefix tree after any run. */
module PrefixTreeAgreement {
  import opened Letters
  import opened PrefixTree

  // ----- the map

  ghost predicate CountsOf(box: map<Word, int>, words: seq<Word>) {
    forall w {:trigger Count(words, w)} ::
      (w in box <==> Count(words, w) > 0) && (w in box ==> box[w] == Count(words, w))
  }

  /** Occurrences with prefix p of the words in done. */
  ghost function PrefixedIn(words: seq<Word>, p: Word, done: set<Word>): nat {
    if words == [] then 0
    else (if words[|words| - 1] in done && HasPrefix(words[|words| - 1], p) then 1 else 0)
         + PrefixedIn(words[..|words| - 1], p, done)
  }

  lemma {:induction false} NothingDone(words: seq<Word>, p: Word)
    ensures PrefixedIn(words, p, {}) == 0
  {
    if words != [] {
      NothingDone(words[..|words| - 1], p);
    }
  }

  lemma {:induction false} OneMoreDone(words: seq<Word>, p: Word, done: set<Word>, w: Word)
    requires w !in done
    ensures PrefixedIn(words, p, done + {w}) == PrefixedIn(words, p, done)
        + if HasPrefix(w, p) then Count(words, w) else 0
  {
    if words != [] {
      OneMoreDone(words[..|words| - 1], p, done, w);
    }
  }

  lemma {:induction false} AllDone(words: seq<Word>, p: Word, done: set<Word>)
    requires forall w :: Count(words, w) > 0 ==> w in done
    ensures PrefixedIn(words, p, done) == Prefixed(words, p)
  {
    if words != [] {
      var rest, last := words[..|words| - 1], words[|words| - 1];
      assert Count(words, last) > 0;
      forall w | Count(rest, w) > 0 ensures w in done {
        assert Count(words, w) > 0;
      }
      AllDone(rest, p, done);
    }
  }

  class Right {
    var box: map<Word, int>
    ghost var words: seq<Word>

    ghost predicate Valid()
      reads this
    {
      CountsOf(box, words)
    }

    constructor ()
      ensures Valid() && words == []
    {
      box, words := map[], [];
    }

    method Insert(word: Word)
      requires Valid()
      modifies this
      ensures Valid() && words == old(words) + [word]
    {
      forall w ensures Count(words + [word], w) == Count(words, w) + if word == w then 1 else 0 {
        AppendCounts(words, word, w);
      }
      assert Count(words, word) >= 0;
      if word !in box {
        box := box[word := 1];
      } else {
        box := box[word := box[word] + 1];
      }
      words := words + [word];
    }

    method Delete(word: Word)
      requires Valid()
      modifies this
      ensures Valid() && words == RemoveOne(old(words), word)
    {
      forall w ensures Count(RemoveOne(words, word), w)
                    == Count(words, w) - if word == w && Count(words, word) > 0 then 1 else 0
      {
        RemoveCounts(words, word, w);
      }
      assert Count(words, word) >= 0;
      if word in box {
        if box[word] == 1 {
          box := box - {word};
        } else {
          box := box[word := box[word] - 1];
        }
      }
      words := RemoveOne(words, word);
    }

    method Search(word: Word) returns (n: int)
      requires Valid()
      ensures n == Count(words, word)
    {
      assert Count(words, word) >= 0;
      n := if word !in box then 0 else box[word];
    }

    /** Adds up the counts of the keys that start with pre, in any order. */
    method PrefixNumber(pre: Word) returns (count: int)
      requires Valid()
      ensures count == Prefixed(words, pre)
    {
      count := 0;
      var left := box.Keys;
      ghost var done: set<Word> := {};
      NothingDone(words, pre);
      while left != {}
        invariant left + done == box.Keys && left !! done
        invariant count == PrefixedIn(words, pre, done)
        decreases left
      {
        assert (forall x :: x !in left) ==> left == {};
        var cur :| cur in left;
        assert box[cur] == Count(words, cur);
        OneMoreDone(words, pre, done, cur);
        if |pre| <= |cur| && cur[..|pre|] == pre {
          count := count + box[cur];
        }
        left, done := left - {cur}, done + {cur};
      }
      assert done == box.Keys;
      AllDone(words, pre, done);
    }
  }

  // ----- any run

  datatype Op = Insert(word: Word) | Delete(word: Word)

  /** The occurrences left after a run, oldest first. */
  ghost function Run(ops: seq<Op>): seq<Word> {
    if ops == [] then []
    else
      var words := Run(ops[..|ops| - 1]);
      match ops[|ops| - 1]
      case Insert(w) => words + [w]
      case Delete(w) => RemoveOne(words, w)
  }

  /** The same for the tree, which turns the empty word away. */
  ghost function RunTree(ops: seq<Op>): seq<Word> {
    if ops == [] then []
    else
      var words := RunTree(ops[..|ops| - 1]);
      match ops[|ops| - 1]
      case Insert(w) => if w == [] then words else words + [w]
      case Delete(w) => if w == [] then words else RemoveOne(words, w)
  }

  /** The empty word is the only difference the two can make. */
  lemma {:induction false} SameCounts(ops: seq<Op>, p: Word)
    ensures p != [] ==>
        Count(RunTree(ops), p) == Count(Run(ops), p) && Prefixed(RunTree(ops), p) == Prefixed(Run(ops), p)
  {
    if ops != [] {
      var before := ops[..|ops| - 1];
      var w := ops[|ops| - 1].word;
      SameCounts(before, p);
      SameCounts(before, w);
      AppendCounts(Run(before), w, p);
      AppendCounts(RunTree(before), w, p);
      RemoveCounts(Run(before), w, p);
      RemoveCounts(RunTree(before), w, p);
    }
  }

  lemma {:induction false} AllHaveEmptyPrefix(words: seq<Word>)
    ensures Prefixed(words, []) == |words|
  {
    if words != [] {
      AllHaveEmptyPrefix(words[..|words| - 1]);
    }
  }

  lemma RightIsApart(at: map<Word, Node>, right: Right)
    ensures right !in Objects(at)
  {
  }

  method InsertBoth(tree: Tire, right: Right, w: Word)
    requires tree.Valid() && right.Valid()
    modifies tree, right, Objects(tree.at)
    ensures tree.Valid() && right.Valid()
    ensures forall o :: o in Objects(tree.at) ==> o in old(Objects(tree.at)) || fresh(o)
    ensures right.words == old(right.words) + [w]
    ensures tree.words == old(tree.words) + (if w == [] then [] else [w])
  {
    RightIsApart(tree.at, right);
    hide *;
    right.Insert(w);
    tree.Insert(w);
  }

  method DeleteBoth(tree: Tire, right: Right, w: Word)
    requires tree.Valid() && right.Valid()
    modifies tree, right, Objects(tree.at)
    ensures tree.Valid() && right.Valid()
    ensures forall o :: o in Objects(tree.at) ==> o in old(Objects(tree.at)) || fresh(o)
    ensures right.words == RemoveOne(old(right.words), w)
    ensures tree.words == if w == [] then old(tree.words) else RemoveOne(old(tree.words), w)
  {
    RightIsApart(tree.at, right);
    hide *;
    right.Delete(w);
    tree.Del(w);
  }

  lemma RunNothing(ops: seq<Op>)
    ensures Run(ops[..0]) == [] && RunTree(ops[..0]) == []
  {
  }

  lemma RunNext(ops: seq<Op>, k: nat)
    requires k < |ops|
    ensures match ops[k]
            case Insert(w) => Run(ops[..k + 1]) == Run(ops[..k]) + [w]
                              && RunTree(ops[..k + 1]) == RunTree(ops[..k]) + (if w == [] then [] else [w])
            case Delete(w) => Run(ops[..k + 1]) == RemoveOne(Run(ops[..k]), w)
                              && RunTree(ops[..k + 1])
                                  == if w == [] then RunTree(ops[..k]) else RemoveOne(RunTree(ops[..k]), w)
  {
    var done := ops[..k + 1];
    assert done[..|done| - 1] == ops[..k];
  }

  method Apply(ops: seq<Op>) returns (tree: Tire, right: Right)
    ensures fresh(tree) && fresh(right) && tree.Valid() && right.Valid()
    ensures tree.words == RunTree(ops) && right.words == Run(ops)
  {
    hide Tire.Valid, Right.Valid, Arrays, Run, RunTree;
    right := new Right();
    tree := new Tire();
    RunNothing(ops);
    for k := 0 to |ops|
      invariant fresh(tree) && fresh(right) && fresh(Objects(tree.at))
      invariant tree.Valid() && right.Valid() && tree.words == RunTree(ops[..k]) && right.words == Run(ops[..k])
    {
      RunNext(ops, k);
      match ops[k] {
        case Insert(w) => InsertBoth(tree, right, w);
        case Delete(w) => DeleteBoth(tree, right, w);
      }
    }
    assert ops[..|ops|] == ops;
  }

  /**
   After any run both give the same answers to every query but the empty one, which the tree
   answers with 0.
  */
  method Verify(ops: seq<Op>, query: Word) returns (count: int, search: int, prefixCount: int, prefixNumber: int)
    ensures search == Count(Run(ops), query) && prefixNumber == Prefixed(Run(ops), query)
    ensures count == search <==> query != [] || Count(Run(ops), []) == 0
    ensures prefixCount == prefixNumber <==> query != [] || Run(ops) == []
  {
    var tree, right := Apply(ops);
    count := tree.FindCount(query);
    search := right.Search(query);
    prefixCount := tree.PrefixCount(query);
    prefixNumber := right.PrefixNumber(query);
    SameCounts(ops, query);
    AllHaveEmptyPrefix(Run(ops));
  }
}
