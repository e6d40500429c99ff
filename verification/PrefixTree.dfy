/**
 A prefix tree with pass and end counts, insertion, and deletion that cuts a branch as soon as no
 word passes through it, against the occurrences it holds.
*/
module PrefixTree {
  import opened Letters

  // ----- the words held, as a list of occurrences

  ghost function Count(words: seq<Word>, w: Word): nat {
    if words == [] then 0
    else Count(words[..|words| - 1], w) + if words[|words| - 1] == w then 1 else 0
  }

  ghost predicate HasPrefix(w: Word, p: Word) {
    |p| <= |w| && w[..|p|] == p
  }

  ghost function Prefixed(words: seq<Word>, p: Word): nat {
    if words == [] then 0
    else Prefixed(words[..|words| - 1], p) + if HasPrefix(words[|words| - 1], p) then 1 else 0
  }

  ghost function RemoveOne(words: seq<Word>, w: Word): seq<Word> {
    if words == [] then []
    else if words[|words| - 1] == w then words[..|words| - 1]
    else RemoveOne(words[..|words| - 1], w) + [words[|words| - 1]]
  }

  lemma AppendCounts(words: seq<Word>, v: Word, w: Word)
    ensures Count(words + [v], w) == Count(words, w) + if v == w then 1 else 0
    ensures Prefixed(words + [v], w) == Prefixed(words, w) + if HasPrefix(v, w) then 1 else 0
  {
    assert (words + [v])[..|words|] == words;
  }

  lemma {:induction false} RemoveCounts(words: seq<Word>, v: Word, w: Word)
    ensures Count(RemoveOne(words, v), w) == Count(words, w) - if v == w && Count(words, v) > 0 then 1 else 0
    ensures Prefixed(RemoveOne(words, v), w) == Prefixed(words, w)
        - if HasPrefix(v, w) && Count(words, v) > 0 then 1 else 0
  {
    if words != [] {
      var rest, last := words[..|words| - 1], words[|words| - 1];
      RemoveCounts(rest, v, w);
      if last != v {
        AppendCounts(RemoveOne(rest, v), last, w);
      }
    }
  }

  lemma {:induction false} RemoveAbsent(words: seq<Word>, w: Word)
    requires Count(words, w) == 0
    ensures RemoveOne(words, w) == words
  {
    if words != [] {
      RemoveAbsent(words[..|words| - 1], w);
    }
  }

  lemma {:induction false} LongerIsRarer(words: seq<Word>, q: Word, p: Word)
    requires HasPrefix(q, p)
    ensures Prefixed(words, q) <= Prefixed(words, p) && Count(words, q) <= Prefixed(words, p)
  {
    if words != [] {
      LongerIsRarer(words[..|words| - 1], q, p);
      var w := words[|words| - 1];
      if HasPrefix(w, q) {
        assert w[..|p|] == w[..|q|][..|p|];
      }
    }
  }

  // ----- nodes

  class Node {
    var pass: int
    var end: int
    const nexts: array<Node?>

    constructor ()
      ensures pass == 0 && end == 0 && fresh(nexts)
      ensures nexts.Length == 26 && forall k :: 0 <= k < 26 ==> nexts[k] == null
    {
      pass, end := 0, 0;
      nexts := new Node?[26](_ => null);
    }
  }

  ghost function Child(at: map<Word, Node>, p: Word): Node? {
    if p in at then at[p] else null
  }

  ghost function Arrays(at: map<Word, Node>): set<array<Node?>> {
    set p | p in at :: at[p].nexts
  }

  /** Prefixes have nodes of their own, with tables of their own. */
  ghost predicate Separate(at: map<Word, Node>) {
    && (forall p, q :: p in at && q in at && at[p] == at[q] ==> p == q)
    && (forall p, q :: p in at && q in at && at[p].nexts == at[q].nexts ==> p == q)
    && (forall p :: p in at ==> at[p].nexts.Length == 26)
    && [] in at && forall p :: p in at && p != [] ==> p[..|p| - 1] in at
  }

  /** The table n leads to the nodes of the prefixes one letter longer than p. */
  ghost predicate Leads(n: array<Node?>, at: map<Word, Node>, p: Word)
    reads n
  {
    n.Length == 26 && forall c: Letter :: n[Index(c)] == Child(at, p + [c])
  }

  ghost predicate Linked(at: map<Word, Node>)
    reads Arrays(at)
  {
    Separate(at) && forall p :: p in at ==> Leads(at[p].nexts, at, p)
  }

  lemma ChildOf(at: map<Word, Node>, p: Word, c: Letter)
    requires Linked(at) && p in at
    ensures at[p].nexts.Length == 26 && at[p].nexts[Index(c)] == Child(at, p + [c])
  {
    assert Leads(at[p].nexts, at, p);
  }

  // ----- growing and cutting

  ghost function Without(at: map<Word, Node>, q: Word): map<Word, Node> {
    map p | p in at && !HasPrefix(p, q) :: at[p]
  }

  lemma ShorterPrefix(p: Word, q: Word)
    requires p != []
    ensures HasPrefix(p[..|p| - 1], q) ==> HasPrefix(p, q)
  {
    assert |q| < |p| ==> p[..|q|] == p[..|p| - 1][..|q|];
  }

  lemma SeparateWithout(at: map<Word, Node>, q: Word)
    requires Separate(at) && q != []
    ensures Separate(Without(at, q))
  {
    forall p | p in Without(at, q) && p != [] ensures p[..|p| - 1] in Without(at, q) {
      ShorterPrefix(p, q);
    }
  }

  lemma SeparateWith(at: map<Word, Node>, p: Word, c: Letter, m: Node)
    requires Separate(at) && p in at && m !in at.Values && m.nexts !in Arrays(at) && m.nexts.Length == 26
    ensures Separate(at[p + [c] := m])
  {
    assert (p + [c])[..|p|] == p;
  }

  lemma NoGrandchild(at: map<Word, Node>, q: Word, d: Letter)
    requires Separate(at) && q !in at
    ensures q + [d] !in at
  {
    assert (q + [d])[..|q|] == q;
  }

  lemma OtherChild(p: Word, c: Letter, q: Word, d: Letter)
    ensures q + [d] == p + [c] <==> q == p && d == c
  {
    if q + [d] == p + [c] {
      assert (q + [d])[..|q|] == (p + [c])[..|p|];
      assert (q + [d])[|q|] == (p + [c])[|p|];
    }
  }

  /** at' has the children at has, except p's child c. */
  ghost predicate SameBut(at: map<Word, Node>, at': map<Word, Node>, p: Word, c: Letter, q: Word) {
    forall d: Letter :: q != p || d != c ==> Child(at', q + [d]) == Child(at, q + [d])
  }

  lemma LeadsElsewhere(n: array<Node?>, at: map<Word, Node>, at': map<Word, Node>, p: Word, c: Letter, q: Word)
    requires Leads(n, at, q) && SameBut(at, at', p, c, q) && q != p
    ensures Leads(n, at', q)
  {
  }

  /** Sets one entry of a node's table. */
  method SetEntry(n: array<Node?>, ghost at: map<Word, Node>, ghost at': map<Word, Node>, ghost p: Word, c: Letter,
                  m: Node?)
    requires Leads(n, at, p) && SameBut(at, at', p, c, p) && Child(at', p + [c]) == m
    modifies n
    ensures Leads(n, at', p)
  {
    n[Index(c)] := m;
  }

  lemma TableOf(at: map<Word, Node>, p: Word)
    requires Linked(at) && p in at
    ensures Leads(at[p].nexts, at, p) && forall q :: q in at && q != p ==> at[q].nexts != at[p].nexts
    ensures Separate(at)
  {
  }

  /** Every node that stays gets the children at' says. */
  method SetChild(ghost at: map<Word, Node>, ghost at': map<Word, Node>, node: Node, ghost p: Word, c: Letter, m: Node?)
    requires Linked(at) && p in at && at[p] == node && p in at' && at'[p] == node && Child(at', p + [c]) == m
    requires forall q :: q in at' && q in at ==> SameBut(at, at', p, c, q)
    modifies node.nexts
    ensures forall q :: q in at' && q in at ==> Leads(at[q].nexts, at', q)
  {
    hide Linked, Leads, SameBut, Child, Separate;
    TableOf(at, p);
    forall q | q in at ensures Leads(at[q].nexts, at, q) {
      TableOf(at, q);
    }
    SetEntry(node.nexts, at, at', p, c, m);
    forall q | q in at' && q in at && q != p ensures Leads(at[q].nexts, at', q) {
      LeadsElsewhere(at[q].nexts, at, at', p, c, q);
    }
  }

  lemma IsLinked(at: map<Word, Node>)
    requires Separate(at) && forall p :: p in at ==> Leads(at[p].nexts, at, p)
    ensures Linked(at)
  {
  }

  lemma WithSameBut(at: map<Word, Node>, p: Word, c: Letter, m: Node, q: Word)
    ensures SameBut(at, at[p + [c] := m], p, c, q)
  {
    forall d: Letter | q != p || d != c ensures q + [d] != p + [c] {
      OtherChild(p, c, q, d);
    }
  }

  lemma NewLeads(at: map<Word, Node>, p: Word, c: Letter, m: Node, at': map<Word, Node>)
    requires Separate(at) && p + [c] !in at && m.nexts.Length == 26 && forall k :: 0 <= k < 26 ==> m.nexts[k] == null
    requires at' == at[p + [c] := m]
    ensures Leads(m.nexts, at', p + [c])
  {
    forall d: Letter ensures Child(at', p + [c] + [d]) == null {
      NoGrandchild(at, p + [c], d);
    }
  }

  method Attach(ghost at: map<Word, Node>, node: Node, ghost p: Word, c: Letter)
      returns (m: Node, ghost at': map<Word, Node>)
    requires Linked(at) && p in at && at[p] == node && p + [c] !in at
    modifies node.nexts
    ensures fresh(m) && fresh(m.nexts) && m.pass == 0 && m.end == 0
    ensures at' == at[p + [c] := m] && Linked(at')
  {
    TableOf(at, p);
    m := new Node();
    at' := at[p + [c] := m];
    SeparateWith(at, p, c, m);
    NewLeads(at, p, c, m, at');
    assert Child(at', p + [c]) == m && p + [c] != p;
    hide Linked, Leads, SameBut, Child, Separate;
    forall q ensures SameBut(at, at', p, c, q) {
      WithSameBut(at, p, c, m, q);
    }
    SetChild(at, at', node, p, c, m);
    IsLinked(at');
  }

  lemma WithoutSameBut(at: map<Word, Node>, p: Word, c: Letter, q: Word)
    requires q in Without(at, p + [c])
    ensures SameBut(at, Without(at, p + [c]), p, c, q)
  {
    forall d: Letter | q != p || d != c ensures !HasPrefix(q + [d], p + [c]) {
      OtherChild(p, c, q, d);
      assert |p| + 1 <= |q| ==> (q + [d])[..|p| + 1] == q[..|p| + 1];
    }
  }

  /** Cuts p's child c: the whole branch leaves the tree. */
  method Cut(ghost at: map<Word, Node>, node: Node, ghost p: Word, c: Letter) returns (ghost at': map<Word, Node>)
    requires Linked(at) && p in at && at[p] == node
    modifies node.nexts
    ensures at' == Without(at, p + [c]) && Linked(at')
  {
    TableOf(at, p);
    at' := Without(at, p + [c]);
    SeparateWithout(at, p + [c]);
    assert Child(at', p + [c]) == null && p in at';
    hide Linked, Leads, SameBut, Child, Separate;
    forall q | q in at' ensures SameBut(at, at', p, c, q) {
      WithoutSameBut(at, p, c, q);
    }
    SetChild(at, at', node, p, c, null);
    IsLinked(at');
  }

  // ----- counts

  /** What p's pass count must be while w's first i letters have been walked with d added on the way. */
  ghost function Due(words: seq<Word>, w: Word, i: nat, d: int, p: Word): int {
    Prefixed(words, p) + if p != [] && |p| <= i && HasPrefix(w, p) then d else 0
  }

  /** p's node, or its absence, is as the count due says. */
  ghost predicate TallyNode(n: Node?, words: seq<Word>, w: Word, i: nat, d: int, p: Word)
    reads n
  {
    && (n != null ==> n.end == Count(words, p) && (p != [] ==> n.pass == Due(words, w, i, d, p)))
    && (p != [] ==> (n != null <==> Due(words, w, i, d, p) > 0))
  }

  ghost predicate Tally(at: map<Word, Node>, words: seq<Word>, w: Word, i: nat, d: int)
    reads at.Values
  {
    forall p {:trigger Child(at, p)} :: TallyNode(Child(at, p), words, w, i, d, p)
  }

  ghost predicate Distinct(at: map<Word, Node>) {
    forall p, q :: p in at && q in at && at[p] == at[q] ==> p == q
  }

  lemma DueNext(words: seq<Word>, w: Word, i: nat, d: int, p: Word)
    requires i < |w|
    ensures Due(words, w, i + 1, d, p) == Due(words, w, i, d, p) + if p == w[..i + 1] then d else 0
    ensures Due(words, w, i, d, w[..i + 1]) == Prefixed(words, w[..i + 1])
  {
  }

  lemma TallyOther(n: Node?, words: seq<Word>, w: Word, i: nat, d: int, p: Word)
    requires i < |w| && p != w[..i + 1] && TallyNode(n, words, w, i, d, p)
    ensures TallyNode(n, words, w, i + 1, d, p)
  {
    hide Due;
    DueNext(words, w, i, d, p);
  }

  /** q's node as it was before w's walk reached it. */
  ghost predicate Untouched(n: Node?, words: seq<Word>, q: Word)
    reads n
  {
    n != null && n.end == Count(words, q) && n.pass == Prefixed(words, q)
  }

  ghost predicate TallyRest(at: map<Word, Node>, words: seq<Word>, w: Word, i: nat, d: int, q: Word)
    reads at.Values
  {
    forall p {:trigger Child(at, p)} :: p != q ==> TallyNode(Child(at, p), words, w, i, d, p)
  }

  method TouchNode(node: Node, ghost words: seq<Word>, ghost w: Word, ghost i: nat, d: int)
    requires i < |w| && Untouched(node, words, w[..i + 1])
    modifies node`pass
    ensures node.pass == old(node.pass) + d == Due(words, w, i + 1, d, w[..i + 1])
    ensures node.pass > 0 ==> TallyNode(node, words, w, i + 1, d, w[..i + 1])
  {
    DueNext(words, w, i, d, w[..i + 1]);
    hide Due;
    node.pass := node.pass + d;
  }

  lemma TallyFor(at: map<Word, Node>, words: seq<Word>, w: Word, i: nat, d: int, p: Word)
    requires Tally(at, words, w, i, d)
    ensures TallyNode(Child(at, p), words, w, i, d, p)
  {
  }

  lemma RestFor(at: map<Word, Node>, words: seq<Word>, w: Word, i: nat, d: int, q: Word, p: Word)
    requires TallyRest(at, words, w, i, d, q) && p != q
    ensures TallyNode(Child(at, p), words, w, i, d, p)
  {
  }

  lemma IsRest(at: map<Word, Node>, words: seq<Word>, w: Word, i: nat, d: int, q: Word)
    requires forall p {:trigger Child(at, p)} :: p != q ==> TallyNode(Child(at, p), words, w, i, d, p)
    ensures TallyRest(at, words, w, i, d, q)
  {
  }

  lemma IsTally(at: map<Word, Node>, words: seq<Word>, w: Word, i: nat, d: int, q: Word)
    requires TallyRest(at, words, w, i, d, q) && TallyNode(Child(at, q), words, w, i, d, q)
    ensures Tally(at, words, w, i, d)
  {
  }

  lemma PresentIsUntouched(at: map<Word, Node>, words: seq<Word>, w: Word, i: nat, d: int)
    requires i < |w| && Tally(at, words, w, i, d) && w[..i + 1] in at
    ensures Untouched(at[w[..i + 1]], words, w[..i + 1]) && TallyRest(at, words, w, i, d, w[..i + 1])
  {
    TallyFor(at, words, w, i, d, w[..i + 1]);
    DueNext(words, w, i, d, w[..i + 1]);
    hide Due;
    assert TallyNode(at[w[..i + 1]], words, w, i, d, w[..i + 1]);
  }

  lemma ChildDiffers(at: map<Word, Node>, q: Word, p: Word)
    requires Distinct(at) && q in at && p != q
    ensures Child(at, p) != at[q]
  {
  }

  /** A child's pass count goes up or down by one. */
  method Touch(ghost at: map<Word, Node>, node: Node, ghost words: seq<Word>, ghost w: Word, ghost i: nat, d: int)
    requires i < |w| && w[..i + 1] in at && at[w[..i + 1]] == node && Distinct(at)
    requires TallyRest(at, words, w, i, d, w[..i + 1]) && Untouched(node, words, w[..i + 1])
    modifies node`pass
    ensures TallyRest(at, words, w, i + 1, d, w[..i + 1])
    ensures node.pass == old(node.pass) + d == Due(words, w, i + 1, d, w[..i + 1])
    ensures node.pass > 0 ==> Tally(at, words, w, i + 1, d)
  {
    ghost var q := w[..i + 1];
    assert Child(at, q) == node;
    hide TallyNode, Tally, TallyRest, Child, Distinct, Prefixed, Due, Untouched;
    forall p | p != q ensures TallyNode(Child(at, p), words, w, i, d, p) && Child(at, p) != node {
      RestFor(at, words, w, i, d, q, p);
      ChildDiffers(at, q, p);
    }
    TouchNode(node, words, w, i, d);
    forall p | p != q ensures TallyNode(Child(at, p), words, w, i + 1, d, p) {
      TallyOther(Child(at, p), words, w, i, d, p);
    }
    IsRest(at, words, w, i + 1, d, q);
    if node.pass > 0 {
      IsTally(at, words, w, i + 1, d, q);
    }
  }

  /** The root's own pass count: insertions leave it alone and deletions lower it. */
  ghost function RootPass(at: map<Word, Node>): int
    reads at.Values`pass
  {
    if [] in at then at[[]].pass else 0
  }

  lemma NotTheRoot(at: map<Word, Node>, q: Word)
    requires Distinct(at) && q in at && q != []
    ensures [] in at ==> at[[]] != at[q]
  {
  }

  // ----- one letter of insert

  ghost function Objects(at: map<Word, Node>): set<object> {
    at.Values + Arrays(at)
  }

  lemma AbsentIsZero(at: map<Word, Node>, words: seq<Word>, w: Word, i: nat, d: int)
    requires i < |w| && Tally(at, words, w, i, d) && w[..i + 1] !in at
    ensures Prefixed(words, w[..i + 1]) == 0 && Count(words, w[..i + 1]) == 0
  {
    TallyFor(at, words, w, i, d, w[..i + 1]);
    DueNext(words, w, i, d, w[..i + 1]);
    LongerIsRarer(words, w[..i + 1], w[..i + 1]);
  }

  lemma AttachedTally(at: map<Word, Node>, at': map<Word, Node>, m: Node, words: seq<Word>, w: Word, i: nat, d: int)
    requires i < |w| && Tally(at, words, w, i, d) && w[..i + 1] !in at && at' == at[w[..i + 1] := m]
    requires m.pass == 0 && m.end == 0
    ensures Untouched(m, words, w[..i + 1]) && TallyRest(at', words, w, i, d, w[..i + 1])
  {
    AbsentIsZero(at, words, w, i, d);
    hide TallyNode;
    forall p | p != w[..i + 1] ensures TallyNode(Child(at', p), words, w, i, d, p) {
      TallyFor(at, words, w, i, d, p);
      assert Child(at', p) == Child(at, p);
    }
    IsRest(at', words, w, i, d, w[..i + 1]);
  }

  lemma Separated(at: map<Word, Node>)
    requires Linked(at)
    ensures Distinct(at) && Separate(at)
  {
  }

  ghost predicate Reached(at: map<Word, Node>, node: Node, w: Word, i: nat) {
    i <= |w| && w[..i] in at && at[w[..i]] == node
  }

  lemma NextPrefix(w: Word, i: nat)
    requires i < |w|
    ensures w[..i] + [w[i]] == w[..i + 1] && w[..i + 1] != []
  {
  }

  /** Makes sure the child for the next letter exists. */
  method Extend(ghost at: map<Word, Node>, node: Node, ghost words: seq<Word>, w: Word, i: nat)
      returns (next: Node, ghost at': map<Word, Node>)
    requires Linked(at) && Tally(at, words, w, i, 1) && i < |w| && Reached(at, node, w, i)
    modifies node.nexts
    ensures Linked(at') && Reached(at', next, w, i + 1)
    ensures TallyRest(at', words, w, i, 1, w[..i + 1]) && Untouched(next, words, w[..i + 1])
    ensures at' == at || (fresh(next) && fresh(next.nexts) && at' == at[w[..i + 1] := next])
    ensures Child(at', []) == Child(at, [])
  {
    NextPrefix(w, i);
    ChildOf(at, w[..i], w[i]);
    at' := at;
    hide Linked, Tally, TallyRest, Untouched;
    if node.nexts[Index(w[i])] == null {
      next, at' := Attach(at, node, w[..i], w[i]);
      AttachedTally(at, at', next, words, w, i, 1);
    } else {
      next := node.nexts[Index(w[i])];
      PresentIsUntouched(at, words, w, i, 1);
    }
  }

  lemma ReachedObjects(at: map<Word, Node>, node: Node, w: Word, i: nat)
    requires Reached(at, node, w, i)
    ensures node in Objects(at) && node.nexts in Objects(at) && at.Values <= Objects(at)
    ensures i <= |w| && w[..i] in at && at[w[..i]] == node
  {
    assert node.nexts in Arrays(at);
  }

  /** One turn of insert's loop. */
  method InsertLetter(ghost at: map<Word, Node>, node: Node, ghost words: seq<Word>, w: Word, i: nat)
      returns (next: Node, ghost at': map<Word, Node>)
    requires Linked(at) && Tally(at, words, w, i, 1) && i < |w| && Reached(at, node, w, i)
    modifies Objects(at)
    ensures Linked(at') && Tally(at', words, w, i + 1, 1) && Reached(at', next, w, i + 1)
    ensures fresh(Objects(at') - Objects(at)) && Child(at', []) == Child(at, [])
    ensures RootPass(at') == old(RootPass(at))
  {
    assert node.nexts in Arrays(at) && node in at.Values;
    next, at' := Extend(at, node, words, w, i);
    Separated(at');
    assert next.pass >= 0;
    NotTheRoot(at', w[..i + 1]);
    hide Linked, Tally, TallyRest, Distinct;
    assert at' == at ==> next in at.Values;
    Touch(at', next, words, w, i, 1);
  }

  // ----- one letter of del

  /** Nothing is being walked. */
  ghost predicate Plain(at: map<Word, Node>, words: seq<Word>)
    reads at.Values
  {
    Tally(at, words, [], 0, 0)
  }

  /** words' holds w d times more. */
  ghost predicate Changed(words: seq<Word>, words': seq<Word>, w: Word, d: int) {
    forall p {:trigger Prefixed(words', p)} {:trigger Count(words', p)} ::
      && Prefixed(words', p) == Prefixed(words, p) + (if HasPrefix(w, p) then d else 0)
      && Count(words', p) == Count(words, p) + if p == w then d else 0
  }

  lemma StartNode(n: Node?, words: seq<Word>, w: Word, d: int, p: Word)
    requires TallyNode(n, words, [], 0, 0, p)
    ensures TallyNode(n, words, w, 0, d, p)
  {
  }

  lemma StartWalk(at: map<Word, Node>, words: seq<Word>, w: Word, d: int)
    requires Plain(at, words)
    ensures Tally(at, words, w, 0, d)
  {
    hide TallyNode;
    forall p ensures TallyNode(Child(at, p), words, w, 0, d, p) {
      TallyFor(at, words, [], 0, 0, p);
      StartNode(Child(at, p), words, w, d, p);
    }
  }

  lemma PrefixesNest(w: Word, p: Word, k: nat)
    requires k <= |w|
    ensures HasPrefix(w, p) && k <= |p| ==> HasPrefix(p, w[..k])
  {
    assert k <= |p| <= |w| ==> w[..|p|][..k] == w[..k];
  }

  lemma CutNode(at: map<Word, Node>, words: seq<Word>, words': seq<Word>, w: Word, i: nat, p: Word)
    requires i < |w| && Changed(words, words', w, -1) && Due(words, w, i + 1, -1, w[..i + 1]) == 0
    requires p != w[..i + 1] ==> TallyNode(Child(at, p), words, w, i + 1, -1, p)
    ensures TallyNode(Child(Without(at, w[..i + 1]), p), words', [], 0, 0, p)
  {
    var q := w[..i + 1];
    if HasPrefix(p, q) {
      LongerIsRarer(words', p, q);
    } else {
      PrefixesNest(w, p, i + 1);
      assert Child(Without(at, q), p) == Child(at, p);
    }
  }

  lemma CutTally(at: map<Word, Node>, at': map<Word, Node>, words: seq<Word>, words': seq<Word>, w: Word, i: nat)
    requires i < |w| && Changed(words, words', w, -1) && Due(words, w, i + 1, -1, w[..i + 1]) == 0
    requires TallyRest(at, words, w, i + 1, -1, w[..i + 1]) && at' == Without(at, w[..i + 1])
    ensures Plain(at', words')
  {
    hide TallyNode, Changed, Due, Without;
    forall p ensures TallyNode(Child(at', p), words', [], 0, 0, p) {
      if p != w[..i + 1] {
        RestFor(at, words, w, i + 1, -1, w[..i + 1], p);
      }
      CutNode(at, words, words', w, i, p);
    }
  }

  lemma WordIsPresent(at: map<Word, Node>, words: seq<Word>, w: Word, i: nat)
    requires i < |w| && Tally(at, words, w, i, -1) && Count(words, w) > 0
    ensures w[..i + 1] in at
  {
    TallyFor(at, words, w, i, -1, w[..i + 1]);
    DueNext(words, w, i, -1, w[..i + 1]);
    LongerIsRarer(words, w, w[..i + 1]);
  }

  /** Takes one from the next letter's pass count. */
  method Leave(ghost at: map<Word, Node>, node: Node, ghost words: seq<Word>, w: Word, i: nat) returns (next: Node)
    requires Linked(at) && Tally(at, words, w, i, -1) && i < |w| && Reached(at, node, w, i) && Count(words, w) > 0
    modifies at.Values
    ensures Linked(at) && Reached(at, next, w, i + 1) && TallyRest(at, words, w, i + 1, -1, w[..i + 1])
    ensures next.pass > 0 ==> Tally(at, words, w, i + 1, -1)
    ensures next.pass == 0 ==> Due(words, w, i + 1, -1, w[..i + 1]) == 0
    ensures next.pass >= 0 && RootPass(at) == old(RootPass(at))
  {
    NextPrefix(w, i);
    ChildOf(at, w[..i], w[i]);
    WordIsPresent(at, words, w, i);
    LongerIsRarer(words, w, w[..i + 1]);
    next := node.nexts[Index(w[i])];
    PresentIsUntouched(at, words, w, i, -1);
    Separated(at);
    assert next in at.Values && next.pass > 0;
    NotTheRoot(at, w[..i + 1]);
    hide Linked, Tally, TallyRest, Distinct, Due, Untouched;
    Touch(at, next, words, w, i, -1);
  }

  /** One turn of del's loop: either the branch is cut and nothing is left to do, or the walk goes on. */
  method DeleteLetter(ghost at: map<Word, Node>, node: Node, ghost words: seq<Word>, ghost words': seq<Word>, w: Word,
                      i: nat)
      returns (next: Node, done: bool, ghost at': map<Word, Node>)
    requires Linked(at) && Tally(at, words, w, i, -1) && i < |w| && Reached(at, node, w, i) && Count(words, w) > 0
    requires Changed(words, words', w, -1)
    modifies Objects(at)
    ensures Linked(at') && Objects(at') <= Objects(at) && Child(at', []) == Child(at, [])
    ensures if done then Plain(at', words') else Tally(at', words, w, i + 1, -1) && Reached(at', next, w, i + 1)
    ensures RootPass(at') == old(RootPass(at))
  {
    hide *;
    ReachedObjects(at, node, w, i);
    at' := at;
    next := Leave(at, node, words, w, i);
    done := next.pass == 0;
    if done {
      NextPrefix(w, i);
      at' := Cut(at, node, w[..i], w[i]);
      CutTally(at, at', words, words', w, i);
      WithoutObjects(at, w[..i + 1]);
    }
  }

  lemma WithoutObjects(at: map<Word, Node>, q: Word)
    requires q != []
    ensures Objects(Without(at, q)) <= Objects(at) && Child(Without(at, q), []) == Child(at, [])
    ensures RootPass(Without(at, q)) == RootPass(at)
  {
  }

  // ----- the end of a walk

  lemma FinishNode(n: Node?, words: seq<Word>, words': seq<Word>, w: Word, d: int, p: Word)
    requires TallyNode(n, words, w, |w|, d, p) && Changed(words, words', w, d) && p != w
    ensures TallyNode(n, words', [], 0, 0, p)
  {
  }

  method FinishWord(node: Node, ghost words: seq<Word>, ghost words': seq<Word>, ghost w: Word, d: int)
    requires TallyNode(node, words, w, |w|, d, w) && Changed(words, words', w, d)
    modifies node`end
    ensures TallyNode(node, words', [], 0, 0, w)
  {
    node.end := node.end + d;
  }

  /** The word's own end count goes up or down by one. */
  method Finish(ghost at: map<Word, Node>, node: Node, ghost words: seq<Word>, ghost words': seq<Word>, ghost w: Word,
                d: int)
    requires Linked(at) && Tally(at, words, w, |w|, d) && Reached(at, node, w, |w|) && Changed(words, words', w, d)
    modifies node`end
    ensures Linked(at) && Plain(at, words')
  {
    Separated(at);
    assert w[..|w|] == w && Child(at, w) == node;
    hide TallyNode, Tally, Child, Distinct, Changed, Linked;
    forall p ensures TallyNode(Child(at, p), words, w, |w|, d, p) && (p != w ==> Child(at, p) != node) {
      TallyFor(at, words, w, |w|, d, p);
      if p != w {
        ChildDiffers(at, w, p);
      }
    }
    FinishWord(node, words, words', w, d);
    forall p ensures TallyNode(Child(at, p), words', [], 0, 0, p) {
      if p != w {
        FinishNode(Child(at, p), words, words', w, d, p);
      }
    }
    IsPlain(at, words');
  }

  lemma IsPlain(at: map<Word, Node>, words: seq<Word>)
    requires forall p {:trigger Child(at, p)} :: TallyNode(Child(at, p), words, [], 0, 0, p)
    ensures Plain(at, words)
  {
  }

  // ----- whole words

  method InsertWord(ghost at: map<Word, Node>, root: Node, ghost words: seq<Word>, str: Word)
      returns (ghost at': map<Word, Node>)
    requires Linked(at) && Plain(at, words) && Child(at, []) == root && str != []
    modifies Objects(at)
    ensures Linked(at') && Plain(at', words + [str]) && Child(at', []) == root && fresh(Objects(at') - Objects(at))
    ensures RootPass(at') == old(RootPass(at))
  {
    StartWalk(at, words, str, 1);
    RootReached(at, root, str);
    hide *;
    at' := at;
    var node := root;
    for i := 0 to |str|
      invariant Linked(at') && Tally(at', words, str, i, 1) && Reached(at', node, str, i)
      invariant fresh(Objects(at') - Objects(at)) && Child(at', []) == root && RootPass(at') == old(RootPass(at))
    {
      node, at' := InsertLetter(at', node, words, str, i);
    }
    ReachedObjects(at', node, str, |str|);
    Inserted(words, str);
    Finish(at', node, words, words + [str], str, 1);
  }

  /** The root's own pass count, which nobody reads, goes down with every deletion. */
  method LeaveRoot(ghost at: map<Word, Node>, root: Node, ghost words: seq<Word>)
    requires Linked(at) && Plain(at, words) && Child(at, []) == root
    modifies root`pass
    ensures Linked(at) && Plain(at, words) && RootPass(at) == old(RootPass(at)) - 1
  {
    Separated(at);
    hide TallyNode, Plain, Child, Distinct, Linked;
    forall p ensures TallyNode(Child(at, p), words, [], 0, 0, p) && (p != [] ==> Child(at, p) != root) {
      PlainFor(at, words, p);
      if p != [] {
        RootDiffers(at, root, p);
      }
    }
    LowerPass(root, words);
    IsPlain(at, words);
  }

  method LowerPass(root: Node, ghost words: seq<Word>)
    requires TallyNode(root, words, [], 0, 0, [])
    modifies root`pass
    ensures TallyNode(root, words, [], 0, 0, []) && root.pass == old(root.pass) - 1
  {
    root.pass := root.pass - 1;
  }

  method DeleteWord(ghost at: map<Word, Node>, root: Node, ghost words: seq<Word>, str: Word)
      returns (ghost at': map<Word, Node>)
    requires Linked(at) && Plain(at, words) && Child(at, []) == root && str != [] && Count(words, str) > 0
    modifies Objects(at)
    ensures Linked(at') && Plain(at', RemoveOne(words, str)) && Child(at', []) == root && Objects(at') <= Objects(at)
    ensures RootPass(at') == old(RootPass(at)) - 1
  {
    hide *;
    RootReached(at, root, str);
    LeaveRoot(at, root, words);
    StartWalk(at, words, str, -1);
    Removed(words, str);
    at' := at;
    ghost var words' := RemoveOne(words, str);
    var node := root;
    for i := 0 to |str|
      invariant Linked(at') && Tally(at', words, str, i, -1) && Reached(at', node, str, i)
      invariant Objects(at') <= Objects(at) && Child(at', []) == root && RootPass(at') == old(RootPass(at)) - 1
    {
      var done;
      node, done, at' := DeleteLetter(at', node, words, words', str, i);
      if done {
        return;
      }
    }
    ReachedObjects(at', node, str, |str|);
    Finish(at', node, words, words', str, -1);
  }

  lemma PlainFor(at: map<Word, Node>, words: seq<Word>, p: Word)
    requires Plain(at, words)
    ensures TallyNode(Child(at, p), words, [], 0, 0, p)
  {
    TallyFor(at, words, [], 0, 0, p);
  }

  lemma RootDiffers(at: map<Word, Node>, root: Node, p: Word)
    requires Distinct(at) && Child(at, []) == root && p != []
    ensures Child(at, p) != root
  {
  }

  lemma RootReached(at: map<Word, Node>, root: Node, w: Word)
    requires Child(at, []) == root
    ensures Reached(at, root, w, 0) && root in Objects(at)
  {
    assert w[..0] == [];
  }

  lemma Inserted(words: seq<Word>, w: Word)
    ensures Changed(words, words + [w], w, 1)
  {
    forall p ensures Prefixed(words + [w], p) == Prefixed(words, p) + (if HasPrefix(w, p) then 1 else 0)
                  && Count(words + [w], p) == Count(words, p) + if p == w then 1 else 0
    {
      AppendCounts(words, w, p);
    }
  }

  lemma Removed(words: seq<Word>, w: Word)
    requires Count(words, w) > 0
    ensures Changed(words, RemoveOne(words, w), w, -1)
  {
    forall p ensures Prefixed(RemoveOne(words, w), p) == Prefixed(words, p) + (if HasPrefix(w, p) then -1 else 0)
                  && Count(RemoveOne(words, w), p) == Count(words, p) + if p == w then -1 else 0
    {
      RemoveCounts(words, w, p);
    }
  }

  // ----- the tree

  class Tire {
    const root: Node
    ghost var at: map<Word, Node>
    ghost var words: seq<Word>

    ghost predicate Valid()
      reads this, at.Values, Arrays(at)
    {
      Linked(at) && Plain(at, words) && Child(at, []) == root
    }

    lemma Parts()
      requires Valid()
      ensures Linked(at) && Plain(at, words) && Child(at, []) == root && RootPass(at) == root.pass
    {
    }

    /** Records what the tree now holds. */
    ghost method Record(a: map<Word, Node>, ws: seq<Word>)
      requires Linked(a) && Plain(a, ws) && Child(a, []) == root
      modifies this`at, this`words
      ensures Valid() && at == a && words == ws && root.pass == RootPass(a)
    {
      at, words := a, ws;
    }

    constructor ()
      ensures Valid() && words == [] && fresh(Objects(at)) && root.pass == 0
    {
      root := new Node();
      at := map[[] := root];
      words := [];
      new;
      NewTree(root, at);
    }

    method Insert(str: Word)
      requires Valid()
      modifies this, Objects(at)
      ensures Valid() && words == old(words) + (if str == [] then [] else [str])
      ensures fresh(Objects(at) - old(Objects(at))) && root.pass == old(root.pass)
    {
      if str == [] {
        return;
      }
      hide *;
      Parts();
      ghost var a := InsertWord(at, root, words, str);
      Record(a, words + [str]);
    }

    method Del(str: Word)
      requires Valid()
      modifies this, Objects(at)
      ensures Valid() && words == if str == [] then old(words) else RemoveOne(old(words), str)
      ensures fresh(Objects(at) - old(Objects(at)))
      ensures root.pass == old(root.pass) - if str != [] && Count(old(words), str) > 0 then 1 else 0
    {
      if str == [] {
        return;
      }
      hide *;
      var count := FindCount(str);
      if count == 0 {
        RemoveAbsent(words, str);
        return;
      }
      Parts();
      ghost var a := DeleteWord(at, root, words, str);
      Record(a, RemoveOne(words, str));
    }

    /** The node of the prefix str, or null. */
    method Locate(str: Word) returns (node: Node?)
      requires Valid()
      ensures node == Child(at, str)
    {
      RootReached(at, root, str);
      hide Plain, Linked, Objects;
      node := root;
      for i := 0 to |str|
        invariant node != null && Reached(at, node, str, i)
      {
        NextPrefix(str, i);
        ChildOf(at, str[..i], str[i]);
        if node.nexts[Index(str[i])] == null {
          Separated(at);
          BranchIsAbsent(at, str, i + 1);
          return null;
        }
        node := node.nexts[Index(str[i])];
      }
      assert str[..|str|] == str;
    }

    /** How often the word was inserted and not deleted. */
    method FindCount(str: Word) returns (n: int)
      requires Valid()
      ensures n == if str == [] then 0 else Count(words, str)
    {
      if str == [] {
        return 0;
      }
      var node := Locate(str);
      PlainFor(at, words, str);
      LongerIsRarer(words, str, str);
      n := if node == null then 0 else node.end;
    }

    /** How many of the words start with str. */
    method PrefixCount(str: Word) returns (n: int)
      requires Valid()
      ensures n == if str == [] then 0 else Prefixed(words, str)
    {
      if str == [] {
        return 0;
      }
      var node := Locate(str);
      PlainFor(at, words, str);
      n := if node == null then 0 else node.pass;
    }
  }

  lemma NewTree(root: Node, at: map<Word, Node>)
    requires at == map[[] := root] && root.pass == 0 && root.end == 0 && root.nexts.Length == 26
    requires forall k :: 0 <= k < 26 ==> root.nexts[k] == null
    ensures Linked(at) && Plain(at, []) && Child(at, []) == root
  {
  }

  lemma {:induction false} BranchIsAbsent(at: map<Word, Node>, w: Word, i: nat)
    requires Separate(at) && i <= |w| && w[..i] !in at
    ensures w !in at
    decreases |w| - i
  {
    if i == |w| {
      assert w[..i] == w;
    } else {
      var p := w[..i + 1];
      assert p[..|p| - 1] == w[..i];
      BranchIsAbsent(at, w, i + 1);
    }
  }
}
