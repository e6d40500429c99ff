/** Topological sorting by in-degrees: which nodes it lists, and in which order. */
module TopologicalSort {
  import opened Graphs

  // ----- cycles

  ghost predicate HasEdge(matrix: seq<Row>, u: int, v: int) {
    exists i :: 0 <= i < |matrix| && matrix[i].from == u && matrix[i].to == v
  }

  ghost predicate IsPath(matrix: seq<Row>, p: seq<int>) {
    forall k :: 0 <= k && k + 1 < |p| ==> HasEdge(matrix, p[k], p[k + 1])
  }

  /** p goes around a cycle in its first k steps and then on to v. */
  ghost predicate FromCycle(matrix: seq<Row>, p: seq<int>, k: int, v: int) {
    1 <= k < |p| && IsPath(matrix, p) && p[0] == p[k] && p[|p| - 1] == v
  }

  /** v is on a cycle or downstream of one. */
  ghost predicate Stuck(matrix: seq<Row>, v: int) {
    exists p, k :: FromCycle(matrix, p, k, v)
  }

  ghost predicate NoRepeats(s: seq<int>) {
    forall i, j :: 0 <= i < j < |s| ==> s[i] != s[j]
  }

  /** Every node listed comes after all nodes with an edge to it. */
  ghost predicate InOrder(matrix: seq<Row>, result: seq<int>) {
    forall u, b :: 0 <= b < |result| && HasEdge(matrix, u, result[b]) ==> u in result[..b]
  }

  /** The listed nodes are just those all of whose predecessors are listed. */
  ghost predicate Complete(matrix: seq<Row>, nodes: set<int>, result: seq<int>) {
    && (forall v :: v in result ==> v in nodes)
    && forall v :: v in nodes && v !in result ==> Blocked(matrix, result, v)
  }

  ghost predicate Blocked(matrix: seq<Row>, result: seq<int>, v: int) {
    exists u :: HasEdge(matrix, u, v) && u !in result
  }

  /** Along a path into the list, positions go up. */
  lemma {:induction false} PathClimbs(matrix: seq<Row>, result: seq<int>, p: seq<int>, k: nat, b: nat)
      returns (a: nat)
    requires InOrder(matrix, result) && IsPath(matrix, p) && k < |p| && b < |result| && result[b] == p[|p| - 1]
    ensures a < |result| && result[a] == p[k] && (if k == |p| - 1 then a == b else a < b)
    decreases |p| - k
  {
    if k == |p| - 1 {
      a := b;
    } else {
      var c := PathClimbs(matrix, result, p, k + 1, b);
      assert HasEdge(matrix, p[k], result[c]);
      assert p[k] in result[..c];
      a :| 0 <= a < c && result[a] == p[k];
    }
  }

  lemma {:induction false} PathClimbsBetween(matrix: seq<Row>, result: seq<int>, p: seq<int>, j: nat, k: nat, c: nat)
      returns (a: nat)
    requires InOrder(matrix, result) && IsPath(matrix, p) && j < k < |p| && c < |result| && result[c] == p[k]
    ensures a < c && result[a] == p[j]
  {
    var q := p[..k + 1];
    assert IsPath(matrix, q);
    a := PathClimbs(matrix, result, q, j, c);
  }

  lemma ListedIsFree(matrix: seq<Row>, result: seq<int>, v: int)
    requires InOrder(matrix, result) && NoRepeats(result) && v in result
    ensures !Stuck(matrix, v)
  {
    if Stuck(matrix, v) {
      var p, k :| FromCycle(matrix, p, k, v);
      var b :| 0 <= b < |result| && result[b] == v;
      var c := PathClimbs(matrix, result, p, k, b);
      var a := PathClimbsBetween(matrix, result, p, 0, k, c);
    }
  }

  /** Going back from a blocked node never leaves the blocked nodes. */
  lemma {:induction false} GoBack(matrix: seq<Row>, nodes: set<int>, result: seq<int>, v: int, n: nat)
      returns (p: seq<int>)
    requires Complete(matrix, nodes, result) && v in nodes && v !in result
    requires forall u, w :: HasEdge(matrix, u, w) ==> u in nodes
    ensures |p| == n + 1 && IsPath(matrix, p) && p[n] == v && forall x :: x in p ==> x in nodes && x !in result
    decreases n
  {
    hide HasEdge;
    if n == 0 {
      p := [v];
    } else {
      assert Blocked(matrix, result, v);
      var u :| HasEdge(matrix, u, v) && u !in result;
      var q := GoBack(matrix, nodes, result, u, n - 1);
      p := q + [v];
      LongerPath(matrix, q, v);
    }
  }

  lemma LongerPath(matrix: seq<Row>, q: seq<int>, v: int)
    requires q != [] && IsPath(matrix, q) && HasEdge(matrix, q[|q| - 1], v)
    ensures IsPath(matrix, q + [v])
  {
  }

  lemma {:induction false} Repetition(p: seq<int>, s: set<int>) returns (i: nat, j: nat)
    requires |p| > |s| && forall x :: x in p ==> x in s
    ensures i < j < |p| && p[i] == p[j]
  {
    var last := p[|p| - 1];
    if k: nat :| k < |p| - 1 && p[k] == last {
      i, j := k, |p| - 1;
    } else {
      var q := p[..|p| - 1];
      i, j := Repetition(q, s - {last});
    }
  }

  lemma UnlistedIsStuck(matrix: seq<Row>, nodes: set<int>, result: seq<int>, v: int)
    requires Complete(matrix, nodes, result) && v in nodes && v !in result
    requires forall u, w :: HasEdge(matrix, u, w) ==> u in nodes
    ensures Stuck(matrix, v)
  {
    var p := GoBack(matrix, nodes, result, v, |nodes|);
    var i, j := Repetition(p, nodes);
    var q := p[i..];
    assert IsPath(matrix, q);
    assert FromCycle(matrix, q, j - i, v);
  }

  // ----- layers

  /** k edges lead into v one after the other. */
  ghost predicate WalkInto(matrix: seq<Row>, v: int, k: nat) {
    exists p :: IsWalkInto(matrix, p, v, k)
  }

  ghost predicate IsWalkInto(matrix: seq<Row>, p: seq<int>, v: int, k: nat) {
    |p| == k + 1 && p[k] == v && IsPath(matrix, p)
  }

  lemma StepBack(matrix: seq<Row>, v: int, k: nat) returns (u: int)
    requires WalkInto(matrix, v, k + 1)
    ensures HasEdge(matrix, u, v) && WalkInto(matrix, u, k)
  {
    var p :| IsWalkInto(matrix, p, v, k + 1);
    u := p[k];
    assert IsWalkInto(matrix, p[..k + 1], u, k);
  }

  lemma StepOn(matrix: seq<Row>, u: int, v: int, k: nat)
    requires HasEdge(matrix, u, v) && WalkInto(matrix, u, k)
    ensures WalkInto(matrix, v, k + 1)
  {
    var p :| IsWalkInto(matrix, p, u, k);
    LongerPath(matrix, p, v);
    assert IsWalkInto(matrix, p + [v], v, k + 1);
  }

  lemma EmptyWalk(matrix: seq<Row>, v: int)
    ensures WalkInto(matrix, v, 0)
  {
    assert IsWalkInto(matrix, [v], v, 0);
  }

  /** The longest walk into v is no shorter than the longest into u. */
  ghost predicate NoDeeper(matrix: seq<Row>, u: int, v: int) {
    forall k: nat :: WalkInto(matrix, u, k) ==> WalkInto(matrix, v, k)
  }

  /** Walks into v are at most one edge longer than the longest into the last node listed, and before that empty. */
  ghost predicate NextLayer(matrix: seq<Row>, result: seq<int>, v: int) {
    forall k: nat :: k > 0 && WalkInto(matrix, v, k) ==> result != [] && WalkInto(matrix, result[|result| - 1], k - 1)
  }

  ghost predicate ByDepth(matrix: seq<Row>, s: seq<int>) {
    forall i, j :: 0 <= i < j < |s| ==> NoDeeper(matrix, s[i], s[j])
  }

  /** Nodes come by depth, and the queue goes one layer further than the list. */
  ghost predicate Layered(matrix: seq<Row>, result: seq<int>, queue: seq<int>) {
    ByDepth(matrix, result + queue) && forall v :: v in queue ==> NextLayer(matrix, result, v)
  }

  lemma NoWalkInto(matrix: seq<Row>, v: int, k: nat)
    requires k > 0 && forall u :: !HasEdge(matrix, u, v)
    ensures !WalkInto(matrix, v, k)
  {
    if WalkInto(matrix, v, k) {
      var u := StepBack(matrix, v, k - 1);
    }
  }

  lemma LayersStart(matrix: seq<Row>, queue: seq<int>)
    requires forall u, v :: v in queue ==> !HasEdge(matrix, u, v)
    ensures Layered(matrix, [], queue)
  {
    forall v | v in queue ensures NextLayer(matrix, [], v) {
      forall k: nat | k > 0 ensures !WalkInto(matrix, v, k) {
        NoWalkInto(matrix, v, k);
      }
    }
    assert [] + queue == queue;
    forall i, j | 0 <= i < j < |queue| ensures NoDeeper(matrix, queue[i], queue[j]) {
      forall k: nat | WalkInto(matrix, queue[i], k) ensures WalkInto(matrix, queue[j], k) {
        EmptyWalk(matrix, queue[j]);
        if k > 0 {
          NoWalkInto(matrix, queue[i], k);
        }
      }
    }
  }

  lemma LayersPoll(matrix: seq<Row>, result: seq<int>, queue: seq<int>)
    requires Layered(matrix, result, queue) && queue != []
    ensures Layered(matrix, result + [queue[0]], queue[1..])
  {
    var s, u, longer := result + queue, queue[0], result + [queue[0]];
    assert longer + queue[1..] == s && s[|result|] == u;
    forall v | v in queue[1..] ensures NextLayer(matrix, longer, v) {
      assert NextLayer(matrix, result, v);
      forall k: nat | k > 0 && WalkInto(matrix, v, k) ensures WalkInto(matrix, u, k - 1) {
        assert s[|result| - 1] == result[|result| - 1];
        assert NoDeeper(matrix, s[|result| - 1], s[|result|]);
      }
    }
  }

  /** All edges into v come from the list and one from its end: v is exactly one layer below. */
  lemma LayersQueue(matrix: seq<Row>, result: seq<int>, queue: seq<int>, v: int)
    requires Layered(matrix, result, queue) && result != [] && HasEdge(matrix, result[|result| - 1], v)
    requires forall w :: HasEdge(matrix, w, v) ==> w in result
    ensures Layered(matrix, result, queue + [v])
  {
    var s, u := result + queue, result[|result| - 1];
    assert s[|result| - 1] == u && result + (queue + [v]) == s + [v];
    forall k: nat | k > 0 && WalkInto(matrix, v, k) ensures WalkInto(matrix, u, k - 1) {
      var w := StepBack(matrix, v, k - 1);
      var a :| 0 <= a < |result| && result[a] == w;
      assert s[a] == w && (a < |result| - 1 ==> NoDeeper(matrix, s[a], s[|result| - 1]));
    }
    forall i | 0 <= i < |s| ensures NoDeeper(matrix, s[i], v) {
      forall k: nat | WalkInto(matrix, s[i], k) ensures WalkInto(matrix, v, k) {
        EmptyWalk(matrix, v);
        if k > 0 {
          AtMostOneBelow(matrix, result, queue, i, k);
          StepOn(matrix, u, v, k - 1);
        }
      }
    }
  }

  lemma AtMostOneBelow(matrix: seq<Row>, result: seq<int>, queue: seq<int>, i: nat, k: nat)
    requires Layered(matrix, result, queue) && result != [] && i < |result + queue|
    requires k > 0 && WalkInto(matrix, (result + queue)[i], k)
    ensures WalkInto(matrix, result[|result| - 1], k - 1)
  {
    var s := result + queue;
    if i < |result| {
      assert s[|result| - 1] == result[|result| - 1];
      assert i < |result| - 1 ==> NoDeeper(matrix, s[i], s[|result| - 1]);
      ShorterWalk(matrix, result[|result| - 1], k - 1);
    } else {
      assert s[i] == queue[i - |result|] && s[i] in queue;
    }
  }

  lemma ShorterWalk(matrix: seq<Row>, v: int, k: nat)
    requires WalkInto(matrix, v, k + 1)
    ensures WalkInto(matrix, v, k)
  {
    var p :| IsWalkInto(matrix, p, v, k + 1);
    assert IsWalkInto(matrix, p[1..], v, k);
  }

  // ----- counting the edges still to come

  /** How many of the first n rows lead to v from a node not yet listed. */
  ghost function Open(matrix: seq<Row>, n: nat, listed: set<int>, v: int): nat
    requires n <= |matrix|
  {
    if n == 0 then 0
    else Open(matrix, n - 1, listed, v) + if matrix[n - 1].to == v && matrix[n - 1].from !in listed then 1 else 0
  }

  lemma {:induction false} OpenMeans(matrix: seq<Row>, n: nat, listed: set<int>, v: int)
    requires n <= |matrix|
    ensures Open(matrix, n, listed, v) == 0 <==>
            forall i :: 0 <= i < n && matrix[i].to == v ==> matrix[i].from in listed
  {
    if n > 0 {
      OpenMeans(matrix, n - 1, listed, v);
    }
  }

  lemma {:induction false} NothingListed(matrix: seq<Row>, n: nat, v: int)
    requires n <= |matrix|
    ensures Open(matrix, n, {}, v) == Entering(matrix, n, v)
  {
    if n > 0 {
      NothingListed(matrix, n - 1, v);
    }
  }

  ghost function Times(s: seq<int>, v: int): nat {
    if s == [] then 0 else Times(s[..|s| - 1], v) + if s[|s| - 1] == v then 1 else 0
  }

  /** Listing u closes exactly the edges in its list of targets. */
  lemma {:induction false} ListOne(matrix: seq<Row>, n: nat, listed: set<int>, u: int, v: int)
    requires n <= |matrix| && u !in listed
    ensures Open(matrix, n, listed, v) == Open(matrix, n, listed + {u}, v) + Times(Targets(Leaving(matrix, n, u)), v)
  {
    if n > 0 {
      ListOne(matrix, n - 1, listed, u, v);
      var out := Leaving(matrix, n - 1, u);
      if matrix[n - 1].from == u {
        var longer := Targets(out) + [matrix[n - 1].to];
        assert Targets(Leaving(matrix, n, u)) == longer;
        assert longer[..|longer| - 1] == Targets(out);
      } else {
        assert Leaving(matrix, n, u) == out;
      }
    }
  }

  // ----- the program

  ghost function Listed(s: seq<int>): set<int> {
    set x | x in s
  }

  /** Nodes listed or queued are exactly those with no open edge to them. */
  ghost predicate Queued(nodes: set<int>, counts: map<int, int>, result: seq<int>, queue: seq<int>) {
    && NoRepeats(result + queue) && counts.Keys == nodes
    && (forall v :: v in result || v in queue ==> v in nodes)
    && forall v :: v in nodes ==> (counts[v] == 0 <==> v in result || v in queue)
  }

  ghost predicate Counted(matrix: seq<Row>, counts: map<int, int>, result: seq<int>) {
    forall v :: v in counts ==> counts[v] == Open(matrix, |matrix|, Listed(result), v)
  }

  /** While poll's targets are visited: the first j of them have been taken off. */
  ghost predicate Counting(matrix: seq<Row>, counts: map<int, int>, result: seq<int>, nexts: seq<int>, j: nat) {
    j <= |nexts| && forall v :: v in counts ==>
        counts[v] == Open(matrix, |matrix|, Listed(result), v) - Times(nexts[..j], v)
  }

  lemma {:induction false} TimesPrefix(s: seq<int>, j: nat, v: int)
    requires j <= |s|
    ensures Times(s[..j], v) <= Times(s, v)
    decreases |s| - j
  {
    if j == |s| {
      assert s[..j] == s;
    } else {
      assert s[..j + 1][..j] == s[..j];
      TimesPrefix(s, j + 1, v);
    }
  }

  lemma TakeOff(matrix: seq<Row>, counts: map<int, int>, result: seq<int>, nexts: seq<int>, j: nat)
    requires Counting(matrix, counts, result, nexts, j) && j < |nexts| && nexts[j] in counts
    requires forall v :: v in counts ==> Open(matrix, |matrix|, Listed(result), v) >= Times(nexts, v)
    ensures counts[nexts[j]] >= 1
    ensures Counting(matrix, counts[nexts[j] := counts[nexts[j]] - 1], result, nexts, j + 1)
  {
    assert nexts[..j + 1][..j] == nexts[..j];
    TimesPrefix(nexts, j + 1, nexts[j]);
  }

  lemma QueueOne(nodes: set<int>, counts: map<int, int>, result: seq<int>, queue: seq<int>, v: int)
    requires Queued(nodes, counts, result, queue) && v in nodes && counts[v] >= 1
    ensures Queued(nodes, counts[v := counts[v] - 1], result, if counts[v] == 1 then queue + [v] else queue)
  {
    assert v !in result + queue;
    assert result + (queue + [v]) == result + queue + [v];
  }

  lemma Polled(matrix: seq<Row>, counts: map<int, int>, result: seq<int>, queue: seq<int>, nodes: set<int>)
    requires Queued(nodes, counts, result, queue) && Counted(matrix, counts, result) && queue != []
        && InOrder(matrix, result)
    ensures Queued(nodes, counts, result + [queue[0]], queue[1..]) && InOrder(matrix, result + [queue[0]])
    ensures queue[0] !in result && queue[0] in nodes
  {
    var poll := queue[0];
    assert (result + [poll]) + queue[1..] == result + queue;
    assert (result + queue)[|result|] == poll;
    assert forall i :: 0 <= i < |result| ==> (result + queue)[i] == result[i];
    assert poll in nodes && counts[poll] == 0;
    OpenMeans(matrix, |matrix|, Listed(result), poll);
    var longer := result + [poll];
    forall u, b | 0 <= b < |longer| && HasEdge(matrix, u, longer[b]) ensures u in longer[..b] {
      if b < |result| {
        assert longer[..b] == result[..b];
      } else {
        assert longer[..b] == result;
        var i :| 0 <= i < |matrix| && matrix[i].from == u && matrix[i].to == poll;
      }
    }
  }

  lemma Released(matrix: seq<Row>, counts: map<int, int>, result: seq<int>, u: int, nexts: seq<int>)
    requires u !in result && nexts == Targets(Leaving(matrix, |matrix|, u))
    requires Counting(matrix, counts, result, nexts, |nexts|)
    ensures Counted(matrix, counts, result + [u])
  {
    assert nexts[..|nexts|] == nexts;
    assert Listed(result + [u]) == Listed(result) + {u};
    forall v | v in counts ensures counts[v] == Open(matrix, |matrix|, Listed(result + [u]), v) {
      ListOne(matrix, |matrix|, Listed(result), u, v);
    }
  }

  lemma {:induction false} EnoughOpen(matrix: seq<Row>, result: seq<int>, u: int, nexts: seq<int>)
    requires u !in result && nexts == Targets(Leaving(matrix, |matrix|, u))
    ensures forall v :: Open(matrix, |matrix|, Listed(result), v) >= Times(nexts, v)
    ensures forall j :: 0 <= j < |nexts| ==> nexts[j] in Ends(matrix, |matrix|)
  {
    forall v ensures Open(matrix, |matrix|, Listed(result), v) >= Times(nexts, v) {
      ListOne(matrix, |matrix|, Listed(result), u, v);
    }
    var out := Leaving(matrix, |matrix|, u);
    forall j | 0 <= j < |nexts| ensures nexts[j] in Ends(matrix, |matrix|) {
      LeavingIsExact(matrix, |matrix|, u, out[j]);
    }
  }

  /** Takes a listed node's edges off its targets' counts and queues those that reach zero. */
  method Release(ghost matrix: seq<Row>, counts0: map<int, int>, ghost result: seq<int>, queue0: seq<int>,
                 nexts: seq<int>, ghost before: seq<int>, ghost u: int) returns (counts: map<int, int>, queue: seq<int>)
    requires u !in before && nexts == Targets(Leaving(matrix, |matrix|, u))
    requires Queued(Ends(matrix, |matrix|), counts0, result, queue0) && Counted(matrix, counts0, before)
    requires result == before + [u] && Layered(matrix, result, queue0)
    ensures Queued(Ends(matrix, |matrix|), counts, result, queue) && Counted(matrix, counts, result)
    ensures Layered(matrix, result, queue)
  {
    counts, queue := counts0, queue0;
    ghost var nodes := Ends(matrix, |matrix|);
    EnoughOpen(matrix, before, u, nexts);
    assert Counting(matrix, counts, before, nexts, 0);
    assert counts.Keys == nodes;
    hide Queued, Counting, Counted, Leaving, Open, Ends, Layered;
    for j := 0 to |nexts|
      invariant counts.Keys == nodes && Queued(nodes, counts, result, queue)
          && Counting(matrix, counts, before, nexts, j)
      invariant Layered(matrix, result, queue)
    {
      var next := nexts[j];
      TakeOff(matrix, counts, before, nexts, j);
      QueueOne(nodes, counts, result, queue, next);
      counts := counts[next := counts[next] - 1];
      if counts[next] == 0 {
        AllListed(matrix, counts, before, nexts, j + 1, u, next);
        LayersQueue(matrix, result, queue, next);
        queue := queue + [next];
      }
    }
    Released(matrix, counts, before, u, nexts);
  }

  /** When a count reaches zero, only listed nodes have edges to that node, the last listed among them. */
  lemma AllListed(matrix: seq<Row>, counts: map<int, int>, before: seq<int>, nexts: seq<int>, j: nat, u: int, v: int)
    requires Counting(matrix, counts, before, nexts, j) && v in counts && counts[v] == 0
    requires u !in before && nexts == Targets(Leaving(matrix, |matrix|, u)) && v in nexts
    ensures HasEdge(matrix, u, v) && forall w :: HasEdge(matrix, w, v) ==> w in before + [u]
  {
    var listed := Listed(before);
    TimesPrefix(nexts, j, v);
    ListOne(matrix, |matrix|, listed, u, v);
    OpenMeans(matrix, |matrix|, listed + {u}, v);
    var out := Leaving(matrix, |matrix|, u);
    var l :| 0 <= l < |nexts| && nexts[l] == v;
    LeavingIsExact(matrix, |matrix|, u, out[l]);
    var i :| 0 <= i < |matrix| && out[l] == EdgeAt(matrix, i);
    assert matrix[i].from == u && matrix[i].to == v;
    forall w | HasEdge(matrix, w, v) ensures w in before + [u] {
      var m :| 0 <= m < |matrix| && matrix[m].from == w && matrix[m].to == v;
    }
  }

  /** Without edges into the queued nodes they are the first layer. */
  lemma FirstLayer(matrix: seq<Row>, counts: map<int, int>, queue: seq<int>)
    requires Counted(matrix, counts, []) && Queued(Ends(matrix, |matrix|), counts, [], queue)
    ensures Layered(matrix, [], queue)
  {
    forall u, v | v in queue ensures !HasEdge(matrix, u, v) {
      OpenMeans(matrix, |matrix|, Listed([]), v);
    }
    LayersStart(matrix, queue);
  }

  /** What a finished run means. */
  lemma QueueEmpty(matrix: seq<Row>, nodes: set<int>, counts: map<int, int>, result: seq<int>)
    requires Queued(nodes, counts, result, []) && Counted(matrix, counts, result)
    ensures Complete(matrix, nodes, result) && NoRepeats(result)
  {
    assert result + [] == result;
    forall v | v in nodes && v !in result ensures Blocked(matrix, result, v) {
      OpenMeans(matrix, |matrix|, Listed(result), v);
      var i :| 0 <= i < |matrix| && matrix[i].to == v && matrix[i].from !in Listed(result);
      assert HasEdge(matrix, matrix[i].from, v);
    }
  }

  /** The in-degrees, and the nodes without any, in the map's arbitrary order. */
  method InDegrees(graph: Graph, ghost matrix: seq<Row>) returns (counts: map<int, int>, queue: seq<int>)
    requires graph.Describes(matrix, |matrix|)
    ensures Queued(graph.nodes.Keys, counts, [], queue) && Counted(matrix, counts, [])
  {
    counts, queue := map[], [];
    var left := graph.nodes.Keys;
    while left != {}
      invariant left <= graph.nodes.Keys && counts.Keys == graph.nodes.Keys - left
      invariant forall v :: v in counts ==> counts[v] == Entering(matrix, |matrix|, v)
      invariant NoRepeats(queue) && forall v :: v in queue <==> v in counts && counts[v] == 0
      decreases left
    {
      assert (forall x :: x !in left) ==> left == {};
      var v :| v in left;
      assert graph.nodes[v] == NodeOf(matrix, |matrix|, v);
      counts := counts[v := graph.nodes[v].indegree];
      if graph.nodes[v].indegree == 0 {
        queue := queue + [v];
      }
      left := left - {v};
    }
    assert [] + queue == queue && Listed([]) == {};
    forall v | v in counts ensures counts[v] == Open(matrix, |matrix|, Listed([]), v) {
      NothingListed(matrix, |matrix|, v);
    }
  }

  /**
   A topological order of exactly the nodes neither on a cycle nor downstream of one, layer by
   layer: no node before one into which only shorter walks lead.
  */
  method SortedTopology(graph: Graph, ghost matrix: seq<Row>) returns (result: seq<int>)
    requires graph.Describes(matrix, |matrix|)
    ensures InOrder(matrix, result) && NoRepeats(result) && ByDepth(matrix, result)
    ensures forall v :: v in result <==> v in graph.nodes && !Stuck(matrix, v)
  {
    var counts, queue := InDegrees(graph, matrix);
    result := [];
    ghost var nodes := graph.nodes.Keys;
    assert nodes == Ends(matrix, |matrix|);
    assert InOrder(matrix, result);
    FirstLayer(matrix, counts, queue);
    hide Queued, Counted, InOrder, Ends, Leaving, Stuck, Layered, ByDepth;
    while queue != []
      invariant Queued(nodes, counts, result, queue) && Counted(matrix, counts, result) && InOrder(matrix, result)
      invariant Layered(matrix, result, queue)
      decreases nodes - Listed(result)
    {
      var poll := queue[0];
      ghost var before := result;
      Polled(matrix, counts, result, queue, nodes);
      LayersPoll(matrix, result, queue);
      queue, result := queue[1..], result + [poll];
      assert graph.nodes[poll] == NodeOf(matrix, |matrix|, poll);
      counts, queue := Release(matrix, counts, result, queue, graph.nodes[poll].nexts, before, poll);
      assert poll in nodes - Listed(before) && poll in Listed(result) && Listed(before) <= Listed(result);
    }
    QueueEmpty(matrix, nodes, counts, result);
    LayersEnd(matrix, result);
    ListIsExact(matrix, nodes, result);
  }

  lemma LayersEnd(matrix: seq<Row>, result: seq<int>)
    requires Layered(matrix, result, [])
    ensures ByDepth(matrix, result)
  {
    assert result + [] == result;
  }

  lemma ListIsExact(matrix: seq<Row>, nodes: set<int>, result: seq<int>)
    requires Complete(matrix, nodes, result) && NoRepeats(result) && InOrder(matrix, result)
    requires nodes == Ends(matrix, |matrix|)
    ensures forall v :: v in result <==> v in nodes && !Stuck(matrix, v)
  {
    forall u, w | HasEdge(matrix, u, w) ensures u in nodes {
      var i :| 0 <= i < |matrix| && matrix[i].from == u && matrix[i].to == w;
    }
    forall v ensures v in result <==> v in nodes && !Stuck(matrix, v) {
      if v in result {
        ListedIsFree(matrix, result, v);
      } else if v in nodes {
        UnlistedIsStuck(matrix, nodes, result, v);
      }
    }
  }
}
