/**
 The distributed lock as a transition system: the server's sequential nodes, and for every
 client its node, its fields, its outstanding calls and its armed deletion watches.  A
 children list is a snapshot that may be stale when its callback runs, and the exists call
 that follows is a separate step.
*/
module LockProtocol {
  import opened Wrappers
  import opened LockClient

  datatype Client = Client(node: nat, local: Local, calls: seq<Call>, armed: set<nat>)

  datatype State = State(counter: nat, live: set<nat>, clients: map<nat, Client>)

  datatype Step =
    | TryLock(c: nat)
    | Deliver(c: nat, i: nat, snapshot: seq<nat>)   // serve or run the i-th outstanding call
    | UnLock(c: nat)
    | Lose(c: nat)                                  // the client's session dies, its node with it

  const INIT := State(0, {}, map[])

  // ----- steps

  /** getChildren returns the live nodes in any order. */
  ghost predicate IsListing(snapshot: seq<nat>, live: set<nat>) {
    Distinct(snapshot) && forall n :: n in snapshot <==> n in live
  }

  /** unLock shares its monitor with tryLock, so it runs only once the latch is open. */
  ghost predicate Enabled(s: State, step: Step) {
    match step
    case TryLock(c) => c !in s.clients
    case Deliver(c, i, snapshot) =>
      c in s.clients && i < |s.clients[c].calls|
      && (s.clients[c].calls[i].ListRequest? ==> IsListing(snapshot, s.live))
    case UnLock(c) => c in s.clients && s.clients[c].local.open
    case Lose(c) => c in s.clients
  }

  ghost function Notify(n: nat, cl: Client): Client {
    if n in cl.armed then cl.(armed := cl.armed - {n}, calls := cl.calls + [NodeDeleted(n)]) else cl
  }

  /** The server deletes a node and fires the watches on it. */
  ghost function Delete(s: State, n: nat): State {
    if n !in s.live then s else
      State(s.counter, s.live - {n}, map d | d in s.clients :: Notify(n, s.clients[d]))
  }

  ghost function Run(cl: Client, call: Call, rest: seq<Call>, snapshot: seq<nat>, live: set<nat>): Client {
    match call
    case CreateReply(name) =>
      var (local, more) := OnCreated(cl.local, Some(name));
      cl.(local := local, calls := rest + more)
    case ListRequest => cl.(calls := rest + [ListReply(snapshot)])
    case ListReply(children) =>
      var (local, more) := OnChildren(cl.local, children);
      cl.(local := local, calls := rest + more)
    case ExistsRequest(path) =>
      cl.(local := OnExists(cl.local, path in live), calls := rest,
          armed := if path in live then cl.armed + {path} else cl.armed)
    case NodeDeleted(path) => cl.(calls := rest + OnEvent(cl.local, true))
  }

  ghost function Apply(s: State, step: Step): State
    requires Enabled(s, step)
  {
    match step
    case TryLock(c) =>
      State(s.counter + 1, s.live + {s.counter},
            s.clients[c := Client(s.counter, Local(None, false), [CreateReply(s.counter)], {})])
    case Deliver(c, i, snapshot) =>
      var cl := s.clients[c];
      s.(clients := s.clients[c := Run(cl, cl.calls[i], cl.calls[..i] + cl.calls[i + 1..], snapshot, s.live)])
    case UnLock(c) =>
      if s.clients[c].local.lockSeqName.None? then s else Delete(s, s.clients[c].local.lockSeqName.value)
    case Lose(c) => Delete(s.(clients := s.clients - {c}), s.clients[c].node)
  }

  ghost predicate Legal(s: State, steps: seq<Step>)
    decreases |steps|
  {
    steps == [] || (Enabled(s, steps[0]) && Legal(Apply(s, steps[0]), steps[1..]))
  }

  ghost function Exec(s: State, steps: seq<Step>): State
    requires Legal(s, steps)
    decreases |steps|
  {
    if steps == [] then s else Exec(Apply(s, steps[0]), steps[1..])
  }

  // ----- what is promised

  ghost predicate Holds(s: State, c: nat) {
    c in s.clients && s.clients[c].local.open && s.clients[c].node in s.live
  }

  ghost predicate Waits(s: State, c: nat) {
    c in s.clients && !s.clients[c].local.open
  }

  ghost predicate Mutex(s: State) {
    forall c, d :: Holds(s, c) && Holds(s, d) ==> c == d
  }

  /** Deleted nodes form a prefix of the creation order. */
  ghost predicate DeletedIsPrefix(s: State) {
    forall m, n :: m in s.live && m <= n < s.counter ==> n in s.live
  }

  /** Everyone past the latch precedes, or owns, the first live node. */
  ghost predicate OpenIsFirst(s: State) {
    forall c, n :: c in s.clients && s.clients[c].local.open && n in s.live ==> s.clients[c].node <= n
  }

  // ----- the invariant of all runs, whatever nodes are lost

  ghost predicate CallOk(live: set<nat>, cl: Client, call: Call) {
    match call
    case CreateReply(name) => name == cl.node && cl.local.lockSeqName.None?
    case ListReply(children) =>
      cl.local.lockSeqName == Some(cl.node) && cl.node in children
      && forall n :: n in live && n < cl.node ==> n in children
    case ExistsRequest(path) =>
      cl.local.lockSeqName == Some(cl.node) && path < cl.node
      && forall n :: n in live && n < cl.node ==> n <= path
    case _ => cl.local.lockSeqName == Some(cl.node)
  }

  /**
   A waiting client owns a live node and has exactly one thing that will wake it: an
   outstanding call, or a watch on a live earlier node.  Once open it has neither.
  */
  ghost predicate ClientOk(live: set<nat>, cl: Client) {
    if cl.local.open then
      cl.calls == [] && cl.armed == {} && cl.local.lockSeqName == Some(cl.node)
    else
      && cl.node in live
      && if cl.armed == {} then |cl.calls| == 1 && CallOk(live, cl, cl.calls[0])
         else cl.calls == [] && cl.local.lockSeqName == Some(cl.node)
              && exists p :: cl.armed == {p} && p in live && p < cl.node
  }

  ghost predicate ClientsOk(s: State) {
    && (forall c :: c in s.clients ==> ClientOk(s.live, s.clients[c]) && s.clients[c].node < s.counter)
    && (forall c, d :: c in s.clients && d in s.clients && s.clients[c].node == s.clients[d].node ==> c == d)
    && (forall n :: n in s.live ==> n < s.counter)
  }

  ghost predicate Owner(s: State, n: nat, c: nat) {
    c in s.clients && s.clients[c].node == n
  }

  ghost predicate Inv(s: State) {
    ClientsOk(s) && forall n :: n in s.live ==> exists c :: Owner(s, n, c)
  }

  lemma DeleteKeepsClient(live: set<nat>, n: nat, cl: Client)
    requires ClientOk(live, cl) && n in live
    requires cl.node == n ==> cl.local.open
    ensures ClientOk(live - {n}, Notify(n, cl))
  {
    if cl.armed != {} {
      var p :| cl.armed == {p} && p in live && p < cl.node;
      if p == n {
        assert Notify(n, cl).armed == {};
      }
    }
  }

  lemma DeleteKeepsClients(s: State, n: nat)
    requires ClientsOk(s)
    requires forall c :: Owner(s, n, c) ==> s.clients[c].local.open
    ensures ClientsOk(Delete(s, n))
    ensures forall m, c :: Owner(s, m, c) ==> Owner(Delete(s, n), m, c)
  {
    if n in s.live {
      forall c | c in s.clients
        ensures ClientOk(s.live - {n}, Notify(n, s.clients[c]))
      {
        if s.clients[c].node == n {
          assert Owner(s, n, c);
        }
        DeleteKeepsClient(s.live, n, s.clients[c]);
      }
    }
  }

  /** Serving or running a client's one outstanding call leaves it well-formed. */
  lemma RunKeepsClient(live: set<nat>, cl: Client, snapshot: seq<nat>)
    requires ClientOk(live, cl) && |cl.calls| == 1
    requires cl.calls[0].ListRequest? ==> IsListing(snapshot, live)
    ensures ClientOk(live, Run(cl, cl.calls[0], [], snapshot, live))
  {
    match cl.calls[0]
    case ListReply(children) =>
      ChildrenDecision(cl.local, children, cl.node, OnChildren(cl.local, children));
      assert [] + OnChildren(cl.local, children).1 == OnChildren(cl.local, children).1;
    case ExistsRequest(path) =>
      if path in live {
        assert Run(cl, cl.calls[0], [], snapshot, live).armed == {path};
      }
    case _ =>
  }

  lemma OneCall(s: State, c: nat, i: nat)
    requires ClientsOk(s) && c in s.clients && i < |s.clients[c].calls|
    ensures |s.clients[c].calls| == 1 && i == 0 && !s.clients[c].local.open
    ensures s.clients[c].calls[..i] + s.clients[c].calls[i + 1..] == []
  {
    assert ClientOk(s.live, s.clients[c]);
  }

  lemma TryLockKeepsInv(s: State, c: nat)
    requires Inv(s) && c !in s.clients
    ensures Inv(Apply(s, TryLock(c)))
  {
    var t := Apply(s, TryLock(c));
    forall d | d in s.clients ensures ClientOk(t.live, t.clients[d]) {
      var cl := s.clients[d];
      assert ClientOk(s.live, cl);
    }
    forall n | n in t.live ensures exists d :: Owner(t, n, d) {
      if n == s.counter {
        assert Owner(t, n, c);
      } else {
        var d :| Owner(s, n, d);
        assert Owner(t, n, d);
      }
    }
  }

  lemma DeliverKeepsInv(s: State, step: Step)
    requires Inv(s) && step.Deliver? && Enabled(s, step)
    ensures Inv(Apply(s, step))
  {
    var t := Apply(s, step);
    OneCall(s, step.c, step.i);
    RunKeepsClient(s.live, s.clients[step.c], step.snapshot);
    forall n | n in t.live ensures exists d :: Owner(t, n, d) {
      var d :| Owner(s, n, d);
      assert Owner(t, n, d);
    }
  }

  lemma RemovalKeepsInv(s: State, step: Step)
    requires Inv(s) && (step.UnLock? || step.Lose?) && Enabled(s, step)
    ensures Inv(Apply(s, step))
  {
    var t := Apply(s, step);
    var n := s.clients[step.c].node;
    var s0 := if step.Lose? then s.(clients := s.clients - {step.c}) else s;
    assert ClientOk(s.live, s.clients[step.c]);
    DeleteKeepsClients(s0, n);
    forall m | m in t.live ensures exists d :: Owner(t, m, d) {
      var d :| Owner(s, m, d);
      assert Owner(s0, m, d);
    }
  }

  lemma StepKeepsInv(s: State, step: Step)
    requires Inv(s) && Enabled(s, step)
    ensures Inv(Apply(s, step))
  {
    match step
    case TryLock(c) => TryLockKeepsInv(s, c);
    case Deliver(_, _, _) => DeliverKeepsInv(s, step);
    case _ => RemovalKeepsInv(s, step);
  }
}
