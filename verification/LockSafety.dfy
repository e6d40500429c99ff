/**
 Mutual exclusion, acquisition order and progress of the ZooKeeper lock over whole runs,
 and exactly when the "predecessor already gone" shortcut is safe.
*/
module LockSafety {
  import opened Wrappers
  import opened LockClient
  import opened LockProtocol

  // ----- the shortcut

  /** The step answers exists with "no such node", so the client opens without listing again. */
  ghost predicate IsShortcut(s: State, step: Step) {
    step.Deliver? && Enabled(s, step)
    && var call := s.clients[step.c].calls[step.i];
       call.ExistsRequest? && call.path !in s.live
  }

  /** No node before client c's own is live. */
  ghost predicate NoneBefore(s: State, c: nat)
    requires c in s.clients
  {
    forall n :: n in s.live ==> s.clients[c].node <= n
  }

  ghost predicate Guarded(s: State, step: Step) {
    IsShortcut(s, step) ==> NoneBefore(s, step.c)
  }

  /** Every shortcut of the run is taken with no earlier node live. */
  ghost predicate GuardedRun(s: State, steps: seq<Step>)
    requires Legal(s, steps)
    decreases |steps|
  {
    steps == [] || (Guarded(s, steps[0]) && GuardedRun(Apply(s, steps[0]), steps[1..]))
  }

  ghost predicate NeverLoses(steps: seq<Step>) {
    forall i :: 0 <= i < |steps| ==> !steps[i].Lose?
  }

  // ----- one step

  /** The list branch is safe whatever was deleted since the snapshot; the shortcut needs its guard. */
  lemma RunKeepsFirst(live: set<nat>, cl: Client, snapshot: seq<nat>)
    requires ClientOk(live, cl) && |cl.calls| == 1
    requires cl.calls[0].ExistsRequest? && cl.calls[0].path !in live ==> forall n :: n in live ==> cl.node <= n
    ensures var cl' := Run(cl, cl.calls[0], [], snapshot, live);
            cl'.local.open ==> forall n :: n in live ==> cl.node <= n
  {
    match cl.calls[0]
    case ListReply(children) =>
      ChildrenDecision(cl.local, children, cl.node, OnChildren(cl.local, children));
    case _ =>
  }

  lemma DeleteKeepsFirst(s: State, n: nat)
    requires OpenIsFirst(s)
    ensures OpenIsFirst(Delete(s, n))
  {
  }

  lemma StepKeepsFirst(s: State, step: Step)
    requires Inv(s) && OpenIsFirst(s) && Enabled(s, step) && Guarded(s, step)
    ensures OpenIsFirst(Apply(s, step))
  {
    match step
    case TryLock(c) =>
    case Deliver(c, i, snapshot) =>
      OneCall(s, c, i);
      assert ClientOk(s.live, s.clients[c]);
      RunKeepsFirst(s.live, s.clients[c], snapshot);
    case UnLock(c) =>
      assert ClientOk(s.live, s.clients[c]);
      DeleteKeepsFirst(s, s.clients[c].node);
    case Lose(c) =>
      DeleteKeepsFirst(s.(clients := s.clients - {c}), s.clients[c].node);
  }

  lemma FirstIsMutex(s: State)
    requires Inv(s) && OpenIsFirst(s)
    ensures Mutex(s)
  {
  }

  /** As long as only holders' nodes go, deleted nodes form a prefix, and the guard always holds. */
  lemma PrefixGuards(s: State, step: Step)
    requires Inv(s) && DeletedIsPrefix(s) && Enabled(s, step)
    ensures Guarded(s, step)
  {
    if IsShortcut(s, step) {
      var cl := s.clients[step.c];
      OneCall(s, step.c, step.i);
      assert ClientOk(s.live, cl);
      forall n | n in s.live ensures cl.node <= n {
        assert n <= cl.calls[0].path || cl.node <= n;
      }
    }
  }

  lemma StepKeepsPrefix(s: State, step: Step)
    requires Inv(s) && OpenIsFirst(s) && DeletedIsPrefix(s) && Enabled(s, step) && !step.Lose?
    ensures DeletedIsPrefix(Apply(s, step))
  {
    if step.UnLock? {
      UnLockKeepsPrefix(s, step.c);
    } else {
      assert forall n :: n in s.live ==> n < s.counter;
      hide Inv, OpenIsFirst, Run, Delete;
    }
  }

  /** A client past its latch deletes a node no later than any live one. */
  lemma UnLockKeepsPrefix(s: State, c: nat)
    requires Inv(s) && OpenIsFirst(s) && DeletedIsPrefix(s) && Enabled(s, UnLock(c))
    ensures DeletedIsPrefix(Apply(s, UnLock(c)))
  {
    var cl := s.clients[c];
    assert ClientOk(s.live, cl);
    assert cl.local.lockSeqName == Some(cl.node);
    hide Inv, ClientOk, Notify;
  }

  // ----- whole runs

  lemma {:induction false} GuardedRunSafe(s: State, steps: seq<Step>)
    requires Inv(s) && OpenIsFirst(s) && Legal(s, steps) && GuardedRun(s, steps)
    ensures Inv(Exec(s, steps)) && OpenIsFirst(Exec(s, steps)) && Mutex(Exec(s, steps))
    decreases |steps|
  {
    if steps == [] {
      FirstIsMutex(s);
    } else {
      StepKeepsInv(s, steps[0]);
      StepKeepsFirst(s, steps[0]);
      GuardedRunSafe(Apply(s, steps[0]), steps[1..]);
    }
  }

  lemma {:induction false} HolderOnlyRunIsGuarded(s: State, steps: seq<Step>)
    requires Inv(s) && OpenIsFirst(s) && DeletedIsPrefix(s) && Legal(s, steps) && NeverLoses(steps)
    ensures GuardedRun(s, steps) && DeletedIsPrefix(Exec(s, steps))
    decreases |steps|
  {
    if steps != [] {
      PrefixGuards(s, steps[0]);
      StepKeepsInv(s, steps[0]);
      StepKeepsFirst(s, steps[0]);
      StepKeepsPrefix(s, steps[0]);
      HolderOnlyRunIsGuarded(Apply(s, steps[0]), steps[1..]);
    }
  }

  /** Any session may die at any time, as long as no shortcut is taken past a live earlier node. */
  lemma MutualExclusionWithLostSessions(steps: seq<Step>)
    requires Legal(INIT, steps) && GuardedRun(INIT, steps)
    ensures var s := Exec(INIT, steps); Mutex(s) && OpenIsFirst(s) && Inv(s)
  {
    GuardedRunSafe(INIT, steps);
  }

  /** While sessions live, only holders delete: no guard is needed, and nodes go in order. */
  lemma MutualExclusion(steps: seq<Step>)
    requires Legal(INIT, steps) && NeverLoses(steps)
    ensures GuardedRun(INIT, steps)
    ensures var s := Exec(INIT, steps); Mutex(s) && OpenIsFirst(s) && DeletedIsPrefix(s) && Inv(s)
  {
    HolderOnlyRunIsGuarded(INIT, steps);
    GuardedRunSafe(INIT, steps);
  }

  /** The run takes shortcuts past no live earlier node, by luck or because it never loses a session. */
  ghost predicate SafeRun(steps: seq<Step>)
    requires Legal(INIT, steps)
  {
    GuardedRun(INIT, steps) || NeverLoses(steps)
  }

  lemma SafeRunIsSafe(steps: seq<Step>)
    requires Legal(INIT, steps) && SafeRun(steps)
    ensures var s := Exec(INIT, steps); Inv(s) && OpenIsFirst(s)
  {
    if NeverLoses(steps) {
      MutualExclusion(steps);
    } else {
      MutualExclusionWithLostSessions(steps);
    }
  }

  lemma SafeStepIsGuarded(steps: seq<Step>, step: Step)
    requires Legal(INIT, steps) && Enabled(Exec(INIT, steps), step)
    requires (NeverLoses(steps) && !step.Lose?) || (GuardedRun(INIT, steps) && Guarded(Exec(INIT, steps), step))
    ensures SafeRun(steps) && Guarded(Exec(INIT, steps), step)
  {
    if NeverLoses(steps) {
      MutualExclusion(steps);
      PrefixGuards(Exec(INIT, steps), step);
    }
  }

  /**
   In every run: when a step opens a client's latch, every client that opened earlier has an
   earlier node and has released it, and every client with an earlier node has had its turn.
  */
  lemma AcquiresInOrder(steps: seq<Step>, step: Step, c: nat)
    requires Legal(INIT, steps) && Enabled(Exec(INIT, steps), step)
    requires (NeverLoses(steps) && !step.Lose?) || (GuardedRun(INIT, steps) && Guarded(Exec(INIT, steps), step))
    requires var s, t := Exec(INIT, steps), Apply(Exec(INIT, steps), step);
             Waits(s, c) && !Waits(t, c) && c in t.clients
    ensures var s := Exec(INIT, steps);
            && (forall d :: d in s.clients && s.clients[d].local.open ==>
                 s.clients[d].node < s.clients[c].node && s.clients[d].node !in s.live)
            && forall d :: d in s.clients && s.clients[d].node < s.clients[c].node ==> s.clients[d].local.open
  {
    SafeStepIsGuarded(steps, step);
    SafeRunIsSafe(steps);
    OpensInOrder(Exec(INIT, steps), step, c);
  }

  lemma OpensInOrder(s: State, step: Step, c: nat)
    requires Inv(s) && OpenIsFirst(s) && Enabled(s, step) && Guarded(s, step)
    requires Waits(s, c) && !Waits(Apply(s, step), c) && c in Apply(s, step).clients
    ensures forall d :: d in s.clients && s.clients[d].local.open ==>
              s.clients[d].node < s.clients[c].node && s.clients[d].node !in s.live
    ensures forall d :: d in s.clients && s.clients[d].node < s.clients[c].node ==> s.clients[d].local.open
  {
    var t := Apply(s, step);
    StepKeepsFirst(s, step);
    assert step.Deliver? && step.c == c;
    OneCall(s, c, step.i);
    assert ClientOk(s.live, s.clients[c]);
    assert t.live == s.live && t.clients[c].node == s.clients[c].node && t.clients[c].local.open;
    assert NoneBefore(s, c);
    forall d | d in s.clients && s.clients[d].node < s.clients[c].node
      ensures s.clients[d].local.open
    {
      assert ClientOk(s.live, s.clients[d]);
    }
  }

  // ----- progress

  lemma {:induction false} RunKeepsInv(s: State, steps: seq<Step>)
    requires Inv(s) && Legal(s, steps)
    ensures Inv(Exec(s, steps))
    decreases |steps|
  {
    if steps != [] {
      StepKeepsInv(s, steps[0]);
      RunKeepsInv(Apply(s, steps[0]), steps[1..]);
    }
  }

  /** In every run, sessions lost and shortcuts taken at will, a waiting client has one thing that will wake it. */
  lemma NoLostWakeUp(steps: seq<Step>, c: nat)
    requires Legal(INIT, steps) && Waits(Exec(INIT, steps), c)
    ensures var s := Exec(INIT, steps);
            var cl := s.clients[c];
            && cl.node in s.live
            && (|cl.calls| == 1 <==> cl.armed == {})
            && (cl.armed != {} ==> cl.calls == [] && exists p :: cl.armed == {p} && p in s.live && p < cl.node)
  {
    RunKeepsInv(INIT, steps);
    assert ClientOk(Exec(INIT, steps).live, Exec(INIT, steps).clients[c]);
  }

  ghost predicate OnlyDelivers(c: nat, steps: seq<Step>) {
    forall i :: 0 <= i < |steps| ==> steps[i].Deliver? && steps[i].c == c
  }

  ghost function Rank(call: Call): nat {
    match call
    case CreateReply(_) => 4
    case NodeDeleted(_) => 4
    case ListRequest => 3
    case ListReply(_) => 2
    case ExistsRequest(_) => 1
  }

  lemma ListingExists(live: set<nat>) returns (snapshot: seq<nat>)
    ensures IsListing(snapshot, live)
    decreases |live|
  {
    if live == {} {
      snapshot := [];
    } else {
      var n :| n in live;
      var rest := ListingExists(live - {n});
      snapshot := [n] + rest;
      assert forall m :: m in snapshot <==> m == n || m in rest;
    }
  }

  /** The owner of the first live node has a call outstanding; serving it brings the latch closer. */
  lemma FirstMoves(s: State, c: nat, step: Step)
    requires Inv(s) && Waits(s, c) && NoneBefore(s, c)
    requires step.Deliver? && step.c == c && step.i == 0
    requires IsListing(step.snapshot, s.live)
    ensures Enabled(s, step) && Guarded(s, step)
    ensures var cl, t := s.clients[c], Apply(s, step);
            && t == s.(clients := s.clients[c := t.clients[c]])
            && t.clients[c].node == cl.node
            && (t.clients[c].local.open ||
                (|t.clients[c].calls| == 1 && Rank(t.clients[c].calls[0]) < Rank(cl.calls[0])))
  {
    var cl := s.clients[c];
    assert ClientOk(s.live, cl);
    assert cl.calls[..0] + cl.calls[1..] == [];
    match cl.calls[0]
    case ListReply(children) =>
      ChildrenDecision(cl.local, children, cl.node, OnChildren(cl.local, children));
    case _ =>
  }

  /** By its own callbacks alone, the owner of the first live node reaches the lock. */
  lemma {:induction false} FirstAcquires(s: State, c: nat) returns (steps: seq<Step>)
    requires Inv(s) && Waits(s, c) && NoneBefore(s, c)
    ensures Legal(s, steps) && GuardedRun(s, steps) && OnlyDelivers(c, steps)
    ensures Holds(Exec(s, steps), c)
    ensures forall d :: d != c ==> (Holds(s, d) <==> Holds(Exec(s, steps), d))
    decreases if |s.clients[c].calls| == 0 then 0 else Rank(s.clients[c].calls[0])
  {
    assert ClientOk(s.live, s.clients[c]);
    var snapshot := ListingExists(s.live);
    var step := Deliver(c, 0, snapshot);
    FirstMoves(s, c, step);
    StepKeepsInv(s, step);
    var t := Apply(s, step);
    if t.clients[c].local.open {
      steps := [step];
      assert steps[1..] == [];
    } else {
      var more := FirstAcquires(t, c);
      steps := [step] + more;
      assert steps[1..] == more;
    }
  }

  lemma FirstLive(live: set<nat>) returns (m: nat)
    requires live != {}
    ensures m in live && forall n :: n in live ==> m <= n
    decreases |live|
  {
    var x :| x in live;
    m := x;
    if exists n :: n in live && n != x {
      var n :| n in live && n != x;
      assert n in live - {x};
      var rest := FirstLive(live - {x});
      m := if rest < x then rest else x;
      assert forall n :: n in live ==> n == x || n in live - {x};
    }
  }

  ghost predicate AllDeliver(steps: seq<Step>) {
    forall i :: 0 <= i < |steps| ==> steps[i].Deliver?
  }

  /** Nothing is left to deliver. */
  ghost predicate Quiet(s: State) {
    forall step: Step :: step.Deliver? ==> !Enabled(s, step)
  }

  lemma QuietMeansNoCalls(s: State, c: nat)
    requires Quiet(s) && c in s.clients
    ensures s.clients[c].calls == []
  {
    if s.clients[c].calls != [] {
      var snapshot := ListingExists(s.live);
      assert Enabled(s, Deliver(c, 0, snapshot));
    }
  }

  ghost function Ahead(cl: Client): nat {
    if cl.calls == [] then 0 else Rank(cl.calls[0])
  }

  /** The deliveries all clients together can still take. */
  ghost function Work(clients: map<nat, Client>): nat
    decreases |clients.Keys|
  {
    if clients.Keys == {} then 0 else
      assert exists c :: c in clients.Keys;
      var c :| c in clients.Keys;
      Ahead(clients[c]) + Work(clients - {c})
  }

  lemma {:induction false} WorkWithout(clients: map<nat, Client>, c: nat)
    requires c in clients
    ensures Work(clients) == Ahead(clients[c]) + Work(clients - {c})
    decreases |clients.Keys|
  {
    var d :| d in clients.Keys && Work(clients) == Ahead(clients[d]) + Work(clients - {d});
    if c != d {
      WorkWithout(clients - {d}, c);
      WorkWithout(clients - {c}, d);
      assert clients - {d} - {c} == clients - {c} - {d};
    }
  }

  /** Serving or running any call leaves its client with less to do. */
  lemma DeliveryIsProgress(s: State, step: Step)
    requires Inv(s) && step.Deliver? && Enabled(s, step)
    ensures var t := Apply(s, step);
            && t.live == s.live && t.clients.Keys == s.clients.Keys
            && (forall d :: d in s.clients ==> t.clients[d].node == s.clients[d].node)
            && Work(t.clients) < Work(s.clients)
  {
    var c := step.c;
    OneCall(s, c, step.i);
    var cl := s.clients[c];
    assert ClientOk(s.live, cl);
    hide Inv, Work, Run, ClientOk, Ahead, IsListing;
    RunLeavesLess(s.live, cl, step.snapshot);
    LessWork(s.clients, c, Run(cl, cl.calls[0], [], step.snapshot, s.live));
  }

  lemma LessWork(clients: map<nat, Client>, c: nat, after: Client)
    requires c in clients && Ahead(after) < Ahead(clients[c])
    ensures Work(clients[c := after]) < Work(clients)
  {
    WorkWithout(clients, c);
    WorkWithout(clients[c := after], c);
    assert clients[c := after] - {c} == clients - {c};
  }

  lemma RunLeavesLess(live: set<nat>, cl: Client, snapshot: seq<nat>)
    requires ClientOk(live, cl) && |cl.calls| == 1
    ensures var cl' := Run(cl, cl.calls[0], [], snapshot, live);
            cl'.node == cl.node && Ahead(cl') < Ahead(cl)
  {
    match cl.calls[0]
    case ListReply(children) =>
      ChildrenDecision(cl.local, children, cl.node, OnChildren(cl.local, children));
    case _ =>
  }

  /** Any schedule of deliveries ends, and moves no node. */
  lemma {:induction false} DeliveriesEnd(s: State, steps: seq<Step>)
    requires Inv(s) && Legal(s, steps) && AllDeliver(steps)
    ensures var t := Exec(s, steps);
            && Inv(t) && |steps| + Work(t.clients) <= Work(s.clients)
            && t.live == s.live && t.clients.Keys == s.clients.Keys
            && forall d :: d in s.clients ==> t.clients[d].node == s.clients[d].node
    decreases |steps|
  {
    if steps != [] {
      StepKeepsInv(s, steps[0]);
      DeliveryIsProgress(s, steps[0]);
      DeliveriesEnd(Apply(s, steps[0]), steps[1..]);
    }
  }

  /** Where nothing is left to deliver, the first live node's owner holds the lock. */
  lemma QuietHasHolder(s: State) returns (h: nat)
    requires Inv(s) && Quiet(s) && s.live != {}
    ensures Holds(s, h)
  {
    var m := FirstLive(s.live);
    h :| Owner(s, m, h);
    QuietMeansNoCalls(s, h);
    assert ClientOk(s.live, s.clients[h]);
  }

  /**
   After any run, while someone waits: however the outstanding deliveries are scheduled, they
   come to an end, and when they have, someone holds the lock.
  */
  lemma {:induction false} FreeLockIsTaken(run: seq<Step>, steps: seq<Step>, c: nat)
    requires Legal(INIT, run) && Waits(Exec(INIT, run), c)
    requires Legal(Exec(INIT, run), steps) && AllDeliver(steps)
    ensures |steps| <= Work(Exec(INIT, run).clients)
    ensures var t := Exec(Exec(INIT, run), steps); Quiet(t) ==> exists h :: Holds(t, h)
  {
    var s := Exec(INIT, run);
    var t := Exec(s, steps);
    RunKeepsInv(INIT, run);
    DeliveriesEnd(s, steps);
    assert ClientOk(s.live, s.clients[c]);
    if Quiet(t) {
      var h := QuietHasHolder(t);
    }
  }

  // ----- everyone's turn

  /** A holder gives the lock back. */
  ghost predicate IsRelease(s: State, step: Step) {
    step.UnLock? && Holds(s, step.c)
  }

  ghost function Freed(s: State, step: Step): nat {
    if IsRelease(s, step) then 1 else 0
  }

  ghost function Releases(s: State, steps: seq<Step>): nat
    requires Legal(s, steps)
    decreases |steps|
  {
    if steps == [] then 0
    else Freed(s, steps[0]) + Releases(Apply(s, steps[0]), steps[1..])
  }

  /** The live nodes before client c's own. */
  ghost function Earlier(s: State, c: nat): set<nat>
    requires c in s.clients
  {
    set n | n in s.live && n < s.clients[c].node
  }

  ghost predicate KeepsSession(steps: seq<Step>, c: nat) {
    forall i :: 0 <= i < |steps| ==> steps[i] != Lose(c)
  }

  lemma UnLockMovesUp(s: State, d: nat, c: nat)
    requires Inv(s) && OpenIsFirst(s) && Waits(s, c) && Enabled(s, UnLock(d))
    ensures var t := Apply(s, UnLock(d));
            && Waits(t, c) && t.clients[c].node == s.clients[c].node
            && Earlier(t, c) == Earlier(s, c) - {s.clients[d].node}
            && (Holds(s, d) <==> s.clients[d].node in Earlier(s, c))
  {
    assert ClientOk(s.live, s.clients[c]) && ClientOk(s.live, s.clients[d]);
  }

  lemma LoseMovesUp(s: State, d: nat, c: nat)
    requires Inv(s) && Enabled(s, Lose(d)) && Waits(s, c) && d != c
    ensures var t := Apply(s, Lose(d));
            c in t.clients && t.clients[c].node == s.clients[c].node && Earlier(t, c) <= Earlier(s, c)
  {
  }

  lemma OthersMoveNobody(s: State, step: Step, c: nat)
    requires Inv(s) && Enabled(s, step) && c in s.clients && (step.TryLock? || step.Deliver?)
    ensures var t := Apply(s, step);
            c in t.clients && t.clients[c].node == s.clients[c].node && Earlier(t, c) == Earlier(s, c)
  {
    assert s.clients[c].node < s.counter;
    hide Inv, ClientsOk;
  }

  /** Each release moves a waiting client up by one place, and nothing but a lost session else does. */
  lemma StepMovesUp(s: State, step: Step, c: nat)
    requires Inv(s) && OpenIsFirst(s) && Enabled(s, step) && Waits(s, c) && step != Lose(c)
    ensures var t := Apply(s, step);
            && c in t.clients && t.clients[c].node == s.clients[c].node
            && |Earlier(t, c)| + Freed(s, step) <= |Earlier(s, c)|
            && (!step.Lose? ==> |Earlier(t, c)| + Freed(s, step) == |Earlier(s, c)|)
  {
    hide Inv, OpenIsFirst, Enabled, Earlier, Apply, Holds;
    var t := Apply(s, step);
    match step
    case UnLock(d) =>
      UnLockMovesUp(s, d, c);
    case Lose(d) =>
      LoseMovesUp(s, d, c);
      SmallerIsFewer(Earlier(t, c), Earlier(s, c));
    case _ =>
      OthersMoveNobody(s, step, c);
  }

  lemma SmallerIsFewer(a: set<nat>, b: set<nat>)
    requires a <= b
    ensures |a| <= |b|
  {
    assert b == a + (b - a);
  }

  /** A client past its latch stays so, and its node, once deleted, never comes back. */
  lemma StepKeepsOpen(s: State, step: Step, c: nat)
    requires Inv(s) && Enabled(s, step) && c in s.clients && s.clients[c].local.open && step != Lose(c)
    ensures var t := Apply(s, step);
            && c in t.clients && t.clients[c].local.open && t.clients[c].node == s.clients[c].node
            && (Holds(t, c) ==> Holds(s, c))
  {
    assert ClientOk(s.live, s.clients[c]) && s.clients[c].node < s.counter;
  }

  lemma {:induction false} RunKeepsOpen(s: State, steps: seq<Step>, c: nat)
    requires Inv(s) && Legal(s, steps) && c in s.clients && s.clients[c].local.open && KeepsSession(steps, c)
    ensures var t := Exec(s, steps); c in t.clients && t.clients[c].local.open && (Holds(t, c) ==> Holds(s, c))
    decreases |steps|
  {
    if steps != [] {
      StepKeepsInv(s, steps[0]);
      StepKeepsOpen(s, steps[0], c);
      RunKeepsOpen(Apply(s, steps[0]), steps[1..], c);
    }
  }

  /** While c holds the lock nobody else gives it back. */
  lemma HolderReleases(s: State, step: Step, c: nat)
    requires Inv(s) && OpenIsFirst(s) && Enabled(s, step) && Holds(s, c) && step != Lose(c)
    ensures c in Apply(s, step).clients && Apply(s, step).clients[c].local.open
    ensures Holds(Apply(s, step), c) <==> !IsRelease(s, step)
  {
    FirstIsMutex(s);
    StepKeepsOpen(s, step, c);
    assert ClientOk(s.live, s.clients[c]);
    match step
    case UnLock(d) =>
      assert ClientOk(s.live, s.clients[d]);
    case Lose(d) =>
      assert s.clients[d].node != s.clients[c].node;
    case _ =>
  }

  lemma {:induction false} HoldsUntilRelease(s: State, steps: seq<Step>, c: nat)
    requires Inv(s) && OpenIsFirst(s) && Legal(s, steps) && GuardedRun(s, steps)
    requires Holds(s, c) && KeepsSession(steps, c)
    ensures var t := Exec(s, steps);
            c in t.clients && t.clients[c].local.open && (Holds(t, c) <==> Releases(s, steps) == 0)
    decreases |steps|
  {
    if steps != [] {
      HolderReleases(s, steps[0], c);
      StepKeepsInv(s, steps[0]);
      StepKeepsFirst(s, steps[0]);
      if Holds(Apply(s, steps[0]), c) {
        HoldsUntilRelease(Apply(s, steps[0]), steps[1..], c);
      } else {
        RunKeepsOpen(Apply(s, steps[0]), steps[1..], c);
      }
    }
  }

  /** Where a waiting client stands in the queue, and where it is when it holds or has held the lock. */
  ghost predicate InTurn(s: State, c: nat, earlier: nat, released: nat, exact: bool) {
    && c in s.clients
    && (Waits(s, c) ==> released + |Earlier(s, c)| <= earlier)
    && (Holds(s, c) ==> released <= earlier)
    && (exact && Waits(s, c) ==> released + |Earlier(s, c)| == earlier)
    && (exact && Holds(s, c) ==> released == earlier)
    && (exact && !Waits(s, c) && !Holds(s, c) ==> released > earlier)
  }

  lemma OpeningIsFirst(s: State, step: Step, c: nat)
    requires Inv(s) && OpenIsFirst(s) && Enabled(s, step) && Guarded(s, step) && Waits(s, c) && step != Lose(c)
    requires !Waits(Apply(s, step), c)
    ensures Holds(Apply(s, step), c) && Earlier(s, c) == {} && !IsRelease(s, step)
  {
    var t := Apply(s, step);
    StepKeepsFirst(s, step);
    StepMovesUp(s, step, c);
    assert step.Deliver? && step.c == c;
    assert ClientOk(s.live, s.clients[c]);
    assert t.live == s.live;
  }

  lemma {:induction false} TurnAfter(s: State, steps: seq<Step>, c: nat)
    requires Inv(s) && OpenIsFirst(s) && Legal(s, steps) && GuardedRun(s, steps)
    requires Waits(s, c) && KeepsSession(steps, c)
    ensures InTurn(Exec(s, steps), c, |Earlier(s, c)|, Releases(s, steps), NeverLoses(steps))
    decreases |steps|
  {
    if steps != [] {
      var step, t, rest := steps[0], Apply(s, steps[0]), steps[1..];
      StepKeepsInv(s, step);
      StepKeepsFirst(s, step);
      StepMovesUp(s, step, c);
      assert NeverLoses(steps) ==> NeverLoses(rest) && !step.Lose?;
      hide Inv, OpenIsFirst, Enabled, Apply, Earlier, Guarded;
      if Waits(t, c) {
        TurnAfter(t, rest, c);
      } else {
        OpeningIsFirst(s, step, c);
        HoldsUntilRelease(t, rest, c);
      }
    }
  }

  /** The continuation loses no session after a run without losses, or both take shortcuts only when first. */
  ghost predicate SafeContinuation(run: seq<Step>, steps: seq<Step>)
    requires Legal(INIT, run) && Legal(Exec(INIT, run), steps)
  {
    (NeverLoses(run) && NeverLoses(steps)) || (GuardedRun(INIT, run) && GuardedRun(Exec(INIT, run), steps))
  }

  lemma SafeContinuationIsGuarded(run: seq<Step>, steps: seq<Step>)
    requires Legal(INIT, run) && Legal(Exec(INIT, run), steps) && SafeContinuation(run, steps)
    ensures Inv(Exec(INIT, run)) && OpenIsFirst(Exec(INIT, run)) && GuardedRun(Exec(INIT, run), steps)
  {
    if NeverLoses(run) && NeverLoses(steps) {
      MutualExclusion(run);
      HolderOnlyRunIsGuarded(Exec(INIT, run), steps);
    } else {
      MutualExclusionWithLostSessions(run);
    }
  }

  lemma QuietWaiterIsBehind(s: State, c: nat)
    requires Inv(s) && Quiet(s) && Waits(s, c)
    ensures |Earlier(s, c)| > 0
  {
    QuietMeansNoCalls(s, c);
    assert ClientOk(s.live, s.clients[c]);
    var p :| s.clients[c].armed == {p} && p in s.live && p < s.clients[c].node;
    assert p in Earlier(s, c);
  }

  /**
   Everyone's turn comes by counting.  However a run goes on, once nothing is left to deliver a
   client that was waiting has passed its latch if the lock was given back as often as there were
   live nodes before its own.  While sessions live it still waits before that, holds the lock at
   exactly that count, and has given it back after.
  */
  lemma TurnComes(run: seq<Step>, steps: seq<Step>, c: nat)
    requires Legal(INIT, run) && Legal(Exec(INIT, run), steps) && SafeContinuation(run, steps)
    requires Waits(Exec(INIT, run), c) && KeepsSession(steps, c) && Quiet(Exec(Exec(INIT, run), steps))
    ensures var s, t := Exec(INIT, run), Exec(Exec(INIT, run), steps);
            && c in t.clients
            && (Releases(s, steps) >= |Earlier(s, c)| ==> !Waits(t, c))
            && (NeverLoses(steps) ==> (Waits(t, c) <==> Releases(s, steps) < |Earlier(s, c)|))
            && (NeverLoses(steps) ==> (Holds(t, c) <==> Releases(s, steps) == |Earlier(s, c)|))
  {
    var s := Exec(INIT, run);
    SafeContinuationIsGuarded(run, steps);
    RunKeepsInv(s, steps);
    TurnAfter(s, steps, c);
    if Waits(Exec(s, steps), c) {
      QuietWaiterIsBehind(Exec(s, steps), c);
    }
  }

  // ----- deliveries and releases alone

  /** Nothing happens but deliveries and holders giving the lock back. */
  ghost predicate Draining(s: State, steps: seq<Step>)
    requires Legal(s, steps)
    decreases |steps|
  {
    steps == [] || ((steps[0].Deliver? || IsRelease(s, steps[0])) && Draining(Apply(s, steps[0]), steps[1..]))
  }

  lemma NotifyAddsLittle(n: nat, cl: Client)
    ensures Ahead(Notify(n, cl)) <= Ahead(cl) + 4
  {
  }

  lemma {:induction false} NotifyWork(clients: map<nat, Client>, n: nat, after: map<nat, Client>)
    requires after == map d | d in clients :: Notify(n, clients[d])
    ensures Work(after) <= Work(clients) + 4 * |clients.Keys|
    decreases |clients.Keys|
  {
    assert after.Keys == clients.Keys;
    if clients.Keys != {} {
      assert exists c :: c in clients.Keys;
      var c :| c in clients.Keys;
      WorkWithout(clients, c);
      WorkWithout(after, c);
      NotifyAddsLittle(n, clients[c]);
      NotifyWork(clients - {c}, n, after - {c});
    }
  }

  /** What is left to do: deliveries, and per live node a release that may wake everyone. */
  ghost function Remaining(s: State, clients: nat): nat {
    Work(s.clients) + (4 * clients + 1) * |s.live|
  }

  lemma ReleaseIsDelete(s: State, step: Step, n: nat)
    requires Inv(s) && Enabled(s, step) && IsRelease(s, step) && n == s.clients[step.c].node
    ensures n in s.live && Apply(s, step) == Delete(s, n)
  {
    assert ClientOk(s.live, s.clients[step.c]);
  }

  lemma DeleteIsProgress(s: State, n: nat, t: State)
    requires n in s.live && t == Delete(s, n)
    ensures t.clients.Keys == s.clients.Keys && t.live == s.live - {n}
    ensures Work(t.clients) <= Work(s.clients) + 4 * |s.clients.Keys|
  {
    hide Work;
    NotifyWork(s.clients, n, t.clients);
  }

  lemma ReleaseIsProgress(s: State, step: Step)
    requires Inv(s) && Enabled(s, step) && IsRelease(s, step)
    ensures var t, n := Apply(s, step), |s.clients.Keys|;
            && t.clients.Keys == s.clients.Keys && t.live < s.live
            && Remaining(t, n) < Remaining(s, n)
  {
    var t, node := Apply(s, step), s.clients[step.c].node;
    ReleaseIsDelete(s, step, node);
    hide *;
    DeleteIsProgress(s, node, t);
    LessRemains(s, t, node, |s.clients.Keys|);
  }

  lemma LessRemains(s: State, t: State, node: nat, n: nat)
    requires node in s.live && t.live == s.live - {node} && Work(t.clients) <= Work(s.clients) + 4 * n
    ensures t.live < s.live && Remaining(t, n) < Remaining(s, n)
  {
    hide Work;
    OneFewer(4 * n + 1, |s.live|);
  }

  lemma OneFewer(k: nat, m: nat)
    ensures k * (m - 1) == k * m - k
  {
  }

  lemma {:induction false} DrainingEnds(s: State, steps: seq<Step>)
    requires Inv(s) && Legal(s, steps) && Draining(s, steps)
    ensures var t, n := Exec(s, steps), |s.clients.Keys|;
            && Inv(t) && t.clients.Keys == s.clients.Keys && |steps| + Remaining(t, n) <= Remaining(s, n)
    decreases |steps|
  {
    if steps != [] {
      StepKeepsInv(s, steps[0]);
      if steps[0].Deliver? {
        DeliveryIsProgress(s, steps[0]);
      } else {
        ReleaseIsProgress(s, steps[0]);
      }
      DrainingEnds(Apply(s, steps[0]), steps[1..]);
    }
  }

  /**
   After any run, sessions lost and shortcuts taken at will: every schedule of deliveries and
   releases comes to an end, and when neither is possible any more, everyone has had the lock.
  */
  lemma {:induction false} EveryoneGetsTheLock(run: seq<Step>, steps: seq<Step>)
    requires Legal(INIT, run) && Legal(Exec(INIT, run), steps) && Draining(Exec(INIT, run), steps)
    ensures var s, t := Exec(INIT, run), Exec(Exec(INIT, run), steps);
            && |steps| <= Remaining(s, |s.clients.Keys|) && t.clients.Keys == s.clients.Keys
            && (Quiet(t) && (forall h :: !Holds(t, h)) ==>
                 t.live == {} && forall c :: c in s.clients ==> t.clients[c].local.open)
  {
    var s := Exec(INIT, run);
    var t := Exec(s, steps);
    RunKeepsInv(INIT, run);
    DrainingEnds(s, steps);
    if Quiet(t) && forall h :: !Holds(t, h) {
      if t.live != {} {
        var h := QuietHasHolder(t);
        assert false;
      }
      forall c | c in s.clients ensures t.clients[c].local.open {
        assert ClientOk(t.live, t.clients[c]);
      }
    }
  }

  // ----- exactly when the shortcut is safe

  /** The states a guarded run can reach from s. */
  ghost predicate StaysExclusive(s: State) {
    forall steps :: Legal(s, steps) && GuardedRun(s, steps) ==> Mutex(Exec(s, steps))
  }

  /**
   Taking the shortcut keeps the lock exclusive, now and in every guarded continuation, if
   and only if no node before the client's own is live: otherwise the first live node's
   owner will acquire beside it.
  */
  lemma ShortcutSafeIffNoneBefore(s: State, step: Step)
    requires Inv(s) && OpenIsFirst(s) && IsShortcut(s, step)
    ensures StaysExclusive(Apply(s, step)) <==> NoneBefore(s, step.c)
  {
    var c, t := step.c, Apply(s, step);
    StepKeepsInv(s, step);
    OneCall(s, c, step.i);
    assert ClientOk(s.live, s.clients[c]);
    if NoneBefore(s, c) {
      StepKeepsFirst(s, step);
      forall steps | Legal(t, steps) && GuardedRun(t, steps) ensures Mutex(Exec(t, steps)) {
        GuardedRunSafe(t, steps);
      }
    } else {
      var n :| n in s.live && n < s.clients[c].node;
      AnotherWillJoin(t, c, n);
    }
  }

  /** A holder behind a live node will not stay alone. */
  lemma AnotherWillJoin(t: State, c: nat, n: nat)
    requires Inv(t) && Holds(t, c) && n in t.live && n < t.clients[c].node
    ensures !StaysExclusive(t)
  {
    var m := FirstLive(t.live);
    var d :| Owner(t, m, d);
    assert d != c;
    var steps: seq<Step> := [];
    if Waits(t, d) {
      steps := FirstAcquires(t, d);
    }
    hide Inv;
    assert Holds(Exec(t, steps), c) && Holds(Exec(t, steps), d);
  }

  // ----- with lost sessions the unguarded shortcut breaks the lock

  lemma {:induction false} ExtendRun(s: State, steps: seq<Step>, step: Step)
    requires Legal(s, steps) && Enabled(Exec(s, steps), step)
    ensures Legal(s, steps + [step]) && Exec(s, steps + [step]) == Apply(Exec(s, steps), step)
    decreases |steps|
  {
    if steps == [] {
      assert ([] + [step])[1..] == [];
    } else {
      assert (steps + [step])[1..] == steps[1..] + [step];
      ExtendRun(Apply(s, steps[0]), steps[1..], step);
    }
  }

  /** Client c takes its next step and becomes `after`; nothing else changes. */
  lemma DeliverNext(steps: seq<Step>, s: State, c: nat, snapshot: seq<nat>, after: Client) returns (longer: seq<Step>)
    requires Legal(INIT, steps) && Exec(INIT, steps) == s
    requires c in s.clients && |s.clients[c].calls| == 1
    requires s.clients[c].calls[0].ListRequest? ==> IsListing(snapshot, s.live)
    requires after == Run(s.clients[c], s.clients[c].calls[0], [], snapshot, s.live)
    ensures Legal(INIT, longer) && Exec(INIT, longer) == s.(clients := s.clients[c := after])
  {
    var calls := s.clients[c].calls;
    assert calls[..0] + calls[1..] == [];
    ExtendRun(INIT, steps, Deliver(c, 0, snapshot));
    longer := steps + [Deliver(c, 0, snapshot)];
  }

  /** A client that created a node runs its create callback and has its listing served. */
  lemma ListAll(steps: seq<Step>, s: State, c: nat, snapshot: seq<nat>) returns (longer: seq<Step>)
    requires Legal(INIT, steps) && Exec(INIT, steps) == s
    requires c in s.clients && IsListing(snapshot, s.live)
    requires var n := s.clients[c].node; s.clients[c] == Client(n, Local(None, false), [CreateReply(n)], {})
    ensures var n := s.clients[c].node;
            && Legal(INIT, longer)
            && Exec(INIT, longer) ==
               s.(clients := s.clients[c := Client(n, Local(Some(n), false), [ListReply(snapshot)], {})])
  {
    var n := s.clients[c].node;
    var named := Client(n, Local(Some(n), false), [ListRequest], {});
    assert [] + [ListRequest] == [ListRequest];
    longer := DeliverNext(steps, s, c, snapshot, named);
    var t := s.(clients := s.clients[c := named]);
    longer := DeliverNext(longer, t, c, snapshot, Client(n, Local(Some(n), false), [ListReply(snapshot)], {}));
    assert t.clients[c := Client(n, Local(Some(n), false), [ListReply(snapshot)], {})]
        == s.clients[c := Client(n, Local(Some(n), false), [ListReply(snapshot)], {})];
  }

  ghost function Fresh(n: nat): Client {
    Client(n, Local(None, false), [CreateReply(n)], {})
  }

  ghost function Listed(n: nat, list: seq<nat>): Client {
    Client(n, Local(Some(n), false), [ListReply(list)], {})
  }

  ghost function Opened(n: nat): Client {
    Client(n, Local(Some(n), true), [], {})
  }

  /** Three clients have created nodes 0, 1 and 2, and clients 0 and 2 have taken snapshots. */
  lemma ThreeClients(list: seq<nat>) returns (steps: seq<Step>)
    requires list == [0, 1, 2]
    ensures Legal(INIT, steps)
    ensures Exec(INIT, steps) == State(3, {0, 1, 2}, map[0 := Listed(0, list), 1 := Fresh(1), 2 := Listed(2, list)])
  {
    ExtendRun(INIT, [], TryLock(0));
    ExtendRun(INIT, [TryLock(0)], TryLock(1));
    ExtendRun(INIT, [TryLock(0)] + [TryLock(1)], TryLock(2));
    steps := [TryLock(0)] + [TryLock(1)] + [TryLock(2)];
    var s := State(3, {0, 1, 2}, map[0 := Fresh(0), 1 := Fresh(1), 2 := Fresh(2)]);
    assert Exec(INIT, steps) == s;
    assert IsListing(list, s.live);
    steps := ListAll(steps, s, 0, list);
    s := State(3, {0, 1, 2}, map[0 := Listed(0, list), 1 := Fresh(1), 2 := Fresh(2)]);
    assert Exec(INIT, steps) == s;
    steps := ListAll(steps, s, 2, list);
  }

  const ASKING := Client(2, Local(Some(2), false), [ExistsRequest(1)], {})

  lemma ZeroOpens(list: seq<nat>, live: set<nat>)
    requires list == [0, 1, 2]
    ensures Run(Listed(0, list), ListReply(list), [], [], live) == Opened(0)
  {
    var local := Local(Some(0), false);
    ChildrenDecision(local, list, 0, OnChildren(local, list));
  }

  lemma TwoAsks(list: seq<nat>, live: set<nat>)
    requires list == [0, 1, 2]
    ensures Run(Listed(2, list), ListReply(list), [], [], live) == ASKING
  {
    var local := Local(Some(2), false);
    assert 1 in list && 1 < 2;
    ChildrenDecision(local, list, 2, OnChildren(local, list));
    assert [] + [ExistsRequest(1)] == [ExistsRequest(1)];
  }

  lemma HolderOpens(list: seq<nat>) returns (steps: seq<Step>)
    requires list == [0, 1, 2]
    ensures Legal(INIT, steps)
    ensures Exec(INIT, steps) == State(3, {0, 1, 2}, map[0 := Opened(0), 1 := Fresh(1), 2 := Listed(2, list)])
  {
    steps := ThreeClients(list);
    var s := State(3, {0, 1, 2}, map[0 := Listed(0, list), 1 := Fresh(1), 2 := Listed(2, list)]);
    hide Exec, Legal, Run;
    ZeroOpens(list, s.live);
    steps := DeliverNext(steps, s, 0, [], Opened(0));
  }

  /** Client 0 opens on its snapshot; client 2, on its own, is about to ask for node 1. */
  lemma HolderAndAsker(list: seq<nat>) returns (steps: seq<Step>)
    requires list == [0, 1, 2]
    ensures Legal(INIT, steps)
    ensures Exec(INIT, steps) == State(3, {0, 1, 2}, map[0 := Opened(0), 1 := Fresh(1), 2 := ASKING])
  {
    steps := HolderOpens(list);
    var s := State(3, {0, 1, 2}, map[0 := Opened(0), 1 := Fresh(1), 2 := Listed(2, list)]);
    hide Exec, Legal, Run;
    TwoAsks(list, s.live);
    steps := DeliverNext(steps, s, 2, [], ASKING);
  }

  /**
   Node 1's session dies while client 0 holds the lock: client 2, whose snapshot named node 1
   as its predecessor, finds it gone and opens its latch beside client 0.
  */
  lemma LostSessionBreaksTheLock() returns (steps: seq<Step>)
    ensures Legal(INIT, steps) && !Mutex(Exec(INIT, steps))
  {
    steps := HolderAndAsker([0, 1, 2]);
    var s := Exec(INIT, steps);
    ExtendRun(INIT, steps, Lose(1));
    steps := steps + [Lose(1)];
    s := State(3, {0, 2}, map[0 := Opened(0), 2 := ASKING]);
    assert Exec(INIT, steps) == s;
    steps := DeliverNext(steps, s, 2, [], Opened(2));
    var t := s.(clients := s.clients[2 := Opened(2)]);
    assert Holds(t, 0) && Holds(t, 2);
  }
}
