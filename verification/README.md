# What the lock and the algorithms promise

A Dafny model of the two parts of this workspace that carry hard guarantees, with proofs of
those guarantees.

**The ZooKeeper lock.** `LockClient` is the lock object: its fields, its four callbacks and
`unLock`, each proved to change the fields as stated for every argument, a null name and a null or
empty list included, and as the transition system assumes. `LockProtocol` puts any number of such
clients and one server into a transition system. Creating a node, serving a children request,
running the callback with the snapshot taken then, serving the `exists` request and delivering a
deletion event are separate steps, so a snapshot may be stale when it is used. `LockSafety` proves
over whole runs mutual exclusion, the order of acquisitions, that no wake-up is lost, that every
schedule of callbacks and releases comes to an end with everyone past its latch, and after how many
releases each client holds the lock, and says which assumption each branch of the children callback
needs. Opening the latch because one's own node is first in the list is safe whatever happened to
other nodes since. Opening it because the predecessor is already gone is safe exactly when no
earlier node is live, which holds as long as only clients past their latch delete nodes; a run with
one lost session shows two holders otherwise.

Assumed of the lock: callbacks of one client run one at a time and in full, except that `exists`
is answered by the server as a step of its own; the reply to a request is not run before the
callback that sent it has ended; a lock object is used for one acquisition; `unLock` runs only
after `tryLock` returned (they share a monitor); the sequential nodes of one lock are numbered in
creation order, so a node's name is its number; a children list holds exactly the live nodes, in
any order. A lost session is a step that removes the client and its node.

**The algorithms.** In most files a fast form stands beside a plain one. Both are modelled and both
are proved against one specification that mentions neither, so they agree. Greedy choices are
proved optimal by exchange arguments over all solutions (minimum spanning forests, joining pieces,
coffee scheduling, concatenation order), tables against the recursion they replace, stack and
window passes against sums over all intervals or rectangles, union-find and flood fill against
connected components, linked structures against the shape they describe, and the prefix tree
against the list of words it should hold.

| module | what it models |
|---|---|
| `Wrappers`, `Numbers`, `Tables`, `Sorting`, `Letters` | absent values; smaller and larger; rows of a table; the specification of sorting, and counting below a bound; words over a-z |
| `LockClient`, `LockProtocol`, `LockSafety` | the lock object, the protocol, its guarantees |
| `DisjointSets`, `UnionArrays`, `Components` | union-find over maps and over arrays, connected components |
| `SpanningForests`, `Graphs`, `MinimumSpanning`, `PrimSpanning`, `TopologicalSort` | connectivity and exchange, graph building, Kruskal, Prim, topological order |
| `BoundedCoins`, `CoinTables` | fewest coins of a purse: recursion, enumerating table, table with monotone deques |
| `Coffee` | making coffee and cleaning cups |
| `GoldSplitting` | joining pieces two at a time |
| `LowestConcatenation` | the order that makes the least concatenation |
| `Grids`, `Islands`, `UnionIslands` | numbered board cells, flood fill, the union-find counts |
| `Selection` | partition, quickselect, median of medians |
| `Palindromes` | radii of palindromes, shortest palindromic completion |
| `Matching` | failure table, search, rotations, subtrees as token sequences |
| `Stickers` | spelling a word with stickers |
| `CopyList` | copying a list with random links in the heap |
| `SubarrayMinimums`, `Rectangles`, `LargestRectangle` | stack passes over bars |
| `PrefixTree`, `PrefixTreeAgreement` | the tree of letters in the heap, the word-count map, their agreement |
| `HeapGreater` | a heap with a reverse index |

Read throughout: Java's `int` and `long` are unbounded integers, and `Integer.MAX_VALUE` as "none"
is an absent value. Arrays a method only reads are sequences; arrays, nodes and fields it changes
are arrays, objects and fields. The order in which a hash map or hash set is walked, and which of
several least elements a priority queue yields, are arbitrary. `Arrays.sort` and `Collections.sort`
are stable sorts. Of sorting by the concatenation comparator, which is no order on empty strings,
only this is assumed: it returns, and leaves the same strings with no neighbours out of order. Edges
carry their row's number, so parallel edges of equal weight stay apart. Ghost parameters only name
what is already determined by the heap or the caller's data.

Where the code differs from what one would expect, the code is modelled and the difference stated
exactly:

- `minStickers` answers 0 for a word it has no stickers for.
- Both coin tables answer 0 for negative amounts, and the deque-driven one also for positive amounts
  when some value is 0 or below, since its loop over remainder classes is then empty.
- Prim's result on a directed graph depends on the order of the starts. It spans for every order
  exactly when the ends of every edge reach each other.
- The concatenation comparator is transitive through every string but the empty one. Leaving no
  neighbours out of order is enough for the least concatenation, whatever the order left, exactly
  when no string is empty or no two are out of order at all.
- `HeapGreater.remove` drops the last element instead of the given one when the two are different
  and tie, and a second `push` of an element leaves the reverse index wrong.
- A lost session of a waiting client can give the lock two holders.
- `isRotation` denies that an empty string is a rotation of itself.
- The prefix tree turns the empty word away while the map counts it. Deletions lower the pass count
  of the tree's root although insertions never raise it; nothing reads it.
- Quickselect's pivot is the first element of the range, since its random number is truncated to 0
  before it is scaled.

## Model

| member | source | states |
|---|---|---|
| `LockClient.LockZookeeper.constructor` | gtk-devops-lock/src/main/java/com/gqs/lock/dispersed/LockZookeeper.java:31-39 | a new lock object has no node name and a closed latch |
| `LockClient.LockZookeeper.ProcessCreated` | gtk-devops-lock/src/main/java/com/gqs/lock/dispersed/LockZookeeper.java:118-125 | the create callback leaves the latch as it is; a null name changes nothing and sends nothing, a found one is stored and asks for the children once |
| `LockClient.LockZookeeper.ProcessChildren` | gtk-devops-lock/src/main/java/com/gqs/lock/dispersed/LockZookeeper.java:131-146 | up to the exists call: a null or empty list changes nothing and sends nothing; the latch opens when one's own name is not listed or no smaller one is; otherwise nothing changes and exists is asked of the greatest smaller name |
| `LockClient.LockZookeeper.AfterExists` | gtk-devops-lock/src/main/java/com/gqs/lock/dispersed/LockZookeeper.java:149-155 | the end of the children callback: the latch opens when exists found no node and stays as it is when it found one |
| `LockClient.LockZookeeper.Process` | gtk-devops-lock/src/main/java/com/gqs/lock/dispersed/LockZookeeper.java:165-172 | the watch callback asks for the children once on a deletion, and on any other event changes nothing and sends nothing |
| `LockClient.LockZookeeper.UnLock` | gtk-devops-lock/src/main/java/com/gqs/lock/dispersed/LockZookeeper.java:90-107 | deletes just the object's own node, and nothing when it has no name or the node is gone; its fields stay |
| `LockClient.PredecessorIsGreatestBelow` | gtk-devops-lock/src/main/java/com/gqs/lock/dispersed/LockZookeeper.java:137-146 | the name before one's own in the sorted list is the greatest smaller one, whatever order the list came in |
| `LockClient.ChildrenDecision` | gtk-devops-lock/src/main/java/com/gqs/lock/dispersed/LockZookeeper.java:137-149 | open when no listed name is smaller than one's own, else ask for the greatest smaller one |
| `LockProtocol.RunKeepsClient` | gtk-devops-lock/src/main/java/com/gqs/lock/dispersed/LockZookeeper.java:118-172 | serving or running a client's outstanding call leaves it with exactly one thing to wake it, or open with none, even from a stale children snapshot |
| `LockProtocol.StepKeepsInv` | gtk-devops-lock/src/main/java/com/gqs/lock/dispersed/LockZookeeper.java:56-172 | every step (try, delivery, unlock, loss of a session) keeps the protocol's invariant |
| `LockSafety.StepKeepsFirst` | gtk-devops-lock/src/main/java/com/gqs/lock/dispersed/LockZookeeper.java:137-155 | every client past its latch precedes all live nodes after any step; the list branch needs no assumption, the shortcut needs that no earlier node is live |
| `LockSafety.StepKeepsPrefix` | gtk-devops-lock/src/main/java/com/gqs/lock/dispersed/LockZookeeper.java:90-107 | while only a client past its latch deletes its node, deleted nodes stay a prefix of the creation order |
| `LockSafety.PrefixGuards` | gtk-devops-lock/src/main/java/com/gqs/lock/dispersed/LockZookeeper.java:149-155 | when deleted nodes form a prefix, the shortcut's guard always holds |
| `LockSafety.MutualExclusion` | gtk-devops-lock/src/main/java/com/gqs/lock/dispersed/LockZookeeper.java:56-172 | in every run without lost sessions at most one client holds the lock, clients past their latch precede all live nodes, and deleted nodes form a prefix of the creation order |
| `LockSafety.MutualExclusionWithLostSessions` | gtk-devops-lock/src/main/java/com/gqs/lock/dispersed/LockZookeeper.java:137-155 | in every run with sessions lost at any time, as long as no shortcut is taken past a live earlier node, at most one client holds the lock and clients past their latch precede all live nodes |
| `LockSafety.ShortcutSafeIffNoneBefore` | gtk-devops-lock/src/main/java/com/gqs/lock/dispersed/LockZookeeper.java:149-155 | taking the shortcut is safe for all guarded continuations if and only if no earlier node is live |
| `LockSafety.LostSessionBreaksTheLock` | gtk-devops-lock/src/main/java/com/gqs/lock/dispersed/LockZookeeper.java:149-155 | a run in which a waiting client's session is lost and two clients hold the lock |
| `LockSafety.AcquiresInOrder` | gtk-devops-lock/src/main/java/com/gqs/lock/dispersed/LockZookeeper.java:137-155 | in every such run, whoever passes its latch has a later node than all who passed theirs, all of whom have released, and nobody with an earlier node still waits |
| `LockSafety.NoLostWakeUp` | gtk-devops-lock/src/main/java/com/gqs/lock/dispersed/LockZookeeper.java:144-172 | in every legal run, sessions lost and shortcuts taken at will, a waiting client has a live node and either one outstanding call or one watch on a live earlier node |
| `LockSafety.FirstAcquires` | gtk-devops-lock/src/main/java/com/gqs/lock/dispersed/LockZookeeper.java:118-155 | the owner of the first live node reaches the lock by its own callbacks alone, disturbing nobody |
| `LockSafety.DeliveriesEnd` | gtk-devops-lock/src/main/java/com/gqs/lock/dispersed/LockZookeeper.java:118-172 | however deliveries are scheduled they use up the outstanding work, and move no node |
| `LockSafety.FreeLockIsTaken` | gtk-devops-study/src/main/java/com/gaoqisen/zookeeper/ZkLock.java:56-160 | after any run, while someone waits, every schedule of deliveries comes to an end within a bound, and once nothing is outstanding someone holds the lock |
| `LockSafety.StepMovesUp` | gtk-devops-lock/src/main/java/com/gqs/lock/dispersed/LockZookeeper.java:90-107 | a release takes exactly one node from before a waiting client, and besides a lost session nothing else does |
| `LockSafety.TurnComes` | gtk-devops-lock/src/main/java/com/gqs/lock/dispersed/LockZookeeper.java:56-172 | however a run goes on, once nothing is outstanding a waiting client has passed its latch if there were as many releases as live nodes before its own; while sessions live it waits before that count, holds at it and has released after it |
| `LockSafety.EveryoneGetsTheLock` | gtk-devops-lock/src/main/java/com/gqs/lock/dispersed/LockZookeeper.java:56-172 | after any run every schedule of deliveries and releases ends within a bound, and when neither is possible no node is left and every client has passed its latch |
| `DisjointSets.UnionSet.MakeSets` | gtk-devops-algorithm/src/main/java/com/gqs/algorithm/class012_graph/T006_Kruskal.java:60-67 | every node is alone in its class |
| `DisjointSets.UnionSet.FindFather` | gtk-devops-algorithm/src/main/java/com/gqs/algorithm/class012_graph/T006_Kruskal.java:46-57 | returns the representative, points exactly the nodes climbed through at it, and leaves the partition as it was |
| `DisjointSets.UnionSet.IsSame` | gtk-devops-algorithm/src/main/java/com/gqs/algorithm/class012_graph/T006_Kruskal.java:69-73 | tells whether two nodes are in one class |
| `DisjointSets.UnionSet.Union` | gtk-devops-algorithm/src/main/java/com/gqs/algorithm/class012_graph/T006_Kruskal.java:75-91 | merges exactly the two classes; the larger one's representative stays, b's on a tie, and the other loses its size entry |
| `DisjointSets.CompressKeepsForest` | gtk-devops-algorithm/src/main/java/com/gqs/algorithm/class012_graph/T006_Kruskal.java:46-57 | path compression keeps the forest behind the partition |
| `DisjointSets.LinkKeepsForest` | gtk-devops-algorithm/src/main/java/com/gqs/algorithm/class012_graph/T006_Kruskal.java:75-91 | hanging one representative under another keeps the forest behind the merged partition |
| `DisjointSets.MergeIsUnion` | gtk-devops-algorithm/src/main/java/com/gqs/algorithm/class012_graph/T006_Kruskal.java:75-91 | after a merge two nodes are in one class exactly if they were, or a and b join them |
| `DisjointSets.ChainIsShort` | gtk-devops-algorithm/src/main/java/com/gqs/algorithm/class011_union_set/T002_FriendCircles.java:63-92 | a chain of d parents needs a class of at least 2^d elements |
| `Graphs.CreateGraph` | gtk-devops-algorithm/src/main/java/com/gqs/algorithm/class012_graph/Graph.java:21-56 | the edges are exactly the rows, each with its row's weight and ends; the nodes are exactly the ends, each with its own value, as many edges out and in as there are rows leaving and entering it, and the rows leaving it in order |
| `Graphs.AddRow` | gtk-devops-algorithm/src/main/java/com/gqs/algorithm/class012_graph/Graph.java:23-53 | one more row makes it the graph of the rows so far, for loops and repeated ends too |
| `SpanningForests.Split` | gtk-devops-algorithm/src/main/java/com/gqs/algorithm/class012_graph/T006_Kruskal.java:21-30 | one more edge connects just the points it joins |
| `SpanningForests.Exchange` | gtk-devops-algorithm/src/main/java/com/gqs/algorithm/class012_graph/T006_Kruskal.java:21-29 | a spanning forest can take in an edge across a cut where it is lightest, at no greater weight |
| `SpanningForests.PromisingIsMinimum` | gtk-devops-algorithm/src/main/java/com/gqs/algorithm/class012_graph/T006_Kruskal.java:7-32 | a spanning forest that could grow into one no heavier than any other is minimum |
| `SpanningForests.MinimumIsUnique` | gtk-devops-algorithm/src/main/java/com/gqs/algorithm/class012_graph/T006_Kruskal.java:7-32 | all minimum spanning forests weigh the same |
| `MinimumSpanning.KruskalChoice` | gtk-devops-algorithm/src/main/java/com/gqs/algorithm/class012_graph/T006_Kruskal.java:21-29 | the lightest edge between two components keeps the forest acyclic and extendable to a minimum one, for any tie order |
| `MinimumSpanning.KruskalMST` | gtk-devops-algorithm/src/main/java/com/gqs/algorithm/class012_graph/T006_Kruskal.java:7-32 | returns an acyclic edge set with the graph's connectivity and the least total weight |
| `PrimSpanning.PrimChoice` | gtk-devops-algorithm/src/main/java/com/gqs/algorithm/class012_graph/T007_Prim.java:25-34 | the lightest queued edge to a new node closes no cycle, and on a symmetric graph keeps the forest extendable to a minimum one |
| `PrimSpanning.PrimFrom` | gtk-devops-algorithm/src/main/java/com/gqs/algorithm/class012_graph/T007_Prim.java:19-42 | one pass of the outer loop unlocks just what the node reaches among the nodes still locked and joins all of it to the node; on a symmetric graph the forest stays promising |
| `PrimSpanning.SpansIffSamePass` | gtk-devops-algorithm/src/main/java/com/gqs/algorithm/class012_graph/T007_Prim.java:19-42 | what the passes build spans a directed graph if and only if the ends of every edge are first reached from the same start |
| `PrimSpanning.SamePassAlwaysIffMutual` | gtk-devops-algorithm/src/main/java/com/gqs/algorithm/class012_graph/T007_Prim.java:19-19 | that holds for every order of starts if and only if the ends of every edge reach each other |
| `PrimSpanning.OneWayEdge` | gtk-devops-algorithm/src/main/java/com/gqs/algorithm/class012_graph/T007_Prim.java:19-42 | one edge from 2 to 1: started from 1 first the result does not span, started from 2 it does |
| `PrimSpanning.PrimMST` | gtk-devops-algorithm/src/main/java/com/gqs/algorithm/class012_graph/T007_Prim.java:9-44 | on any directed graph a forest, spanning if and only if the ends of every edge are first reached from the same start; on symmetric graphs, connected or not, a minimum spanning forest |
| `PrimSpanning.KruskalAndPrimAgree` | gtk-devops-algorithm/src/main/java/com/gqs/algorithm/class012_graph/T007_Prim.java:9-44 | on symmetric graphs both algorithms give the same total weight |
| `TopologicalSort.ListOne` | gtk-devops-algorithm/src/main/java/com/gqs/algorithm/class012_graph/T003_TopologicalSort.java:25-31 | listing a node closes exactly the edges in its list of targets, parallel ones included |
| `TopologicalSort.LayersQueue` | gtk-devops-algorithm/src/main/java/com/gqs/algorithm/class012_graph/T003_TopologicalSort.java:25-31 | a node queued is exactly one layer below the node just listed, and no queued node is deeper |
| `TopologicalSort.ListedIsFree` | gtk-devops-algorithm/src/main/java/com/gqs/algorithm/class012_graph/T003_TopologicalSort.java:20-33 | no node of a topological order is on a cycle or downstream of one |
| `TopologicalSort.UnlistedIsStuck` | gtk-devops-algorithm/src/main/java/com/gqs/algorithm/class012_graph/T003_TopologicalSort.java:20-33 | a node whose predecessors are not all listed is on a cycle or downstream of one |
| `TopologicalSort.InDegrees` | gtk-devops-algorithm/src/main/java/com/gqs/algorithm/class012_graph/T003_TopologicalSort.java:7-18 | the counts start as the in-degrees and the queue holds the nodes without incoming edges |
| `TopologicalSort.Release` | gtk-devops-algorithm/src/main/java/com/gqs/algorithm/class012_graph/T003_TopologicalSort.java:25-31 | one node's edges come off the counts, just the nodes that reach zero are queued, and the queue stays ordered by depth |
| `TopologicalSort.SortedTopology` | gtk-devops-algorithm/src/main/java/com/gqs/algorithm/class012_graph/T003_TopologicalSort.java:7-34 | lists, without repeats and each after all its predecessors, exactly the nodes neither on a cycle nor downstream of one, in order of the longest walk into them |
| `BoundedCoins.ProcessIsLeast` | gtk-devops-algorithm/src/main/java/com/gqs/algorithm/class015_slidingWindow/T003_MinCoinsOnePaper.java:188-203 | the take-or-skip recursion gives the least number of coins of the array that pay the amount, or none when nothing does |
| `BoundedCoins.RowEntryIsLeast` | gtk-devops-algorithm/src/main/java/com/gqs/algorithm/class015_slidingWindow/T003_MinCoinsOnePaper.java:37-52 | the least over how many coins of a value to use is the least for the purse with those coins added |
| `CoinTables.FrontIsBest` | gtk-devops-algorithm/src/main/java/com/gqs/algorithm/class015_slidingWindow/T003_MinCoinsOnePaper.java:93-113 | the deque's head is the cheapest start in the window, and invalid only as the current cell |
| `CoinTables.SlideKeepsWindow` | gtk-devops-algorithm/src/main/java/com/gqs/algorithm/class015_slidingWindow/T003_MinCoinsOnePaper.java:95-110 | dropping useless tails, pushing the amount and expiring the head keep the deque right |
| `CoinTables.SlideStep` | gtk-devops-algorithm/src/main/java/com/gqs/algorithm/class015_slidingWindow/T003_MinCoinsOnePaper.java:93-113 | one step of a remainder class gives the enumerated row's entry |
| `CoinTables.SlideRow` | gtk-devops-algorithm/src/main/java/com/gqs/algorithm/class015_slidingWindow/T003_MinCoinsOnePaper.java:84-115 | the row filled class by class through deques has the enumerated row's entries in every cell for a positive value, and keeps the table's zeros for any other |
| `CoinTables.EnumerateRow` | gtk-devops-algorithm/src/main/java/com/gqs/algorithm/class015_slidingWindow/T003_MinCoinsOnePaper.java:35-53 | the enumerating loops give the least over all usable numbers of coins in every cell |
| `CoinTables.GetInfo` | gtk-devops-algorithm/src/main/java/com/gqs/algorithm/class015_slidingWindow/T003_MinCoinsOnePaper.java:131-151 | the distinct values with their counts, in any order, make up the array, whatever the values |
| `CoinTables.GetMinZhangDp` | gtk-devops-algorithm/src/main/java/com/gqs/algorithm/class015_slidingWindow/T003_MinCoinsOnePaper.java:18-56 | with coins of value 0 and above the least number of coins, 0 for a negative amount: what the recursion answers if and only if the amount is not negative |
| `CoinTables.StaysInsideIffNonNegative` | gtk-devops-algorithm/src/main/java/com/gqs/algorithm/class015_slidingWindow/T003_MinCoinsOnePaper.java:35-52 | the enumerating loops look at no cell past the last column, for any array, if and only if no value is negative |
| `CoinTables.GetMinZhangDpWindow` | gtk-devops-algorithm/src/main/java/com/gqs/algorithm/class015_slidingWindow/T003_MinCoinsOnePaper.java:66-118 | for every array: what the recursion answers if and only if the amount is 0, or positive with all values positive; 0 otherwise |
| `Coffee.ForceWashIsBestTime` | gtk-devops-algorithm/src/main/java/com/gqs/algorithm/class014_dp/T010_Coffee.java:193-205 | the exhaustive washing search carrying the time so far equals the recursion without it |
| `Coffee.SomePlanIsBest` | gtk-devops-algorithm/src/main/java/com/gqs/algorithm/class014_dp/T010_Coffee.java:52-73 | some plan of washing and drying reaches bestTime |
| `Coffee.NoPlanIsFaster` | gtk-devops-algorithm/src/main/java/com/gqs/algorithm/class014_dp/T010_Coffee.java:52-73 | no plan of washing and drying in serving order beats bestTime |
| `Coffee.ReadyOrderIsFastest` | gtk-devops-algorithm/src/main/java/com/gqs/algorithm/class014_dp/T010_Coffee.java:52-73 | no order of washing the chosen cups beats the order in which they are ready |
| `Coffee.NoWashingIsFaster` | gtk-devops-algorithm/src/main/java/com/gqs/algorithm/class014_dp/T010_Coffee.java:52-73 | no choice of cups to wash, in any order, beats bestTime over the sorted drinks |
| `Coffee.BestTimeMonotone` | gtk-devops-algorithm/src/main/java/com/gqs/algorithm/class014_dp/T010_Coffee.java:52-73 | earlier drinks and an earlier free washer never clean later |
| `Coffee.GreedyIsEarliest` | gtk-devops-algorithm/src/main/java/com/gqs/algorithm/class014_dp/T010_Coffee.java:20-36 | the j-th coffee of the earliest-finish choice is no later than the j-th of any assignment, sorted |
| `Coffee.GreedyIsLeast` | gtk-devops-algorithm/src/main/java/com/gqs/algorithm/class014_dp/T010_Coffee.java:18-40 | serving from the machine that finishes first is optimal over all assignments, all choices of cups to wash and all orders of washing them |
| `Coffee.Serve` | gtk-devops-algorithm/src/main/java/com/gqs/algorithm/class014_dp/T010_Coffee.java:20-36 | the queue loop makes the earliest-finish choice for every person, for any tie order |
| `Coffee.MinTime` | gtk-devops-algorithm/src/main/java/com/gqs/algorithm/class014_dp/T010_Coffee.java:18-40 | the least cleaning time over all assignments of machines, all choices of cups to wash and all orders of washing them |
| `Coffee.Dp` | gtk-devops-algorithm/src/main/java/com/gqs/algorithm/class014_dp/T010_Coffee.java:116-148 | the table's answer is bestTime although entries outside the washer's range are wrong |
| `Coffee.MinTime1` | gtk-devops-algorithm/src/main/java/com/gqs/algorithm/class014_dp/T010_Coffee.java:84-106 | the table form gives the least time over the same |
| `Coffee.ForceMake` | gtk-devops-algorithm/src/main/java/com/gqs/algorithm/class014_dp/T010_Coffee.java:174-191 | the exhaustive search over machines gives the least time over all assignments that go on from a given start and all ways of washing, and leaves both arrays as they were |
| `Coffee.Right` | gtk-devops-algorithm/src/main/java/com/gqs/algorithm/class014_dp/T010_Coffee.java:167-171 | the brute force, which washes in sorted order only, gives the least time over all assignments and all orders of washing, none when there are people and no machine |
| `Coffee.LeastIsUnique` | gtk-devops-algorithm/src/main/java/com/gqs/algorithm/class014_dp/T010_Coffee.java:18-205 | so all three programs answer the same number |
| `GoldSplitting.Contract` | gtk-devops-algorithm/src/main/java/com/gqs/algorithm/class010_graphy/T003_LessMoneySplitGold.java:17-21 | any tree of joins becomes one that joins two smallest pieces first at no greater cost |
| `GoldSplitting.GreedyBeatsTrees` | gtk-devops-algorithm/src/main/java/com/gqs/algorithm/class010_graphy/T003_LessMoneySplitGold.java:17-21 | joining two smallest pieces first costs no more than any tree of joins |
| `GoldSplitting.AnyFirstJoin` | gtk-devops-algorithm/src/main/java/com/gqs/algorithm/class010_graphy/T003_LessMoneySplitGold.java:65-69 | whatever two pieces are joined first, greedy joining of the whole costs no more |
| `GoldSplitting.GreedyIsLeast` | gtk-devops-algorithm/src/main/java/com/gqs/algorithm/class010_graphy/T003_LessMoneySplitGold.java:10-23 | greedy joining costs the least over all orders of joining |
| `GoldSplitting.GetLessMoneySplitGold` | gtk-devops-algorithm/src/main/java/com/gqs/algorithm/class010_graphy/T003_LessMoneySplitGold.java:10-23 | the queue loop returns the least cost over all orders of joining, for any tie order |
| `GoldSplitting.CopyAndMergeTwo` | gtk-devops-algorithm/src/main/java/com/gqs/algorithm/class010_graphy/T003_LessMoneySplitGold.java:73-83 | the copy holds the other pieces in order, then the two pieces' sum |
| `GoldSplitting.Process` | gtk-devops-algorithm/src/main/java/com/gqs/algorithm/class010_graphy/T003_LessMoneySplitGold.java:60-71 | the exhaustive recursion returns the least cost on top of what is spent |
| `GoldSplitting.LessMoney1` | gtk-devops-algorithm/src/main/java/com/gqs/algorithm/class010_graphy/T003_LessMoneySplitGold.java:51-56 | the brute force returns the same least cost, 0 for an empty array |
| `LowestConcatenation.CompareIsDictionary` | gtk-devops-algorithm/src/main/java/com/gqs/algorithm/class010_graphy/T001_LowestLexicography.java:18-18 | compareTo tells prefixes and smaller first differences, for strings of any lengths |
| `LowestConcatenation.CompareIsValue` | gtk-devops-algorithm/src/main/java/com/gqs/algorithm/class010_graphy/T001_LowestLexicography.java:18-18 | comparing strings of equal length is comparing them as numbers |
| `LowestConcatenation.BeforeIsFraction` | gtk-devops-algorithm/src/main/java/com/gqs/algorithm/class010_graphy/T001_LowestLexicography.java:18-18 | a goes before b exactly when its repeating fraction is no greater |
| `LowestConcatenation.Total` | gtk-devops-algorithm/src/main/java/com/gqs/algorithm/class010_graphy/T001_LowestLexicography.java:18-18 | the comparator is reflexive and total |
| `LowestConcatenation.TransitiveIffNotEmpty` | gtk-devops-algorithm/src/main/java/com/gqs/algorithm/class010_graphy/T001_LowestLexicography.java:18-18 | the comparator is transitive through b exactly when b is not empty |
| `LowestConcatenation.OrderedIsLeast` | gtk-devops-algorithm/src/main/java/com/gqs/algorithm/class010_graphy/T001_LowestLexicography.java:18-23 | strings in the comparator's order concatenate to no more than any permutation of them |
| `LowestConcatenation.SortInPlace` | gtk-devops-algorithm/src/main/java/com/gqs/algorithm/class010_graphy/T001_LowestLexicography.java:18-18 | the array is left with the same strings and no neighbours out of order, which is all that is asked of the library's sort |
| `LowestConcatenation.LowestIffInOrder` | gtk-devops-algorithm/src/main/java/com/gqs/algorithm/class010_graphy/T001_LowestLexicography.java:18-23 | non-empty strings concatenate to the least string if and only if all pairs are in the comparator's order |
| `LowestConcatenation.LowestIffKeptInOrder` | gtk-devops-algorithm/src/main/java/com/gqs/algorithm/class010_graphy/T001_LowestLexicography.java:18-24 | strings left in any order concatenate to the least string if and only if the non-empty ones are in the comparator's order |
| `LowestConcatenation.EmptyMayHide` | gtk-devops-algorithm/src/main/java/com/gqs/algorithm/class010_graphy/T001_LowestLexicography.java:18-18 | with an empty string and two strings out of order there is an outcome of sorting that does not concatenate to the least string |
| `LowestConcatenation.AlwaysLowestIff` | gtk-devops-algorithm/src/main/java/com/gqs/algorithm/class010_graphy/T001_LowestLexicography.java:18-24 | every outcome of sorting concatenates to the least string if and only if no string is empty or no two are out of order in either order |
| `LowestConcatenation.EmptyStringSpoilsTheOrder` | gtk-devops-algorithm/src/main/java/com/gqs/algorithm/class010_graphy/T001_LowestLexicography.java:13-25 | b, the empty string and a may stay as they are, which is not the least concatenation |
| `LowestConcatenation.GetLowestLexicography` | gtk-devops-algorithm/src/main/java/com/gqs/algorithm/class010_graphy/T001_LowestLexicography.java:13-25 | the array is left sorted by neighbours and the result is its strings' concatenation; the least one if and only if the non-empty ones are left in order, so always when none is empty or no two are out of order |
| `LowestConcatenation.Process` | gtk-devops-algorithm/src/main/java/com/gqs/algorithm/class010_graphy/T001_LowestLexicography.java:86-101 | the set of exactly all concatenations of permutations |
| `LowestConcatenation.LowestString1` | gtk-devops-algorithm/src/main/java/com/gqs/algorithm/class010_graphy/T001_LowestLexicography.java:77-83 | the brute force returns the least of them |
| `LowestConcatenation.LowestIsUnique` | gtk-devops-algorithm/src/main/java/com/gqs/algorithm/class010_graphy/T001_LowestLexicography.java:13-104 | so both programs return the same string |
| `Components.CountIsUnique` | gtk-devops-algorithm/src/main/java/com/gqs/algorithm/class011_union_set/T003_NumberOfIslands.java:18-30 | a graph has one number of connected components, so all programs that return one agree |
| `Components.RootsAreComponents` | gtk-devops-algorithm/src/main/java/com/gqs/algorithm/class011_union_set/T003_NumberOfIslands.java:120-137 | when classes are components, the number of representatives is the number of components |
| `Islands.FloodNext` | gtk-devops-algorithm/src/main/java/com/gqs/algorithm/class011_union_set/T003_NumberOfIslands.java:32-41 | visiting one more neighbour keeps the flood inside the component and its border dry |
| `Islands.Infect` | gtk-devops-algorithm/src/main/java/com/gqs/algorithm/class011_union_set/T003_NumberOfIslands.java:32-41 | sinks exactly the connected component of a land cell, turning it to water, and changes nothing else or off the board |
| `Islands.CountNext` | gtk-devops-algorithm/src/main/java/com/gqs/algorithm/class011_union_set/T003_NumberOfIslands.java:22-26 | each island found adds one representative of a component not counted before |
| `Islands.NumIslands` | gtk-devops-algorithm/src/main/java/com/gqs/algorithm/class011_union_set/T003_NumberOfIslands.java:18-30 | the number of connected components of the land, all of which is turned to water and nothing else changed |
| `UnionIslands.UnionDots` | gtk-devops-algorithm/src/main/java/com/gqs/algorithm/class011_union_set/T003_NumberOfIslands.java:125-137 | one union of land cells adds just that link |
| `UnionIslands.TiedIsEnough` | gtk-devops-algorithm/src/main/java/com/gqs/algorithm/class011_union_set/T003_NumberOfIslands.java:69-97 | linking every land cell to the land on its left and above it gives the connectivity of the whole land |
| `UnionIslands.NumIslands1` | gtk-devops-algorithm/src/main/java/com/gqs/algorithm/class011_union_set/T003_NumberOfIslands.java:53-100 | the map union-find counts the connected components of the land |
| `UnionArrays.UnionArray.FindAncestor` | gtk-devops-algorithm/src/main/java/com/gqs/algorithm/class011_union_set/T003_NumberOfIslands.java:256-269 | returns the representative within the help array's bounds; the elements climbed through point at it afterwards and no other parent changes; the partition stays |
| `UnionArrays.UnionArray.Union` | gtk-devops-algorithm/src/main/java/com/gqs/algorithm/class011_union_set/T003_NumberOfIslands.java:237-254 | adds the link and lowers the count by exactly one when the classes differ, else not; the larger class keeps its representative, b's on a tie |
| `UnionArrays.UnionArray.SizeCounts` | gtk-devops-algorithm/src/main/java/com/gqs/algorithm/class011_union_set/T003_NumberOfIslands.java:275-277 | the running count is the number of components of the links made |
| `UnionIslands.UnionOfBoard` | gtk-devops-algorithm/src/main/java/com/gqs/algorithm/class011_union_set/T003_NumberOfIslands.java:217-235 | one class per land cell before any link |
| `UnionIslands.NumIslands2` | gtk-devops-algorithm/src/main/java/com/gqs/algorithm/class011_union_set/T003_NumberOfIslands.java:170-202 | the array union-find counts the connected components of the land |
| `UnionIslands.UnionNear` | gtk-devops-algorithm/src/main/java/com/gqs/algorithm/class011_union_set/T004_NumberIslandsII.java:61-85 | links the new cell to one side, and does nothing off the board or next to an absent cell |
| `UnionIslands.Connect` | gtk-devops-algorithm/src/main/java/com/gqs/algorithm/class011_union_set/T004_NumberIslandsII.java:43-59 | adds a cell, if it is new, and returns the number of connected components of the cells added so far |
| `UnionIslands.NumIslands21` | gtk-devops-algorithm/src/main/java/com/gqs/algorithm/class011_union_set/T004_NumberIslandsII.java:12-21 | every result counts the components of the positions up to its own, repeats included |
| `UnionArrays.RankFits` | gtk-devops-algorithm/src/main/java/com/gqs/algorithm/class011_union_set/T002_FriendCircles.java:63-75 | a climb is shorter than the number of elements, so the help array never overflows |
| `UnionArrays.UnionArray.Find` | gtk-devops-algorithm/src/main/java/com/gqs/algorithm/class011_union_set/T002_FriendCircles.java:63-75 | the variant that remembers parents: same representative and partition; the start alone of the climbed elements keeps its parent |
| `UnionArrays.UnionArray.UnionByFind` | gtk-devops-algorithm/src/main/java/com/gqs/algorithm/class011_union_set/T002_FriendCircles.java:77-92 | adds the link and lowers the count by exactly one when the classes differ, else not; the larger class keeps its representative, j's on a tie |
| `UnionIslands.FindCircleNum` | gtk-devops-algorithm/src/main/java/com/gqs/algorithm/class011_union_set/T002_FriendCircles.java:17-31 | the number of connected components of the friendships above the diagonal |
| `UnionIslands.HalfIsEnough` | gtk-devops-algorithm/src/main/java/com/gqs/algorithm/class011_union_set/T002_FriendCircles.java:21-28 | for mutual friendship that is the number of circles of all friendships |
| `Selection.Partition` | gtk-devops-algorithm/src/main/java/com/gqs/algorithm/class_020_bfprt/T001_FindMinKth.java:50-66 | rearranges only the range into smaller, equal and greater elements and returns the equal stretch |
| `Selection.Process` | gtk-devops-algorithm/src/main/java/com/gqs/algorithm/class_020_bfprt/T001_FindMinKth.java:25-47 | quickselect places the element of the wanted rank and splits the array around it |
| `Selection.MinKthOfCopy` | gtk-devops-algorithm/src/main/java/com/gqs/algorithm/class_020_bfprt/T001_FindMinKth.java:11-15 | the k-th smallest of the original array, with the first element of every range as its pivot |
| `Selection.GetMedian` | gtk-devops-algorithm/src/main/java/com/gqs/algorithm/class_020_bfprt/T002_bfprt.java:73-82 | sorts one group in place and returns its element at the middle, its lower median |
| `Selection.GroupsBound` | gtk-devops-algorithm/src/main/java/com/gqs/algorithm/class_020_bfprt/T002_bfprt.java:61-66 | elements below and above a value, counted by group, are bounded by the medians below and above it |
| `Selection.MedianOfMediansBalances` | gtk-devops-algorithm/src/main/java/com/gqs/algorithm/class_020_bfprt/T002_bfprt.java:55-70 | the median of the groups' medians leaves at most 7n/10+2 elements strictly on either side |
| `Selection.MedianOfMedians` | gtk-devops-algorithm/src/main/java/com/gqs/algorithm/class_020_bfprt/T002_bfprt.java:55-70 | rearranges only the range and returns the median of its groups' medians, one of its elements, which splits it so |
| `Selection.Bfprt` | gtk-devops-algorithm/src/main/java/com/gqs/algorithm/class_020_bfprt/T002_bfprt.java:20-41 | places the element of the wanted rank and terminates although the left call starts over from index 0 |
| `Selection.MinKth` | gtk-devops-algorithm/src/main/java/com/gqs/algorithm/class_020_bfprt/T002_bfprt.java:6-9 | the k-th smallest of the original array, left at its place with the array only rearranged |
| `Selection.KthIsUnique` | gtk-devops-algorithm/src/main/java/com/gqs/algorithm/class_020_bfprt/T002_bfprt.java:6-9 | there is one k-th smallest value, so both forms agree |
| `Palindromes.GetChars` | gtk-devops-algorithm/src/main/java/com/gqs/algorithm/class_019_Manacher/T001_Manacher.java:55-64 | the loop with its running index leaves separators at even positions and the characters in order at odd ones |
| `Palindromes.PalindromeIffMirrors` | gtk-devops-algorithm/src/main/java/com/gqs/algorithm/class_019_Manacher/T001_Manacher.java:27-64 | a stretch of the string, of odd or even length, is a palindrome if and only if the separated string mirrors that far around its middle |
| `Palindromes.ImageMirrors` | gtk-devops-algorithm/src/main/java/com/gqs/algorithm/class_019_Manacher/T001_Manacher.java:27-32 | inside a palindrome around C a position mirrors at least as far as its image |
| `Palindromes.RadiusAt` | gtk-devops-algorithm/src/main/java/com/gqs/algorithm/class_019_Manacher/T001_Manacher.java:32-41 | the radius stored at a centre is exact |
| `Palindromes.AllRadiiGiveLongest` | gtk-devops-algorithm/src/main/java/com/gqs/algorithm/class_019_Manacher/T001_Manacher.java:48-52 | the largest radius less one is the length of a longest palindromic substring |
| `Palindromes.Manacher` | gtk-devops-algorithm/src/main/java/com/gqs/algorithm/class_019_Manacher/T001_Manacher.java:11-53 | the length of a longest palindromic substring, 0 for an empty string |
| `Palindromes.Right` | gtk-devops-algorithm/src/main/java/com/gqs/algorithm/class_019_Manacher/T001_Manacher.java:69-85 | the quadratic check returns the same |
| `Palindromes.FirstToReachEnd` | gtk-devops-algorithm/src/main/java/com/gqs/algorithm/class_019_Manacher/T002_AddShortestEnd.java:44-53 | the first centre whose palindrome reaches the end belongs to the longest palindromic suffix |
| `Palindromes.AddShortestEnd` | gtk-devops-algorithm/src/main/java/com/gqs/algorithm/class_019_Manacher/T002_AddShortestEnd.java:11-60 | the string plus the result is a palindrome and no shorter end makes one |
| `Matching.GetNextArray` | gtk-devops-algorithm/src/main/java/com/gqs/algorithm/class_018_KMP/T001_KMP.java:69-102 | every entry of the failure table is the longest proper border of its prefix, -1 at the start |
| `Matching.SearchFallsBack` | gtk-devops-algorithm/src/main/java/com/gqs/algorithm/class_018_KMP/T001_KMP.java:47-61 | falling back by the failure table skips no occurrence |
| `Matching.GetIndexOf` | gtk-devops-algorithm/src/main/java/com/gqs/algorithm/class_018_KMP/T001_KMP.java:37-64 | the first occurrence or -1; an empty or longer pattern gives -1 |
| `Matching.IsRotation` | gtk-devops-algorithm/src/main/java/com/gqs/algorithm/class_018_KMP/T002_IsRotation.java:11-16 | true exactly for rotations of a non-empty string |
| `Matching.TokensDecode` | gtk-devops-algorithm/src/main/java/com/gqs/algorithm/class_018_KMP/T003_TreeEqual.java:112-120 | null-marked preorder tokens determine the tree and where it ends |
| `Matching.OccurrenceIsSubtree` | gtk-devops-algorithm/src/main/java/com/gqs/algorithm/class_018_KMP/T003_TreeEqual.java:81-93 | tokens of a non-null tree found in another's, wherever they start, are a whole subtree's |
| `Matching.SubtreeOccurs` | gtk-devops-algorithm/src/main/java/com/gqs/algorithm/class_018_KMP/T003_TreeEqual.java:81-93 | a subtree's tokens occur in the whole tree's |
| `Matching.IsSameValueStructure` | gtk-devops-algorithm/src/main/java/com/gqs/algorithm/class_018_KMP/T003_TreeEqual.java:22-37 | true exactly for equal trees |
| `Matching.ContainsIffSubtree` | gtk-devops-algorithm/src/main/java/com/gqs/algorithm/class_018_KMP/T003_TreeEqual.java:9-20 | the recursive test finds exactly the trees hanging below some point, the null tree in every tree |
| `Matching.IsContains` | gtk-devops-algorithm/src/main/java/com/gqs/algorithm/class_018_KMP/T003_TreeEqual.java:81-93 | true exactly for what hangs below some point of the first tree, the null tree included; what containsTree1 answers |
| `Stickers.Minus` | gtk-devops-algorithm/src/main/java/com/gqs/algorithm/class014_dp/T007_StickersToSpellWord.java:56-80 | the letters the word has beyond the sticker, as often as it has them, in alphabetical order |
| `Stickers.RestIsUnique` | gtk-devops-algorithm/src/main/java/com/gqs/algorithm/class014_dp/T007_StickersToSpellWord.java:56-80 | so the rest is one string, and the cache keyed by it has one key per rest |
| `Stickers.CutFirst` | gtk-devops-algorithm/src/main/java/com/gqs/algorithm/class014_dp/T007_StickersToSpellWord.java:41-41 | any sticker of a plan can be cut first: one sticker fewer spells the rest |
| `Stickers.OneLetterSuffices` | gtk-devops-algorithm/src/main/java/com/gqs/algorithm/class014_dp/T007_StickersToSpellWord.java:127-147 | trying just the stickers with one given missing letter finds the least number |
| `Stickers.Process` | gtk-devops-algorithm/src/main/java/com/gqs/algorithm/class014_dp/T007_StickersToSpellWord.java:30-47 | the exhaustive recursion finds the least number of stickers, repeats allowed, or that there is none |
| `Stickers.Process1` | gtk-devops-algorithm/src/main/java/com/gqs/algorithm/class014_dp/T007_StickersToSpellWord.java:111-150 | the pruned recursion finds the same |
| `Stickers.Process2` | gtk-devops-algorithm/src/main/java/com/gqs/algorithm/class014_dp/T007_StickersToSpellWord.java:182-224 | the recursion with a cache finds the same and keeps every cache entry right |
| `Stickers.MinStickers` | gtk-devops-algorithm/src/main/java/com/gqs/algorithm/class014_dp/T007_StickersToSpellWord.java:15-21 | 0 when there are no stickers or the word is empty; the answer is right if and only if there are stickers or the word is empty |
| `Stickers.MinStickers1` | gtk-devops-algorithm/src/main/java/com/gqs/algorithm/class014_dp/T007_StickersToSpellWord.java:89-102 | the answer is always right, -1 when the word cannot be spelled |
| `Stickers.MinStickers2` | gtk-devops-algorithm/src/main/java/com/gqs/algorithm/class014_dp/T007_StickersToSpellWord.java:158-173 | the same with a fresh cache |
| `Stickers.AnswerIsUnique` | gtk-devops-algorithm/src/main/java/com/gqs/algorithm/class014_dp/T007_StickersToSpellWord.java:15-224 | so where they are right the three programs agree |
| `CopyList.Weave` | gtk-devops-algorithm/src/main/java/com/gqs/algorithm/class006_node/T004_CopyRandomLinkList.java:47-53 | every node is followed by a fresh copy with its value, random links untouched |
| `CopyList.CopyRandoms` | gtk-devops-algorithm/src/main/java/com/gqs/algorithm/class006_node/T004_CopyRandomLinkList.java:55-61 | every copy's random link leads to the copy of where its node's leads |
| `CopyList.Split` | gtk-devops-algorithm/src/main/java/com/gqs/algorithm/class006_node/T004_CopyRandomLinkList.java:63-72 | the original's links are as they were and the copies form a list of their own |
| `CopyList.CopyRandomNode` | gtk-devops-algorithm/src/main/java/com/gqs/algorithm/class006_node/T004_CopyRandomLinkList.java:42-74 | a list of fresh nodes with the same values, next and random links; every link of the original as it was |
| `CopyList.CopyWithHashMap` | gtk-devops-algorithm/src/main/java/com/gqs/algorithm/class006_node/T004_CopyRandomLinkList.java:21-40 | the copy through a map has the same shape and does not touch the original |
| `CopyList.ShapeIsDetermined` | gtk-devops-algorithm/src/main/java/com/gqs/algorithm/class006_node/T004_CopyRandomLinkList.java:42-74 | a head node has one shape only, so equal descriptions mean isomorphic lists |
| `SubarrayMinimums.NearLessRight` | gtk-devops-algorithm/src/main/java/com/gqs/algorithm/class016_monotonousStack/T006_SumOfSubarrayMinimums.java:32-48 | the nearest strictly smaller element on the right of every position |
| `SubarrayMinimums.NearLessLeft` | gtk-devops-algorithm/src/main/java/com/gqs/algorithm/class016_monotonousStack/T006_SumOfSubarrayMinimums.java:51-69 | the nearest element no greater on the left of every position |
| `SubarrayMinimums.ChargesAreMinSum` | gtk-devops-algorithm/src/main/java/com/gqs/algorithm/class016_monotonousStack/T006_SumOfSubarrayMinimums.java:18-26 | charging every subarray to its leftmost minimum adds up the minima of all subarrays, ties included |
| `SubarrayMinimums.SumSubarrayMins` | gtk-devops-algorithm/src/main/java/com/gqs/algorithm/class016_monotonousStack/T006_SumOfSubarrayMinimums.java:12-29 | the sum of all subarrays' minima modulo 1000000007: the sum itself if it is below that and no element negative, a true remainder if none is negative, its negative if none is positive; in general the charges added up with a remainder taken after each |
| `Rectangles.PopFacing` | gtk-devops-algorithm/src/main/java/com/gqs/algorithm/class016_monotonousStack/T005_CountSubmatricesWithAllOnes.java:43-59 | a popped bar adds just the rectangles above both neighbours, and nothing when it equals the arriving one |
| `Rectangles.PendingEndsAreEnds` | gtk-devops-algorithm/src/main/java/com/gqs/algorithm/class016_monotonousStack/T005_CountSubmatricesWithAllOnes.java:41-63 | the stack knows the minimum of every interval that ends in the current column |
| `Rectangles.CountFromBottom` | gtk-devops-algorithm/src/main/java/com/gqs/algorithm/class016_monotonousStack/T005_CountSubmatricesWithAllOnes.java:32-79 | the sum over all intervals of columns of the least height, i.e. all rectangles on the bottom row |
| `Rectangles.OnesAreLow` | gtk-devops-algorithm/src/main/java/com/gqs/algorithm/class016_monotonousStack/T005_CountSubmatricesWithAllOnes.java:15-18 | a rectangle is all ones exactly when the bars it stands on are as high as it is |
| `Rectangles.NextRowCount` | gtk-devops-algorithm/src/main/java/com/gqs/algorithm/class016_monotonousStack/T005_CountSubmatricesWithAllOnes.java:14-21 | what a row adds is the number of all-ones rectangles that end in it |
| `Rectangles.NumSubmat` | gtk-devops-algorithm/src/main/java/com/gqs/algorithm/class016_monotonousStack/T005_CountSubmatricesWithAllOnes.java:6-24 | the number of all-ones sub-rectangles, each counted once |
| `LargestRectangle.LargestRectangleArea` | gtk-devops-algorithm/src/main/java/com/gqs/algorithm/class016_monotonousStack/T004_MaximalRectangle.java:33-63 | the largest width times least height over all intervals, 0 for no bars |
| `LargestRectangle.MaximalRectangle` | gtk-devops-algorithm/src/main/java/com/gqs/algorithm/class016_monotonousStack/T004_MaximalRectangle.java:8-25 | the size of a largest all-ones rectangle, 0 when there is none |
| `PrefixTree.InsertLetter` | gtk-devops-algorithm/src/main/java/com/gqs/algorithm/class005_count_sort/T001_PrefixTreeArray.java:21-28 | one letter of an insertion: a missing child appears and one pass count grows |
| `PrefixTree.CutTally` | gtk-devops-algorithm/src/main/java/com/gqs/algorithm/class005_count_sort/T001_PrefixTreeArray.java:40-47 | a pass count reaching zero means no word is left in the branch, so cutting it loses none |
| `PrefixTree.Tire.constructor` | gtk-devops-algorithm/src/main/java/com/gqs/algorithm/class005_count_sort/T001_PrefixTreeArray.java:9-11 | an empty tree |
| `PrefixTree.Tire.Insert` | gtk-devops-algorithm/src/main/java/com/gqs/algorithm/class005_count_sort/T001_PrefixTreeArray.java:14-30 | one more occurrence of the word, the root's pass count untouched; the empty word is ignored |
| `PrefixTree.Tire.Del` | gtk-devops-algorithm/src/main/java/com/gqs/algorithm/class005_count_sort/T001_PrefixTreeArray.java:33-50 | one occurrence of the word fewer if there is one, although a branch may be cut on the way; the root's pass count goes down just then |
| `PrefixTree.Tire.FindCount` | gtk-devops-algorithm/src/main/java/com/gqs/algorithm/class005_count_sort/T001_PrefixTreeArray.java:52-67 | how many occurrences of the word are left, 0 for the empty word |
| `PrefixTree.Tire.PrefixCount` | gtk-devops-algorithm/src/main/java/com/gqs/algorithm/class005_count_sort/T001_PrefixTreeArray.java:69-83 | how many occurrences start with the given letters, 0 for the empty string |
| `PrefixTreeAgreement.Right.PrefixNumber` | gtk-devops-algorithm/src/main/java/com/gqs/algorithm/class005_count_sort/PrefixTreeVerify.java:144-152 | the map's sum over its keys, in any order, counts the occurrences with the prefix |
| `PrefixTreeAgreement.SameCounts` | gtk-devops-algorithm/src/main/java/com/gqs/algorithm/class005_count_sort/PrefixTreeVerify.java:8-52 | after any run the words held differ by empty words only |
| `PrefixTreeAgreement.Verify` | gtk-devops-algorithm/src/main/java/com/gqs/algorithm/class005_count_sort/PrefixTreeVerify.java:27-48 | after any run tree and map agree on every non-empty query, and on the empty one if and only if the map has none of it to count |
| `HeapGreater.HeapGreater.Swap` | gtk-devops-algorithm/src/main/java/com/gqs/algorithm/class004_heap/HeapGreater.java:114-124 | exchanges two elements and their recorded positions |
| `HeapGreater.HeapGreater.Push` | gtk-devops-algorithm/src/main/java/com/gqs/algorithm/class004_heap/HeapGreater.java:49-53 | the element is added to those in the heap and the heap order holds; the reverse index stays right if and only if the element was not held already |
| `HeapGreater.HeapGreater.Pop` | gtk-devops-algorithm/src/main/java/com/gqs/algorithm/class004_heap/HeapGreater.java:55-62 | takes out the root, which precedes all others, and no other; the reverse index stays right |
| `HeapGreater.HeapGreater.Contains` | gtk-devops-algorithm/src/main/java/com/gqs/algorithm/class004_heap/HeapGreater.java:64-66 | true exactly for the elements in the heap's array, though it asks the reverse index |
| `HeapGreater.HeapGreater.Size` | gtk-devops-algorithm/src/main/java/com/gqs/algorithm/class004_heap/HeapGreater.java:68-70 | the number of elements in the heap's array, all different while the index is right |
| `HeapGreater.HeapGreater.Remove` | gtk-devops-algorithm/src/main/java/com/gqs/algorithm/class004_heap/HeapGreater.java:72-83 | takes out just the given element if and only if it is the last one or does not tie with the last one, which is lost otherwise |
| `HeapGreater.RemoveBeforeTie` | gtk-devops-algorithm/src/main/java/com/gqs/algorithm/class004_heap/HeapGreater.java:72-83 | of two different elements that tie, asking to remove the front one takes out the other |
| `HeapGreater.HeapGreater.Adjust` | gtk-devops-algorithm/src/main/java/com/gqs/algorithm/class004_heap/HeapGreater.java:86-89 | restores the heap order when one element may be out of order up or down |
| `HeapGreater.RootIsFirst` | gtk-devops-algorithm/src/main/java/com/gqs/algorithm/class004_heap/HeapGreater.java:55-62 | the root of a heap precedes every element |

## Left out

- LockProtocol.StepKeepsInv: connection setup, the persistent parent node, the `setData` calls, exceptions swallowed by `tryLock`, and a second acquisition through one lock object are not modelled.
- LockSafety.FreeLockIsTaken: that a callback which is outstanding is delivered some time is an assumption about the server, not stated.
- ZkLock: its callbacks take the same steps; only its delete without the `exists` check differs, which on a live node is the same step.
- CoinTables.GetMinZhangDp: for a positive amount no value is below 0; the index error the others lead to is not modelled as a result.
- Coffee.MinTime: times are not negative, and with people to serve there is a machine, since the queue is polled.
- GoldSplitting.Process: weights are not negative and the array is not empty, as its caller ensures.
- LowestConcatenation.GetLowestLexicography: which of the outcomes allowed by `SortInPlace` the library's sort picks for an array with an empty string, and whether it rejects the comparator on a long one, is not modelled.
- UnionIslands.NumIslands1: a dot is known by its cell's number instead of by a fresh object, and the wrapper node around it is dropped.
- UnionIslands.NumIslands2: boards have a row, and a column unless there is one row only, as the code indexes them.
- UnionIslands.Connect: positions lie on the board.
- Rectangles.NumSubmat: the matrix is rectangular; so is every board and map.
- Matching.IsContains: tokens are numbers or the null marker instead of their decimal strings, which differ exactly when the numbers do; trees are values.
- Stickers.Minus: words are over a-z, as the code's tables require.
- SubarrayMinimums.SumSubarrayMins: the product of the two distances is not cut to 32 bits.
- CopyList.CopyRandomNode: the list ends, and every random link leads into it or nowhere.
- HeapGreater.HeapGreater.Remove: the element is in the heap, and the heap has not had one element pushed twice.
- PrefixTree.Tire.Insert: words are over a-z, as the child tables require; a null word is not modelled.
- Null arrays and strings are modelled only where they lead to a result of their own (`getLowestLexicography`).
- T002_PrefixTreeHash, the same tree over hash children, and NodeHeap in T009_Dijkstra, the same index technique with keys, would repeat what is here.
- Shortest paths, the remaining sorts, counting during merges, sliding-window counts, the remaining tree and list exercises, and the heap and quickselect forms of the top-k problem.
- The heap forms of finding the k-th smallest, the running time of any algorithm, and 32-bit overflow.
- Web, messaging, storage and security code around the workspace, which is plumbing over libraries.
