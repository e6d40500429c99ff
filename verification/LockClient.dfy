/**
 The client side of the ZooKeeper lock: what one lock object does when the ZooKeeper
 client library calls it back.  Sequential nodes of one lock are named by a common prefix
 and a zero-padded counter, so they are modelled by that counter alone and sorting names
 is sorting numbers.
*/
module LockClient {
  import opened Sorting
  import opened Wrappers

  /** What a lock object is waiting for: a callback not yet run or a request not yet served. */
  datatype Call =
    | CreateReply(name: nat)            // create finished on the server, its callback not yet run
    | ListRequest                       // getChildren sent, not yet served
    | ListReply(children: seq<nat>)     // children snapshot taken, its callback not yet run
    | ExistsRequest(path: nat)          // exists(path, this) sent, not yet served
    | NodeDeleted(path: nat)            // deletion event fired, its callback not yet run

  /** The fields of a lock object: its node's name once known, and whether its latch is open. */
  datatype Local = Local(lockSeqName: Option<nat>, open: bool)

  // ----- the list handling of the children callback

  ghost predicate Distinct(s: seq<nat>) {
    forall i, j :: 0 <= i < j < |s| ==> s[i] != s[j]
  }

  /** List.indexOf, with null for an unknown name. */
  function IndexOf(s: seq<nat>, x: Option<nat>): (i: int)
    ensures -1 <= i < |s|
    ensures i >= 0 ==> x == Some(s[i]) && x.value !in s[..i]
    ensures i < 0 ==> x.None? || x.value !in s
  {
    if s == [] then -1
    else if x == Some(s[0]) then 0
    else
      var i := IndexOf(s[1..], x);
      if i < 0 then -1 else i + 1
  }

  /** The element just before one's own name in the sorted list is the greatest smaller name. */
  lemma PredecessorIsGreatestBelow(children: seq<nat>, own: nat, sorted: seq<nat>, index: int)
    requires own in children
    requires sorted == Sort(children) && index == IndexOf(sorted, Some(own))
    ensures index >= 0
    ensures index == 0 ==> forall n :: n in children ==> own <= n
    ensures index > 0 ==> sorted[index - 1] in children && sorted[index - 1] < own
    ensures index > 0 ==> forall n :: n in children && n < own ==> n <= sorted[index - 1]
  {
    hide Sort, IndexOf;
    SortKeepsElements(children);
    if index > 0 {
      assert sorted[..index][index - 1] == sorted[index - 1];
    }
    AscendingAround(sorted, own, index);
  }

  lemma AscendingAround(sorted: seq<nat>, own: nat, index: nat)
    requires Ascending(sorted) && index < |sorted| && sorted[index] == own
    ensures index == 0 ==> forall n :: n in sorted ==> own <= n
    ensures index > 0 ==> forall n :: n in sorted && n < own ==> n <= sorted[index - 1]
  {
    forall n | n in sorted
      ensures index == 0 ==> own <= n
      ensures index > 0 && n < own ==> n <= sorted[index - 1]
    {
      var k :| 0 <= k < |sorted| && sorted[k] == n;
    }
  }

  // ----- the callbacks, as functions on the fields

  ghost function OnCreated(l: Local, name: Option<nat>): (Local, seq<Call>) {
    if name.None? then (l, []) else (l.(lockSeqName := name), [ListRequest])
  }

  ghost function OnChildren(l: Local, children: seq<nat>): (Local, seq<Call>) {
    if |children| < 1 then (l, []) else
      var sorted := Sort(children);
      var index := IndexOf(sorted, l.lockSeqName);
      if index < 1 then (l.(open := true), [])
      else (l, [ExistsRequest(sorted[index - 1])])
  }

  ghost function OnExists(l: Local, found: bool): Local {
    if found then l else l.(open := true)
  }

  ghost function OnEvent(l: Local, deletion: bool): seq<Call> {
    if deletion then [ListRequest] else []
  }

  /**
   What the children callback decides: open the latch when no listed name is smaller than
   one's own, else ask for the greatest smaller one.
  */
  lemma ChildrenDecision(l: Local, children: seq<nat>, own: nat, result: (Local, seq<Call>))
    requires l.lockSeqName == Some(own) && own in children && result == OnChildren(l, children)
    ensures (forall n :: n in children ==> own <= n) ==> result == (l.(open := true), [])
    ensures (exists n :: n in children && n < own) ==>
              exists p: nat :: result == (l, [ExistsRequest(p)]) && p in children && p < own
                          && forall n :: n in children && n < own ==> n <= p
  {
    var sorted := Sort(children);
    PredecessorIsGreatestBelow(children, own, sorted, IndexOf(sorted, Some(own)));
  }

  // ----- what a children list says

  ghost predicate NothingListed(children: Option<seq<nat>>) {
    children.None? || children.value == []
  }

  /** The list lacks one's own name, or holds no smaller one. */
  ghost predicate NoneSmaller(own: Option<nat>, children: seq<nat>) {
    own.None? || own.value !in children || forall n :: n in children ==> own.value <= n
  }

  ghost predicate IsJustBefore(p: nat, own: Option<nat>, children: seq<nat>) {
    own.Some? && p in children && p < own.value && forall n :: n in children && n < own.value ==> n <= p
  }

  /** The position in the sorted list tells which. */
  lemma WhereListed(children: seq<nat>, own: Option<nat>, sorted: seq<nat>, index: int)
    requires sorted == Sort(children) && index == IndexOf(sorted, own)
    ensures index < 1 <==> NoneSmaller(own, children)
    ensures index >= 1 ==> IsJustBefore(sorted[index - 1], own, children)
  {
    SortKeepsElements(children);
    if own.Some? && own.value in children {
      PredecessorIsGreatestBelow(children, own.value, sorted, index);
    }
  }

  /** The lock object itself; every callback changes its fields exactly as the function above. */
  class LockZookeeper {
    var lockSeqName: Option<nat>
    var downLatch: nat

    ghost function View(): Local
      reads this
    {
      Local(lockSeqName, downLatch == 0)
    }

    constructor ()
      ensures View() == Local(None, false)
    {
      lockSeqName, downLatch := None, 1;
    }

    method CountDown()
      modifies this`downLatch
      ensures downLatch == 0 && View() == old(View()).(open := true)
    {
      if downLatch > 0 {
        downLatch := 0;
      }
    }

    /** The create callback: only a name found is stored and asks for the children; the latch stays as it is. */
    method ProcessCreated(name: Option<nat>) returns (requests: seq<Call>)
      modifies this
      ensures downLatch == old(downLatch)
      ensures name.None? ==> lockSeqName == old(lockSeqName) && requests == []
      ensures name.Some? ==> lockSeqName == name && requests == [ListRequest]
      ensures (View(), requests) == OnCreated(old(View()), name)
    {
      if name.None? {
        return [];
      }
      requests := [ListRequest];
      lockSeqName := name;
    }

    /**
     The children callback, up to the exists call it may send.  A null or empty list changes nothing.
     Any other list opens the latch unless it holds one's own name and a smaller one.
    */
    method ProcessChildren(children: Option<seq<nat>>) returns (requests: seq<Call>)
      modifies this
      ensures lockSeqName == old(lockSeqName)
      ensures NothingListed(children) ==> downLatch == old(downLatch) && requests == []
      ensures !NothingListed(children) && NoneSmaller(lockSeqName, children.value) ==> downLatch == 0 && requests == []
      ensures !NothingListed(children) && !NoneSmaller(lockSeqName, children.value) ==>
                downLatch == old(downLatch)
                && exists p: nat :: requests == [ExistsRequest(p)] && IsJustBefore(p, lockSeqName, children.value)
      ensures children.Some? ==> (View(), requests) == OnChildren(old(View()), children.value)
    {
      if children.None? || |children.value| < 1 {
        return [];
      }
      var list := Sort(children.value);
      var index := IndexOf(list, lockSeqName);
      WhereListed(children.value, lockSeqName, list, index);
      if index < 1 {
        CountDown();
        return [];
      }
      requests := [ExistsRequest(list[index - 1])];
    }

    /** The rest of the children callback, once exists has answered. */
    method AfterExists(found: bool)
      modifies this
      ensures lockSeqName == old(lockSeqName) && downLatch == if found then old(downLatch) else 0
      ensures View() == OnExists(old(View()), found)
    {
      if !found {
        CountDown();
      }
    }

    /** unLock, where found is what exists answers about its node: the node to delete, if any. */
    method UnLock(found: bool) returns (deleted: Option<nat>)
      ensures lockSeqName.Some? && found ==> deleted == lockSeqName
      ensures lockSeqName.None? || !found ==> deleted == None
    {
      deleted := None;
      if lockSeqName.None? {
        return;
      }
      if found {
        deleted := lockSeqName;
      }
    }

    /** The watch callback: a deletion is answered by one listing, any other event by nothing. */
    method Process(deletion: bool) returns (requests: seq<Call>)
      ensures deletion ==> requests == [ListRequest]
      ensures !deletion ==> requests == []
      ensures requests == OnEvent(View(), deletion)
    {
      if deletion {
        return [ListRequest];
      }
      requests := [];
    }
  }
}
