/** The runtime execution tree of one process instance, reduced to what the
    parallel gateway reads and changes: every execution (token) with the
    activity it is positioned at, whether it is active, and the concurrency
    root that groups it with its concurrent siblings. */
module Executions {
  import opened Wrappers
  import opened ProcessGraph

  type ExecId = nat

  /** One token. `incomingVia` is the transition over which it reached its
      current activity, if any; the gateway itself never reads it. */
  datatype Execution = Execution(
    id: ExecId,
    activity: ActivityId,
    isActive: bool,
    isConcurrent: bool,
    concurrencyRoot: ExecId,
    incomingVia: Option<Transition>)

  /** The executions in tree order, and the id the next new execution gets. */
  datatype TreeState = TreeState(executions: seq<Execution>, nextId: ExecId)

  predicate UniqueIds(execs: seq<Execution>) {
    forall i, j :: 0 <= i < j < |execs| ==> execs[i].id != execs[j].id
  }

  /** Ids are unique and all below the id the next new execution gets. */
  predicate ValidState(s: TreeState) {
    UniqueIds(s.executions) &&
    forall k :: 0 <= k < |s.executions| ==> s.executions[k].id < s.nextId
  }

  predicate Contains(execs: seq<Execution>, id: ExecId) {
    exists k :: 0 <= k < |execs| && execs[k].id == id
  }

  function IdsOf(execs: seq<Execution>): set<ExecId> {
    set x | x in execs :: x.id
  }

  /** The position of the first execution with the given id, or -1. */
  function IndexOf(execs: seq<Execution>, id: ExecId): (k: int)
    ensures -1 <= k < |execs|
    ensures 0 <= k ==> execs[k].id == id && forall j :: 0 <= j < k ==> execs[j].id != id
    ensures k < 0 <==> !Contains(execs, id)
  {
    if |execs| == 0 then -1
    else if execs[0].id == id then 0
    else
      var k := IndexOf(execs[1..], id);
      assert Contains(execs[1..], id) ==> Contains(execs, id) by {
        if Contains(execs[1..], id) {
          var j :| 0 <= j < |execs[1..]| && execs[1..][j].id == id;
          assert execs[j + 1].id == id;
        }
      }
      assert Contains(execs, id) ==> Contains(execs[1..], id) by {
        if Contains(execs, id) {
          var j :| 0 <= j < |execs| && execs[j].id == id;
          assert execs[1..][j - 1].id == id;
        }
      }
      if k < 0 then -1 else k + 1
  }

  function Lookup(execs: seq<Execution>, id: ExecId): Execution
    requires Contains(execs, id)
  {
    execs[IndexOf(execs, id)]
  }

  /** The tree after the execution with the given id is made inactive. */
  function Park(execs: seq<Execution>, id: ExecId): (r: seq<Execution>)
    ensures |r| == |execs|
    ensures forall k :: 0 <= k < |execs| ==> r[k].id == execs[k].id
  {
    var k := IndexOf(execs, id);
    if k < 0 then execs else execs[k := execs[k].(isActive := false)]
  }

  /** The execution is parked at the activity, under the concurrency root. */
  predicate IsParkedAt(x: Execution, root: ExecId, activity: ActivityId) {
    !x.isActive && x.activity == activity && x.concurrencyRoot == root
  }

  /** The inactive concurrent executions at an activity, in tree order. */
  function Joined(execs: seq<Execution>, root: ExecId, activity: ActivityId): seq<Execution> {
    if |execs| == 0 then []
    else
      var last := execs[|execs| - 1];
      Joined(execs[..|execs| - 1], root, activity) + (if IsParkedAt(last, root, activity) then [last] else [])
  }

  /** The ids of the executions parked at an activity: the arrival count of a
      join is the size of this set. */
  function ArrivedIds(execs: seq<Execution>, root: ExecId, activity: ActivityId): set<ExecId> {
    set x | x in execs && IsParkedAt(x, root, activity) :: x.id
  }

  /** The tree without the executions consumed by a join. */
  function Retire(execs: seq<Execution>, consumed: seq<Execution>): seq<Execution> {
    if |execs| == 0 then []
    else (if execs[0].id in IdsOf(consumed) then [] else [execs[0]]) + Retire(execs[1..], consumed)
  }

  /** One new active execution per outgoing transition, positioned at its
      destination; they are concurrent siblings when there is more than one. */
  function Spawn(outgoing: seq<Transition>, firstId: ExecId, root: ExecId): seq<Execution> {
    seq(|outgoing|, k requires 0 <= k < |outgoing| =>
      Execution(firstId + k, outgoing[k].destination, true, |outgoing| > 1, root, Some(outgoing[k])))
  }

  /** Leaving an activity via transitions: the consumed executions are removed
      and one new execution per transition is added under the concurrency root
      of the execution that leaves. */
  function LeaveVia(s: TreeState, outgoing: seq<Transition>, consumed: seq<Execution>, root: ExecId): TreeState {
    TreeState(Retire(s.executions, consumed) + Spawn(outgoing, s.nextId, root), s.nextId + |outgoing|)
  }

  // ----- Properties of the tree operations -----

  lemma SameIdSameExecution(execs: seq<Execution>, x: Execution, y: Execution)
    requires UniqueIds(execs) && x in execs && y in execs && x.id == y.id
    ensures x == y
  {
  }

  /** Inactivating an execution changes its active flag and nothing else. */
  lemma ParkOnlyInactivates(execs: seq<Execution>, id: ExecId)
    requires UniqueIds(execs) && Contains(execs, id)
    ensures UniqueIds(Park(execs, id)) && Contains(Park(execs, id), id)
    ensures Lookup(Park(execs, id), id) == Lookup(execs, id).(isActive := false)
    ensures forall k :: 0 <= k < |execs| ==>
      Park(execs, id)[k] == if execs[k].id == id then execs[k].(isActive := false) else execs[k]
  {
  }

  /** The joined executions are exactly the ones parked at the activity. */
  lemma {:induction false} JoinedMembers(execs: seq<Execution>, root: ExecId, activity: ActivityId)
    ensures forall x :: x in Joined(execs, root, activity) <==> x in execs && IsParkedAt(x, root, activity)
  {
    if |execs| > 0 {
      var init := execs[..|execs| - 1];
      JoinedMembers(init, root, activity);
      assert execs == init + [execs[|execs| - 1]];
    }
  }

  lemma {:induction false} JoinedUnique(execs: seq<Execution>, root: ExecId, activity: ActivityId)
    requires UniqueIds(execs)
    ensures UniqueIds(Joined(execs, root, activity))
  {
    if |execs| > 0 {
      var init := execs[..|execs| - 1];
      var last := execs[|execs| - 1];
      JoinedUnique(init, root, activity);
      JoinedMembers(init, root, activity);
      var j := Joined(init, root, activity);
      forall x | x in j ensures x.id != last.id {
        var i :| 0 <= i < |init| && init[i] == x;
        assert execs[i] == x;
      }
    }
  }

  lemma {:induction false} UniqueIdsCardinality(execs: seq<Execution>)
    requires UniqueIds(execs)
    ensures |IdsOf(execs)| == |execs|
  {
    if |execs| > 0 {
      var rest := execs[1..];
      UniqueIdsCardinality(rest);
      assert IdsOf(execs) == {execs[0].id} + IdsOf(rest) by {
        assert execs == [execs[0]] + rest;
      }
      forall i | 0 <= i < |rest| ensures rest[i].id != execs[0].id {
        assert rest[i] == execs[i + 1];
      }
    }
  }

  /** The number of joined executions is the number of distinct executions
      parked at the activity. */
  lemma JoinedCount(execs: seq<Execution>, root: ExecId, activity: ActivityId)
    requires UniqueIds(execs)
    ensures |Joined(execs, root, activity)| == |ArrivedIds(execs, root, activity)|
  {
    var j := Joined(execs, root, activity);
    JoinedMembers(execs, root, activity);
    JoinedUnique(execs, root, activity);
    UniqueIdsCardinality(j);
    assert IdsOf(j) == ArrivedIds(execs, root, activity);
  }

  /** Retiring keeps exactly the executions whose id was not consumed. */
  lemma {:induction false} RetireMembers(execs: seq<Execution>, consumed: seq<Execution>)
    ensures forall x :: x in Retire(execs, consumed) <==> x in execs && x.id !in IdsOf(consumed)
  {
    if |execs| > 0 {
      RetireMembers(execs[1..], consumed);
      assert execs == [execs[0]] + execs[1..];
    }
  }

  lemma {:induction false} RetireUnique(execs: seq<Execution>, consumed: seq<Execution>)
    requires UniqueIds(execs)
    ensures UniqueIds(Retire(execs, consumed))
  {
    if |execs| > 0 {
      var rest := execs[1..];
      RetireUnique(rest, consumed);
      RetireMembers(rest, consumed);
      forall x | x in Retire(rest, consumed) ensures x.id != execs[0].id {
        var i :| 0 <= i < |rest| && rest[i] == x;
        assert execs[i + 1] == x;
      }
    }
  }

  /** Retiring a set of executions of the tree removes exactly that many. */
  lemma RetireCount(execs: seq<Execution>, consumed: seq<Execution>)
    requires UniqueIds(execs) && UniqueIds(consumed)
    requires forall x :: x in consumed ==> x in execs
    ensures |Retire(execs, consumed)| == |execs| - |consumed|
  {
    var kept := Retire(execs, consumed);
    RetireMembers(execs, consumed);
    RetireUnique(execs, consumed);
    UniqueIdsCardinality(execs);
    UniqueIdsCardinality(consumed);
    UniqueIdsCardinality(kept);
    assert IdsOf(kept) == IdsOf(execs) - IdsOf(consumed);
    assert IdsOf(consumed) <= IdsOf(execs);
  }

  /** Leaving an activity keeps ids unique and below the next id. */
  lemma LeaveViaPreservesValid(s: TreeState, outgoing: seq<Transition>, consumed: seq<Execution>, root: ExecId)
    requires ValidState(s)
    ensures ValidState(LeaveVia(s, outgoing, consumed, root))
  {
    var kept := Retire(s.executions, consumed);
    var born := Spawn(outgoing, s.nextId, root);
    RetireUnique(s.executions, consumed);
    RetireMembers(s.executions, consumed);
    var all := kept + born;
    forall k | 0 <= k < |kept| ensures kept[k].id < s.nextId {
      assert kept[k] in s.executions;
    }
    forall i, j | 0 <= i < j < |all| ensures all[i].id != all[j].id {
      if j < |kept| {
        assert all[i] == kept[i] && all[j] == kept[j];
      } else if i < |kept| {
        assert all[i] == kept[i] && all[j] == born[j - |kept|];
      }
    }
  }

  /** The execution tree of a process instance, changed in place by the
      behaviours of the activities its executions arrive at. */
  class ExecutionTree {
    var executions: seq<Execution>
    var nextId: ExecId

    function State(): TreeState
      reads this
    {
      TreeState(executions, nextId)
    }

    predicate Valid()
      reads this
    {
      ValidState(State())
    }

    constructor (s: TreeState)
      requires ValidState(s)
      ensures Valid() && State() == s
    {
      executions := s.executions;
      nextId := s.nextId;
    }

    /** Makes an execution inactive; it stays in the tree, parked at its
        activity, available for counting. */
    method Inactivate(id: ExecId)
      requires Valid() && Contains(executions, id)
      modifies this
      ensures Valid()
      ensures State() == old(State()).(executions := Park(old(executions), id))
    {
      ParkOnlyInactivates(executions, id);
      var k := IndexOf(executions, id);
      executions := executions[k := executions[k].(isActive := false)];
    }

    /** The inactive executions at the activity that share the concurrency
        root of the given execution, in tree order. */
    method FindInactiveConcurrentExecutions(id: ExecId, activity: ActivityId) returns (joined: seq<Execution>)
      requires Contains(executions, id)
      ensures joined == Joined(executions, Lookup(executions, id).concurrencyRoot, activity)
    {
      var root := Lookup(executions, id).concurrencyRoot;
      joined := [];
      var i := 0;
      while i < |executions|
        invariant 0 <= i <= |executions|
        invariant joined == Joined(executions[..i], root, activity)
      {
        assert executions[..i + 1][..i] == executions[..i];
        if IsParkedAt(executions[i], root, activity) {
          joined := joined + [executions[i]];
        }
        i := i + 1;
      }
      assert executions[..i] == executions;
    }

    /** Removes the consumed executions and creates one execution per
        outgoing transition, under the concurrency root of the given
        execution. */
    method LeaveActivityViaTransitions(id: ExecId, outgoing: seq<Transition>, consumed: seq<Execution>)
      requires Valid() && Contains(executions, id)
      modifies this
      ensures Valid()
      ensures State() == LeaveVia(old(State()), outgoing, consumed, Lookup(old(executions), id).concurrencyRoot)
    {
      var root := Lookup(executions, id).concurrencyRoot;
      LeaveViaPreservesValid(State(), outgoing, consumed, root);
      var firstId := nextId;
      ghost var born := Spawn(outgoing, firstId, root);
      var kept := Retire(executions, consumed);
      executions := kept;
      var i := 0;
      while i < |outgoing|
        invariant 0 <= i <= |outgoing|
        invariant nextId == firstId + i
        invariant executions == kept + born[..i]
      {
        assert born[..i + 1] == born[..i] + [born[i]];
        executions := executions + [Execution(nextId, outgoing[i].destination, true, |outgoing| > 1, root, Some(outgoing[i]))];
        nextId := nextId + 1;
        i := i + 1;
      }
      assert born[..i] == born;
    }
  }
}
