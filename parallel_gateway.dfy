/** The behaviour of the parallel (AND) gateway of BPMN 2.0: an arriving
    execution is parked; once as many executions are parked at the gateway
    as it has incoming transitions, they are all consumed and the gateway is
    left via every outgoing transition (a fork when there are several). */
module ParallelGateway {
  import opened Wrappers
  import opened ProcessGraph
  import opened Executions

  /** What the behaviour reports on each of its two paths: the gateway's
      activity id, the number of executions joined and the number required. */
  datatype Observation =
    | ActivityActivation(activityId: ActivityId, nbrOfExecutionsJoined: nat, nbrOfExecutionsToJoin: nat)
    | NoActivityActivation(activityId: ActivityId, nbrOfExecutionsJoined: nat, nbrOfExecutionsToJoin: nat)

  datatype StepResult = StepResult(tree: TreeState, observation: Observation)

  /** The execution is in the tree and positioned at an activity of the
      process definition (the gateway whose behaviour runs). */
  predicate Arriving(s: TreeState, graph: ProcessDefinition, id: ExecId) {
    Contains(s.executions, id) && Lookup(s.executions, id).activity in graph
  }

  /** The effect of one arrival at the gateway: park, count, compare, and
      either leave via all outgoing transitions or do nothing more. */
  function Step(s: TreeState, graph: ProcessDefinition, id: ExecId): StepResult
    requires Arriving(s, graph, id)
  {
    var x := Lookup(s.executions, id);
    var activity := graph[x.activity];
    var parked := s.(executions := Park(s.executions, id));
    var joined := Joined(parked.executions, x.concurrencyRoot, x.activity);
    var nbrOfExecutionsToJoin := |activity.incoming|;
    var nbrOfExecutionsJoined := |joined|;
    if nbrOfExecutionsJoined == nbrOfExecutionsToJoin then
      StepResult(LeaveVia(parked, activity.outgoing, joined, x.concurrencyRoot),
                 ActivityActivation(x.activity, nbrOfExecutionsJoined, nbrOfExecutionsToJoin))
    else
      StepResult(parked, NoActivityActivation(x.activity, nbrOfExecutionsJoined, nbrOfExecutionsToJoin))
  }

  /** The gateway behaviour run when an execution arrives at it. */
  method Execute(tree: ExecutionTree, graph: ProcessDefinition, id: ExecId) returns (observation: Observation)
    requires tree.Valid() && Arriving(tree.State(), graph, id)
    modifies tree
    ensures tree.Valid()
    ensures StepResult(tree.State(), observation) == Step(old(tree.State()), graph, id)
  {
    ParkOnlyInactivates(tree.executions, id);
    var activity := Lookup(tree.executions, id).activity;
    var outgoingTransitions := graph[activity].outgoing;
    tree.Inactivate(id);
    var joinedExecutions := tree.FindInactiveConcurrentExecutions(id, activity);
    var nbrOfExecutionsToJoin := |graph[activity].incoming|;
    var nbrOfExecutionsJoined := |joinedExecutions|;
    if nbrOfExecutionsJoined == nbrOfExecutionsToJoin {
      observation := ActivityActivation(activity, nbrOfExecutionsJoined, nbrOfExecutionsToJoin);
      tree.LeaveActivityViaTransitions(id, outgoingTransitions, joinedExecutions);
    } else {
      observation := NoActivityActivation(activity, nbrOfExecutionsJoined, nbrOfExecutionsToJoin);
    }
  }

  // ----- What one arrival does -----

  /** The arriving execution is inactivated before the count is taken, so it
      is itself one of the joined executions. */
  lemma ArrivingExecutionIsJoined(s: TreeState, graph: ProcessDefinition, id: ExecId)
    requires ValidState(s) && Arriving(s, graph, id)
    ensures var x := Lookup(s.executions, id);
            var p := Park(s.executions, id);
            x.(isActive := false) in Joined(p, x.concurrencyRoot, x.activity) &&
            id in ArrivedIds(p, x.concurrencyRoot, x.activity)
  {
    var x := Lookup(s.executions, id);
    var p := Park(s.executions, id);
    ParkOnlyInactivates(s.executions, id);
    JoinedMembers(p, x.concurrencyRoot, x.activity);
    assert Lookup(p, id) in p;
  }

  /** The gateway fires exactly when the number of distinct executions parked
      at it under the concurrency root equals its number of incoming
      transitions, and it reports those two numbers on either path. */
  lemma StepObservation(s: TreeState, graph: ProcessDefinition, id: ExecId)
    requires ValidState(s) && Arriving(s, graph, id)
    ensures var x := Lookup(s.executions, id);
            var arrived := |ArrivedIds(Park(s.executions, id), x.concurrencyRoot, x.activity)|;
            var required := |graph[x.activity].incoming|;
            var obs := Step(s, graph, id).observation;
            obs.activityId == x.activity &&
            obs.nbrOfExecutionsJoined == arrived &&
            obs.nbrOfExecutionsToJoin == required &&
            1 <= arrived &&
            (obs.ActivityActivation? <==> arrived == required)
  {
    var x := Lookup(s.executions, id);
    ParkOnlyInactivates(s.executions, id);
    JoinedCount(Park(s.executions, id), x.concurrencyRoot, x.activity);
    ArrivingExecutionIsJoined(s, graph, id);
  }

  /** The comparison is strict equality: with more executions parked than
      there are incoming transitions the gateway does not fire. */
  lemma SurplusArrivalsDoNotFire(s: TreeState, graph: ProcessDefinition, id: ExecId)
    requires ValidState(s) && Arriving(s, graph, id)
    requires var x := Lookup(s.executions, id);
             |ArrivedIds(Park(s.executions, id), x.concurrencyRoot, x.activity)| > |graph[x.activity].incoming|
    ensures Step(s, graph, id).observation.NoActivityActivation?
    ensures Step(s, graph, id).tree == s.(executions := Park(s.executions, id))
  {
    StepObservation(s, graph, id);
  }

  /** When the gateway does not fire, the arriving execution has become
      inactive and nothing else in the tree has changed. */
  lemma NotFiredOnlyParks(s: TreeState, graph: ProcessDefinition, id: ExecId)
    requires ValidState(s) && Arriving(s, graph, id)
    requires Step(s, graph, id).observation.NoActivityActivation?
    ensures var t := Step(s, graph, id).tree;
            t.nextId == s.nextId && |t.executions| == |s.executions| &&
            forall k :: 0 <= k < |s.executions| ==>
              t.executions[k] == if s.executions[k].id == id then s.executions[k].(isActive := false) else s.executions[k]
  {
  }

  /** When the gateway fires, the executions removed are exactly the ones
      parked at it under the concurrency root, as many as it has incoming
      transitions; every other execution stays. */
  lemma FiredRetiresExactlyJoined(s: TreeState, graph: ProcessDefinition, id: ExecId)
    requires ValidState(s) && Arriving(s, graph, id)
    requires Step(s, graph, id).observation.ActivityActivation?
    ensures var x := Lookup(s.executions, id);
            var p := Park(s.executions, id);
            var t := Step(s, graph, id).tree;
            var n := |t.executions| - |graph[x.activity].outgoing|;
            0 <= n && |p| - n == |graph[x.activity].incoming| &&
            (forall y :: y in t.executions[..n] ==> y in p) &&
            (forall y :: y in p ==> (y in t.executions[..n] <==> !IsParkedAt(y, x.concurrencyRoot, x.activity)))
  {
    var x := Lookup(s.executions, id);
    var root, act := x.concurrencyRoot, x.activity;
    var p := Park(s.executions, id);
    var joined := Joined(p, root, act);
    var kept := Retire(p, joined);
    var t := Step(s, graph, id).tree;
    ParkOnlyInactivates(s.executions, id);
    JoinedMembers(p, root, act);
    JoinedUnique(p, root, act);
    RetireMembers(p, joined);
    RetireCount(p, joined);
    assert t.executions[..|kept|] == kept;
    forall y | y in p ensures y in kept <==> !IsParkedAt(y, root, act) {
      if y.id in IdsOf(joined) {
        var z :| z in joined && z.id == y.id;
        SameIdSameExecution(p, y, z);
      }
    }
  }

  /** When the gateway fires, one new active execution is created per
      outgoing transition, in order, at the transition's destination, under
      the same concurrency root; they are concurrent when there are several.
      Every outgoing transition is taken: no condition is consulted. */
  lemma FiredForks(s: TreeState, graph: ProcessDefinition, id: ExecId)
    requires ValidState(s) && Arriving(s, graph, id)
    requires Step(s, graph, id).observation.ActivityActivation?
    ensures var x := Lookup(s.executions, id);
            var out := graph[x.activity].outgoing;
            var t := Step(s, graph, id).tree;
            var n := |t.executions| - |out|;
            0 <= n && t.nextId == s.nextId + |out| &&
            forall k :: 0 <= k < |out| ==>
              t.executions[n + k] ==
                Execution(s.nextId + k, out[k].destination, true, |out| > 1, x.concurrencyRoot, Some(out[k]))
  {
  }

  /** After the gateway fires, no execution is left waiting at it under the
      concurrency root, so the next arrival starts a new count. */
  lemma FiredLeavesNobodyWaiting(s: TreeState, graph: ProcessDefinition, id: ExecId)
    requires ValidState(s) && Arriving(s, graph, id)
    requires Step(s, graph, id).observation.ActivityActivation?
    ensures var x := Lookup(s.executions, id);
            ArrivedIds(Step(s, graph, id).tree.executions, x.concurrencyRoot, x.activity) == {}
  {
    var x := Lookup(s.executions, id);
    var root, act := x.concurrencyRoot, x.activity;
    var p := Park(s.executions, id);
    var joined := Joined(p, root, act);
    var kept := Retire(p, joined);
    var born := Spawn(graph[act].outgoing, s.nextId, root);
    JoinedMembers(p, root, act);
    RetireMembers(p, joined);
    forall y | y in kept + born ensures !IsParkedAt(y, root, act) {
      if y in kept {
        assert y.id !in IdsOf(joined);
      }
    }
  }

  /** With one incoming transition and no other execution parked at the
      gateway, the first arrival fires at once: the pure fork. */
  lemma PureFork(s: TreeState, graph: ProcessDefinition, id: ExecId)
    requires ValidState(s) && Arriving(s, graph, id)
    requires var x := Lookup(s.executions, id);
             |graph[x.activity].incoming| == 1 &&
             forall y :: y in s.executions && y.id != id ==> !IsParkedAt(y, x.concurrencyRoot, x.activity)
    ensures Step(s, graph, id).observation == ActivityActivation(Lookup(s.executions, id).activity, 1, 1)
  {
    var x := Lookup(s.executions, id);
    var p := Park(s.executions, id);
    ParkOnlyInactivates(s.executions, id);
    ArrivingExecutionIsJoined(s, graph, id);
    forall y | y in p && y.id != id ensures !IsParkedAt(y, x.concurrencyRoot, x.activity) {
      var k :| 0 <= k < |p| && p[k] == y;
      assert y == s.executions[k];
    }
    assert ArrivedIds(p, x.concurrencyRoot, x.activity) == {id};
    StepObservation(s, graph, id);
  }

  /** Every arrival keeps execution ids unique and below the next id. */
  lemma StepPreservesValid(s: TreeState, graph: ProcessDefinition, id: ExecId)
    requires ValidState(s) && Arriving(s, graph, id)
    ensures ValidState(Step(s, graph, id).tree)
  {
    var x := Lookup(s.executions, id);
    var p := s.(executions := Park(s.executions, id));
    ParkOnlyInactivates(s.executions, id);
    LeaveViaPreservesValid(p, graph[x.activity].outgoing, Joined(p.executions, x.concurrencyRoot, x.activity), x.concurrencyRoot);
  }

  /** In a well-formed definition, executions stay positioned at activities
      of the definition. */
  lemma StepKeepsPositionsInGraph(s: TreeState, graph: ProcessDefinition, id: ExecId)
    requires WellFormed(graph) && ValidState(s) && Arriving(s, graph, id)
    requires forall k :: 0 <= k < |s.executions| ==> s.executions[k].activity in graph
    ensures var t := Step(s, graph, id).tree;
            forall k :: 0 <= k < |t.executions| ==> t.executions[k].activity in graph
  {
    var x := Lookup(s.executions, id);
    var root, act := x.concurrencyRoot, x.activity;
    var p := Park(s.executions, id);
    ParkOnlyInactivates(s.executions, id);
    var joined := Joined(p, root, act);
    RetireMembers(p, joined);
    var kept := Retire(p, joined);
    forall y | y in kept ensures y.activity in graph {
      var k :| 0 <= k < |p| && p[k] == y;
    }
  }

  // ----- Counting arrivals versus covering incoming flows -----

  /** The activation rule of the BPMN 2.0 standard: at least one token has
      arrived on each incoming sequence flow. */
  predicate EveryIncomingFlowHasToken(joined: seq<Execution>, incoming: seq<Transition>) {
    forall t :: t in incoming ==> exists j :: j in joined && j.incomingVia == Some(t)
  }

  /** While every joined execution came over its own incoming transition, the
      count rule and the standard's rule agree. */
  lemma CountRuleAgreesWithFlowRule(joined: seq<Execution>, incoming: seq<Transition>)
    requires Distinct(incoming)
    requires forall j :: j in joined ==> j.incomingVia.Some? && j.incomingVia.value in incoming
    requires forall i, k :: 0 <= i < k < |joined| ==> joined[i].incomingVia != joined[k].incomingVia
    ensures |joined| == |incoming| <==> EveryIncomingFlowHasToken(joined, incoming)
  {
    var vias := seq(|joined|, i requires 0 <= i < |joined| => joined[i].incomingVia.value);
    assert Distinct(vias) by {
      forall i, k | 0 <= i < k < |vias| ensures vias[i] != vias[k] {
        assert joined[i] in joined && joined[k] in joined;
      }
    }
    DistinctCardinality(vias);
    DistinctCardinality(incoming);
    assert Elements(vias) <= Elements(incoming) by {
      forall v | v in Elements(vias) ensures v in Elements(incoming) {
        var i :| 0 <= i < |vias| && vias[i] == v;
        assert joined[i] in joined;
      }
    }
    if |joined| == |incoming| {
      SubsetOfEqualSize(Elements(vias), Elements(incoming));
      forall t | t in incoming ensures exists j :: j in joined && j.incomingVia == Some(t) {
        assert t in Elements(vias);
        var i :| 0 <= i < |vias| && vias[i] == t;
        assert joined[i] in joined;
      }
    }
    if EveryIncomingFlowHasToken(joined, incoming) {
      assert Elements(incoming) <= Elements(vias) by {
        forall t | t in Elements(incoming) ensures t in Elements(vias) {
          var j :| j in joined && j.incomingVia == Some(t);
          var i :| 0 <= i < |joined| && joined[i] == j;
          assert vias[i] == t;
        }
      }
      assert Elements(vias) == Elements(incoming);
    }
  }
}
