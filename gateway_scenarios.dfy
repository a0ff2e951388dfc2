/** Concrete runs of the parallel gateway on a small definition: gateway G
    joins the flows A->G and B->G and forks into G->C and G->D. */
module GatewayScenarios {
  import opened Wrappers
  import opened ProcessGraph
  import opened Executions
  import opened ParallelGateway

  const flowAG := Transition("flowAG", "A", "G")
  const flowBG := Transition("flowBG", "B", "G")
  const flowGC := Transition("flowGC", "G", "C")
  const flowGD := Transition("flowGD", "G", "D")

  const definition: ProcessDefinition := map[
    "A" := Activity([], [flowAG]),
    "B" := Activity([], [flowBG]),
    "G" := Activity([flowAG, flowBG], [flowGC, flowGD]),
    "C" := Activity([flowGC], []),
    "D" := Activity([flowGD], [])]

  /** A concurrent execution under root 0 that has just reached G. */
  function ArrivedAtG(id: ExecId, via: Transition): Execution {
    Execution(id, "G", true, true, 0, Some(via))
  }

  lemma JoinedOne(e: Execution)
    requires IsParkedAt(e, 0, "G")
    ensures Joined([e], 0, "G") == [e]
  {
  }

  lemma IndexOfSecond(a: Execution, b: Execution, id: ExecId)
    requires a.id != id && b.id == id
    ensures IndexOf([a, b], id) == 1
  {
  }

  lemma RetireBoth(a: Execution, b: Execution)
    ensures Retire([a, b], [a, b]) == []
  {
    var both := [a, b];
    assert a in both && b in both;
    assert a.id in IdsOf(both) && b.id in IdsOf(both);
    assert Retire([], both) == [];
    assert [b][1..] == [];
    assert Retire([b], both) == [];
    assert [a, b][1..] == [b];
  }

  lemma GatewayG()
    ensures "G" in definition
    ensures definition["G"] == Activity([flowAG, flowBG], [flowGC, flowGD])
  {
  }

  lemma DefinitionIsWellFormed()
    ensures WellFormed(definition)
  {
  }

  /** The first of two branches arrives at G: it parks and G reports 1 of 2. */
  lemma FirstArrivalParks()
    ensures var s := TreeState([ArrivedAtG(1, flowAG), ArrivedAtG(2, flowBG)], 3);
            Arriving(s, definition, 1) &&
            Step(s, definition, 1) ==
              StepResult(TreeState([ArrivedAtG(1, flowAG).(isActive := false), ArrivedAtG(2, flowBG)], 3),
                         NoActivityActivation("G", 1, 2))
  {
    var e1 := ArrivedAtG(1, flowAG);
    var e2 := ArrivedAtG(2, flowBG);
    var s := TreeState([e1, e2], 3);
    GatewayG();
    assert s.executions[0].id == 1;
    assert IndexOf(s.executions, 1) == 0;
    assert Lookup(s.executions, 1) == e1;
    var p := [e1.(isActive := false), e2];
    assert Park(s.executions, 1) == p;
    JoinedOne(e1.(isActive := false));
    assert Joined(p, 0, "G") == [e1.(isActive := false)] by {
      assert p[..1] == [e1.(isActive := false)];
    }
  }

  /** The second branch arrives at G: G fires, reports 2 of 2, retires both
      executions and leaves one new execution at C and one at D. */
  lemma SecondArrivalFires()
    ensures var s := TreeState([ArrivedAtG(1, flowAG).(isActive := false), ArrivedAtG(2, flowBG)], 3);
            Arriving(s, definition, 2) &&
            Step(s, definition, 2) ==
              StepResult(TreeState([Execution(3, "C", true, true, 0, Some(flowGC)),
                                    Execution(4, "D", true, true, 0, Some(flowGD))], 5),
                         ActivityActivation("G", 2, 2))
  {
    var e1 := ArrivedAtG(1, flowAG).(isActive := false);
    var e2 := ArrivedAtG(2, flowBG);
    var s := TreeState([e1, e2], 3);
    GatewayG();
    assert s.executions[1].id == 2;
    IndexOfSecond(e1, e2, 2);
    assert Lookup(s.executions, 2) == e2;
    var p := [e1, e2.(isActive := false)];
    assert Park(s.executions, 2) == p;
    JoinedOne(e1);
    assert Joined(p, 0, "G") == p by {
      assert p[..1] == [e1];
    }
    RetireBoth(e1, e2.(isActive := false));
  }

  /** The documented difference from the standard: two tokens over A->G and
      none over B->G still fire G, reporting 2 of 2, although B->G carries no
      token and the standard's rule is not met. */
  lemma DuplicateFlowStillFires()
    ensures var s := TreeState([ArrivedAtG(1, flowAG).(isActive := false), ArrivedAtG(2, flowAG)], 3);
            Arriving(s, definition, 2) &&
            Step(s, definition, 2).observation == ActivityActivation("G", 2, 2) &&
            !EveryIncomingFlowHasToken(Joined(Park(s.executions, 2), 0, "G"), definition["G"].incoming)
  {
    var e1 := ArrivedAtG(1, flowAG).(isActive := false);
    var e2 := ArrivedAtG(2, flowAG);
    var s := TreeState([e1, e2], 3);
    assert s.executions[1].id == 2;
    IndexOfSecond(e1, e2, 2);
    var p := [e1, e2.(isActive := false)];
    assert Park(s.executions, 2) == p;
    JoinedOne(e1);
    assert Joined(p, 0, "G") == p by {
      assert p[..1] == [e1];
    }
    assert flowBG in definition["G"].incoming;
    forall j | j in p ensures j.incomingVia != Some(flowBG) {
    }
  }

  /** A third token parked at G under the same root overshoots the count:
      3 of 2 does not fire, and the strict comparison leaves all three
      parked. */
  lemma SurplusArrivalParks()
    ensures var s := TreeState([ArrivedAtG(1, flowAG).(isActive := false),
                                ArrivedAtG(2, flowAG).(isActive := false),
                                ArrivedAtG(5, flowBG)], 6);
            Arriving(s, definition, 5) &&
            Step(s, definition, 5).observation == NoActivityActivation("G", 3, 2)
  {
    var e1 := ArrivedAtG(1, flowAG).(isActive := false);
    var e2 := ArrivedAtG(2, flowAG).(isActive := false);
    var e3 := ArrivedAtG(5, flowBG);
    var s := TreeState([e1, e2, e3], 6);
    GatewayG();
    assert s.executions[2].id == 5;
    assert IndexOf(s.executions, 5) == 2 by {
      assert s.executions[1..] == [e2, e3];
      IndexOfSecond(e2, e3, 5);
    }
    assert Lookup(s.executions, 5) == e3;
    var p := [e1, e2, e3.(isActive := false)];
    assert Park(s.executions, 5) == p;
    JoinedOne(e1);
    assert Joined([e1, e2], 0, "G") == [e1, e2] by {
      assert [e1, e2][..1] == [e1];
    }
    assert Joined(p, 0, "G") == p by {
      assert p[..2] == [e1, e2];
    }
  }

  /** The two-branch join driven through the behaviour on a live tree: the
      arrival from A parks, the arrival from B fires G and leaves executions
      at C and D. */
  method TwoBranchJoinOnTree() returns (first: Observation, second: Observation, positions: seq<ActivityId>)
    ensures first == NoActivityActivation("G", 1, 2)
    ensures second == ActivityActivation("G", 2, 2)
    ensures positions == ["C", "D"]
  {
    var tree := new ExecutionTree(TreeState([ArrivedAtG(1, flowAG), ArrivedAtG(2, flowBG)], 3));
    FirstArrivalParks();
    first := Execute(tree, definition, 1);
    SecondArrivalFires();
    second := Execute(tree, definition, 2);
    positions := [tree.executions[0].activity, tree.executions[1].activity];
  }
}
