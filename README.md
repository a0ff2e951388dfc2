# Parallel gateway fork/join, modelled in Dafny

This project models the AND gateway of the process engine's BPMN behaviours.
The gateway implements the parallel gateway of BPMN 2.0, section 13.3.1
"Parallel Gateway (Fork and Join)". When an execution (a token) arrives, the
behaviour does four things. It makes the execution inactive. It collects the
inactive concurrent executions at the gateway, the arriving one included. It
compares their number with the gateway's number of incoming transitions. On an
exact match it leaves via every outgoing transition and consumes the joined
executions. Otherwise it does nothing more. Both paths report the activity id,
the number joined and the number required.

Files and modules:

- `process_graph.dfy` (`ProcessGraph`): the immutable process definition. This is a
  map from activity id to the activity's ordered incoming and outgoing
  transitions. It also holds two small set/sequence cardinality facts.
- `execution_tree.dfy` (`Executions`): the execution tree the behaviour works on.
  Executions are records with an id, the activity they are positioned at, an
  active flag, a concurrent flag, a concurrency root and the transition they
  arrived by. The executions are kept in tree order. The class
  `ExecutionTree` holds them and is changed in place by three primitives:
  - `Inactivate`;
  - `FindInactiveConcurrentExecutions`;
  - `LeaveActivityViaTransitions`.
  Each primitive is proved against a specification function (`Park`,
  `Joined`, `LeaveVia`).
- `parallel_gateway.dfy` (`ParallelGateway`): the behaviour itself.
  `Execute` runs the same statements in the same order as the source, against
  an `ExecutionTree`. It is proved equal to the functional `Step`, and the
  gateway's promises are proved as lemmas about `Step`.
- `gateway_scenarios.dfy` (`GatewayScenarios`): concrete runs on gateway G. G
  joins A->G and B->G and forks into G->C and G->D. The runs cover the
  two-branch join, the duplicate-flow deviation and surplus arrivals.

The tree primitives' own implementations are not part of this model. They are
stated as abstract operations: inactivate flips one flag; find filters the
tree; leave removes the consumed executions and appends one active execution
per outgoing transition at its destination. Executions are grouped for a join
by their stored concurrency root.

The join rule counts arrivals, not covered flows. This matches the deviation
from the standard documented in the source (lines 40-44). `DuplicateFlowStillFires`
proves it on a concrete tree. `CountRuleAgreesWithFlowRule` proves that the two
rules coincide when every joined token came over its own incoming transition.

## Model

| member | source | states |
|---|---|---|
| `ParallelGateway.Execute` | engine/src/main/java/org/camunda/bpm/engine/impl/bpmn/behavior/ParallelGatewayActivityBehavior.java:67-93 | Running the behaviour on a tree gives exactly the new tree and the observation of `Step`, and keeps ids unique |
| `ParallelGateway.ArrivingExecutionIsJoined` | engine/src/main/java/org/camunda/bpm/engine/impl/bpmn/behavior/ParallelGatewayActivityBehavior.java:74-78 | The arriving execution is inactivated before counting, so it is one of the joined executions and its id is among the arrivals |
| `ParallelGateway.StepObservation` | engine/src/main/java/org/camunda/bpm/engine/impl/bpmn/behavior/ParallelGatewayActivityBehavior.java:80-91 | The gateway fires iff the number of distinct executions parked at it under the concurrency root equals its number of incoming transitions; both observations carry the activity id and exactly those two counts, and at least one execution has arrived |
| `ParallelGateway.SurplusArrivalsDoNotFire` | engine/src/main/java/org/camunda/bpm/engine/impl/bpmn/behavior/ParallelGatewayActivityBehavior.java:84 | The comparison is strict: with more parked executions than incoming transitions the gateway does not fire and only the arriving execution is parked |
| `ParallelGateway.NotFiredOnlyParks` | engine/src/main/java/org/camunda/bpm/engine/impl/bpmn/behavior/ParallelGatewayActivityBehavior.java:74 | When the gateway does not fire, the arriving execution becomes inactive and every other execution, the tree size and the id counter are unchanged |
| `ParallelGateway.FiredRetiresExactlyJoined` | engine/src/main/java/org/camunda/bpm/engine/impl/bpmn/behavior/ParallelGatewayActivityBehavior.java:88 | When it fires, the executions removed are exactly those parked at the gateway under the root, as many as there are incoming transitions; all others stay |
| `ParallelGateway.FiredForks` | engine/src/main/java/org/camunda/bpm/engine/impl/bpmn/behavior/ParallelGatewayActivityBehavior.java:72-88 | When it fires, one new active execution per outgoing transition is appended in order, at that transition's destination, under the same root, concurrent iff there are several; every transition is taken, and no condition is checked |
| `ParallelGateway.FiredLeavesNobodyWaiting` | engine/src/main/java/org/camunda/bpm/engine/impl/bpmn/behavior/ParallelGatewayActivityBehavior.java:84-88 | After firing, no execution is parked at the gateway under the root, so the join fires once per complete set of arrivals |
| `ParallelGateway.PureFork` | engine/src/main/java/org/camunda/bpm/engine/impl/bpmn/behavior/ParallelGatewayActivityBehavior.java:46-49 | With one incoming transition and no other parked execution, the first arrival fires at once and reports 1 joined of 1 required |
| `ParallelGateway.StepPreservesValid` | engine/src/main/java/org/camunda/bpm/engine/impl/bpmn/behavior/ParallelGatewayActivityBehavior.java:74-88 | Every arrival keeps execution ids unique and below the next id |
| `ParallelGateway.StepKeepsPositionsInGraph` | engine/src/main/java/org/camunda/bpm/engine/impl/bpmn/behavior/ParallelGatewayActivityBehavior.java:72 | In a well-formed definition every execution stays positioned at an activity of the definition |
| `ParallelGateway.CountRuleAgreesWithFlowRule` | engine/src/main/java/org/camunda/bpm/engine/impl/bpmn/behavior/ParallelGatewayActivityBehavior.java:40-44 | If distinct joined tokens arrived over distinct incoming transitions, arrival count equal to incoming count holds iff every incoming flow has a token |
| `Executions.ExecutionTree.Inactivate` | engine/src/main/java/org/camunda/bpm/engine/impl/bpmn/behavior/ParallelGatewayActivityBehavior.java:74 | Only the arriving execution's active flag is cleared; ids stay unique |
| `Executions.ExecutionTree.FindInactiveConcurrentExecutions` | engine/src/main/java/org/camunda/bpm/engine/impl/bpmn/behavior/ParallelGatewayActivityBehavior.java:78 | Returns, in tree order, the inactive executions at the activity that share the arriving execution's concurrency root |
| `Executions.ExecutionTree.LeaveActivityViaTransitions` | engine/src/main/java/org/camunda/bpm/engine/impl/bpmn/behavior/ParallelGatewayActivityBehavior.java:88 | Removes the consumed executions and appends one new execution per outgoing transition under the leaving execution's root; ids stay unique |
| `Executions.ParkOnlyInactivates` | engine/src/main/java/org/camunda/bpm/engine/impl/bpmn/behavior/ParallelGatewayActivityBehavior.java:74 | Inactivation changes the flag of the execution with that id and nothing else |
| `Executions.JoinedMembers` | engine/src/main/java/org/camunda/bpm/engine/impl/bpmn/behavior/ParallelGatewayActivityBehavior.java:78 | An execution is joined iff it is in the tree and parked at the activity under the root |
| `Executions.JoinedUnique` | engine/src/main/java/org/camunda/bpm/engine/impl/bpmn/behavior/ParallelGatewayActivityBehavior.java:78 | The joined list repeats no execution |
| `Executions.JoinedCount` | engine/src/main/java/org/camunda/bpm/engine/impl/bpmn/behavior/ParallelGatewayActivityBehavior.java:78-82 | The size of the joined list is the number of distinct executions parked at the activity |
| `Executions.RetireMembers` | engine/src/main/java/org/camunda/bpm/engine/impl/bpmn/behavior/ParallelGatewayActivityBehavior.java:88 | After retiring, exactly the executions whose ids were not consumed remain |
| `Executions.RetireUnique` | engine/src/main/java/org/camunda/bpm/engine/impl/bpmn/behavior/ParallelGatewayActivityBehavior.java:88 | Retiring keeps ids unique |
| `Executions.RetireCount` | engine/src/main/java/org/camunda/bpm/engine/impl/bpmn/behavior/ParallelGatewayActivityBehavior.java:88 | Retiring executions of the tree removes exactly as many as were consumed |
| `Executions.LeaveViaPreservesValid` | engine/src/main/java/org/camunda/bpm/engine/impl/bpmn/behavior/ParallelGatewayActivityBehavior.java:88 | Leaving via transitions keeps ids unique and below the next id |
| `GatewayScenarios.FirstArrivalParks` | engine/src/main/java/org/camunda/bpm/engine/impl/bpmn/behavior/ParallelGatewayActivityBehavior.java:90-92 | On G, the arrival from A parks and reports 1 joined of 2 required |
| `GatewayScenarios.SecondArrivalFires` | engine/src/main/java/org/camunda/bpm/engine/impl/bpmn/behavior/ParallelGatewayActivityBehavior.java:84-88 | On G, the arrival from B then fires, reports 2 of 2, retires both executions and leaves active executions at C and D |
| `GatewayScenarios.DuplicateFlowStillFires` | engine/src/main/java/org/camunda/bpm/engine/impl/bpmn/behavior/ParallelGatewayActivityBehavior.java:40-44 | Two tokens over A->G and none over B->G still fire G (2 of 2), although the standard's per-flow rule is not met |
| `GatewayScenarios.SurplusArrivalParks` | engine/src/main/java/org/camunda/bpm/engine/impl/bpmn/behavior/ParallelGatewayActivityBehavior.java:84 | Three parked executions at G (3 of 2) do not fire |
| `GatewayScenarios.TwoBranchJoinOnTree` | engine/src/main/java/org/camunda/bpm/engine/impl/bpmn/behavior/ParallelGatewayActivityBehavior.java:67-93 | Driving `Execute` twice on a live tree reports 1 of 2 and then 2 of 2, and leaves executions at C and D |

## Left out

- Locking of the concurrency root (line 76) is left out, along with the mutual exclusion it gives against siblings arriving at the same time. Each `Execute` is modelled as atomic and sequential.
- The real execution tree behind `ActivityExecution`, `PvmActivity` and `PvmTransition` is left out, including parent/child links, scope executions, pruning and execution reuse. The three primitives are modelled abstractly, as described above.
- The concurrency root is a stored field of each execution. The model does not derive it from an ancestor.
- Every execution is positioned at some activity. The "not positioned" state is not modelled because the gateway never sees it.
- Logging (line 65) is left out. Only the observed tuple of activity id, joined count and required count is modelled, as `Observation`.
- Exceptions (`throws Exception`, line 67), persistence, the job scheduler and history are left out. `Execute` requires that the arriving execution is in the tree and positioned at an activity of the definition. The source dereferences both without checking them.
- The dispatch interface `ActivityBehavior` holds no logic. It appears only as the signature of `Execute`.
- The performance test harness `StartEventPerformanceTest` only drives the engine, so it is left out.
- Transitions carry no conditions in this model. "No condition is evaluated" is stated as "every outgoing transition is taken" (`FiredForks`).
