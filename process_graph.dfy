/** The process definition a process instance runs on: activities and the
    sequence flows (transitions) between them. It is loaded once and never
    changed at runtime. */
module ProcessGraph {

  type ActivityId = string

  /** A sequence flow from one activity to another. */
  datatype Transition = Transition(id: string, source: ActivityId, destination: ActivityId)

  /** An activity with its ordered incoming and outgoing transitions. The
      activity's id is its key in the process definition. */
  datatype Activity = Activity(incoming: seq<Transition>, outgoing: seq<Transition>)

  type ProcessDefinition = map<ActivityId, Activity>

  /** Every transition listed at an activity really starts or ends there, and
      its other end is an activity of the same definition. */
  predicate WellFormed(graph: ProcessDefinition) {
    forall a :: a in graph ==>
      (forall t :: t in graph[a].incoming ==> t.destination == a && t.source in graph) &&
      (forall t :: t in graph[a].outgoing ==> t.source == a && t.destination in graph)
  }

  /** No element occurs twice. */
  predicate Distinct<T(==)>(s: seq<T>) {
    forall i, j :: 0 <= i < j < |s| ==> s[i] != s[j]
  }

  function Elements<T>(s: seq<T>): set<T> {
    set x | x in s
  }

  /** A sequence without repetitions has as many elements as its set has. */
  lemma {:induction false} DistinctCardinality<T>(s: seq<T>)
    requires Distinct(s)
    ensures |Elements(s)| == |s|
  {
    if |s| > 0 {
      assert Distinct(s[1..]) by {
        forall i, j | 0 <= i < j < |s[1..]| ensures s[1..][i] != s[1..][j] {
          assert s[1..][i] == s[i + 1] && s[1..][j] == s[j + 1];
        }
      }
      DistinctCardinality(s[1..]);
      assert Elements(s) == {s[0]} + Elements(s[1..]) by {
        forall x ensures x in Elements(s) <==> x == s[0] || x in Elements(s[1..]) {
          if x in s && x != s[0] {
            var k :| 0 <= k < |s| && s[k] == x;
            assert s[1..][k - 1] == x;
          }
        }
      }
      forall k | 0 <= k < |s[1..]| ensures s[1..][k] != s[0] {
        assert s[1..][k] == s[k + 1];
      }
    }
  }

  /** A subset as large as its finite superset is the superset. */
  lemma SubsetOfEqualSize<T>(a: set<T>, b: set<T>)
    requires a <= b && |a| == |b|
    ensures a == b
  {
    var extra := b - a;
    assert b == a + extra;
    assert |b| == |a| + |extra|;
  }
}
