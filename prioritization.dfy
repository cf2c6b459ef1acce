/** The priority assignment rule applied to the service's parsed reply: a
    fallback chain high, then medium, then low, over every task. */
module Prioritization {
  import opened TaskModel

  /** What the call and `json.loads` produce: the call fails, the text is not
      JSON, the JSON is not an object (so `.get` raises), or an object whose
      keys map to lists of task names. */
  datatype PriorityReply =
    | ServiceError
    | InvalidJson
    | NotAnObject
    | Priorities(lists: map<string, seq<string>>)

  /** `priorities.get(key, [])`. */
  function Listed(lists: map<string, seq<string>>, key: string): (names: seq<string>)
    ensures key !in lists ==> names == []
  {
    if key in lists then lists[key] else []
  }

  /** The conditional expression assigned to `task.priority`. */
  function PriorityFor(name: string, lists: map<string, seq<string>>): (p: string)
    ensures p == "high" <==> name in Listed(lists, "high")
    ensures p == "medium" <==> name !in Listed(lists, "high") && name in Listed(lists, "medium")
    ensures p == "low" <==> name !in Listed(lists, "high") && name !in Listed(lists, "medium")
  {
    if name in Listed(lists, "high") then "high"
    else if name in Listed(lists, "medium") then "medium"
    else "low"
  }

  /** The task list after the assignment loop: each task's priority replaced
      by high, medium or low, nothing else touched, resolved tasks included. */
  function Prioritized(ts: seq<Task>, lists: map<string, seq<string>>): (r: seq<Task>)
    ensures |r| == |ts|
    ensures forall i :: 0 <= i < |ts| ==>
              r[i].(priority := ts[i].priority) == ts[i] && r[i].priority in {"high", "medium", "low"}
  {
    seq(|ts|, i requires 0 <= i < |ts| => ts[i].(priority := PriorityFor(ts[i].name, lists)))
  }

  /** Statuses are untouched, so the pending and completed views after
      re-prioritising are the re-prioritised views, in the same order. */
  lemma {:induction false} PrioritizedKeepsStatusViews(ts: seq<Task>, lists: map<string, seq<string>>, v: string)
    ensures Select(Prioritized(ts, lists), Status, v) == Prioritized(Select(ts, Status, v), lists)
    decreases |ts|
  {
    if ts != [] {
      var r := Prioritized(ts, lists);
      var head := if ts[0].status == v then [ts[0]] else [];
      PrioritizedTail(ts, lists);
      PrioritizedKeepsStatusViews(ts[1..], lists, v);
      PrioritizedConcat(head, Select(ts[1..], Status, v), lists);
      assert (if r[0].status == v then [r[0]] else []) == Prioritized(head, lists);
    }
  }

  lemma PrioritizedTail(ts: seq<Task>, lists: map<string, seq<string>>)
    requires ts != []
    ensures Prioritized(ts, lists)[1..] == Prioritized(ts[1..], lists)
  {
  }

  lemma PrioritizedConcat(a: seq<Task>, b: seq<Task>, lists: map<string, seq<string>>)
    ensures Prioritized(a + b, lists) == Prioritized(a, lists) + Prioritized(b, lists)
  {
  }

  /** Appending a task and re-prioritising leaves the earlier tasks first, in
      order, and the new task last. */
  lemma PrioritizedAppend(ts: seq<Task>, t: Task, lists: map<string, seq<string>>)
    ensures Prioritized(ts + [t], lists)
            == Prioritized(ts, lists) + [t.(priority := PriorityFor(t.name, lists))]
  {
  }

  /** A priority depends only on the name, so re-running with the same reply
      changes nothing. */
  lemma PrioritizedIdempotent(ts: seq<Task>, lists: map<string, seq<string>>)
    ensures Prioritized(Prioritized(ts, lists), lists) == Prioritized(ts, lists)
  {
  }

  /** The reply {"high": ["A"], "medium": [], "low": []} over tasks A and B
      makes A high and B low. */
  lemma PriorityExample(a: Task, b: Task)
    requires a.name == "A" && b.name == "B"
    ensures Prioritized([a, b], map["high" := ["A"], "medium" := [], "low" := []])
            == [a.(priority := "high"), b.(priority := "low")]
  {
    var lists := map["high" := ["A"], "medium" := [], "low" := []];
    assert "B" !in Listed(lists, "high");
  }
}
