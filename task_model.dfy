/** The `Task` record, its construction and validation, and the views the
    task board shows: the pending, completed and per-date filters and the
    pending list sorted by priority. */
module TaskModel {
  import opened Wrappers
  import opened Calendar
  import opened IsoDate
  import Lex

  /** A task as `dataclasses.asdict` writes it. `estimatedDuration` is only
      stored, never computed on. */
  datatype Task = Task(
    name: string,
    dueDate: string,
    estimatedDuration: real,
    priority: string,
    category: string,
    status: string)

  const Pending := "pending"
  const Resolved := "resolved"

  /** `Task(...)`: the due date is rewritten as YYYY-MM-DD; `None` stands for
      the `ValueError` raised on an unparseable date. */
  function NewTask(name: string, dueDate: string, estimatedDuration: real,
                   priority: string, category: string, status: string): (r: Option<Task>)
    ensures r.Some? <==> ParseDateTime(dueDate).Some?
    ensures r.Some? ==> ParseDate(r.value.dueDate) == ParseDateTime(dueDate)
    ensures r.Some? ==> r.value.(dueDate := dueDate)
                        == Task(name, dueDate, estimatedDuration, priority, category, status)
  {
    match NormalizeDueDate(dueDate)
    case None => None
    case Some(date) =>
      ParseFormat(ParseDateTime(dueDate).value);
      Some(Task(name, date, estimatedDuration, priority, category, status))
  }

  /** A due date is accepted unchanged when it is already YYYY-MM-DD. */
  lemma NewTaskKeepsCanonicalDate(name: string, dueDate: string, estimatedDuration: real,
                                  priority: string, category: string, status: string)
    requires ParseDate(dueDate).Some?
    ensures NewTask(name, dueDate, estimatedDuration, priority, category, status)
            == Some(Task(name, dueDate, estimatedDuration, priority, category, status))
  {
    NormalizeFixesCanonical(dueDate);
  }

  /** One record through `Task(**t)`. */
  function Rebuild(t: Task): (r: Option<Task>)
    ensures r.Some? <==> ParseDateTime(t.dueDate).Some?
  {
    NewTask(t.name, t.dueDate, t.estimatedDuration, t.priority, t.category, t.status)
  }

  /** Loading from the save file: `[Task(**t) for t in tasks]`, which fails as
      a whole if any one construction raises. It succeeds exactly when every
      record's due date parses, and then holds each record's own task. */
  function RebuildAll(records: seq<Task>): (r: Option<seq<Task>>)
    ensures r.Some? <==> forall i :: 0 <= i < |records| ==> ParseDateTime(records[i].dueDate).Some?
    ensures r.Some? ==> |r.value| == |records|
    ensures r.Some? ==> forall i :: 0 <= i < |records| ==> Some(r.value[i]) == Rebuild(records[i])
  {
    if forall i :: 0 <= i < |records| ==> Rebuild(records[i]).Some? then
      Some(seq(|records|, i requires 0 <= i < |records| => Rebuild(records[i]).value))
    else None
  }

  /** Every reloaded task carries a canonical YYYY-MM-DD due date and keeps
      every other field of its record. */
  lemma RebuildAllCanonical(records: seq<Task>, i: nat)
    requires RebuildAll(records).Some? && i < |records|
    ensures ParseDate(RebuildAll(records).value[i].dueDate).Some?
    ensures RebuildAll(records).value[i].(dueDate := records[i].dueDate) == records[i]
  {
    var t := records[i];
    assert Some(RebuildAll(records).value[i])
           == NewTask(t.name, t.dueDate, t.estimatedDuration, t.priority, t.category, t.status);
  }

  /** Saving then loading reproduces tasks whose due dates are normalised. */
  lemma RebuildAllRoundTrip(ts: seq<Task>)
    requires forall i :: 0 <= i < |ts| ==> ParseDate(ts[i].dueDate).Some?
    ensures RebuildAll(ts) == Some(ts)
  {
    forall i | 0 <= i < |ts| ensures Rebuild(ts[i]) == Some(ts[i]) {
      var t := ts[i];
      NewTaskKeepsCanonicalDate(t.name, t.dueDate, t.estimatedDuration, t.priority, t.category, t.status);
    }
    assert RebuildAll(ts).value == ts;
  }


  /** The characters `str.strip()` removes (`str.isspace`). */
  predicate IsSpace(c: char)
  {
    c in {' ', '\t', '\n', '\r', '\U{B}', '\U{C}', '\U{1C}', '\U{1D}', '\U{1E}', '\U{1F}',
          '\U{85}', '\U{A0}', '\U{1680}', '\U{2028}', '\U{2029}', '\U{202F}', '\U{205F}', '\U{3000}'}
    || '\U{2000}' <= c <= '\U{200A}'
  }

  function LeadingSpaces(s: string): (k: nat)
    ensures k <= |s|
    ensures forall i :: 0 <= i < k ==> IsSpace(s[i])
    ensures k < |s| ==> !IsSpace(s[k])
  {
    if s == [] || !IsSpace(s[0]) then 0 else 1 + LeadingSpaces(s[1..])
  }

  function TrailingSpaces(s: string): (k: nat)
    ensures k <= |s|
    ensures forall i :: |s| - k <= i < |s| ==> IsSpace(s[i])
    ensures k < |s| ==> !IsSpace(s[|s| - 1 - k])
  {
    if s == [] || !IsSpace(s[|s| - 1]) then 0 else 1 + TrailingSpaces(s[..|s| - 1])
  }

  /** `str.strip()`: the slice between the leading and the trailing whitespace.
      What is left is empty or starts and ends with a non-whitespace character. */
  function Strip(s: string): (r: string)
    ensures |r| <= |s|
    ensures r != [] ==> !IsSpace(r[0]) && !IsSpace(r[|r| - 1])
  {
    var t := s[LeadingSpaces(s)..];
    assert t != [] ==> t[0] == s[LeadingSpaces(s)];
    t[..|t| - TrailingSpaces(t)]
  }

  /** A name strips to nothing exactly when every character is whitespace. */
  lemma StripEmptyIff(s: string)
    ensures Strip(s) == [] <==> forall i :: 0 <= i < |s| ==> IsSpace(s[i])
  {
    var k := LeadingSpaces(s);
    var t := s[k..];
    if k < |s| {
      assert !IsSpace(t[0]);
      assert TrailingSpaces(t) < |t|;
    }
  }

  /** `strip()` removes whitespace only, and only at the two ends: the name is
      its leading whitespace, the stripped name, and its trailing whitespace. */
  lemma StripTrimsEnds(s: string)
    ensures LeadingSpaces(s) + |Strip(s)| <= |s|
    ensures s == s[..LeadingSpaces(s)] + Strip(s) + s[LeadingSpaces(s) + |Strip(s)|..]
    ensures forall i :: 0 <= i < LeadingSpaces(s) ==> IsSpace(s[i])
    ensures forall i :: LeadingSpaces(s) + |Strip(s)| <= i < |s| ==> IsSpace(s[i])
  {
    var k := LeadingSpaces(s);
    var m := k + |Strip(s)|;
    StripSlice(s);
    SuffixTrailing(s, k);
    SplitThree(s, k, m);
  }

  lemma StripSlice(s: string)
    ensures LeadingSpaces(s) + |Strip(s)| <= |s|
    ensures Strip(s) == s[LeadingSpaces(s)..LeadingSpaces(s) + |Strip(s)|]
  {
  }

  lemma SuffixTrailing(s: string, k: nat)
    requires k <= |s|
    ensures forall i :: |s| - TrailingSpaces(s[k..]) <= i < |s| ==> IsSpace(s[i])
  {
    var t := s[k..];
    forall i | |s| - TrailingSpaces(t) <= i < |s| ensures IsSpace(s[i]) {
      assert s[i] == t[i - k];
    }
  }

  lemma SplitThree(s: string, k: nat, m: nat)
    requires k <= m <= |s|
    ensures s == s[..k] + s[k..m] + s[m..]
  {
  }

  datatype Verdict = Accepted | EmptyName | InvalidDate

  /** `_validate_task`: the name is checked first, then the date. */
  function ValidateTask(t: Task): (v: Verdict)
    ensures v == EmptyName <==> Strip(t.name) == []
    ensures v == InvalidDate <==> Strip(t.name) != [] && ParseDateTime(t.dueDate).None?
  {
    if Strip(t.name) == [] then EmptyName
    else if ParseDateTime(t.dueDate).None? then InvalidDate
    else Accepted
  }

  /** A task is accepted exactly when its name has a non-whitespace character
      and its due date parses. */
  lemma ValidateTaskIff(t: Task)
    ensures ValidateTask(t) == Accepted
            <==> (exists i :: 0 <= i < |t.name| && !IsSpace(t.name[i]))
                 && ParseDateTime(t.dueDate).Some?
    ensures ValidateTask(t) == EmptyName
            <==> forall i :: 0 <= i < |t.name| ==> IsSpace(t.name[i])
  {
    StripEmptyIff(t.name);
  }

  /** A constructed task never fails validation on its date: only its name
      can be rejected. */
  lemma ConstructedTaskDateValid(name: string, dueDate: string, estimatedDuration: real,
                                 priority: string, category: string, status: string)
    requires NewTask(name, dueDate, estimatedDuration, priority, category, status).Some?
    ensures ValidateTask(NewTask(name, dueDate, estimatedDuration, priority, category, status).value)
            != InvalidDate
  {
  }

  /** The task fields the board filters and sorts on. */
  datatype Field = Status | Priority | DueDate

  function FieldOf(t: Task, f: Field): string
  {
    match f
    case Status => t.status
    case Priority => t.priority
    case DueDate => t.dueDate
  }

  /** `[t for t in ts if <field of t> == v]`. */
  function Select(ts: seq<Task>, f: Field, v: string): (r: seq<Task>)
    ensures |r| <= |ts|
  {
    if ts == [] then []
    else (if FieldOf(ts[0], f) == v then [ts[0]] else []) + Select(ts[1..], f, v)
  }

  /** The filter keeps exactly the tasks whose field is `v`. */
  lemma {:induction false} SelectMembers(ts: seq<Task>, f: Field, v: string)
    ensures forall t :: t in Select(ts, f, v) <==> t in ts && FieldOf(t, f) == v
    decreases |ts|
  {
    if ts != [] {
      SelectMembers(ts[1..], f, v);
      assert ts == [ts[0]] + ts[1..];
    }
  }

  /** Filtering keeps the order: it distributes over concatenation. */
  lemma {:induction false} SelectAppend(a: seq<Task>, b: seq<Task>, f: Field, v: string)
    ensures Select(a + b, f, v) == Select(a, f, v) + Select(b, f, v)
    decreases |a|
  {
    if a == [] {
      assert a + b == b;
    } else {
      var head := if FieldOf(a[0], f) == v then [a[0]] else [];
      SelectAppend(a[1..], b, f, v);
      SelectAppendHead(a, b, f, v);
      ConcatAssociative(head, Select(a[1..], f, v), Select(b, f, v));
    }
  }

  lemma SelectAppendHead(a: seq<Task>, b: seq<Task>, f: Field, v: string)
    requires a != []
    ensures Select(a + b, f, v)
            == (if FieldOf(a[0], f) == v then [a[0]] else []) + Select(a[1..] + b, f, v)
  {
    assert (a + b)[0] == a[0] && (a + b)[1..] == a[1..] + b;
  }

  lemma ConcatAssociative(x: seq<Task>, y: seq<Task>, z: seq<Task>)
    ensures x + (y + z) == (x + y) + z
  {
  }

  /** Setting one task's field to `v` adds it to the `v` view, which grows by
      one exactly when the task was not already in it. */
  lemma {:induction false} SelectAfterSet(ts: seq<Task>, i: nat, t: Task, f: Field, v: string)
    requires i < |ts| && FieldOf(t, f) == v
    ensures |Select(ts[i := t], f, v)|
            == |Select(ts, f, v)| + (if FieldOf(ts[i], f) == v then 0 else 1)
    decreases |ts|
  {
    var u := ts[i := t];
    if i == 0 {
      assert u[1..] == ts[1..];
    } else {
      assert u[1..] == ts[1..][i - 1 := t];
      SelectAfterSet(ts[1..], i - 1, t, f, v);
    }
  }

  /** The same, for the view being left. */
  lemma {:induction false} SelectAfterUnset(ts: seq<Task>, i: nat, t: Task, f: Field, v: string)
    requires i < |ts| && FieldOf(t, f) != v
    ensures |Select(ts[i := t], f, v)|
            == |Select(ts, f, v)| - (if FieldOf(ts[i], f) == v then 1 else 0)
    decreases |ts|
  {
    var u := ts[i := t];
    if i == 0 {
      assert u[1..] == ts[1..];
    } else {
      assert u[1..] == ts[1..][i - 1 := t];
      SelectAfterUnset(ts[1..], i - 1, t, f, v);
    }
  }

  /** The "Pending" tab's list. */
  function PendingTasks(ts: seq<Task>): (r: seq<Task>)
    ensures forall t :: t in r <==> t in ts && t.status == Pending
  {
    SelectMembers(ts, Status, Pending);
    Select(ts, Status, Pending)
  }

  /** The "Completed" tab's list. */
  function CompletedTasks(ts: seq<Task>): (r: seq<Task>)
    ensures forall t :: t in r <==> t in ts && t.status == Resolved
  {
    SelectMembers(ts, Status, Resolved);
    Select(ts, Status, Resolved)
  }

  /** The "Daily Tasks" list for the date picked: `t.due_date == selected.isoformat()`. */
  function TasksDueOn(ts: seq<Task>, day: Date): (r: seq<Task>)
    requires InRange(day)
    ensures forall t :: t in r <==> t in ts && t.dueDate == FormatDate(day)
  {
    SelectMembers(ts, DueDate, FormatDate(day));
    Select(ts, DueDate, FormatDate(day))
  }

  /** A task is listed under one date at most, and a task with a normalised
      due date under exactly the date it names. */
  lemma TasksDueOnOneDate(ts: seq<Task>, t: Task, day: Date, other: Date)
    requires InRange(day) && InRange(other)
    requires t in TasksDueOn(ts, day)
    ensures t in TasksDueOn(ts, other) <==> other == day
    ensures ParseDate(t.dueDate) == Some(day)
  {
    if t in TasksDueOn(ts, other) {
      FormatInjective(day, other);
    }
    ParseFormat(day);
  }

  /** `sorted` compares with `<` only: no later element's key is below an
      earlier one's. */
  predicate SortedByPriority(s: seq<Task>)
  {
    forall i, j :: 0 <= i < j < |s| ==> !Lex.Less(s[j].priority, s[i].priority)
  }

  /** Insert after every element whose key is not above `x`'s. */
  function InsertByPriority(x: Task, s: seq<Task>): (r: seq<Task>)
    ensures multiset(r) == multiset(s) + multiset{x}
  {
    if s == [] then [x]
    else if Lex.Less(x.priority, s[0].priority) then [x] + s
    else
      assert s == [s[0]] + s[1..];
      [s[0]] + InsertByPriority(x, s[1..])
  }

  /** Insertion keeps a sorted list sorted. */
  lemma {:induction false} InsertSorted(x: Task, s: seq<Task>)
    requires SortedByPriority(s)
    ensures SortedByPriority(InsertByPriority(x, s))
    decreases |s|
  {
    if s == [] {
    } else if Lex.Less(x.priority, s[0].priority) {
      InsertFrontSorted(x, s);
    } else {
      InsertSorted(x, s[1..]);
      InsertPastShape(x, s);
      InsertPastSorted(x, s, InsertByPriority(x, s[1..]));
    }
  }

  lemma InsertFrontSorted(x: Task, s: seq<Task>)
    requires SortedByPriority(s) && s != [] && Lex.Less(x.priority, s[0].priority)
    ensures SortedByPriority([x] + s)
  {
    forall j | 0 <= j < |s| ensures !Lex.Less(s[j].priority, x.priority) {
      Lex.LessIrreflexive(s[0].priority);
      if Lex.Less(s[j].priority, x.priority) {
        Lex.LessTransitive(s[j].priority, x.priority, s[0].priority);
      }
    }
    var r := [x] + s;
    forall a, b | 0 <= a < b < |r| ensures !Lex.Less(r[b].priority, r[a].priority) {
      assert r[b] == s[b - 1];
      if a > 0 {
        assert r[a] == s[a - 1];
      }
    }
  }

  /** The head stays first when everything inserted after it is not below it. */
  lemma InsertPastSorted(x: Task, s: seq<Task>, rest: seq<Task>)
    requires SortedByPriority(s) && s != [] && !Lex.Less(x.priority, s[0].priority)
    requires SortedByPriority(rest) && multiset(rest) == multiset(s[1..]) + multiset{x}
    ensures SortedByPriority([s[0]] + rest)
  {
    forall y: Task | y in multiset(rest) ensures !Lex.Less(y.priority, s[0].priority) {
      if y != x {
        assert y in multiset(s[1..]);
        var j :| 0 <= j < |s[1..]| && s[1..][j] == y;
        assert s[j + 1] == y;
      }
    }
    var r := [s[0]] + rest;
    forall a, b | 0 <= a < b < |r| ensures !Lex.Less(r[b].priority, r[a].priority) {
      assert r[b] == rest[b - 1];
      if a == 0 {
        assert r[b] in multiset(rest);
      } else {
        assert r[a] == rest[a - 1];
      }
    }
  }

  lemma InsertPastShape(x: Task, s: seq<Task>)
    requires s != [] && !Lex.Less(x.priority, s[0].priority)
    ensures InsertByPriority(x, s) == [s[0]] + InsertByPriority(x, s[1..])
  {
  }

  /** `sorted(ts, key=lambda x: x.priority)`: a stable sort, here insertion of
      each element, in order, into the sorted prefix. */
  function SortByPriority(ts: seq<Task>): (r: seq<Task>)
    ensures SortedByPriority(r)
    ensures multiset(r) == multiset(ts)
    decreases |ts|
  {
    if ts == [] then []
    else
      assert ts == ts[..|ts| - 1] + [ts[|ts| - 1]];
      InsertSorted(ts[|ts| - 1], SortByPriority(ts[..|ts| - 1]));
      InsertByPriority(ts[|ts| - 1], SortByPriority(ts[..|ts| - 1]))
  }

  /** In a sorted list whose first key is above `k`, no element has key `k`. */
  lemma {:induction false} SelectSortedAbove(s: seq<Task>, k: string)
    requires SortedByPriority(s) && s != [] && Lex.Less(k, s[0].priority)
    ensures Select(s, Priority, k) == []
    decreases |s|
  {
    Lex.LessIrreflexive(k);
    if |s| > 1 {
      Lex.LessTotal(s[0].priority, s[1].priority);
      if s[0].priority != s[1].priority {
        Lex.LessTransitive(k, s[0].priority, s[1].priority);
      }
      SelectSortedAbove(s[1..], k);
    }
  }

  /** Inserting `x` puts it after every element with its key. */
  lemma {:induction false} InsertStable(x: Task, s: seq<Task>, k: string)
    requires SortedByPriority(s)
    ensures Select(InsertByPriority(x, s), Priority, k)
            == Select(s, Priority, k) + (if x.priority == k then [x] else [])
    decreases |s|
  {
    if s == [] {
      assert InsertByPriority(x, s) == [x];
    } else if Lex.Less(x.priority, s[0].priority) {
      InsertFront(x, s, k);
    } else {
      SortedTail(s);
      InsertPast(x, s, k);
    }
  }

  lemma InsertFront(x: Task, s: seq<Task>, k: string)
    requires SortedByPriority(s) && s != [] && Lex.Less(x.priority, s[0].priority)
    ensures Select(InsertByPriority(x, s), Priority, k)
            == Select(s, Priority, k) + (if x.priority == k then [x] else [])
  {
    assert InsertByPriority(x, s) == [x] + s;
    SelectAppend([x], s, Priority, k);
    if x.priority == k {
      SelectSortedAbove(s, k);
    } else {
      assert Select([x], Priority, k) == [];
    }
  }

  lemma {:induction false} InsertPast(x: Task, s: seq<Task>, k: string)
    requires s != [] && SortedByPriority(s[1..]) && !Lex.Less(x.priority, s[0].priority)
    ensures Select(InsertByPriority(x, s), Priority, k)
            == Select(s, Priority, k) + (if x.priority == k then [x] else [])
    decreases |s|, 0
  {
    var s1 := s[1..];
    var rest := InsertByPriority(x, s1);
    var head := if s[0].priority == k then [s[0]] else [];
    var mine := if x.priority == k then [x] else [];
    InsertStable(x, s1, k);
    InsertPastShape(x, s);
    SelectCons(s[0], rest, Priority, k);
    ConcatAssociative(head, Select(s1, Priority, k), mine);
  }

  lemma SelectCons(x: Task, s: seq<Task>, f: Field, v: string)
    ensures Select([x] + s, f, v) == (if FieldOf(x, f) == v then [x] else []) + Select(s, f, v)
  {
    assert ([x] + s)[1..] == s;
  }

  lemma SortedTail(s: seq<Task>)
    requires SortedByPriority(s) && s != []
    ensures SortedByPriority(s[1..])
  {
  }

  /** The sort is stable: for every priority, the tasks with that priority
      keep their relative order. */
  lemma {:induction false} SortStable(ts: seq<Task>, k: string)
    ensures Select(SortByPriority(ts), Priority, k) == Select(ts, Priority, k)
    decreases |ts|
  {
    if ts != [] {
      var init, x := ts[..|ts| - 1], ts[|ts| - 1];
      var sorted := SortByPriority(init);
      SortByPriorityLast(ts);
      SortStable(init, k);
      InsertStable(x, sorted, k);
      SplitLast(ts);
      SelectAppend(init, [x], Priority, k);
    }
  }

  lemma SplitLast(ts: seq<Task>)
    requires ts != []
    ensures ts == ts[..|ts| - 1] + [ts[|ts| - 1]]
  {
  }

  lemma SortByPriorityLast(ts: seq<Task>)
    requires ts != []
    ensures SortByPriority(ts) == InsertByPriority(ts[|ts| - 1], SortByPriority(ts[..|ts| - 1]))
    ensures SortedByPriority(SortByPriority(ts[..|ts| - 1]))
  {
  }

  /** The three priorities sort as strings: "high" < "low" < "medium". */
  lemma PriorityStringOrder()
    ensures Lex.Less("high", "low") && Lex.Less("low", "medium")
  {
  }

  /** What the "Pending" tab lists, in order. */
  function PendingView(ts: seq<Task>): (r: seq<Task>)
    ensures SortedByPriority(r)
    ensures multiset(r) == multiset(PendingTasks(ts))
    ensures forall t :: t in r <==> t in ts && t.status == Pending
  {
    var r := SortByPriority(PendingTasks(ts));
    assert forall t :: t in r <==> t in multiset(r);
    r
  }

  /** `task.status = "resolved"` on the i-th task. */
  function Resolve(ts: seq<Task>, i: nat): (u: seq<Task>)
    requires i < |ts|
    ensures |u| == |ts| && u[i].status == Resolved
    ensures u[i].(status := ts[i].status) == ts[i]
    ensures forall j :: 0 <= j < |ts| && j != i ==> u[j] == ts[j]
  {
    ts[i := ts[i].(status := Resolved)]
  }

  /** A completed task shows under "Completed" and nowhere under "Pending";
      the pending count drops by one exactly when it was pending. */
  lemma ResolveMovesTask(ts: seq<Task>, i: nat)
    requires i < |ts|
    ensures Resolve(ts, i)[i] in CompletedTasks(Resolve(ts, i))
    ensures Resolve(ts, i)[i] !in PendingView(Resolve(ts, i))
    ensures |PendingTasks(Resolve(ts, i))|
            == |PendingTasks(ts)| - (if ts[i].status == Pending then 1 else 0)
    ensures |CompletedTasks(Resolve(ts, i))|
            == |CompletedTasks(ts)| + (if ts[i].status == Resolved then 0 else 1)
  {
    var t := ts[i].(status := Resolved);
    SelectAfterUnset(ts, i, t, Status, Pending);
    SelectAfterSet(ts, i, t, Status, Resolved);
  }
}
