/** `ProductivityAssistant`: the task list and the schedule it owns, and the
    operations that change them. The service's replies, the save file's
    writability and "now" are parameters. */
module Assistant {
  import opened Wrappers
  import opened Calendar
  import opened IsoDate
  import opened TaskModel
  import opened Prioritization
  import opened Scheduling

  /** The `{"tasks": ..., "schedule": ...}` object one `save_data` writes. */
  datatype Snapshot = Snapshot(tasks: seq<Task>, schedule: ScheduleValue)

  /** What `load_data` finds: no save file, one it cannot read or decode, or
      its two entries (a missing entry already read as empty). */
  datatype SavedState = NoSaveFile | Unreadable | Saved(records: seq<Task>, schedule: ScheduleValue)

  /** The task list after `_prioritize_tasks` with this reply: reassigned on a
      parsed object, untouched otherwise (the exception comes before the loop
      changes anything). */
  function AfterPrioritizing(ts: seq<Task>, reply: PriorityReply): (r: seq<Task>)
    ensures |r| == |ts|
    ensures forall i :: 0 <= i < |ts| ==> r[i].(priority := ts[i].priority) == ts[i]
  {
    match reply
    case Priorities(lists) => Prioritized(ts, lists)
    case _ => ts
  }

  class ProductivityAssistant {
    var tasks: seq<Task>
    var schedule: ScheduleValue
    /** Every snapshot written to the save file, oldest first; the file holds
        the last one. */
    var saves: seq<Snapshot>

    /** Every stored due date is canonical YYYY-MM-DD text: each task went
        through `Task.__post_init__`, whether built for `add_task` or reloaded
        with `Task(**t)`. */
    ghost predicate Valid()
      reads this
    {
      forall i :: 0 <= i < |tasks| ==> ParseDate(tasks[i].dueDate).Some?
    }

    /** `__init__` with `load_data`: a load failure of any kind leaves the
        empty state. */
    constructor(saved: SavedState)
      ensures Valid() && saves == []
      ensures saved.Saved? && RebuildAll(saved.records).Some? ==>
                tasks == RebuildAll(saved.records).value && schedule == saved.schedule
      ensures !(saved.Saved? && RebuildAll(saved.records).Some?) ==>
                tasks == [] && schedule == Days([])
    {
      tasks := [];
      schedule := Days([]);
      saves := [];
      if saved.Saved? {
        var rebuilt := RebuildAll(saved.records);
        if rebuilt.Some? {
          forall i | 0 <= i < |rebuilt.value| ensures ParseDate(rebuilt.value[i].dueDate).Some? {
            RebuildAllCanonical(saved.records, i);
          }
          tasks := rebuilt.value;
          schedule := saved.schedule;
        }
      }
    }

    /** `save_data`: a full overwrite when the file can be written; a failed
        write is reported and changes nothing here. What was written loads
        back as the very same task list. */
    method SaveData(writable: bool) returns (ok: bool)
      requires Valid()
      modifies this`saves
      ensures ok == writable
      ensures saves == old(saves) + (if writable then [Snapshot(tasks, schedule)] else [])
      ensures writable ==> RebuildAll(saves[|saves| - 1].tasks) == Some(tasks)
    {
      if writable {
        saves := saves + [Snapshot(tasks, schedule)];
        RebuildAllRoundTrip(tasks);
      }
      ok := writable;
    }

    /** `_prioritize_tasks`: every task, resolved ones included, gets the
        priority the reply gives its name. `ok` tells whether the success
        message shows: a non-object reply raises only once the loop asks it
        for a list, so over no tasks it still reports success. */
    method PrioritizeTasks(reply: PriorityReply) returns (ok: bool)
      requires Valid()
      modifies this`tasks
      ensures Valid()
      ensures tasks == AfterPrioritizing(old(tasks), reply)
      ensures ok <==> reply.Priorities? || (reply.NotAnObject? && old(tasks) == [])
    {
      match reply {
        case Priorities(lists) =>
          var i := 0;
          while i < |tasks|
            invariant 0 <= i <= |tasks| == |old(tasks)|
            invariant forall k :: 0 <= k < i ==>
                        tasks[k] == old(tasks)[k].(priority := PriorityFor(old(tasks)[k].name, lists))
            invariant forall k :: i <= k < |tasks| ==> tasks[k] == old(tasks)[k]
          {
            tasks := tasks[i := tasks[i].(priority := PriorityFor(tasks[i].name, lists))];
            i := i + 1;
          }
          ok := true;
        case NotAnObject =>
          ok := tasks == [];
        case _ =>
          ok := false;
      }
    }

    /** `add_task`: a task failing validation is refused with no change and no
        save; otherwise it is appended, every task is re-prioritised and the
        state saved, and the answer is yes whether or not those succeed. */
    method AddTask(task: Task, reply: PriorityReply, writable: bool) returns (added: bool)
      requires Valid() && ParseDate(task.dueDate).Some?
      modifies this
      ensures Valid()
      ensures added <==> ValidateTask(task) == Accepted
      ensures !added ==> tasks == old(tasks) && schedule == old(schedule) && saves == old(saves)
      ensures added ==> tasks == AfterPrioritizing(old(tasks) + [task], reply)
                        && schedule == old(schedule)
                        && saves == old(saves) + (if writable then [Snapshot(tasks, schedule)] else [])
      ensures added && writable ==> RebuildAll(saves[|saves| - 1].tasks) == Some(tasks)
    {
      if ValidateTask(task) != Accepted {
        return false;
      }
      ghost var before := tasks;
      tasks := tasks + [task];
      assert tasks[|before|] == task;
      assert forall i :: 0 <= i < |before| ==> tasks[i] == before[i];
      var _ := PrioritizeTasks(reply);
      var _ := SaveData(writable);
      added := true;
    }

    /** The "Complete" button: `task.status = "resolved"`, then a save. */
    method Complete(i: nat, writable: bool)
      requires Valid() && i < |tasks|
      modifies this`tasks, this`saves
      ensures Valid()
      ensures tasks == Resolve(old(tasks), i)
      ensures saves == old(saves) + (if writable then [Snapshot(tasks, schedule)] else [])
      ensures writable ==> RebuildAll(saves[|saves| - 1].tasks) == Some(tasks)
    {
      tasks := Resolve(tasks, i);
      var _ := SaveData(writable);
    }

    /** `generate_study_schedule` once the reply is in, with `start` the date
        of `datetime.now()`. On a failed call or invalid JSON nothing changes.
        A parsed reply is stored first; if it is not an object, or a re-dated
        key would pass 9999-12-31, it stays stored, unsaved, and `{}` is
        returned. Otherwise the re-dated schedule replaces it, is saved and is
        returned. */
    method GenerateStudySchedule(reply: ScheduleReply, start: Date, writable: bool)
      returns (result: seq<DayBucket>)
      requires Valid() && InRange(start)
      modifies this`schedule, this`saves
      ensures Valid() && tasks == old(tasks)
      ensures !reply.ScheduleParsed? ==>
                schedule == old(schedule) && result == [] && saves == old(saves)
      ensures reply.ScheduleParsed? && reply.value.NonObject? ==>
                schedule == reply.value && result == [] && saves == old(saves)
      ensures reply.ScheduleParsed? && reply.value.Days? && Redated(reply.value.buckets, start).None? ==>
                schedule == reply.value && result == [] && saves == old(saves)
      ensures reply.ScheduleParsed? && reply.value.Days? && Redated(reply.value.buckets, start).Some? ==>
                && result == Redated(reply.value.buckets, start).value
                && schedule == Days(result)
                && saves == old(saves) + (if writable then [Snapshot(tasks, schedule)] else [])
      ensures |saves| > |old(saves)| ==> RebuildAll(saves[|saves| - 1].tasks) == Some(tasks)
    {
      result := [];
      if reply.ScheduleParsed? {
        schedule := reply.value;
        if schedule.Days? {
          var redated := RedateBuckets(schedule.buckets, start);
          if redated.Some? {
            schedule := Days(redated.value);
            var _ := SaveData(writable);
            result := redated.value;
          }
        }
      }
    }
  }
}
