/** The task groups of the initial screen (apps/webui-static/schedule.js:121-150). */
module Tasks {
  import opened Options
  import opened Sorting
  import opened Text

  /** `scheduledAt` is the start the stored value parses to; `None` when absent or not a date. */
  datatype Task = Task(id: int, status: string, recurrence: string, scheduledAt: Option<int>, updatedAt: string)

  datatype Group = Active | Scheduled | Finished

  function Classify(task: Task, now: int): Group {
    if task.status == "completed" || task.status == "cancelled" then Finished
    else if task.status == "running" then Active
    else if Trim(task.recurrence) != "" then Scheduled
    else if task.scheduledAt.Some? && task.scheduledAt.value > now then Scheduled
    else Active
  }

  /**
   The rule as schedule.js:113-120 states it: finished work is in neither list; work with a recurrence rule or a
   start still to come is scheduled unless it is running; everything else is active.
   */
  lemma GroupsAsStated(task: Task, now: int)
    ensures Classify(task, now) == Finished <==> task.status in {"completed", "cancelled"}
    ensures Classify(task, now) == Scheduled <==>
              task.status !in {"completed", "cancelled", "running"}
              && (Trim(task.recurrence) != "" || (task.scheduledAt.Some? && now < task.scheduledAt.value))
  {
  }

  function In(group: Group, now: int): Task -> bool {
    t => Classify(t, now) == group
  }

  /** The comparator of schedule.js:147: by start, undated last. */
  predicate Sooner(a: Task, b: Task) {
    b.scheduledAt.None? || (a.scheduledAt.Some? && a.scheduledAt.value <= b.scheduledAt.value)
  }

  /** The comparator of schedule.js:148: latest update first, under the collation of the reader. */
  function Newer(collate: (string, string) -> bool): (Task, Task) -> bool {
    (a: Task, b: Task) => collate(b.updatedAt, a.updatedAt)
  }

  method SplitTasks(tasks: seq<Task>, now: int, collate: (string, string) -> bool)
    returns (active: seq<Task>, scheduled: seq<Task>, finished: seq<Task>)
    ensures active == Sort(Filter(tasks, In(Active, now)), Newer(collate))
    ensures scheduled == Sort(Filter(tasks, In(Scheduled, now)), Sooner)
    ensures finished == Filter(tasks, In(Finished, now))
  {
    active, scheduled, finished := [], [], [];
    for i := 0 to |tasks|
      invariant active == Filter(tasks[..i], In(Active, now))
      invariant scheduled == Filter(tasks[..i], In(Scheduled, now))
      invariant finished == Filter(tasks[..i], In(Finished, now))
    {
      assert tasks[..i + 1] == tasks[..i] + [tasks[i]];
      FilterConcat(tasks[..i], [tasks[i]], In(Active, now));
      FilterConcat(tasks[..i], [tasks[i]], In(Scheduled, now));
      FilterConcat(tasks[..i], [tasks[i]], In(Finished, now));
      match Classify(tasks[i], now)
      case Scheduled => scheduled := scheduled + [tasks[i]];
      case Active => active := active + [tasks[i]];
      case Finished => finished := finished + [tasks[i]];
    }
    assert tasks[..|tasks|] == tasks;
    scheduled := Sort(scheduled, Sooner);
    active := Sort(active, Newer(collate));
  }

  lemma {:induction false} GroupsPartition(tasks: seq<Task>, now: int)
    ensures multiset(Filter(tasks, In(Active, now))) + multiset(Filter(tasks, In(Scheduled, now)))
            + multiset(Filter(tasks, In(Finished, now))) == multiset(tasks)
  {
    if tasks != [] {
      GroupsPartition(tasks[1..], now);
      assert tasks == [tasks[0]] + tasks[1..];
    }
  }

  /** Nothing is listed twice and nothing is lost, however the two lists are sorted. */
  lemma SplitConserves(tasks: seq<Task>, now: int, collate: (string, string) -> bool)
    requires TotalPreorder(collate)
    ensures multiset(Sort(Filter(tasks, In(Active, now)), Newer(collate)))
            + multiset(Sort(Filter(tasks, In(Scheduled, now)), Sooner))
            + multiset(Filter(tasks, In(Finished, now))) == multiset(tasks)
    ensures Sorted(Sort(Filter(tasks, In(Active, now)), Newer(collate)), Newer(collate))
  {
    GroupsPartition(tasks, now);
    SortIsStable(Filter(tasks, In(Active, now)), Newer(collate));
    SortIsStable(Filter(tasks, In(Scheduled, now)), Sooner);
  }

  /** Scheduled work is listed soonest first, undated last, and in its stored order among equal starts. */
  lemma ScheduledInOrder(tasks: seq<Task>, now: int, start: Option<int>)
    ensures var scheduled := Sort(Filter(tasks, In(Scheduled, now)), Sooner);
            && (forall i, j :: 0 <= i < j < |scheduled| && scheduled[i].scheduledAt.None? ==>
                  scheduled[j].scheduledAt.None?)
            && (forall i, j :: 0 <= i < j < |scheduled| && scheduled[j].scheduledAt.Some? ==>
                  scheduled[i].scheduledAt.Some? && scheduled[i].scheduledAt.value <= scheduled[j].scheduledAt.value)
            && Filter(scheduled, (t: Task) => t.scheduledAt == start)
               == Filter(tasks, (t: Task) => Classify(t, now) == Scheduled && t.scheduledAt == start)
  {
    var group := Filter(tasks, In(Scheduled, now));
    var scheduled := Sort(group, Sooner);
    var k := Task(0, "", "", start, "");
    var same := (t: Task) => t.scheduledAt == start;
    SortIsStable(group, Sooner);
    FilterAgrees(scheduled, same, Class(k, Sooner));
    FilterAgrees(group, same, Class(k, Sooner));
    FilterTwice(tasks, In(Scheduled, now), same, (t: Task) => Classify(t, now) == Scheduled && t.scheduledAt == start);
  }

  /** Active work is listed latest update first, and in its stored order among equal updates. */
  lemma ActiveInOrder(tasks: seq<Task>, now: int, collate: (string, string) -> bool, update: string)
    requires TotalPreorder(collate)
    ensures var active := Sort(Filter(tasks, In(Active, now)), Newer(collate));
            && (forall i, j :: 0 <= i < j < |active| ==> collate(active[j].updatedAt, active[i].updatedAt))
            && Filter(active, (t: Task) => collate(update, t.updatedAt) && collate(t.updatedAt, update))
               == Filter(tasks, (t: Task) => Classify(t, now) == Active
                                             && collate(update, t.updatedAt) && collate(t.updatedAt, update))
  {
    var group := Filter(tasks, In(Active, now));
    var active := Sort(group, Newer(collate));
    var k := Task(0, "", "", None, update);
    var same := (t: Task) => collate(update, t.updatedAt) && collate(t.updatedAt, update);
    SortIsStable(group, Newer(collate));
    FilterAgrees(active, same, Class(k, Newer(collate)));
    FilterAgrees(group, same, Class(k, Newer(collate)));
    FilterTwice(tasks, In(Active, now), same,
                (t: Task) => Classify(t, now) == Active && collate(update, t.updatedAt) && collate(t.updatedAt, update));
    forall i, j | 0 <= i < j < |active| ensures collate(active[j].updatedAt, active[i].updatedAt) {
      assert Newer(collate)(active[i], active[j]);
    }
  }

  /** As time passes tasks only leave the scheduled group, and those that stay keep their order. */
  lemma ScheduledOnlyShrinks(tasks: seq<Task>, now: int, later: int)
    requires now <= later
    ensures Filter(Filter(tasks, In(Scheduled, now)), In(Scheduled, later)) == Filter(tasks, In(Scheduled, later))
    ensures Filter(Filter(tasks, In(Active, later)), In(Active, now)) == Filter(tasks, In(Active, now))
  {
    FilterTwice(tasks, In(Scheduled, now), In(Scheduled, later), In(Scheduled, later));
    FilterTwice(tasks, In(Active, later), In(Active, now), In(Active, now));
  }
}
