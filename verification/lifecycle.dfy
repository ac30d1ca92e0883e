/** How the operations fit together: what completing a task does to the task
    lists and to the completion rate, and what a newly created definition
    puts in them. */
module Lifecycle {
  import opened Wrappers
  import opened Calendar
  import opened Records
  import opened Schedule
  import opened Tracker
  import opened Queries
  import opened Analytics

  /** A completed task leaves the overdue, today and tomorrow lists. */
  lemma CompletedTaskLeavesPendingLists(s: Store, taskId: Id, req: CompletionRequest, now: Instant,
                                        recordId: Id, today: Day)
    requires CompleteTask(s, taskId, req, now, recordId).Success?
    ensures var c := CompleteTask(s, taskId, req, now, recordId).value;
      && c.task !in TasksOverdue(c.store.occurrences, today)
      && c.task !in TasksToday(c.store.occurrences, today)
      && c.task !in TasksTomorrow(c.store.occurrences, today)
  {
  }

  /** After a batch completion for `equipmentId`, none of its occurrences is
      overdue or due today any more. */
  lemma CompleteAllClearsDueLists(s: Store, equipmentId: Id, today: Day, now: Instant,
                                  recordIdOf: nat -> Id)
    ensures var occs := CompleteAll(s, equipmentId, today, now, recordIdOf).store.occurrences;
      && (forall o :: o in TasksOverdue(occs, today) ==> o.equipmentId != equipmentId)
      && (forall o :: o in TasksToday(occs, today) ==> o.equipmentId != equipmentId)
  {
    var occs := CompleteAll(s, equipmentId, today, now, recordIdOf).store.occurrences;
    forall o | o in occs && o.dueDate <= today && !o.completed ensures o.equipmentId != equipmentId {
      var i :| 0 <= i < |occs| && occs[i] == o;
      assert !Eligible(s.occurrences[i], equipmentId, today);
    }
  }

  /** Completing a pending occurrence inside the rate window adds one to the
      completed count and leaves the total alone. */
  lemma CompletingRaisesCompletedCount(s: Store, taskId: Id, req: CompletionRequest, now: Instant,
                                       recordId: Id, period: string, today: Day)
    requires CompleteTask(s, taskId, req, now, recordId).Success?
    requires var i := FirstIndexOf(s.occurrences, taskId).value;
      !s.occurrences[i].completed && s.occurrences[i].dueDate >= today - WindowDays(period)
    ensures var after := CompleteTask(s, taskId, req, now, recordId).value.store.occurrences;
      && CompletionRate(after, period, today).total == CompletionRate(s.occurrences, period, today).total
      && CompletionRate(after, period, today).completed == CompletionRate(s.occurrences, period, today).completed + 1
  {
    var i := FirstIndexOf(s.occurrences, taskId).value;
    var before := s.occurrences;
    var after := CompleteTask(s, taskId, req, now, recordId).value.store.occurrences;
    var from := today - WindowDays(period);
    assert (set j | 0 <= j < |after| && after[j].dueDate >= from)
        == (set j | 0 <= j < |before| && before[j].dueDate >= from);
    var doneBefore := set j | 0 <= j < |before| && before[j].dueDate >= from && before[j].completed;
    assert (set j | 0 <= j < |after| && after[j].dueDate >= from && after[j].completed)
        == doneBefore + {i};
    assert i !in doneBefore;
  }

  /** A definition whose start date has already passed shows its first
      occurrence as overdue at once. */
  lemma PastStartIsOverdueAtOnce(s: Store, req: DefinitionRequest, today: Day, defId: Id,
                                 idOf: nat -> Id)
    requires req.startDate < today
    requires CreateTaskDefinition(s, req, today, defId, idOf).Success?
    ensures exists o :: o in TasksOverdue(CreateTaskDefinition(s, req, today, defId, idOf).value.store.occurrences, today)
                     && o.definitionId == defId && o.dueDate == req.startDate
  {
    var c := CreateTaskDefinition(s, req, today, defId, idOf).value;
    var generated := GenerateTaskOccurrences(c.definition, today, None, idOf);
    DefaultHorizon(c.definition, today, idOf);
    var o := generated[0];
    assert c.store.occurrences[|s.occurrences|] == o;
    assert o in TasksOverdue(c.store.occurrences, today);
  }
}
