/** The completion tracker: marking one occurrence done, and marking every
    due occurrence of one piece of equipment done. Each completion appends a
    record to the completion history. */
module Tracker {
  import opened Wrappers
  import opened Calendar
  import opened Records
  import opened Seqs

  /** The body of a single-completion request. */
  datatype CompletionRequest = CompletionRequest(notes: Option<string>, photoUrl: Option<string>)

  /** A successful single completion: the new store and the updated occurrence. */
  datatype Completed = Completed(store: Store, task: Occurrence)

  /** The first occurrence with identifier `id` (the query's `.first()`). */
  function FirstIndexOf(occs: seq<Occurrence>, id: Id): (r: Option<nat>)
    ensures r.None? <==> forall i :: 0 <= i < |occs| ==> occs[i].id != id
    ensures r.Some? ==>
      && r.value < |occs|
      && occs[r.value].id == id
      && forall j :: 0 <= j < r.value ==> occs[j].id != id
    decreases |occs|
  {
    if |occs| == 0 then None
    else if occs[0].id == id then Some(0)
    else
      match FirstIndexOf(occs[1..], id)
      case None => None
      case Some(i) => Some(i + 1)
  }

  /** Mark the occurrence `taskId` completed at `now`, overwrite its notes and
      photo with the request's, and append one completion record. An already
      completed occurrence is completed again and gets another record. */
  function CompleteTask(s: Store, taskId: Id, req: CompletionRequest, now: Instant,
                        recordId: Id): (r: Result<Completed, Error>)
    ensures r.Failure? <==> forall i :: 0 <= i < |s.occurrences| ==> s.occurrences[i].id != taskId
    ensures r.Failure? ==> r.error == TaskNotFound
    ensures r.Success? ==> |r.value.store.occurrences| == |s.occurrences|
    ensures r.Success? ==>
      var i := FirstIndexOf(s.occurrences, taskId).value;
      var before := s.occurrences[i];
      var after := r.value.store.occurrences[i];
      && (forall j :: 0 <= j < |s.occurrences| && j != i ==>
            r.value.store.occurrences[j] == s.occurrences[j])
      && r.value.task == after
      && after.id == taskId
      && after.definitionId == before.definitionId
      && after.equipmentId == before.equipmentId
      && after.dueDate == before.dueDate
      && after.taskType == before.taskType
      && after.completed
      && after.completedAt == Some(now)
      && after.notes == req.notes
      && after.photoUrl == req.photoUrl
      && r.value.store.completions == s.completions +
           [Completion(recordId, taskId, before.equipmentId, before.taskType, now, req.notes, req.photoUrl)]
      && r.value.store.equipment == s.equipment
      && r.value.store.definitions == s.definitions
  {
    match FirstIndexOf(s.occurrences, taskId)
    case None => Failure(TaskNotFound)
    case Some(i) =>
      var task := s.occurrences[i];
      var updated := task.(completed := true, completedAt := Some(now),
                           notes := req.notes, photoUrl := req.photoUrl);
      var record := Completion(recordId, taskId, task.equipmentId, task.taskType,
                               now, req.notes, req.photoUrl);
      Success(Completed(s.(occurrences := s.occurrences[i := updated],
                           completions := s.completions + [record]), updated))
  }

  /** Completing an occurrence a second time succeeds again: the occurrence
      shows the second call's timestamp and notes, and the history holds both
      records. */
  lemma RecompleteAppendsAnotherRecord(s: Store, taskId: Id, req1: CompletionRequest, now1: Instant,
                                       id1: Id, req2: CompletionRequest, now2: Instant, id2: Id)
    requires CompleteTask(s, taskId, req1, now1, id1).Success?
    ensures var s1 := CompleteTask(s, taskId, req1, now1, id1).value.store;
      var r2 := CompleteTask(s1, taskId, req2, now2, id2);
      && r2.Success?
      && |r2.value.store.completions| == |s.completions| + 2
      && r2.value.store.completions[|s.completions|].completedAt == now1
      && r2.value.store.completions[|s.completions| + 1].completedAt == now2
      && r2.value.task.completedAt == Some(now2)
      && r2.value.task.notes == req2.notes
  {
    var i := FirstIndexOf(s.occurrences, taskId).value;
    var s1 := CompleteTask(s, taskId, req1, now1, id1).value.store;
    assert s1.occurrences[i].id == taskId;
    var j := FirstIndexOf(s1.occurrences, taskId).value;
    assert j == i by {
      assert forall m :: 0 <= m < i ==> s1.occurrences[m] == s.occurrences[m];
    }
  }

  // ---------------------------------------------------------------------
  // Completing every due occurrence of one piece of equipment.

  /** The batch query: occurrences of `equipmentId`, due on or before
      `today`, not yet completed. */
  predicate Eligible(o: Occurrence, equipmentId: Id, today: Day)
  {
    o.equipmentId == equipmentId && o.dueDate <= today && !o.completed
  }

  function EligibleFor(equipmentId: Id, today: Day): Occurrence -> bool
  {
    o => Eligible(o, equipmentId, today)
  }

  /** The batch update of one occurrence: notes and photo are left alone. */
  function MarkDone(o: Occurrence, now: Instant): Occurrence
  {
    o.(completed := true, completedAt := Some(now))
  }

  /** The batch response: the new store, the completed occurrences and their
      count. */
  datatype BatchResult = BatchResult(store: Store, tasks: seq<Occurrence>, completedCount: nat)

  /** Complete every pending occurrence of `equipmentId` due on or before
      `today`, appending one record with no notes for each. The loop over the
      queried occurrences is given by its effect: every eligible row is
      marked in place, and the k-th queried row yields the k-th record. */
  function CompleteAll(s: Store, equipmentId: Id, today: Day, now: Instant,
                       recordIdOf: nat -> Id): (r: BatchResult)
    ensures |r.store.occurrences| == |s.occurrences|
    ensures forall i :: 0 <= i < |s.occurrences| && Eligible(s.occurrences[i], equipmentId, today) ==>
      r.store.occurrences[i] == s.occurrences[i].(completed := true, completedAt := Some(now))
    ensures forall i :: 0 <= i < |s.occurrences| && !Eligible(s.occurrences[i], equipmentId, today) ==>
      r.store.occurrences[i] == s.occurrences[i]
    ensures r.completedCount == |r.tasks| == |Filter(s.occurrences, EligibleFor(equipmentId, today))|
    ensures forall k :: 0 <= k < |r.tasks| ==>
      r.tasks[k] == Filter(s.occurrences, EligibleFor(equipmentId, today))[k].(completed := true, completedAt := Some(now))
    ensures |r.store.completions| == |s.completions| + r.completedCount
    ensures r.store.completions[..|s.completions|] == s.completions
    ensures forall k :: 0 <= k < r.completedCount ==>
      r.store.completions[|s.completions| + k] ==
        Completion(recordIdOf(k), r.tasks[k].id, equipmentId, r.tasks[k].taskType, now, None, None)
    ensures r.store.equipment == s.equipment && r.store.definitions == s.definitions
  {
    var occs := s.occurrences;
    var due := Filter(occs, EligibleFor(equipmentId, today));
    var done := MarkEach(due, now);
    var records := RecordsFor(done, equipmentId, now, recordIdOf);
    assert (s.completions + records)[..|s.completions|] == s.completions;
    BatchResult(s.(occurrences := MarkEligible(occs, equipmentId, today, now),
                   completions := s.completions + records), done, |done|)
  }

  /** The in-place update of the batch: eligible rows are marked done. */
  function MarkEligible(occs: seq<Occurrence>, equipmentId: Id, today: Day, now: Instant): seq<Occurrence>
  {
    seq(|occs|, i requires 0 <= i < |occs| =>
      if Eligible(occs[i], equipmentId, today) then MarkDone(occs[i], now) else occs[i])
  }

  /** The queried rows after the update, in query order. */
  function MarkEach(due: seq<Occurrence>, now: Instant): seq<Occurrence>
  {
    seq(|due|, k requires 0 <= k < |due| => MarkDone(due[k], now))
  }

  /** One history record per completed row, the k-th with the k-th fresh id. */
  function RecordsFor(done: seq<Occurrence>, equipmentId: Id, now: Instant, recordIdOf: nat -> Id): seq<Completion>
  {
    seq(|done|, k requires 0 <= k < |done| =>
      Completion(recordIdOf(k), done[k].id, equipmentId, done[k].taskType, now, None, None))
  }

  /** The batch completes exactly the eligible occurrences: as many as there
      are eligible rows, each of them eligible before the update. */
  lemma CompleteAllCountsEligible(s: Store, equipmentId: Id, today: Day, now: Instant,
                                  recordIdOf: nat -> Id)
    ensures var r := CompleteAll(s, equipmentId, today, now, recordIdOf);
      && r.completedCount == |set i | 0 <= i < |s.occurrences| && Eligible(s.occurrences[i], equipmentId, today)|
      && forall k :: 0 <= k < |r.tasks| ==>
           Eligible(Filter(s.occurrences, EligibleFor(equipmentId, today))[k], equipmentId, today)
  {
    EligibleCount(s.occurrences, equipmentId, today);
    EligibleFiltered(s.occurrences, equipmentId, today);
  }

  lemma EligibleCount(occs: seq<Occurrence>, equipmentId: Id, today: Day)
    ensures Count(occs, EligibleFor(equipmentId, today))
         == |set i | 0 <= i < |occs| && Eligible(occs[i], equipmentId, today)|
  {
    assert Positions(occs, EligibleFor(equipmentId, today))
        == set i | 0 <= i < |occs| && Eligible(occs[i], equipmentId, today);
  }

  lemma EligibleFiltered(occs: seq<Occurrence>, equipmentId: Id, today: Day)
    ensures forall k :: 0 <= k < |Filter(occs, EligibleFor(equipmentId, today))| ==>
      Eligible(Filter(occs, EligibleFor(equipmentId, today))[k], equipmentId, today)
  {
    var f := Filter(occs, EligibleFor(equipmentId, today));
    forall k | 0 <= k < |f| ensures Eligible(f[k], equipmentId, today) {
      assert f[k] in f;
    }
  }

  /** A store with nothing eligible is left as it is by a batch completion. */
  lemma CompleteAllNothingDue(s: Store, equipmentId: Id, today: Day, now: Instant, recordIdOf: nat -> Id)
    requires forall i :: 0 <= i < |s.occurrences| ==> !Eligible(s.occurrences[i], equipmentId, today)
    ensures CompleteAll(s, equipmentId, today, now, recordIdOf).completedCount == 0
    ensures CompleteAll(s, equipmentId, today, now, recordIdOf).store == s
  {
    var r := CompleteAll(s, equipmentId, today, now, recordIdOf);
    assert (set i | 0 <= i < |s.occurrences| && Eligible(s.occurrences[i], equipmentId, today)) == {};
    assert r.store.occurrences == s.occurrences;
    assert r.store.completions == s.completions;
  }

  /** After a batch completion nothing of that equipment is left due and
      pending, so a second batch completes nothing and changes nothing. */
  lemma CompleteAllIdempotent(s: Store, equipmentId: Id, today: Day, now: Instant,
                              recordIdOf: nat -> Id, later: Instant, recordIdOf2: nat -> Id)
    ensures var s1 := CompleteAll(s, equipmentId, today, now, recordIdOf).store;
      && (forall i :: 0 <= i < |s1.occurrences| ==> !Eligible(s1.occurrences[i], equipmentId, today))
      && CompleteAll(s1, equipmentId, today, later, recordIdOf2).completedCount == 0
      && CompleteAll(s1, equipmentId, today, later, recordIdOf2).store == s1
  {
    var s1 := CompleteAll(s, equipmentId, today, now, recordIdOf).store;
    assert forall i :: 0 <= i < |s1.occurrences| ==> !Eligible(s1.occurrences[i], equipmentId, today);
    CompleteAllNothingDue(s1, equipmentId, today, later, recordIdOf2);
  }
}
