/** The occurrence generator: expanding a task definition into due-dated
    occurrences, and the endpoint that creates a definition and runs it once. */
module Schedule {
  import opened Wrappers
  import opened Calendar
  import opened Records

  /** Days between consecutive due dates: `frequency_value` days, that many
      weeks, or that many 30-day "months". */
  function Step(kind: FrequencyType, value: int): int
  {
    match kind
    case Days => value
    case Weekly => 7 * value
    case Monthly => 30 * value
  }

  /** The last date the generator may fill: the given end date, or today plus
      the 90-day horizon. */
  function Horizon(today: Day, endDate: Option<Day>): Day
  {
    match endDate
    case None => today + HorizonDays
    case Some(e) => e
  }

  /** The due dates `start, start + step, ...` that are not after `end`. */
  function DueDates(start: Day, end: Day, step: int): (r: seq<Day>)
    requires step >= 1
    ensures forall k :: 0 <= k < |r| ==> r[k] == start + k * step
    ensures forall k :: 0 <= k < |r| ==> start <= r[k] <= end
    ensures start + |r| * step > end
    ensures start > end ==> r == []
    ensures start <= end ==> |r| > 0 && r[0] == start
    decreases end - start
  {
    if start > end then []
    else
      var rest := DueDates(start + step, end, step);
      var r := [start] + rest;
      forall k | 1 <= k < |r| ensures r[k] == start + k * step {
        assert r[k] == rest[k - 1] == start + step + (k - 1) * step;
      }
      assert start + |r| * step == start + step + |rest| * step;
      r
  }

  /** A fresh, pending occurrence of `def` due on `due`. */
  function NewOccurrence(def: TaskDefinition, id: Id, due: Day): Occurrence
  {
    Occurrence(id, def.id, def.equipmentId, due, def.taskType, false, None, None, None)
  }

  /** Fresh occurrences of `def`, one per date; the k-th one receives the
      identifier `idOf(k)`. */
  function OccurrencesOn(def: TaskDefinition, dates: seq<Day>, idOf: nat -> Id): seq<Occurrence>
  {
    seq(|dates|, k requires 0 <= k < |dates| => NewOccurrence(def, idOf(k), dates[k]))
  }

  /** The occurrences generated for `def` up to the horizon. The k-th one
      receives the identifier `idOf(k)`. */
  function GenerateTaskOccurrences(def: TaskDefinition, today: Day, endDate: Option<Day>,
                                   idOf: nat -> Id): (r: seq<Occurrence>)
    requires def.frequencyValue >= 1
    ensures forall k :: 0 <= k < |r| ==>
      && r[k].dueDate == def.startDate + k * Step(def.frequencyType, def.frequencyValue)
      && def.startDate <= r[k].dueDate <= Horizon(today, endDate)
    ensures def.startDate + |r| * Step(def.frequencyType, def.frequencyValue) > Horizon(today, endDate)
    ensures forall k :: 0 <= k < |r| ==>
      && r[k].id == idOf(k)
      && r[k].definitionId == def.id
      && r[k].equipmentId == def.equipmentId
      && r[k].taskType == def.taskType
      && !r[k].completed
      && r[k].completedAt == None
      && r[k].notes == None
      && r[k].photoUrl == None
  {
    var dates := DueDates(def.startDate, Horizon(today, endDate),
                          Step(def.frequencyType, def.frequencyValue));
    var r := OccurrencesOn(def, dates, idOf);
    assert forall k :: 0 <= k < |r| ==> r[k] == NewOccurrence(def, idOf(k), dates[k]);
    r
  }

  /** Whole steps: a smaller multiplier is at least one step lower. */
  lemma {:induction false} MulGap(a: int, b: int, step: int)
    requires step >= 1 && a < b
    ensures a * step + step <= b * step
    decreases b - a
  {
    assert b * step == (b - 1) * step + step;
    if a < b - 1 { MulGap(a, b - 1, step); }
  }

  lemma MulScale(k: int, c: int, v: int)
    ensures k * (c * v) == c * (k * v)
  {
  }

  /** `x / step` is the `q` with `q * step <= x < (q + 1) * step`. */
  lemma QuotientUnique(x: int, step: int, q: int)
    requires step >= 1
    requires q * step <= x < q * step + step
    ensures x / step == q
  {
    var d := x / step;
    assert d * step <= x < d * step + step;
    if d < q { MulGap(d, q, step); }
    if q < d { MulGap(q, d, step); }
  }

  /** The number of generated dates: none when `start > end`, otherwise one
      more than the number of whole steps that fit between the two. */
  lemma {:induction false} DueDatesCount(start: Day, end: Day, step: int)
    requires step >= 1
    ensures start > end ==> DueDates(start, end, step) == []
    ensures start <= end ==> |DueDates(start, end, step)| == (end - start) / step + 1
  {
    var r := DueDates(start, end, step);
    if start <= end {
      var n := |r|;
      assert r[n - 1] == start + (n - 1) * step;
      assert (n - 1) * step <= end - start < (n - 1) * step + step;
      QuotientUnique(end - start, step, n - 1);
    }
  }

  /** The generated dates start at `start` and are strictly increasing, hence
      free of duplicates. */
  lemma GeneratorOrder(start: Day, end: Day, step: int)
    requires step >= 1
    ensures start <= end ==> |DueDates(start, end, step)| > 0 && DueDates(start, end, step)[0] == start
    ensures forall i, j :: 0 <= i < j < |DueDates(start, end, step)| ==>
              DueDates(start, end, step)[i] < DueDates(start, end, step)[j]
  {
    var r := DueDates(start, end, step);
    forall i, j | 0 <= i < j < |r| ensures r[i] < r[j] {
      MulGap(i, j, step);
    }
  }

  /** Every generated date lies in `[start, end]` a whole number of steps
      after `start`. */
  lemma DueDatesSound(start: Day, end: Day, step: int, d: Day)
    requires step >= 1
    requires d in DueDates(start, end, step)
    ensures start <= d <= end && (d - start) % step == 0
  {
    var r := DueDates(start, end, step);
    var k :| 0 <= k < |r| && r[k] == d;
    MultipleHasNoRemainder(k, step);
  }

  lemma MultipleHasNoRemainder(k: int, step: int)
    requires step >= 1
    ensures (k * step) % step == 0
  {
    QuotientUnique(k * step, step, k);
    assert (k * step) % step == k * step - (k * step) / step * step;
  }

  /** Every date in `[start, end]` a whole number of steps after `start` is
      generated. */
  lemma DueDatesComplete(start: Day, end: Day, step: int, d: Day)
    requires step >= 1
    requires start <= d <= end && (d - start) % step == 0
    ensures d in DueDates(start, end, step)
  {
    var r := DueDates(start, end, step);
    var k := (d - start) / step;
    assert d == start + k * step;
    if |r| <= k { MulGap(|r| - 1, k, step); }
    assert r[k] == d;
  }

  /** A date is generated exactly when it lies in `[start, end]` and is a
      whole number of steps after `start`. */
  lemma DueDatesMembership(start: Day, end: Day, step: int, d: Day)
    requires step >= 1
    ensures d in DueDates(start, end, step) <==> start <= d <= end && (d - start) % step == 0
  {
    if d in DueDates(start, end, step) { DueDatesSound(start, end, step, d); }
    if start <= d <= end && (d - start) % step == 0 { DueDatesComplete(start, end, step, d); }
  }

  /** The due dates of each frequency type: every `value` days, every `value`
      weeks, every `30 * value` days. */
  lemma GeneratedDueDatesByFrequency(def: TaskDefinition, today: Day, endDate: Option<Day>,
                                     idOf: nat -> Id, k: nat)
    requires def.frequencyValue >= 1
    requires k < |GenerateTaskOccurrences(def, today, endDate, idOf)|
    ensures def.frequencyType == Days ==>
      GenerateTaskOccurrences(def, today, endDate, idOf)[k].dueDate == def.startDate + k * def.frequencyValue
    ensures def.frequencyType == Weekly ==>
      GenerateTaskOccurrences(def, today, endDate, idOf)[k].dueDate == def.startDate + 7 * (k * def.frequencyValue)
    ensures def.frequencyType == Monthly ==>
      GenerateTaskOccurrences(def, today, endDate, idOf)[k].dueDate == def.startDate + 30 * (k * def.frequencyValue)
  {
    MulScale(k, 7, def.frequencyValue);
    MulScale(k, 30, def.frequencyValue);
  }

  /** With no end date, generation stops at the last step on or before
      today + 90 days. */
  lemma DefaultHorizon(def: TaskDefinition, today: Day, idOf: nat -> Id)
    requires def.frequencyValue >= 1
    ensures forall o :: o in GenerateTaskOccurrences(def, today, None, idOf) ==> o.dueDate <= today + HorizonDays
    ensures def.startDate <= today + HorizonDays ==>
      |GenerateTaskOccurrences(def, today, None, idOf)| > 0 &&
      GenerateTaskOccurrences(def, today, None, idOf)[0].dueDate == def.startDate
  {
    var r := GenerateTaskOccurrences(def, today, None, idOf);
    var step := Step(def.frequencyType, def.frequencyValue);
    assert |r| == |DueDates(def.startDate, today + HorizonDays, step)|;
  }

  /** Seven-day steps from a start day `d` to `d + 21` give exactly
      `d`, `d + 7`, `d + 14`, `d + 21`; a 7-day and a 1-week rule have the
      same step. */
  lemma SevenDayExample(d: Day)
    ensures Step(Days, 7) == Step(Weekly, 1) == 7
    ensures DueDates(d, d + 21, 7) == [d, d + 7, d + 14, d + 21]
  {
    DueDatesCount(d, d + 21, 7);
    var r := DueDates(d, d + 21, 7);
    assert r[0] == d && r[1] == d + 7 && r[2] == d + 14 && r[3] == d + 21;
  }

  /** A monthly rule is a fixed 30-day step, not a calendar month: from
      31 January 2025 (day 739282), the second occurrence falls on day 739312,
      2 March 2025, not 28 February. */
  lemma MonthlyIsThirtyDays(def: TaskDefinition, today: Day, endDate: Option<Day>, idOf: nat -> Id)
    requires def.frequencyType == Monthly && def.frequencyValue == 1
    requires def.startDate + 30 <= Horizon(today, endDate)
    ensures |GenerateTaskOccurrences(def, today, endDate, idOf)| >= 2
    ensures GenerateTaskOccurrences(def, today, endDate, idOf)[1].dueDate == def.startDate + 30
  {
    var r := GenerateTaskOccurrences(def, today, endDate, idOf);
    if |r| < 2 { MulGap(|r|, 2, 30); }
  }

  // ---------------------------------------------------------------------
  // The loop as written, with no check on the step.

  /** How the generator loop ends: with its dates, or with `OverflowError`
      when `current_date + timedelta(...)` falls outside the calendar. The
      dates collected so far are lost with the exception. */
  datatype LoopEnd = Finished(dates: seq<Day>) | Overflowed

  /** The dates of a finished loop from `current`: `current + k*step`, none
      after `end`, with the step after the last one past `end`. Every date
      the loop computed is a valid date, including that unused next date. */
  ghost predicate LoopDates(current: Day, end: Day, step: int, ds: seq<Day>)
  {
    && (forall k :: 0 <= k < |ds| ==> ds[k] == current + k * step && ds[k] <= end)
    && current + |ds| * step > end
    && (forall k :: 1 <= k < |ds| ==> InRange(ds[k]))
    && (|ds| > 0 ==> InRange(current + |ds| * step))
  }

  /** One more iteration in front of a finished loop. */
  lemma LoopDatesCons(current: Day, end: Day, step: int, rest: seq<Day>)
    requires current <= end && InRange(current + step)
    requires LoopDates(current + step, end, step, rest)
    ensures LoopDates(current, end, step, [current] + rest)
  {
    var ds := [current] + rest;
    var next := current + step;
    assert forall k :: 0 <= k < |rest| ==> rest[k] == next + k * step && rest[k] <= end;
    forall k | 1 <= k < |ds| ensures ds[k] == current + k * step && ds[k] <= end {
      assert ds[k] == rest[k - 1];
      MulShift(k, step);
    }
    forall k | 1 <= k < |ds| ensures InRange(ds[k]) {
      assert ds[k] == rest[k - 1];
      if k > 1 { assert InRange(rest[k - 1]); }
    }
    MulShift(|ds|, step);
  }

  lemma MulShift(k: int, step: int)
    ensures k * step == (k - 1) * step + step
  {
  }

  /** The generator's `while current_date <= end_date` loop for an arbitrary
      step, given `fuel` iterations: `None` when the loop has not ended. */
  function GenerateLoopAsWritten(current: Day, end: Day, step: int, fuel: nat): (r: Option<LoopEnd>)
    ensures current > end ==> r == Some(Finished([]))
    ensures fuel == 0 && current <= end ==> r == None
    ensures r.Some? && r.value.Finished? ==> LoopDates(current, end, step, r.value.dates)
    decreases fuel
  {
    if current > end then Some(Finished([]))
    else if fuel == 0 then None
    else if !InRange(current + step) then Some(Overflowed)
    else
      match GenerateLoopAsWritten(current + step, end, step, fuel - 1)
      case None => None
      case Some(Overflowed) => Some(Overflowed)
      case Some(Finished(rest)) =>
        LoopDatesCons(current, end, step, rest);
        Some(Finished([current] + rest))
  }

  /** The sign of the step is the sign of `frequency_value`, for every
      frequency type. */
  lemma StepSign(kind: FrequencyType, value: int)
    ensures Step(kind, value) >= 1 <==> value >= 1
    ensures Step(kind, value) == 0 <==> value == 0
    ensures Step(kind, value) < 0 <==> value < 0
  {
  }

  /** A step of zero never moves the date: the loop never ends, however many
      iterations it is given. */
  lemma {:induction false} ZeroStepNeverTerminates(current: Day, end: Day, fuel: nat)
    requires InRange(current) && current <= end
    ensures GenerateLoopAsWritten(current, end, 0, fuel) == None
    decreases fuel
  {
    if fuel > 0 {
      ZeroStepNeverTerminates(current, end, fuel - 1);
    }
  }

  /** A negative step walks back towards 1 January of year 1 and raises
      `OverflowError` on passing it: given one iteration per day back to
      that date, the loop ends in `Overflowed`. */
  lemma {:induction false} NegativeStepOverflows(current: Day, end: Day, step: int, fuel: nat)
    requires step < 0 && InRange(current) && current <= end
    requires fuel > current - MinDay
    ensures GenerateLoopAsWritten(current, end, step, fuel) == Some(Overflowed)
    decreases fuel
  {
    if InRange(current + step) {
      NegativeStepOverflows(current + step, end, step, fuel - 1);
    }
  }

  /** With a positive step and one iteration per date, the loop yields
      exactly `DueDates`, unless the date one step after the last due date
      lies beyond 31 December 9999: computing it raises `OverflowError`,
      although the loop would not have used it. */
  lemma {:induction false} LoopAgreesWithDueDates(current: Day, end: Day, step: int, fuel: nat)
    requires step >= 1 && InRange(current) && end <= MaxDay
    requires fuel >= |DueDates(current, end, step)|
    ensures GenerateLoopAsWritten(current, end, step, fuel)
         == Some(if current + |DueDates(current, end, step)| * step > MaxDay then Overflowed
                 else Finished(DueDates(current, end, step)))
    decreases end - current
  {
    if current <= end {
      var all, rest := DueDates(current, end, step), DueDates(current + step, end, step);
      assert all == [current] + rest;
      if InRange(current + step) {
        LoopAgreesWithDueDates(current + step, end, step, fuel - 1);
        assert |all| * step == |rest| * step + step by {
          assert |all| == |rest| + 1;
        }
      } else {
        assert rest == [];
      }
    }
  }

  // ---------------------------------------------------------------------
  // Creating a definition.

  /** The body of a create-definition request. A start day outside
      `InRange` stands for a start date `date.fromisoformat` rejects. */
  datatype DefinitionRequest = DefinitionRequest(
    equipmentId: Id,
    taskType: TaskType,
    frequencyType: FrequencyType,
    frequencyValue: int,
    startDate: Day)

  datatype Created = Created(store: Store, definition: TaskDefinition)

  /** Whether some equipment row has identifier `id`. */
  predicate HasEquipment(equipment: seq<Equipment>, id: Id)
  {
    exists i :: 0 <= i < |equipment| && equipment[i].id == id
  }

  /** The definition a request describes. */
  function DefinitionOf(req: DefinitionRequest, defId: Id): TaskDefinition
  {
    TaskDefinition(defId, req.equipmentId, req.taskType, req.frequencyType,
                   req.frequencyValue, req.startDate)
  }

  /** What a request leaves behind: the store after it, and its response. */
  datatype Answer = Answer(store: Store, response: Result<TaskDefinition, Error>)

  /** The endpoint as written: the equipment check, the start-date parse,
      the commit of the definition, then the generator loop up to
      today + 90 days. The commit itself fails, storing nothing, when
      `frequency_value` does not fit the 64-bit column. Any `OverflowError`
      comes after the commit, so the store keeps the definition without
      occurrences while the request fails. `None` means the request never
      answers. */
  function CreateTaskDefinitionAsWritten(s: Store, req: DefinitionRequest, today: Day, defId: Id,
                                         idOf: nat -> Id, fuel: nat): (r: Option<Answer>)
    ensures !HasEquipment(s.equipment, req.equipmentId) ==>
      r == Some(Answer(s, Failure(EquipmentNotFound)))
    ensures HasEquipment(s.equipment, req.equipmentId) && !InRange(req.startDate) ==>
      r == Some(Answer(s, Failure(InvalidDate)))
    ensures HasEquipment(s.equipment, req.equipmentId) && InRange(req.startDate)
            && !FitsIntegerColumn(req.frequencyValue) ==>
      r == Some(Answer(s, Failure(ColumnOverflow)))
    ensures HasEquipment(s.equipment, req.equipmentId) && InRange(req.startDate)
            && FitsIntegerColumn(req.frequencyValue) && r.Some? ==>
      && r.value.store.definitions == s.definitions + [DefinitionOf(req, defId)]
      && r.value.store.equipment == s.equipment
      && r.value.store.completions == s.completions
      && (r.value.response.Failure? ==> r.value.store.occurrences == s.occurrences)
      && (r.value.response.Failure? ==> r.value.response.error == DateOverflow)
  {
    if !HasEquipment(s.equipment, req.equipmentId) then Some(Answer(s, Failure(EquipmentNotFound)))
    else if !InRange(req.startDate) then Some(Answer(s, Failure(InvalidDate)))
    else if !FitsIntegerColumn(req.frequencyValue) then Some(Answer(s, Failure(ColumnOverflow)))
    else
      var def := DefinitionOf(req, defId);
      var committed := s.(definitions := s.definitions + [def]);
      if today + HorizonDays > MaxDay then Some(Answer(committed, Failure(DateOverflow)))
      else
        match GenerateLoopAsWritten(def.startDate, today + HorizonDays,
                                    Step(def.frequencyType, def.frequencyValue), fuel)
        case None => None
        case Some(Overflowed) => Some(Answer(committed, Failure(DateOverflow)))
        case Some(Finished(dates)) =>
          Some(Answer(committed.(occurrences := s.occurrences + OccurrencesOn(def, dates, idOf)),
                      Success(def)))
  }

  /** Create a definition and generate its occurrences up to today + 90 days.
      Unlike the endpoint, every check comes before the commit: a
      `frequency_value` below one is rejected, and so are a value too wide
      for its column and a horizon past the end of the calendar. The generator stops at the horizon without
      computing a further date, so a step longer than the calendar yields
      the start date alone. */
  function CreateTaskDefinition(s: Store, req: DefinitionRequest, today: Day, defId: Id,
                                idOf: nat -> Id): (r: Result<Created, Error>)
    ensures r == Failure(InvalidFrequency) <==> req.frequencyValue < 1
    ensures r == Failure(EquipmentNotFound) <==>
      req.frequencyValue >= 1 && forall e :: e in s.equipment ==> e.id != req.equipmentId
    ensures r == Failure(InvalidDate) <==>
      req.frequencyValue >= 1 && HasEquipment(s.equipment, req.equipmentId) && !InRange(req.startDate)
    ensures r == Failure(ColumnOverflow) <==>
      && req.frequencyValue >= 1 && HasEquipment(s.equipment, req.equipmentId) && InRange(req.startDate)
      && !FitsIntegerColumn(req.frequencyValue)
    ensures r == Failure(DateOverflow) <==>
      && req.frequencyValue >= 1 && HasEquipment(s.equipment, req.equipmentId) && InRange(req.startDate)
      && FitsIntegerColumn(req.frequencyValue) && today + HorizonDays > MaxDay
    ensures r.Success? <==>
      && req.frequencyValue >= 1 && HasEquipment(s.equipment, req.equipmentId) && InRange(req.startDate)
      && FitsIntegerColumn(req.frequencyValue) && today + HorizonDays <= MaxDay
    ensures r.Success? ==>
      && r.value.definition == DefinitionOf(req, defId)
      && r.value.store.equipment == s.equipment
      && r.value.store.definitions == s.definitions + [r.value.definition]
      && r.value.store.completions == s.completions
      && r.value.store.occurrences ==
           s.occurrences + GenerateTaskOccurrences(r.value.definition, today, None, idOf)
      && forall k :: |s.occurrences| <= k < |r.value.store.occurrences| ==>
           InRange(r.value.store.occurrences[k].dueDate)
  {
    if req.frequencyValue < 1 then Failure(InvalidFrequency)
    else if !HasEquipment(s.equipment, req.equipmentId) then Failure(EquipmentNotFound)
    else if !InRange(req.startDate) then Failure(InvalidDate)
    else if !FitsIntegerColumn(req.frequencyValue) then Failure(ColumnOverflow)
    else if today + HorizonDays > MaxDay then Failure(DateOverflow)
    else
      var def := DefinitionOf(req, defId);
      var generated := GenerateTaskOccurrences(def, today, None, idOf);
      var occs := s.occurrences + generated;
      assert forall k :: |s.occurrences| <= k < |occs| ==> occs[k] == generated[k - |s.occurrences|];
      Success(Created(Store(s.equipment, s.definitions + [def], occs, s.completions), def))
  }

  // ---------------------------------------------------------------------
  // The endpoint as written against the corrected one.

  /** A `frequency_value` of zero: the definition is committed and the
      request never answers. The corrected endpoint rejects it. */
  lemma ZeroFrequencyNeverAnswers(s: Store, req: DefinitionRequest, today: Day, defId: Id,
                                  idOf: nat -> Id, fuel: nat)
    requires req.frequencyValue == 0
    requires HasEquipment(s.equipment, req.equipmentId) && InRange(req.startDate)
    requires req.startDate <= today + HorizonDays <= MaxDay
    ensures CreateTaskDefinitionAsWritten(s, req, today, defId, idOf, fuel) == None
    ensures CreateTaskDefinition(s, req, today, defId, idOf) == Failure(InvalidFrequency)
  {
    StepSign(req.frequencyType, req.frequencyValue);
    ZeroStepNeverTerminates(req.startDate, today + HorizonDays, fuel);
  }

  /** A negative `frequency_value`: the loop walks back to year 1 and raises
      `OverflowError`, leaving the definition committed with no occurrences.
      The corrected endpoint rejects it and changes nothing. */
  lemma NegativeFrequencyFailsAfterCommit(s: Store, req: DefinitionRequest, today: Day, defId: Id,
                                          idOf: nat -> Id, fuel: nat)
    requires req.frequencyValue < 0 && FitsIntegerColumn(req.frequencyValue)
    requires HasEquipment(s.equipment, req.equipmentId) && InRange(req.startDate)
    requires req.startDate <= today + HorizonDays <= MaxDay
    requires fuel > req.startDate - MinDay
    ensures CreateTaskDefinitionAsWritten(s, req, today, defId, idOf, fuel)
         == Some(Answer(s.(definitions := s.definitions + [DefinitionOf(req, defId)]), Failure(DateOverflow)))
    ensures CreateTaskDefinition(s, req, today, defId, idOf) == Failure(InvalidFrequency)
  {
    StepSign(req.frequencyType, req.frequencyValue);
    NegativeStepOverflows(req.startDate, today + HorizonDays,
                          Step(req.frequencyType, req.frequencyValue), fuel);
  }

  /** A step that jumps past 31 December 9999: only the start date is due
      before the horizon, but computing the next date raises
      `OverflowError` after the commit. The corrected endpoint creates the
      definition with its one occurrence. */
  lemma HugeFrequencyFailsAfterCommit(s: Store, req: DefinitionRequest, today: Day, defId: Id,
                                      idOf: nat -> Id, fuel: nat)
    requires req.frequencyValue >= 1 && FitsIntegerColumn(req.frequencyValue)
    requires HasEquipment(s.equipment, req.equipmentId) && InRange(req.startDate)
    requires req.startDate <= today + HorizonDays <= MaxDay
    requires req.startDate + Step(req.frequencyType, req.frequencyValue) > MaxDay
    requires fuel >= 1
    ensures CreateTaskDefinitionAsWritten(s, req, today, defId, idOf, fuel)
         == Some(Answer(s.(definitions := s.definitions + [DefinitionOf(req, defId)]), Failure(DateOverflow)))
    ensures CreateTaskDefinition(s, req, today, defId, idOf).Success?
    ensures |CreateTaskDefinition(s, req, today, defId, idOf).value.store.occurrences| == |s.occurrences| + 1
    ensures CreateTaskDefinition(s, req, today, defId, idOf).value.store.occurrences[|s.occurrences|].dueDate
         == req.startDate
  {
    var step := Step(req.frequencyType, req.frequencyValue);
    var end := today + HorizonDays;
    assert DueDates(req.startDate + step, end, step) == [];
    assert DueDates(req.startDate, end, step) == [req.startDate];
  }

  /** A `frequency_value` too wide for its 64-bit column: the commit fails
      and nothing is stored, whatever the dates. The corrected endpoint
      rejects the value before committing, as invalid when it is negative and
      as too wide otherwise; either way the store is unchanged. */
  lemma WideFrequencyFailsAtCommit(s: Store, req: DefinitionRequest, today: Day, defId: Id,
                                   idOf: nat -> Id, fuel: nat)
    requires !FitsIntegerColumn(req.frequencyValue)
    requires HasEquipment(s.equipment, req.equipmentId) && InRange(req.startDate)
    ensures CreateTaskDefinitionAsWritten(s, req, today, defId, idOf, fuel)
         == Some(Answer(s, Failure(ColumnOverflow)))
    ensures CreateTaskDefinition(s, req, today, defId, idOf)
         == Failure(if req.frequencyValue < 1 then InvalidFrequency else ColumnOverflow)
  {
  }

  /** When no date computation leaves the calendar and the step is positive,
      the endpoint as written and the corrected one agree: same store, same
      definition. */
  lemma AsWrittenAgreesWhenInRange(s: Store, req: DefinitionRequest, today: Day, defId: Id,
                                   idOf: nat -> Id, fuel: nat)
    requires req.frequencyValue >= 1 && InRange(req.startDate) && today + HorizonDays <= MaxDay
    requires var step := Step(req.frequencyType, req.frequencyValue);
      var n := |DueDates(req.startDate, today + HorizonDays, step)|;
      fuel >= n && req.startDate + n * step <= MaxDay
    ensures CreateTaskDefinition(s, req, today, defId, idOf).Success? ==>
      CreateTaskDefinitionAsWritten(s, req, today, defId, idOf, fuel)
        == Some(Answer(CreateTaskDefinition(s, req, today, defId, idOf).value.store,
                       Success(DefinitionOf(req, defId))))
    ensures CreateTaskDefinition(s, req, today, defId, idOf).Failure? ==>
      CreateTaskDefinitionAsWritten(s, req, today, defId, idOf, fuel)
        == Some(Answer(s, Failure(CreateTaskDefinition(s, req, today, defId, idOf).error)))
  {
    var step := Step(req.frequencyType, req.frequencyValue);
    LoopAgreesWithDueDates(req.startDate, today + HorizonDays, step, fuel);
  }
}
