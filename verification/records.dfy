/** The stored entities: equipment, task definitions (recurrence rules), task
    occurrences and the append-only completion history. */
module Records {
  import opened Wrappers
  import opened Calendar

  /** Entity identifiers (UUID strings). */
  type Id = string

  /** The task types accepted by the API. */
  datatype TaskType = Cleaning | Drying | Disinfecting | Other

  /** How a definition's `frequency_value` is interpreted. */
  datatype FrequencyType = Days | Weekly | Monthly

  /** A piece of equipment; only the fields the core reads are kept. */
  datatype Equipment = Equipment(id: Id, name: string)

  /** A recurrence rule for one piece of equipment. `frequencyValue` is an
      unvalidated integer in the stored row. */
  datatype TaskDefinition = TaskDefinition(
    id: Id,
    equipmentId: Id,
    taskType: TaskType,
    frequencyType: FrequencyType,
    frequencyValue: int,
    startDate: Day)

  /** One due-dated instance of a definition. `equipmentId` and `taskType` are
      copied from the definition when the occurrence is generated. */
  datatype Occurrence = Occurrence(
    id: Id,
    definitionId: Id,
    equipmentId: Id,
    dueDate: Day,
    taskType: TaskType,
    completed: bool,
    completedAt: Option<Instant>,
    notes: Option<string>,
    photoUrl: Option<string>)

  /** One entry of the completion history. */
  datatype Completion = Completion(
    id: Id,
    occurrenceId: Id,
    equipmentId: Id,
    taskType: TaskType,
    completedAt: Instant,
    notes: Option<string>,
    photoUrl: Option<string>)

  /** Whether an integer fits an `Integer` column of the SQLite store: a
      signed 64-bit INTEGER. Binding a wider Python `int` makes the commit
      fail, and nothing is written. */
  predicate FitsIntegerColumn(v: int)
  {
    -0x8000_0000_0000_0000 <= v < 0x8000_0000_0000_0000
  }

  /** The database tables the core reads and writes, in storage order. */
  datatype Store = Store(
    equipment: seq<Equipment>,
    definitions: seq<TaskDefinition>,
    occurrences: seq<Occurrence>,
    completions: seq<Completion>)

  /** Why a request fails: the handlers' not-found responses, a start date
      that is not a date, a commit that fails because an integer does not fit
      its column, a date computation past the end of the calendar
      (`OverflowError`), and the frequency check the corrected definition
      endpoint adds. */
  datatype Error =
    | TaskNotFound
    | EquipmentNotFound
    | InvalidDate
    | ColumnOverflow
    | DateOverflow
    | InvalidFrequency
}
