/** Read-only analytics over the occurrence table: completion rate over a
    trailing window, per-equipment scores and the type/equipment breakdown.
    Rates are exact; the two-decimal rounding of the response is not part of
    the model. */
module Analytics {
  import opened Wrappers
  import opened Calendar
  import opened Records
  import opened Seqs
  import opened Tally

  /** The trailing window: 7 days for "weekly", 30 days for any other period. */
  function WindowDays(period: string): int
  {
    if period == "weekly" then 7 else 30
  }

  /** `rate` is `part` as a percentage of `whole`, between 0 and 100, and 0
      when `whole` is 0. */
  ghost predicate IsPercentage(rate: real, part: nat, whole: nat)
  {
    && 0.0 <= rate <= 100.0
    && (whole == 0 ==> rate == 0.0)
    && (whole > 0 ==> rate * (whole as real) == 100.0 * (part as real))
  }

  /** `part / whole * 100`, or 0 when `whole` is 0. */
  function Percent(part: nat, whole: nat): (r: real)
    requires part <= whole
    ensures IsPercentage(r, part, whole)
  {
    if whole == 0 then 0.0
    else
      var q := (part as real) / (whole as real);
      assert q * (whole as real) == part as real;
      assert q <= 1.0;
      q * 100.0
  }

  function DueFrom(from: Day): Occurrence -> bool
  {
    (o: Occurrence) => o.dueDate >= from
  }

  function IsCompleted(): Occurrence -> bool
  {
    (o: Occurrence) => o.completed
  }

  /** The completion-rate response, with the rate kept exact. */
  datatype RateReport = RateReport(period: string, rate: real, total: nat, completed: nat)

  /** Occurrences due on or after the window start count towards the total,
      however far in the future they are due; the completed ones among them
      count towards `completed`. */
  function CompletionRate(occs: seq<Occurrence>, period: string, today: Day): (r: RateReport)
    ensures r.period == period
    ensures r.total == |set i | 0 <= i < |occs|
                              && occs[i].dueDate >= today - (if period == "weekly" then 7 else 30)|
    ensures r.completed == |set i | 0 <= i < |occs|
                                  && occs[i].dueDate >= today - (if period == "weekly" then 7 else 30)
                                  && occs[i].completed|
    ensures r.completed <= r.total
    ensures IsPercentage(r.rate, r.completed, r.total)
  {
    var from := today - WindowDays(period);
    var all := Filter(occs, DueFrom(from));
    var done := Filter(all, IsCompleted());
    CountOfFilter(occs, DueFrom(from), IsCompleted());
    WindowPositions(occs, from);
    var rate := Percent(|done|, |all|);
    RateReport(period, rate, |all|, |done|)
  }

  lemma WindowPositions(occs: seq<Occurrence>, from: Day)
    ensures Positions(occs, DueFrom(from)) == set i | 0 <= i < |occs| && occs[i].dueDate >= from
    ensures PositionsBoth(occs, DueFrom(from), IsCompleted())
         == set i | 0 <= i < |occs| && occs[i].dueDate >= from && occs[i].completed
  {
  }

  /** The weekly window lies inside the monthly one, so it never counts more. */
  lemma WeeklyWithinMonthly(occs: seq<Occurrence>, today: Day)
    ensures CompletionRate(occs, "weekly", today).total <= CompletionRate(occs, "monthly", today).total
    ensures CompletionRate(occs, "weekly", today).completed <= CompletionRate(occs, "monthly", today).completed
  {
    SubsetCard(set i | 0 <= i < |occs| && occs[i].dueDate >= today - 7,
               set i | 0 <= i < |occs| && occs[i].dueDate >= today - 30);
    SubsetCard(set i | 0 <= i < |occs| && occs[i].dueDate >= today - 7 && occs[i].completed,
               set i | 0 <= i < |occs| && occs[i].dueDate >= today - 30 && occs[i].completed);
  }

  /** The window has no upper end: an occurrence due today or later always
      adds one to the total. */
  lemma FutureOccurrenceCounts(occs: seq<Occurrence>, period: string, today: Day, o: Occurrence)
    requires o.dueDate >= today
    ensures CompletionRate(occs + [o], period, today).total == CompletionRate(occs, period, today).total + 1
  {
    var from := today - WindowDays(period);
    PositionsSnoc(occs, o, DueFrom(from));
    assert Positions(occs, DueFrom(from)) == set i | 0 <= i < |occs| && occs[i].dueDate >= from;
    var t := occs + [o];
    assert Positions(t, DueFrom(from)) == set i | 0 <= i < |t| && t[i].dueDate >= from;
  }

  // ---------------------------------------------------------------------
  // Per-equipment scores.

  /** One entry of the scores response. */
  datatype EquipmentScore = EquipmentScore(
    equipmentId: Id,
    equipmentName: string,
    score: real,
    totalTasks: nat,
    completedTasks: nat)

  function OfEquipment(id: Id): Occurrence -> bool
  {
    (o: Occurrence) => o.equipmentId == id
  }

  /** The score of one piece of equipment over the last 30 days. */
  function ScoreFor(e: Equipment, occs: seq<Occurrence>, today: Day): (r: EquipmentScore)
    ensures r.equipmentId == e.id && r.equipmentName == e.name
    ensures r.totalTasks == |set i | 0 <= i < |occs| && occs[i].equipmentId == e.id
                                   && occs[i].dueDate >= today - 30|
    ensures r.completedTasks == |set i | 0 <= i < |occs| && occs[i].equipmentId == e.id
                                       && occs[i].dueDate >= today - 30 && occs[i].completed|
    ensures r.completedTasks <= r.totalTasks
    ensures IsPercentage(r.score, r.completedTasks, r.totalTasks)
  {
    var from := today - 30;
    var eqTasks := Filter(occs, EquipmentDueFrom(e.id, from));
    var done := Filter(eqTasks, IsCompleted());
    CountOfFilter(occs, EquipmentDueFrom(e.id, from), IsCompleted());
    EquipmentWindowPositions(occs, e.id, from);
    var score := Percent(|done|, |eqTasks|);
    EquipmentScore(e.id, e.name, score, |eqTasks|, |done|)
  }

  function EquipmentDueFrom(id: Id, from: Day): Occurrence -> bool
  {
    (o: Occurrence) => o.equipmentId == id && o.dueDate >= from
  }

  lemma EquipmentWindowPositions(occs: seq<Occurrence>, id: Id, from: Day)
    ensures Positions(occs, EquipmentDueFrom(id, from))
         == set i | 0 <= i < |occs| && occs[i].equipmentId == id && occs[i].dueDate >= from
    ensures PositionsBoth(occs, EquipmentDueFrom(id, from), IsCompleted())
         == set i | 0 <= i < |occs| && occs[i].equipmentId == id && occs[i].dueDate >= from
                  && occs[i].completed
  {
  }

  /** One score per equipment row, in table order. */
  function EquipmentScores(equipment: seq<Equipment>, occs: seq<Occurrence>, today: Day): (r: seq<EquipmentScore>)
    ensures |r| == |equipment|
    ensures forall k :: 0 <= k < |r| ==>
      && r[k].equipmentId == equipment[k].id
      && r[k].equipmentName == equipment[k].name
      && r[k].totalTasks == |set i | 0 <= i < |occs| && occs[i].equipmentId == equipment[k].id
                                   && occs[i].dueDate >= today - 30|
      && r[k].completedTasks == |set i | 0 <= i < |occs| && occs[i].equipmentId == equipment[k].id
                                       && occs[i].dueDate >= today - 30 && occs[i].completed|
      && IsPercentage(r[k].score, r[k].completedTasks, r[k].totalTasks)
  {
    seq(|equipment|, k requires 0 <= k < |equipment| => ScoreFor(equipment[k], occs, today))
  }

  function CompletedFrom(from: Day): Occurrence -> bool
  {
    (o: Occurrence) => o.dueDate >= from && o.completed
  }

  lemma EquipmentSlicePositions(occs: seq<Occurrence>, id: Id, from: Day)
    ensures PositionsBoth(occs, OfEquipment(id), DueFrom(from))
         == set i | 0 <= i < |occs| && occs[i].equipmentId == id && occs[i].dueDate >= from
    ensures PositionsBoth(occs, OfEquipment(id), CompletedFrom(from))
         == set i | 0 <= i < |occs| && occs[i].equipmentId == id && occs[i].dueDate >= from
                  && occs[i].completed
  {
  }

  lemma SlicePositions(f: seq<Occurrence>, from: Day)
    ensures Positions(f, DueFrom(from)) == set i | 0 <= i < |f| && f[i].dueDate >= from
    ensures Positions(f, CompletedFrom(from)) == set i | 0 <= i < |f| && f[i].dueDate >= from && f[i].completed
  {
  }

  /** Two percentages of the same counts are the same number. */
  lemma PercentageUnique(r1: real, r2: real, part: nat, whole: nat)
    requires IsPercentage(r1, part, whole) && IsPercentage(r2, part, whole)
    ensures r1 == r2
  {
    if whole > 0 {
      assert (r1 - r2) * (whole as real) == 0.0;
    }
  }

  /** A score is the monthly completion rate of that equipment's occurrences. */
  lemma ScoreIsMonthlyRateOfEquipment(e: Equipment, occs: seq<Occurrence>, today: Day)
    ensures var s := ScoreFor(e, occs, today);
      var m := CompletionRate(Filter(occs, OfEquipment(e.id)), "monthly", today);
      s.totalTasks == m.total && s.completedTasks == m.completed && s.score == m.rate
  {
    var f := Filter(occs, OfEquipment(e.id));
    var from := today - 30;
    var s := ScoreFor(e, occs, today);
    var m := CompletionRate(f, "monthly", today);
    CountOfFilter(occs, OfEquipment(e.id), DueFrom(from));
    CountOfFilter(occs, OfEquipment(e.id), CompletedFrom(from));
    EquipmentSlicePositions(occs, e.id, from);
    SlicePositions(f, from);
    assert s.totalTasks == m.total;
    assert s.completedTasks == m.completed;
    PercentageUnique(s.score, m.rate, m.completed, m.total);
  }

  // ---------------------------------------------------------------------
  // Breakdown by task type and by equipment name.

  /** The last position holding equipment `id`, if any. */
  function LastIndexOf(equipment: seq<Equipment>, id: Id): (r: Option<nat>)
    ensures r.None? <==> forall i :: 0 <= i < |equipment| ==> equipment[i].id != id
    ensures r.Some? ==> r.value < |equipment| && equipment[r.value].id == id
    ensures r.Some? ==> forall j :: r.value < j < |equipment| ==> equipment[j].id != id
    decreases |equipment|
  {
    if |equipment| == 0 then None
    else if equipment[|equipment| - 1].id == id then Some(|equipment| - 1)
    else
      var init := equipment[..|equipment| - 1];
      assert forall i :: 0 <= i < |init| ==> init[i] == equipment[i];
      LastIndexOf(init, id)
  }

  /** The name the equipment dict maps `id` to; a later row with the same id
      replaces an earlier one, as in a dict comprehension. */
  function NameOf(equipment: seq<Equipment>, id: Id): (r: Option<string>)
    ensures r.None? <==> forall i :: 0 <= i < |equipment| ==> equipment[i].id != id
    ensures r.Some? ==> exists i :: 0 <= i < |equipment| && equipment[i].id == id
                          && equipment[i].name == r.value
                          && forall j :: i < j < |equipment| ==> equipment[j].id != id
  {
    match LastIndexOf(equipment, id)
    case None => None
    case Some(i) => Some(equipment[i].name)
  }

  const UnknownEquipment: string := "Unknown"

  /** The by-equipment key of an occurrence: its equipment's name, or
      "Unknown" when no equipment row has its id. */
  function BucketName(equipment: seq<Equipment>, id: Id): string
  {
    match NameOf(equipment, id)
    case None => UnknownEquipment
    case Some(n) => n
  }

  /** The breakdown response: counts per task type and per equipment name,
      keys in first-seen order. */
  datatype Breakdown = Breakdown(byType: seq<(TaskType, nat)>, byEquipment: seq<(string, nat)>)

  function TaskBreakdown(occs: seq<Occurrence>, equipment: seq<Equipment>): (r: Breakdown)
    ensures DistinctKeys(r.byType) && DistinctKeys(r.byEquipment)
    ensures Total(r.byType) == |occs|
    ensures Total(r.byEquipment) == |occs|
    ensures forall t :: Get(r.byType, t) == |set i | 0 <= i < |occs| && occs[i].taskType == t|
    ensures forall n :: Get(r.byEquipment, n)
                     == |set i | 0 <= i < |occs| && BucketName(equipment, occs[i].equipmentId) == n|
    ensures Keys(r.byType) == set i | 0 <= i < |occs| :: occs[i].taskType
    ensures Keys(r.byEquipment) == set i | 0 <= i < |occs| :: BucketName(equipment, occs[i].equipmentId)
  {
    var typeOf := (o: Occurrence) => o.taskType;
    var nameOf := (o: Occurrence) => BucketName(equipment, o.equipmentId);
    var byType := TallyBy(occs, typeOf);
    var byEquipment := TallyBy(occs, nameOf);
    forall t ensures Get(byType, t) == |set i | 0 <= i < |occs| && occs[i].taskType == t| {
      assert KeyPositions(occs, typeOf, t) == set i | 0 <= i < |occs| && occs[i].taskType == t;
    }
    forall n ensures Get(byEquipment, n)
                  == |set i | 0 <= i < |occs| && BucketName(equipment, occs[i].equipmentId) == n| {
      assert KeyPositions(occs, nameOf, n)
          == set i | 0 <= i < |occs| && BucketName(equipment, occs[i].equipmentId) == n;
    }
    assert KeysOf(occs, typeOf) == set i | 0 <= i < |occs| :: occs[i].taskType;
    assert KeysOf(occs, nameOf) == set i | 0 <= i < |occs| :: BucketName(equipment, occs[i].equipmentId);
    Breakdown(byType, byEquipment)
  }

  /** Occurrences whose equipment id has no equipment row are counted under
      "Unknown". */
  lemma OrphansCountAsUnknown(occs: seq<Occurrence>, equipment: seq<Equipment>, id: Id)
    requires forall e :: e in equipment ==> e.id != id
    ensures Get(TaskBreakdown(occs, equipment).byEquipment, UnknownEquipment)
         >= |set i | 0 <= i < |occs| && occs[i].equipmentId == id|
  {
    assert BucketName(equipment, id) == UnknownEquipment;
    SubsetCard(set i | 0 <= i < |occs| && occs[i].equipmentId == id,
               set i | 0 <= i < |occs| && BucketName(equipment, occs[i].equipmentId) == UnknownEquipment);
  }

  /** Two pieces of equipment with the same name share one bucket, which
      counts the occurrences of both. */
  lemma SharedNameMerges(occs: seq<Occurrence>, equipment: seq<Equipment>, a: Id, b: Id, name: string)
    requires a != b
    requires NameOf(equipment, a) == Some(name) && NameOf(equipment, b) == Some(name)
    ensures Get(TaskBreakdown(occs, equipment).byEquipment, name)
         >= |set i | 0 <= i < |occs| && occs[i].equipmentId == a|
          + |set i | 0 <= i < |occs| && occs[i].equipmentId == b|
  {
    var sa := set i | 0 <= i < |occs| && occs[i].equipmentId == a;
    var sb := set i | 0 <= i < |occs| && occs[i].equipmentId == b;
    var all := set i | 0 <= i < |occs| && BucketName(equipment, occs[i].equipmentId) == name;
    assert sa * sb == {};
    assert |sa + sb| == |sa| + |sb|;
    SubsetCard(sa + sb, all);
  }
}
