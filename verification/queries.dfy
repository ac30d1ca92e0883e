/** The task listings: the filtered, date-ordered task list and the due-today,
    due-tomorrow and overdue lists. */
module Queries {
  import opened Wrappers
  import opened Calendar
  import opened Records
  import opened Seqs

  /** The optional query parameters of the task list. An absent or empty
      equipment id applies no equipment filter, as an empty string is falsy. */
  datatype TaskFilter = TaskFilter(
    startDate: Option<Day>,
    endDate: Option<Day>,
    equipmentId: Option<Id>,
    taskType: Option<TaskType>,
    completed: Option<bool>)

  /** Whether `o` passes every filter that is present; the date range is
      inclusive at both ends. */
  predicate Matches(f: TaskFilter, o: Occurrence)
  {
    && (f.startDate.Some? ==> o.dueDate >= f.startDate.value)
    && (f.endDate.Some? ==> o.dueDate <= f.endDate.value)
    && (f.equipmentId.Some? && f.equipmentId.value != "" ==> o.equipmentId == f.equipmentId.value)
    && (f.taskType.Some? ==> o.taskType == f.taskType.value)
    && (f.completed.Some? ==> o.completed == f.completed.value)
  }

  function MatchesFn(f: TaskFilter): Occurrence -> bool
  {
    o => Matches(f, o)
  }

  /** Non-decreasing by due date. */
  ghost predicate SortedByDue(s: seq<Occurrence>)
  {
    forall i, j :: 0 <= i < j < |s| ==> s[i].dueDate <= s[j].dueDate
  }

  /** Putting an element no later than the head in front keeps the order. */
  lemma ConsSorted(x: Occurrence, s: seq<Occurrence>)
    requires SortedByDue(s)
    requires |s| > 0 ==> x.dueDate <= s[0].dueDate
    ensures SortedByDue([x] + s)
  {
    var r := [x] + s;
    forall i, j | 0 <= i < j < |r| ensures r[i].dueDate <= r[j].dueDate {
      if i == 0 { assert r[j] == s[j - 1]; if j > 1 { assert s[0].dueDate <= s[j - 1].dueDate; } }
      else { assert r[i] == s[i - 1] && r[j] == s[j - 1]; }
    }
  }

  /** Insert `o` after every element due on or before it. */
  function InsertByDue(s: seq<Occurrence>, o: Occurrence): (r: seq<Occurrence>)
    requires SortedByDue(s)
    ensures SortedByDue(r)
    ensures multiset(r) == multiset(s) + multiset{o}
    ensures |r| == |s| + 1
    ensures r[0] == o || (|s| > 0 && r[0] == s[0])
    decreases |s|
  {
    if |s| == 0 then [o]
    else if o.dueDate < s[0].dueDate then
      ConsSorted(o, s);
      [o] + s
    else
      assert s == [s[0]] + s[1..];
      assert SortedByDue(s[1..]);
      var rest := InsertByDue(s[1..], o);
      assert |s| > 1 ==> s[0].dueDate <= s[1].dueDate;
      ConsSorted(s[0], rest);
      [s[0]] + rest
  }

  /** An element due no earlier than everything already there goes last:
      insertion is stable. */
  lemma {:induction false} InsertAfterAll(s: seq<Occurrence>, o: Occurrence)
    requires SortedByDue(s)
    requires forall i :: 0 <= i < |s| ==> s[i].dueDate <= o.dueDate
    ensures InsertByDue(s, o) == s + [o]
    decreases |s|
  {
    if |s| > 0 {
      assert s == [s[0]] + s[1..];
      assert SortedByDue(s[1..]);
      assert forall i :: 0 <= i < |s[1..]| ==> s[1..][i].dueDate <= o.dueDate by {
        forall i | 0 <= i < |s[1..]| ensures s[1..][i].dueDate <= o.dueDate { assert s[1..][i] == s[i + 1]; }
      }
      InsertAfterAll(s[1..], o);
      assert [s[0]] + (s[1..] + [o]) == s + [o];
    }
  }

  /** A stable sort of the occurrences by due date. */
  function SortByDue(s: seq<Occurrence>): (r: seq<Occurrence>)
    ensures SortedByDue(r)
    ensures multiset(r) == multiset(s)
    ensures |r| == |s|
    decreases |s|
  {
    if |s| == 0 then []
    else
      assert s == s[..|s| - 1] + [s[|s| - 1]];
      InsertByDue(SortByDue(s[..|s| - 1]), s[|s| - 1])
  }

  /** Sorting keeps exactly the same elements. */
  lemma SortKeepsMembers(s: seq<Occurrence>, o: Occurrence)
    ensures o in SortByDue(s) <==> o in s
  {
    assert o in SortByDue(s) <==> o in multiset(SortByDue(s));
    assert o in s <==> o in multiset(s);
  }

  /** Sorting an already sorted sequence leaves it as it is. */
  lemma {:induction false} SortSortedIsIdentity(s: seq<Occurrence>)
    requires SortedByDue(s)
    ensures SortByDue(s) == s
    decreases |s|
  {
    if |s| > 0 {
      var init := s[..|s| - 1];
      var last := s[|s| - 1];
      assert s == init + [last];
      assert SortedByDue(init) by {
        forall i, j | 0 <= i < j < |init| ensures init[i].dueDate <= init[j].dueDate {
          assert init[i] == s[i] && init[j] == s[j];
        }
      }
      SortSortedIsIdentity(init);
      assert forall i :: 0 <= i < |init| ==> init[i].dueDate <= last.dueDate by {
        forall i | 0 <= i < |init| ensures init[i].dueDate <= last.dueDate {
          assert init[i] == s[i];
        }
      }
      InsertAfterAll(init, last);
    }
  }

  /** The task list: every occurrence passing the filters, ordered by due date. */
  function GetTasks(occs: seq<Occurrence>, f: TaskFilter): (r: seq<Occurrence>)
    ensures SortedByDue(r)
    ensures forall o :: o in r <==> o in occs && Matches(f, o)
    ensures multiset(r) == multiset(Filter(occs, MatchesFn(f)))
    ensures |r| == |set i | 0 <= i < |occs| && Matches(f, occs[i])|
  {
    var matching := Filter(occs, MatchesFn(f));
    assert Positions(occs, MatchesFn(f)) == set i | 0 <= i < |occs| && Matches(f, occs[i]);
    var r := SortByDue(matching);
    forall o ensures o in r <==> o in occs && Matches(f, o) {
      SortKeepsMembers(matching, o);
    }
    r
  }

  /** Occurrences due on `d`, whatever their completion state. */
  function TasksOnDate(occs: seq<Occurrence>, d: Day): (r: seq<Occurrence>)
    ensures forall o :: o in r <==> o in occs && o.dueDate == d
    ensures |r| == |set i | 0 <= i < |occs| && occs[i].dueDate == d|
  {
    var p := (o: Occurrence) => o.dueDate == d;
    assert Positions(occs, p) == set i | 0 <= i < |occs| && occs[i].dueDate == d;
    Filter(occs, p)
  }

  /** Pending occurrences due today. */
  function TasksToday(occs: seq<Occurrence>, today: Day): (r: seq<Occurrence>)
    ensures forall o :: o in r <==> o in occs && o.dueDate == today && !o.completed
    ensures |r| == |set i | 0 <= i < |occs| && occs[i].dueDate == today && !occs[i].completed|
  {
    var p := (o: Occurrence) => o.dueDate == today && !o.completed;
    assert Positions(occs, p) == set i | 0 <= i < |occs| && occs[i].dueDate == today && !occs[i].completed;
    Filter(occs, p)
  }

  /** Pending occurrences due tomorrow. */
  function TasksTomorrow(occs: seq<Occurrence>, today: Day): (r: seq<Occurrence>)
    ensures forall o :: o in r <==> o in occs && o.dueDate == today + 1 && !o.completed
    ensures |r| == |set i | 0 <= i < |occs| && occs[i].dueDate == today + 1 && !occs[i].completed|
  {
    var p := (o: Occurrence) => o.dueDate == today + 1 && !o.completed;
    assert Positions(occs, p) == set i | 0 <= i < |occs| && occs[i].dueDate == today + 1 && !occs[i].completed;
    Filter(occs, p)
  }

  /** Pending occurrences due before today. Overdue is never stored. */
  function TasksOverdue(occs: seq<Occurrence>, today: Day): (r: seq<Occurrence>)
    ensures forall o :: o in r <==> o in occs && o.dueDate < today && !o.completed
    ensures |r| == |set i | 0 <= i < |occs| && occs[i].dueDate < today && !occs[i].completed|
  {
    var p := (o: Occurrence) => o.dueDate < today && !o.completed;
    assert Positions(occs, p) == set i | 0 <= i < |occs| && occs[i].dueDate < today && !occs[i].completed;
    Filter(occs, p)
  }

  /** Every pending occurrence is in exactly one of: overdue, due today, due
      tomorrow, due later. */
  lemma PendingPartition(occs: seq<Occurrence>, today: Day, o: Occurrence)
    requires o in occs && !o.completed
    ensures o in TasksOverdue(occs, today) <==> o.dueDate < today
    ensures o in TasksToday(occs, today) <==> o.dueDate == today
    ensures o in TasksTomorrow(occs, today) <==> o.dueDate == today + 1
    ensures (o !in TasksOverdue(occs, today) && o !in TasksToday(occs, today)
             && o !in TasksTomorrow(occs, today)) ==> o.dueDate > today + 1
  {
  }

  /** A one-day range lists the same occurrences as the by-date listing,
      each as often. In storage order they are even the same list: all due
      dates are equal, and the stable sort keeps storage order. */
  lemma {:induction false} OneDayRangeIsTasksOnDate(occs: seq<Occurrence>, d: Day)
    ensures multiset(GetTasks(occs, TaskFilter(Some(d), Some(d), None, None, None)))
         == multiset(TasksOnDate(occs, d))
    ensures GetTasks(occs, TaskFilter(Some(d), Some(d), None, None, None)) == TasksOnDate(occs, d)
  {
    var f := TaskFilter(Some(d), Some(d), None, None, None);
    var p := (o: Occurrence) => o.dueDate == d;
    FilterExtensional(occs, MatchesFn(f), p);
    var m := Filter(occs, p);
    assert forall i :: 0 <= i < |m| ==> m[i] in m;
    SortSortedIsIdentity(m);
  }
}
