/** The `filteredTasks` pipeline of the task list page (src/Home.js): keep the
    fetched tasks that pass the status filter, then sort them stably with the
    comparator chosen by the sort selector. Everything here is a value: the
    fetched sequence is never changed, only read. */
module TaskView {
  import opened Wrappers
  import opened Tasks

  /** The status filter. Any selector value other than 'completed' and
      'incomplete' keeps every task. */
  datatype Filter = All | Completed | Incomplete

  function ParseFilter(s: string): (f: Filter)
    ensures f == Completed <==> s == "completed"
    ensures f == Incomplete <==> s == "incomplete"
    ensures f == All <==> s != "completed" && s != "incomplete"
  {
    if s == "completed" then Completed
    else if s == "incomplete" then Incomplete
    else All
  }

  /** The sort selector. Any value other than 'priority' and 'due_date'
      (the empty string included) leaves the server's order. */
  datatype SortBy = Unsorted | ByPriority | ByDueDate

  function ParseSortBy(s: string): (o: SortBy)
    ensures o == ByPriority <==> s == "priority"
    ensures o == ByDueDate <==> s == "due_date"
    ensures o == Unsorted <==> s != "priority" && s != "due_date"
  {
    if s == "priority" then ByPriority
    else if s == "due_date" then ByDueDate
    else Unsorted
  }

  /** The filter callback: the keep-all filter passes every task, and the
      other two split the tasks by completion, each passing what the other drops. */
  predicate Keep(f: Filter, t: Task)
    ensures f == All ==> Keep(f, t)
    ensures f != All ==> (Keep(f, t) <==> (t.completed <==> f == Completed))
  {
    match f
    case Completed => t.completed
    case Incomplete => !t.completed
    case All => true
  }

  /** Array.prototype.filter with the status callback: every task that passes is
      kept as often as it occurs, and nothing else is. */
  function FilterTasks(f: Filter, ts: seq<Task>): (r: seq<Task>)
    ensures |r| <= |ts|
    ensures forall i :: 0 <= i < |r| ==> Keep(f, r[i])
    ensures forall t :: multiset(r)[t] == if Keep(f, t) then multiset(ts)[t] else 0
  {
    if |ts| == 0 then []
    else
      assert ts == [ts[0]] + ts[1..];
      (if Keep(f, ts[0]) then [ts[0]] else []) + FilterTasks(f, ts[1..])
  }

  /** Filtering a sequence every task of which passes gives it back unchanged. */
  lemma {:induction false} FilterKeepsPassing(f: Filter, ts: seq<Task>)
    requires forall i :: 0 <= i < |ts| ==> Keep(f, ts[i])
    ensures FilterTasks(f, ts) == ts
  {
    if |ts| > 0 {
      var tail := ts[1..];
      forall i | 0 <= i < |tail| ensures Keep(f, tail[i]) {
        assert tail[i] == ts[i + 1];
      }
      FilterKeepsPassing(f, tail);
      assert Keep(f, ts[0]);
      calc {
        FilterTasks(f, ts);
        [ts[0]] + FilterTasks(f, tail);
        [ts[0]] + tail;
        ts;
      }
    }
  }

  /** The sort comparator as Array.prototype.sort reads it (section 23.1.3.30 of
      ECMA-262, 2023 edition): only the sign matters, a negative value puts `a`
      first, and a NaN result is read as +0.
      - by priority: rank(b) - rank(a); a missing priority looks up `undefined`,
        so the difference is NaN, i.e. 0;
      - by due date: dateA - dateB with a missing date standing for Infinity, so
        a dated task against an undated one gives -Infinity (here -1), the
        converse +Infinity (here 1) and two undated tasks NaN (here 0);
      - otherwise 0. */
  function Compare(o: SortBy, a: Task, b: Task): (r: int)
    ensures o == ByPriority && a.priority.Some? && b.priority.Some? ==>
      (r < 0 <==> Rank(a.priority.value) > Rank(b.priority.value)) &&
      (r == 0 <==> a.priority == b.priority)
    ensures o == ByPriority && (a.priority.None? || b.priority.None?) ==> r == 0
    ensures o == ByDueDate && a.dueDate.Some? && b.dueDate.Some? ==>
      (r < 0 <==> a.dueDate.value < b.dueDate.value) && (r == 0 <==> a.dueDate == b.dueDate)
    ensures o == ByDueDate && a.dueDate.Some? && b.dueDate.None? ==> r < 0
    ensures o == ByDueDate && a.dueDate.None? && b.dueDate.Some? ==> r > 0
    ensures o == ByDueDate && a.dueDate.None? && b.dueDate.None? ==> r == 0
    ensures o == Unsorted ==> r == 0
  {
    match o
    case ByPriority =>
      if a.priority.Some? && b.priority.Some?
      then Rank(b.priority.value) - Rank(a.priority.value)
      else 0
    case ByDueDate =>
      (match (a.dueDate, b.dueDate)
       case (Some(x), Some(y)) => x - y
       case (Some(_), None) => -1
       case (None, Some(_)) => 1
       case (None, None) => 0)
    case Unsorted => 0
  }

  /** A task the comparator can place consistently: sorting by priority needs a
      known priority. */
  predicate Known(o: SortBy, t: Task)
  {
    o == ByPriority ==> t.priority.Some?
  }

  /** Every task of `ts` is known to the comparator, so the comparator is a
      consistent comparator on `ts` in the sense of ECMA-262. */
  predicate Comparable(o: SortBy, ts: seq<Task>)
  {
    forall i :: 0 <= i < |ts| ==> Known(o, ts[i])
  }

  /** `a` may stand before `b`. */
  predicate Precedes(o: SortBy, a: Task, b: Task)
  {
    Compare(o, a, b) <= 0
  }

  predicate Sorted(o: SortBy, ts: seq<Task>)
  {
    forall i, j :: 0 <= i < j < |ts| ==> Precedes(o, ts[i], ts[j])
  }

  /** The comparator is antisymmetric in sign on every pair of tasks. */
  lemma CompareAntisymmetric(o: SortBy, a: Task, b: Task)
    ensures Compare(o, a, b) < 0 <==> Compare(o, b, a) > 0
    ensures Compare(o, a, b) == 0 <==> Compare(o, b, a) == 0
  {
  }

  /** On known tasks "may stand before" is transitive, and comparing equal is an
      equivalence. */
  lemma CompareTransitive(o: SortBy, a: Task, b: Task, c: Task)
    requires Known(o, a) && Known(o, b) && Known(o, c)
    ensures Precedes(o, a, b) && Precedes(o, b, c) ==> Precedes(o, a, c)
    ensures Compare(o, a, b) == 0 && Compare(o, a, c) == 0 ==> Compare(o, b, c) == 0
  {
  }

  /** One step of a stable insertion sort: `x` goes in front of the first task it
      may precede, so it stays ahead of every task that compares equal to it. */
  function Insert(o: SortBy, x: Task, ts: seq<Task>): (r: seq<Task>)
    ensures |r| == |ts| + 1
    ensures multiset(r) == multiset(ts) + multiset{x}
  {
    if |ts| == 0 then [x]
    else if Precedes(o, x, ts[0]) then [x] + ts
    else
      assert ts == [ts[0]] + ts[1..];
      [ts[0]] + Insert(o, x, ts[1..])
  }

  /** A stable sort: the tail is sorted first and the head inserted in front of
      every task it may precede. The result is a permutation of the input. */
  function InsertionSort(o: SortBy, ts: seq<Task>): (r: seq<Task>)
    ensures |r| == |ts|
    ensures multiset(r) == multiset(ts)
  {
    if |ts| == 0 then []
    else
      assert ts == [ts[0]] + ts[1..];
      Insert(o, ts[0], InsertionSort(o, ts[1..]))
  }

  /** Being known to the comparator survives any permutation. */
  lemma ComparablePermutation(o: SortBy, a: seq<Task>, b: seq<Task>)
    requires multiset(a) == multiset(b)
    requires Comparable(o, b)
    ensures Comparable(o, a)
  {
    forall i | 0 <= i < |a| ensures Known(o, a[i]) {
      assert a[i] in multiset(b);
      var j :| 0 <= j < |b| && b[j] == a[i];
    }
  }

  /** A task that may precede every task of a sorted sequence can head it. */
  lemma SortedCons(o: SortBy, y: Task, ts: seq<Task>)
    requires Sorted(o, ts)
    requires forall i :: 0 <= i < |ts| ==> Precedes(o, y, ts[i])
    ensures Sorted(o, [y] + ts)
  {
  }

  lemma ComparableTail(o: SortBy, ts: seq<Task>)
    requires |ts| > 0 && Comparable(o, ts)
    ensures Known(o, ts[0]) && Comparable(o, ts[1..])
  {
  }

  lemma {:induction false} InsertSorted(o: SortBy, x: Task, ts: seq<Task>)
    requires Known(o, x) && Comparable(o, ts) && Sorted(o, ts)
    ensures Sorted(o, Insert(o, x, ts))
  {
    if |ts| == 0 {
    } else if Precedes(o, x, ts[0]) {
      forall i | 0 <= i < |ts| ensures Precedes(o, x, ts[i]) {
        if i > 0 {
          assert Known(o, ts[0]) && Known(o, ts[i]);
          assert Precedes(o, ts[0], ts[i]);
          CompareTransitive(o, x, ts[0], ts[i]);
        }
      }
      SortedCons(o, x, ts);
    } else {
      var tail := ts[1..];
      ComparableTail(o, ts);
      assert Sorted(o, tail) by {
        forall i, j | 0 <= i < j < |tail| ensures Precedes(o, tail[i], tail[j]) {
          assert tail[i] == ts[i + 1] && tail[j] == ts[j + 1];
        }
      }
      InsertSorted(o, x, tail);
      var ins := Insert(o, x, tail);
      forall i | 0 <= i < |ins| ensures Precedes(o, ts[0], ins[i]) {
        var e := ins[i];
        assert e in multiset(ins);
        if e == x {
          CompareAntisymmetric(o, x, ts[0]);
        } else {
          assert e in multiset(tail);
          var k :| 0 <= k < |tail| && tail[k] == e;
          assert ts[k + 1] == e;
        }
      }
      SortedCons(o, ts[0], ins);
    }
  }

  /** The sort orders every comparable sequence. */
  lemma {:induction false} SortSorted(o: SortBy, ts: seq<Task>)
    requires Comparable(o, ts)
    ensures Sorted(o, InsertionSort(o, ts))
  {
    if |ts| > 0 {
      SortSorted(o, ts[1..]);
      ComparablePermutation(o, InsertionSort(o, ts[1..]), ts[1..]);
      InsertSorted(o, ts[0], InsertionSort(o, ts[1..]));
    }
  }

  /** The tasks of `ts` that compare equal to `t`, in their order in `ts`. */
  function SameKey(o: SortBy, t: Task, ts: seq<Task>): (r: seq<Task>)
    ensures |r| <= |ts|
    ensures forall i :: 0 <= i < |r| ==> Compare(o, t, r[i]) == 0
  {
    if |ts| == 0 then []
    else (if Compare(o, t, ts[0]) == 0 then [ts[0]] else []) + SameKey(o, t, ts[1..])
  }

  lemma SameKeyCons(o: SortBy, t: Task, x: Task, ts: seq<Task>)
    ensures SameKey(o, t, [x] + ts) ==
            (if Compare(o, t, x) == 0 then [x] else []) + SameKey(o, t, ts)
  {
    assert ([x] + ts)[1..] == ts;
  }

  lemma {:induction false} InsertSameKey(o: SortBy, t: Task, x: Task, ts: seq<Task>)
    requires Known(o, t) && Known(o, x) && Comparable(o, ts)
    ensures SameKey(o, t, Insert(o, x, ts)) ==
            (if Compare(o, t, x) == 0 then [x] else []) + SameKey(o, t, ts)
  {
    if |ts| == 0 {
      SameKeyCons(o, t, x, []);
    } else if Precedes(o, x, ts[0]) {
      SameKeyCons(o, t, x, ts);
    } else {
      var tail := ts[1..];
      ComparableTail(o, ts);
      InsertSameKey(o, t, x, tail);
      SameKeyCons(o, t, ts[0], Insert(o, x, tail));
      SameKeyCons(o, t, ts[0], tail);
      assert ts == [ts[0]] + tail;
      // ts[0] stays ahead of x only when x cannot precede it, so ts[0] is not in x's key class
      CompareTransitive(o, t, x, ts[0]);
    }
  }

  /** Stability: among the tasks that compare equal to any known task `t`, the
      sort keeps the order they had in its input. */
  lemma {:induction false} SortStable(o: SortBy, t: Task, ts: seq<Task>)
    requires Known(o, t) && Comparable(o, ts)
    ensures SameKey(o, t, InsertionSort(o, ts)) == SameKey(o, t, ts)
  {
    if |ts| > 0 {
      SortStable(o, t, ts[1..]);
      ComparablePermutation(o, InsertionSort(o, ts[1..]), ts[1..]);
      InsertSameKey(o, t, ts[0], InsertionSort(o, ts[1..]));
    }
  }

  /** An already sorted sequence is left exactly as it is. */
  lemma {:induction false} SortKeepsSorted(o: SortBy, ts: seq<Task>)
    requires Sorted(o, ts)
    ensures InsertionSort(o, ts) == ts
  {
    if |ts| > 0 {
      SortKeepsSorted(o, ts[1..]);
      assert ts == [ts[0]] + ts[1..];
    }
  }

  /** With no sort selected the comparator always answers 0, so the stable sort
      keeps the server's order. */
  lemma UnsortedKeepsOrder(ts: seq<Task>)
    ensures InsertionSort(Unsorted, ts) == ts
  {
    SortKeepsSorted(Unsorted, ts);
  }

  /** `filteredTasks`: the fetched tasks that pass the filter, stably sorted. */
  function VisibleTasks(ts: seq<Task>, f: Filter, o: SortBy): (r: seq<Task>)
    ensures forall t :: multiset(r)[t] == if Keep(f, t) then multiset(ts)[t] else 0
  {
    InsertionSort(o, FilterTasks(f, ts))
  }

  /** Filter 'completed': only completed tasks are shown, and every completed
      task is shown as often as it was fetched. */
  lemma VisibleCompleted(ts: seq<Task>, o: SortBy)
    ensures var r := VisibleTasks(ts, Completed, o);
      && (forall i :: 0 <= i < |r| ==> r[i].completed)
      && (forall t | t in ts && t.completed :: multiset(r)[t] == multiset(ts)[t] && t in r)
  {
    var r := VisibleTasks(ts, Completed, o);
    forall i | 0 <= i < |r| ensures r[i].completed {
      assert multiset(r)[r[i]] > 0;
    }
    forall t | t in ts && t.completed ensures multiset(r)[t] == multiset(ts)[t] && t in r {
      assert multiset(ts)[t] > 0;
    }
  }

  /** Filter 'incomplete': only incomplete tasks are shown, and every incomplete
      task is shown as often as it was fetched. */
  lemma VisibleIncomplete(ts: seq<Task>, o: SortBy)
    ensures var r := VisibleTasks(ts, Incomplete, o);
      && (forall i :: 0 <= i < |r| ==> !r[i].completed)
      && (forall t | t in ts && !t.completed :: multiset(r)[t] == multiset(ts)[t] && t in r)
  {
    var r := VisibleTasks(ts, Incomplete, o);
    forall i | 0 <= i < |r| ensures !r[i].completed {
      assert multiset(r)[r[i]] > 0;
    }
    forall t | t in ts && !t.completed ensures multiset(r)[t] == multiset(ts)[t] && t in r {
      assert multiset(ts)[t] > 0;
    }
  }

  /** Any other filter value shows every fetched task, each exactly as often as
      it was fetched. */
  lemma VisibleAll(ts: seq<Task>, o: SortBy)
    ensures multiset(VisibleTasks(ts, All, o)) == multiset(ts)
  {
  }

  /** Sorting by priority, when every task that passes the filter has a
      priority: the shown tasks are in non-increasing rank, high before medium
      before low. */
  lemma VisibleByPriority(ts: seq<Task>, f: Filter)
    requires Comparable(ByPriority, FilterTasks(f, ts))
    ensures var r := VisibleTasks(ts, f, ByPriority);
      && (forall i :: 0 <= i < |r| ==> r[i].priority.Some?)
      && (forall i, j :: 0 <= i < j < |r| ==> Rank(r[i].priority.value) >= Rank(r[j].priority.value))
  {
    var filtered := FilterTasks(f, ts);
    SortSorted(ByPriority, filtered);
    ComparablePermutation(ByPriority, InsertionSort(ByPriority, filtered), filtered);
  }

  /** Sorting by due date: dated tasks come in non-decreasing date order and
      every undated task comes after every dated one. */
  lemma VisibleByDueDate(ts: seq<Task>, f: Filter)
    ensures var r := VisibleTasks(ts, f, ByDueDate);
      && (forall i, j :: 0 <= i < j < |r| && r[i].dueDate.None? ==> r[j].dueDate.None?)
      && (forall i, j :: 0 <= i < j < |r| && r[i].dueDate.Some? && r[j].dueDate.Some? ==>
            r[i].dueDate.value <= r[j].dueDate.value)
  {
    SortSorted(ByDueDate, FilterTasks(f, ts));
  }

  /** With no sort selected, the shown tasks are the passing tasks in server order;
      with no filter either, they are the fetched page itself. */
  lemma VisibleUnsorted(ts: seq<Task>, f: Filter)
    ensures VisibleTasks(ts, f, Unsorted) == FilterTasks(f, ts)
    ensures VisibleTasks(ts, All, Unsorted) == ts
  {
    UnsortedKeepsOrder(FilterTasks(f, ts));
    UnsortedKeepsOrder(FilterTasks(All, ts));
    FilterKeepsPassing(All, ts);
  }

  /** Among shown tasks that compare equal, the server's order is kept, whenever
      the comparator is consistent on the tasks that pass the filter. */
  lemma VisibleStable(ts: seq<Task>, f: Filter, o: SortBy, t: Task)
    requires Known(o, t) && Comparable(o, FilterTasks(f, ts))
    ensures SameKey(o, t, VisibleTasks(ts, f, o)) == SameKey(o, t, FilterTasks(f, ts))
  {
    SortStable(o, t, FilterTasks(f, ts));
  }

  /** Running the pipeline on its own output changes nothing, whenever the
      comparator is consistent on the tasks that pass the filter. */
  lemma VisibleIdempotent(ts: seq<Task>, f: Filter, o: SortBy)
    requires Comparable(o, FilterTasks(f, ts))
    ensures VisibleTasks(VisibleTasks(ts, f, o), f, o) == VisibleTasks(ts, f, o)
  {
    var filtered := FilterTasks(f, ts);
    var r := InsertionSort(o, filtered);
    SortSorted(o, filtered);
    FilterKeepsPassing(f, r);
    SortKeepsSorted(o, r);
  }
}
