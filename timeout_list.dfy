// The deadline structure of src/timeout_list.rs, run by one thread: a map
// from each interval (in nanoseconds) to the FIFO of timeouts added with that
// interval, and a binary heap holding one entry for each non-empty list,
// stamped with the deadline of the list's first timeout.  A list's `in_use`
// counter is 1 while the list has an entry in the heap and 0 otherwise, which
// keeps a list from entering the heap twice.
//
// The clock is the parameter `now`; the handler that the timer thread applies
// to each expired timeout is replaced by returning the expired data, in the
// order the handler would see them.

module TimeoutList {
  import opened Wrappers
  import opened TimeoutTime

  const HASH_CAP: nat := 1024

  /** TimeoutData: the deadline in nanoseconds and the user data. */
  datatype TimeoutData<T> = TimeoutData(time: nat, data: T)

  /** The shared interval list: its FIFO of timeouts and its `in_use` counter. */
  datatype IntervalList<T> = IntervalList(entries: seq<TimeoutData<T>>, inUse: nat)

  /** IntervalEntry: a heap entry naming its list by the interval. */
  datatype IntervalEntry = IntervalEntry(time: nat, interval: nat)

  datatype Ordering = Less | Equal | Greater

  function CompareTimes(a: nat, b: nat): Ordering
  {
    if a < b then Less else if a == b then Equal else Greater
  }

  /** IntervalEntry's Ord: the times compared the other way round. */
  function Cmp(a: IntervalEntry, b: IntervalEntry): (o: Ordering)
    ensures o == Greater <==> a.time < b.time
    ensures o == Less <==> b.time < a.time
  {
    CompareTimes(b.time, a.time)
  }

  /** IntervalEntry's PartialEq: the times only. */
  predicate EntryEq(a: IntervalEntry, b: IntervalEntry): (eq: bool)
    ensures eq <==> Cmp(a, b) == Equal
  {
    a.time == b.time
  }

  /** The reversed order is antisymmetric, as Ord requires. */
  lemma CmpReversed(a: IntervalEntry, b: IntervalEntry)
    ensures Cmp(a, b) == Greater <==> Cmp(b, a) == Less
    ensures Cmp(a, b) == Equal <==> Cmp(b, a) == Equal
  {
  }

  // ---------------------------------------------------------------------------
  // The binary heap, as the sequence of its entries

  /** The entry BinaryHeap::peek returns: a greatest one under Cmp, that is one
      with the earliest time (the first such when several tie). */
  function Earliest(heap: seq<IntervalEntry>): (i: nat)
    requires heap != []
    ensures i < |heap|
    ensures forall j :: 0 <= j < |heap| ==> heap[i].time <= heap[j].time
    decreases |heap|
  {
    if |heap| == 1 then 0
    else
      var i := Earliest(heap[..|heap| - 1]);
      if heap[|heap| - 1].time < heap[i].time then |heap| - 1 else i
  }

  /** No entry of the heap is greater than the one peek returns. */
  lemma EarliestIsMaximum(heap: seq<IntervalEntry>)
    requires heap != []
    ensures forall j :: 0 <= j < |heap| ==> Cmp(heap[Earliest(heap)], heap[j]) != Less
  {
  }

  function RemoveAt<E>(s: seq<E>, i: nat): (r: seq<E>)
    requires i < |s|
    ensures |r| == |s| - 1
  {
    s[..i] + s[i + 1..]
  }

  /** How many heap entries are due at `now`. */
  function DueCount(heap: seq<IntervalEntry>, now: nat): nat
  {
    if heap == [] then 0
    else DueCount(heap[..|heap| - 1], now) + (if heap[|heap| - 1].time <= now then 1 else 0)
  }

  lemma {:induction false} DueCountRemove(heap: seq<IntervalEntry>, i: nat, now: nat)
    requires i < |heap|
    ensures DueCount(heap, now) == DueCount(RemoveAt(heap, i), now) + (if heap[i].time <= now then 1 else 0)
    decreases |heap|
  {
    if i < |heap| - 1 {
      var init := heap[..|heap| - 1];
      DueCountRemove(init, i, now);
      assert RemoveAt(heap, i) == RemoveAt(init, i) + [heap[|heap| - 1]];
      assert RemoveAt(heap, i)[..|heap| - 2] == RemoveAt(init, i);
    } else {
      assert RemoveAt(heap, i) == heap[..|heap| - 1];
    }
  }

  lemma DueCountPush(heap: seq<IntervalEntry>, e: IntervalEntry, now: nat)
    ensures DueCount(heap + [e], now) == DueCount(heap, now) + (if e.time <= now then 1 else 0)
  {
    assert (heap + [e])[..|heap|] == heap;
  }

  // ---------------------------------------------------------------------------
  // pop_timeout

  /** How many leading timeouts are due at `now`. */
  function ExpiredCount<T>(entries: seq<TimeoutData<T>>, now: nat): (n: nat)
    ensures n <= |entries|
  {
    if entries == [] || entries[0].time > now then 0 else 1 + ExpiredCount(entries[1..], now)
  }

  /** The expired prefix is due and what follows it starts after `now`. */
  lemma {:induction false} ExpiredSplit<T>(entries: seq<TimeoutData<T>>, now: nat)
    ensures forall k :: 0 <= k < ExpiredCount(entries, now) ==> entries[k].time <= now
    ensures ExpiredCount(entries, now) < |entries| ==> entries[ExpiredCount(entries, now)].time > now
  {
    if entries != [] && entries[0].time <= now {
      ExpiredSplit(entries[1..], now);
    }
  }

  /** The list after its expired prefix is popped. */
  function Remaining<T>(entries: seq<TimeoutData<T>>, now: nat): seq<TimeoutData<T>>
  {
    entries[ExpiredCount(entries, now)..]
  }

  /** Popping the expired prefix twice pops nothing more. */
  lemma RemainingIdempotent<T>(entries: seq<TimeoutData<T>>, now: nat)
    ensures Remaining(Remaining(entries, now), now) == Remaining(entries, now)
  {
    ExpiredSplit(entries, now);
    var rest := Remaining(entries, now);
    assert ExpiredCount(rest, now) == 0;
  }

  predicate DueHead<T>(entries: seq<TimeoutData<T>>, now: nat)
  {
    entries != [] && entries[0].time <= now
  }

  function Datas<T>(entries: seq<TimeoutData<T>>): (ds: seq<T>)
    ensures |ds| == |entries|
  {
    if entries == [] then [] else [entries[0].data] + Datas(entries[1..])
  }

  lemma DatasSnoc<T>(entries: seq<TimeoutData<T>>, e: TimeoutData<T>)
    ensures Datas(entries + [e]) == Datas(entries) + [e.data]
  {
    if entries != [] {
      assert (entries + [e])[1..] == entries[1..] + [e];
      DatasSnoc(entries[1..], e);
    }
  }

  /** IntervalEntry::pop_timeout on the entry's list: pop the timeouts due at
      `now`, in list order, handing their data on, and return the new head's
      time. */
  method PopTimeout<T>(entries: seq<TimeoutData<T>>, now: nat)
      returns (fired: seq<T>, rest: seq<TimeoutData<T>>, next: Option<nat>)
    ensures fired == Datas(entries[..ExpiredCount(entries, now)])
    ensures rest == Remaining(entries, now)
    ensures rest == [] ==> next.None?
    ensures rest != [] ==> next == Some(rest[0].time) && rest[0].time > now
  {
    fired := [];
    rest := entries;
    var i := 0;
    while rest != [] && rest[0].time <= now
      invariant 0 <= i <= |entries| && rest == entries[i..]
      invariant fired == Datas(entries[..i])
      invariant ExpiredCount(entries, now) == i + ExpiredCount(rest, now)
      decreases |rest|
    {
      DatasSnoc(entries[..i], rest[0]);
      assert entries[..i + 1] == entries[..i] + [rest[0]];
      fired := fired + [rest[0].data];
      rest := rest[1..];
      i := i + 1;
    }
    next := if rest == [] then None else Some(rest[0].time);
  }

  // ---------------------------------------------------------------------------
  // The invariant linking the heap and the lists

  predicate InHeap(heap: seq<IntervalEntry>, k: nat)
  {
    exists i :: 0 <= i < |heap| && heap[i].interval == k
  }

  /** Every heap entry names a non-empty list that is marked in use, and
      carries the time of that list's first timeout. */
  predicate HeapMatchesLists<T>(heap: seq<IntervalEntry>, lists: map<nat, IntervalList<T>>)
  {
    forall i :: 0 <= i < |heap| ==>
      && heap[i].interval in lists
      && lists[heap[i].interval].entries != []
      && heap[i].time == lists[heap[i].interval].entries[0].time
      && lists[heap[i].interval].inUse == 1
  }

  /** No list has two heap entries. */
  predicate HeapDistinct(heap: seq<IntervalEntry>)
  {
    forall i, j :: 0 <= i < j < |heap| ==> heap[i].interval != heap[j].interval
  }

  /** A list is in use exactly when it is in the heap, and a non-empty list is
      in use. */
  predicate ListsInHeap<T>(heap: seq<IntervalEntry>, lists: map<nat, IntervalList<T>>)
  {
    forall k :: k in lists ==>
      && lists[k].inUse <= 1
      && (lists[k].inUse == 1 <==> InHeap(heap, k))
      && (lists[k].entries != [] ==> lists[k].inUse == 1)
  }

  /** A list holds its timeouts in deadline order. */
  predicate SortedByTime<T>(entries: seq<TimeoutData<T>>)
  {
    forall i, j :: 0 <= i < j < |entries| ==> entries[i].time <= entries[j].time
  }

  /** Every list is in deadline order: all of a list's timeouts share its
      interval and were added at a clock reading no earlier than the one
      before. */
  predicate ListsSorted<T>(lists: map<nat, IntervalList<T>>)
  {
    forall k :: k in lists ==> SortedByTime(lists[k].entries)
  }

  predicate ValidState<T>(heap: seq<IntervalEntry>, lists: map<nat, IntervalList<T>>)
  {
    HeapMatchesLists(heap, lists) && HeapDistinct(heap) && ListsInHeap(heap, lists) && ListsSorted(lists)
  }

  /** What remains of a list in deadline order is still in deadline order. */
  lemma RemainingSorted<T>(entries: seq<TimeoutData<T>>, now: nat)
    requires SortedByTime(entries)
    ensures SortedByTime(Remaining(entries, now))
  {
    var n := ExpiredCount(entries, now);
    forall i, j | 0 <= i < j < |entries| - n
      ensures Remaining(entries, now)[i].time <= Remaining(entries, now)[j].time
    {
      assert Remaining(entries, now)[i] == entries[n + i];
      assert Remaining(entries, now)[j] == entries[n + j];
    }
  }

  /** No timeout of the list is due at `now`. */
  predicate NoneDueIn<T>(entries: seq<TimeoutData<T>>, now: nat)
  {
    forall i :: 0 <= i < |entries| ==> entries[i].time > now
  }

  /** Every deadline of the list is at most `bound`. */
  predicate DeadlinesBy<T>(entries: seq<TimeoutData<T>>, bound: nat)
  {
    forall i :: 0 <= i < |entries| ==> entries[i].time <= bound
  }

  /** In a list in deadline order whose head is not due, no timeout is due. */
  lemma SortedNoneDue<T>(entries: seq<TimeoutData<T>>, now: nat)
    requires SortedByTime(entries) && !DueHead(entries, now)
    ensures NoneDueIn(entries, now)
  {
    forall i | 0 <= i < |entries|
      ensures entries[i].time > now
    {
      if i > 0 {
        assert entries[0].time <= entries[i].time;
      }
    }
  }

  /** In a valid state a list is non-empty exactly when it is in the heap, and
      then the heap entry carries its first deadline. */
  lemma ListInHeapIff<T>(heap: seq<IntervalEntry>, lists: map<nat, IntervalList<T>>, k: nat)
    requires ValidState(heap, lists) && k in lists
    ensures lists[k].entries != [] <==> InHeap(heap, k)
    ensures lists[k].entries != [] ==> exists i :: 0 <= i < |heap| && heap[i] == IntervalEntry(lists[k].entries[0].time, k)
  {
  }

  /** In a valid state a list's `in_use` counter is 1 exactly when it is not
      empty. */
  lemma InUseOfList<T>(heap: seq<IntervalEntry>, lists: map<nat, IntervalList<T>>, k: nat)
    requires ValidState(heap, lists) && k in lists
    ensures lists[k].inUse == if lists[k].entries == [] then 0 else 1
  {
    ListInHeapIff(heap, lists, k);
  }

  /** The list after add_timer appended a timeout to it, and the heap after
      the head case installed the list. */
  function AddedList<T>(lists: map<nat, IntervalList<T>>, k: nat, td: TimeoutData<T>): seq<TimeoutData<T>>
  {
    (if k in lists then lists[k].entries else []) + [td]
  }

  function AddedHeap<T>(heap: seq<IntervalEntry>, lists: map<nat, IntervalList<T>>, k: nat, td: TimeoutData<T>): seq<IntervalEntry>
  {
    if k in lists && lists[k].entries != [] then heap else heap + [IntervalEntry(td.time, k)]
  }

  /** add_timer keeps the heap and the lists consistent, when the new
      deadline is no earlier than any deadline already in its list. */
  lemma AddKeeps<T>(heap: seq<IntervalEntry>, lists: map<nat, IntervalList<T>>, k: nat, td: TimeoutData<T>)
    requires ValidState(heap, lists)
    requires k in lists ==> DeadlinesBy(lists[k].entries, td.time)
    ensures ValidState(AddedHeap(heap, lists, k, td), lists[k := IntervalList(AddedList(lists, k, td), 1)])
  {
    var h := AddedHeap(heap, lists, k, td);
    var m := lists[k := IntervalList(AddedList(lists, k, td), 1)];
    assert SortedByTime(AddedList(lists, k, td)) by {
      var es := AddedList(lists, k, td);
      forall i, j | 0 <= i < j < |es|
        ensures es[i].time <= es[j].time
      {
        if j == |es| - 1 && k in lists {
          assert es[i] == lists[k].entries[i];
        }
      }
    }
    var head := !(k in lists && lists[k].entries != []);
    if head {
      assert !InHeap(heap, k) by {
        if k in lists {
          ListInHeapIff(heap, lists, k);
        }
      }
      forall j | j in m
        ensures m[j].inUse == 1 <==> InHeap(h, j)
      {
        if j != k {
          if InHeap(h, j) {
            var i :| 0 <= i < |h| && h[i].interval == j;
            assert heap[i].interval == j;
          }
          if InHeap(heap, j) {
            var i :| 0 <= i < |heap| && heap[i].interval == j;
            assert h[i].interval == j;
          }
        } else {
          assert h[|heap|].interval == k;
        }
      }
    } else {
      ListInHeapIff(heap, lists, k);
      assert AddedList(lists, k, td)[0] == lists[k].entries[0];
    }
  }

  lemma AppendAssoc<E>(a: seq<E>, b: seq<E>, c: seq<E>)
    ensures (a + b) + c == a + (b + c)
  {
  }

  /** The list schedule_timer takes from the top of the heap. */
  function TopList(heap: seq<IntervalEntry>): nat
    requires heap != []
  {
    heap[Earliest(heap)].interval
  }

  /** The heap after one round of schedule_timer: the top entry popped, and
      the list put back with its new first deadline when it is not empty. */
  function FiredHeap<T>(heap: seq<IntervalEntry>, lists: map<nat, IntervalList<T>>, now: nat): seq<IntervalEntry>
    requires heap != [] && TopList(heap) in lists
  {
    var k := TopList(heap);
    var rest := Remaining(lists[k].entries, now);
    RemoveAt(heap, Earliest(heap)) + (if rest != [] then [IntervalEntry(rest[0].time, k)] else [])
  }

  /** The lists after one round: the top list without its expired prefix, and
      an emptied list dropped from the map only when the map holds more than
      HASH_CAP lists. */
  function FiredLists<T>(heap: seq<IntervalEntry>, lists: map<nat, IntervalList<T>>, now: nat): map<nat, IntervalList<T>>
    requires heap != [] && TopList(heap) in lists
  {
    var k := TopList(heap);
    var rest := Remaining(lists[k].entries, now);
    if rest == [] && |lists| > HASH_CAP then lists - {k}
    else lists[k := IntervalList(rest, if rest == [] then 0 else 1)]
  }

  lemma RemoveAtIndex<E>(s: seq<E>, i: nat, j: nat)
    requires i < |s| && j < |s| - 1
    ensures RemoveAt(s, i)[j] == if j < i then s[j] else s[j + 1]
  {
  }

  /** A heap entry other than the top one survives the round, and nothing else
      does except the re-pushed top list. */
  lemma FiredHeapMembers<T>(heap: seq<IntervalEntry>, lists: map<nat, IntervalList<T>>, now: nat, j: nat)
    requires ValidState(heap, lists) && heap != [] && TopList(heap) in lists
    requires j != TopList(heap)
    ensures InHeap(FiredHeap(heap, lists, now), j) <==> InHeap(heap, j)
  {
    var i := Earliest(heap);
    var h := FiredHeap(heap, lists, now);
    var r := RemoveAt(heap, i);
    if InHeap(heap, j) {
      var x :| 0 <= x < |heap| && heap[x].interval == j;
      assert x != i;
      var y := if x < i then x else x - 1;
      RemoveAtIndex(heap, i, y);
      assert h[y] == heap[x];
    }
    if InHeap(h, j) {
      var y :| 0 <= y < |h| && h[y].interval == j;
      assert y < |r|;
      RemoveAtIndex(heap, i, y);
    }
  }

  /** One round of schedule_timer keeps the heap and the lists consistent. */
  lemma FireKeeps<T>(heap: seq<IntervalEntry>, lists: map<nat, IntervalList<T>>, now: nat)
    requires ValidState(heap, lists) && heap != []
    ensures TopList(heap) in lists
    ensures ValidState(FiredHeap(heap, lists, now), FiredLists(heap, lists, now))
  {
    var i := Earliest(heap);
    var k := TopList(heap);
    assert heap[i].interval == k;
    var rest := Remaining(lists[k].entries, now);
    var h := FiredHeap(heap, lists, now);
    var m := FiredLists(heap, lists, now);
    var r := RemoveAt(heap, i);
    forall y | 0 <= y < |r|
      ensures r[y].interval != k
    {
      RemoveAtIndex(heap, i, y);
    }
    assert !InHeap(r, k);
    assert HeapMatchesLists(h, m) by {
      forall y | 0 <= y < |h|
        ensures h[y].interval in m && m[h[y].interval].entries != []
        ensures h[y].time == m[h[y].interval].entries[0].time && m[h[y].interval].inUse == 1
      {
        if y < |r| {
          RemoveAtIndex(heap, i, y);
          assert h[y] == r[y];
          assert h[y].interval != k;
        }
      }
    }
    assert HeapDistinct(h) by {
      forall y, z | 0 <= y < z < |h|
        ensures h[y].interval != h[z].interval
      {
        RemoveAtIndex(heap, i, y);
        if z < |r| {
          RemoveAtIndex(heap, i, z);
        }
      }
    }
    assert ListsInHeap(h, m) by {
      forall j | j in m
        ensures m[j].inUse <= 1
        ensures m[j].inUse == 1 <==> InHeap(h, j)
        ensures m[j].entries != [] ==> m[j].inUse == 1
      {
        if j != k {
          FiredHeapMembers(heap, lists, now, j);
        } else if rest != [] {
          assert h[|r|].interval == k;
        } else {
          assert h == r;
        }
      }
    }
    assert ListsSorted(m) by {
      RemainingSorted(lists[k].entries, now);
    }
  }

  /** Popping a due top entry lowers the number of due heap entries: the list
      comes back, if at all, with a deadline after `now`. */
  lemma FireDecreases<T>(heap: seq<IntervalEntry>, lists: map<nat, IntervalList<T>>, now: nat)
    requires heap != [] && TopList(heap) in lists && heap[Earliest(heap)].time <= now
    ensures DueCount(FiredHeap(heap, lists, now), now) < DueCount(heap, now)
  {
    var i := Earliest(heap);
    var k := TopList(heap);
    var rest := Remaining(lists[k].entries, now);
    DueCountRemove(heap, i, now);
    if rest != [] {
      ExpiredSplit(lists[k].entries, now);
      assert rest[0].time > now;
      DueCountPush(RemoveAt(heap, i), IntervalEntry(rest[0].time, k), now);
      assert FiredHeap(heap, lists, now) == RemoveAt(heap, i) + [IntervalEntry(rest[0].time, k)];
    } else {
      assert FiredHeap(heap, lists, now) == RemoveAt(heap, i);
    }
  }

  /** In a valid state whose top entry is not due, no list has a due head:
      every non-empty list's first deadline is at least the top's. */
  lemma TopIsEarliestHead<T>(heap: seq<IntervalEntry>, lists: map<nat, IntervalList<T>>)
    requires ValidState(heap, lists)
    ensures heap == [] ==> forall k :: k in lists ==> lists[k].entries == []
    ensures heap != [] ==> forall k :: k in lists && lists[k].entries != [] ==>
                             heap[Earliest(heap)].time <= lists[k].entries[0].time
    ensures heap != [] ==> TopList(heap) in lists && lists[TopList(heap)].entries != [] &&
                           lists[TopList(heap)].entries[0].time == heap[Earliest(heap)].time
  {
    forall k | k in lists && lists[k].entries != []
      ensures heap != [] && heap[Earliest(heap)].time <= lists[k].entries[0].time
    {
      ListInHeapIff(heap, lists, k);
    }
  }

  /** The lists `m` left behind from `lists`: each surviving list is what
      remains of the original once its expired prefix is gone, and a list is
      dropped only when it emptied and the map held more than HASH_CAP lists. */
  ghost predicate LeftBehind<T>(lists: map<nat, IntervalList<T>>, now: nat, m: map<nat, IntervalList<T>>)
  {
    && (forall k :: k in m ==> k in lists && m[k].entries == Remaining(lists[k].entries, now))
    && (forall k :: k in lists && k !in m ==> Remaining(lists[k].entries, now) == [] && |lists| > HASH_CAP)
  }

  /** Nothing is due: the top of the heap lies after `now`, and so does
      every timeout of every list. */
  predicate NoneDue<T>(heap: seq<IntervalEntry>, lists: map<nat, IntervalList<T>>, now: nat)
  {
    && (heap == [] || heap[Earliest(heap)].time > now)
    && forall k :: k in lists ==> NoneDueIn(lists[k].entries, now)
  }

  lemma HeadNotDue<T>(heap: seq<IntervalEntry>, lists: map<nat, IntervalList<T>>, now: nat, k: nat)
    requires ValidState(heap, lists) && (heap == [] || heap[Earliest(heap)].time > now) && k in lists
    ensures !DueHead(lists[k].entries, now)
    ensures Remaining(lists[k].entries, now) == lists[k].entries
  {
    ListInHeapIff(heap, lists, k);
  }

  lemma ScheduleStops<T>(heap: seq<IntervalEntry>, lists: map<nat, IntervalList<T>>, now: nat)
    requires ValidState(heap, lists) && (heap == [] || heap[Earliest(heap)].time > now)
    ensures NoneDue(heap, lists, now) && LeftBehind(lists, now, lists)
  {
    forall k | k in lists
      ensures NoneDueIn(lists[k].entries, now)
      ensures Remaining(lists[k].entries, now) == lists[k].entries
    {
      HeadNotDue(heap, lists, now, k);
      SortedNoneDue(lists[k].entries, now);
    }
  }

  /** The lists `f` after a round differ from the lists before only at the
      top list `k`, which lost its expired prefix or was dropped. */
  ghost predicate RoundShape<T>(lists: map<nat, IntervalList<T>>, k: nat, now: nat, f: map<nat, IntervalList<T>>)
  {
    && k in lists && f.Keys <= lists.Keys && |f| <= |lists|
    && (forall j :: j in lists && j != k ==> j in f && f[j] == lists[j])
    && (k in f ==> f[k].entries == Remaining(lists[k].entries, now))
    && (k !in f ==> Remaining(lists[k].entries, now) == [] && |lists| > HASH_CAP)
  }

  lemma FiredListsShape<T>(heap: seq<IntervalEntry>, lists: map<nat, IntervalList<T>>, now: nat)
    requires heap != [] && TopList(heap) in lists
    ensures RoundShape(lists, TopList(heap), now, FiredLists(heap, lists, now))
  {
  }

  /** Popping the top list's expired prefix does not change what would remain
      of any list. */
  lemma SameRemaining<T>(lists: map<nat, IntervalList<T>>, k: nat, now: nat, f: map<nat, IntervalList<T>>, j: nat)
    requires RoundShape(lists, k, now, f) && j in f
    ensures j in lists && Remaining(f[j].entries, now) == Remaining(lists[j].entries, now)
  {
    if j == k {
      RemainingIdempotent(lists[k].entries, now);
    } else {
      assert f[j] == lists[j];
    }
  }

  /** What is left behind after a round is left behind from before it. */
  lemma ScheduleSteps<T>(lists: map<nat, IntervalList<T>>, k: nat, now: nat, f: map<nat, IntervalList<T>>, m: map<nat, IntervalList<T>>)
    requires RoundShape(lists, k, now, f)
    requires LeftBehind(f, now, m)
    ensures LeftBehind(lists, now, m)
  {
    forall j | j in m
      ensures j in lists && m[j].entries == Remaining(lists[j].entries, now)
    {
      assert j in f && m[j].entries == Remaining(f[j].entries, now);
      SameRemaining(lists, k, now, f, j);
    }
    forall j | j in lists && j !in m
      ensures Remaining(lists[j].entries, now) == [] && |lists| > HASH_CAP
    {
      if j in f {
        assert Remaining(f[j].entries, now) == [] && |f| > HASH_CAP;
        SameRemaining(lists, k, now, f, j);
      } else {
        assert j == k;
      }
    }
  }

  lemma RoundLeftBehind<T>(heap: seq<IntervalEntry>, lists: map<nat, IntervalList<T>>, now: nat, m: map<nat, IntervalList<T>>)
    requires heap != [] && TopList(heap) in lists
    requires LeftBehind(FiredLists(heap, lists, now), now, m)
    ensures LeftBehind(lists, now, m)
  {
    FiredListsShape(heap, lists, now);
    ScheduleSteps(lists, TopList(heap), now, FiredLists(heap, lists, now), m);
  }

  /** schedule_timer as a whole: rounds are run while the top entry is due.
      The result is the final heap, the final lists and the data handed to the
      handler. */
  function Schedule<T>(heap: seq<IntervalEntry>, lists: map<nat, IntervalList<T>>, now: nat)
      : (seq<IntervalEntry>, map<nat, IntervalList<T>>, seq<T>)
    requires ValidState(heap, lists)
    decreases DueCount(heap, now)
  {
    if heap == [] || heap[Earliest(heap)].time > now then
      (heap, lists, [])
    else
      FireKeeps(heap, lists, now);
      FireDecreases(heap, lists, now);
      var es := lists[TopList(heap)].entries;
      var r := Schedule(FiredHeap(heap, lists, now), FiredLists(heap, lists, now), now);
      (r.0, r.1, Datas(es[..ExpiredCount(es, now)]) + r.2)
  }

  /** schedule_timer leaves the heap and the lists consistent. */
  lemma {:induction false} ScheduleKeeps<T>(heap: seq<IntervalEntry>, lists: map<nat, IntervalList<T>>, now: nat)
    requires ValidState(heap, lists)
    ensures ValidState(Schedule(heap, lists, now).0, Schedule(heap, lists, now).1)
    decreases DueCount(heap, now)
  {
    if heap != [] && heap[Earliest(heap)].time <= now {
      FireKeeps(heap, lists, now);
      FireDecreases(heap, lists, now);
      ScheduleKeeps(FiredHeap(heap, lists, now), FiredLists(heap, lists, now), now);
    }
  }

  /** Once schedule_timer returns, no timeout of any list is due. */
  lemma {:induction false} ScheduleNoneDue<T>(heap: seq<IntervalEntry>, lists: map<nat, IntervalList<T>>, now: nat)
    requires ValidState(heap, lists)
    ensures NoneDue(Schedule(heap, lists, now).0, Schedule(heap, lists, now).1, now)
    decreases DueCount(heap, now)
  {
    if heap == [] || heap[Earliest(heap)].time > now {
      ScheduleStops(heap, lists, now);
    } else {
      FireKeeps(heap, lists, now);
      FireDecreases(heap, lists, now);
      ScheduleNoneDue(FiredHeap(heap, lists, now), FiredLists(heap, lists, now), now);
    }
  }

  /** schedule_timer leaves of every list what remains once its expired
      timeouts are popped, and drops a list only when it emptied while the map
      held more than HASH_CAP lists. */
  lemma {:induction false} ScheduleLeftBehind<T>(heap: seq<IntervalEntry>, lists: map<nat, IntervalList<T>>, now: nat)
    requires ValidState(heap, lists)
    ensures LeftBehind(lists, now, Schedule(heap, lists, now).1)
    decreases DueCount(heap, now)
  {
    if heap == [] || heap[Earliest(heap)].time > now {
      ScheduleStops(heap, lists, now);
    } else {
      FireKeeps(heap, lists, now);
      FireDecreases(heap, lists, now);
      var h1, m1 := FiredHeap(heap, lists, now), FiredLists(heap, lists, now);
      ScheduleLeftBehind(h1, m1, now);
      RoundLeftBehind(heap, lists, now, Schedule(h1, m1, now).1);
    }
  }

  /** A due top entry makes schedule_timer run one round and go on from the
      state that round leaves. */
  lemma ScheduleRound<T>(heap: seq<IntervalEntry>, lists: map<nat, IntervalList<T>>, now: nat)
    requires ValidState(heap, lists) && heap != [] && heap[Earliest(heap)].time <= now
    ensures TopList(heap) in lists && ValidState(FiredHeap(heap, lists, now), FiredLists(heap, lists, now))
    ensures var es := lists[TopList(heap)].entries;
            var r := Schedule(FiredHeap(heap, lists, now), FiredLists(heap, lists, now), now);
            Schedule(heap, lists, now) == (r.0, r.1, Datas(es[..ExpiredCount(es, now)]) + r.2)
  {
    FireKeeps(heap, lists, now);
  }

  /** The delay schedule_timer returns for a heap whose top is not due. */
  function NextDelay(heap: seq<IntervalEntry>, now: nat): Option<nat>
    requires heap == [] || heap[Earliest(heap)].time > now
  {
    if heap == [] then None else Some(heap[Earliest(heap)].time - now)
  }

  /** The returned delay is the time to the earliest pending timeout of all
      lists, and there is none exactly when every list is empty. */
  lemma NextDelayIsEarliest<T>(heap: seq<IntervalEntry>, lists: map<nat, IntervalList<T>>, now: nat)
    requires ValidState(heap, lists) && (heap == [] || heap[Earliest(heap)].time > now)
    ensures NextDelay(heap, now).None? <==> forall k :: k in lists ==> lists[k].entries == []
    ensures NextDelay(heap, now).Some? ==>
              && NextDelay(heap, now).value > 0
              && (forall k, i :: k in lists && 0 <= i < |lists[k].entries| ==>
                    now + NextDelay(heap, now).value <= lists[k].entries[i].time)
              && exists k :: k in lists && lists[k].entries != [] &&
                    lists[k].entries[0].time == now + NextDelay(heap, now).value
  {
    TopIsEarliestHead(heap, lists);
    if heap != [] {
      var k := TopList(heap);
      assert k in lists && lists[k].entries != [];
      forall j, i | j in lists && 0 <= i < |lists[j].entries|
        ensures heap[Earliest(heap)].time <= lists[j].entries[i].time
      {
        assert SortedByTime(lists[j].entries);
        if i > 0 {
          assert lists[j].entries[0].time <= lists[j].entries[i].time;
        }
      }
    }
  }

  /** No deadline lies beyond the latest clock reading plus its list's
      interval: each was set by add_timer at a reading no later than `clock`. */
  predicate ClockBound<T>(lists: map<nat, IntervalList<T>>, clock: nat)
  {
    forall k :: k in lists ==> DeadlinesBy(lists[k].entries, clock + k)
  }

  /** Adding a timeout at a clock reading no earlier than `clock` keeps the
      bound, now at the new reading. */
  lemma AddClockBound<T>(lists: map<nat, IntervalList<T>>, clock: nat, now: nat, k: nat, td: TimeoutData<T>)
    requires ClockBound(lists, clock) && clock <= now && td.time <= now + k
    ensures ClockBound(lists[k := IntervalList(AddedList(lists, k, td), 1)], now)
  {
    var m := lists[k := IntervalList(AddedList(lists, k, td), 1)];
    forall j | j in m
      ensures DeadlinesBy(m[j].entries, now + j)
    {
      forall i | 0 <= i < |m[j].entries|
        ensures m[j].entries[i].time <= now + j
      {
        if j == k && i < |m[j].entries| - 1 {
          assert m[j].entries[i] == lists[k].entries[i];
        }
      }
    }
  }

  /** A timeout added at a clock reading no earlier than `clock`, with the
      deadline `now + k`, keeps the state consistent and bounded. */
  lemma AddValid<T>(heap: seq<IntervalEntry>, lists: map<nat, IntervalList<T>>, clock: nat, now: nat, k: nat, td: TimeoutData<T>)
    requires ValidState(heap, lists) && ClockBound(lists, clock)
    requires clock <= now && td.time == now + k
    ensures var m := lists[k := IntervalList(AddedList(lists, k, td), 1)];
            ValidState(AddedHeap(heap, lists, k, td), m) && ClockBound(m, now)
  {
    if k in lists {
      assert DeadlinesBy(lists[k].entries, clock + k);
      assert DeadlinesBy(lists[k].entries, td.time);
    }
    AddKeeps(heap, lists, k, td);
    AddClockBound(lists, clock, now, k, td);
  }

  /** A round of schedule_timer only pops timeouts, so it keeps the bound. */
  lemma FireClockBound<T>(heap: seq<IntervalEntry>, lists: map<nat, IntervalList<T>>, now: nat, clock: nat)
    requires heap != [] && TopList(heap) in lists && ClockBound(lists, clock)
    ensures ClockBound(FiredLists(heap, lists, now), clock)
  {
    var k := TopList(heap);
    var es := lists[k].entries;
    var n := ExpiredCount(es, now);
    var m := FiredLists(heap, lists, now);
    forall j | j in m
      ensures DeadlinesBy(m[j].entries, clock + j)
    {
      forall i | 0 <= i < |m[j].entries|
        ensures m[j].entries[i].time <= clock + j
      {
        if j == k {
          assert m[j].entries[i] == es[n + i];
        }
      }
    }
  }

  // ---------------------------------------------------------------------------
  // The timeout list itself

  /** TimeOutList: the interval map and the heap of list heads.  `clock` is
      the latest reading of the monotonic clock that add_timer has seen. */
  class TimeOutList<T> {
    var intervalMap: map<nat, IntervalList<T>>
    var heap: seq<IntervalEntry>
    ghost var clock: nat

    ghost predicate Valid()
      reads this
    {
      ValidState(heap, intervalMap) && ClockBound(intervalMap, clock)
    }

    /** TimeOutList::new: no lists and an empty heap. */
    constructor ()
      ensures Valid()
      ensures intervalMap == map[] && heap == [] && clock == 0
    {
      intervalMap := map[];
      heap := [];
      clock := 0;
    }

    /** install_timer_bh: bump the list's `in_use` counter and push the entry
        only when the counter was 0. */
    method InstallTimerBh(entry: IntervalEntry)
      requires entry.interval in intervalMap
      modifies this
      ensures var l := old(intervalMap)[entry.interval];
              intervalMap == old(intervalMap)[entry.interval := l.(inUse := l.inUse + 1)]
      ensures heap == if old(intervalMap)[entry.interval].inUse == 0 then old(heap) + [entry] else old(heap)
      ensures clock == old(clock)
    {
      var l := intervalMap[entry.interval];
      intervalMap := intervalMap[entry.interval := l.(inUse := l.inUse + 1)];
      if l.inUse == 0 {
        heap := heap + [entry];
      }
    }

    /** add_timer at clock reading `now`: append the timeout to the list of its
        interval, creating the list if there is none, and install the list in
        the heap when the timeout became its head.  The deadline is
        `now + interval` in `u64`; the clock is monotonic, so `now` is no
        earlier than any reading before it.  The result says whether the
        timeout became the head of its list. */
    method AddTimer(now: nat, dur: Duration, data: T) returns (isHead: bool)
      requires Valid() && IsDuration(dur)
      requires clock <= now && now + DurToNs(dur) < U64
      modifies this
      ensures var k := DurToNs(dur);
              var td := TimeoutData(now + k, data);
              intervalMap == old(intervalMap)[k := IntervalList(AddedList(old(intervalMap), k, td), 1)]
      ensures var k := DurToNs(dur);
              heap == AddedHeap(old(heap), old(intervalMap), k, TimeoutData(now + k, data))
      ensures var k := DurToNs(dur);
              isHead <==> !(k in old(intervalMap) && old(intervalMap)[k].entries != [])
      ensures clock == now
      ensures Valid()
    {
      var interval := DurToNs(dur);
      var time := now + interval;
      var timeout := TimeoutData(time, data);
      ghost var h0, m0, c0 := heap, intervalMap, clock;
      if interval in intervalMap {
        var list := intervalMap[interval];
        isHead := list.entries == [];
        InUseOfList(heap, intervalMap, interval);
        intervalMap := intervalMap[interval := list.(entries := list.entries + [timeout])];
        if isHead {
          InstallTimerBh(IntervalEntry(time, interval));
        }
        assert intervalMap == m0[interval := IntervalList(AddedList(m0, interval, timeout), 1)];
      } else {
        intervalMap := intervalMap[interval := IntervalList([timeout], 0)];
        InstallTimerBh(IntervalEntry(time, interval));
        assert AddedList(m0, interval, timeout) == [timeout];
        assert intervalMap == m0[interval := IntervalList(AddedList(m0, interval, timeout), 1)];
        isHead := true;
      }
      assert heap == AddedHeap(h0, m0, interval, timeout);
      AddValid(h0, m0, c0, now, interval, timeout);
      clock := now;
    }

    /** One round of schedule_timer's loop: pop the due top entry, clear the
        list's `in_use`, pop the list's expired timeouts, and either put the
        list back in the heap under its new head's deadline or, when it
        emptied and the map holds more than HASH_CAP lists, drop it. */
    method FireEarliest(now: nat) returns (fired: seq<T>)
      requires Valid() && heap != [] && heap[Earliest(heap)].time <= now
      modifies this
      ensures heap == FiredHeap(old(heap), old(intervalMap), now)
      ensures intervalMap == FiredLists(old(heap), old(intervalMap), now)
      ensures var es := old(intervalMap)[TopList(old(heap))].entries;
              fired == Datas(es[..ExpiredCount(es, now)])
      ensures clock == old(clock)
      ensures Valid()
    {
      FireKeeps(heap, intervalMap, now);
      FireClockBound(heap, intervalMap, now, clock);
      var i := Earliest(heap);
      var entry := heap[i];
      var k := entry.interval;
      heap := RemoveAt(heap, i);
      // The list is shared with the map; it is updated through `list` and
      // written back once, as no one else sees it in between.
      var list := intervalMap[k].(inUse := 0);
      var rest, next;
      fired, rest, next := PopTimeout(list.entries, now);
      list := list.(entries := rest);
      match next
      case Some(t) =>
        var prev := list.inUse;
        list := list.(inUse := prev + 1);
        if prev == 0 {
          heap := heap + [IntervalEntry(t, k)];
        }
        intervalMap := intervalMap[k := list];
      case None =>
        if |intervalMap| > HASH_CAP {
          intervalMap := intervalMap - {k};
        } else {
          intervalMap := intervalMap[k := list];
        }
    }

    /** schedule_timer at clock reading `now`: run rounds while the top entry
        is due, then return the delay to the next deadline, or None when the
        heap is empty; `fired` is what the handler received, in order. */
    method ScheduleTimer(now: nat) returns (next: Option<nat>, fired: seq<T>)
      requires Valid()
      modifies this
      ensures (heap, intervalMap, fired) == Schedule(old(heap), old(intervalMap), now)
      ensures clock == old(clock)
      ensures Valid()
      ensures NoneDue(heap, intervalMap, now)
      ensures next == NextDelay(heap, now)
    {
      ghost var h0, m0 := heap, intervalMap;
      fired := [];
      ghost var target := Schedule(heap, intervalMap, now);
      while heap != [] && heap[Earliest(heap)].time <= now
        invariant Valid() && clock == old(clock)
        invariant Schedule(heap, intervalMap, now).0 == target.0
        invariant Schedule(heap, intervalMap, now).1 == target.1
        invariant fired + Schedule(heap, intervalMap, now).2 == target.2
        decreases DueCount(heap, now)
      {
        FireDecreases(heap, intervalMap, now);
        ScheduleRound(heap, intervalMap, now);
        ghost var before := Schedule(heap, intervalMap, now);
        var f := FireEarliest(now);
        ghost var after := Schedule(heap, intervalMap, now);
        AppendAssoc(fired, f, after.2);
        fired := fired + f;
      }
      assert Schedule(heap, intervalMap, now).2 == [];
      assert fired + [] == fired;
      ScheduleNoneDue(h0, m0, now);
      next := NextDelay(heap, now);
    }
  }

  /** The state test_timeout_list builds at time 0 from the timeouts 50 and
      60 after one second and 70 after 1.4 seconds. */
  function ScenarioLists(): map<nat, IntervalList<nat>>
  {
    map[NANOS_PER_SEC := IntervalList([TimeoutData(NANOS_PER_SEC, 50), TimeoutData(NANOS_PER_SEC, 60)], 1),
        1400 * NANOS_PER_MILLI := IntervalList([TimeoutData(1400 * NANOS_PER_MILLI, 70)], 1)]
  }

  function ScenarioHeap(): seq<IntervalEntry>
  {
    [IntervalEntry(NANOS_PER_SEC, NANOS_PER_SEC), IntervalEntry(1400 * NANOS_PER_MILLI, 1400 * NANOS_PER_MILLI)]
  }

  lemma ScenarioValid()
    ensures ValidState(ScenarioHeap(), ScenarioLists())
  {
    var h := ScenarioHeap();
    var m := ScenarioLists();
    assert InHeap(h, NANOS_PER_SEC) by { assert h[0].interval == NANOS_PER_SEC; }
    assert InHeap(h, 1400 * NANOS_PER_MILLI) by { assert h[1].interval == 1400 * NANOS_PER_MILLI; }
  }

  /** At one second the first round fires the one-second list whole. */
  lemma ScenarioFirstRound()
    ensures ScenarioHeap() != [] && TopList(ScenarioHeap()) == NANOS_PER_SEC
    ensures ExpiredCount(ScenarioLists()[NANOS_PER_SEC].entries, NANOS_PER_SEC) == 2
    ensures FiredHeap(ScenarioHeap(), ScenarioLists(), NANOS_PER_SEC) == [IntervalEntry(1400 * NANOS_PER_MILLI, 1400 * NANOS_PER_MILLI)]
  {
    var h := ScenarioHeap();
    assert Earliest(h[..1]) == 0;
    assert Earliest(h) == 0;
    var es := ScenarioLists()[NANOS_PER_SEC].entries;
    assert ExpiredCount(es[2..], NANOS_PER_SEC) == 0;
    assert ExpiredCount(es[1..], NANOS_PER_SEC) == 1;
    assert RemoveAt(h, 0) == [h[1]];
  }

  /** Scheduling at one second hands over 50 and then 60, and leaves only the
      1.4-second list in the heap. */
  lemma ScenarioSchedule()
    ensures ValidState(ScenarioHeap(), ScenarioLists())
    ensures Schedule(ScenarioHeap(), ScenarioLists(), NANOS_PER_SEC).0 == [IntervalEntry(1400 * NANOS_PER_MILLI, 1400 * NANOS_PER_MILLI)]
    ensures Schedule(ScenarioHeap(), ScenarioLists(), NANOS_PER_SEC).2 == [50, 60]
  {
    ScenarioValid();
    ScenarioFirstRound();
    var h := ScenarioHeap();
    var m := ScenarioLists();
    var es := m[NANOS_PER_SEC].entries;
    var h1 := FiredHeap(h, m, NANOS_PER_SEC);
    var m1 := FiredLists(h, m, NANOS_PER_SEC);
    FireKeeps(h, m, NANOS_PER_SEC);
    assert Earliest(h1) == 0;
    assert Schedule(h1, m1, NANOS_PER_SEC) == (h1, m1, []);
    assert Datas(es[..2]) == [50, 60];
  }

  lemma ScenarioDurations()
    ensures DurToNs(Duration(1, 0)) == NANOS_PER_SEC && NANOS_PER_SEC < U64
    ensures DurToNs(Duration(1, 400 * NANOS_PER_MILLI)) == 1400 * NANOS_PER_MILLI
    ensures 1400 * NANOS_PER_MILLI < U64
  {
  }

  /** The three add_timer steps of test_timeout_list build the scenario state. */
  lemma ScenarioAdds(m1: map<nat, IntervalList<nat>>, h1: seq<IntervalEntry>, m2: map<nat, IntervalList<nat>>, h2: seq<IntervalEntry>,
                     m3: map<nat, IntervalList<nat>>, h3: seq<IntervalEntry>)
    requires var k := DurToNs(Duration(1, 0)); var d := TimeoutData(0 + k, 50);
             m1 == map[][k := IntervalList(AddedList(map[], k, d), 1)] && h1 == AddedHeap([], map[], k, d)
    requires var k := DurToNs(Duration(1, 0)); var d := TimeoutData(0 + k, 60);
             m2 == m1[k := IntervalList(AddedList(m1, k, d), 1)] && h2 == AddedHeap(h1, m1, k, d)
    requires var k := DurToNs(Duration(1, 400 * NANOS_PER_MILLI)); var d := TimeoutData(0 + k, 70);
             m3 == m2[k := IntervalList(AddedList(m2, k, d), 1)] && h3 == AddedHeap(h2, m2, k, d)
    ensures m3 == ScenarioLists() && h3 == ScenarioHeap()
  {
    ScenarioDurations();
    var second, later := NANOS_PER_SEC, 1400 * NANOS_PER_MILLI;
    assert AddedList(map[], second, TimeoutData(second, 50)) == [] + [TimeoutData(second, 50)] == [TimeoutData(second, 50)];
    assert m1 == map[second := IntervalList([TimeoutData(second, 50)], 1)];
    assert h1 == [IntervalEntry(second, second)];
    assert AddedList(m1, second, TimeoutData(second, 60)) == [TimeoutData(second, 50), TimeoutData(second, 60)];
    assert h2 == h1;
    assert AddedList(m2, later, TimeoutData(later, 70)) == [TimeoutData(later, 70)];
  }

  /** The three add_timer calls of test_timeout_list at time 0. */
  method ScenarioTimers() returns (list: TimeOutList<nat>)
    ensures fresh(list) && list.Valid()
    ensures list.intervalMap == ScenarioLists() && list.heap == ScenarioHeap()
  {
    ScenarioDurations();
    list := new TimeOutList<nat>();
    var h1 := list.AddTimer(0, Duration(1, 0), 50);
    ghost var m1, q1 := list.intervalMap, list.heap;
    var h2 := list.AddTimer(0, Duration(1, 0), 60);
    ghost var m2, q2 := list.intervalMap, list.heap;
    var h3 := list.AddTimer(0, Duration(1, 400 * NANOS_PER_MILLI), 70);
    ScenarioAdds(m1, q1, m2, q2, list.intervalMap, list.heap);
  }

  /** The timers of test_timeout_list, run by one thread: two one-second
      timeouts and one of 1.4 seconds added at time 0; at one second the two
      one-second timeouts fire in the order they were added, and the next
      deadline is 0.4 seconds away. */
  method TimerScenario() returns (fired: seq<nat>, next: Option<nat>)
    ensures fired == [50, 60]
    ensures next == Some(400 * NANOS_PER_MILLI)
  {
    var second := NANOS_PER_SEC;
    var later := 1400 * NANOS_PER_MILLI;
    var list := ScenarioTimers();
    ScenarioSchedule();
    next, fired := list.ScheduleTimer(second);
    assert list.heap == [IntervalEntry(later, later)];
    assert Earliest(list.heap) == 0;
  }
}
