/** The schedule store of schedule-manager.py as data: day name -> (task
    name -> detail), both levels insertion-ordered dicts, together with what
    the handlers compute from it: the task dict that `write_schedule` builds,
    the matches of `search_schedule` and the listing of `show_schedule`. */
module Schedule {
  import opened Dicts
  import opened Text

  type Tasks = Dict<string>
  type Store = Dict<Tasks>

  /** Both levels are real dicts: day names are unique in the store and task
      names are unique within each day. */
  ghost predicate WellFormed(s: Store) {
    DistinctKeys(s) && forall i :: 0 <= i < |s| ==> DistinctKeys(s[i].val)
  }

  /** The detail of `task` on `day`, if both exist (`data[day][task]`). */
  function GetTask(s: Store, day: string, task: string): Option<string> {
    match Get(s, day)
    case Some(tasks) => Get(tasks, task)
    case None => None
  }

  /** A day of a well-formed store is itself a real dict. */
  lemma WellFormedDay(s: Store, day: string)
    requires WellFormed(s) && Contains(s, day)
    ensures DistinctKeys(Get(s, day).value)
  {
  }

  /** Assigning a real dict to a day keeps the store well formed. */
  lemma PutWellFormed(s: Store, day: string, tasks: Tasks)
    requires WellFormed(s) && DistinctKeys(tasks)
    ensures WellFormed(Put(s, day, tasks))
  {
    var r := Put(s, day, tasks);
    PutDistinct(s, day, tasks);
    forall i | 0 <= i < |r| ensures DistinctKeys(r[i].val) {
      match Find(s, day)
      case Some(j) =>
        assert r == s[j := Entry(day, tasks)];
      case None =>
        assert r == s + [Entry(day, tasks)];
    }
  }

  /** Deleting a day keeps the store well formed. */
  lemma RemoveWellFormed(s: Store, day: string)
    requires WellFormed(s)
    ensures WellFormed(Remove(s, day))
  {
    var r := Remove(s, day);
    RemoveDistinct(s, day);
    if !Contains(s, day) {
      RemoveAbsent(s, day);
    } else {
      RemoveCut(s, day);
      var j := FirstPos(s, day);
      assert r == s[..j] + s[j + 1..];
      forall i | 0 <= i < |r| ensures DistinctKeys(r[i].val) {
        if i < j { assert r[i] == s[i]; } else { assert r[i] == s[i + 1]; }
      }
    }
  }

  // ------------------------------------------------------------------
  // write_schedule: building the day's task dict

  /** The dict that `tasks[name] = detail` produces when run over the
      entered (name, detail) pairs in order, starting from `{}`. */
  function DayTasks(entries: seq<Entry<string>>): Tasks {
    if entries == [] then []
    else
      var n := |entries| - 1;
      Put(DayTasks(entries[..n]), entries[n].key, entries[n].val)
  }

  /** The loop of `write_schedule`. */
  method BuildDayTasks(entries: seq<Entry<string>>) returns (tasks: Tasks)
    ensures tasks == DayTasks(entries)
  {
    tasks := [];
    var i := 0;
    while i < |entries|
      invariant 0 <= i <= |entries|
      invariant tasks == DayTasks(entries[..i])
    {
      assert entries[..i + 1][..i] == entries[..i];
      tasks := Put(tasks, entries[i].key, entries[i].val);
      i := i + 1;
    }
    assert entries[..i] == entries;
  }

  /** The built dict is a real dict. */
  lemma {:induction false} DayTasksDistinct(entries: seq<Entry<string>>)
    ensures DistinctKeys(DayTasks(entries))
  {
    if entries != [] {
      var n := |entries| - 1;
      DayTasksDistinct(entries[..n]);
      PutDistinct(DayTasks(entries[..n]), entries[n].key, entries[n].val);
    }
  }

  /** Its task names are exactly the names entered. */
  lemma {:induction false} DayTasksNames(entries: seq<Entry<string>>, name: string)
    ensures Contains(DayTasks(entries), name) <==> Contains(entries, name)
  {
    if entries != [] {
      var n := |entries| - 1;
      var p, e := entries[..n], entries[n];
      var c := DayTasks(p);
      assert DayTasks(entries) == Put(c, e.key, e.val);
      DayTasksNames(p, name);
      assert entries == p + [e];
      FindSnoc(p, e, name);
      if name == e.key {
        PutGetSame(c, e.key, e.val);
      } else {
        PutGetOther(c, e.key, e.val, name);
      }
    }
  }

  /** A repeated name keeps the detail of its last occurrence. */
  lemma {:induction false} DayTasksLastWins(entries: seq<Entry<string>>, j: nat)
    requires j < |entries|
    requires forall j' :: j < j' < |entries| ==> entries[j'].key != entries[j].key
    ensures Get(DayTasks(entries), entries[j].key) == Some(entries[j].val)
  {
    var n := |entries| - 1;
    var p, e := entries[..n], entries[n];
    assert DayTasks(entries) == Put(DayTasks(p), e.key, e.val);
    if j < n {
      DayTasksLastWins(p, j);
      assert p[j] == entries[j];
      PutGetOther(DayTasks(p), e.key, e.val, entries[j].key);
    } else {
      PutGetSame(DayTasks(p), e.key, e.val);
    }
  }

  /** `t`'s names were all entered, in the order of their first entry. */
  ghost predicate FirstEntryOrder(t: Tasks, entries: seq<Entry<string>>) {
    && (forall i :: 0 <= i < |t| ==> FirstPos(entries, t[i].key) < |entries|)
    && (forall i, j :: 0 <= i < j < |t| ==>
          FirstPos(entries, t[i].key) < FirstPos(entries, t[j].key))
  }

  // Names entered before `e` keep their first position after `e`.
  lemma FirstPosSnoc(p: seq<Entry<string>>, e: Entry<string>, k: string)
    requires FirstPos(p, k) < |p|
    ensures FirstPos(p + [e], k) == FirstPos(p, k)
  {
    FindSnoc(p, e, k);
  }

  // One more assignment `tasks[e.key] = e.val` keeps the order.
  lemma FirstEntryOrderStep(c: Tasks, p: seq<Entry<string>>, e: Entry<string>)
    requires FirstEntryOrder(c, p)
    requires Contains(c, e.key) <==> Contains(p, e.key)
    ensures FirstEntryOrder(Put(c, e.key, e.val), p + [e])
  {
    var r, q := Put(c, e.key, e.val), p + [e];
    PutKeys(c, e.key, e.val);
    forall i | 0 <= i < |c| ensures FirstPos(q, c[i].key) == FirstPos(p, c[i].key) {
      FirstPosSnoc(p, e, c[i].key);
    }
    if Contains(c, e.key) {
      assert |r| == |c|;
      forall i | 0 <= i < |r| ensures r[i].key == c[i].key {
        assert Keys(r)[i] == Keys(c)[i];
      }
    } else {
      assert |r| == |c| + 1;
      forall i | 0 <= i < |c| ensures r[i].key == c[i].key {
        assert Keys(r)[i] == Keys(c)[i];
      }
      assert r[|c|].key == Keys(r)[|c|] == e.key;
      FindSnoc(p, e, e.key);
      assert FirstPos(q, e.key) == |p|;
    }
  }

  /** ... and the position of its first occurrence: the built dict lists
      the names in the order in which each was first entered. */
  lemma {:induction false} DayTasksFirstOrder(entries: seq<Entry<string>>)
    ensures forall i :: 0 <= i < |DayTasks(entries)| ==>
      FirstPos(entries, DayTasks(entries)[i].key) < |entries|
    ensures forall i, j :: 0 <= i < j < |DayTasks(entries)| ==>
      FirstPos(entries, DayTasks(entries)[i].key) < FirstPos(entries, DayTasks(entries)[j].key)
  {
    if entries != [] {
      var n := |entries| - 1;
      var p, e := entries[..n], entries[n];
      assert entries == p + [e];
      DayTasksFirstOrder(p);
      DayTasksNames(p, e.key);
      FirstEntryOrderStep(DayTasks(p), p, e);
    }
  }

  /** A day written with `task_count >= 1` entries holds at least one task
      and no more tasks than entries. */
  lemma {:induction false} DayTasksSize(entries: seq<Entry<string>>)
    ensures |DayTasks(entries)| <= |entries|
    ensures |entries| >= 1 ==> |DayTasks(entries)| >= 1
  {
    if entries != [] {
      var n := |entries| - 1;
      DayTasksSize(entries[..n]);
      var c := DayTasks(entries[..n]);
      PutKeys(c, entries[n].key, entries[n].val);
      assert |Keys(DayTasks(entries))| == if Contains(c, entries[n].key) then |c| else |c| + 1;
    }
  }

  // ------------------------------------------------------------------
  // search_schedule

  /** One search result: the day, the task and its detail. */
  datatype Match = Match(day: string, task: string, detail: string)

  /** The comprehension's condition for an already lowered keyword: it
      occurs in the lowered task name or in the lowered detail.  The day
      name takes no part. */
  predicate Hits(keyword: string, task: string, detail: string) {
    IsSubstring(keyword, Lower(task)) || IsSubstring(keyword, Lower(detail))
  }

  /** The inner `for task, detail in tasks.items()` with its `if`. */
  function DayMatches(day: string, tasks: Tasks, keyword: string): seq<Match> {
    if tasks == [] then []
    else
      (if Hits(keyword, tasks[0].key, tasks[0].val) then [Match(day, tasks[0].key, tasks[0].val)] else [])
      + DayMatches(day, tasks[1..], keyword)
  }

  /** The outer `for day, tasks in data.items()`. */
  function StoreMatches(s: Store, keyword: string): seq<Match> {
    if s == [] then []
    else DayMatches(s[0].key, s[0].val, keyword) + StoreMatches(s[1..], keyword)
  }

  /** `search_schedule` for a keyword that has already been stripped:
      `None` for the "no schedules" guard, otherwise the matches of the
      lowered keyword, possibly none. */
  function Search(s: Store, keyword: string): Option<seq<Match>> {
    if s == [] then None else Some(StoreMatches(s, Lower(keyword)))
  }

  /** Every (day, task, detail) of the store, in day order, then task order. */
  function Triples(s: Store): seq<Match> {
    if s == [] then []
    else DayTriples(s[0].key, s[0].val) + Triples(s[1..])
  }

  function DayTriples(day: string, tasks: Tasks): seq<Match> {
    seq(|tasks|, i requires 0 <= i < |tasks| => Match(day, tasks[i].key, tasks[i].val))
  }

  /** The matches among `ms` that the keyword hits, in their order. */
  function Filter(ms: seq<Match>, keyword: string): seq<Match> {
    if ms == [] then []
    else (if Hits(keyword, ms[0].task, ms[0].detail) then [ms[0]] else []) + Filter(ms[1..], keyword)
  }

  lemma {:induction false} FilterMembership(ms: seq<Match>, keyword: string, m: Match)
    ensures m in Filter(ms, keyword) <==> m in ms && Hits(keyword, m.task, m.detail)
  {
    if ms != [] {
      FilterMembership(ms[1..], keyword, m);
      assert ms == [ms[0]] + ms[1..];
    }
  }

  lemma {:induction false} FilterConcat(a: seq<Match>, b: seq<Match>, keyword: string)
    ensures Filter(a + b, keyword) == Filter(a, keyword) + Filter(b, keyword)
  {
    if a != [] {
      FilterConcat(a[1..], b, keyword);
      var head := if Hits(keyword, a[0].task, a[0].detail) then [a[0]] else [];
      assert (a + b)[0] == a[0];
      assert (a + b)[1..] == a[1..] + b;
      assert Filter(a + b, keyword) == head + Filter(a[1..] + b, keyword);
      assert Filter(a, keyword) == head + Filter(a[1..], keyword);
    } else {
      assert a + b == b;
    }
  }

  lemma {:induction false} DayMatchesFilter(day: string, tasks: Tasks, keyword: string)
    ensures DayMatches(day, tasks, keyword) == Filter(DayTriples(day, tasks), keyword)
  {
    if tasks != [] {
      DayMatchesFilter(day, tasks[1..], keyword);
      assert DayTriples(day, tasks)[1..] == DayTriples(day, tasks[1..]);
    }
  }

  /** The search results come in store order: they are the full listing of
      (day, task, detail) with the misses left out. */
  lemma {:induction false} SearchInStoreOrder(s: Store, keyword: string)
    ensures StoreMatches(s, keyword) == Filter(Triples(s), keyword)
  {
    if s != [] {
      SearchInStoreOrder(s[1..], keyword);
      DayMatchesFilter(s[0].key, s[0].val, keyword);
      FilterConcat(DayTriples(s[0].key, s[0].val), Triples(s[1..]), keyword);
    }
  }

  lemma {:induction false} DayTriplesMembership(day: string, tasks: Tasks, m: Match)
    requires DistinctKeys(tasks)
    ensures m in DayTriples(day, tasks) <==> m.day == day && Get(tasks, m.task) == Some(m.detail)
  {
    if tasks != [] {
      var t := tasks[1..];
      assert tasks == [tasks[0]] + t;
      DistinctCons(tasks[0], t);
      DayTriplesMembership(day, t, m);
      GetCons(tasks[0], t, m.task);
      assert DayTriples(day, tasks) == [Match(day, tasks[0].key, tasks[0].val)] + DayTriples(day, t);
    }
  }

  /** A triple is listed exactly when the store holds that detail for that
      task on that day. */
  lemma {:induction false} TriplesMembership(s: Store, m: Match)
    requires WellFormed(s)
    ensures m in Triples(s) <==> GetTask(s, m.day, m.task) == Some(m.detail)
  {
    if s != [] {
      var t := s[1..];
      assert s == [s[0]] + t;
      DistinctCons(s[0], t);
      assert forall i :: 0 <= i < |t| ==> t[i] == s[i + 1];
      TriplesMembership(t, m);
      DayTriplesMembership(s[0].key, s[0].val, m);
      GetCons(s[0], t, m.day);
    }
  }

  /** `search_schedule` in full: no result list for an empty store;
      otherwise the results, in store order, are exactly the triples whose
      task name or detail contains the lowered keyword. */
  lemma SearchSpec(s: Store, keyword: string)
    requires WellFormed(s)
    ensures Search(s, keyword).None? <==> s == []
    ensures s != [] ==> Search(s, keyword) == Some(Filter(Triples(s), Lower(keyword)))
    ensures forall m :: m in StoreMatches(s, Lower(keyword)) <==>
      GetTask(s, m.day, m.task) == Some(m.detail) && Hits(Lower(keyword), m.task, m.detail)
  {
    SearchInStoreOrder(s, Lower(keyword));
    forall m ensures m in StoreMatches(s, Lower(keyword)) <==>
      GetTask(s, m.day, m.task) == Some(m.detail) && Hits(Lower(keyword), m.task, m.detail)
    {
      FilterMembership(Triples(s), Lower(keyword), m);
      TriplesMembership(s, m);
    }
  }

  /** The search does not depend on how the keyword is capitalised. */
  lemma SearchIgnoresCase(s: Store, keyword: string)
    ensures Search(s, keyword) == Search(s, Lower(keyword))
  {
    LowerIdempotent(keyword);
  }

  lemma {:induction false} FilterEmptyKeyword(ms: seq<Match>)
    ensures Filter(ms, "") == ms
  {
    if ms != [] {
      FilterEmptyKeyword(ms[1..]);
      EmptyIsSubstring(Lower(ms[0].task));
    }
  }

  /** The empty keyword matches every task of a non-empty store. */
  lemma SearchEmptyKeyword(s: Store)
    requires s != []
    ensures Search(s, "") == Some(Triples(s))
  {
    assert Lower("") == "";
    SearchInStoreOrder(s, "");
    FilterEmptyKeyword(Triples(s));
  }

  // ------------------------------------------------------------------
  // show_schedule

  /** One printed line: the `=== day ===` heading or a ` - task: detail` line. */
  datatype Line = DayHeading(day: string) | TaskLine(task: string, detail: string)

  function TaskLines(tasks: Tasks): seq<Line> {
    seq(|tasks|, i requires 0 <= i < |tasks| => TaskLine(tasks[i].key, tasks[i].val))
  }

  /** The two nested `for` loops of `show_schedule`. */
  function Listing(s: Store): seq<Line> {
    if s == [] then []
    else [DayHeading(s[0].key)] + TaskLines(s[0].val) + Listing(s[1..])
  }

  /** `show_schedule`: `None` for the "no schedules" guard, otherwise the
      listing. */
  function Show(s: Store): Option<seq<Line>> {
    if s == [] then None else Some(Listing(s))
  }

  /** The number of task lines before the next heading. */
  function TaskRun(lines: seq<Line>): (n: nat)
    ensures n <= |lines|
  {
    if lines == [] || lines[0].DayHeading? then 0 else 1 + TaskRun(lines[1..])
  }

  function ToTasks(lines: seq<Line>): Tasks {
    if lines == [] then []
    else match lines[0]
      case TaskLine(t, d) => [Entry(t, d)] + ToTasks(lines[1..])
      case DayHeading(_) => ToTasks(lines[1..])
  }

  /** Reads a listing back: each heading opens a day that owns the task
      lines up to the next heading. */
  function Parse(lines: seq<Line>): Store
    decreases |lines|
  {
    if lines == [] then []
    else if lines[0].TaskLine? then Parse(lines[1..])
    else
      var n := TaskRun(lines[1..]);
      [Entry(lines[0].day, ToTasks(lines[1..1 + n]))] + Parse(lines[1 + n..])
  }

  lemma {:induction false} TaskRunTaskLines(tasks: Tasks, rest: seq<Line>)
    requires rest == [] || rest[0].DayHeading?
    ensures TaskRun(TaskLines(tasks) + rest) == |tasks|
  {
    if tasks != [] {
      TaskRunTaskLines(tasks[1..], rest);
      assert (TaskLines(tasks) + rest)[1..] == TaskLines(tasks[1..]) + rest;
    }
  }

  lemma {:induction false} ToTasksTaskLines(tasks: Tasks)
    ensures ToTasks(TaskLines(tasks)) == tasks
  {
    if tasks != [] {
      ToTasksTaskLines(tasks[1..]);
      assert TaskLines(tasks)[1..] == TaskLines(tasks[1..]);
    }
  }

  /** A heading followed by a day's task lines reads back as that day. */
  lemma ParseDay(day: string, tasks: Tasks, rest: seq<Line>)
    requires rest == [] || rest[0].DayHeading?
    ensures Parse([DayHeading(day)] + TaskLines(tasks) + rest) == [Entry(day, tasks)] + Parse(rest)
  {
    var lines := [DayHeading(day)] + TaskLines(tasks) + rest;
    var n := |tasks|;
    assert lines[1..] == TaskLines(tasks) + rest;
    TaskRunTaskLines(tasks, rest);
    assert lines[1..1 + n] == TaskLines(tasks);
    assert lines[1 + n..] == rest;
    ToTasksTaskLines(tasks);
  }

  /** The listing shows the whole store, days and tasks in insertion order:
      nothing is lost and nothing is reordered, since the store can be read
      back from it. */
  lemma {:induction false} ListingRoundTrip(s: Store)
    ensures Parse(Listing(s)) == s
  {
    if s != [] {
      var t := s[1..];
      ListingRoundTrip(t);
      if t != [] {
        assert Listing(t)[0] == DayHeading(t[0].key);
      }
      ParseDay(s[0].key, s[0].val, Listing(t));
      assert s == [s[0]] + t;
    }
  }
}
