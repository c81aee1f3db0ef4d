/** The handlers of schedule-manager.py as methods on the schedule file.
    Each handler loads the whole store, changes at most one day and, when it
    changed something, saves the whole store back.  The prompts become
    parameters and the messages become an `Outcome`. */
module Manager {
  import opened Dicts
  import opened Text
  import opened Schedule

  /** What a handler reports instead of printing it. */
  datatype Outcome =
    | Saved         // the store was changed and saved
    | NoSchedules   // the empty-store guard
    | DayNotFound
    | TaskNotFound
    | NotConfirmed  // deletion answered with something other than "y"

  /** schedule.json, seen through load_data and save_data. */
  class ScheduleFile {
    /** What load_data returns. */
    var store: Store
    /** How many times save_data has rewritten the file. */
    var saves: nat

    ghost predicate Valid()
      reads this
    {
      WellFormed(store)
    }

    /** No file yet: load_data returns an empty store. */
    constructor ()
      ensures Valid() && store == [] && saves == 0
    {
      store := [];
      saves := 0;
    }

    /** A file written by an earlier session. */
    constructor Existing(contents: Store)
      requires WellFormed(contents)
      ensures Valid() && store == contents && saves == 0
    {
      store := contents;
      saves := 0;
    }

    /** save_data: the whole store is written back. */
    method Save(data: Store)
      modifies this
      ensures store == data && saves == old(saves) + 1
    {
      store := data;
      saves := saves + 1;
    }

    /** write_schedule with the day name and the `task_count` entered
        (name, detail) pairs; `task_count >= 1` is what the input loop
        guarantees.  The day gets exactly the newly built tasks, every
        other day is untouched, a new day goes last, and the file is saved. */
    method WriteSchedule(dayName: string, entries: seq<Entry<string>>)
      requires Valid()
      requires |entries| >= 1
      modifies this
      ensures Valid()
      ensures store == Put(old(store), dayName, DayTasks(entries))
      ensures Get(store, dayName) == Some(DayTasks(entries))
      ensures forall d :: d != dayName ==> Get(store, d) == Get(old(store), d)
      ensures Keys(store) ==
        if Contains(old(store), dayName) then Keys(old(store)) else Keys(old(store)) + [dayName]
      ensures saves == old(saves) + 1
    {
      var data := store;
      var tasks := BuildDayTasks(entries);
      DayTasksDistinct(entries);
      PutWellFormed(data, dayName, tasks);
      PutKeys(data, dayName, tasks);
      PutGet(data, dayName, tasks);
      data := Put(data, dayName, tasks);
      Save(data);
    }

    /** edit_schedule: an empty store, a missing day or a missing task
        leaves the file alone; otherwise only that task's detail changes,
        in place, and the file is saved. */
    method EditSchedule(dayName: string, taskName: string, newDetail: string) returns (outcome: Outcome)
      requires Valid()
      modifies this
      ensures Valid()
      ensures old(store) == [] ==> outcome == NoSchedules
      ensures old(store) != [] && !Contains(old(store), dayName) ==> outcome == DayNotFound
      ensures Contains(old(store), dayName) && !Contains(Get(old(store), dayName).value, taskName) ==>
        outcome == TaskNotFound
      ensures Contains(old(store), dayName) && Contains(Get(old(store), dayName).value, taskName) ==>
        outcome == Saved
      ensures outcome != Saved ==> store == old(store) && saves == old(saves)
      ensures outcome == Saved ==>
        && saves == old(saves) + 1
        && GetTask(store, dayName, taskName) == Some(newDetail)
        && store == Put(old(store), dayName, Put(Get(old(store), dayName).value, taskName, newDetail))
        && (forall d :: d != dayName ==> Get(store, d) == Get(old(store), d))
        && (forall d, t :: d != dayName || t != taskName ==> GetTask(store, d, t) == GetTask(old(store), d, t))
        && Keys(store) == Keys(old(store))
        && Keys(Get(store, dayName).value) == Keys(Get(old(store), dayName).value)
    {
      var data := store;
      if data == [] {
        return NoSchedules;
      }
      if !Contains(data, dayName) {
        return DayNotFound;
      }
      var tasks := Get(data, dayName).value;
      if !Contains(tasks, taskName) {
        return TaskNotFound;
      }
      WellFormedDay(data, dayName);
      var edited := Put(tasks, taskName, newDetail);
      PutKeys(tasks, taskName, newDetail);
      PutGet(tasks, taskName, newDetail);
      PutWellFormed(data, dayName, edited);
      PutKeys(data, dayName, edited);
      PutGet(data, dayName, edited);
      data := Put(data, dayName, edited);
      Save(data);
      outcome := Saved;
    }

    /** delete_schedule with the day name and the raw confirmation answer.
        Only an existing day with the answer "y" (after lowering) is
        deleted; then exactly that day goes and the others keep their
        order. */
    method DeleteSchedule(dayName: string, answer: string) returns (outcome: Outcome)
      requires Valid()
      modifies this
      ensures Valid()
      ensures old(store) == [] ==> outcome == NoSchedules
      ensures old(store) != [] && !Contains(old(store), dayName) ==> outcome == DayNotFound
      ensures Contains(old(store), dayName) && Lower(answer) != "y" ==> outcome == NotConfirmed
      ensures Contains(old(store), dayName) && Lower(answer) == "y" ==> outcome == Saved
      ensures outcome != Saved ==> store == old(store) && saves == old(saves)
      ensures outcome == Saved ==>
        && saves == old(saves) + 1
        && !Contains(store, dayName)
        && (forall d :: d != dayName ==> Get(store, d) == Get(old(store), d))
        && store == old(store)[..FirstPos(old(store), dayName)] + old(store)[FirstPos(old(store), dayName) + 1..]
    {
      var data := store;
      if data == [] {
        return NoSchedules;
      }
      if Contains(data, dayName) {
        if Lower(answer) == "y" {
          RemoveWellFormed(data, dayName);
          RemoveGet(data, dayName);
          RemoveCut(data, dayName);
          data := Remove(data, dayName);
          Save(data);
          outcome := Saved;
        } else {
          outcome := NotConfirmed;
        }
      } else {
        outcome := DayNotFound;
      }
    }

    /** show_schedule: reads the file and changes nothing. */
    method ShowSchedule() returns (lines: Option<seq<Line>>)
      ensures lines == Show(store)
    {
      lines := Show(store);
    }

    /** search_schedule with the stripped keyword: reads the file and
        changes nothing. */
    method SearchSchedule(keyword: string) returns (matches: Option<seq<Match>>)
      ensures matches == Search(store, keyword)
    {
      matches := Search(store, keyword);
    }
  }
  /** Clients of the handlers, as the menu would drive them: the
      handlers' contracts alone determine every result. */
  method WriteSession()
  {
    var file := new ScheduleFile();
    var run, eat := Entry("Run", "5k"), Entry("Eat", "oats");
    var week := [run, eat];
    assert week[..1] == [run] && [run][..0] == [];
    assert DayTasks([run]) == Put([], "Run", "5k") == [run];
    assert Find([run], "Eat") == None;
    assert DayTasks(week) == Put([run], "Eat", "oats") == week;
    file.WriteSchedule("Mon", week);
    assert file.store == [Entry("Mon", week)];
    var lines := file.ShowSchedule();
    var empty: Store := [];
    assert TaskLines(week) == [TaskLine("Run", "5k"), TaskLine("Eat", "oats")];
    assert Listing(empty) == [];
    assert Listing(file.store) == [DayHeading("Mon")] + TaskLines(week) + Listing(empty);
    assert Listing(file.store) == [DayHeading("Mon"), TaskLine("Run", "5k"), TaskLine("Eat", "oats")];
    assert lines == Some([DayHeading("Mon"), TaskLine("Run", "5k"), TaskLine("Eat", "oats")]);
  }

  /** Writing a day again replaces its tasks. */
  method RewriteSession()
  {
    var week := [Entry("Run", "5k"), Entry("Eat", "oats")];
    var file := new ScheduleFile.Existing([Entry("Mon", week)]);
    var breakfast := [Entry("Eat", "oats")];
    assert breakfast[..0] == [];
    assert DayTasks(breakfast) == Put([], "Eat", "oats") == breakfast;
    file.WriteSchedule("Mon", breakfast);
    assert Find([Entry("Mon", week)], "Mon") == Some(0);
    assert file.store == [Entry("Mon", breakfast)];
  }

  method SearchSession()
  {
    var day: Tasks := [Entry("Eat", "oats")];
    var store: Store := [Entry("Mon", day)];
    var file := new ScheduleFile.Existing(store);

    var outcome := file.EditSchedule("Tue", "X", "y");
    assert outcome == DayNotFound && file.store == store && file.saves == 0;

    var found := file.SearchSchedule("OAT");
    assert Lower("OAT") == "oat" && Lower("oats") == "oats";
    assert IsPrefix("oat", "oats");
    assert Hits("oat", "Eat", "oats");
    assert day[1..] == [] && DayMatches("Mon", day[1..], "oat") == [];
    assert DayMatches("Mon", day, "oat") == [Match("Mon", "Eat", "oats")] + DayMatches("Mon", day[1..], "oat");
    assert store[1..] == [] && StoreMatches(store[1..], "oat") == [];
    assert StoreMatches(store, "oat") == DayMatches("Mon", day, "oat") + StoreMatches(store[1..], "oat");
    assert StoreMatches(store, "oat") == [Match("Mon", "Eat", "oats")];
    assert found == Some([Match("Mon", "Eat", "oats")]);
  }

  method DeleteSession()
  {
    var store: Store := [Entry("Mon", [Entry("Eat", "oats")])];
    var file := new ScheduleFile.Existing(store);
    var outcome := file.DeleteSchedule("Mon", "n");
    assert Lower("n") == "n";
    assert outcome == NotConfirmed && file.store == store && file.saves == 0;
    outcome := file.DeleteSchedule("Mon", "Y");
    assert Lower("Y") == "y";
    assert outcome == Saved && file.store == [] && file.saves == 1;
  }
}
