# Schedule manager: a verified model of its store and handlers

`schedule-manager.py` is a small interactive tracker. A user records, per
named day, named tasks. Each task has a free-text detail. The user can then
list, search, edit or delete that data. Everything lives in one JSON file,
`schedule.json`. Each menu handler loads the whole file into a nested dict
(day name -> (task name -> detail)), changes at most one day, and writes the
whole dict back when it changed something.

This project models that store and the five handlers. The prompts become
parameters. The printed messages become returned values.

- `dicts.dfy` (module `Dicts`): Python's insertion-ordered `dict` with string
  keys, as a sequence of entries. It has lookup (`k in d`, `d.get(k)`),
  assignment `d[k] = v` (`Put`) and deletion `del d[k]` (`Remove`). The
  language's ordering rules are proved: assigning to an existing key keeps
  its position, a new key goes last, and deleting a key keeps the others in
  their order.
- `text.dfy` (module `Text`): `str.lower()` on ASCII letters and the
  substring test `p in s`.
- `schedule.dfy` (module `Schedule`): the store as data (`Store`, with
  `WellFormed`: both levels are real dicts). It also holds the task dict that
  `write_schedule` builds (`DayTasks`, and the loop `BuildDayTasks`), the
  matches of `search_schedule` (`Search`), the printed listing of
  `show_schedule` (`Show`), and the lemmas about them.
- `manager.dfy` (module `Manager`): class `ScheduleFile`. Its `store` field is
  what `load_data` returns. Its `saves` field counts the calls to
  `save_data`, so "does not save" is a checked fact, not just "saves the same
  content". The methods `WriteSchedule`, `EditSchedule` and `DeleteSchedule`
  change the store. `ShowSchedule` and `SearchSchedule` have no `modifies`
  clause, so they cannot change the store and cannot save. Four client
  methods (`WriteSession`, `RewriteSession`, `SearchSession`,
  `DeleteSession`) call the handlers on small stores; their assertions
  follow from the handlers' contracts alone.

Some behaviour of the code is easy to miss; the model keeps it:

- Day and task names may be empty strings. The code only strips them.
- Editing or deleting on an empty store stops at its own "no schedules"
  guard (`NoSchedules`) before asking for a day.
- Show and search on an empty store also stop at that guard. The model
  returns `None` there, and `Some(...)` otherwise, even when nothing matches.
- A deletion that is not confirmed returns without a message and without
  saving (`NotConfirmed`).
- The confirmation is lowered but not stripped, so `"Y"` confirms and `"y "`
  does not.
- Writing a day always replaces its tasks and always saves. The code has no
  empty-store guard here.
- A repeated task name among the entered tasks keeps the detail of its last
  occurrence and the position of its first occurrence. This is what
  `tasks[name] = detail` does in a loop.

## Model

| member | source | states |
|---|---|---|
| Dicts.Find | schedule-manager.py:78 | `k in d` looks for the first entry with key `k`. The result is that entry's index, with no earlier entry having the key, or `None` exactly when no entry has it |
| Dicts.Contains | schedule-manager.py:78 | `k in d` (also at lines 87 and 105). No contract of its own: it holds exactly when `Find` finds `k`, and `Find`'s contract describes where |
| Dicts.Get | schedule-manager.py:83-92 | `d[k]` for a present key (`None` for an absent one). No contract of its own: described by PutGet, RemoveGet and GetCons |
| Dicts.Put | schedule-manager.py:49-51 | `d[k] = v` (also at line 92). No contract of its own: described by PutKeys (key order), PutGet (every lookup) and PutDistinct |
| Dicts.Remove | schedule-manager.py:108 | `del d[k]`. No contract of its own: described by RemoveGet, RemoveCut and RemoveDistinct. For an absent key it returns the dict unchanged (RemoveAbsent), where Python raises `KeyError`; the handler never deletes an absent key |
| Dicts.PutKeys | schedule-manager.py:49-51 | After `d[k] = v`, the keys are unchanged in number and order when `k` was present; otherwise `k` is appended as the last key |
| Dicts.PutGetSame | schedule-manager.py:49-51 | After `d[k] = v`, looking up `k` gives `v` |
| Dicts.PutGetOther | schedule-manager.py:92 | After `d[k] = v`, every other key keeps its value |
| Dicts.PutGet | schedule-manager.py:92 | Both facts at once: `k` maps to `v`, and every other key keeps its value |
| Dicts.PutDistinct | schedule-manager.py:49-51 | Assignment never duplicates a key |
| Dicts.RemoveGetSame | schedule-manager.py:108 | After `del d[k]`, `k` is absent |
| Dicts.RemoveGetOther | schedule-manager.py:108 | After `del d[k]`, every other key keeps its value |
| Dicts.RemoveGet | schedule-manager.py:108 | Both facts at once: `k` is gone, and all other lookups are unchanged |
| Dicts.RemoveAbsent | schedule-manager.py:105-108 | Deleting a key that is not there leaves the dict unchanged |
| Dicts.RemoveDistinct | schedule-manager.py:108 | Deletion keeps the keys distinct |
| Dicts.RemoveCut | schedule-manager.py:108 | On a real dict, `del d[k]` removes exactly the entry at `k`'s position: the result is the entries before it followed by the entries after it, in their old order |
| Text.Lower | schedule-manager.py:122 | `s.lower()` on ASCII letters (also at lines 106 and 127). No contract of its own: described by LowerIdempotent and ConfirmAccepts |
| Text.IsSubstring | schedule-manager.py:127 | `p in s`. No contract of its own: described by SubstringAt and EmptyIsSubstring |
| Text.LowerIdempotent | schedule-manager.py:122 | Lowering an already lowered keyword changes nothing |
| Text.SubstringAt | schedule-manager.py:127 | The substring test holds exactly when the pattern is a prefix of `s` from some offset `i` with `i + |p| <= |s|` |
| Text.EmptyIsSubstring | schedule-manager.py:127 | The empty keyword occurs in every string |
| Text.ConfirmAccepts | schedule-manager.py:106-107 | `answer.lower() == "y"` holds exactly for the answers "y" and "Y" |
| Schedule.WellFormedDay | schedule-manager.py:87 | Each day of a well-formed store is itself a dict with distinct task names |
| Schedule.PutWellFormed | schedule-manager.py:51 | Assigning a dict with distinct task names to a day keeps the store well formed |
| Schedule.RemoveWellFormed | schedule-manager.py:108 | Deleting a day keeps the store well formed |
| Schedule.DayTasks | schedule-manager.py:45-49 | The task dict the write loop builds, as a fold of `tasks[name] = detail`. No contract of its own: described by DayTasksDistinct, DayTasksNames, DayTasksLastWins, DayTasksFirstOrder and DayTasksSize |
| Schedule.BuildDayTasks | schedule-manager.py:45-49 | The loop returns the dict that the assignments `tasks[name] = detail` build, in entry order, starting from `{}` |
| Schedule.DayTasksDistinct | schedule-manager.py:45-49 | The built task dict has distinct task names |
| Schedule.DayTasksNames | schedule-manager.py:46-49 | A task name is in the built dict exactly when it was entered |
| Schedule.DayTasksLastWins | schedule-manager.py:49 | A task name entered more than once keeps the detail of its last occurrence |
| Schedule.DayTasksFirstOrder | schedule-manager.py:45-49 | The built dict orders task names by where each was first entered, and every name in it was entered |
| Schedule.DayTasksSize | schedule-manager.py:25-31 | With `task_count >= 1` entries the day gets at least one task, and never more tasks than entries |
| Schedule.Hits | schedule-manager.py:127 | The comprehension's condition: the lowered keyword occurs in the lowered task name or the lowered detail. No contract of its own: used by FilterMembership and SearchSpec |
| Schedule.DayMatches | schedule-manager.py:126-127 | The inner loop of the comprehension over one day. No contract of its own: described by SearchInStoreOrder |
| Schedule.StoreMatches | schedule-manager.py:123-128 | The whole comprehension. No contract of its own: described by SearchInStoreOrder and SearchSpec |
| Schedule.Search | schedule-manager.py:118-128 | The guard, then the matches of the lowered keyword. No contract of its own: described by SearchSpec, SearchIgnoresCase and SearchEmptyKeyword |
| Schedule.FilterMembership | schedule-manager.py:126 | A triple survives the filter exactly when it was in the input and the keyword hits its task name or detail |
| Schedule.SearchInStoreOrder | schedule-manager.py:123-128 | The nested comprehension equals the listing of all (day, task, detail) triples in day order, then task order, with the misses removed |
| Schedule.TriplesMembership | schedule-manager.py:124-125 | A (day, task, detail) triple is listed exactly when the store holds that detail for that task on that day |
| Schedule.SearchSpec | schedule-manager.py:115-128 | An empty store gives no result list (guard); otherwise the results, in store order, are exactly the stored triples whose task name or detail contains the lowered keyword. The day name is never compared |
| Schedule.SearchIgnoresCase | schedule-manager.py:122 | Searching for a keyword and for its lowered form gives the same results |
| Schedule.SearchEmptyKeyword | schedule-manager.py:122-128 | On a non-empty store the empty keyword returns every triple |
| Schedule.Listing | schedule-manager.py:64-67 | The printed lines, a heading per day followed by its task lines. No contract of its own: described by ListingRoundTrip |
| Schedule.Show | schedule-manager.py:58-67 | The guard, then the listing. No contract of its own: described by ListingRoundTrip |
| Schedule.ParseDay | schedule-manager.py:65-67 | A day's heading line followed by its task lines reads back as that day with its tasks in order |
| Schedule.ListingRoundTrip | schedule-manager.py:64-67 | The shown listing holds the whole store, days and tasks in insertion order: reading it back gives the store |
| Manager.ScheduleFile.constructor | schedule-manager.py:10-15 | With no file, the store starts empty and nothing has been saved |
| Manager.ScheduleFile.Existing | schedule-manager.py:12-14 | A file from an earlier session is loaded as it was saved |
| Manager.ScheduleFile.Save | schedule-manager.py:18-21 | Saving writes the whole store back and counts one save |
| Manager.ScheduleFile.WriteSchedule | schedule-manager.py:38-53 | The day gets exactly the newly built tasks, with no merge. Every other day is unchanged. The days keep their order, and a new day comes last. The file is saved once and stays well formed |
| Manager.ScheduleFile.EditSchedule | schedule-manager.py:70-94 | An empty store, a missing day or a missing task each give their own outcome, leave the store unchanged and do not save. Otherwise the new store is the old one with only that task's detail assigned: every other day is unchanged entry for entry, the other tasks keep their details, the day order and the task order stay the same, and the file is saved once |
| Manager.ScheduleFile.DeleteSchedule | schedule-manager.py:97-112 | An empty store, a missing day or an answer other than "y" after lowering leave the store unchanged and do not save. Otherwise exactly that day is removed, the other days keep their order and their tasks, and the file is saved once |
| Manager.ScheduleFile.ShowSchedule | schedule-manager.py:56-67 | Returns the "no schedules" guard or the listing of the store, and changes nothing |
| Manager.ScheduleFile.SearchSchedule | schedule-manager.py:115-128 | Returns the "no schedules" guard or the matches of the keyword, and changes nothing |

## Left out

- `load_data` and `save_data` file handling (schedule-manager.py:10-21) is left out: existence checks, opening, `json.load` and `json.dump`. The file is the `store` field. An absent file is the empty store (the unnamed constructor). A malformed file is not modelled, and neither is a JSON round trip. The code truncates the file in place, so no atomic write is claimed.
- Manager.ScheduleFile.Existing: this constructor requires that the loaded contents are a well-formed two-level dict. A file of another shape (a list, say) makes the source fail in ways that depend on the library. That path is not modelled.
- The `get_int_input` retry loop (schedule-manager.py:25-34) is interactive input and `int()` parsing. Only its result, a count of at least 1, is kept: it is the `|entries| >= 1` precondition of `WriteSchedule`.
- `main`, the menu dispatch and `sys.exit` (schedule-manager.py:139-167) are the user interface loop.
- The printed text of every message is left out. So is the list of a day's tasks that `edit_schedule` prints before asking for the task (schedule-manager.py:82-84). Results are returned as data: `Outcome`, `Line`, `Match`.
- Text.Lower lowers ASCII letters only, not the full Unicode `str.lower()`. `str.strip()` is not modelled: day names, task names, details and the keyword are taken as already stripped. The confirmation answer is not stripped by the source, and it is not stripped here either. For that answer the ASCII lowering accepts the same answers, "y" and "Y".
- Dicts.Remove: Python's `del d[k]` raises `KeyError` for a missing key; `Remove` returns the dict unchanged instead. The delete handler only deletes a day it has found (schedule-manager.py:105), so that case never arises there.
- Schedule.Search: with non-ASCII letters the case-insensitive match is weaker than Python's, because only ASCII letters are lowered.
