# ISUTimely timetable core, modelled in Dafny

ISUTimely is a university timetabling system: a NestJS server over a
Prisma database, and a React client in which staff build the
timetable of a group by placing discipline pairs in a week grid. This
project models the parts of both that carry rules.

- **Timetable store** (`schedule.dfy`, `schedule_store.dfy`). The bulk replace of a group's half-year timetable: the regular even/odd form and the four-week distance form. It also covers slot-key parsing and the weekday names the server accepts, the busy queries for rooms, teachers and groups, and the read-back of the distance timetable.
- **Academic calendar and holidays** (`calendar.dfy`, `holiday.dfy`). The seeding of 52 weeks per academic year and the lookup of the week holding a date. Single and weekly holidays are stored as pairs; the module also covers the holiday list and its order, and the holiday page's date arithmetic.
- **Discipline registry and wishes** (`discipline.dfy`, `wish.dfy`, `wish_grid.dfy`):
  - disciplines common to several groups;
  - the formatted discipline list;
  - teacher assignment (full replace, last entry wins);
  - group selection for assignments and teacher preferences;
  - teachers' schedule and text wishes, and the wish grid page.
- **Constructor page** (`pair_stores.dfy`, `constructor_grid.dfy`, `grid_save.dfy`, `constructor_pairs.dfy`, `busy_maps.dfy`):
  - the two client stores of pair counters;
  - placing, removing and editing pairs on the grid;
  - turning the grid into the save request;
  - generating the pair entries from a study plan's hours;
  - the busy maps of rooms, teachers and groups.
- **Study-plan parsing** (`parser.dfy`). The week count of a semester, the discipline rows of the four course sheets and the title sheet, all read through an abstract cell reader.
- **Reference tables** (`reference_tables.dfy`). Buildings, positions, departments, equipment, audience types, groups and audiences, with their NotFound and Conflict checks and the audiences' equipment links.
- **User helpers** (`users.dfy`, `roles.dfy`). Transliteration, login and temporary-password generation, the default role, and the Russian role names.
- **Shared modules**. `common.dfy` (Option, Result, errors), `text.dfy` (JavaScript white space, `trim`, `split`, number printing and parsing, the em-dash replacement) and `jsobject.dfy` (a JavaScript object as an insertion-ordered association list).

Pure code is modelled as functions with lemmas. Code that changes state is modelled as classes whose methods state their new state as a function of the old one:
- the pair, week, wish and reference tables on the server;
- the client stores and the grid pages.

Three behaviours of the code are followed as written:
- The bulk replace runs without a transaction. The code deletes the scope first and builds the creations afterwards. A discipline that is not registered therefore fails the call after the deletions have run (`ScheduleStore.PairStore.BulkCreate`).
- Time labels are not normalised for every dash variant, and their white space is not all stripped. The code replaces only the first em dash and the white space around it (`Text.DashSpanIsLeftmostLongest`).
- Title uniqueness is checked by the `create` of every simple table. The group and audience updates do not check it (see Findings).

## Model

| member | source | states |
|---|---|---|
| Calendar.JsDay | back-nestjs/src/holiday/holiday.service.ts:29 | `dayjs(date).day()` on a day number: always one of 0 (Sunday) … 6 (Saturday) |
| Calendar.WeekDayOf | back-nestjs/src/holiday/holiday.service.ts:29-39 | the `weekDays[getDay()]` lookup: the enum member whose Monday-first position is `(getDay() + 6) % 7` |
| Calendar.DayNameInjective | back-nestjs/src/holiday/holiday.service.ts:30-39 | distinct weekday enum members have distinct names, so a stored day code identifies its weekday |
| Calendar.WeekdayPeriodic | back-nestjs/src/holiday/holiday.service.ts:98-102 | a date moved by a whole number of weeks keeps its `getDay()` |
| Calendar.FirstMonday | back-nestjs/seedAcademicWeeks.ts:23-27 | 1 September plus `(1 + 7 - getDay()) % 7` days is a Monday and lies in the seven days from 1 September |
| Calendar.FirstMondayIsFirst | back-nestjs/seedAcademicWeeks.ts:22-27 | no Monday lies between 1 September and that date, so it is the first Monday on or after 1 September |
| Calendar.YearWeeks | back-nestjs/seedAcademicWeeks.ts:29-38 | the inner loop produces exactly 52 weeks per academic year |
| Calendar.AcademicWeekTable.Seed | back-nestjs/seedAcademicWeeks.ts:7-50 | after the wipe and the batch insert, the table holds exactly the generated weeks of `startYear` … `endYear`, whatever it held before, so re-running the script gives the same table |
| Calendar.SeededWeeksLength | back-nestjs/seedAcademicWeeks.ts:19-38 | the outer loop writes 52 rows per year of the range |
| Calendar.SeededWeekAt | back-nestjs/seedAcademicWeeks.ts:19-38 | row `i` of the table is week `i % 52 + 1` of year `startYear + i / 52` |
| Calendar.SeedCount | back-nestjs/seedAcademicWeeks.ts:9-10 | the script's range 2021 … 2040 gives 1040 rows, the count it logs at lines 52-54 |
| Calendar.YearWeekShape | back-nestjs/seedAcademicWeeks.ts:29-37 | every week runs Monday to Sunday, week 1 starts on the first Monday, week `n + 1` starts the day after week `n` ends, and a week is EVEN exactly when its number is even |
| Calendar.YearsDoNotOverlap | back-nestjs/seedAcademicWeeks.ts:23-33 | week 52 of one academic year ends before week 1 of the next begins |
| Calendar.SeededWeeksStep | back-nestjs/seedAcademicWeeks.ts:19-38 | each row ends before the next row starts |
| Calendar.SeededWeeksDisjoint | back-nestjs/seedAcademicWeeks.ts:19-38 | any two rows of the seeded table are disjoint and in date order |
| Calendar.FindWeek | back-nestjs/src/holiday/holiday.service.ts:17-26 | `findFirst` over the weeks: the first row holding the date, or none exactly when no row holds it |
| Calendar.FindWeekUniqueInSeeded | back-nestjs/src/holiday/holiday.service.ts:18-23 | in a seeded table the row found is the only row holding the date, so `findFirst` does not depend on row order |
| Holiday.HolidayPlan | back-nestjs/src/holiday/holiday.service.ts:13-72 | NotFound exactly when no week holds the date; otherwise one creation per slot label, each in the week holding the date, on the date's weekday, flagged holiday with the given name, under the fixed study plan and assignment, with the slot id derived from the label, no groups or teachers, and a room exactly when `roomId` is truthy |
| Holiday.CreateHoliday | back-nestjs/src/holiday/holiday.service.ts:13-74 | NotFound with nothing written when no week holds the date; Crash with nothing written when there is a slot and the fixed study plan, the fixed assignment or the given room is missing; otherwise the store gains exactly the planned pairs and the call returns them in slot order |
| Holiday.RecurringDatesShape | back-nestjs/src/holiday/holiday.service.ts:98-102 | the loop visits `⌊(finish − start) / 7⌋ + 1` dates when `start ≤ finish` and none otherwise; the `k`-th is `start + 7k` |
| Holiday.RecurringDatesIndex | back-nestjs/src/holiday/holiday.service.ts:98-102 | `start + 7k` is visited exactly when it is not after `finish` (the end date is inclusive) |
| Holiday.RecurringSameWeekday | back-nestjs/src/holiday/holiday.service.ts:76-80 | every visited date has the weekday of the start date, as the doc comment promises |
| Holiday.RecurringRunOutcome | back-nestjs/src/holiday/holiday.service.ts:98-111 | the loop fails exactly when some visited date lies in no academic week, or there is a date and the database rejects the holiday's creations; without failure it creates one holiday pair per date and slot; every created pair is a holiday on the weekday of a visited date |
| Holiday.RecurringRunFails | back-nestjs/src/holiday/holiday.service.ts:98-111 | the loop fails exactly when some visited date lies in no academic week, or there is a date and the database rejects the holiday's creations |
| Holiday.RecurringRunCount | back-nestjs/src/holiday/holiday.service.ts:98-111 | without failure the loop creates one holiday pair per date and slot |
| Holiday.RecurringRunDays | back-nestjs/src/holiday/holiday.service.ts:98-111 | every pair the loop creates is a holiday on the weekday of a visited date |
| Holiday.RecurringRunFailedSticky | back-nestjs/src/holiday/holiday.service.ts:104-110 | once an iteration has thrown, later dates add nothing |
| Holiday.RecurringRunStep | back-nestjs/src/holiday/holiday.service.ts:104-110 | one more iteration either stops the loop with what was created so far, with NotFound for a date in no week or Crash for a rejected creation, or appends that date's creations |
| Holiday.CreateRecurringHoliday | back-nestjs/src/holiday/holiday.service.ts:81-114 | the store gains the creations of every iteration that ran; the result is all their pairs concatenated in date order, or the first iteration's error (NotFound for a date in no week, Crash when the database rejects the creations), with the earlier dates' pairs kept |
| Holiday.KeyLeqTotal | back-nestjs/src/holiday/holiday.service.ts:124-128 | the listing order compares any two rows |
| Holiday.KeyLeqTrans | back-nestjs/src/holiday/holiday.service.ts:124-128 | the listing order is transitive |
| Holiday.InsertByKey | back-nestjs/src/holiday/holiday.service.ts:124-128 | inserting a row adds exactly that row to the multiset of rows |
| Holiday.InsertByKeySorted | back-nestjs/src/holiday/holiday.service.ts:124-128 | inserting into a list sorted by the listing order keeps it sorted |
| Holiday.SortByKey | back-nestjs/src/holiday/holiday.service.ts:124-128 | the result is sorted by the listing order and is a permutation of the input |
| Holiday.GetAllHolidays | back-nestjs/src/holiday/holiday.service.ts:116-130 | exactly the holiday pairs, as a permutation of them, ordered by week start (rows without a week last), then weekday in the enum's order `rank`, then slot start |
| Holiday.DayOffset | front-react-lvl-2/src/pages/holiday/AddHolidayPage.tsx:147-154 | `getHolidayDate`'s offset from the week start is between 0 and 6 |
| Holiday.DayOffsetOfName | front-react-lvl-2/src/pages/holiday/AddHolidayPage.tsx:149-153 | the offset of each enum name is its Monday-first position |
| Holiday.DayOffsetInjective | front-react-lvl-2/src/pages/holiday/AddHolidayPage.tsx:149-153 | distinct weekdays get distinct offsets |
| Holiday.HolidayDate | front-react-lvl-2/src/pages/holiday/AddHolidayPage.tsx:147-154 | the shown date lies within the week of the row |
| Holiday.HolidayDateRoundTrip | front-react-lvl-2/src/pages/holiday/AddHolidayPage.tsx:147-154 | a date stored as its Monday-to-Sunday week and weekday (holiday.service.ts:29-39) comes back unchanged on the page |
| Holiday.FilterHolidays | front-react-lvl-2/src/pages/holiday/AddHolidayPage.tsx:156-165 | every row when either end of the range is unset; otherwise exactly the rows whose date lies in the range, ends included |
| Holiday.RecurringDayCodeAgrees | front-react-lvl-2/src/pages/holiday/AddHolidayPage.tsx:130-133 | the form's day code is the name of the weekday the server gives every visited date |
| Holiday.HoursOfDaySlotIds | front-react-lvl-2/src/pages/holiday/AddHolidayPage.tsx:30-38 | each offered label turns into the slot id `HH:MM-HH:MM` (holiday.service.ts:44) |
| Schedule.MapDayNames | back-nestjs/src/schedule/schedule.service.ts:376-395 | `mapDay` accepts every weekday under its Russian name and under its English name |
| Schedule.MapDayExactly | back-nestjs/src/schedule/schedule.service.ts:376-395 | `mapDay` succeeds exactly on the fourteen listed names; anything else is a BadRequest |
| Schedule.CellDraftShape | back-nestjs/src/schedule/schedule.service.ts:56-112 | one loop iteration succeeds exactly when the (discipline, type) assignment exists, the key has a hyphen and its day name maps; its creation is then for the request's group, plan and half-year, in the given week, not a holiday, with the assignment, the mapped day and the slot cut out of the key |
| Schedule.PlanCellsGroups | back-nestjs/src/schedule/schedule.service.ts:56-112 | every creation of one week's cells links its pair to the request's group and to no other group |
| Schedule.BulkPlanShape | back-nestjs/src/schedule/schedule.service.ts:50-114 | every creation of a weekly save is for the request's group, plan and half-year and carries a week type |
| Schedule.NumberWeekOfWeekKey | back-nestjs/src/schedule/schedule.service.ts:151 | `parseInt(key.replace('week', ''), 10)` turns the keys "week1" … "week4" into 1 … 4 |
| Schedule.PlanWeeksErrSticky | back-nestjs/src/schedule/schedule.service.ts:147-168 | once a cell of some week has thrown, the later weeks prepare nothing |
| Schedule.AcceptedDrafts | back-nestjs/src/schedule/schedule.service.ts:96-116 | the creations the database accepts, in order: exactly those whose week number is not NaN and whose study plan, assignment, groups, room and teachers exist |
| Schedule.KeyParts | back-nestjs/src/schedule/schedule.service.ts:74-84 | a key "<day>-<rest>" yields the day name before the first hyphen and the trimmed rest as the slot title |
| Schedule.CanonicalSlot | back-nestjs/src/schedule/schedule.service.ts:74-93 | the label "<start> — <end>" gives the slot with id "<start>-<end>", start `start`, end `end` and the label as title |
| Schedule.CanonicalKey | back-nestjs/src/schedule/schedule.service.ts:74-93 | a key "<day>-<start> — <end>" as the client sends it yields the day name, that label as the slot title and the slot with id "<start>-<end>" |
| Schedule.DistanceStep | back-nestjs/src/schedule/schedule.service.ts:272-284 | one iteration succeeds exactly when `schedule[weekKey]` exists, that is when the pair's week number is 1 … 4, and keeps four week maps |
| Schedule.PlaceDistance | back-nestjs/src/schedule/schedule.service.ts:272-284 | an iteration whose pair has week number 1 … 4 keeps four week maps |
| Schedule.PutCell | back-nestjs/src/schedule/schedule.service.ts:278-284 | `schedule[weekKey][daySlot] = cell` keeps the number of week maps |
| Schedule.PutCellKeys | back-nestjs/src/schedule/schedule.service.ts:278-284 | storing a cell in one week's map adds its key to that map and changes no other map's keys |
| Schedule.DistanceStepUpdates | back-nestjs/src/schedule/schedule.service.ts:272-284 | an iteration in week range is the in-place update of the map of its own week, `numberWeek - 1`, under its "<DAY>-<slot title>" key with its cell |
| Schedule.DistanceFoldErrSticky | back-nestjs/src/schedule/schedule.service.ts:272-285 | once an iteration has thrown, the later pairs change nothing |
| Schedule.DistanceFoldOk | back-nestjs/src/schedule/schedule.service.ts:272-285 | the read-back fails exactly when some pair has no week number in 1 … 4, in particular when a weekly pair is linked to the group |
| Schedule.DistanceStepKeys | back-nestjs/src/schedule/schedule.service.ts:273-278 | one iteration adds the pair's "<DAY>-<slot title>" key to its own week's map and leaves every other map's keys as they were |
| Schedule.DistanceFoldCovers | back-nestjs/src/schedule/schedule.service.ts:272-285 | when the read-back succeeds, every pair's key is in the map of its week |
| Schedule.DistanceFoldOnlyPairs | back-nestjs/src/schedule/schedule.service.ts:272-285 | when the read-back succeeds, every key of a week's map comes from a pair of that week |
| Schedule.LastAt | back-nestjs/src/schedule/schedule.service.ts:272-285 | the pair chosen for a key of a week is one that is written under that key |
| Schedule.LastAtIsLast | back-nestjs/src/schedule/schedule.service.ts:272-285 | no pair is chosen exactly when no pair lands on the key; otherwise the chosen pair is one that lands there and no later pair does |
| Schedule.LastAtNone | back-nestjs/src/schedule/schedule.service.ts:272-285 | no pair is chosen for a key exactly when no pair lands on it |
| Schedule.LastAtLatest | back-nestjs/src/schedule/schedule.service.ts:272-285 | a chosen pair is one of the list that no later pair follows on the same key |
| Schedule.DistanceFoldValues | back-nestjs/src/schedule/schedule.service.ts:257-285 | no pairs give four empty maps; on success each key of each week holds the cell (assignment, online flag, first room, all teachers) of the last pair written under it, so a later pair overwrites an earlier one, and keys no pair lands on hold nothing |
| Schedule.DistanceFoldSnoc | back-nestjs/src/schedule/schedule.service.ts:272-285 | the read-back of one more pair is one more iteration on the maps so far |
| Schedule.FillWeeks | back-nestjs/src/schedule/schedule.service.ts:264-290 | the `forEach` loop computes exactly the read-back fold over the fetched pairs |
| Schedule.GroupBySlot | back-nestjs/src/schedule/schedule.service.ts:399-412 | a key "<DAY>-<slot id>" is marked in `even` exactly when some EVEN record has it, and in `odd` exactly when some record that is not EVEN has it |
| Schedule.NewLinksContain | back-nestjs/src/schedule/schedule.service.ts:99-109 | the link rows a creation writes carry its own new id and each target it names |
| ScheduleStore.CreateConsistent | back-nestjs/src/schedule/schedule.service.ts:80-111 | one creation keeps ids unique and below the counter, link rows naming handed-out ids, and every pair's time slot present |
| ScheduleStore.CreateAllConsistent | back-nestjs/src/schedule/schedule.service.ts:116 | running any list of creations keeps the tables consistent |
| ScheduleStore.DeleteConsistent | back-nestjs/src/schedule/schedule.service.ts:34-45 | the four deletions keep the tables consistent |
| ScheduleStore.CreateAllAppend | back-nestjs/src/schedule/schedule.service.ts:116 | running the creations of `a` and then those of `b` is running those of `a + b` |
| ScheduleStore.CreateAllStep | back-nestjs/src/schedule/schedule.service.ts:116 | running the first `i + 1` creations is running the first `i` and then one `create` |
| ScheduleStore.ClearScope | back-nestjs/src/schedule/schedule.service.ts:27-45 | after the deletions no pair of the study plan and half-year is left, every other pair is still there, nothing new appears, and the counter and slots are unchanged |
| ScheduleStore.CreateAllLinks | back-nestjs/src/schedule/schedule.service.ts:99-109 | the creations append exactly their own link rows to each link table |
| ScheduleStore.CreatedLinks | back-nestjs/src/schedule/schedule.service.ts:99-109 | on consistent tables, the link rows of the `i`-th new pair are exactly the targets its creation named |
| ScheduleStore.CreatedPairLinks | back-nestjs/src/schedule/schedule.service.ts:99-109 | the group, room and teacher rows of the `i`-th new pair are those its creation named |
| ScheduleStore.CreatedRow | back-nestjs/src/schedule/schedule.service.ts:79-111 | the `i`-th creation's row is in the table, under the `i`-th new id |
| ScheduleStore.FindByGroup | back-nestjs/src/schedule/schedule.service.ts:294-319 | exactly the pairs of the half-year and week type that are linked to the group |
| ScheduleStore.FindBusyRooms | back-nestjs/src/schedule/schedule.service.ts:322-343 | exactly the pairs of the half-year linked to the room |
| ScheduleStore.FindBusyTeachers | back-nestjs/src/schedule/schedule.service.ts:347-373 | exactly the pairs of the half-year linked to the teacher |
| ScheduleStore.DistancePairs | back-nestjs/src/schedule/schedule.service.ts:226-252 | exactly the pairs of the study plan and half-year linked to the group |
| ScheduleStore.SavedScope | back-nestjs/src/schedule/schedule.service.ts:23-117 | a successful weekly save replaces the scope: afterwards its pairs are exactly the new rows, and every pair outside the scope is kept and no other appears |
| ScheduleStore.SavedPairsAreFound | back-nestjs/src/schedule/schedule.service.ts:23-117 | after a save each new pair is returned by `findByGroup` for its week type, and its room and teacher rows are exactly those its cell named |
| ScheduleStore.BulkPlanInScope | back-nestjs/src/schedule/schedule.service.ts:50-114 | the creations of a weekly save, and those the database accepts, all belong to the request's group, plan and half-year |
| ScheduleStore.DistancePlanInScope | back-nestjs/src/schedule/schedule.service.ts:147-210 | the creations of a distance save, and those the database accepts, all belong to the request's scope |
| ScheduleStore.PairStore.Insert | back-nestjs/src/schedule/schedule.service.ts:80-111 | one `schedulePair.create`: the row under the next id, its link rows and the `connectOrCreate` of its time slot, keeping the tables consistent |
| ScheduleStore.PairStore.ExecuteAll | back-nestjs/src/schedule/schedule.service.ts:116 | `Promise.all(creations)`: the creations are started together and their rows are returned in array order; the model applies them one at a time in that order |
| ScheduleStore.PairStore.DeleteScope | back-nestjs/src/schedule/schedule.service.ts:34-45 | the tables after the four deletions: the group's links, all room and teacher links, and the pairs with the given ids |
| ScheduleStore.PairStore.BulkCreate | back-nestjs/src/schedule/schedule.service.ts:23-117 | the scope is always cleared; a failing cell aborts with its error and nothing created; otherwise every creation of `even` then `odd` the database accepts is written, and the call returns their rows only when all were accepted, Crash otherwise |
| ScheduleStore.PairStore.BulkCreateDistance | back-nestjs/src/schedule/schedule.service.ts:120-215 | the scope is always cleared; a failing cell aborts with nothing created; otherwise every creation the database accepts is written (a NaN week number or a missing connected row is rejected), and the call returns the rows only when all were accepted, Crash otherwise |
| ScheduleStore.PairStore.GetDistanceSchedule | back-nestjs/src/schedule/schedule.service.ts:217-291 | the four week maps are the read-back fold over the group's pairs of the plan and half-year (its properties: DistanceFoldOk, DistanceFoldCovers, DistanceFoldOnlyPairs, DistanceFoldValues) |
| Disciplines.Dedup | back-nestjs/src/discipline/discipline.service.ts:246 | `[...new Set(xs)]`: no duplicates, exactly the elements of the input |
| Disciplines.KeepIn | back-nestjs/src/discipline/discipline.service.ts:284-286 | one step of the intersection `reduce`: exactly the names of `acc` that the next set has |
| Disciplines.FoundGroups | back-nestjs/src/discipline/discipline.service.ts:235-238 | `group.findMany({ id in ids })`: exactly the groups whose id is requested, in table order |
| Disciplines.TruthyPlans | back-nestjs/src/discipline/discipline.service.ts:428 | `.filter(Boolean)` keeps exactly the truthy study-plan ids |
| Disciplines.PlanNames | back-nestjs/src/discipline/discipline.service.ts:259-282 | the names added to one plan's lecture or practice set are those of the plan's disciplines of the semester with hours of that kind |
| Disciplines.PlanSet | back-nestjs/src/discipline/discipline.service.ts:259-282 | one plan's `Set` holds each such name once |
| Disciplines.KeepCommonSpec | back-nestjs/src/discipline/discipline.service.ts:284-290 | the `reduce` keeps a name exactly when it is in the first set and every remaining plan offers it |
| Disciplines.CommonNamesSpec | back-nestjs/src/discipline/discipline.service.ts:284-290 | a name is common exactly when every plan offers it with that kind |
| Disciplines.TempItems | back-nestjs/src/discipline/discipline.service.ts:296-309 | `tempResult`: one lecture item per common lecture name, then one practice item per common practice name, each with a fresh temporary id and no groups |
| Disciplines.Existing | back-nestjs/src/discipline/discipline.service.ts:316-332 | the group-assignment query: exactly the records of the semester, with a common name and at least one chosen group |
| Disciplines.ByName | back-nestjs/src/discipline/discipline.service.ts:335-338 | `mapByName` holds exactly the names of the records, each under a record with that name |
| Disciplines.ByNameLast | back-nestjs/src/discipline/discipline.service.ts:336-338 | the record kept for a name is the last one with that name |
| Disciplines.GetCommonDisciplines | back-nestjs/src/discipline/discipline.service.ts:226-351 | the method with the two loops computes exactly the closed-form result of `getCommonDisciplinesByGroupsAndSemester` |
| Disciplines.BuildByName | back-nestjs/src/discipline/discipline.service.ts:335-338 | the loop filling `mapByName` computes the last-wins map |
| Disciplines.ResolveItems | back-nestjs/src/discipline/discipline.service.ts:342-348 | the loop resolving `tempResult` in place resolves each item on its own |
| Disciplines.ExistingByName | back-nestjs/src/discipline/discipline.service.ts:316-348 | the record kept for a common name is the last matching record of the table |
| Disciplines.CommonDisciplinesErrors | back-nestjs/src/discipline/discipline.service.ts:230-244 | a plain error exactly when fewer than two ids are given; NotFound exactly when some found group lacks a study plan; a crash of the seedless `reduce` exactly when no id names a group |
| Disciplines.CommonDisciplinesItems | back-nestjs/src/discipline/discipline.service.ts:259-309 | an item of kind `k` titled `n` is listed exactly when, for every found group, some discipline of its plan in the semester is named `n` with hours of that kind |
| Disciplines.ResolvedListed | back-nestjs/src/discipline/discipline.service.ts:296-348 | resolving items keeps their titles and kinds |
| Disciplines.PlansCover | back-nestjs/src/discipline/discipline.service.ts:246 | a property of every distinct plan is a property of every found group's plan |
| Disciplines.CommonDisciplinesOrder | back-nestjs/src/discipline/discipline.service.ts:296-309 | every lecture item comes before every practice item, and no (title, kind) is listed twice |
| Disciplines.CommonDisciplinesResolved | back-nestjs/src/discipline/discipline.service.ts:340-348 | an item keeps its temporary id and no groups when no record matches its title; otherwise it takes the id and groups of the last matching record, for both the lecture and the practice item of that name |
| Disciplines.SelectNames | back-nestjs/src/discipline/discipline.service.ts:441-444 | the discipline query returns exactly the names of the disciplines the filter selects |
| Disciplines.FindAssignment | back-nestjs/src/discipline/discipline.service.ts:454-464 | the lookup by (discipline, type) finds a record with that key, or none exactly when no record has it |
| Disciplines.EntriesTitles | back-nestjs/src/discipline/discipline.service.ts:452-481 | the entries' titles are exactly the listed titles |
| Disciplines.FormattedPairs | back-nestjs/src/discipline/discipline.service.ts:447-484 | two entries per distinct name, in first-occurrence order, the lecture entry before the practice entry |
| Disciplines.FormattedTitles | back-nestjs/src/discipline/discipline.service.ts:441-484 | a title is listed exactly when some selected discipline has that name |
| Disciplines.FormattedDistinct | back-nestjs/src/discipline/discipline.service.ts:447-484 | no title is listed twice with the same kind |
| Disciplines.FindAssignmentUnique | back-nestjs/src/discipline/discipline.service.ts:454-464 | under the unique (discipline, type) constraint the lookup finds the one record with the key |
| Disciplines.FormattedTeachers | back-nestjs/src/discipline/discipline.service.ts:465-479 | an entry carries the registered assignment's id and teachers, or a temporary id and no teachers |
| Disciplines.Linked | back-nestjs/src/discipline/discipline.service.ts:25-45 | exactly the assignments the teacher is linked to |
| Disciplines.TeacherPairs | back-nestjs/src/discipline/discipline.service.ts:23-59 | the teacher's assignments; no assignment is an error, and the catch turns it into a plain error |
| Disciplines.IndexOfKey | back-nestjs/src/discipline/discipline.service.ts:490-496 | the position of the record with the key, or none exactly when no record has it |
| Disciplines.Upsert | back-nestjs/src/discipline/discipline.service.ts:490-511 | one `upsert`: the returned record has the entry's key and exactly its teachers (`set` replaces, never merges) and is in the table |
| Disciplines.UpsertValid | back-nestjs/src/discipline/discipline.service.ts:490-511 | an upsert keeps keys unique, ids unique and ids below the next id |
| Disciplines.UpsertFind | back-nestjs/src/discipline/discipline.service.ts:490-511 | after an upsert the key's record is the returned one and every other key keeps its record |
| Disciplines.UpsertAll | back-nestjs/src/discipline/discipline.service.ts:487-515 | one result per entry |
| Disciplines.UpsertAllStep | back-nestjs/src/discipline/discipline.service.ts:489-513 | one more entry upserts on top of the earlier ones |
| Disciplines.UpsertAllValid | back-nestjs/src/discipline/discipline.service.ts:489-513 | upserting a list keeps the registry invariant |
| Disciplines.UpsertAllResults | back-nestjs/src/discipline/discipline.service.ts:487-515 | the results come in entry order, each with that entry's key and exactly its teachers |
| Disciplines.UpsertAllLastWins | back-nestjs/src/discipline/discipline.service.ts:487-515 | afterwards a key named in the request has exactly the teachers of its last entry, and every other key keeps its record |
| Disciplines.KnownPrefix | back-nestjs/src/discipline/discipline.service.ts:489-513 | the number of leading entries that name only existing teachers, at most the number of entries |
| Disciplines.KnownPrefixAt | back-nestjs/src/discipline/discipline.service.ts:489-513 | the loop stops at the first entry naming a teacher that does not exist |
| Disciplines.GroupIds | back-nestjs/src/discipline/discipline.service.ts:371-374 | the ids of the found groups, in order |
| Disciplines.SetGroups | back-nestjs/src/discipline/discipline.service.ts:387-406 | every record named in the request has exactly the given groups; the others keep theirs and every other field is unchanged |
| Disciplines.IndexOfRecord | back-nestjs/src/discipline/discipline.service.ts:389-392 | `findUnique({ id })`: the record with the id, or none exactly when there is none |
| Disciplines.UpdatedSpec | back-nestjs/src/discipline/discipline.service.ts:393-405 | every returned record is a requested one and has exactly the found groups |
| Disciplines.DuplicateGroupIdsFail | back-nestjs/src/discipline/discipline.service.ts:371-384 | a request that repeats a group id finds fewer groups than ids, so it fails with NotFound |
| Disciplines.FoundUnique | back-nestjs/src/discipline/discipline.service.ts:371-374 | the found groups have distinct ids |
| Disciplines.AcceptedPrefix | back-nestjs/src/discipline/discipline.service.ts:95-116 | how many leading entries the loop applies: none of them is refused, and the entry after them is |
| Disciplines.ApplyPreferences | back-nestjs/src/discipline/discipline.service.ts:95-116 | applying preferences keeps the number of assignments |
| Disciplines.LastPreferenceSpec | back-nestjs/src/discipline/discipline.service.ts:95-116 | the value applied to an assignment id is that of the last entry that gives one for it, or none when no entry does |
| Disciplines.ApplyPreferencesSpec | back-nestjs/src/discipline/discipline.service.ts:95-116 | only the audience type changes, only of assignments the teacher is linked to and some entry names; the others are unchanged |
| Disciplines.ApplyPreferencesValid | back-nestjs/src/discipline/discipline.service.ts:95-116 | applying preferences keeps the registry invariant |
| Disciplines.PreferenceStep | back-nestjs/src/discipline/discipline.service.ts:95-116 | one iteration of the loop applies one more entry on the closed form |
| Disciplines.LookupDecidesRefusal | back-nestjs/src/discipline/discipline.service.ts:95-116 | the `findFirst` in the table as updated so far finds the teacher's assignment, with an audience type that does not exist, exactly when the entry is refused against the table before the loop |
| Disciplines.Registry.AssignTeachers | back-nestjs/src/discipline/discipline.service.ts:487-515 | the registry gains the upserts of the leading entries with existing teachers; the call returns their results in order when all entries were applied, and fails with the rejected upsert's error otherwise; the other tables are unchanged |
| Disciplines.Registry.SendSelectedDisciplines | back-nestjs/src/discipline/discipline.service.ts:353-408 | a plain error and no change for an empty list; NotFound and no change when fewer groups are found than ids; otherwise every existing named record gets exactly the found groups, unknown ids are skipped, and the updated records are returned in request order |
| Disciplines.Registry.SavePreferences | back-nestjs/src/discipline/discipline.service.ts:87-131 | the audience types of the leading accepted entries are set; the call succeeds exactly when no entry was refused and the teacher's text wish exists or the teacher exists, and then the text wish is set to `wishText`; on failure it is NotFound and the text wish is not written |
| Wish.FindTeacher | back-nestjs/src/wish/wish.service.ts:14-16 | `teacher.findUnique({ userId })`: none exactly when no teacher has the user id, otherwise a teacher of the table with that user id |
| Wish.OrNull | back-nestjs/src/wish/wish.service.ts:51-52 | the `or null` fallback: a value exactly when the field is truthy, and then the field itself |
| Wish.Rows | back-nestjs/src/wish/wish.service.ts:42-56 | the inner loop creates exactly one row per entry of the grid |
| Wish.RowsStamps | back-nestjs/src/wish/wish.service.ts:42-56 | the rows of one grid get consecutive ids and creation stamps from the counter on, and all belong to the teacher |
| Wish.RowsAt | back-nestjs/src/wish/wish.service.ts:42-56 | row `i` is made from the grid's entry `i`, in `Object.entries` order |
| Wish.ReplacedSteps | back-nestjs/src/wish/wish.service.ts:26-57 | the two deletions, the optional text wish and the two grids' rows, run in that order, give the tables `Replaced` describes |
| Wish.AddWishesUnknownTeacher | back-nestjs/src/wish/wish.service.ts:18-20 | a user who is no teacher gets a plain error and no table changes |
| Wish.OthersAppend | back-nestjs/src/wish/wish.service.ts:26 | the deletion by teacher works row by row: it distributes over concatenation, and so does its complement |
| Wish.OthersTwice | back-nestjs/src/wish/wish.service.ts:26 | after `deleteMany({ teacherId })` the teacher has no row, and deleting again changes nothing |
| Wish.OthersMembers | back-nestjs/src/wish/wish.service.ts:26 | the schedule-wish deletion keeps exactly the rows of other teachers |
| Wish.OtherTextsMembers | back-nestjs/src/wish/wish.service.ts:27 | the text-wish deletion keeps exactly the text wishes of other teachers |
| Wish.RowsOwned | back-nestjs/src/wish/wish.service.ts:42-56 | every row created for a grid belongs to the teacher |
| Wish.NewRowsOwned | back-nestjs/src/wish/wish.service.ts:39-57 | every row created for both grids belongs to the teacher |
| Wish.ReplaceOwnRows | back-nestjs/src/wish/wish.service.ts:26-57 | deleting a teacher's rows and then adding rows of that teacher: the teacher owns exactly the new rows, the others' rows are unchanged |
| Wish.AddWishesRows | back-nestjs/src/wish/wish.service.ts:10-60 | after `addWishes` the teacher's schedule wishes are one row per entry of the even grid and then of the odd grid, and every other teacher's rows are as before, in order |
| Wish.WishRowFields | back-nestjs/src/wish/wish.service.ts:43-53 | a key `day-slot` gives the day and the time slot, the week bucket's name, and discipline and room copied when truthy and `null` otherwise; a key without a dash gives no time slot |
| Wish.WishRowSecondDash | back-nestjs/src/wish/wish.service.ts:43 | `split('-')` keeps only the text before a second dash: `"Пн-08:30-10:00"` is stored with time slot `"08:30"` |
| Wish.AddWishesText | back-nestjs/src/wish/wish.service.ts:27-36 | the teacher has a text-wish row exactly when the notes are truthy (the row holds no text), and other teachers' text wishes are kept |
| Wish.AscendingCons | back-nestjs/src/wish/wish.service.ts:46-55 | prepending an older row keeps ids below the counter and stamps increasing |
| Wish.TextAscendingCons | back-nestjs/src/wish/wish.service.ts:31-35 | the same for text wishes |
| Wish.OthersAscending | back-nestjs/src/wish/wish.service.ts:26 | the deletion keeps the remaining rows' stamps increasing |
| Wish.OtherTextsAscending | back-nestjs/src/wish/wish.service.ts:27 | the same for text wishes |
| Wish.NewRowsAscending | back-nestjs/src/wish/wish.service.ts:39-57 | the new rows are stamped consecutively from the counter on, so their stamps increase |
| Wish.AppendAscending | back-nestjs/src/wish/wish.service.ts:39-57 | appending newer rows keeps the stamps increasing |
| Wish.ReplacedScheduleAscending | back-nestjs/src/wish/wish.service.ts:10-60 | `addWishes` keeps schedule-wish ids fresh and stamps increasing |
| Wish.ReplacedTextAscending | back-nestjs/src/wish/wish.service.ts:10-60 | `addWishes` keeps text-wish ids fresh and stamps increasing |
| Wish.AddWishesValid | back-nestjs/src/wish/wish.service.ts:10-60 | `addWishes` preserves the table invariant |
| Wish.SortedCons | back-nestjs/src/wish/wish.service.ts:71 | prepending a wish at least as new as the rest keeps the list newest first |
| Wish.InsertDesc | back-nestjs/src/wish/wish.service.ts:71 | one insertion step of the ordering adds exactly the wish to the multiset |
| Wish.InsertDescSorted | back-nestjs/src/wish/wish.service.ts:71 | the insertion step keeps the list newest first |
| Wish.SortDesc | back-nestjs/src/wish/wish.service.ts:69-72 | `orderBy: { createdAt: 'desc' }`: newest first, and a permutation of the table |
| Wish.TagText | back-nestjs/src/wish/wish.service.ts:76 | each text wish tagged `text`, in order |
| Wish.TagSchedule | back-nestjs/src/wish/wish.service.ts:77 | each schedule wish tagged `schedule`, in order |
| Wish.AllWishes | back-nestjs/src/wish/wish.service.ts:62-81 | `getAllWishes`: every text wish first, in table order, then only schedule wishes |
| Wish.AllWishesSchedule | back-nestjs/src/wish/wish.service.ts:69-78 | the schedule part of the listing is newest first and holds each schedule wish exactly as often as the table does |
| Wish.AllWishesOfValid | back-nestjs/src/wish/wish.service.ts:62-81 | with the stamps `addWishes` keeps, the schedule part is the table read backwards |
| Wish.UntagSchedule | back-nestjs/src/wish/wish.service.ts:77 | tagging loses nothing: the schedule wishes come back in order |
| Wish.InsertDescOldest | back-nestjs/src/wish/wish.service.ts:71 | a wish older than all others is inserted last |
| Wish.SortDescOfAscending | back-nestjs/src/wish/wish.service.ts:71 | ordering rows with increasing stamps newest first reverses them |
| Wish.WishStore.CreateBucket | back-nestjs/src/wish/wish.service.ts:42-56 | the inner loop appends exactly the grid's rows, stamped from the counter, and advances the counter by their number |
| Wish.WishStore.ClearTeacher | back-nestjs/src/wish/wish.service.ts:26-36 | both deletions, plus a text-wish row stamped with the counter when the notes are truthy |
| Wish.WishStore.AddWishes | back-nestjs/src/wish/wish.service.ts:10-60 | `addWishes` returns and leaves what `AddWishesPlan` describes, whose properties are the lemmas above |
| Wish.WishStore.GetAllWishes | back-nestjs/src/wish/wish.service.ts:62-81 | returns the listing `AllWishes` of the current tables |
| WishGrid.Toggle | front-react-lvl-2/src/config/pages/wish/GridComponent.tsx:42-57 | a click removes a selected cell and adds an unselected one, empty and last; no other cell changes |
| WishGrid.SetField | front-react-lvl-2/src/config/pages/wish/GridComponent.tsx:72-75 | choosing an option sets the chosen field and keeps the other |
| WishGrid.ToggleTwiceUnselected | front-react-lvl-2/src/config/pages/wish/GridComponent.tsx:42-57 | two clicks on an unselected cell give back the grid exactly, order included |
| WishGrid.ToggleTwiceSelected | front-react-lvl-2/src/config/pages/wish/GridComponent.tsx:42-57 | two clicks on a selected cell select it again but empty: the chosen discipline and room are lost, every other cell is unchanged |
| WishGrid.ChooseOptionCell | front-react-lvl-2/src/config/pages/wish/GridComponent.tsx:59-80 | choosing an option creates the cell when needed, sets the field, keeps the other one, and leaves every other cell alone |
| WishGrid.GridPage.CellClick | front-react-lvl-2/src/config/pages/wish/GridComponent.tsx:42-57 | only the grid of the shown week changes, by `Toggle`; well-formedness is kept |
| WishGrid.GridPage.OptionClick | front-react-lvl-2/src/config/pages/wish/GridComponent.tsx:59-80 | only the grid of the shown week changes, by `ChooseOption`; well-formedness is kept |
| WishGrid.GridPage.ChooseWeek | front-react-lvl-2/src/config/pages/wish/GridComponent.tsx:82-84 | the even week is shown exactly when the value is `"even"`; nothing else changes |
| WishGrid.GridPage.SetNotes | front-react-lvl-2/src/config/pages/wish/GridComponent.tsx:91-96 | the notes become the text; nothing else changes |
| WishGrid.GridPage.Save | front-react-lvl-2/src/config/pages/wish/GridComponent.tsx:86-89 | the request carries both grids and the notes exactly as they stand |
| ConstructorGrid.WithWeek | front-react-lvl-2/src/pages/constructor/GridComponent.tsx:145-162 | `{ ...prev, [weekKey]: copy }`: the shown week's cells replaced, the other week and the counters untouched |
| ConstructorGrid.Choose | front-react-lvl-2/src/store/selectedPairStore.ts:44-51 | choosing an entry toggles the selection, and the callback recreated by that render captures the cells then on screen (dependency list at front-react-lvl-2/src/pages/constructor/GridComponent.tsx:168) |
| ConstructorGrid.ShowWeekOf | front-react-lvl-2/src/pages/constructor/GridComponent.tsx:92-96 | the even week is shown exactly when the value is `"even"`; a change of week recreates `placePair` over that week's cells, no change keeps the old capture |
| ConstructorGrid.PlaceCheck | front-react-lvl-2/src/pages/constructor/GridComponent.tsx:104-142 | the refusals of `placePair`: no selection exactly when there is nothing selected; "no pairs left" only for a new placement with a non-positive counter; "no online pairs" only for an online placement without online pairs; an edit that keeps or drops the online mode is always allowed |
| ConstructorGrid.Place | front-react-lvl-2/src/pages/constructor/GridComponent.tsx:102-169 | `placePair` as written: a refusal changes nothing; a placement writes the placed cell at `day-hour` of the shown week and keeps the selection, the week and the captured cells |
| ConstructorGrid.RemoveAt | front-react-lvl-2/src/pages/constructor/GridComponent.tsx:174-189 | `removePair`: the key is deleted from the shown week and no other cell changes (the pair goes back to the counters) |
| ConstructorGrid.SetRoomAt | front-react-lvl-2/src/pages/constructor/GridComponent.tsx:194-205 | `setRoom`: the cell, or an empty one, gets the room; other cells and the counters are unchanged |
| ConstructorGrid.SetTeacherAt | front-react-lvl-2/src/pages/constructor/GridComponent.tsx:207-218 | `setTeacher`: the cell, or an empty one, gets the teacher; other cells and the counters are unchanged |
| ConstructorGrid.CountPut | front-react-lvl-2/src/pages/constructor/GridComponent.tsx:154-160 | writing a cell changes a discipline's cell count by what leaves the key and what arrives |
| ConstructorGrid.CountRemove | front-react-lvl-2/src/pages/constructor/GridComponent.tsx:183-184 | deleting a key removes exactly that cell from the count |
| ConstructorGrid.StartBalanced | front-react-lvl-2/src/store/selectedPairStore.ts:42 | a board with empty weeks is balanced against the entries the store was given |
| ConstructorGrid.WeekCount | front-react-lvl-2/src/pages/constructor/GridComponent.tsx:145-162 | replacing the shown week's cells moves the count by the difference between the old and the new cells |
| ConstructorGrid.RemoveBalanced | front-react-lvl-2/src/pages/constructor/GridComponent.tsx:174-189 | removing a pair keeps every entry's pairs left plus placed cells equal to its total |
| ConstructorGrid.AnnotateBalanced | front-react-lvl-2/src/pages/constructor/GridComponent.tsx:194-218 | setting a room or a teacher keeps the board balanced |
| ConstructorGrid.IntendedCheck | front-react-lvl-2/src/pages/constructor/GridComponent.tsx:104-142 | the checks `placePair` evidently means, read from the store's current counters: a new placement is allowed only with a pair left, an online one only with an online pair left |
| ConstructorGrid.PlaceIntended | front-react-lvl-2/src/pages/constructor/GridComponent.tsx:102-169 | the corrected placement: a refusal changes nothing, and there is no selection exactly when it answers so |
| ConstructorGrid.EntryStep | front-react-lvl-2/src/pages/constructor/GridComponent.tsx:145-166 | one entry's counter moves against its cell count |
| ConstructorGrid.PlaceIntendedBalanced | front-react-lvl-2/src/pages/constructor/GridComponent.tsx:102-169 | the corrected placement keeps every entry's pairs left plus placed cells equal to its total |
| ConstructorGrid.IntendedEntry | front-react-lvl-2/src/pages/constructor/GridComponent.tsx:145-166 | under the corrected placement an entry's counter moves by the cells it loses minus the cells it gains |
| ConstructorGrid.EditEntry | front-react-lvl-2/src/pages/constructor/GridComponent.tsx:150-166 | re-placing an entry on its own cell leaves its pair count as it was |
| ConstructorGrid.TakeOverEntry | front-react-lvl-2/src/pages/constructor/GridComponent.tsx:145-166 | placing over another entry's cell returns that entry's pair and takes one from the new entry |
| ConstructorGrid.PlaceAgrees | front-react-lvl-2/src/pages/constructor/GridComponent.tsx:102-169 | with a current selection and captured cells, on a free cell or an immediate mode switch, the written placement equals the corrected one |
| ConstructorGrid.StaleSnapshotOverbooks | front-react-lvl-2/src/pages/constructor/GridComponent.tsx:119-124 | as written: with one pair, two placements in two cells both succeed and the board holds two cells against a counter of 0 |
| ConstructorGrid.RepeatedPlacementConsumes | front-react-lvl-2/src/pages/constructor/GridComponent.tsx:145-166 | as written: placing the same entry offline twice on its offline cell takes a second pair for one cell |
| ConstructorGrid.OverwriteLosesPair | front-react-lvl-2/src/pages/constructor/GridComponent.tsx:145-166 | as written: placing one entry over another's cell never returns the other's pair |
| ConstructorGrid.StaleCellSkipsOnline | front-react-lvl-2/src/pages/constructor/GridComponent.tsx:115-117 | as written: the old cell comes from the captured cells, so switching a fresh cell online takes no online pair, where the corrected placement takes it |
| ConstructorGrid.DeferredUpdaterGainsPair | front-react-lvl-2/src/pages/constructor/GridComponent.tsx:145-166 | as written: when React defers the updater, a mode switch with no pair left gains a pair and unbalances the board; run at once it stays balanced |
| ConstructorGrid.GridState.constructor | front-react-lvl-2/src/pages/constructor/GridComponent.tsx:77-90 | both weeks empty, the even week shown |
| ConstructorGrid.GridState.SetWeekCells | front-react-lvl-2/src/pages/constructor/GridComponent.tsx:145-162 | only the shown week's cells are replaced |
| ConstructorGrid.GridState.ShowWeek | front-react-lvl-2/src/pages/constructor/GridComponent.tsx:92-94 | the board becomes `ShowWeekOf` of the old board |
| ConstructorGrid.GridState.ChooseDiscipline | front-react-lvl-2/src/store/selectedPairStore.ts:44-51 | the board becomes `Choose` of the old board |
| ConstructorGrid.GridState.ResetCells | front-react-lvl-2/src/pages/constructor/GridComponent.tsx:85-87 | the semester effect empties both weeks and keeps the captured cells |
| ConstructorGrid.GridState.PlacePair | front-react-lvl-2/src/pages/constructor/GridComponent.tsx:102-169 | the board and outcome are `Place` of the old board, with the counter updates in the order React runs them |
| ConstructorGrid.GridState.RemovePair | front-react-lvl-2/src/pages/constructor/GridComponent.tsx:174-189 | the board becomes `RemoveAt` of the old board |
| ConstructorGrid.GridState.SetRoom | front-react-lvl-2/src/pages/constructor/GridComponent.tsx:194-205 | the board becomes `SetRoomAt` of the old board |
| ConstructorGrid.GridState.SetTeacher | front-react-lvl-2/src/pages/constructor/GridComponent.tsx:207-218 | the board becomes `SetTeacherAt` of the old board |
| PairStores.DecrementEntry | front-react-lvl-2/src/store/selectedPairStore.ts:55-64 | an entry of another id, or with no pair left, is unchanged; otherwise one pair is taken, and one online pair too when online and one is left; name, type and id are kept |
| PairStores.IncrementEntry | front-react-lvl-2/src/store/selectedPairStore.ts:72-81 | an entry of another id is unchanged; otherwise one pair is returned, and one online pair too when online, with no upper bound |
| PairStores.DecrementAll | front-react-lvl-2/src/store/selectedPairStore.ts:53-68 | `disciplines.map`: every entry is decremented in place, the list keeps its length and order |
| PairStores.IncrementAll | front-react-lvl-2/src/store/selectedPairStore.ts:70-85 | `disciplines.map`: every entry is incremented in place, the list keeps its length and order |
| PairStores.DecrementKeepsNonNegative | front-react-lvl-2/src/store/selectedPairStore.ts:56-61 | counters that start non-negative stay non-negative under `decrementPair` |
| PairStores.IncrementUndoesDecrement | front-react-lvl-2/src/store/selectedPairStore.ts:53-85 | `incrementPair` undoes `decrementPair` when every entry with the id had a pair (and, online, an online pair) left |
| PairStores.IncrementAfterExhaustedOnline | front-react-lvl-2/src/store/selectedPairStore.ts:59-60 | the undo needs that condition: with no online pair left, decrement and increment gain an online pair |
| PairStores.Toggle | front-react-lvl-2/src/store/selectedPairStore.ts:44-51 | `toggleDiscipline`: the selection is cleared when the same id is selected, otherwise the item is selected |
| PairStores.ToggleTwice | front-react-lvl-2/src/store/selectedPairStore.ts:44-51 | from no selection two toggles of the same item select nothing; a toggle that selects an item is cleared by the next toggle of that item |
| PairStores.SelectedPairStore.constructor | front-react-lvl-2/src/store/selectedPairStore.ts:38-40 | no entries and no selection |
| PairStores.SelectedPairStore.SetDisciplines | front-react-lvl-2/src/store/selectedPairStore.ts:42 | the entries are replaced and the selection kept |
| PairStores.SelectedPairStore.ToggleDiscipline | front-react-lvl-2/src/store/selectedPairStore.ts:44-51 | the selection becomes `Toggle` of the old one; the entries are kept |
| PairStores.SelectedPairStore.DecrementPair | front-react-lvl-2/src/store/selectedPairStore.ts:53-68 | the entries become `DecrementAll` of the old ones; the selection snapshot is not refreshed |
| PairStores.SelectedPairStore.IncrementPair | front-react-lvl-2/src/store/selectedPairStore.ts:70-85 | the entries become `IncrementAll` of the old ones; the selection snapshot is not refreshed |
| PairStores.SelectedPairStore.ClearSelectedDiscipline | front-react-lvl-2/src/store/selectedPairStore.ts:87 | no selection; entries kept |
| PairStores.UseGroup | front-react-lvl-2/src/store/pairGroupsStore.ts:49-58 | `usePair` on one group: another id or no remaining pair leaves it unchanged; otherwise one pair less remains and one more online pair is used when online, without checking `canBeOnline` |
| PairStores.ReleaseGroup | front-react-lvl-2/src/store/pairGroupsStore.ts:63-71 | `releasePair` on one group: another id leaves it unchanged; otherwise one more remains and one fewer online pair is used when online, with no bound |
| PairStores.UseAll | front-react-lvl-2/src/store/pairGroupsStore.ts:48-60 | every group passes through `UseGroup`, in order |
| PairStores.ReleaseAll | front-react-lvl-2/src/store/pairGroupsStore.ts:62-73 | every group passes through `ReleaseGroup`, in order |
| PairStores.CountersStayNonNegative | front-react-lvl-2/src/store/pairGroupsStore.ts:48-73 | remaining counts that start non-negative stay so under both operations |
| PairStores.ReleaseUndoesUse | front-react-lvl-2/src/store/pairGroupsStore.ts:48-73 | releasing after a use that changed the groups restores them exactly |
| PairStores.ReleaseUnbounded | front-react-lvl-2/src/store/pairGroupsStore.ts:62-73 | releasing without a prior use pushes the online count below zero and the remaining count above the total |
| PairStores.SelectGroupId | front-react-lvl-2/src/store/pairGroupsStore.ts:30-31 | `selectGroup`: cleared exactly when the id is already selected, otherwise the id |
| PairStores.PairGroupsStore.constructor | front-react-lvl-2/src/store/pairGroupsStore.ts:25-27 | no groups and no selection |
| PairStores.PairGroupsStore.SetGroups | front-react-lvl-2/src/store/pairGroupsStore.ts:29 | the groups are replaced and the selection kept |
| PairStores.PairGroupsStore.SelectGroup | front-react-lvl-2/src/store/pairGroupsStore.ts:30-31 | the selection becomes `SelectGroupId` of the old one |
| PairStores.PairGroupsStore.ClearSelection | front-react-lvl-2/src/store/pairGroupsStore.ts:32 | no selection; groups kept |
| PairStores.PairGroupsStore.UsePair | front-react-lvl-2/src/store/pairGroupsStore.ts:48-60 | the groups become `UseAll` of the old ones |
| PairStores.PairGroupsStore.ReleasePair | front-react-lvl-2/src/store/pairGroupsStore.ts:62-73 | the groups become `ReleaseAll` of the old ones |
| GridSave.HalfYear | front-react-lvl-2/src/pages/constructor/GridComponent.tsx:264-266 | the half-year of a semester has half 1 or 2 |
| GridSave.HalfYearSteps | front-react-lvl-2/src/pages/constructor/GridComponent.tsx:264-267 | semester 1 is the second half of the year of admission, and each next semester is the next half-year |
| GridSave.HalfYearCodeInjective | front-react-lvl-2/src/pages/constructor/GridComponent.tsx:264-267 | different semesters of one cohort get different `YYYYHn` codes |
| GridSave.FindRoomId | front-react-lvl-2/src/pages/constructor/GridComponent.tsx:277-279 | `rooms.find(title)?.id`: none exactly when no room has the title, otherwise the id of a room with it |
| GridSave.Alternative | front-react-lvl-2/src/pages/constructor/GridComponent.tsx:283 | an alternative of the two lesson-type alternatives is reported only when the text starts with it in brackets |
| GridSave.TypeMatch | front-react-lvl-2/src/pages/constructor/GridComponent.tsx:283 | the regular-expression search reports a position at or after the start and one of the alternatives |
| GridSave.OddEntry | front-react-lvl-2/src/pages/constructor/GridComponent.tsx:300-311 | the odd-week parse never abandons the save: it keeps the cell or throws |
| GridSave.AlternativeNoParen | front-react-lvl-2/src/pages/constructor/GridComponent.tsx:283 | text that does not start with `(` matches no alternative |
| GridSave.WrappedPrefix | front-react-lvl-2/src/pages/constructor/GridComponent.tsx:283 | `(a)` opens `(kind)` exactly when they are equal |
| GridSave.AlternativeAt | front-react-lvl-2/src/pages/constructor/GridComponent.tsx:283 | `(kind)` matches an alternative exactly when the kind is one |
| GridSave.TypeMatchSkip | front-react-lvl-2/src/pages/constructor/GridComponent.tsx:283 | the search passes over positions holding no `(` |
| GridSave.LabelMatch | front-react-lvl-2/src/pages/constructor/GridComponent.tsx:283-287 | on a placed label with a bracket-free name the pattern matches at the label's bracket exactly when its type is an alternative |
| GridSave.LabelSplit | front-react-lvl-2/src/pages/constructor/GridComponent.tsx:301 | splitting a placed label at `(` gives the name with its trailing space and the type with its `)` |
| GridSave.KindClosed | front-react-lvl-2/src/pages/constructor/GridComponent.tsx:303 | removing the first `)` and trimming gives the plain type back |
| GridSave.SavedPlaced | front-react-lvl-2/src/pages/constructor/GridComponent.tsx:289-295 | a freshly placed cell has an empty room and no teacher, so neither is sent |
| GridSave.EvenLabel | front-react-lvl-2/src/pages/constructor/GridComponent.tsx:281-296 | the even-week parse of a placed label: abandon for an unknown type, otherwise the trimmed name and the type's code |
| GridSave.OddLabel | front-react-lvl-2/src/pages/constructor/GridComponent.tsx:300-311 | the odd-week parse of a placed label: the trimmed name and the type's code, none for an unknown type |
| GridSave.LabelRoundTrip | front-react-lvl-2/src/pages/constructor/GridComponent.tsx:281-311 | a label `placePair` wrote parses back in both weeks to the trimmed name and the code of its type, when the name has no bracket and the type is an alternative |
| GridSave.LabelUnknownType | front-react-lvl-2/src/pages/constructor/GridComponent.tsx:269-311 | with a type outside the alternatives the even week abandons the whole save and the odd week sends the cell without a type |
| GridSave.EntryKindsPlain | front-react-lvl-2/src/pages/constructor/GridComponent.tsx:269-272 | the lesson types have no brackets or surrounding space |
| GridSave.LabPairLost | front-react-lvl-2/src/pages/constructor/GridComponent.tsx:269-284 | as written: a laboratory pair makes the even-week save return without sending, and the odd week sends it without a type |
| GridSave.LabPairSaved | front-react-lvl-2/src/pages/constructor/GridComponent.tsx:269-311 | corrected: with the laboratory type in the pattern and the type map, every entry the constructor creates is sent with its code in both weeks |
| GridSave.BracketedName | front-react-lvl-2/src/pages/constructor/GridComponent.tsx:301-302 | the odd week keeps only the text before the first `(` of a discipline name that holds one |
| GridSave.Parsed | front-react-lvl-2/src/pages/constructor/GridComponent.tsx:281-300 | one parse step per cell, in `Object.entries` order |
| GridSave.StepKeys | front-react-lvl-2/src/pages/constructor/GridComponent.tsx:281-300 | the keys of the steps are the cells' keys, in order |
| GridSave.Values | front-react-lvl-2/src/pages/constructor/GridComponent.tsx:289-305 | the kept cells under their keys, in order |
| GridSave.AllKeptLast | front-react-lvl-2/src/pages/constructor/GridComponent.tsx:281-312 | every step kept iff every step before the last kept and the last did |
| GridSave.CollectKeeps | front-react-lvl-2/src/pages/constructor/GridComponent.tsx:281-312 | the loop finishes exactly when every step keeps its cell |
| GridSave.CollectValues | front-react-lvl-2/src/pages/constructor/GridComponent.tsx:281-312 | with distinct keys, a loop where every step keeps its cell builds the object of those cells, same keys, same order |
| GridSave.ValuesSnoc | front-react-lvl-2/src/pages/constructor/GridComponent.tsx:289-305 | the kept values grow by one entry per step |
| GridSave.ParsedAt | front-react-lvl-2/src/pages/constructor/GridComponent.tsx:281-300 | the step of each cell is under its key |
| GridSave.CollectObject | front-react-lvl-2/src/pages/constructor/GridComponent.tsx:281-312 | steps listed under an object's keys, all kept, build an object with the same keys holding the kept cells |
| GridSave.SaveWeekKeeps | front-react-lvl-2/src/pages/constructor/GridComponent.tsx:281-312 | a week is sent exactly when every one of its cells parses |
| GridSave.SaveWeekValues | front-react-lvl-2/src/pages/constructor/GridComponent.tsx:281-312 | a week whose cells all parse is sent under the same keys in the same order |
| GridSave.SaveWeekCells | front-react-lvl-2/src/pages/constructor/GridComponent.tsx:281-312 | in such a week each key holds its own cell's parse |
| GridSave.CollectStopped | front-react-lvl-2/src/pages/constructor/GridComponent.tsx:284 | once the loop has returned or thrown, later cells change nothing |
| GridSave.ParsedStep | front-react-lvl-2/src/pages/constructor/GridComponent.tsx:281-300 | the `i`-th step is the `i`-th cell's key with its parse |
| GridSave.CollectNext | front-react-lvl-2/src/pages/constructor/GridComponent.tsx:281-312 | one more turn of the loop: a kept cell is assigned to its key, an abandon returns, a throw propagates |
| GridSave.HandleSave | front-react-lvl-2/src/pages/constructor/GridComponent.tsx:274-329 | the outcome of `handleSave` is `SavePlan`: both weeks' loops, then the request with the study plan, the group and the half-year code |
| GridSave.BusyPairs | front-react-lvl-2/src/pages/constructor/GridComponent.tsx:359-368 | `getBusyPairs`: exactly the room's pairs (none for an unknown room) of the shown week, that day and that slot, in order |
| GridSave.BusyWeeksDisjoint | front-react-lvl-2/src/pages/constructor/GridComponent.tsx:359-368 | no pair is busy in both weeks, and an unfetched room has no busy pair |
| ConstructorPairs.Ceil | front-react-lvl-2/src/pages/constructor/Constructor.tsx:20 | `Math.ceil`: the floor or one above it |
| ConstructorPairs.FloorOfQuotient | front-react-lvl-2/src/pages/constructor/Constructor.tsx:17-21 | the floor of `(17q + r) / 17` with `r < 17` is `q` |
| ConstructorPairs.RoundPairsHalfUp | front-react-lvl-2/src/pages/constructor/Constructor.tsx:17-21 | `roundPairs` on whole hours equals integer division by 17, plus one when the remainder is at least 9 |
| ConstructorPairs.PairsMonotone | front-react-lvl-2/src/pages/constructor/Constructor.tsx:17-21 | more hours never give fewer pairs |
| ConstructorPairs.PairsPositive | front-react-lvl-2/src/pages/constructor/Constructor.tsx:17-21 | hours round to at least one pair exactly when there are at least 9 |
| ConstructorPairs.TypeEntrySpec | front-react-lvl-2/src/pages/constructor/Constructor.tsx:92-132 | a lesson type gets an entry exactly when its in-person plus online hours round to a pair; the entry carries the name, the type, that total and the rounded online hours, never more online pairs than pairs |
| ConstructorPairs.EntriesFresh | front-react-lvl-2/src/pages/constructor/Constructor.tsx:79-135 | a discipline yields at most three entries, each with a positive counter and no more online pairs than pairs |
| ConstructorPairs.GenerateSource | front-react-lvl-2/src/pages/constructor/Constructor.tsx:76-135 | every generated entry comes from a semester-1 discipline of the input |
| ConstructorPairs.GenerateComplete | front-react-lvl-2/src/pages/constructor/Constructor.tsx:76-135 | every entry of every semester-1 discipline is generated |
| ConstructorPairs.GenerateFresh | front-react-lvl-2/src/pages/constructor/Constructor.tsx:76-137 | the list handed to `setDisciplines` satisfies the counter invariant of the selected-pair store |
| ConstructorPairs.Numbered | front-react-lvl-2/src/config/pages/constructor/Constructor.tsx:91-100 | `pushPairs(count, type)` appends exactly `count` pairs |
| ConstructorPairs.NumberedAt | front-react-lvl-2/src/config/pages/constructor/Constructor.tsx:91-100 | pair `i` of a block is numbered `i + 1`, with the block's name and type |
| ConstructorPairs.PushPairs | front-react-lvl-2/src/config/pages/constructor/Constructor.tsx:91-100 | the loop appends exactly the numbered block to the result |
| ConstructorPairs.FieldList | front-react-lvl-2/src/config/pages/constructor/Constructor.tsx:102-111 | the six hour fields are tried in the page's order, each with its own type label |
| ConstructorPairs.OldPairsCount | front-react-lvl-2/src/config/pages/constructor/Constructor.tsx:102-111 | the older page yields one pair per rounded pair of each truthy hour field |
| ConstructorPairs.OldPairsAt | front-react-lvl-2/src/config/pages/constructor/Constructor.tsx:102-111 | each pair comes from a truthy field, has that field's type and the discipline's name, and a number between 1 and that field's rounded pairs |
| ConstructorPairs.PairsOfFieldsStep | front-react-lvl-2/src/config/pages/constructor/Constructor.tsx:102-111 | one field step of the older page appends that field's block |
| ConstructorPairs.PushFieldStep | front-react-lvl-2/src/config/pages/constructor/Constructor.tsx:102-111 | one `if (field) pushPairs(...)` step keeps the result equal to the pairs of the fields so far |
| ConstructorPairs.OldDisciplinePairs | front-react-lvl-2/src/config/pages/constructor/Constructor.tsx:73-114 | the older page's callback returns exactly the pairs of the six fields, in order |
| ConstructorPairs.PagesDisagree | front-react-lvl-2/src/pages/constructor/Constructor.tsx:92-104 | the two pages disagree: 8 lecture hours and 8 online lecture hours give one lecture entry of one pair in the current page and no pair in the older one |
| ConstructorPairs.KeysSeen | front-react-lvl-2/src/pages/constructor/Constructor.tsx:55 | the group key of every wish, in order |
| ConstructorPairs.GroupedKeys | front-react-lvl-2/src/pages/constructor/Constructor.tsx:54-69 | a teacher has a group exactly when some wish carries its key |
| ConstructorPairs.AddToGroupAt | front-react-lvl-2/src/pages/constructor/Constructor.tsx:55-68 | one `reduce` step touches only the wish's group: a text wish sets the text, a schedule wish is appended, the group is created when missing |
| ConstructorPairs.GroupedSchedule | front-react-lvl-2/src/pages/constructor/Constructor.tsx:54-69 | a teacher's group lists exactly that teacher's schedule wishes, in input order |
| ConstructorPairs.GroupedText | front-react-lvl-2/src/pages/constructor/Constructor.tsx:54-69 | a teacher's group text is the content of that teacher's last text wish, `null` when there is none |
| ConstructorPairs.GroupWishes | front-react-lvl-2/src/pages/constructor/Constructor.tsx:54-69 | the `reduce` run as a loop over the wishes gives `Grouped` |
| BusyMaps.CodeInjective | front-react-lvl-2/src/pages/BusyResourcePage/BusyResourcePage.tsx:44 | `${year}H${half}` codes with a one-digit half are equal only for equal years and halves |
| BusyMaps.ResourceOptions | front-react-lvl-2/src/pages/BusyResourcePage/BusyResourcePage.tsx:40-47 | the teacher and room page lists ten options, two halves a year from 2021 |
| BusyMaps.ResourceOptionsDistinct | front-react-lvl-2/src/pages/BusyResourcePage/BusyResourcePage.tsx:40-47 | the ten options are all different |
| BusyMaps.GroupOptions | front-react-lvl-2/src/pages/constructor/busyMapGroup.tsx/BusyGroupPageConstructor.tsx:211-218 | the group page lists eight options, two halves a year from the year of admission, half 1 first |
| BusyMaps.GroupOptionDisagrees | front-react-lvl-2/src/pages/constructor/busyMapGroup.tsx/BusyGroupPageConstructor.tsx:211-218 | as written: the option the group page labels semester `s` is never the half-year the constructor grid saves semester `s` under |
| BusyMaps.GroupOptionIntendedAgrees | front-react-lvl-2/src/pages/constructor/busyMapGroup.tsx/BusyGroupPageConstructor.tsx:211-218 | corrected: the option for semester `s` is the half-year code the constructor grid uses for semester `s` |
| BusyMaps.GroupOptionIntendedInjective | front-react-lvl-2/src/pages/constructor/busyMapGroup.tsx/BusyGroupPageConstructor.tsx:211-218 | corrected: different semesters get different options |
| BusyMaps.FirstSemesterCodes | front-react-lvl-2/src/pages/constructor/busyMapGroup.tsx/BusyGroupPageConstructor.tsx:211-218 | on semester 1 the group page offers half 1 of the year of admission and the grid saves under half 2 |
| BusyMaps.RuDayOther | front-react-lvl-2/src/pages/BusyResourcePage/BusyResourcePage.tsx:92 | the day-name lookup with its fallback shows any code that is not a day name as it is |
| BusyMaps.RuDayInjective | front-react-lvl-2/src/pages/BusyResourcePage/BusyResourcePage.tsx:25-33 | different days get different Russian names |
| BusyMaps.PartitionExact | front-react-lvl-2/src/pages/BusyResourcePage/BusyResourcePage.tsx:83-84 | the two filters split the busy slots exactly: each slot lands in the part its week type says, nothing is added or lost |
| BusyMaps.PartitionMultiset | front-react-lvl-2/src/pages/BusyResourcePage/BusyResourcePage.tsx:83-84 | together the two filters keep every busy slot once: nothing is added or lost |
| BusyMaps.PartitionMembers | front-react-lvl-2/src/pages/BusyResourcePage/BusyResourcePage.tsx:83-84 | a slot is in the parity part exactly when it has a week type, and in the other part exactly when it has none |
| BusyMaps.BuildBuckets | front-react-lvl-2/src/pages/BusyResourcePage/BusyResourcePage.tsx:86-115 | the `for … of` loop builds the bucket object `Buckets` describes |
| BusyMaps.AddSlotAt | front-react-lvl-2/src/pages/BusyResourcePage/BusyResourcePage.tsx:90-97 | one pass of the loop appends the slot to its own bucket only, when it is chosen |
| BusyMaps.BucketsSpec | front-react-lvl-2/src/pages/BusyResourcePage/BusyResourcePage.tsx:86-115 | each bucket holds exactly the chosen slots with its key, in input order, and exists only when non-empty |
| BusyMaps.SelectedAtMembers | front-react-lvl-2/src/pages/BusyResourcePage/BusyResourcePage.tsx:90-97 | a slot is in a bucket exactly when it is an input slot, chosen, with that key |
| BusyMaps.ParityPartSelects | front-react-lvl-2/src/pages/BusyResourcePage/BusyResourcePage.tsx:86-99 | the parity table shows exactly the slots of the chosen week parity |
| BusyMaps.NumberedPartSelects | front-react-lvl-2/src/pages/BusyResourcePage/BusyResourcePage.tsx:101-115 | the numbered table shows exactly the slots without parity whose week number is the chosen one |
| BusyMaps.CellFreeIffNoSlot | front-react-lvl-2/src/pages/BusyResourcePage/BusyResourcePage.tsx:139-145 | a cell shows `Свободно` exactly when no chosen slot has its key, and otherwise lists those slots in input order |
| Parser.Matches | back-nestjs/src/parser/utils/createSemesterWeeks.ts:4 | one match attempt per position of the text, the attempt at position j being the marker test and number read at j |
| Parser.FirstSomeSkip | back-nestjs/src/parser/utils/createSemesterWeeks.ts:4 | positions that do not match can be skipped without changing the first match |
| Parser.FirstSomeNone | back-nestjs/src/parser/utils/createSemesterWeeks.ts:4 | the search finds nothing exactly when no position matches |
| Parser.FirstSomeLeftmost | back-nestjs/src/parser/utils/createSemesterWeeks.ts:4 | what the search finds is the match at some position with no match before it |
| Parser.ExtractWeekNone | back-nestjs/src/parser/utils/createSemesterWeeks.ts:2-6 | extractWeek falls back to 0 exactly when the text holds no marker followed by white space and digits |
| Parser.ExtractWeekLeftmost | back-nestjs/src/parser/utils/createSemesterWeeks.ts:2-6 | a week read comes from the leftmost match in the text |
| Parser.TrimStartSpaces | back-nestjs/src/parser/utils/createSemesterWeeks.ts:4 | the white space the pattern allows after the marker is skipped up to the first non-space |
| Parser.DigitNotSpace | back-nestjs/src/parser/utils/createSemesterWeeks.ts:4 | a digit ends the white-space run of the pattern |
| Parser.ExtractWeekOf | back-nestjs/src/parser/utils/createSemesterWeeks.ts:2-6 | text with the marker, spaces and the digits of n, with no earlier marker letter and no digit after, yields n |
| Parser.ExtractWeekAt | back-nestjs/src/parser/utils/createSemesterWeeks.ts:2-6 | a match at k with none before it is the week returned |
| Parser.NoMatchBefore | back-nestjs/src/parser/utils/createSemesterWeeks.ts:4 | no match can start inside text that lacks the marker's first letter |
| Parser.MatchAtMarker | back-nestjs/src/parser/utils/createSemesterWeeks.ts:4 | at the marker the pattern reads the number written after the spaces |
| Parser.MatchAtOf | back-nestjs/src/parser/utils/createSemesterWeeks.ts:4 | a marker at k followed by a number after trimming is a match at k with that number |
| Parser.ExtractWeekExample | back-nestjs/src/parser/utils/createSemesterWeeks.ts:2-6 | the cell text "ТО: 18" gives 18 weeks |
| Parser.ExtractWeekOfNumber | back-nestjs/src/parser/utils/createSemesterWeeks.ts:2-6 | a numeric cell never holds the marker and so gives 0 |
| Parser.FullTimeIncluded | back-nestjs/src/parser/utils/extractDisciplines.ts:82-104 | for the full-time form a row is pushed for a semester exactly when one of its seven hour or control cells for that semester is filled |
| Parser.PartTimeAllRows | back-nestjs/src/parser/utils/extractDisciplines.ts:52 | for the part-time form every scanned row is pushed, in row order, with its hour fields undefined |
| Parser.Push | back-nestjs/src/parser/utils/extractDisciplines.ts:91-94 | pushing under a key creates the list when missing, appends the row at its end and leaves every other key untouched |
| Parser.ScanSheet | back-nestjs/src/parser/utils/extractDisciplines.ts:38-129 | after the row loop each of the sheet's two semester keys holds exactly the rows included for it, in row order, and is absent when none is; every other key is unchanged |
| Parser.CountWeeks | back-nestjs/src/parser/utils/extractDisciplines.ts:33-36 | two week-count cells are collected per course sheet |
| Parser.CourseHeldKept | back-nestjs/src/parser/utils/extractDisciplines.ts:28-130 | reading a later course sheet does not disturb the semesters of an earlier one |
| Parser.ExtractDisciplines | back-nestjs/src/parser/utils/extractDisciplines.ts:4-133 | countWeeks holds the eight week cells of sheets 8 to 11 in order, semesters 2i+1 and 2i+2 hold exactly the rows included from sheet 8+i, and no other semester key appears |
| Parser.StripDigitsAndDots | back-nestjs/src/parser/utils/extractDataFromFirstSheet.ts:27 | removing digits and dots never lengthens the text |
| Parser.StripDigitsAndDotsSpec | back-nestjs/src/parser/utils/extractDataFromFirstSheet.ts:27 | the result holds no digit and no dot and only characters of the input, and text without either is unchanged |
| Parser.TrailingRun | back-nestjs/src/parser/utils/extractDataFromFirstSheet.ts:33 | the result is the longest space-free suffix of the text |
| Parser.TrailingWord | back-nestjs/src/parser/utils/extractDataFromFirstSheet.ts:33 | reading the last word fails exactly when the text is empty or ends in white space |
| Parser.TrailingWordSpec | back-nestjs/src/parser/utils/extractDataFromFirstSheet.ts:36 | the word read is a non-empty space-free suffix preceded by white space or by nothing |
| Parser.FirstSheetSpec | back-nestjs/src/parser/utils/extractDataFromFirstSheet.ts:6-66 | the title sheet is read exactly when programme, qualification and form cells hold text and the last two end in a word; the other fields are the raw cells and the programme holds no digit or dot |
| Parser.TrimWithinSlice | back-nestjs/src/parser/utils/extractDataFromFirstSheet.ts:28 | trimming keeps only characters of its input |
| ReferenceTables.Find | back-nestjs/src/building/building.service.ts:14-15 | a lookup by id finds nothing exactly when no row has the id, and otherwise a row of the table with that id |
| ReferenceTables.Replace | back-nestjs/src/building/building.service.ts:57 | a database update rewrites the row with that id and leaves every other row where it was |
| ReferenceTables.Without | back-nestjs/src/building/building.service.ts:67 | a database delete keeps every row with another id and nothing with that id |
| ReferenceTables.GetRowSpec | back-nestjs/src/building/building.service.ts:14-20 | getById throws NotFound exactly when the id is unknown and otherwise returns the row with that id |
| ReferenceTables.CreateKeepsUnique | back-nestjs/src/building/building.service.ts:26-38 | create throws Conflict exactly when the title is taken; otherwise it appends the one new row and ids and titles stay unique |
| ReferenceTables.UpdateKeepsUnique | back-nestjs/src/building/building.service.ts:40-58 | update throws NotFound exactly for an unknown id and Conflict exactly when another row has the title; otherwise only that row is rewritten and ids and titles stay unique |
| ReferenceTables.WithoutUnique | back-nestjs/src/building/building.service.ts:67 | removing rows keeps ids and titles distinct |
| ReferenceTables.DeleteRemovesRow | back-nestjs/src/building/building.service.ts:60-70 | delete throws NotFound exactly for an unknown id, fails when other rows still refer to the row, and otherwise removes exactly that row |
| ReferenceTables.TitleTable.constructor | back-nestjs/src/building/building.service.ts:12 | a service starts from the table as given; the same class stands for the position, department, equipment and audience-type services |
| ReferenceTables.TitleTable.GetById | back-nestjs/src/building/building.service.ts:14-20 | the method returns what the lookup specification gives and changes nothing; the same class stands for the position, department, equipment and audience-type services |
| ReferenceTables.TitleTable.GetAll | back-nestjs/src/building/building.service.ts:22-24 | getAll lists the table's rows in table order; the same class stands for the position, department, equipment and audience-type services |
| ReferenceTables.TitleTable.Create | back-nestjs/src/building/building.service.ts:26-38 | on Conflict the table is unchanged; otherwise the new row is returned and appended, as the create specification says; the same class stands for the position, department, equipment and audience-type services |
| ReferenceTables.TitleTable.Update | back-nestjs/src/building/building.service.ts:40-58 | on NotFound or Conflict the table is unchanged; otherwise the rewritten row is returned and the table is the update specification's result; the same class stands for the position, department, equipment and audience-type services |
| ReferenceTables.TitleTable.Delete | back-nestjs/src/building/building.service.ts:60-70 | on an error the table is unchanged; otherwise the table is the delete specification's result; the same class stands for the position, department, equipment and audience-type services |
| ReferenceTables.UpdateGroupSpec | back-nestjs/src/group/group.service.ts:45-64 | the group update fails only for an unknown id, never with Conflict, writes title and student count and keeps the group's other fields and every other row |
| ReferenceTables.UpdateGroupDuplicates | back-nestjs/src/group/group.service.ts:45-64 | renaming group g2 to the title of group g1 succeeds and leaves two groups with one title |
| ReferenceTables.UpdateGroupCheckedUnique | back-nestjs/src/group/group.service.ts:31-43 | with the title check create already makes, the group update throws Conflict exactly when another group has the title and keeps titles unique |
| ReferenceTables.LinksFor | back-nestjs/src/Audience/audience.service.ts:79-84 | one equipment link per listed id, in list order, all for the given audience |
| ReferenceTables.UnlinkAll | back-nestjs/src/Audience/audience.service.ts:115 | removing an audience's links keeps exactly the links of other audiences |
| ReferenceTables.LinkedIds | back-nestjs/src/Audience/audience.service.ts:44-47 | the ids listed for an audience are exactly the equipment it is linked to |
| ReferenceTables.Records | back-nestjs/src/Audience/audience.service.ts:44-47 | the flattened equipment list holds only equipment rows whose ids are linked |
| ReferenceTables.GetAllAudiences | back-nestjs/src/Audience/audience.service.ts:35-49 | getAll lists every audience row, in table order |
| ReferenceTables.GetAllAgreesWithGetById | back-nestjs/src/Audience/audience.service.ts:14-49 | with unique ids each entry of getAll is what getById returns for its row |
| ReferenceTables.CreateAudienceLinks | back-nestjs/src/Audience/audience.service.ts:51-89 | create throws Conflict exactly when the title is taken and rolls back exactly when a referenced row is missing; otherwise it appends the row, links it to exactly the listed equipment in order and leaves other audiences' links alone |
| ReferenceTables.LinkedIdsAppend | back-nestjs/src/Audience/audience.service.ts:79-84 | the links of appended link lists are read in order |
| ReferenceTables.LinkedIdsNone | back-nestjs/src/Audience/audience.service.ts:64-89 | an audience without links lists no equipment |
| ReferenceTables.LinkedIdsOwn | back-nestjs/src/Audience/audience.service.ts:79-84 | the links created for an audience list back exactly the ids given |
| ReferenceTables.LinkedIdsOther | back-nestjs/src/Audience/audience.service.ts:79-84 | the links created for one audience list nothing for another |
| ReferenceTables.UnlinkAllIds | back-nestjs/src/Audience/audience.service.ts:115 | after removing an audience's links it lists no equipment and every other audience lists what it did |
| ReferenceTables.UpdateAudienceLinks | back-nestjs/src/Audience/audience.service.ts:91-127 | update throws NotFound exactly for an unknown id and rolls back exactly when the patch names a missing row; given ids replace the audience's links (an empty list clears them), no ids leave them, and other audiences keep theirs |
| ReferenceTables.UpdateAudienceFields | back-nestjs/src/Audience/audience.service.ts:99-112 | each field of the updated audience is the patch's value when given and the old value otherwise |
| ReferenceTables.DeleteAudienceSpec | back-nestjs/src/Audience/audience.service.ts:129-143 | delete throws NotFound exactly for an unknown id, rolls back when the audience is still referred to, and otherwise removes the row and all its links and nothing else |
| ReferenceTables.UpdateAudienceDuplicates | back-nestjs/src/Audience/audience.service.ts:91-127 | renaming audience a2 to the title of audience a1 succeeds and leaves two audiences with one title |
| ReferenceTables.UpdateAudienceCheckedUnique | back-nestjs/src/Audience/audience.service.ts:51-62 | with the title check create already makes, the audience update keeps titles unique |
| Users.TranslitChar | front-react-lvl-2/src/services/user/users.service.ts:78 | a character becomes its table entry when that entry is non-empty and stays itself otherwise, so the result is never empty |
| Users.Transliterate | front-react-lvl-2/src/services/user/users.service.ts:76-79 | transliteration never shortens the text |
| Users.TransliterateAppend | front-react-lvl-2/src/services/user/users.service.ts:76-79 | transliteration works character by character, so it distributes over concatenation |
| Users.TransliterateUnmapped | front-react-lvl-2/src/services/user/users.service.ts:76-79 | text with no letter the table changes is left as it is |
| Users.SignsKept | front-react-lvl-2/src/services/user/users.service.ts:70-78 | the soft and hard signs, whose entries are empty, come out unchanged instead of being dropped |
| Users.TranslitCharIntended | front-react-lvl-2/src/services/user/users.service.ts:7-74 | the table read as meant: a sign becomes nothing, and every other character is treated as the code treats it |
| Users.TransliterateIntendedAppend | front-react-lvl-2/src/services/user/users.service.ts:76-79 | the intended transliteration distributes over concatenation |
| Users.SignDropped | front-react-lvl-2/src/services/user/users.service.ts:70-73 | a soft or hard sign anywhere in a name leaves no trace in the intended transliteration |
| Users.TransliterateIntendedAgrees | front-react-lvl-2/src/services/user/users.service.ts:76-79 | on text without signs the intended and the written transliteration agree |
| Users.Upper | front-react-lvl-2/src/services/user/users.service.ts:98 | upper-casing leaves no lower-case letter and keeps every character that is not a lower-case letter |
| Users.Lower | front-react-lvl-2/src/services/user/users.service.ts:99 | lower-casing leaves no upper-case letter and keeps every character that is not an upper-case letter |
| Users.LowerAll | front-react-lvl-2/src/services/user/users.service.ts:99 | lower-casing a text lower-cases each character in place |
| Users.GenerateLogin | front-react-lvl-2/src/services/user/users.service.ts:94-102 | the login is the transliterated last name, same letters up to case, its first letter not lower-case and the rest not upper-case, followed by the decimal digits of the random suffix |
| Users.CapitalizedLower | front-react-lvl-2/src/services/user/users.service.ts:97-99 | capitalising a word does not change it up to case |
| Users.GenerateTempPassword | front-react-lvl-2/src/services/user/users.service.ts:83-91 | the temporary password has twelve characters, the k-th being the allowed character at the k-th draw |
| Users.DefaultRole | front-react-lvl-2/src/services/user/users.service.ts:127 | a missing or empty role becomes TEACHER and any other role is kept |
| Users.BuildCreateRequest | front-react-lvl-2/src/services/user/users.service.ts:105-130 | the posted request carries the generated login and a twelve-character temporary password, the password 123456, the form's names and ids, and the role with TEACHER by default |
| Roles.TranslateAll | front-react-lvl-2/src/components/utils/translateRoles.ts:10-13 | one translated part per input part |
| Roles.TranslateRoleShape | front-react-lvl-2/src/components/utils/translateRoles.ts:10-13 | a translated part is trimmed, is no role code, and has no comma when the part had none |
| Roles.NameShape | front-react-lvl-2/src/components/utils/translateRoles.ts:2-6 | the three Russian role names are trimmed, comma-free and no role code |
| Roles.WordShape | front-react-lvl-2/src/components/utils/translateRoles.ts:2-6 | a name with no space at either end and no comma is its own trim |
| Roles.TranslateRoleFixed | front-react-lvl-2/src/components/utils/translateRoles.ts:10-13 | translating a translated part changes nothing |
| Roles.TrimLeadingSpace | front-react-lvl-2/src/components/utils/translateRoles.ts:11 | the space the join adds before a part disappears when that part is trimmed |
| Roles.SplitJoinComma | front-react-lvl-2/src/components/utils/translateRoles.ts:8-14 | joining comma-free parts with a comma and a space and splitting again at commas gives the parts back, each but the first with one leading space |
| Roles.RolesParts | front-react-lvl-2/src/components/utils/translateRoles.ts:1-15 | the result has as many comma-separated parts as the input, and its i-th part, trimmed, is the translation of the i-th input part |
| Roles.TranslateAllShape | front-react-lvl-2/src/components/utils/translateRoles.ts:10-13 | every translated part of a split list is trimmed, comma-free and no role code |
| Roles.SpacedPieceTrim | front-react-lvl-2/src/components/utils/translateRoles.ts:11 | trimming one split-again piece gives the part back |
| Roles.SpacedTrim | front-react-lvl-2/src/components/utils/translateRoles.ts:11 | trimming the split-again pieces gives the parts back |
| Roles.TranslateRolesIdempotent | front-react-lvl-2/src/components/utils/translateRoles.ts:1-15 | translating an already translated role list changes nothing |
| Roles.TranslateRolesEmpty | front-react-lvl-2/src/components/utils/translateRoles.ts:1-15 | an empty role list stays empty |
| Calendar.SameWeekday | back-nestjs/src/holiday/holiday.service.ts:98-102 | two dates fall on the same weekday exactly when they are a whole number of weeks apart |
| Calendar.YearWeeksSnoc | back-nestjs/seedAcademicWeeks.ts:29-38 | the first n seeded weeks of a year are the first n-1 followed by week n |
| Calendar.RowInYear | back-nestjs/seedAcademicWeeks.ts:19-38 | a row inside the block of one academic year belongs to that year, at the offset inside the block |
| Calendar.NextRow | back-nestjs/seedAcademicWeeks.ts:19-38 | the row after a week is the next week of the same year, or week 1 of the next year after week 52 |
| Calendar.AcademicWeekTable.constructor | back-nestjs/seedAcademicWeeks.ts:7-10 | the seeding starts from an empty week table |
| Disciplines.KeepCommon | back-nestjs/src/discipline/discipline.service.ts:284-290 | the reduce over the plans never introduces a repeated name |
| Disciplines.CommonNames | back-nestjs/src/discipline/discipline.service.ts:284-290 | the names common to every plan are listed without repetition |
| Disciplines.FoundUniqueGroups | back-nestjs/src/discipline/discipline.service.ts:235-238 | the groups found for the requested ids have distinct ids |
| Disciplines.UpdatedWithin | back-nestjs/src/discipline/discipline.service.ts:393-405 | every record returned is a record of the table whose id was requested |
| Disciplines.UpdatedStable | back-nestjs/src/discipline/discipline.service.ts:393-405 | records a later iteration does not touch give the same returned list |
| Disciplines.IndexOfRecordSameIds | back-nestjs/src/discipline/discipline.service.ts:389-392 | the lookup by record id depends only on the ids of the records |
| Disciplines.SendStepState | back-nestjs/src/discipline/discipline.service.ts:387-406 | one loop iteration rewrites the groups of the record with the next id when there is one and changes nothing otherwise |
| Disciplines.SendStepUpdated | back-nestjs/src/discipline/discipline.service.ts:387-406 | one loop iteration appends the record it rewrote to the returned list, or nothing when the id is unknown |
| Disciplines.IndexOfLinked | back-nestjs/src/discipline/discipline.service.ts:96-104 | the lookup finds nothing exactly when no assignment with that id lists the teacher, and otherwise the first assignment that does |
| Disciplines.Registry.constructor | back-nestjs/src/discipline/discipline.service.ts:8 | the service starts from the given tables with no teacher assignment, no text wish and a fresh id counter |
| Holiday.RecurringAdvance | back-nestjs/src/holiday/holiday.service.ts:104-110 | the pairs created by one more iteration of the recurring loop are appended to those created before, with ids continuing from them |
| Holiday.SortedCons | back-nestjs/src/holiday/holiday.service.ts:124-128 | a pair no later than every pair of a sorted list can go first |
| Schedule.MaterializeAll | back-nestjs/src/schedule/schedule.service.ts:79-111 | one created pair per draft |
| Schedule.LinksOf | back-nestjs/src/schedule/schedule.service.ts:99-109 | one link row per target id |
| Schedule.CanonicalLabelNoHyphen | back-nestjs/src/schedule/schedule.service.ts:74-93 | a slot label built from hyphen-free times has no hyphen, so the key splits at the day |
| Schedule.DistanceFold | back-nestjs/src/schedule/schedule.service.ts:272-285 | the fold over the pairs yields the four week maps when it succeeds |
| Schedule.DistanceFoldLast | back-nestjs/src/schedule/schedule.service.ts:272-285 | the fold over a list is the fold over all but its last pair followed by one step for that pair |
| Schedule.KeysFromPairsStep | back-nestjs/src/schedule/schedule.service.ts:273-278 | after one step every key of a week map still comes from a pair of that week |
| Schedule.FilterAll | back-nestjs/src/schedule/schedule.service.ts:214 | when every creation is accepted, the filter keeps them all |
| Wish.WishStore.constructor | back-nestjs/src/wish/wish.service.ts:8 | the service starts from the teachers with no wish rows and a fresh stamp counter |
| WishGrid.GridPage.constructor | front-react-lvl-2/src/config/pages/wish/GridComponent.tsx:31-40 | the page starts with both week grids empty, the even week shown and no notes |
| Text.DashSpanIsLeftmostLongest | back-nestjs/src/schedule/schedule.service.ts:77 | the span replaced is the leftmost match of optional spaces, an em dash and optional spaces, taken as long as the greedy spaces allow, and there is none without an em dash |
| Text.ReplaceDashNoDash | back-nestjs/src/schedule/schedule.service.ts:77 | text without an em dash is left as it is |
| Text.ReplaceDashCanonical | back-nestjs/src/schedule/schedule.service.ts:73-77 | the label "a — b" becomes the id "a-b" |
| Text.ReplaceFirst | front-react-lvl-2/src/pages/constructor/GridComponent.tsx:303 | replacing with a plain-string pattern leaves text without the pattern unchanged |
| Text.Split | back-nestjs/src/schedule/schedule.service.ts:90 | splitting at a character gives at least one piece and no piece holds that character |
| Text.JoinSplit | back-nestjs/src/schedule/schedule.service.ts:90 | joining the pieces with the separator gives the text back |
| Text.SplitLimit | back-nestjs/src/schedule/schedule.service.ts:75 | a split with a limit gives the first pieces of the full split, as many as the limit allows |
| BusyMaps.Code | front-react-lvl-2/src/pages/BusyResourcePage/BusyResourcePage.tsx:44 | the half-year code `${year}H${half}` of the page's options; CodeInjective states that distinct years and halves below 10 give distinct codes |
| BusyMaps.OptionHalf | front-react-lvl-2/src/pages/BusyResourcePage/BusyResourcePage.tsx:42 | `i % 2 === 0 ? 1 : 2`: the half of option `i` |
| BusyMaps.ResourceOption | front-react-lvl-2/src/pages/BusyResourcePage/BusyResourcePage.tsx:40-47 | option `i` of the teacher and room page: year `2021 + ⌊i / 2⌋`, first half for even `i`; ResourceOptions and ResourceOptionsDistinct state the ten options and that no two coincide |
| BusyMaps.GroupOption | front-react-lvl-2/src/pages/constructor/busyMapGroup.tsx/BusyGroupPageConstructor.tsx:211-218 | option `i` of the group page as the code computes it; GroupOptionDisagrees and FirstSemesterCodes show where it leaves the half-year the grid saves under |
| BusyMaps.GroupOptionIntended | front-react-lvl-2/src/pages/constructor/busyMapGroup.tsx/BusyGroupPageConstructor.tsx:211-218 | the half-year the constructor grid saves semester `i + 1` under; GroupOptionIntendedAgrees and GroupOptionIntendedInjective state that it matches the grid and tells semesters apart |
| BusyMaps.RuDay | front-react-lvl-2/src/pages/BusyResourcePage/BusyResourcePage.tsx:25-33 | `ruDayMap[code]`, or the code when that is falsy: the Russian name of MON … SUN, the code itself otherwise; RuDayInjective and RuDayOther state both cases |
| BusyMaps.WithParity | front-react-lvl-2/src/pages/BusyResourcePage/BusyResourcePage.tsx:83 | `weekTypeNotNull`: the slots with a week type, in input order; PartitionExact, PartitionMultiset and PartitionMembers relate it to WithoutParity |
| BusyMaps.WithoutParity | front-react-lvl-2/src/pages/BusyResourcePage/BusyResourcePage.tsx:84 | `weekTypeNull`: the slots without a week type, in input order; the partition lemmas relate it to WithParity |
| BusyMaps.Selected | front-react-lvl-2/src/pages/BusyResourcePage/BusyResourcePage.tsx:90-106 | the negated `continue` test of both loops: the chosen parity for slots with a week type, the chosen week number for the others |
| BusyMaps.SlotKey | front-react-lvl-2/src/pages/BusyResourcePage/BusyResourcePage.tsx:92-94 | the bucket key `${dayLabel}-${slotLabel}` with the day translated by RuDay |
| BusyMaps.AddSlot | front-react-lvl-2/src/pages/BusyResourcePage/BusyResourcePage.tsx:90-97 | one pass of the loop body; AddSlotAt states that a selected slot is appended to its key's bucket and every other key is untouched |
| BusyMaps.Buckets | front-react-lvl-2/src/pages/BusyResourcePage/BusyResourcePage.tsx:86-115 | the object both loops build; BuildBuckets and BucketsSpec state that each key holds exactly SelectedAt, the selected slots with that key in input order |
| BusyMaps.SelectedAt | front-react-lvl-2/src/pages/BusyResourcePage/BusyResourcePage.tsx:90-97 | the reference definition the buckets are proved against; SelectedAtMembers states its members |
| BusyMaps.ShowCell | front-react-lvl-2/src/pages/BusyResourcePage/BusyResourcePage.tsx:139-145 | the cell renderer; CellFreeIffNoSlot states that a cell shows "Свободно" exactly when no selected slot has its key |
| Calendar.AcademicYearLabel | back-nestjs/seedAcademicWeeks.ts:20 | the label `${year}/${year + 1}` that YearWeek gives every week of the year; SeededWeekAt states that row `i` of the seed is the YearWeek of its year and number |
| Calendar.YearWeek | back-nestjs/seedAcademicWeeks.ts:29-37 | the row pushed for one week number; YearWeekShape states its number, Monday-to-Sunday span from the first Monday and parity |
| Calendar.SeededWeeks | back-nestjs/seedAcademicWeeks.ts:19-38 | the rows of all years in push order; SeededWeeksLength, SeededWeekAt, SeededWeeksStep and SeededWeeksDisjoint state their count, each row, consecutive weeks and disjoint spans |
| Common.Filter | front-react-lvl-2/src/pages/BusyResourcePage/BusyResourcePage.tsx:83-84 | `xs.filter(f)`: no longer than `xs`, and an element is kept exactly when it is in `xs` and satisfies `f` |
| Common.MapAll | back-nestjs/src/schedule/schedule.service.ts:56-113 | a `for … of` loop that stops at the first thrown error; MapAllOk and MapAllSnoc state that it succeeds exactly when every element does, with the results in order, and otherwise fails with the first failing element's error |
| ConstructorGrid.CellKey | front-react-lvl-2/src/pages/constructor/GridComponent.tsx:114 | the cell key `${day}-${hour}` |
| ConstructorGrid.Label | front-react-lvl-2/src/pages/constructor/GridComponent.tsx:156 | the text a placed cell shows, `${name} (${type})`; GridSave.LabelRoundTrip states that the save parses it back |
| ConstructorGrid.Editing | front-react-lvl-2/src/pages/constructor/GridComponent.tsx:115-117 | `isEditing`: the cell already holds the selected discipline |
| ConstructorGrid.PlacedCell | front-react-lvl-2/src/pages/constructor/GridComponent.tsx:154-160 | the cell `placePair` writes: the selected discipline's id and label, the chosen mode, an empty room and no teacher; Place and PlaceAgrees state where it lands |
| ConstructorGrid.PlaceCounters | front-react-lvl-2/src/pages/constructor/GridComponent.tsx:145-166 | the counters after `placePair`, with the updater run before or after the decrement; Place, CountPut and RepeatedPlacementConsumes state what they hold |
| ConstructorGrid.IntendedCounters | front-react-lvl-2/src/pages/constructor/GridComponent.tsx:145-166 | the counters the placement evidently means; PlaceIntendedBalanced states that they keep every discipline's total |
| ConstructorPairs.RoundPairs | front-react-lvl-2/src/pages/constructor/Constructor.tsx:17-21 | `roundPairs(hours)`; RoundPairsHalfUp, FloorOfQuotient, PairsMonotone and PairsPositive state the rounding and its bounds |
| ConstructorPairs.Pairs | front-react-lvl-2/src/pages/constructor/Constructor.tsx:17-21 | the same rounding on whole numbers, which RoundPairsHalfUp proves equal to RoundPairs |
| ConstructorPairs.TypeEntry | front-react-lvl-2/src/pages/constructor/Constructor.tsx:92-104 | the entry for one lesson type; TypeEntrySpec states when it exists and its total and online counts |
| ConstructorPairs.Entries | front-react-lvl-2/src/pages/constructor/Constructor.tsx:79-135 | the `flatMap` callback: lectures, practices, laboratory work; EntriesFresh states that its counters are fresh |
| ConstructorPairs.Generate | front-react-lvl-2/src/pages/constructor/Constructor.tsx:76-135 | the generated list; GenerateSource, GenerateComplete and GenerateFresh state that it holds exactly the entries of the semester-1 disciplines with fresh counters |
| ConstructorPairs.OldPairs | front-react-lvl-2/src/config/pages/constructor/Constructor.tsx:91-111 | the older page's callback for one discipline; OldPairsCount and OldPairsAt state how many pairs each truthy field yields and what each pair is |
| ConstructorPairs.OldGenerate | front-react-lvl-2/src/config/pages/constructor/Constructor.tsx:73-114 | the older page's generated list; OldDisciplinePairs states it and PagesDisagree shows where it differs from Generate |
| ConstructorPairs.GroupKey | front-react-lvl-2/src/pages/constructor/Constructor.tsx:55 | the teacher record's id when truthy, else `wish.teacherId`, as an object key; KeysSeen and GroupedKeys state that the grouping has exactly these keys |
| ConstructorPairs.AddToGroup | front-react-lvl-2/src/pages/constructor/Constructor.tsx:55-68 | one step of the `reduce`; AddToGroupAt states what it changes under the key and that other keys are untouched |
| ConstructorPairs.Grouped | front-react-lvl-2/src/pages/constructor/Constructor.tsx:54-69 | `wishesResponse.reduce(…, {})`; GroupedSchedule and GroupedText state that each key holds its schedule wishes in order and its last text |
| ConstructorPairs.ScheduleOfKey | front-react-lvl-2/src/pages/constructor/Constructor.tsx:65-66 | the reference definition of a key's schedule wishes, used by GroupedSchedule |
| ConstructorPairs.LastText | front-react-lvl-2/src/pages/constructor/Constructor.tsx:63-64 | the reference definition of a key's text, used by GroupedText |
| Disciplines.Offers | back-nestjs/src/discipline/discipline.service.ts:259-282 | the hours that make a discipline a lecture or a practice of its plan; CommonDisciplinesItems states the listing in terms of it |
| Disciplines.Relevant | back-nestjs/src/discipline/discipline.service.ts:316-332 | the group-assignment query's filter; ExistingByName states the records it finds |
| Disciplines.Resolve | back-nestjs/src/discipline/discipline.service.ts:342-348 | an item takes the id and groups of its title's record; CommonDisciplinesResolved states the result |
| Disciplines.PlansOf | back-nestjs/src/discipline/discipline.service.ts:246 | the distinct study plans of the found groups; PlansCover states that every found group's plan is among them |
| Disciplines.CommonDisciplines | back-nestjs/src/discipline/discipline.service.ts:226-351 | `getCommonDisciplinesByGroupsAndSemester`; CommonDisciplinesErrors, CommonDisciplinesItems, CommonDisciplinesOrder and CommonDisciplinesResolved state its errors and its items |
| Disciplines.Matching | back-nestjs/src/discipline/discipline.service.ts:336-338 | the record of one title; ByNameLast states that the last matching record wins |
| Disciplines.WhereFor | back-nestjs/src/discipline/discipline.service.ts:428-444 | the filter built from the optional group ids and semester; SelectNames states the names it selects |
| Disciplines.Entries | back-nestjs/src/discipline/discipline.service.ts:452-481 | a lecture entry and a practice entry per title; EntriesTitles and FormattedTeachers state their titles and teachers |
| Disciplines.Formatted | back-nestjs/src/discipline/discipline.service.ts:441-484 | `getFormattedDisciplines`; FormattedPairs, FormattedTitles and FormattedDistinct state its entries |
| Disciplines.LastTeachers | back-nestjs/src/discipline/discipline.service.ts:487-515 | the teachers of the last entry with a key; UpsertAllLastWins states that the registry ends with them |
| Disciplines.Known | back-nestjs/src/discipline/discipline.service.ts:490-511 | the entry names only existing teachers, without which the database refuses the upsert; UpsertAllResults states the outcome in terms of it |
| Disciplines.Updated | back-nestjs/src/discipline/discipline.service.ts:393-405 | the records `sendSelectedDisciplines` returns; UpdatedSpec, UpdatedWithin and UpdatedStable state them |
| Disciplines.LastPreference | back-nestjs/src/discipline/discipline.service.ts:95-116 | the audience type the last entry for an id gives; LastPreferenceSpec and ApplyPreferencesSpec state that it is what the loop leaves |
| Disciplines.PreferenceRefused | back-nestjs/src/discipline/discipline.service.ts:95-116 | an entry whose `update` the database refuses; LookupDecidesRefusal states when the loop stops |
| GridSave.HalfYearCode | front-react-lvl-2/src/pages/constructor/GridComponent.tsx:264-267 | the half-year code of a semester; HalfYear, HalfYearSteps and HalfYearCodeInjective state its year, its half and that semesters get distinct codes |
| GridSave.TypeCode | front-react-lvl-2/src/pages/constructor/GridComponent.tsx:269-272 | `typeMap[key]`: the request code of Лекция and Практика, `undefined` for any other label |
| GridSave.Saved | front-react-lvl-2/src/pages/constructor/GridComponent.tsx:289-295 | the request cell: name and type, the room's id when a room is set, the teacher when one is set; SavedPlaced states it for a placed cell |
| GridSave.EvenEntry | front-react-lvl-2/src/pages/constructor/GridComponent.tsx:281-296 | one even-week cell; EvenLabel, LabelMatch and LabPairLost state when it keeps the cell and when it abandons the save |
| GridSave.Entry | front-react-lvl-2/src/pages/constructor/GridComponent.tsx:281-311 | the parse step of one cell in either week; LabelRoundTrip and LabelUnknownType state it for placed labels |
| GridSave.Collect | front-react-lvl-2/src/pages/constructor/GridComponent.tsx:281-312 | one `for … of` loop over the steps; CollectKeeps, CollectValues and CollectObject state when it completes and what it holds |
| GridSave.SaveWeek | front-react-lvl-2/src/pages/constructor/GridComponent.tsx:281-312 | one week of the request; SaveWeekKeeps, SaveWeekValues and SaveWeekCells state when it is sent and what each key holds |
| GridSave.SavePlan | front-react-lvl-2/src/pages/constructor/GridComponent.tsx:274-329 | `handleSave`'s outcome; HandleSave states that the page produces it |
| Holiday.HolidayDraft | back-nestjs/src/holiday/holiday.service.ts:43-70 | the creation prepared for one slot label; HolidayPlan states its fields |
| Holiday.HolidayRejected | back-nestjs/src/holiday/holiday.service.ts:42-72 | the database rejects `createHoliday`: there is a slot to create and the fixed study plan, the fixed assignment or the given room is missing; HolidayCreations and CreateHoliday state the outcome |
| Holiday.RecurringDates | back-nestjs/src/holiday/holiday.service.ts:98-102 | the dates the loop visits; RecurringDatesShape, RecurringDatesIndex and RecurringSameWeekday state them |
| Holiday.RecurringRun | back-nestjs/src/holiday/holiday.service.ts:98-111 | the loop over the dates; RecurringRunOutcome, RecurringRunFails, RecurringRunErrors, RecurringRunCount and RecurringRunDays state what it creates and when it throws |
| Holiday.KeyOf | back-nestjs/src/holiday/holiday.service.ts:124-128 | the listing key of a row: week start, weekday rank, slot start; GetAllHolidays states the order it gives |
| Holiday.RecurringDayCode | front-react-lvl-2/src/pages/holiday/AddHolidayPage.tsx:130-133 | the form's day code; RecurringDayCodeAgrees states that it names the server's weekday |
| JsObject.Keys | back-nestjs/src/wish/wish.service.ts:42 | the keys `Object.entries` visits: one per entry, in entry order |
| JsObject.Get | front-react-lvl-2/src/pages/constructor/GridComponent.tsx:115 | `o[k]`: `undefined` exactly when `k` is not one of the object's keys |
| JsObject.Put | front-react-lvl-2/src/pages/constructor/GridComponent.tsx:154 | `o[k] = v`: the keys stay in place when `k` is one of them, otherwise `k` is added last |
| JsObject.Remove | front-react-lvl-2/src/pages/constructor/GridComponent.tsx:184 | `delete o[k]`: `k` is gone, every other key keeps its value, and an absent `k` changes nothing |
| Parser.AsString | back-nestjs/src/parser/utils/createSemesterWeeks.ts:3 | `String(value)` of a cell value |
| Parser.MatchAt | back-nestjs/src/parser/utils/createSemesterWeeks.ts:4 | the match of `/ТО:\s*(\d+)/` starting at one position; MatchAtMarker and MatchAtOf state when it exists and its value |
| Parser.ExtractWeek | back-nestjs/src/parser/utils/createSemesterWeeks.ts:2-6 | `extractWeek`; ExtractWeekNone, ExtractWeekLeftmost, ExtractWeekOf and ExtractWeekAt state that it reads the number after the first marker and gives 0 without one |
| Parser.ColumnsFor | back-nestjs/src/parser/utils/extractDisciplines.ts:54-79 | the columns read for each field, by form of study and semester |
| Parser.Hours | back-nestjs/src/parser/utils/extractDisciplines.ts:42-52 | `getAdjustedValue(getHours(…)).semN`; PartTimeAllRows states its part-time case |
| Parser.RowAt | back-nestjs/src/parser/utils/extractDisciplines.ts:94-103 | the record pushed for a row and a semester |
| Parser.Included | back-nestjs/src/parser/utils/extractDisciplines.ts:82-90 | the `!== null` test; FullTimeIncluded and PartTimeAllRows state when it holds |
| Parser.SemesterRows | back-nestjs/src/parser/utils/extractDisciplines.ts:38-129 | the rows pushed for one semester, in scan order; ScanSheet states that the sheet's semester key ends up holding exactly them |
| Parser.WeekCounts | back-nestjs/src/parser/utils/extractDisciplines.ts:33-36 | the two week-count cells of a course sheet; CountWeeks and ExtractDisciplines state where they go |
| Parser.ExtractDataFromFirstSheet | back-nestjs/src/parser/utils/extractDataFromFirstSheet.ts:6-66 | `extractDataFromFirstSheet`; FirstSheetSpec states when it succeeds and each field it returns |
| ReferenceTables.GetRow | back-nestjs/src/building/building.service.ts:14-20 | `getById` of the simple tables; GetRowSpec states it |
| ReferenceTables.CreateRow | back-nestjs/src/building/building.service.ts:26-38 | `create` of the simple tables; CreateKeepsUnique states it |
| ReferenceTables.UpdateRow | back-nestjs/src/building/building.service.ts:40-58 | `update` of the simple tables; UpdateKeepsUnique states it |
| ReferenceTables.DeleteRow | back-nestjs/src/building/building.service.ts:60-70 | `delete` of the simple tables; DeleteRemovesRow states it |
| ReferenceTables.UpdateGroup | back-nestjs/src/group/group.service.ts:45-64 | the group `update` as written; UpdateGroupSpec and UpdateGroupDuplicates state it and the duplicate titles it lets through |
| ReferenceTables.UpdateGroupChecked | back-nestjs/src/group/group.service.ts:31-43 | the group `update` with the title check of `create`; UpdateGroupCheckedUnique states it |
| ReferenceTables.GetAudience | back-nestjs/src/Audience/audience.service.ts:14-33 | `getById` of audiences with the equipment flattened; GetAllAgreesWithGetById relates it to `getAll` |
| ReferenceTables.CreateAudience | back-nestjs/src/Audience/audience.service.ts:51-89 | audience `create`; CreateAudienceLinks states when it fails with Conflict or ForeignKey and the row and links it writes |
| ReferenceTables.UpdateAudience | back-nestjs/src/Audience/audience.service.ts:91-127 | audience `update` as written; UpdateAudienceLinks, UpdateAudienceFields and UpdateAudienceDuplicates state it |
| ReferenceTables.DeleteAudience | back-nestjs/src/Audience/audience.service.ts:129-143 | audience `delete`; DeleteAudienceSpec states it |
| ReferenceTables.UpdateAudienceChecked | back-nestjs/src/Audience/audience.service.ts:91-127 | audience `update` with the title check of `create`; UpdateAudienceCheckedUnique states it |
| Roles.Translation | front-react-lvl-2/src/components/utils/translateRoles.ts:2-6 | the three role codes with a Russian name; NameShape and WordShape state the names' form |
| Roles.TranslateRole | front-react-lvl-2/src/components/utils/translateRoles.ts:10-13 | one part, trimmed and translated; TranslateRoleShape and TranslateRoleFixed state its form and that a translated part is left as it is |
| Roles.TranslateRoles | front-react-lvl-2/src/components/utils/translateRoles.ts:1-15 | `translateRoles`; RolesParts, TranslateRolesIdempotent and TranslateRolesEmpty state its parts, that a second pass changes nothing and the empty case |
| Schedule.Accepted | back-nestjs/src/schedule/schedule.service.ts:96-109 | the database accepts one creation: its week number is not NaN and its study plan, assignment, groups, room and teachers exist |
| Schedule.Materialize | back-nestjs/src/schedule/schedule.service.ts:79-111 | the row one creation writes; MaterializeAll and ScheduleStore.CreatedRow state it |
| Schedule.NewLinks | back-nestjs/src/schedule/schedule.service.ts:99-109 | the link rows a run of creations writes; NewLinksContain and ScheduleStore.CreateAllLinks state them |
| Schedule.AddSlot | back-nestjs/src/schedule/schedule.service.ts:85-95 | `connectOrCreate` on the time-slot table: an existing slot is kept, a new one added |
| Schedule.ScopeIds | back-nestjs/src/schedule/schedule.service.ts:27-31 | the ids of the pairs of the study plan and half-year; ScheduleStore.ClearScope states what their deletion leaves |
| Schedule.KeepGroupLinks | back-nestjs/src/schedule/schedule.service.ts:34-36 | the group-link delete, restricted to the request's group |
| Schedule.MapDay | back-nestjs/src/schedule/schedule.service.ts:376-395 | `mapDay`; MapDayNames and MapDayExactly state that exactly the Russian and English day names map, each to its day |
| Schedule.SlotTitle | back-nestjs/src/schedule/schedule.service.ts:74-76 | `daySlot.split('-', 2)[1].trim()`; KeyParts and CanonicalSlot state it for slot keys |
| Schedule.DayLabel | back-nestjs/src/schedule/schedule.service.ts:84 | `daySlot.split('-', 1)[0]`; KeyParts states it |
| Schedule.SlotFor | back-nestjs/src/schedule/schedule.service.ts:73-93 | the time slot a cell connects to or creates; CanonicalSlot and CanonicalKey state it for canonical labels |
| Schedule.CellDraft | back-nestjs/src/schedule/schedule.service.ts:56-112 | one loop iteration before its push; CellDraftShape states its errors and the creation's fields |
| Schedule.PlanCells | back-nestjs/src/schedule/schedule.service.ts:56-113 | the creations of one week's cells, the first failure aborting; PlanCellsGroups states their groups |
| Schedule.BulkPlan | back-nestjs/src/schedule/schedule.service.ts:50-114 | the even cells then the odd cells; BulkPlanShape and ScheduleStore.BulkPlanInScope state its result |
| Schedule.NumberWeekOf | back-nestjs/src/schedule/schedule.service.ts:151 | `parseInt(weekKey.replace('week', ''), 10)`; NumberWeekOfWeekKey states it for `week<n>` keys |
| Schedule.DistancePlan | back-nestjs/src/schedule/schedule.service.ts:147-210 | the distance creations, week by week; PlanWeeksErrSticky and ScheduleStore.DistancePlanInScope state it |
| Schedule.DistanceKey | back-nestjs/src/schedule/schedule.service.ts:273 | the read-back key `${dayOfWeek}-${title}`; DistanceFoldCovers states that every pair's key is present |
| Schedule.DistanceCellOf | back-nestjs/src/schedule/schedule.service.ts:278-284 | a pair's read-back cell; DistanceFoldValues states which pair each key shows |
| ScheduleStore.Create | back-nestjs/src/schedule/schedule.service.ts:80-111 | one `schedulePair.create`; CreateConsistent states that the tables stay consistent and ScheduleStore.CreatedRow states the row each creation writes |
| ScheduleStore.CreateAll | back-nestjs/src/schedule/schedule.service.ts:116 | the creations in order; CreateAllAppend, CreateAllStep, CreateAllConsistent and CreateAllLinks state it |
| ScheduleStore.Delete | back-nestjs/src/schedule/schedule.service.ts:34-45 | the four deletions; DeleteConsistent states that they keep the tables consistent |
| ScheduleStore.Clear | back-nestjs/src/schedule/schedule.service.ts:27-45 | the scope's deletions; ClearScope states what remains |
| ScheduleStore.Saved | back-nestjs/src/schedule/schedule.service.ts:23-117 | the scope cleared, then the creations; SavedScope and SavedPairsAreFound state what a later read finds |
| Text.IsSpace | back-nestjs/src/schedule/schedule.service.ts:76-77 | the characters `\s` and `trim` treat as white space |
| Text.TrimStart | back-nestjs/src/schedule/schedule.service.ts:76 | the text after its leading white space: a suffix that starts with a non-space character or is empty |
| Text.TrimEnd | back-nestjs/src/schedule/schedule.service.ts:76 | the text before its trailing white space: a prefix that ends with a non-space character or is empty |
| Text.Trim | back-nestjs/src/schedule/schedule.service.ts:76 | `String.prototype.trim`: TrimStart of TrimEnd |
| Text.Join | front-react-lvl-2/src/components/utils/translateRoles.ts:14 | `parts.join(sep)`; JoinSplit states that splitting at a separator it does not contain gives the parts back |
| Text.NatToString | front-react-lvl-2/src/pages/constructor/GridComponent.tsx:267 | `String(n)` of a natural number: non-empty and all decimal digits |
| Text.ParseLeadingNat | back-nestjs/src/schedule/schedule.service.ts:151 | `parseInt` of text that starts with its digits: NaN exactly when the text is empty or does not start with a digit |
| Text.ParseInt | back-nestjs/src/schedule/schedule.service.ts:151 | `parseInt(s, 10)` with white space and a sign; Schedule.NumberWeekOfWeekKey states it for week keys |
| Text.IndexOf | front-react-lvl-2/src/pages/constructor/GridComponent.tsx:283 | `indexOf` from a position: the first occurrence at or after it, and none exactly when the pattern occurs nowhere there |
| Text.ReplaceDash | back-nestjs/src/schedule/schedule.service.ts:77 | `replace(/\s*—\s*/, '-')`; DashSpanIsLeftmostLongest, ReplaceDashNoDash and ReplaceDashCanonical state what it replaces |
| Users.TransliterateIntended | front-react-lvl-2/src/services/user/users.service.ts:76-79 | transliteration with the signs dropped; TransliterateIntendedAppend and TransliterateIntendedAgrees state it |
| Wish.WishRow | back-nestjs/src/wish/wish.service.ts:43-53 | the row created for one grid entry; WishRowFields and WishRowSecondDash state its fields |
| Wish.NewRows | back-nestjs/src/wish/wish.service.ts:39-57 | the rows of the even grid then the odd grid; NewRowsOwned and NewRowsAscending state their owner and stamps |
| Wish.Others | back-nestjs/src/wish/wish.service.ts:26 | the schedule-wish deletion; OthersMembers, OthersAppend and OthersTwice state what it keeps |
| Wish.OtherTexts | back-nestjs/src/wish/wish.service.ts:27 | the text-wish deletion; OtherTextsMembers states what it keeps |
| Wish.Replaced | back-nestjs/src/wish/wish.service.ts:26-57 | the tables after a teacher's wishes are replaced; ReplacedSteps, ReplaceOwnRows and AddWishesRows state them |
| Wish.AddWishesPlan | back-nestjs/src/wish/wish.service.ts:10-60 | `addWishes`; AddWishesUnknownTeacher, AddWishesRows, AddWishesText and AddWishesValid state its result and the tables after it |
| WishGrid.ChooseOption | front-react-lvl-2/src/config/pages/wish/GridComponent.tsx:59-80 | the grid after an option is chosen for a cell; ChooseOptionCell states the cell afterwards and that other cells are untouched |
| Holiday.HolidayCreations | back-nestjs/src/holiday/holiday.service.ts:42-72 | the creations of a date that has a week are its plan; when there is a slot and a row they connect to is missing the database accepts none of them, otherwise all |
| Holiday.RecurringRunErrors | back-nestjs/src/holiday/holiday.service.ts:104-110 | when the rows a holiday connects to exist, a failed loop failed with NotFound; when they are missing, it created nothing |
| Text.TrimIdempotent | back-nestjs/src/schedule/schedule.service.ts:92 | trimming an already trimmed text changes nothing |
| Text.ParseIntOfNatToString | back-nestjs/src/schedule/schedule.service.ts:151 | `parseInt` reads back a rendered number followed by text that does not start with a digit |
| Text.NatToStringInjective | front-react-lvl-2/src/pages/BusyResourcePage/BusyResourcePage.tsx:44 | distinct numbers render as distinct texts |
| Holiday.ClockLabelId | back-nestjs/src/holiday/holiday.service.ts:44 | a slot label joining two clock times by a spaced em dash gets the id of the two times joined by a hyphen |

## Left out

- Database access, HTTP, React rendering and the console are not modelled. Each table is a sequence of rows in the order the database returns them.
- Generated values (row ids, cuids, `Math.random`) are parameters or counters.
- Dates are whole day numbers; clock time is not modelled.
- No transaction is modelled around the bulk replace or the recurring-holiday loop, because the code has none. Each step's effect is kept when a later step fails.
- Foreign-key cascades are not known, because the database schema is not part of this model. A delete of a referenced row is refused through a `referenced` set, and the links of other groups to deleted pairs are kept.
- `getDisciplinesByStudyPlan`, `getTeacherTextWish`, `getAllTeacherPairs` and `getAllTeacherTextWishes` of the discipline service are not modelled. They are plain reads with no rule beyond their query.
- Users.Upper: covers the basic Latin and Cyrillic letters and Ё only. JavaScript's `toUpperCase` is full Unicode, and `ß` even becomes two letters.
- Users.Lower: covers the basic Latin and Cyrillic letters and Ё only.
- Users.GenerateLogin: inherits the limited case mapping, so its length and case claims hold only for names whose case mapping keeps their length.
- ConstructorPairs.Generate: hours are whole numbers; fractional hours in a study plan are not modelled.
- ConstructorPairs.Entries: hours are whole numbers. `ConstructorPairs.RoundPairs` is stated over reals and proved equal to the whole-number form.
- Wish.WishStore.AddWishes: `createdAt` is a counter, not a clock. `Object.entries` lists the grid keys in insertion order; integer-like keys, which JavaScript lists first, are not modelled. The text wish stores no text because the code stores none.
- Holiday.HolidayPlan: the created pairs are taken to be in person (`isOnline` false), because the column's default is not visible.
- BusyMaps.GroupOptions: a year of admission that is not a number (NaN in the page) is not modelled.
- Roles.TranslateRole: a part naming an inherited object property (`constructor`, `toString`) is not modelled; JavaScript would return a function there.
- Schedule.MapDay: inherited object properties are not modelled either; the lookup covers the fourteen weekday names.
- Parser.ExtractWeek: takes a cell value. The study-plan service may pass `undefined`, which `String` turns into text without the marker; that call site is not modelled.
- Disciplines.Registry.SavePreferences: an `audienceTypes` entry without an assignment id is not modelled.
- The older constructor page calls store actions (`setPairs`, `togglePair`) that the current store lacks. Only its pair generation is modelled (`ConstructorPairs.OldPairs`).
- The group busy page renders only the parity table; its numbered-week table is commented out in the code, and the model has no member for that rendering.
- Holiday.GetAllHolidays: the weekday order is a parameter `rank`, because the Prisma schema that fixes the order of the `DayOfWeek` values is not part of this model.
- Schedule.CellDraft: a `roomId` of "" or `null` is read as no room, and a `null` `teacherIds` as no teachers. Prisma's validation, which rejects such values in a `connect`, is not modelled. Holiday.HolidayPlan reads its `roomId` the same way.
- Parser.ExtractDataFromFirstSheet: takes the `isFull` flag. The study-plan service calls it without one (back-nestjs/src/parser/parser.service.ts:30); that call site is not modelled.
- Parser.ExtractDisciplines: takes `isFull` and the four row ranges. The study-plan service passes the ranges without `isFull`, so each argument lands one place off (back-nestjs/src/parser/parser.service.ts:99-109); that call site is not modelled.
- Schedule.BulkPlan: always plans the even cells before the odd cells. The service follows the insertion order of `Object.entries`, which is the same for the request the grid page builds (`{ even: {}, odd: {} }`); another key order is not modelled.
- BusyMaps.RuDay: covers the seven day codes. The page's `ruDayMap[code]` also finds inherited keys such as `constructor`; those are not modelled.
- ConstructorPairs.GroupKey: an absent `teacherId` is keyed "undefined". A `null` `teacherId`, which JavaScript keys "null", is not distinguished from an absent one.
- ReferenceTables.CreateAudience: the object the call returns is not modelled. Its `equipment` include is read by the row's own `create`, before the equipment links are written, so it is empty.
- ScheduleStore.PairStore.ExecuteAll: `Promise.all` starts the creations together, and the model applies them one at a time in array order. Two creations that `connectOrCreate` the same time slot not yet in the table race, and one of them can fail on the slot's unique id; that refusal is not modelled.
- ScheduleStore.PairStore.BulkCreate: writes every accepted creation. Two cells of one save on the same new time slot (Monday and Tuesday at "08:30 — 10:00" on a first save) run their `connectOrCreate` concurrently, and the refusal of one of them is not modelled.
- ScheduleStore.PairStore.BulkCreateDistance: the same concurrent `connectOrCreate` of a shared new time slot is not modelled.
- GridSave.HandleSave: takes the page's props. The routed constructor page renders the grid with no props (front-react-lvl-2/src/pages/constructor/Constructor.tsx:178, routed at front-react-lvl-2/src/pages/router.tsx:74), so the live save sends the half-year "NaNH1" and no study plan or group, and the busy lookup gets no ids; that call site is not modelled.
- ConstructorPairs.Grouped: a group keeps the schedule wishes and the text; its `teacher` object is not modelled. `Object.values` lists integer-like teacher ids first; that order is not modelled.
- ReferenceTables.UpdateAudience: the object the update returns is not modelled.
- Disciplines.Upsert: the returned record's teachers are the request's list, in request order and with any repeats. The database's `include: { teachers: true }` returns each linked teacher once, in its own order; that difference is not modelled.

## Findings

| source | as written | input that shows it | evidently intended | confidence | as-written member | corrected member |
|---|---|---|---|---|---|---|
| front-react-lvl-2/src/pages/constructor/GridComponent.tsx:119-124 | the availability check reads the discipline snapshot taken when it was selected, whose counter never falls | one discipline with one pair, placed offline at Monday 1 and then at Tuesday 1 without reselecting: both succeed and the counter ends at 0 with two cells | the check reads the live counter and the second placement is refused | not executed | ConstructorGrid.StaleSnapshotOverbooks | ConstructorGrid.PlaceIntendedBalanced |
| front-react-lvl-2/src/pages/constructor/GridComponent.tsx:145-166 | re-placing a discipline on its own cell in the same mode decrements again without incrementing | three pairs, placed offline twice at Monday 1: one cell, counter 1 | re-placing in the same mode leaves the counters as they are | not executed | ConstructorGrid.RepeatedPlacementConsumes | ConstructorGrid.PlaceIntendedBalanced |
| front-react-lvl-2/src/pages/constructor/GridComponent.tsx:145-152 | placing over another discipline's cell never returns that discipline's pair | Физика placed at Monday 1, then Химия over it: Физика's counter stays 0 with no cell left | the overwritten discipline gets its pair back | not executed | ConstructorGrid.OverwriteLosesPair | ConstructorGrid.PlaceIntendedBalanced |
| front-react-lvl-2/src/pages/constructor/GridComponent.tsx:115-117 | the old cell comes from the cells the callback captured, which miss placements made since | one pair possible online, placed offline and then online at Monday 1: the online allowance is never taken | the old cell is read from the current grid | not executed | ConstructorGrid.StaleCellSkipsOnline | ConstructorGrid.PlaceIntendedBalanced |
| front-react-lvl-2/src/pages/constructor/GridComponent.tsx:150-166 | the pair given back inside the state updater may run after the pair taken outside it | a mode switch on the last pair with the updater deferred: the take does nothing, the return adds one, and one cell stands against a counter of 1 | the counters are updated in one step, independent of when React runs the updater | not executed | ConstructorGrid.DeferredUpdaterGainsPair | ConstructorGrid.PlaceIntendedBalanced |
| front-react-lvl-2/src/pages/constructor/GridComponent.tsx:269-272 | the type map of the save has no entry for the laboratory type the constructor creates | any laboratory pair: the even week abandons the save and the odd week sends it with no lesson type | every type the constructor creates is saved with its code | not executed | GridSave.LabPairLost | GridSave.LabPairSaved |
| back-nestjs/src/group/group.service.ts:45-64 | the group update writes the title without the uniqueness check that create makes | groups ИВТ-21 and ИВТ-22, renaming the second to ИВТ-21: accepted, two groups share a title | Conflict when another group has the title | not executed | ReferenceTables.UpdateGroupDuplicates | ReferenceTables.UpdateGroupCheckedUnique |
| back-nestjs/src/Audience/audience.service.ts:91-127 | the audience update writes the title without the uniqueness check that create makes | audiences 101 and 102, renaming the second to 101: accepted, two audiences share a title | Conflict when another audience has the title | not executed | ReferenceTables.UpdateAudienceDuplicates | ReferenceTables.UpdateAudienceCheckedUnique |
| front-react-lvl-2/src/services/user/users.service.ts:78 | the fallback after the table lookup also replaces the empty entries of the soft and hard signs by the sign itself | the one-letter text ь comes out as ь, so a last name such as Соловьёв keeps its ь in the login | the signs are dropped, as their empty table entries say | not executed | Users.SignsKept | Users.SignDropped |
| front-react-lvl-2/src/pages/constructor/busyMapGroup.tsx/BusyGroupPageConstructor.tsx:211-218 | the group page labels semester 1 with the first half of the year of admission | semester 1, year 2021: the page shows 2021H1, while the constructor saves semester 1 under 2021H2 | the page's option for semester s is the code the constructor saves semester s under | not executed | BusyMaps.GroupOptionDisagrees | BusyMaps.GroupOptionIntendedAgrees |
