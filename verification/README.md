# Arcanaeum scheduler core, modelled in Dafny

Arcanaeum is a single-user desktop tracker for a learning plan. Phases are numbered stages.
Objectives are milestones, optionally inside a phase. Tasks are the work items; each can
refer to one phase and one objective.

This project models the logic of `arcanascheduler.py` and proves properties about it:

- **The record store.** The three tables of `ArcanaeumDB` are an in-memory class,
  `Store.ArcanaeumDb`. It has AUTOINCREMENT ids, full-record updates and deletes by id.
  Deleting a phase or an objective first clears the references to it.
- **The comma-joined resources column** and how it is decoded.
- **The refresh of the task list (`populate_tasks`).** A pending task's status is derived from
  its due date, and the result is written back to the store. A phase or objective filter that
  is no longer offered falls back to "All". The five-way filter then selects the visible tasks.
- **Completion (`mark_completed`)**, including weekly rescheduling of recurring tasks. This
  uses real Gregorian arithmetic (leap years, month and year rollover) up to 9999-12-31.
- **The quick-add parser.** It reads the `by YYYY-MM-DD`, `priority:X` and `category:X` tokens,
  and what is left becomes the title.
- **The task dialog (`TaskDialog`).** This covers its `"{id}|..."` phase and objective choices,
  how it fills its fields from a task, and its validation and parsing on Save.

The clock is a parameter. A refresh takes `today: Date`; completion and quick add take
`now: Instant`. The Python behaviour each piece relies on is modelled explicitly:

- `strptime('%Y-%m-%d')` is lenient. It accepts `2024-1-5` and `2024-01- 5`, needs exactly four
  year digits and rejects trailing text.
- `strftime` zero-pads.
- `date + timedelta(days=7)` raises OverflowError past 9999-12-31.
- `str.strip`, `lower`, `capitalize`, `split`, `join` and `int()` behave as in Python.
- Leftmost-match regular-expression search is used for the quick-add tokens.

Modules:

- `Text`: Python string built-ins.
- `Dates`: parsing, formatting, day numbers and adding days.
- `Tables`: rows with ids, select, find, replace and remove.
- `Records`: tasks, phases, objectives and the resources codec.
- `Schedule`: status derivation and completion.
- `Filters`: labels, id maps, filter choices and the filter.
- `Forms`: the task dialog.
- `QuickAdd`: the quick-add parser.
- `Store`: the database class.
- `App`: the main window class, `Arcanaeum`, whose methods are the actions above.

Where the code and its documented intent differ, the model follows the code:

- A recurring task is rescheduled only when its date parses and a week later is still a
  representable date. Otherwise the exception is swallowed and the task stays `Completed` with
  its timestamp (`Schedule.CompleteRecurringNotRescheduled`, `Schedule.CompleteAtEndOfCalendar`).
- Deleting a phase also clears the `objective_id` of the tasks in that phase, not just their
  `phase_id`.
- "No Phase" and "No Objective" can never be effective filter values. A refresh resets any value
  not among "All" and the real labels to "All" (`Filters.UnassignedOnlyUnderAll`).
- Status, priority and category are free text in the store, not enumerations.
- The quick-add title is cut before the first `"by "` anywhere in the text, also inside a word.
  So `"Learn Ruby by 2024-05-01"` gets the title `"Learn Ru"`, while its date is still
  2024-05-01 (`QuickAdd.RubyExample`).
- The `by` date is taken as typed, without checking that it is a real date.

## Model

| member | source | states |
|---|---|---|
| Text.TrimStart | arcanascheduler.py:780 | the result is a suffix of the input; everything dropped is whitespace; the result does not start with whitespace |
| Text.TrimEnd | arcanascheduler.py:798 | the result is a prefix of the input; everything dropped is whitespace; the result does not end with whitespace |
| Text.Strip | arcanascheduler.py:780 | `str.strip()` as `rstrip` after `lstrip`; its properties are stated by `Text.StripSpec`, `Text.StripOfStripped` and `Text.StripIdempotent` |
| Text.StripSpec | arcanascheduler.py:1176-1183 | `strip()` gives a stripped string and removes only leading and trailing whitespace |
| Text.StripOfStripped | arcanascheduler.py:1176-1183 | stripping a string with no surrounding whitespace returns it unchanged |
| Text.StripIdempotent | arcanascheduler.py:794-798 | stripping twice gives what stripping once gave |
| Text.Lower | arcanascheduler.py:638-648 | `lower()` keeps the length and lowers each character |
| Text.Capitalize | arcanascheduler.py:787-789 | the first character is upper-cased and the rest lower-cased, length kept |
| Text.CapitalizeIdempotent | arcanascheduler.py:787-789 | capitalising twice changes nothing; the result has no capital after the first character and no lower-case first letter |
| Text.IndexOf | arcanascheduler.py:793-794 | the result is the leftmost occurrence of the pattern, or None exactly when the pattern does not occur |
| Text.BeforeFirstLacks | arcanascheduler.py:794 | the part before the first occurrence of a non-empty pattern never holds the pattern |
| Text.FoundInStrip | arcanascheduler.py:794 | a pattern occurs in the stripped text only if it occurs in the text |
| Text.BeforeFirst | arcanascheduler.py:794 | `split(pat)[0]`: when the pattern occurs, the prefix that ends exactly at its first occurrence (its length is what `str.find` reports); the whole string when it does not occur |
| Text.Split | arcanascheduler.py:308 | `split(sep)` gives at least one piece and no piece contains the separator |
| Text.Join | arcanascheduler.py:277 | `sep.join(parts)`; `Text.JoinSplit` and `Text.SplitJoin` prove it and `split` inverse to each other |
| Text.SplitNoSeparator | arcanascheduler.py:1199 | a string without the separator splits into itself |
| Text.SplitAtSeparator | arcanascheduler.py:308 | splitting `p + sep + rest` gives `p` followed by the pieces of `rest` |
| Text.JoinSplit | arcanascheduler.py:277-308 | joining the pieces of a split gives the string back |
| Text.SplitJoin | arcanascheduler.py:277-308 | splitting a join of separator-free pieces gives the pieces back |
| Text.FirstPiece | arcanascheduler.py:1199-1202 | the first piece of `p + sep + rest` is `p` |
| Text.SplitConcat | arcanascheduler.py:1183 | splitting `a + sep + b` gives the pieces of `a` followed by the pieces of `b` |
| Text.NatToString | arcanascheduler.py:601 | `str(n)` is all digits, has no leading zero, and its decimal value is n |
| Text.IntToString | arcanascheduler.py:601-606 | `str(n)` is non-empty and starts with a digit or a minus sign |
| Text.ReadInteger | arcanascheduler.py:1202 | `int()` on text without surrounding whitespace: succeeds exactly on an unsigned decimal literal or one with a single `+` or `-` sign in front, with the value that literal denotes |
| Text.ParseIntSpec | arcanascheduler.py:1202 | `int(s)` (`Text.ParseInt`, which reads the stripped text with `Text.ReadInteger`): an unsigned decimal literal gives its value (leading zeros and single underscores allowed), a `+` or `-` sign before one gives the value with that sign, and anything else fails |
| Text.ParseIntRoundTrip | arcanascheduler.py:1085-1202 | `int(str(n)) == n` for every integer |
| Text.ParseIntLeadingZeros | arcanascheduler.py:1202 | `int("007")` is 7 |
| Text.ParseIntPlusSign | arcanascheduler.py:1202 | `int("+7")` is 7 |
| Text.ParseIntRejects | arcanascheduler.py:1202 | `int("-")` and `int("1__0")` fail |
| Text.IntToStringAvoids | arcanascheduler.py:1085-1087 | `str(n)` never contains a character that is neither a digit nor '-' (such as the bar of a choice) |
| Dates.DaysInMonth | arcanascheduler.py:626 | months have 28 to 31 days; February has 29 exactly in leap years |
| Dates.MonthField | arcanascheduler.py:626 | the month field of `%m` gives a value in 1..12 |
| Dates.DayField | arcanascheduler.py:626 | the day field of `%d` gives a value in 1..31 |
| Dates.ParseDate | arcanascheduler.py:626 | `strptime(s, '%Y-%m-%d')` only ever yields a real calendar date |
| Dates.Digits | arcanascheduler.py:771 | zero-padded digits of the given width |
| Dates.DigitsValue | arcanascheduler.py:771 | the padded digits read back as the number |
| Dates.FormatDate | arcanascheduler.py:771 | `strftime('%Y-%m-%d')` is 10 characters with dashes at 4 and 7 |
| Dates.ParseFormatDate | arcanascheduler.py:769-771 | parsing a formatted date gives the date back |
| Dates.FormatTimestamp | arcanascheduler.py:765 | `strftime('%Y-%m-%d %H:%M:%S')` is 19 characters and begins with the formatted date |
| Dates.OrdinalWithinYear | arcanascheduler.py:627-630 | a date's day number lies within its year's span |
| Dates.BeforeIsOrdinalLess | arcanascheduler.py:627-630 | date comparison agrees with comparing day numbers, and equal dates have equal day numbers |
| Dates.NextDayOrdinal | arcanascheduler.py:770 | the next calendar day is a real date whose day number is one more |
| Dates.OrdinalAtMost | arcanascheduler.py:770 | no date's day number exceeds that of 9999-12-31 |
| Dates.AddDays | arcanascheduler.py:770 | `date + timedelta(days=n)` is the real date n day numbers later, and fails (OverflowError) exactly when that is past 9999-12-31 |
| Dates.AddDaysUnique | arcanascheduler.py:770 | the result of adding days is the one date with that day number |
| Dates.AddDaysTwice | arcanascheduler.py:770 | adding m days then n days is adding m + n days |
| Dates.AddWeekLeapFebruary | arcanascheduler.py:770 | 2024-02-26 plus a week is 2024-03-04 |
| Dates.AddWeekCommonFebruary | arcanascheduler.py:770 | 2023-02-26 plus a week is 2023-03-05 |
| Dates.AddWeekNewYear | arcanascheduler.py:770 | 2024-12-28 plus a week is 2025-01-04 |
| Dates.AddWeekOverflow | arcanascheduler.py:770 | 9999-12-25 plus a week overflows |
| Dates.YearDigits2024 | arcanascheduler.py:1190 | the year fields "2024" and "2023" read as 2024 and 2023 |
| Dates.ParseDateSingleDigitFields | arcanascheduler.py:1190 | `2024-1-5` is accepted as 2024-01-05 |
| Dates.ParseDateSpacePaddedDay | arcanascheduler.py:1190 | `2024-01- 5` is accepted as 2024-01-05 |
| Dates.ParseDateNoLeapDay | arcanascheduler.py:1190 | 2023-02-29 is rejected and 2024-02-29 accepted |
| Dates.ParseDateTrailingText | arcanascheduler.py:1190 | trailing text after the day is rejected |
| Tables.Select | arcanascheduler.py:644-669 | an element is selected exactly when it is in the input and satisfies the predicate; never longer than the input |
| Tables.SelectAppend | arcanascheduler.py:669 | selecting over `s + [x]` appends x exactly when it satisfies the predicate |
| Tables.SelectAll | arcanascheduler.py:644-669 | when every element satisfies the predicate, everything is selected |
| Tables.SelectConjunction | arcanascheduler.py:646-667 | selecting by a conjunction equals selecting by one predicate and then by the other |
| Tables.SelectIsSubsequence | arcanascheduler.py:644-669 | the selection keeps the input order |
| Tables.Find | arcanascheduler.py:317-345 | a lookup by id returns a row with that id, and returns None exactly when no row has it |
| Tables.Replace | arcanascheduler.py:347-370 | an update keeps length, order and ids, and gives the rows with that id the new columns, every other row unchanged |
| Tables.ReplaceAt | arcanascheduler.py:347-370 | with unique ids, an update rewrites exactly one index |
| Tables.FindAfterReplace | arcanascheduler.py:317-370 | after an update, the id reads as the new record (if it existed) and other ids read as before |
| Tables.RemoveSpec | arcanascheduler.py:372-377 | a delete removes exactly the rows with the id, keeps the order of the rest and keeps ids unique |
| Tables.SubsequenceUnique | arcanascheduler.py:372-377 | a subsequence of a table with unique ids has unique ids |
| Tables.KeyedInsert | arcanascheduler.py:245-285 | an insert takes an id no row has, and the table stays keyed |
| Tables.HasIdAfterRemove | arcanascheduler.py:168-170 | after a delete, the ids present are the ids present before, minus the deleted one |
| Records.ResourcesRoundTrip | arcanascheduler.py:277-308 | decoding the encoding of a list of non-empty, comma-free strings gives the list; only [] encodes to '' |
| Records.StoredResourcesRoundTrip | arcanascheduler.py:308-362 | encoding the decoding of a stored column gives the column |
| Records.EmptyResourceLost | arcanascheduler.py:277-308 | `['']` encodes to `''`, which decodes to `[]`: the round trip needs non-empty entries |
| Records.EncodeResources | arcanascheduler.py:277 | the column text `','.join(resources)`; inverted by `Records.ResourcesRoundTrip` |
| Records.DecodeResources | arcanascheduler.py:308 | `r.split(',') if r else []`; inverted by `Records.StoredResourcesRoundTrip` |
| Records.CleanResources | arcanascheduler.py:1183 | every kept entry is non-empty, comma-free and stripped, and a string is kept exactly when it is the non-blank `strip()` of one of the pieces of `split(',')`; order is stated by `Records.CleanResourcesConcat` |
| Records.KeepStripped | arcanascheduler.py:1183 | no more entries than pieces; each non-empty, comma-free and stripped; a string is kept exactly when it is the non-blank `strip()` of some piece |
| Records.KeepStrippedAppend | arcanascheduler.py:1183 | the comprehension keeps order: cleaning `a + b` gives the entries of `a` followed by those of `b` |
| Records.CleanResourcesConcat | arcanascheduler.py:1183 | the entries of the text before a comma come before those of the text after it |
| Records.CleanEncodedResources | arcanascheduler.py:1172-1183 | the dialog reads back a clean list it displayed as the same list |
| Records.CleanResourcesIdempotent | arcanascheduler.py:1172-1183 | re-saving cleaned resources does not change them |
| Records.ToStored | arcanascheduler.py:271-282 | the column values `add_task` and `update_task` write; `Records.TaskRoundTrip` proves they read back |
| Records.FromStored | arcanascheduler.py:300-313 | the task dictionary `get_tasks` builds from a row; `Records.StoredTaskRoundTrip` proves writing it back stores the row |
| Records.StoredTaskRoundTrip | arcanascheduler.py:287-370 | writing back a task that was read stores the same row |
| Records.TaskRoundTrip | arcanascheduler.py:245-315 | a task with clean resources reads back as written |
| Schedule.DeriveStatus | arcanascheduler.py:623-635 | the status check of one task; characterised by `Schedule.DeriveStatusByDayNumber` and `Schedule.DeriveStatusFrame` |
| Schedule.DeriveStatusByDayNumber | arcanascheduler.py:623-632 | a pending task with a parsable date is Behind iff its date is before today, Ahead iff after, and stays Pending iff it is today |
| Schedule.DeriveStatusFrame | arcanascheduler.py:623-635 | derivation changes only the status; a task not Pending or with an unparsable date is unchanged; the new status is Pending, Ahead or Behind |
| Schedule.DerivedStatusIsFinal | arcanascheduler.py:624 | a status derived away from Pending is never re-derived on a later day |
| Schedule.DeriveStatusIdempotent | arcanascheduler.py:623-635 | deriving twice on the same day equals deriving once |
| Schedule.DueTodayThenBehind | arcanascheduler.py:627-632 | a task still Pending on its due day becomes Behind on any later day |
| Schedule.Complete | arcanascheduler.py:763-775 | what `mark_completed` does to a task dictionary; characterised by `Schedule.CompleteFrame`, `Schedule.CompleteOneOff`, `Schedule.CompleteRecurring` and `Schedule.CompleteRecurringNotRescheduled` |
| Schedule.CompleteFrame | arcanascheduler.py:763-776 | completion changes only the date, status and timestamp |
| Schedule.CompleteOneOff | arcanascheduler.py:764-765 | a one-off task ends Completed with a 19-character timestamp of that day, date unchanged, and no later refresh changes it |
| Schedule.CompleteRecurring | arcanascheduler.py:767-773 | a recurring task due D gets the date text `strftime` gives for D + 7 days, which parses back to a date seven day numbers later; it is Pending with an empty timestamp, and still recurring |
| Schedule.CompleteThenDerive | arcanascheduler.py:767-777 | on the refresh after completion, the rescheduled task is Ahead, Behind or Pending exactly as D + 7 compares with the day of completion |
| Schedule.CompleteRecurringTwice | arcanascheduler.py:767-773 | completing a recurring task twice moves it fourteen days on, Pending |
| Schedule.CompleteRecurringNotRescheduled | arcanascheduler.py:768-775 | with an unparsable date, or a week later past 9999-12-31, the task stays Completed with its timestamp and date |
| Schedule.CompleteAtEndOfCalendar | arcanascheduler.py:768-775 | a weekly task due 9999-12-30 stays Completed on that date |
| Filters.PhaseLabel | arcanascheduler.py:601 | a phase label starts with a digit or '-' |
| Filters.ObjectiveLabel | arcanascheduler.py:606 | an objective label starts with a digit or '-' |
| Filters.PlaceholdersAreNotLabels | arcanascheduler.py:601-665 | no real label equals "No Phase", "No Objective" or "All" |
| Filters.IdMap | arcanascheduler.py:601-606 | the map's keys are exactly the row ids |
| Filters.IdMapLookup | arcanascheduler.py:601-606 | with unique ids, each id maps to the label of its row |
| Filters.BuildObjectiveMap | arcanascheduler.py:603-606 | the assignment loop builds the same map as the comprehension over the rows |
| Filters.TaskPhaseLabelSpec | arcanascheduler.py:658 | a task's phase label is "No Phase" iff its phase id is absent or dangling, and otherwise the label of its phase |
| Filters.TaskObjectiveLabelSpec | arcanascheduler.py:663-665 | a task's objective label is "No Objective" iff its objective id is absent, 0 or dangling, and otherwise the label of its objective |
| Filters.TaskPhaseLabel | arcanascheduler.py:658 | `phase_map.get(phase_id, "No Phase")`; stated by `Filters.TaskPhaseLabelSpec` |
| Filters.TaskObjectiveLabel | arcanascheduler.py:663-665 | the objective label with its falsy-id test; stated by `Filters.TaskObjectiveLabelSpec` |
| Filters.PhaseChoices | arcanascheduler.py:609 | the phase choices are "All" followed by one label per phase, in order |
| Filters.ObjectiveChoices | arcanascheduler.py:615 | the objective choices are "All" followed by one label per objective, in order |
| Filters.Normalise | arcanascheduler.py:610-619 | a filter value stays when it is offered and otherwise becomes "All" |
| Filters.NormalisedFilterNotPlaceholder | arcanascheduler.py:609-619 | after the fallback, no filter holds "No Phase" or "No Objective" |
| Filters.Matches | arcanascheduler.py:644-667 | the five `continue` tests of one task; what `Filters.FilterSpec` lists |
| Filters.Filter | arcanascheduler.py:643-671 | the filtered list; `Filters.FilterTasks` proves the loop computes it and `Filters.FilterSpec` characterises it |
| Filters.FilterTasks | arcanascheduler.py:638-671 | the filtering loop computes the filter |
| Filters.FilterSpec | arcanascheduler.py:644-669 | the listed tasks are exactly those matching every active criterion, in their original order |
| Filters.NoCriteriaListsAll | arcanascheduler.py:647-667 | an empty query and "All" everywhere list every task |
| Filters.RelaxingKeepsMatches | arcanascheduler.py:647-667 | clearing the query or setting any one dimension to "All" never hides a listed task |
| Filters.SearchFindsTitle | arcanascheduler.py:647-649 | a query occurring in the title, ignoring case, finds the task |
| Filters.PhaseFilterSelectsItsTasks | arcanascheduler.py:658-660 | a task in phase k shows that phase's label |
| Filters.UnassignedOnlyUnderAll | arcanascheduler.py:609-667 | a task with no phase (or objective), or a dangling one, passes that dimension only when it reads "All" |
| Forms.ParseIdPrefix | arcanascheduler.py:1195-1215 | an empty or "(None)" box gives no id |
| Forms.PhaseChoice | arcanascheduler.py:1085 | the phase box entry: the id, a bar, then the phase number, " - " and the title; `Forms.ChoicesRoundTrip` proves it reads back as the phase id |
| Forms.ObjectiveChoice | arcanascheduler.py:1086-1087 | the objective box entry: the id, a bar, then the objective name; `Forms.ChoicesRoundTrip` proves it reads back as the objective id |
| Forms.IdPrefixRoundTrip | arcanascheduler.py:1197-1204 | an id-prefixed label reads back as its id, whatever follows the bar |
| Forms.ChoicesRoundTrip | arcanascheduler.py:1195-1215 | choosing a phase or an objective records its id |
| Forms.IdPrefixOfText | arcanascheduler.py:1201-1204 | text without a leading integer gives no id |
| Forms.ChoiceFor | arcanascheduler.py:1151-1163 | the phase or objective box of an edited task; read back by `Forms.PhaseChoiceRoundTrip` and `Forms.ObjectiveChoiceRoundTrip` |
| Forms.FormFor | arcanascheduler.py:1147-1173 | the fields `populate_fields` fills; `Forms.EditRoundTrip` proves saving them unchanged gives the task back |
| Forms.SaveTask | arcanascheduler.py:1175-1230 | Save succeeds iff the stripped title is non-empty and the stripped date parses; a blank title is reported first |
| Forms.SavedTaskShape | arcanascheduler.py:1175-1230 | a saved task has the stripped title, description, date and estimate of the form, its status, priority, category and recurring flag, the ids parsed from the phase and objective boxes, the cleaned resources and the timestamp of the task it replaces; the title is non-blank, the date parses, and the task reads back unchanged |
| Forms.StripTrailingNewline | arcanascheduler.py:1166-1177 | the newline the text widget adds to a stripped description is removed by strip |
| Forms.PhaseChoiceRoundTrip | arcanascheduler.py:1152-1204 | the phase box filled for an edited task reads back as its phase id when that is non-zero and exists, else None |
| Forms.ObjectiveChoiceRoundTrip | arcanascheduler.py:1159-1215 | the same for the objective box |
| Forms.EditRoundTrip | arcanascheduler.py:1147-1230 | opening a task and saving it unchanged gives the task back, except that a dangling or zero reference is dropped |
| Forms.BlankFormRejected | arcanascheduler.py:1185-1187 | a fresh dialog cannot be saved without a title |
| QuickAdd.FirstDatePhraseFrom | arcanascheduler.py:784 | the leftmost index where the "by" phrase matches, and None exactly when it matches nowhere |
| QuickAdd.FirstDatePhraseFromFinds | arcanascheduler.py:784 | conversely, whenever the phrase matches at i and nowhere before, the search returns i |
| QuickAdd.DatePhrase | arcanascheduler.py:784 | the capture of the leftmost match of `\bby\s(\d{4}-\d{2}-\d{2})\b`: the ten characters after `by ` at the first index where the phrase matches; None exactly when it matches nowhere |
| QuickAdd.WordRun | arcanascheduler.py:786-788 | greedy `\w+`: a run of word characters at the position, ended by a non-word character or the end |
| QuickAdd.FirstTagFrom | arcanascheduler.py:786-789 | the leftmost index where `\btag(\w+)\b` matches, and None exactly when it matches nowhere |
| QuickAdd.FirstTagFromFinds | arcanascheduler.py:786-789 | conversely, whenever the tag matches at i and nowhere before, the search returns i |
| QuickAdd.TagValue | arcanascheduler.py:786-789 | the capture of the leftmost match of `\btag(\w+)\b`: all word characters after the tag at the first index where it matches; None exactly when no tag matches |
| QuickAdd.RemoveTagDeletes | arcanascheduler.py:796-797 | `re.sub` only deletes characters: the result is no longer than the text and is a subsequence of it, so the kept characters stay in their order |
| QuickAdd.RemoveTagNoTag | arcanascheduler.py:796-797 | text without the tag is unchanged |
| QuickAdd.RemoveTagKeepsPrefix | arcanascheduler.py:796-797 | text before the first possible tag is kept |
| QuickAdd.RemoveTag | arcanascheduler.py:796-797 | one left-to-right `re.sub` pass; its result is an order-keeping subsequence of the text (`QuickAdd.RemoveTagDeletes`), is the text itself when no tag occurs (`QuickAdd.RemoveTagNoTag`), and passes a tag-free prefix through unchanged (`QuickAdd.RemoveTagKeepsPrefix`) |
| QuickAdd.QuickTitle | arcanascheduler.py:792-798 | the title left after the `by ` cut and the tag deletions; `QuickAdd.QuickTitleCutsAtBy` and `QuickAdd.QuickTitlePlain` state it for all texts, the examples below for two |
| QuickAdd.QuickTitleCutsAtBy | arcanascheduler.py:793-794 | nothing from the first "by " on reaches the title: the title of a text holding "by " is the title of its stripped part before that "by " |
| QuickAdd.QuickTitlePlain | arcanascheduler.py:792-798 | a text with no "by " and no priority or category tag has its stripped self as title |
| QuickAdd.ParseQuickAdd | arcanascheduler.py:779-813 | the task `quick_add_task` builds; stated by `QuickAdd.QuickAddDefaults`, `QuickAdd.QuickAddTags` and `QuickAdd.QuickAddDate` |
| QuickAdd.QuickAddDefaults | arcanascheduler.py:780-813 | blank text adds nothing; otherwise the task is Pending, not recurring, without phase, objective, description, resources, estimate or timestamp, and has a stripped title |
| QuickAdd.QuickAddTags | arcanascheduler.py:786-789 | priority and category are the capitalised tag values when present, Medium and General otherwise |
| QuickAdd.QuickAddDate | arcanascheduler.py:784-785 | the date is the `by` phrase's date, unchecked, or today's date, which parses back as today |
| QuickAdd.RubyCut | arcanascheduler.py:793-794 | the first "by " of "Learn Ruby by 2024-05-01" is the one inside "Ruby", so split keeps "Learn Ru" |
| QuickAdd.RubyTitle | arcanascheduler.py:793-798 | "Learn Ruby by 2024-05-01" gets the title "Learn Ru" |
| QuickAdd.RubyDate | arcanascheduler.py:784 | its date phrase is found after "Ruby": 2024-05-01 |
| QuickAdd.RubyExample | arcanascheduler.py:779-813 | the task added for that text has title "Learn Ru" and date 2024-05-01 |
| QuickAdd.PriorityTitle | arcanascheduler.py:792-798 | "Call Alice priority:HIGH" gets the title "Call Alice" |
| QuickAdd.PriorityValue | arcanascheduler.py:786 | its priority tag value is "HIGH" |
| QuickAdd.CategoryAbsent | arcanascheduler.py:788 | it has no category tag |
| QuickAdd.CapitalizeHigh | arcanascheduler.py:787 | "HIGH" capitalises to "High" |
| QuickAdd.PriorityExample | arcanascheduler.py:779-813 | the task added for it has title "Call Alice", priority "High" and category "General" |
| Store.UnlinkTasksFromPhase | arcanascheduler.py:166 | `UPDATE tasks SET phase_id=NULL, objective_id=NULL WHERE phase_id=?`; stated by `Store.UnlinkSpec` |
| Store.UnlinkObjectivesFromPhase | arcanascheduler.py:168 | `UPDATE objectives SET phase_id=NULL WHERE phase_id=?`; stated by `Store.UnlinkSpec` |
| Store.UnlinkTasksFromObjective | arcanascheduler.py:237 | `UPDATE tasks SET objective_id=NULL WHERE objective_id=?`; stated by `Store.UnlinkSpec` |
| Store.DeletePhaseKeepsRefs | arcanascheduler.py:158-172 | deleting a phase leaves no dangling phase or objective reference |
| Store.DeleteObjectiveKeepsRefs | arcanascheduler.py:230-240 | deleting an objective leaves no dangling reference |
| Store.DeleteTaskKeepsRefs | arcanascheduler.py:372-377 | deleting a task leaves no dangling reference |
| Store.UnlinkSpec | arcanascheduler.py:166-168 | the nullifying updates keep every row in place with its id; a row naming the deleted phase or objective gets NULL in that column (a task in a deleted phase also loses its objective) with every other column kept; every other row is unchanged |
| Store.ArcanaeumDb.constructor | arcanascheduler.py:45-106 | a new store is empty and keyed |
| Store.ArcanaeumDb.AddPhase | arcanascheduler.py:111-124 | appends the phase under the next, unused id; nothing else changes |
| Store.ArcanaeumDb.UpdatePhase | arcanascheduler.py:146-156 | replaces the phase's columns; nothing else changes |
| Store.ArcanaeumDb.DeletePhase | arcanascheduler.py:158-172 | clears task phase and objective ids and objective phase ids naming the phase, removes it, and keeps references valid |
| Store.ArcanaeumDb.AddObjective | arcanascheduler.py:177-194 | appends the objective under the next, unused id; nothing else changes |
| Store.ArcanaeumDb.UpdateObjective | arcanascheduler.py:216-228 | replaces the objective's columns; nothing else changes |
| Store.ArcanaeumDb.DeleteObjective | arcanascheduler.py:230-240 | clears task objective ids naming the objective, removes it, and keeps references valid |
| Store.ArcanaeumDb.AddTask | arcanascheduler.py:245-285 | appends the encoded task under the next, unused id; with clean resources it reads back by id as given |
| Store.ArcanaeumDb.TaskById | arcanascheduler.py:317-345 | None exactly when no row has the id; otherwise a task with that id, one of those `get_tasks` lists |
| Store.ArcanaeumDb.UpdateTask | arcanascheduler.py:347-370 | replaces the task's columns; with clean resources it reads back as given; every other id reads as before |
| Store.ArcanaeumDb.DeleteTask | arcanascheduler.py:372-377 | removes the task, which no longer reads back; nothing else changes |
| Store.FindAppended | arcanascheduler.py:317-345 | a row appended under a fresh id is found by that id |
| App.DeriveRows | arcanascheduler.py:621-635 | the task table after the status pass; stated by `App.DeriveRowsFrame` and `App.DeriveRowsIdempotent` |
| App.DeriveRowsFrame | arcanascheduler.py:621-635 | a refresh keeps every row, its order and id, changes at most the status, and leaves rows not Pending or with an unparsable date untouched |
| App.DeriveRowsIdempotent | arcanascheduler.py:621-635 | refreshing twice on the same day stores what refreshing once stored |
| App.WriteBackDerived | arcanascheduler.py:633 | writing back the derived task dictionary stores exactly the derived row |
| App.WriteBackCompleted | arcanascheduler.py:776 | writing back the completed task dictionary stores exactly the completed row |
| App.CompleteRow | arcanascheduler.py:761-776 | the task table after completing one id; stated by `App.CompleteRowSpec` |
| App.CompleteRowSpec | arcanascheduler.py:761-776 | completing an id that exists rewrites its row alone; an id that does not exist changes nothing |
| App.Arcanaeum.constructor | arcanascheduler.py:509-584 | the window opens with an empty search and quick-add box and every filter on "All" |
| App.Arcanaeum.PopulateTasks | arcanascheduler.py:593-671 | the stored tasks become their derived rows; a phase or objective filter no longer offered falls back to "All"; the list holds exactly the decoded tasks the filters select, in order; the search, category, priority and quick-add boxes and the other tables are unchanged |
| App.Arcanaeum.DeriveStatuses | arcanascheduler.py:621-635 | the status loop stores exactly the derived rows, and the list it leaves is what `get_tasks` now returns; the other tables are unchanged |
| App.Arcanaeum.MarkCompleted | arcanascheduler.py:756-777 | with nothing selected, the tables, filters and list are unchanged; otherwise the selected task, if it exists, is completed and written back, and the refresh leaves the derived rows, the normalised filters and the filtered list; the search, category, priority and quick-add boxes are unchanged |
| App.Arcanaeum.AddAndRefresh | arcanascheduler.py:1235-1237 | `add_task` then the refresh: the task is appended under a fresh id, the rows are derived, the filters normalised and the list filtered; nothing else changes |
| App.Arcanaeum.UpdateAndRefresh | arcanascheduler.py:1233-1237 | `update_task` then the refresh: the id's columns are replaced, the rows are derived, the filters normalised and the list filtered; nothing else changes |
| App.Arcanaeum.QuickAddTask | arcanascheduler.py:779-816 | blank text changes nothing (tables, box, filters, list); otherwise the parsed task is added under a fresh id, the box is cleared, and the refresh leaves the derived rows, normalised filters and the filtered list; the other boxes and tables are unchanged |
| App.Arcanaeum.SaveTaskDialog | arcanascheduler.py:1175-1238 | the result is what `Forms.SaveTask` gives; a rejected form leaves the tables, filters and list unchanged; a saved one updates the edited task or adds a new one, then the refresh leaves the derived rows, normalised filters and filtered list; the other boxes and tables are unchanged |

## Left out

- Tk widgets, menus, treeview rows, theme and focus toggles: user interface only. The list the
  tree shows is `filteredTasks`; its two label columns are the labels proved about in `Filters`.
- SQLite connections and SQL text: the tables are sequences in a class, and there is no
  atomicity across calls to model.
- A refresh uses `today` as given. The application reads the clock separately in
  `mark_completed`/`quick_add_task` and again in `populate_tasks`; the model uses the day of
  `now` for both, so a refresh that falls on the next day is not modelled.
- `get_phases` sorts by phase number. The model keeps insertion order, which changes only the
  order of the phase filter's choices; the filter fallback looks only at membership.
- Unicode: `\d`, `\w` and `int()` accept non-ASCII digits and letters, and `lower()` and
  `capitalize()` fold non-ASCII letters. The model takes ASCII digits and letters only and
  leaves other characters unchanged by case conversion. The whitespace set of `strip()` is
  CPython's. `re.IGNORECASE` also matches 'ı' with 'i' and 'ſ' with 's', so a tag such as
  `prıorıty:high` is found by the application but not by `QuickAdd.TagHere`.
- `strftime('%Y')` for years below 1000 is platform-dependent; the model pads to four digits.
- The add methods return nothing in the application; the model exposes the new id through
  `lastTaskId`, `lastPhaseId` and `lastObjectiveId`.
- The phase and objective managers' own dialogs and their validation; the store operations they
  call are modelled.
- `get_phases`, `get_objectives`, `get_reflections`, reflections, JSON/ICS/CSV import and export,
  notifications, calendar, kanban and statistics views, and the weekly report: I/O, foreign
  libraries or user interface.
- `sort_by`: its key mixes floats and strings, which is not a well-defined order in Python 3.
- `update_progress`: a floating-point percentage.
- The application's `delete_task` and `edit_task_dialog` handlers are not modelled beyond the
  store operations they call (`Store.ArcanaeumDb.DeleteTask`, `Store.ArcanaeumDb.TaskById`).
- App.Arcanaeum.constructor: the window's opening refresh is not part of the constructor;
  call `PopulateTasks` after it.
- Store.ArcanaeumDb.constructor: models a first run on a new database file. On an existing
  `arcanaeum.db`, `CREATE TABLE IF NOT EXISTS` keeps the stored rows and AUTOINCREMENT counters,
  which the model does not load.
- `gradient_example.py` is not part of this model.
