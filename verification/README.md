# A wellness app's interactive tools, modelled in Dafny

This project models the stateful logic of the wellness app's interactive
tools. Each tool is a small state machine whose React `setState` updaters are
rewritten here as total functions on immutable records:

- **Breathing exercise** (`Breathing`): a once-per-second countdown through
  inhale, hold, exhale and rest. A phase whose duration is zero is skipped, and
  a cycle is counted each time the exercise wraps back to inhale. The three
  techniques are 4-7-8, square and simple.
- **Pomodoro timer** (`Pomodoro`): work, break and long-break modes, a
  completed-interval counter with a long break after every fourth work
  interval, the minutes:seconds display, and the minute settings with their
  `parseInt(...) || default` fallbacks.
- **Task breaker** (`TaskBreaker`): a keyword classifier (exam, then essay,
  then project, else general) that returns one of four fixed step lists. It
  also covers the checklist built from those steps (`task-0`, `task-1`, …),
  toggling, and the rounded progress percentage.
- **Thought diary** (`ThoughtDiary`) and **small wins** (`SmallWins`): entry
  lists, newest first, with validated saving, deletion by id, and storage
  mirroring. Both share `EntryStore`: removal by id, the
  persist-only-when-non-empty effect, and the load on mount.
- **Pixel-art therapy** (`PixelArt`): the three picture grids, a set of
  coloured cells toggled by clicks, and the progress and completion checks.
- **5-4-3-2-1 grounding** (`AntiPanic`): the five-step table, "next",
  "restart", and the completed flag.

Shared helpers: `Text` models JavaScript's `trim`, `includes`, `toLowerCase`
and decimal rendering. `Percent` models `Math.round(100 * part / whole)`,
written as `(200 * part + whole) / (2 * whole)`.

Each interval callback is one atomic `Tick`. No interval exists while a
timer is stopped, so a tick on a stopped state changes nothing. Clock-derived
values are parameters: `Date.now()` ids and `toLocaleDateString` dates. The
stored JSON is an abstract snapshot: `None` means nothing is stored and
`Some(list)` is the stored list.

Behaviours of the code that the proofs make explicit:

- Starting the breathing exercise always restarts at the top of an inhale, so
  pause-then-start does not resume. The pomodoro timer does resume.
- The pomodoro mode switch happens on the tick after the countdown reaches 0,
  so a mode of N seconds lasts N + 1 ticks.
- `parseInt(...) || 25` falls back only for `NaN` and 0. A negative number is
  taken as typed, and the countdown stays non-negative only for non-negative
  settings.
- The task progress is 100 exactly when every step is ticked only for fewer
  than 200 steps. With 200 steps and 199 ticked it already rounds to 100.
  Generated checklists have at most 8 steps.
- The hint example "Подготовиться к экзамену по истории" gets the exam plan
  because it contains "экзамен". The hint example "Написать курсовую работу"
  gets the general plan, because "курсовую" does not contain the keyword
  "курсовая".
- The diary and the wins list are written to storage only while non-empty.
  Deleting the last entry therefore leaves the old snapshot in place, and a
  reload brings the entry back.
- The diary's validation does not trim, so fields holding only spaces are
  accepted. The wins input is trimmed, and the stored text is the trimmed one.

Further facts about the code that the model keeps:

- Removing an entry is persisted only while something is left
  (`if (entries.length > 0)`), and stored data is parsed without a guard.
- Breathing start reloads the inhale phase rather than resuming a paused
  countdown.
- Pomodoro reset keeps `completedPomodoros`.

## Model

| member | source | states |
|---|---|---|
| Breathing.PatternOf | components/reset/breathing-exercise.tsx:14-36 | the technique table; every technique has a positive inhale and exhale |
| Breathing.Tick | components/reset/breathing-exercise.tsx:49-77 | above one second a tick only decrements; otherwise the next phase is the first later phase in cyclic order with a positive duration, its full duration is loaded, and the count rises by one exactly when inhale is re-entered; the clock never shows less than 1 and a zero-length phase is never entered |
| Breathing.Segment | components/reset/breathing-exercise.tsx:49-50 | a phase entered with d seconds is kept through the first d−1 ticks, counting down by one each, and left on the d-th |
| Breathing.FullCycle | components/reset/breathing-exercise.tsx:49-77 | from the top of an inhale, one full cycle takes inhale+hold+exhale+rest ticks, ends at the top of an inhale with the count one higher, and the count stays put until then |
| Breathing.StartedCycles | components/reset/breathing-exercise.tsx:70-89 | after a start, n cycles take n times the cycle length and add exactly n to the count |
| Breathing.FourSevenEightCycle | components/reset/breathing-exercise.tsx:15-21 | a 4-7-8 cycle takes 19 ticks |
| Breathing.PausedIsFrozen | components/reset/breathing-exercise.tsx:45-46 | no tick changes a paused exercise |
| Breathing.Start | components/reset/breathing-exercise.tsx:85-89 | start runs from the top of an inhale of the selected technique and keeps the cycle count |
| Breathing.Pause | components/reset/breathing-exercise.tsx:91-93 | pause only stops the timer |
| Breathing.Reset | components/reset/breathing-exercise.tsx:95-100 | reset stops, returns to the top of an inhale and zeroes the count |
| Breathing.SelectPattern | components/reset/breathing-exercise.tsx:143 | picking a technique changes nothing else |
| Pomodoro.Tick | components/structure/pomodoro-timer.tsx:36-54 | a positive countdown only decrements; at 0 the mode changes (work to a break, a break to work), the new mode's minutes times 60 are loaded, a finished work interval is counted, and the break is long exactly when the new count is a multiple of 4; with non-negative settings the countdown stays non-negative |
| Pomodoro.RestAfter | components/structure/pomodoro-timer.tsx:47 | the break after the interval that brings the count to k is long exactly when k is a multiple of 4 |
| Pomodoro.ModeSpan | components/structure/pomodoro-timer.tsx:38 | a mode entered with N seconds shows 0 after N ticks and is left on tick N+1 |
| Pomodoro.Round | components/structure/pomodoro-timer.tsx:45-53 | one work interval plus its break returns to the top of work with the count one higher |
| Pomodoro.RoundsCount | components/structure/pomodoro-timer.tsx:46 | after k rounds the completed count has risen by exactly k |
| Pomodoro.KthBreakIsLongIffMultipleOf4 | components/structure/pomodoro-timer.tsx:47 | from zero completed, the break after the k-th work interval is long exactly when k is a multiple of 4 |
| Pomodoro.NeverNegative | components/structure/pomodoro-timer.tsx:38-53 | with non-negative settings, no sequence of ticks makes the countdown negative |
| Pomodoro.Start | components/structure/pomodoro-timer.tsx:63 | start only switches the timer on |
| Pomodoro.Pause | components/structure/pomodoro-timer.tsx:64 | pause only switches the timer off |
| Pomodoro.PauseResume | components/structure/pomodoro-timer.tsx:63-64 | pausing then starting resumes the same countdown in the same mode |
| Pomodoro.Reset | components/structure/pomodoro-timer.tsx:65-69 | reset stops and loads a full work interval, keeping the completed count |
| Pomodoro.Display | components/structure/pomodoro-timer.tsx:60-61 | for a non-negative countdown, minutes*60 + seconds is the countdown and the seconds lie in 0..59 |
| Pomodoro.UntilLongBreak | components/structure/pomodoro-timer.tsx:146 | the hint lies in 1..4 and is the number of further intervals that makes the count a multiple of 4 |
| Pomodoro.ParseMinutes | components/structure/pomodoro-timer.tsx:161 | a failed parse or a zero falls back to the default; any other number is kept |
| Pomodoro.SetWorkMinutes | components/structure/pomodoro-timer.tsx:160-166 | the work setting becomes the parsed value or 25, and the countdown is re-synced only for a stopped work interval |
| Pomodoro.SetBreakMinutes | components/structure/pomodoro-timer.tsx:177 | the break setting becomes the parsed value or 5, nothing else changes |
| Pomodoro.SetLongBreakMinutes | components/structure/pomodoro-timer.tsx:188 | the long-break setting becomes the parsed value or 15, nothing else changes |
| TaskBreaker.Classify | components/structure/task-breaker.tsx:28-62 | exam when an exam keyword occurs; essay when no exam keyword but an essay keyword does; project when neither but a project keyword does |
| TaskBreaker.ClassifyIsFirstMatch | components/structure/task-breaker.tsx:28-62 | the classifier returns the first category of the priority table with a matching keyword, else the general one |
| TaskBreaker.Breakdown | components/structure/task-breaker.tsx:24-73 | the result is one of the four fixed lists, of length 6, 8, 7 or 6 by category, never empty, and the exam list exactly when an exam keyword occurs in the lower-cased task |
| TaskBreaker.BreakdownIgnoresCase | components/structure/task-breaker.tsx:26 | lower-casing the task first does not change the result |
| TaskBreaker.ExamExample | components/structure/task-breaker.tsx:133 | the exam hint phrase gets the exam plan |
| TaskBreaker.GeneralExample | components/structure/task-breaker.tsx:64-72 | a phrase with no keyword gets the general plan |
| TaskBreaker.CourseworkHintIsGeneral | components/structure/task-breaker.tsx:133 | the coursework hint phrase gets the general plan, not the essay plan |
| TaskBreaker.Enumerate | components/structure/task-breaker.tsx:83-89 | the checklist keeps the steps' order, gives step i the id task-i, and ticks nothing |
| TaskBreaker.TaskIdInjective | components/structure/task-breaker.tsx:85 | different positions get different ids |
| TaskBreaker.EnumerateDistinctIds | components/structure/task-breaker.tsx:84-85 | generated ids are pairwise distinct |
| TaskBreaker.Generate | components/structure/task-breaker.tsx:75-92 | a blank task changes nothing; otherwise the checklist is the enumerated breakdown, 6 to 8 steps long |
| TaskBreaker.ToggleStep | components/structure/task-breaker.tsx:94-96 | the checkbox handler keeps the task text, the length, every id and text, and flips the tick of exactly the steps with the id |
| TaskBreaker.Toggle | components/structure/task-breaker.tsx:94-96 | length, ids and texts are kept, and exactly the steps with the id flip their tick |
| TaskBreaker.ToggleTwice | components/structure/task-breaker.tsx:95 | toggling an id twice restores the checklist |
| TaskBreaker.ToggleAbsent | components/structure/task-breaker.tsx:95 | toggling an id no step carries changes nothing |
| TaskBreaker.Reset | components/structure/task-breaker.tsx:98-101 | reset clears the task and the checklist |
| TaskBreaker.CompletedCount | components/structure/task-breaker.tsx:103 | the count is at most the length, equals it exactly when all steps are ticked, and is 0 exactly when none is; for one step it is 1 exactly when that step is ticked |
| TaskBreaker.CompletedCountAppend | components/structure/task-breaker.tsx:103 | the count of a joined checklist is the sum of the counts, so with the one-step values it is the number of ticked steps |
| TaskBreaker.Progress | components/structure/task-breaker.tsx:104 | 0 for an empty checklist, otherwise 100 times the ticked steps over all steps rounded half up; at most 100, and for fewer than 200 steps 100 exactly when every step is ticked |
| TaskBreaker.ReachableStepsPreserved | components/structure/task-breaker.tsx:83-101 | generating, toggling and resetting keep checklists at most 8 steps long |
| Percent.RoundedPercent | components/structure/task-breaker.tsx:104 | the result is the nearest integer to 100*part/whole, halves rounded up |
| Percent.RoundedPercentFullIff | components/structure/task-breaker.tsx:104 | below 200 items the percentage is 100 exactly when the part is the whole |
| Percent.RoundedPercentFullAt200 | components/structure/task-breaker.tsx:104 | 199 of 200 already rounds to 100 |
| Text.Contains | components/structure/task-breaker.tsx:28-52 | `includes` holds exactly when the word occurs at some position of the text; `ContainsAt` and `ContainsChars` are the two directions used to decide the keyword tests |
| Text.Trim | components/structure/small-wins.tsx:40-44 | the trimmed text occurs in the input, is empty exactly for blank input, neither starts nor ends with whitespace, and an input that does neither is returned whole |
| Text.TrimShape | components/structure/small-wins.tsx:44 | the trimmed text is the infix `s[a..b]` with only whitespace before `a` and from `b` on, so only leading and trailing whitespace is removed |
| Text.Lower | components/structure/task-breaker.tsx:26 | same length; each character is mapped on its own, no capital in A–Z or U+0400–U+042F survives, and every other character is unchanged |
| Text.DecimalInjective | components/structure/task-breaker.tsx:85 | different numbers render to different digit strings |
| EntryStore.RemoveId | components/resources/thought-diary.tsx:85 | the survivors are entries of the list without the id, every entry without the id survives, and an absent id changes nothing |
| EntryStore.RemoveIdAppend | components/structure/small-wins.tsx:55 | removal works piecewise, so survivors keep their order |
| EntryStore.PrependThenRemove | components/resources/thought-diary.tsx:79-85 | prepending an entry with a fresh id and removing that id restores the list |
| EntryStore.Persist | components/resources/thought-diary.tsx:49-53 | a non-empty list is written to storage; an empty list leaves the previous snapshot exactly as it was |
| EntryStore.Load | components/resources/thought-diary.tsx:42-47 | the snapshot when one exists, the empty list otherwise; storing the list just loaded leaves the snapshot unchanged, and `PersistThenLoad` is the round trip the other way |
| EntryStore.PersistThenLoad | components/structure/small-wins.tsx:24-37 | a non-empty list survives store-and-reload; an empty one reloads as the older snapshot |
| ThoughtDiary.Complete | components/resources/thought-diary.tsx:56-62 | a save goes through exactly when each of the six fields holds a non-empty string; the cleared form never does |
| ThoughtDiary.EntryOf | components/resources/thought-diary.tsx:68-77 | the new entry copies all six fields verbatim and takes the given id and date |
| ThoughtDiary.Save | components/resources/thought-diary.tsx:55-82 | an incomplete draft changes nothing; otherwise one entry is prepended, the old ones follow in order, the form is cleared and closed, and the list is stored |
| ThoughtDiary.BlankFieldsAccepted | components/resources/thought-diary.tsx:56-62 | fields holding only a space pass validation |
| ThoughtDiary.Delete | components/resources/thought-diary.tsx:84-87 | entries with the id go, an absent id changes nothing, a deleted expanded entry is collapsed, and storage is written only if something is left |
| ThoughtDiary.ToggleExpanded | components/resources/thought-diary.tsx:249 | clicking expands the entry, or collapses it if it was the expanded one |
| ThoughtDiary.Mount | components/resources/thought-diary.tsx:42-47 | the mounted list is the stored one, or empty when nothing is stored |
| ThoughtDiary.SaveThenDelete | components/resources/thought-diary.tsx:79-85 | saving with a fresh id then deleting that id restores the list |
| ThoughtDiary.DeleteIdempotent | components/resources/thought-diary.tsx:85 | deleting an id twice equals deleting it once |
| ThoughtDiary.LastDeleteComesBack | components/resources/thought-diary.tsx:49-53 | deleting the only entry empties the list but a reload brings it back |
| SmallWins.Add | components/structure/small-wins.tsx:39-52 | blank input changes nothing; otherwise the trimmed text is prepended as a new win, the old wins follow in order, the input is cleared and the list is stored |
| SmallWins.Delete | components/structure/small-wins.tsx:54-56 | wins with the id go, an absent id changes nothing, and storage is written only if something is left |
| SmallWins.Mount | components/structure/small-wins.tsx:24-30 | the mounted list is the stored one, or empty when nothing is stored |
| SmallWins.TodayWins | components/structure/small-wins.tsx:58 | only wins dated today and every such win, never more than the whole list; for one win, that win if dated today and nothing otherwise |
| SmallWins.TodayWinsAppend | components/structure/small-wins.tsx:58 | the filter of a joined list is the join of the filters, so with the one-win values the result is the in-order subsequence of today's wins and `todayWins.length` counts them |
| SmallWins.AddCountsToday | components/structure/small-wins.tsx:48-58 | a win added today raises today's count by one |
| SmallWins.AddThenDelete | components/structure/small-wins.tsx:48-55 | adding with a fresh id then deleting it restores the list |
| PixelArt.TemplateTotals | components/reset/pixel-art-therapy.tsx:13-72 | the lighthouse, cloud and boat pictures have 27, 27 and 16 cells to colour |
| PixelArt.TotalPixels | components/reset/pixel-art-therapy.tsx:72 | zero exactly when every value of the grid is 0; `GridCellsSize` shows it is the number of non-zero cells |
| PixelArt.GridCellsSize | components/reset/pixel-art-therapy.tsx:72 | the set of non-zero cells has exactly `totalPixels` members |
| PixelArt.PictureCells | components/reset/pixel-art-therapy.tsx:72 | the colourable cells are exactly the in-range non-zero cells, as many as `totalPixels` |
| PixelArt.Click | components/reset/pixel-art-therapy.tsx:75-87 | a click on a zero cell changes nothing; any other click flips exactly that cell's membership |
| PixelArt.ClickTwice | components/reset/pixel-art-therapy.tsx:77-86 | two clicks on the same cell restore the colouring |
| PixelArt.Start | components/reset/pixel-art-therapy.tsx:89-92 | start shows the grid with nothing coloured |
| PixelArt.Reset | components/reset/pixel-art-therapy.tsx:94-96 | reset uncolours everything and changes nothing else |
| PixelArt.Back | components/reset/pixel-art-therapy.tsx:209 | going back to the picker keeps the colouring |
| PixelArt.Select | components/reset/pixel-art-therapy.tsx:138 | picking a picture keeps the colouring |
| PixelArt.ConsistentPreserved | components/reset/pixel-art-therapy.tsx:71-96 | every action keeps the coloured cells inside the shown picture's non-zero cells |
| PixelArt.Progress | components/reset/pixel-art-therapy.tsx:73 | on a consistent grid progress is 100 times the coloured cells over `totalPixels` rounded half up, at most 100, and 100 exactly when every picture cell is coloured |
| PixelArt.IsComplete | components/reset/pixel-art-therapy.tsx:98 | while the grid is shown and consistent, holds exactly when the coloured set is the whole picture; `CompleteIffAllColoured` gives the per-cell form |
| PixelArt.CompleteIffAllColoured | components/reset/pixel-art-therapy.tsx:98 | on a consistent grid `isComplete` holds exactly when every non-zero cell is coloured |
| AntiPanic.StepNumbersCountDown | components/reset/anti-panic.tsx:12-43 | five steps numbered 5, 4, 3, 2, 1 |
| AntiPanic.Next | components/reset/anti-panic.tsx:49-55 | below the last step, next advances by one; on it, next marks completion and stays; the step index stays in range |
| AntiPanic.Restart | components/reset/anti-panic.tsx:57-60 | restart returns to step 0, not completed |
| AntiPanic.PressesFromStart | components/reset/anti-panic.tsx:46-55 | from the start, n < 5 presses reach step n; 5 or more reach step 4 completed |
| AntiPanic.CompletedIffFivePresses | components/reset/anti-panic.tsx:49-55 | the exercise is completed after n presses exactly when n is at least 5 |

## Left out

- Interval scheduling, effect dependency arrays and cleanup, and React state
  batching. Each tick is one atomic call. The updaters read `phase`, `pattern`
  and the settings from their closure, and the model reads them from the
  current state.
- The pomodoro completion sound: it is an audio side effect.
- `localStorage` and JSON. Storage is an abstract snapshot, and parsing of
  malformed data is not modelled (the code has no guard for it).
- `Date.now()` ids and `toLocaleDateString("ru-RU")` dates. They are
  parameters.
- The small-wins week count (`weekWins`): it depends on the current date and
  on `Date` parsing of the stored date strings.
- The two-second `setTimeout` that hides the small-wins banner, and the
  one-second delay and `isGenerating` flag in the task breaker's generate
  action. Generation is modelled as immediate.
- Thought-diary form editing (the per-field `onChange` handlers, the emotion
  buttons, showing and cancelling the form). These are direct field
  assignments with nothing to prove. The form's draft is the `Draft` record.
- Text.Lower: lower-cases only A–Z and U+0400–U+042F (`Ѐ`..`Я`), not the
  whole Unicode case mapping; other capitals such as `Ґ` (U+0490) or `Ѣ`
  (U+0462) are left as they are. All keywords are lower-case Cyrillic.
- ThoughtDiary.Save: the `alert` shown for an incomplete draft is not
  modelled; a rejected save is visible only as the unchanged state.
- Rounding: `Math.round` on floating point is modelled as exact rational
  rounding. For the list sizes that occur (at most 8 steps, 27 cells) no
  floating-point error crosses a rounding boundary.
- The knowledge base, pages, navigation and layout: static content and
  routing with no state to prove.
- Rendering, CSS class selection and icons.
