# A Dafny model of the scheduling, filtering and bookkeeping core

The project models the parts of the repository whose correctness rests on an argument rather than on
one line of code, and proves that argument. One module or a few stand for each source file.

* **Cron** (`Calendar`, `Text`, `Bits`, `Arith`, `CronField`, `CronParser`, `CronText`, `CronSpec`,
  `CronGaps`, `Scheduler`, `CronRefinement`, `CronRunner`, `CronPunctual`, `CronSchedules`,
  `ConstantDelay`). Field expressions become 64-bit sets; the next activation is found by skipping month,
  day, hour, minute and second with a shared flag and a restart; a second scheduler tries every minute. Main results: the skipping search finds the
  least activation up to the year limit; it refines the brute-force one; no activation of an entry is
  started twice in any run of the loop; with plans taken from the search, none is missed if every wake
  comes in time and the search never gives up early, which it does only on schedules of 29 February alone.
* **Filters** (`FilterIR`, `FilterParser`, `FilterSql`, `FilterTags`, `FilterNumbers`, `FilterLeaves`,
  `FilterRender`, `FilterQuery`, `FilterCompile`, `Like`, `LikeExact`). A parsed expression becomes
  a condition tree and then SQL with positional arguments. Expression, tree and SQL each have their own
  three-valued meaning (section 8.12 of ISO/IEC 9075:1992); LIKE follows section 8.5. Main results: both translations preserve meaning; statements parse and
  placeholders bind exactly as stated; LIKE over the JSON text of a list is list membership, exactly for
  the texts stated.
* **Tasks** (`TrackerCalendar`, `Tracker`, `TrackerProgress`, `TrackerStore`). What is due on a day,
  how many completions a range should hold, checkout and the dashboard's done button. Main result: doing
  what is due every day meets the expected count exactly.
* **Timesheets and sessions** (`Timesheet`, `TimesheetReport`, `Conflicts`, `ConflictDetection`).
  Absences deducted while ranging over a map; overlapping sessions. Main results: conservation of time
  with the exact cases in which the report's net hours, or the key order, deviate; conflict detection is
  sound, complete and independent of order.
* **State machines** (`Sessions`, `RateLimit`, `UserCache`), **migrations** (`Migrator`) and the
  **namelist import** (`Namelist`, `NamelistIds`, `NamelistImport`), each with invariants over whole runs.

Objects the source updates in place are classes whose methods are tied to a step function on their
abstract value; the laws are lemmas about that function. A Go map's iteration order is modelled by an
arbitrary choice, so results hold for every order.

Where a law one would expect is not one of the code, the code is kept, a lemma names an input on which it
fails, and the exact condition is proved instead:

* `?` placeholders do not bind when a constant folds away a side that has arguments (`FilterRender.Render`,
  `FilterRender.DiscardExample`); a driver that ignores surplus arguments then binds the wrong ones, exactly
  if a discarded argument comes before a kept one, in the filter or anywhere in the WHERE list
  (`FilterQuery.AppendConditions`, `FilterRender.MisbindExample`).
* An empty list renders as text that only SQLite parses, or for `tag` no dialect (`FilterRender.Render`,
  `FilterRender.EmptyListExample`, `FilterCompile.EmptyList`).
* Texts and tags with LIKE wildcards find too much (`FilterParser.ContainsExactly`,
  `FilterParser.PercentExample`; `FilterTags.MatchesTagExactly`, `LikeExact.UnderscoreExample`).
* Integer fields are compared with fractions cut off toward zero (`FilterParser.FractionExactly`,
  `FilterParser.HalfExample`), and arithmetic over literals wraps at 64 bits
  (`FilterParser.NumericExactly`, `FilterParser.WrapExample`).
* Dialects differ on a JSON flag that a row lacks (`FilterRender.MissingFlag`).
* An activation that falls between an entry's next one and a late wake is lost (`CronPunctual.WakeExactly`,
  `CronPunctual.LateIsLost`).
* The search gives up on 29 February where 2100 and its like make the next one eight years off: an entry of
  29 February alone, run in 2096, is never planned again (`CronGaps.GivesUpExactly`,
  `CronGaps.LeapDayExample`, `CronSchedules.GapLoses`, `CronSchedules.LeapDayPlan`).
* Two check-ins of different students on one device that both ask before either is recorded both pass
  (`RateLimit.RequestsKeptApart`, `RateLimit.RaceExample`).
* The two day rules of the cron engines differ when exactly one day field is a wildcard
  (`CronRefinement.DayRules`, `CronRefinement.MonthlyExample`).
* A day's net time can depend on map order when an absence of one type follows a partial one of all types
  (`Timesheet.OrderFreeExactly`, `Timesheet.OrderExample`), and the report's net hours fall short when a
  partial absence overshoots (`TimesheetReport.StaffTimesheet`, `Timesheet.OvershootExample`). Weeks are
  summed by number without the year (`TimesheetReport.SpanExactly`, `TimesheetReport.YearsAreMerged`).
* A student can be counted as behind on an item that can never be due for them
  (`TrackerProgress.AnsweringEverything`, `TrackerProgress.ShutOutItemStaysNotDone`), and undoing a
  completion also removes late sign-offs (`TrackerStore.UndoRestores`, `TrackerStore.LateSignoffExample`).
* User IDs that are no Unicode scalar values share one cache key (`UserCache.RightExactly`,
  `UserCache.SharedKeyExample`).
* Generated student and parent IDs collide after 999 (`NamelistIds.CollidesExactly`,
  `NamelistIds.PastTheEnd`).
* Upgrades compose only where path order agrees with version order (`Migrator.UpgradesCompose`,
  `Migrator.PathsDisagree`).

## Model

| member | source | states |
|---|---|---|
| CronSpec.Next | memos/lib/cron/spec.go:58-174 | the result is the least matching whole second strictly after the given instant; none exactly when no match exists up to the end of the fifth year after the upcoming second; all paths through the WRAP loops terminate |
| CronSpec.SeekMonth | memos/lib/cron/spec.go:97-110 | the month loop keeps "no activation skipped" and leaves with a matching month, or wrapped at a later time |
| CronSpec.SeekDay | memos/lib/cron/spec.go:117-136 | the same for the day loop, within the month found |
| CronSpec.SeekHour | memos/lib/cron/spec.go:138-148 | the same for the hour loop, within the day found |
| CronSpec.SeekMinute | memos/lib/cron/spec.go:150-160 | the same for the minute loop, within the hour found |
| CronSpec.SeekSecond | memos/lib/cron/spec.go:162-172 | the same for the second loop, within the minute found |
| CronSpec.SkipMonth | memos/lib/cron/spec.go:98-108 | one month step, with or without the first truncation, passes over no activation |
| CronSpec.SkipDay | memos/lib/cron/spec.go:118-134 | one day step passes over no activation |
| CronSpec.SkipHour | memos/lib/cron/spec.go:139-146 | one hour step passes over no activation |
| CronSpec.SkipMinute | memos/lib/cron/spec.go:151-158 | one minute step passes over no activation |
| CronSpec.SkipSecond | memos/lib/cron/spec.go:163-170 | one second step passes over no activation |
| CronSpec.Found | memos/lib/cron/spec.go:174 | a time the search stops at is the least activation |
| CronSpec.Exhausted | memos/lib/cron/spec.go:90-93 | passing the year limit means that no activation exists up to it |
| CronField.AcceptedPiece | memos/lib/cron/parser.go:263-329 | an accepted piece lies within its bounds and holds at least one value; a starred one holds all |
| CronField.ShiftMaskRepresents | memos/lib/cron/parser.go:355-360 | the shift form of getBits is the arithmetic progression of step 1 |
| CronField.LoopBits | memos/lib/cron/parser.go:362-367 | the loop form of getBits sets exactly the bits of the progression |
| CronField.GetBits | memos/lib/cron/parser.go:355-368 | both forms build exactly the progression, so they agree at step 1 |
| CronField.GetRange | memos/lib/cron/parser.go:263-329 | the bits are the piece's values, bit 63 is set exactly for a wildcard of step 1; errors are reported as the text deserves |
| CronField.GetField | memos/lib/cron/parser.go:245-257 | a field is accepted exactly if all pieces are, its bits are the union of their progressions, and otherwise the first piece's error is reported |
| CronField.AcceptedField | memos/lib/cron/parser.go:245-329 | an accepted field stays within bounds, a starred one matches everything, and it is empty exactly if it is made of commas only |
| CronField.PrintParses | memos/lib/cron/parser.go:263-329 | every proper range of an independent syntax tree, printed, is accepted and means what the syntax says |
| CronField.FieldRoundTrip | memos/lib/cron/parser.go:245-329 | printing a list of proper ranges and parsing it back loses and adds no value |
| CronParser.NormalizeFields | memos/lib/cron/parser.go:169-225 | accepts exactly the fitting numbers of fields; then the places that take one hold the given fields in order, an omitted optional one and all others their defaults |
| CronParser.PlacesUnique | memos/lib/cron/parser.go:214-225 | that determines the six fields |
| CronText.ParseFields | memos/lib/cron/parser.go:122-161 | on the fields of an expression, for any options: accepted exactly if they fit and each is accepted, and the schedule stores exactly their value sets |
| CronParser.StandardPlaces | memos/lib/cron/parser.go:226-228 | the standard options mean five fields, at second 0 |
| CronParser.PredefinedIsExpression | memos/lib/cron/parser.go:371-429 | @yearly, @monthly, @weekly, @daily and @hourly store what their five-field expressions say |
| CronParser.NumberField | memos/lib/cron/parser.go:263-329 | a number alone is the field of that one value |
| CronText.ParseText | memos/lib/cron/parser.go:97-161 | on the whole text: empty text, an unknown time zone and unknown descriptors are refused, a time zone with nothing after it panics, descriptors give their schedule or delay, and any other text is read as its words |
| CronText.StandardExpression | memos/lib/cron/parser.go:238-240 | five fields written with spaces between them are accepted exactly if each is, and the schedule stores exactly their value sets, at second 0 |
| CronText.DescriptorIsExpression | memos/lib/cron/parser.go:376-446 | a descriptor and the expression it abbreviates, both as text, are accepted and store the same value sets |
| CronText.ZoneInFront | memos/lib/cron/parser.go:102-112 | a known time zone in front leaves the reading of the rest as it is; alone it panics |
| Scheduler.Next | memos/lib/scheduler/parser.go:91-117 | the least matching time strictly after the given one if one comes before the four-year deadline, else none before it |
| Scheduler.ListMatches | memos/lib/scheduler/parser.go:210-217 | the scan decides membership |
| Scheduler.PrintParses | memos/lib/scheduler/parser.go:129-178 | every matcher a field can say, printed, is read back |
| Scheduler.ParseExactly | memos/lib/scheduler/parser.go:29-88 | a schedule comes out of some expression exactly if each matcher lies in its bounds and seconds, if left out, are 0; printed it is read back |
| CronRefinement.FieldsAgree | memos/lib/scheduler/parser.go:129-181 | a field both parsers accept holds the same values for both, and a star bit means that everything matches |
| CronRefinement.DayRules | memos/lib/scheduler/parser.go:120-126 | the two day rules agree on every date exactly if both day fields are restricted or both match everything |
| CronRefinement.MonthlyExample | memos/lib/scheduler/parser.go:120-126 | on the monthly expression they do not: the brute-force scheduler activates every day |
| CronRefinement.MatchesAgree | memos/lib/scheduler/parser.go:120-126 | under that condition the two engines activate at the same times |
| CronRefinement.DeadlineYear | memos/lib/scheduler/parser.go:93-102 | the four-year deadline lies within the five-year limit |
| CronRefinement.Refines | memos/lib/cron/spec.go:58-174 | from the contracts of both searches: what the brute-force one finds is what the skipping one finds; if it finds nothing, the skipping one finds nothing before the deadline |
| CronRefinement.NextBoth | memos/lib/scheduler/parser.go:91-117 | running both searches gives the same instant whenever the brute-force one finds any |
| CronRunner.StepKeepsInv | memos/lib/cron/cron.go:220-301 | every event keeps: distinct IDs issued in order, last activation before the next, log of started jobs ordered per entry |
| CronRunner.RunKeepsInv | memos/lib/cron/cron.go:220-301 | so does every run of start, stop, wake, add and remove |
| CronRunner.NoActivationTwice | memos/lib/cron/cron.go:220-301 | over any run no activation of an entry is started twice, activations of an entry start in order, live IDs differ |
| CronPunctual.WakeExactly | memos/lib/cron/cron.go:260-273 | after a wake every activation due by then has been started exactly if no due entry had a second one by then |
| CronPunctual.LateIsLost | memos/lib/cron/cron.go:265-273 | an activation a wake comes too late for is not started |
| CronPunctual.StepCatches | memos/lib/cron/cron.go:258-298 | every event keeps: all activations asked for before an entry's next one have been started |
| CronPunctual.ExactPlansMissNothing | memos/lib/cron/cron.go:220-301 | for plans that are least activations: from its start to any wake, a scheduler not stopped and always woken in time has started every activation of every live entry exactly once |
| CronGaps.GivesUpExactly | memos/lib/cron/spec.go:88-93 | for schedules with full stars: Next, wherever asked, finds an activation if there is one left, exactly if 29 February is not the only date in the schedule |
| CronGaps.LeapDayExpression | memos/lib/cron/spec.go:58-174 | 0 0 29 2 * stores midnight of 29 February and nothing else |
| CronGaps.LeapDayExample | memos/lib/cron/spec.go:88-93 | asked at midnight of 29 February 2096, such a schedule has no activation up to the year limit, though it activates in 2104 |
| CronGaps.ParsedIsFull | memos/lib/cron/parser.go:122-161 | every parsed schedule has full stars |
| CronSchedules.PlanNext | memos/lib/cron/cron.go:265-271 | the plan taken from Next is what its contract allows, in nanoseconds |
| CronSchedules.AnswerIsLeast | memos/lib/cron/spec.go:58-93 | it is the least later activation of the schedule, or none where there is none, exactly if Next does not give up early |
| CronSchedules.ServedIsExact | memos/lib/cron/cron.go:220-298 | an event planned by Next has exact plans exactly if none of its entries' Next gives up early |
| CronSchedules.NothingMissed | memos/lib/cron/cron.go:220-301 | with plans taken from Next, every wake in time and none given up early, every activation of every live entry is started exactly once |
| CronSchedules.CommonSchedulesMissNothing | memos/lib/cron/cron.go:220-301 | for schedules other than those of 29 February alone timely wakes are enough |
| CronSchedules.GapLoses | memos/lib/cron/cron.go:265-271 | once Next gives up early the entry is never due again, and an activation it still has is never started, however timely the wakes |
| CronSchedules.LeapDayPlan | memos/lib/cron/cron.go:265-271 | the schedule of 29 February, due at its activation of 2096, is planned never again while 2104 is an activation |
| CronRunner.WakeAdvances | memos/lib/cron/cron.go:260-273 | after a wake nothing is due, due entries moved on with a later Prev, others are untouched |
| CronRunner.CompareIsStrictWeakOrder | memos/lib/cron/cron.go:232-247 | the comparator is a strict weak order |
| CronRunner.Sort | memos/lib/cron/cron.go:232-247 | a sort by it: ordered, the same entries |
| CronRunner.BreakIsExact | memos/lib/cron/cron.go:265-268 | because the list is sorted, the early break leaves exactly the entries that are not due |
| CronRunner.BatchIsExact | memos/lib/cron/cron.go:260-273 | the jobs started are each due entry's activation once, earliest first |
| CronRunner.Cron.Schedule | memos/lib/cron/cron.go:139-155 | a fresh ID, planned at once if running |
| CronRunner.Cron.RemoveEntry | memos/lib/cron/cron.go:341-349 | exactly the entry with that ID is gone |
| CronRunner.Cron.StartRunning | memos/lib/cron/cron.go:220-228 | every entry is planned, unless already running |
| CronRunner.Cron.StopRunning | memos/lib/cron/cron.go:317-330 | the loop stops, entries stay |
| CronRunner.Cron.WakeUp | memos/lib/cron/cron.go:260-273 | the loop over the sorted list with its early break refines "run exactly the due entries" |
| CronRunner.Cron.NextWake | memos/lib/cron/cron.go:249-256 | the timer is set to the earliest activation of any entry, or to none |
| ConstantDelay.NextKeepsContract | memos/lib/cron/constantdelay.go:14-27 | the next time is later, on a whole second, and repeats at the clamped period |
| FilterIR.FoldsIsMeaning | memos/lib/filter/render.go:598-626 | a tree that folds to a constant has that truth value on every row |
| FilterRender.CombineFaithful | memos/lib/filter/render.go:89-107 | AND and OR of two faithful renderings are faithful: three-valued meaning, flags, numbering, whether the text parses, and the count of discarded arguments |
| FilterRender.NegateFaithful | memos/lib/filter/render.go:109-124 | the same for NOT, constants swapped |
| FilterNumbers.NumberedCount | memos/lib/filter/render.go:628-635 | placeholders increasing in a range are at most its size, and if as many, all of it in order |
| FilterRender.Renderer.AddArg | memos/lib/filter/render.go:628-635 | the k-th argument gets the offset plus k as its number |
| FilterRender.Renderer.RenderFieldPredicate | memos/lib/filter/render.go:126-147 | faithful rendering or refusal exactly as accepted |
| FilterRender.Renderer.RenderBoolColumnComparison | memos/lib/filter/render.go:246-256 | the same for comparisons of boolean columns |
| FilterRender.Renderer.RenderJSONBoolComparison | memos/lib/filter/render.go:258-311 | the same for JSON flags, with SQLite's treatment of missing ones |
| FilterRender.Renderer.RenderScalarComparison | memos/lib/filter/render.go:205-244 | the same for scalar fields, NULL tests included |
| FilterRender.Renderer.RenderFunctionComparison | memos/lib/filter/render.go:173-203 | the same for size() |
| FilterRender.Renderer.RenderComparison | memos/lib/filter/render.go:149-171 | the dispatch over the left side |
| FilterRender.Renderer.RenderScalarIn | memos/lib/filter/render.go:417-447 | the same for IN lists; the text parses exactly if the list is not empty or the dialect is SQLite |
| FilterRender.Renderer.RenderTagIn | memos/lib/filter/render.go:335-382 | the same for tag lists: a tag is one of them or below one; the text parses exactly if the list is not empty |
| FilterRender.Renderer.RenderIn | memos/lib/filter/render.go:313-333 | the dispatch between tag and scalar lists |
| FilterRender.Renderer.RenderElementIn | memos/lib/filter/render.go:384-415 | the same for "element in list" |
| FilterRender.Renderer.RenderContains | memos/lib/filter/render.go:449-469 | the same for contains() |
| FilterRender.Renderer.RenderExists | memos/lib/filter/render.go:471-554 | the same for exists() with its four predicates and the NULL check |
| FilterRender.Renderer.RenderCondition | memos/lib/filter/render.go:61-124 | every tree: refused exactly if not accepted, else a faithful rendering, which parses exactly if folding leaves no empty list the dialect cannot write; trivial and unsatisfiable are the folded constant, never both |
| FilterIR.NoDiscardSurvivors | memos/lib/filter/render.go:89-107 | folding discards no side that has arguments exactly if every argument survives |
| FilterRender.Render | memos/lib/filter/render.go:32-59 | the text parses exactly if folding leaves no empty list the dialect cannot write; on Postgres it binds after any arguments before it; with ? the arguments bind exactly if folding discards no side that has any, and for a driver that ignores surplus ones each placeholder gets its own exactly if those discarded come last; bound to its own arguments it means its tree if the tag literals are clean, and for a single tag test only then |
| FilterQuery.AppendConditions | memos/lib/filter/helpers.go:10-25 | for the whole WHERE list: it parses exactly if every filter does; it binds always on Postgres, with ? exactly if every filter keeps its arguments, and for a driver that ignores surplus ones each placeholder gets its own exactly if in the whole list no discarded argument comes before a kept one; bound to its own, with clean tag literals, it restricts the query by exactly the filters |
| FilterQuery.AppendMeans | memos/lib/filter/helpers.go:10-25 | one more filter restricts the query by exactly its meaning |
| FilterQuery.SkipTrivial | memos/lib/filter/helpers.go:19-21 | dropping a filter that folds to true drops nothing |
| FilterRender.DiscardExample | memos/lib/filter/render.go:89-107 | the smallest trees on which ? does not bind: a constant folds away a side with arguments; a driver that ignores surplus ones is misled if that side comes first and not if it comes last |
| FilterRender.MisbindExample | memos/lib/filter/render.go:89-107 | with such a driver the filter "(n == 7 or true) and n == 8" finds the rows with 7 and not those with 8 |
| FilterRender.EmptyListExample | memos/lib/filter/render.go:335-447 | tag in [] parses nowhere and other empty lists on SQLite only, also below NOT and OR, unless folded away |
| FilterRender.MissingFlag | memos/lib/filter/render.go:258-311 | SQLite and Postgres agree on a JSON flag exactly if it is present or is has_task_list |
| FilterTags.MatchesTag | memos/lib/filter/render.go:384-415 | the text test for a tag is membership, up to ASCII case on SQLite |
| FilterTags.MatchesTagExactly | memos/lib/filter/render.go:384-415 | on all lists of plain tags that is so exactly for tags without % and _ that are not the separator |
| FilterTags.MatchesChild | memos/lib/filter/render.go:335-382 | the text test for v/ is "some tag starts with v/" |
| FilterTags.MatchesChildExactly | memos/lib/filter/render.go:335-382 | on all lists of plain tags that is so exactly for texts without % and _ |
| FilterTags.MatchesPrefix | memos/lib/filter/render.go:513-535 | the text test for a prefix is "some tag starts with it" |
| FilterTags.MatchesPrefixExactly | memos/lib/filter/render.go:513-535 | on all non-empty lists, up to ASCII case on SQLite, exactly for texts without % and _ that do not start a bracket or separator |
| FilterTags.MatchesSuffix | memos/lib/filter/render.go:537-544 | the text test for a suffix is "some tag ends with it" |
| FilterTags.MatchesSuffixExactly | memos/lib/filter/render.go:537-544 | the same, exactly for texts that do not end one |
| FilterTags.MatchesInfix | memos/lib/filter/render.go:546-554 | the text test for an infix is "some tag contains it" |
| FilterTags.MatchesInfixExactly | memos/lib/filter/render.go:546-554 | the same, exactly for texts that do not occur in one |
| Like.LikeInfix | memos/lib/filter/render.go:449-469 | %q% matches exactly the texts in which q occurs |
| Like.LikeTag | memos/lib/filter/render.go:556-567 | over JSON text %"v"% finds exactly the tag v, and the separator if v is it |
| Like.LikeTagPrefix | memos/lib/filter/render.go:513-535 | %"p% finds exactly the tags starting with p, and the listed punctuation |
| Like.LikeTagChild | memos/lib/filter/render.go:335-382 | %"v/% finds exactly the tags starting with v/ |
| Like.LikeTagSuffix | memos/lib/filter/render.go:537-544 | %s"% finds exactly the tags ending with s, and the listed punctuation |
| Like.LikeTagInfix | memos/lib/filter/render.go:546-554 | %s% finds exactly the tags containing s, and the listed punctuation |
| LikeExact.InfixExactly | memos/lib/filter/render.go:449-469 | %q% matches exactly the texts q occurs in, for all texts, exactly if q has no %, no _ and, where there is an escape, no backslash |
| LikeExact.TagExactly | memos/lib/filter/render.go:556-567 | the pattern for a tag finds it and nothing else in all lists exactly if it is not wild and not the separator |
| LikeExact.PrefixExactly | memos/lib/filter/render.go:513-535 | the same for a prefix: not wild, and not the start of a bracket or separator |
| LikeExact.SuffixExactly | memos/lib/filter/render.go:537-544 | the same for a suffix |
| LikeExact.InfixTagExactly | memos/lib/filter/render.go:546-554 | the same for an infix, in non-empty lists |
| LikeExact.UnderscoreExample | memos/lib/filter/render.go:335-382 | the tag my_tag is also found in a list holding only myxtag |
| FilterParser.NumericWraps | memos/lib/filter/parser.go:359-409 | arithmetic over whole literals gives the exact value in 64 bits |
| FilterParser.NumericExactly | memos/lib/filter/parser.go:359-409 | it is right exactly if the exact value fits in 64 bits, whatever happens in between |
| FilterParser.WrapOperate | memos/lib/filter/parser.go:395-402 | wrapping operands first does not change the wrapped result |
| FilterParser.TruncationExactly | memos/lib/filter/render.go:680-699 | comparing with a truncated fraction is the same exactly for two operators, depending on the sign: never for equality |
| FilterParser.FractionExactly | memos/lib/filter/render.go:680-699 | a field is compared right with a fraction, on every row, exactly for those operators and signs |
| FilterParser.HalfExample | memos/lib/filter/render.go:680-699 | the integer 1 equals the fraction 1.5 after truncation |
| FilterParser.WrapExample | memos/lib/filter/parser.go:359-409 | the greatest 64-bit number plus 1 comes out as the least |
| FilterParser.BoolPreserved | memos/lib/filter/parser.go:339-357 | negations of boolean constants are worked out right |
| FilterParser.LiteralPreserved | memos/lib/filter/parser.go:229-283 | a literal has the value of the expression it replaces |
| FilterParser.CollectValues | memos/lib/filter/parser.go:162-170 | the loop over a list builds all its values or none |
| FilterParser.ComparisonPreserved | memos/lib/filter/parser.go:103-145 | a built comparison means the comparison of the two values, fractions included where cutting them off does no harm |
| FilterParser.InPreserved | memos/lib/filter/parser.go:147-194 | both forms of "in" mean membership |
| FilterParser.ContainsPreserved | memos/lib/filter/parser.go:196-227 | contains() means that the text occurs, up to case, for texts LIKE takes as they stand |
| FilterParser.ContainsExactly | memos/lib/filter/render.go:449-469 | it does so for every value of the field exactly for those texts: no %, no _ and, outside SQLite, no backslash |
| FilterParser.PercentExample | memos/lib/filter/render.go:449-469 | contains("100%") also finds 100x |
| FilterParser.LoopPreserved | memos/lib/filter/parser.go:480-513 | folding the exists() loop step over the tags is "some tag satisfies the predicate" |
| FilterParser.ExistsPreserved | memos/lib/filter/parser.go:416-453 | the extracted comprehension means its loop |
| FilterParser.BuildPreserves | memos/lib/filter/parser.go:10-101 | the tree means on every row what the expression says, harmless fractions included |
| FilterCompile.CompileToStatement | memos/lib/filter/engine.go:68-74 | end to end: the statement parses, binds and has the expression's truth value on every row exactly if folding leaves no empty list the dialect cannot write and no tag literal its tests misread and, with ?, discards no side that has arguments; a driver that ignores surplus arguments only needs those discarded to come last |
| FilterCompile.EmptyList | memos/lib/filter/parser.go:147-194 | name in [] is built and accepted by the renderer, and runs on SQLite only, for tag nowhere |
| TrackerCalendar.ISOWeekNamesWeeks | internal/database/tracker.go:576-585 | two days share an ISO week key exactly if they share their Monday |
| TrackerCalendar.MonthKeyNamesMonths | internal/database/tracker.go:587-596 | two days share a month key exactly if they share their month |
| TrackerCalendar.WeekStartIsMonday | internal/database/tracker.go:373-377 | the start of the week is the Monday on or before the day |
| Tracker.GetDueItems | internal/database/tracker.go:367-442 | query rows filtered by criteria are exactly the due items |
| Tracker.DueItemsMembers | internal/database/tracker.go:367-442 | an item is listed exactly if it is due, once |
| Tracker.CountExpected | internal/database/tracker.go:564-607 | the day-by-day count equals the closed form |
| Tracker.ExpectedCountsPeriods | internal/database/tracker.go:564-607 | the closed form is the number of days, weeks, months or single periods the clipped range touches |
| Tracker.OpenIsNewPeriod | internal/database/tracker.go:400-411 | after answering so far, an item is open exactly if the day starts a new period |
| Tracker.AnswersMeetExpectation | internal/database/tracker.go:367-442 | answering everything due every day makes exactly the expected number of responses to each item that concerns the student, and none to others |
| TrackerProgress.ProgressStats | internal/database/tracker.go:610-744 | each student's total, capped done count and rest |
| TrackerProgress.AnsweringEverything | internal/database/tracker.go:610-744 | after answering everything, done is exactly what is expected of the to-do items that concern the student, and what else the total holds is left not done |
| TrackerProgress.EverythingDone | internal/database/tracker.go:697-744 | nothing is left if every counted item concerns the student |
| TrackerProgress.ShutOutItemStaysNotDone | internal/database/tracker.go:624-646 | an item whose criteria exclude the student is counted and can never be done |
| TrackerStore.Database.SaveTrackerResponses | internal/database/tracker.go:447-501 | all open check-ins of today are closed and the answers recorded under the latest; without one nothing changes |
| TrackerStore.CheckedOutIsClosed | internal/database/tracker.go:454-465 | afterwards none is open, so repeating the checkout changes nothing |
| TrackerStore.Latest | internal/database/tracker.go:466-473 | the check-in answers are recorded under is the latest of the day |
| TrackerStore.Database.CompleteTaskItem | internal/database/tracker.go:204-234 | item marked and one response recorded, or nothing for an item without a student |
| TrackerStore.Database.UncompleteTaskItem | internal/database/tracker.go:242-264 | the mark and every completion without an attendance row are taken back |
| TrackerStore.Database.CompleteAndUndo | internal/database/tracker.go:204-264 | the round trip restores everything exactly if the item was not completed and no such completion was there before |
| TrackerStore.UndoRestores | internal/database/tracker.go:204-264 | the same as a law of the two operations |
| TrackerStore.LateSignoffExample | internal/database/tracker.go:242-264 | an item signed off late, then completed and undone, loses the sign-off |
| Timesheet.PartialLeavesRest | internal/reports/timesheet.go:131-147 | a partial absence from all types leaves the rest of the day, or nothing, in every order of the keys |
| Timesheet.OneConserves | internal/reports/timesheet.go:119-163 | one absence: net plus booked is at least scheduled, and equal exactly if it does not overshoot |
| Timesheet.DayConserves | internal/reports/timesheet.go:113-182 | a whole day: the same over any list of absences and orders |
| Timesheet.OrderFreeExactly | internal/reports/timesheet.go:119-165 | a day's net time is independent of the key order, whatever is scheduled, exactly if there is a full day off or no absence of one type follows a partial one of all types (unless that type was off already) |
| Timesheet.SettledAgrees | internal/reports/timesheet.go:119-165 | the "if" half: the same net for any two orders |
| Timesheet.UnsettledDiffers | internal/reports/timesheet.go:131-164 | the "only if" half: scheduled times on which two orders differ |
| Timesheet.OrderExample | internal/reports/timesheet.go:131-164 | two types of an hour, an hour off from all, an hour off from one: an hour or nothing is left |
| Timesheet.SettledOvershoots | internal/reports/timesheet.go:119-165 | where the net time depends on no order, whether an absence overshoots is decided by the input |
| Timesheet.OvershootExample | internal/reports/timesheet.go:131-147 | one type of an hour and a partial absence of two: more is booked than scheduled |
| TimesheetReport.TakeFromAll | internal/reports/timesheet.go:131-147 | the loop over the keys, in whatever order they come, is the deduction and leaves the rest of the day, or nothing |
| TimesheetReport.ZeroAll | internal/reports/timesheet.go:124-129 | a full day zeroes every type and books their sum |
| TimesheetReport.ApplyAbsence | internal/reports/timesheet.go:119-163 | the four cases of an absence |
| TimesheetReport.Breakdown | internal/reports/timesheet.go:108-185 | a day's figures: no type above its scheduled time; booked time off covers the difference, exactly it if nothing overshoots |
| TimesheetReport.StaffTimesheet | internal/reports/timesheet.go:101-245 | report net hours are at most the sum of daily nets, and equal exactly if no absence overshoots on any day, a condition on the input where no day depends on map order; totals by type add up |
| TimesheetReport.WeeklySummary | internal/reports/timesheet.go:187-227 | each line sums the days of its week number; the lines add up to the days |
| TimesheetReport.SummaryConserves | internal/reports/timesheet.go:187-227 | weekly scheduled, net and by-type figures add up to the daily ones, time off to their difference |
| TimesheetReport.SpanExactly | internal/reports/timesheet.go:190-192 | on all ranges reaching k days after their first day, week numbers tell calendar weeks apart exactly if k is below 358 |
| TimesheetReport.NumbersNameWeeks | internal/reports/timesheet.go:190-192 | the "if" half: within 358 days a week number names one calendar week |
| TimesheetReport.YearsAreMerged | internal/reports/timesheet.go:190-192 | the "only if" half: Sunday 7 January and Monday 30 December 2024, 358 days apart, share a line |
| Conflicts.ClashMembers | internal/scheduling/conflicts.go:36-68 | two sessions yield an entry exactly if they are on one day, overlap and share what it says |
| Conflicts.ClashSwap | internal/scheduling/conflicts.go:36-68 | it does not matter which of the two comes first |
| Conflicts.PairsAnyOrder | internal/scheduling/conflicts.go:17-77 | the conflicts do not depend on the order of the sessions |
| Conflicts.PairsMembers | internal/scheduling/conflicts.go:17-77 | sound and complete: the entries are exactly those of unordered pairs that overlap and share |
| Conflicts.DaysApartAdd | internal/scheduling/conflicts.go:20-24 | sessions on different days add no conflicts between them |
| Conflicts.OverlapIsCommonMinute | internal/scheduling/conflicts.go:81-84 | comparing HH:MM texts decides whether two sessions have a minute in common |
| ConflictDetection.SortByStart | internal/scheduling/conflicts.go:28-30 | ordered by start, the same sessions |
| ConflictDetection.Compare | internal/scheduling/conflicts.go:36-68 | the appends for one pair are its entries |
| ConflictDetection.DayConflicts | internal/scheduling/conflicts.go:27-73 | the nested loops over one day cover every unordered pair once, earlier start first |
| ConflictDetection.DetectConflicts | internal/scheduling/conflicts.go:17-77 | whatever the map order, the conflicts are those of all unordered pairs |
| ConflictDetection.MaterializeSessions | internal/scheduling/engine.go:28-70 | the double loop is the materialized range |
| ConflictDetection.MaterializedMembers | internal/scheduling/engine.go:28-70 | a session is there exactly if its schedule is held on its day and the day is in the range |
| ConflictDetection.RangesJoin | internal/scheduling/engine.go:31 | adjacent ranges join |
| ConflictDetection.ConflictsJoin | internal/scheduling/conflicts.go:17-77 | conflicts over [a,c] are the disjoint union of those over [a,b] and [b+1,c] |
| Sessions.StepKeepsInv | internal/auth/auth.go:88-208 | every operation keeps each session non-empty, its active index valid and its username-role pairs distinct |
| Sessions.RunKeepsInv | internal/auth/auth.go:88-208 | so does every run |
| Sessions.GetShowsActive | internal/auth/auth.go:122-134 | after any run a live session is found with the active identity's fields on top; an expired one is deleted |
| Sessions.RemoveKeepsActive | internal/auth/auth.go:184-208 | removing another identity leaves the active one active and the rest in order |
| Sessions.RemoveActiveMovesOn | internal/auth/auth.go:184-208 | removing the active identity makes the one after it active, or the new last one |
| Sessions.AddThenSwitch | internal/auth/auth.go:145-180 | adding an identity and switching to its index makes it active, other pairs untouched |
| Sessions.ElevatesActive | internal/auth/auth.go:110-120 | only the active identity's mark changes |
| Sessions.LifeIsFixed | internal/auth/auth.go:88-208 | nothing but creation makes a session or moves its end |
| Sessions.NeverFoundLate | internal/auth/auth.go:122-134 | no session is found more than eight hours after its creation |
| Sessions.SessionStore.CreateSession | internal/auth/auth.go:88-107 | the store takes the creation step |
| Sessions.SessionStore.MarkSuperAdmin | internal/auth/auth.go:110-120 | the store takes the marking step |
| Sessions.SessionStore.GetSession | internal/auth/auth.go:122-134 | the store takes the lookup step |
| Sessions.SessionStore.DeleteSession | internal/auth/auth.go:136-140 | the store takes the deletion step |
| Sessions.SessionStore.AddIdentity | internal/auth/auth.go:145-163 | the scan for the same pair, then replace or append, is the adding step |
| Sessions.SessionStore.SwitchIdentity | internal/auth/auth.go:166-180 | the switching step, errors included |
| Sessions.SessionStore.RemoveIdentity | internal/auth/auth.go:184-208 | the removing step, errors and the last identity included |
| RateLimit.KeptApart | internal/handlers/ratelimit.go:44-76 | two accepted check-ins of different students on one device are at least the later one's cooldown apart |
| RateLimit.RecentIsRecorded | internal/handlers/ratelimit.go:68-95 | an accepted check-in of the last ten minutes is on record, whatever cleanups ran |
| RateLimit.CheckReadsFresh | internal/handlers/ratelimit.go:55-64 | an answer depends on the last ten minutes only |
| RateLimit.WaitIsTight | internal/handlers/ratelimit.go:57-61 | the seconds told are enough for a record in the way, and at most one too many |
| RateLimit.CleanupIsInvisible | internal/handlers/ratelimit.go:78-95 | cleanups anywhere in a run change no answer, seconds to wait included |
| RateLimit.HalvesAreWhole | internal/handlers/api.go:92-149 | asking and recording one after the other, with nothing in between, does what the check-in step does |
| RateLimit.WrittenBefore | internal/handlers/ratelimit.go:44-76 | a request let through after another student's check-in was recorded is its cooldown apart from it, whatever comes in between |
| RateLimit.RequestsKeptApart | internal/handlers/ratelimit.go:44-76 | two interleaved requests of different students are kept apart if neither asks between the other's asking and recording |
| RateLimit.RaceExample | internal/handlers/api.go:92-149 | two that both ask before either is recorded are both let through, at one instant |
| RateLimit.RateLimiter.CheckDevice | internal/handlers/ratelimit.go:44-65 | the scan gives the first blocking record's wait, at least a second |
| RateLimit.RateLimiter.Record | internal/handlers/ratelimit.go:68-76 | one record is appended |
| RateLimit.RateLimiter.CheckIn | internal/handlers/api.go:92-149 | asking and then recording is the check-in step the laws range over |
| RateLimit.RateLimiter.Clean | internal/handlers/ratelimit.go:78-95 | the rewrite of the map, in any key order, keeps exactly the recent records |
| UserCache.StepKeepsInv | memos/store/user.go:83-145 | everything cached is the current row of a user whose ID converts to that key |
| UserCache.RunKeepsInv | memos/store/user.go:83-145 | over every run, evictions included |
| UserCache.RightExactly | memos/store/user.go:115-136 | looking an ID up is right after every run exactly if it is a Unicode scalar value other than U+FFFD |
| UserCache.SharedKeyExample | memos/store/user.go:115-136 | with only user 55296 created, looking up 55297 finds that user |
| UserCache.RightUpToSurrogates | memos/store/user.go:115-136 | in particular for IDs 0 to 55295 |
| UserCache.Store.CreateUser | memos/store/user.go:83-91 | the creating step |
| UserCache.Store.UpdateUser | memos/store/user.go:93-101 | the updating step |
| UserCache.Store.ListUsers | memos/store/user.go:103-113 | the rows found, each cached |
| UserCache.Store.GetUser | memos/store/user.go:115-136 | cache first, then the driver |
| UserCache.Store.DeleteUser | memos/store/user.go:138-145 | row and cache entry are gone |
| Migrator.CurrentSchemaVersion | memos/store/migrator.go:299-320 | the running maximum is the newest version, or an error if one is unreadable |
| Migrator.TargetOf | memos/store/migrator.go:299-320 | it is at least every script's version and one of them, or 0.0.0 |
| Migrator.AppliedMembers | memos/store/migrator.go:78-82 | exactly the scripts above the current version and at most the target, in path order |
| Migrator.AppliedOnce | memos/store/migrator.go:163-190 | each script once |
| Migrator.UpgradesCompose | memos/store/migrator.go:140-208 | two upgrades run the same scripts in the same order as one exactly if no script of the second sorts before one of the first |
| Migrator.ChainsCompose | memos/store/migrator.go:140-208 | any chain of releases whose path order agrees with version order |
| Migrator.InstallsCompose | memos/store/migrator.go:100-208 | installing all releases leaves the database as installing the last |
| Migrator.SecondRunsNothing | memos/store/migrator.go:100-137 | a second Migrate changes nothing |
| Migrator.OutcomeDecides | memos/store/migrator.go:100-251 | success ends at the release's version; any failure leaves the database as it was, or freshly initialized |
| Migrator.UnreadableIsFinal | memos/store/migrator.go:211-251 | a first start with an unreadable script leaves a database no release can upgrade |
| Migrator.Store.Migrate | memos/store/migrator.go:100-137 | the state step of Migrate, all refusals included |
| Migrator.Store.ApplyMigrations | memos/store/migrator.go:140-208 | all scripts in one transaction or none |
| Migrator.TwoDigitPathsAgree | memos/store/migrator.go:140-145 | with two-digit minor versions path order is version order |
| Migrator.PathsDisagree | memos/store/migrator.go:140-145 | with minor versions of different lengths it is not |
| Namelist.PreviewPartitions | internal/datastore/namelist.go:115-173 | every entry is new, the same or conflicting, and only one of them |
| Namelist.PreviewNamelistImport | internal/datastore/namelist.go:115-173 | the maps and the three lists are the classification by name, then address |
| Namelist.ComputeDifferences | internal/datastore/namelist.go:177-195 | differences are found exactly if some given field differs |
| NamelistIds.NumberOrder | internal/datastore/namelist.go:346-363 | among IDs of a prefix the text maximum is the numeric one |
| NamelistIds.MaxIdIsGreatest | internal/datastore/namelist.go:350 | the maximum is an ID of the pattern with the greatest number |
| NamelistIds.NextIsFresh | internal/datastore/namelist.go:346-363 | below 999 the generated ID is new and greater than all of its kind |
| NamelistIds.CollidesExactly | internal/datastore/namelist.go:346-363 | it is taken exactly if 999 and the four-digit ID after it are both in use |
| NamelistIds.PastTheEnd | internal/datastore/namelist.go:346-363 | past 999 the same ID comes out again |
| NamelistImport.UpsertKeeps | internal/datastore/namelist.go:420-478 | non-empty parent addresses stay unique ignoring case, IDs distinct, students untouched; below P999 it succeeds |
| NamelistImport.MergeSettles | internal/datastore/namelist.go:377-416 | after a merge nothing differs any more, and what the entry is silent about is as it was |
| NamelistImport.ImportKeeps | internal/datastore/namelist.go:241-344 | inserted, merged and skipped add up to new and conflicting; IDs stay, inserted ones are consecutive; it succeeds while the numbers last |
| NamelistImport.Database.UpsertParent | internal/datastore/namelist.go:420-478 | the find-or-create step |
| NamelistImport.Database.InsertEntry | internal/datastore/namelist.go:346-375 | ID, parent and row of a new student |
| NamelistImport.Database.InsertNews | internal/datastore/namelist.go:262-284 | the loop over new entries |
| NamelistImport.Database.ResolveConflict | internal/datastore/namelist.go:289-317 | one conflict, as decided |
| NamelistImport.Database.LinkParents | internal/datastore/namelist.go:320-337 | parents of unchanged entries, failures passed over |
| NamelistImport.Database.ExecuteNamelistImport | internal/datastore/namelist.go:241-344 | the whole import or no change |

## Left out

- CronSpec.Next: daylight saving, time zones and the 23/1-hour correction after a day step are not modelled; all times are UTC.
- CronText.ParseFields: starts from the fields; `CronText.ParseText` starts from the text.
- CronText.ParseText: whether a time zone is known and what duration follows `@every` are answers of Go's time package and arrive as parameters; the zone itself is dropped, as all times are UTC, and white space is ASCII.
- CronRunner.Cron.WakeUp: goroutines, channels and timers are atomic events, and what a schedule's Next answers arrives with the event as a plan that keeps the schedule contract.
- CronSchedules.NothingMissed: from one start to the next stop; what falls between a stop and a restart is not run by design. Entries carry a parsed schedule; those of `@every` have plans of their own (`ConstantDelay`).
- CronRunner.RunKeepsInv: a restart must not set the clock before an activation already run.
- Scheduler.Next: weekday 7 never matches in the source either; it needs no case of its own because the cron parser rejects it.
- FilterRender.Render: SQL is a tree, not text; JSON functions and dialect casts appear as operands. Rows hold tags that need no JSON escapes, and booleans in boolean columns. For trees of several tag tests that some literal makes unclean the meaning is not stated, as one test may make up for another. Of the reasons a database may have to refuse a text only empty lists are modelled. Whether a driver refuses surplus arguments or ignores them is outside the model, so both are stated.
- FilterQuery.AppendConditions: the conditions already in the query bind to the arguments already there, as its callers see to.
- FilterParser.BuildPreserves: starts from the parsed expression; cel-go's parsing and type checking are left out. Stated for whole numbers within 64 bits and for literal fractions whose cutting off does no harm (`FilterParser.NumericExactly` and `FilterParser.FractionExactly` say exactly what happens to others; arithmetic over fractions is left out), contains() texts LIKE takes as they stand (`FilterParser.ContainsExactly`) and the loop form of exists(); converting a floating-point literal beyond 64 bits is platform-dependent in Go and wraps here.
- Text.ToLower: ASCII only; other case folding is not modelled.
- Tracker.GetDueItems: class enrolment is a set of student IDs; names, priorities and ordering of the rows are left out.
- Tracker.AnswersMeetExpectation: answering does not itself mark a personal item completed, as checkout does not.
- TrackerProgress.ProgressStats: names and the floating-point percentage are left out.
- TrackerStore.Database.CompleteTaskItem: center and class items have no student, so reading one fails as NULL does; completed_at and completed_by are left out.
- TimesheetReport.StaffTimesheet: hours are whole minutes per day and type, already summed from the sessions; floating-point rounding is left out.
- ConflictDetection.DetectConflicts: the detail text is left out; a conflict says which room, teacher or student.
- ConflictDetection.MaterializeSessions: unreadable effective dates arrive as absent, as the source treats them.
- Sessions.SessionStore.CreateSession: the random token is a parameter; slices are values, so aliasing between returned sessions and later changes is not modelled; cookies are left out.
- RateLimit.RateLimiter.CheckIn: the check-in's own writes, which come between asking and recording and may fail, are left out; requests that interleave there are `RateLimit.RequestsKeptApart`.
- RateLimit.RateLimiter.CheckDevice: time is a parameter that does not go backwards; device keys arrive built.
- UserCache.Store.GetUser: other filters than the ID, time-to-live and the size limit of the cache appear only as evictions.
- Migrator.Store.Migrate: scripts arrive in path order with the version their directory and number name; demo seeding, a crash between commit and version update and pre-release versions are left out.
- Namelist.PreviewNamelistImport: the students on file are listed in table order where the query orders by ID; reading spreadsheets is left out.
- NamelistImport.Database.UpsertParent: parent names are split at spaces only; NULL addresses are empty ones.
- Job wrappers, HTTP handlers, e-mail, webhooks, cloud synchronisation, backups and the user interface are not part of this model.
