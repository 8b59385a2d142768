# Work allocation and scoring, modelled in Dafny

This project models the core of a drafting-office work tracker. A project manager
splits a project into divisions, part numbers and work types. Pieces of that scope
go to teams as *group assignments*. A team leader hands pieces of a group assignment
to members as *member assignments*. The model covers:

- **Scoring** (`Scoring`, `Database.Db.ApplyScore`). An accepted piece of work earns:
  - an on-time bonus;
  - a star bonus by rating;
  - blackmarks per whole hour late, after a grace hour.

  The amounts come from the system configuration. A missing or zero entry falls back
  to the defaults.
- **The data layer of `backend/db.js`** (`Database`). A class `Db` holds the
  `users`, `teams`, `projects`, `groupAssignments` and `memberAssignments` tables as
  maps from row id to row. Its methods are:
  - `applyScore`;
  - the pause/resume of a project with its eta extension (`toggleHold`);
  - the rework dispatcher that penalises overlapping member work and opens a shadow
    project (`triggerRework`);
  - the two status-driven assignment updates with their `COALESCE` writes;
  - the four revokes;
  - the cascading deletes.

  The argument helpers `safe` and `safeInt` are in `SqlArgs`. The JavaScript
  `parseInt`, `String(n)` and `trim` they rely on are in `JsText`.
- **Rework overlap** (`Scope.CheckScopeOverlap`). Overlap is judged at (division,
  part) granularity against the first assignment item of each division.
- **Dashboard completion logic** (`Completion`, `PMDashboard`, `TLDashboard`):
  - a unit of work is a (division, part, work type) triple;
  - an item is complete when every triple through it is covered by a COMPLETED
    member assignment;
  - the project card shows allocation and progress percentages;
  - the list tabs filter projects and assignments;
  - the team leader may "Submit to PM" only once nothing is missing.

  The scope-list builders of the project form are modelled too: generate numbered
  names, add manual entries, toggle, remove.

Shared concepts live in their own modules:
- `Types`: statuses and scope trees;
- `Lists`: toggle, remove and `Array.from(new Set(...))`;
- `Wrappers`: `Option` and `Result`.

The two dashboards define `isItemComplete` and the toggle helper identically. Each is
modelled once and used by both.

Timestamps are integer milliseconds since the epoch. A nullable time is an
`Option<int>`. Score and ledger columns are `real`. The clock reading `now` is always
a parameter.

## Model

| member | source | states |
|---|---|---|
| Types.FromWire | types.ts:63 | a string read back as a status is exactly that status's wire name |
| Types.WireRoundTrip | types.ts:63 | every status survives the trip to its wire string and back |
| JsText.TrimStart | components/PMDashboard.tsx:265 | only a leading run of white space is removed: the result is a suffix of the input that does not start with white space, and every character dropped is white space |
| JsText.TrimEnd | components/PMDashboard.tsx:265 | only a trailing run of white space is removed: the result is a prefix of the input that does not end with white space, and every character dropped is white space |
| JsText.Trim | components/PMDashboard.tsx:265 | the result is a contiguous slice of the input with only white space cut from the front and the back, and it neither starts nor ends with white space |
| JsText.ParseInt | backend/db.js:154 | NaN exactly when no digit follows the skipped white space and the optional sign |
| JsText.ParseIntOfRendering | backend/db.js:154 | `parseInt` reads back the decimal rendering of any integer, whatever non-digit text follows |
| JsText.ParseIntRoundTrip | components/PMDashboard.tsx:92 | `parseInt(String(n)) == n` for every integer |
| JsText.ParseIntOfLetter | backend/db.js:154 | a string starting with a letter (such as `String(true)`) parses to NaN |
| JsText.IntToStringInjective | components/PMDashboard.tsx:92 | distinct integers render as distinct strings |
| JsText.IntToString | components/PMDashboard.tsx:92 | `${n}` is never empty and starts with '-' or a digit; its value is read back by `ParseIntRoundTrip` |
| SqlArgs.Safe | backend/db.js:153 | null/undefined bind as NULL and only they do; booleans bind as 1/0; numbers and strings pass unchanged |
| SqlArgs.SafeIdempotent | backend/db.js:153 | applying `safe` to an already bound value changes nothing |
| SqlArgs.JsToString | backend/db.js:154 | `String(val)` as `parseInt` sees it: "null", "undefined", "true"/"false", the decimal rendering of a number, a string unchanged; tied to `safeInt` by `SafeIntIsParseInt` |
| SqlArgs.SafeInt | backend/db.js:154 | NULL exactly for null, undefined and the empty string; a number binds as itself; a boolean binds as NaN |
| SqlArgs.SafeIntIsParseInt | backend/db.js:154 | every value not turned into NULL binds as `parseInt(String(val), 10)` |
| SqlArgs.SafeIntOfRendering | backend/db.js:154 | a decimal string and the number it spells bind to the same integer |
| SqlArgs.AsSqlInt | backend/db.js:370-372 | SQLite receives an integer exactly when `safeInt` produced one; NaN and NULL match no row |
| SqlArgs.Coalesce | backend/db.js:207 | `COALESCE(?, col)` keeps the stored value for a NULL parameter and takes the parameter otherwise |
| Lists.RemoveAll | components/PMDashboard.tsx:273-275 | the removed element is absent afterwards; every other element is present exactly when it was before |
| Lists.RemoveAllAppend | components/PMDashboard.tsx:274 | filtering a concatenation filters each half, so the order of the rest is kept |
| Lists.RemoveAllAbsent | components/PMDashboard.tsx:274 | removing an absent element leaves the list unchanged |
| Lists.RemoveAllMultiset | components/PMDashboard.tsx:274 | all copies of the element go, every other element keeps its multiplicity |
| Lists.RemoveAllLength | components/PMDashboard.tsx:274 | the list gets shorter by exactly the number of copies removed |
| Lists.Toggle | components/PMDashboard.tsx:85-86 | the toggled element ends up present exactly when it was absent, no other element's presence changes, and an absent one is appended at the end (`toggleItem` in components/TLDashboard.tsx:78 is the same code) |
| Lists.ToggleTwice | components/PMDashboard.tsx:85-86 | toggling an absent element twice gives the original list back |
| Lists.TogglePresentTwice | components/PMDashboard.tsx:85-86 | toggling a present element twice leaves one copy of it, moved to the end |
| Lists.Dedup | components/PMDashboard.tsx:259 | `Array.from(new Set(s))` has no duplicates, holds exactly the elements of `s`, and is no longer than `s` |
| Lists.DedupPrefix | components/PMDashboard.tsx:259 | de-duplicating `a + b` begins with the de-duplication of `a`: later elements never reorder earlier ones |
| Lists.DedupDistinct | components/PMDashboard.tsx:259 | a list without duplicates is its own de-duplication |
| Lists.MergeKeepsPrefix | components/PMDashboard.tsx:259 | merging items into a duplicate-free list keeps the list as a prefix and appends exactly the items it lacked, once each |
| Lists.DistinctAppend | components/PMDashboard.tsx:259 | two duplicate-free lists with no common element concatenate to a duplicate-free list |
| Scope.FindDivision | backend/db.js:177 | `find` returns nothing exactly when no item has the division, and otherwise the first item that does |
| Scope.HasPart | backend/db.js:180 | true exactly when some part carries the name |
| Scope.SharesPart | backend/db.js:179-183 | true exactly when some rework part name is among the assignment item's parts |
| Scope.OverlapItems | backend/db.js:176-186 | true exactly when some rework item hits the assignment |
| Scope.CheckScopeOverlap | backend/db.js:171-188 | a stored scope that does not parse, or is not an array, never overlaps; otherwise true exactly when some rework (division, part) is a part of the first assignment item with that division |
| Scope.OverlapMeansPartHit | backend/db.js:176-186 | the early-exit loops compute exactly the existential (division, part) hit |
| Scope.OverlapIgnoresWorkTypes | backend/db.js:176-186 | erasing every work type from both scopes never changes the verdict: overlap has division+part granularity |
| Scope.DisjointDivisionsNoOverlap | backend/db.js:177-178 | scopes whose divisions are disjoint never overlap |
| Scope.SameSinglePartOverlaps | backend/db.js:180-181 | the same division and part on both sides overlaps, whatever the work types |
| Scope.Divisions | backend/db.js:403 | the duplicate-free list of exactly the divisions named in a scope tree |
| Scope.PartNames | backend/db.js:403 | the duplicate-free list of exactly the part names in a scope tree |
| Scope.WorkTypeNames | backend/db.js:403 | the duplicate-free list of exactly the work types in a scope tree |
| Scoring.Setting | backend/db.js:412-416 | `config.KEY \|\| fallback`: a stored non-zero value is used; a missing key or a stored 0 gives the fallback |
| Scoring.StarBonus | backend/db.js:413-415 | only ratings 3, 4 and 5 earn a star bonus, each its own configured amount |
| Scoring.Score | backend/db.js:408-416 | the on-time bonus is paid exactly when the delay is not positive; the star bonus always applies; blackmarks are 0 within the grace hour or under override, and otherwise whole hours late times the hourly rate |
| Scoring.DefaultsNonNegative | backend/db.js:139-145 | the seeded scoring amounts are none of them negative |
| Scoring.ScoreNonNegative | backend/db.js:410-416 | with a non-negative configuration neither part of the award is negative |
| Scoring.OnTimeExcludesBlackmark | backend/db.js:411-416 | no completion both earns the on-time bonus and gets blackmarks |
| Scoring.GraceHour | backend/db.js:411-416 | finishing up to one hour late gives only the star bonus, with no blackmark |
| Scoring.OverrideKeepsBonus | backend/db.js:416 | the blackmark override zeroes the blackmarks and leaves the bonus alone |
| Scoring.BlackmarkMonotone | backend/db.js:416 | with a non-negative rate, finishing later never earns fewer blackmarks |
| Scoring.HoursMonotone | backend/db.js:416 | whole hours of delay are monotone in the delay |
| Scoring.WholeHoursLate | backend/db.js:416 | being exactly h >= 2 hours late costs h times the hourly rate |
| Scoring.DefaultOnTimeFiveStars | backend/db.js:412-415 | on time at five stars with the defaults gives 6 points and no blackmark |
| Scoring.DefaultThreeHoursLate | backend/db.js:411-416 | three hours late at three stars with the defaults gives 1 point and 3 blackmarks |
| Scoring.ZeroSettingFallsBack | backend/db.js:412-416 | setting a scoring amount to 0 behaves exactly like its default |
| Database.Credit | backend/db.js:219-220 | exactly the award is added to the named row; no other row changes; a missing row is not created |
| Database.CreditTwice | backend/db.js:219-220 | two credits to one row equal one credit of the summed award |
| Database.CreditsCommute | backend/db.js:219-220 | credits to the ledger commute, so booking order is irrelevant |
| Database.HoldMinutes | backend/db.js:381 | the whole minutes elapsed since the hold began (floored), or 0 without a hold start |
| Database.HeldRow | backend/db.js:379 | the project becomes ON_HOLD with the hold start recorded; no other column changes |
| Database.ResumedRow | backend/db.js:381-383 | the project becomes ACTIVE with no hold start and the minutes added to its total; no other column changes |
| Database.ShiftGroupEtas | backend/db.js:222 | every non-COMPLETED group assignment of the project has its eta pushed back by the minutes; every other row is unchanged |
| Database.ShiftMemberEtas | backend/db.js:223 | every non-COMPLETED member assignment under the project's group assignments is pushed back; every other row is unchanged |
| Database.ShiftGroupEtasAdditive | backend/db.js:222 | two shifts are one shift by the summed minutes |
| Database.ShiftMemberEtasAdditive | backend/db.js:223 | two member shifts are one shift by the summed minutes |
| Database.HoldRoundTrip | backend/db.js:377-389 | pausing at t0 and resuming at t1 gives the project back ACTIVE, with no hold start and floor((t1-t0)/1 min) added to its hold total |
| Database.HoldOfFortyFiveAndAHalfMinutes | backend/db.js:381 | a 45 min 30 s hold adds 45 minutes |
| Database.IsCulprit | backend/db.js:394-395 | a member assignment is a culprit when it exists, belongs to a group assignment of the project, and its scope overlaps the rework scope; `Culprits` collects exactly these |
| Database.Culprits | backend/db.js:394-395 | exactly the member assignments of the project whose scope overlaps the rework scope |
| Database.Penalized | backend/db.js:397-400 | the ledger after rework penalties keeps every user row and every bonus |
| Database.PenalizedNothing | backend/db.js:397-400 | with no culprit the ledger is unchanged |
| Database.PenalizedStep | backend/db.js:397-400 | booking one more culprit is one more credit of the rework rate to its member |
| Database.TimesIsProduct | backend/db.js:398 | n penalties of the rate total n times the rate |
| Database.PenaltyCount | backend/db.js:397-400 | the number of culprit assignments that belong to one member, 0 when there are none; each becomes one rework penalty (`Penalized`, `PenaltyCountStep`) |
| Database.PenaltyCountStep | backend/db.js:397-400 | one more culprit assignment adds one penalty to its own member only |
| Database.PenaltyCountSplit | backend/db.js:397-400 | penalty counts add over disjoint sets of culprits |
| Database.CoalesceGroup | backend/db.js:207 | each group assignment column takes its parameter when one is bound and keeps its stored value otherwise |
| Database.CoalesceGroupNothing | backend/db.js:207 | an update binding NULL everywhere leaves the row unchanged |
| Database.CoalesceGroupIdempotent | backend/db.js:207 | applying the same update twice is applying it once |
| Database.CoalesceMember | backend/db.js:213 | each member assignment column takes its parameter when one is bound and keeps its stored value otherwise |
| Database.CoalesceMemberIdempotent | backend/db.js:213 | applying the same member update twice is applying it once |
| Database.Scores | backend/db.js:319 | `updates.status === 'COMPLETED' && updates.rating`: a scoring update is a COMPLETED status with a present, non-zero rating; `SubmitUpdate` shows the PENDING_ACK submission is not one |
| Database.EffectiveGroupUpdate | backend/db.js:319-321 | a scoring update (COMPLETED with non-zero rating) also carries completionTime = now; any other update is unchanged |
| Database.EffectiveMemberUpdate | backend/db.js:350-353 | a scoring member update also records the booked award; any other update is unchanged |
| Database.MemberAward | backend/db.js:350-351 | the member is scored against the stored eta and the stored completion time, not the review time; with no stored completion time (`new Date(null)` is the epoch) and a non-negative eta the member gets no blackmarks and the on-time bonus plus the star bonus |
| Database.MemberRecordsBookedAward | backend/db.js:350-366 | after a scoring member update the row shows COMPLETED and exactly the award credited to the member |
| Database.RevokedGroupWork | backend/db.js:437 | the row is IN_PROGRESS with no completion time; nothing else changes |
| Database.RevokedGroupRejection | backend/db.js:438 | the row is IN_PROGRESS with no rejection reason; nothing else changes |
| Database.RevokedMemberWork | backend/db.js:439 | the row is IN_PROGRESS with no completion time; nothing else changes |
| Database.RevokedMemberRejection | backend/db.js:440 | the row is IN_PROGRESS with no rejection reason; nothing else changes |
| Database.RevokeKeepsRecordedAward | backend/db.js:439 | revoking accepted work keeps the award and rating recorded on the row |
| Database.GroupsOutsideProject | backend/db.js:370 | exactly the group assignments of other projects remain, unchanged |
| Database.MembersOutsideProject | backend/db.js:370 | exactly the member assignments not under the project's group assignments remain, unchanged |
| Database.MembersOutsideGroup | backend/db.js:371 | exactly the member assignments of other group assignments remain, unchanged |
| Database.DeleteProjectKeepsIntegrity | backend/db.js:370 | the cascading project delete leaves no dangling projectId or groupAssignmentId |
| Database.DeleteGroupKeepsIntegrity | backend/db.js:371 | the cascading group delete leaves no dangling groupAssignmentId |
| Database.DeleteGroupWithoutCascadeOrphans | backend/db.js:371 | without its first DELETE, a group delete would orphan member rows |
| Database.RunArity | backend/db.js:202-203 | a statement runs exactly when as many values are bound as it has placeholders |
| Database.Db.ToggleHoldAsWritten | backend/db.js:377-389 | as written, `toggleHold` fails for every project and both directions, writing nothing |
| Database.Db.TriggerReworkAsWritten | backend/db.js:391-406 | as written, `triggerRework` books the rework penalties and then always fails, creating no shadow project |
| Database.Db.constructor | backend/db.js:133-150 | a fresh database holds only the seeded admin account (row 1, with an empty ledger) and the eight seeded `system_config` rows: the six scoring amounts, `ALLOW_TIME_EDIT` = 0 and `ALLOW_SIGNUP` = 1 |
| Database.Db.ApplyScore | backend/db.js:408-420 | returns the award `Score` defines and adds exactly it to the team or user row; the other ledger is untouched |
| Database.Db.ToggleHold | backend/db.js:377-389 | a missing project fails with nothing written; pausing marks it held from now; resuming marks it active, adds the hold minutes and, when there are any, shifts the non-COMPLETED etas by them |
| Database.Db.TriggerRework | backend/db.js:391-406 | every user gains the rework rate once per culprit assignment of theirs and no bonus; then the shadow project "name R" and its PENDING rework group assignment are inserted under fresh ids; a missing project fails after the penalties, with no insert |
| Database.Db.BookPenalties | backend/db.js:397-400 | the loop over culprits in id order leaves the ledger equal to `Penalized` |
| Database.Db.UpdateGroupAssignment | backend/db.js:310-339 | fails, writing nothing, exactly when the joined row is missing in a branch that dereferences it; a scoring update credits the team's score against the stored eta and now and stamps completionTime; every bound column is written; users are untouched |
| Database.Db.UpdateMemberAssignment | backend/db.js:347-368 | fails, writing nothing, exactly when the joined row is missing in a status branch; a scoring update credits the member and records that same award on the row; every bound column is written; teams are untouched |
| Database.Db.RevokeGroupWork | backend/db.js:437 | only that row changes, as `RevokedGroupWork` says; a missing id changes nothing |
| Database.Db.RevokeGroupRejection | backend/db.js:438 | only that row changes, as `RevokedGroupRejection` says |
| Database.Db.RevokeMemberWork | backend/db.js:439 | only that row changes, as `RevokedMemberWork` says |
| Database.Db.RevokeMemberRejection | backend/db.js:440 | only that row changes, as `RevokedMemberRejection` says |
| Database.Db.DeleteProject | backend/db.js:370 | an id `safeInt` cannot read deletes nothing; otherwise the project, its group assignments and their member assignments go, and nothing else |
| Database.Db.DeleteProjectWhere | backend/db.js:370 | the three DELETE statements with the bound id remove exactly the cascade |
| Database.Db.DeleteGroupAssignment | backend/db.js:371 | an unreadable id deletes nothing; otherwise the group assignment and its member assignments go, and nothing else |
| Database.Db.DeleteGroupAssignmentWhere | backend/db.js:371 | the two DELETE statements with the bound id remove exactly the cascade |
| Database.Db.DeleteMemberAssignment | backend/db.js:372 | an unreadable id deletes nothing; otherwise exactly that row goes |
| Completion.Units | components/PMDashboard.tsx:151 | the number of units of a scope is never negative |
| Completion.CompletedFor | components/PMDashboard.tsx:104-106 | exactly the COMPLETED member assignments of the group assignment |
| Completion.IsCovered | components/PMDashboard.tsx:118-122 | true exactly when some completed member assignment lists the division, the part and the work type |
| Completion.AllCovered | components/PMDashboard.tsx:115-125 | the nested `every` calls hold exactly when every triple of the product is covered |
| Completion.IsItemComplete | components/PMDashboard.tsx:102-126 | true exactly when every triple of {value} x (the other two lists) is covered by a COMPLETED member assignment of the group assignment (also components/TLDashboard.tsx:47-53) |
| Completion.DivisionCompleteMeans | components/PMDashboard.tsx:110-125 | a division is complete exactly when each of its (part, work type) pairs is covered |
| Completion.ItemCompleteVacuous | components/PMDashboard.tsx:110-125 | an empty list on another axis makes any item trivially complete |
| Completion.ItemIncompleteWithoutWork | components/PMDashboard.tsx:102-126 | with non-empty other axes and no completed member work, no division is complete |
| Completion.ItemCompleteMonotone | components/PMDashboard.tsx:102-126 | one more member assignment never makes a complete item incomplete |
| Completion.CompletedCoversMore | components/PMDashboard.tsx:104-106 | one more member assignment covers at least what was covered before |
| Completion.Round | components/PMDashboard.tsx:172 | `Math.round`: the nearest integer, halves rounded up |
| Completion.Percent | components/PMDashboard.tsx:172-173 | 0 for an empty total, otherwise the rounded percentage of the share |
| Completion.RoundMonotone | components/PMDashboard.tsx:172 | rounding keeps order |
| Completion.PercentBounds | components/PMDashboard.tsx:172-173 | a share within the total gives a percentage in 0..100 |
| Completion.PercentMonotone | components/PMDashboard.tsx:172-173 | a larger share never shows a smaller percentage |
| PMDashboard.CountOf | components/PMDashboard.tsx:89 | `parseInt(count) \|\| 0`: non-zero exactly when the count parses to a non-zero number, and then it is that number |
| PMDashboard.StartOf | components/PMDashboard.tsx:90 | `parseInt(start) \|\| 1`: a start that parses to a non-zero number is that number; NaN and 0 both give 1, so the start is never 0 |
| PMDashboard.GenerateItems | components/PMDashboard.tsx:88-93 | nothing for an empty prefix or non-positive count; otherwise exactly `count` names, the i-th being the prefix followed by start + i |
| PMDashboard.Numbered | components/PMDashboard.tsx:92 | c names, the i-th being the prefix and s + i |
| PMDashboard.GeneratedDistinct | components/PMDashboard.tsx:88-93 | the generated names are pairwise different |
| PMDashboard.NumberedDistinct | components/PMDashboard.tsx:92 | consecutive numbers after one prefix give pairwise different names |
| PMDashboard.NamesInjective | components/PMDashboard.tsx:92 | different numbers give different names |
| PMDashboard.GeneratedNumbers | components/PMDashboard.tsx:88-93 | stripping the prefix from the i-th name and parsing the rest gives start + i back |
| PMDashboard.NameReadsBack | components/PMDashboard.tsx:92 | a name starts with its prefix, and what follows parses to its number |
| PMDashboard.GenerateFromTypedNumbers | components/PMDashboard.tsx:88-93 | typed count n > 0 and start s give exactly n names numbered s, s+1, ... |
| PMDashboard.TypedNumber | components/PMDashboard.tsx:89-90 | a number typed into the count field reads back as itself, and so does a non-zero number typed into the start field (a typed 0 starts at 1) |
| PMDashboard.GenerateFromBlankStart | components/PMDashboard.tsx:90 | a blank start field numbers from 1 |
| PMDashboard.GenerateWithoutCount | components/PMDashboard.tsx:89-91 | a count that is not a number generates nothing |
| PMDashboard.AddGenerated | components/PMDashboard.tsx:254-263 | nothing generated leaves the list alone; a duplicate-free list keeps its order and gains exactly the generated names it lacked, staying duplicate-free |
| PMDashboard.AddGeneratedFresh | components/PMDashboard.tsx:254-263 | when no generated name is listed yet, all of them are appended in order |
| PMDashboard.AddManual | components/PMDashboard.tsx:264-272 | a blank entry changes nothing; otherwise the trimmed entry is appended unless a duplicate-free list already holds it |
| PMDashboard.MergeSingle | components/PMDashboard.tsx:268 | merging one entry into a duplicate-free set-list appends it exactly when it is new |
| PMDashboard.AddManualIdempotent | components/PMDashboard.tsx:264-272 | adding the same manual entry twice is adding it once |
| PMDashboard.RelevantGroups | components/PMDashboard.tsx:137-141 | exactly the project's group assignments that list the item on its axis |
| PMDashboard.AllItemComplete | components/PMDashboard.tsx:147 | true exactly when every listed group assignment completed the item |
| PMDashboard.IsProjectItemComplete | components/PMDashboard.tsx:133-148 | true exactly when some group assignment of the project was given the item and every one that was has completed it |
| PMDashboard.ProjectItemSingleTeam | components/PMDashboard.tsx:133-148 | an item given to a single team is project-complete exactly when that team completed it |
| PMDashboard.ProjectItemCompleteMonotone | components/PMDashboard.tsx:133-148 | more member work never makes a project item incomplete again |
| PMDashboard.Assigns | components/PMDashboard.tsx:152 | a group assignment is kept exactly when it is in the list and belongs to the project |
| PMDashboard.AssignsAppend | components/PMDashboard.tsx:152 | the filter of a concatenation is the concatenation of the filters, so order and multiplicity are kept |
| PMDashboard.MembersOf | components/PMDashboard.tsx:163 | a member assignment is kept exactly when it is in the list and belongs to the group assignment, whatever its status |
| PMDashboard.MembersOfAppend | components/PMDashboard.tsx:163 | the filter of a concatenation is the concatenation of the filters, so `members.length` counts every matching row once |
| PMDashboard.CompletedAmongMembers | components/PMDashboard.tsx:163-164 | the completed member assignments are no more than all of them |
| PMDashboard.Proportion | components/PMDashboard.tsx:166 | `(memDone / members.length) * units`: no completed member gives nothing, all members completed give all the units |
| PMDashboard.GroupShare | components/PMDashboard.tsx:157-168 | the completed units of one group assignment: all its units when COMPLETED, otherwise its units in proportion to its completed member assignments, none without member assignments; bounded by `ShareBounds` |
| PMDashboard.ProportionBounds | components/PMDashboard.tsx:166 | a fraction of the members never earns more than all the units |
| PMDashboard.ShareBounds | components/PMDashboard.tsx:157-168 | a group assignment contributes between 0 and its own units |
| PMDashboard.AllocSum | components/PMDashboard.tsx:157-158 | allocated units are never negative |
| PMDashboard.DoneWithinAllocated | components/PMDashboard.tsx:156-169 | completed units lie between 0 and the allocated units |
| PMDashboard.ProjectStats | components/PMDashboard.tsx:150-175 | the completed and allocated units of the project's group assignments as rounded percentages of the project's units; bounded by `ProgressWithinAllocation` and `StatsWithinHundred` |
| PMDashboard.GetProjectStats | components/PMDashboard.tsx:150-175 | the loop's figures are those of `ProjectStats`, and 0 <= progress <= allocation |
| PMDashboard.ProgressWithinAllocation | components/PMDashboard.tsx:150-175 | a project never shows more progress than allocation, and neither is negative |
| PMDashboard.StatsWithinHundred | components/PMDashboard.tsx:172-173 | without over-allocation both figures lie in 0..100 |
| PMDashboard.TwoTeamScenario | components/PMDashboard.tsx:150-175 | two units, team A done on one: 50%/50%; with team B allocated the other, 100% allocated, still 50% done |
| PMDashboard.OverAllocation | components/PMDashboard.tsx:157-173 | two teams given the same full scope show 200% allocation |
| PMDashboard.ProjectTabMatch | components/PMDashboard.tsx:182-185 | hold: ON_HOLD; completed: progress >= 100 and not on hold; ongoing: progress < 100 and not on hold; recent: progress >= 100 |
| PMDashboard.OnTab | components/PMDashboard.tsx:179-185 | a project is on the tab by its status and the progress `getProjectStats` computes for it |
| PMDashboard.ProjectTabsPartition | components/PMDashboard.tsx:182-185 | every project is on exactly one of the hold, completed and ongoing tabs, and every completed one is also recent |
| PMDashboard.FilterProjects | components/PMDashboard.tsx:177-199 | with an empty search box, a project is kept exactly when it is in the list and its status and progress match the tab |
| PMDashboard.FilterProjectsAppend | components/PMDashboard.tsx:177-199 | the filter of a concatenation is the concatenation of the filters, so the projects keep their order |
| PMDashboard.HeldProjectOnlyOnHoldTab | components/PMDashboard.tsx:182-184 | a held project is on the hold tab and on neither the ongoing nor the completed tab |
| TLDashboard.MissingW | components/TLDashboard.tsx:38-41 | the uncovered units of one (division, part), in work-type order, at most one per work type |
| TLDashboard.MissingP | components/TLDashboard.tsx:37-42 | the uncovered units of one division, parts outermost; characterised by the membership lemmas below |
| TLDashboard.Missing | components/TLDashboard.tsx:33-45 | the uncovered units of the product in the nested-loop order; `MissingMembers` and `NothingMissingMeansCovered` state what it holds |
| TLDashboard.Labels | components/TLDashboard.tsx:40 | one label per unit |
| TLDashboard.LabelsAt | components/TLDashboard.tsx:40 | the k-th label names the k-th unit |
| TLDashboard.MissingWithinUnits | components/TLDashboard.tsx:33-45 | no more units are missing than the product has |
| TLDashboard.MissingMembers | components/TLDashboard.tsx:33-45 | a unit is listed as missing exactly when it lies in the product and is not covered |
| TLDashboard.NothingMissingMeansCovered | components/TLDashboard.tsx:33-45 | nothing is missing exactly when every unit of the product is covered |
| TLDashboard.GetMissingScopeItems | components/TLDashboard.tsx:33-45 | the three nested loops return the labels of exactly the uncovered units, in loop order |
| TLDashboard.MissingOfDivision | components/TLDashboard.tsx:37-42 | the part loop returns the uncovered units of one division, in order |
| TLDashboard.MissingOfPart | components/TLDashboard.tsx:38-41 | the work-type loop returns the uncovered units of one (division, part), in order |
| TLDashboard.GroupProgress | components/TLDashboard.tsx:55-59 | the covered share of the product as a rounded percentage, 0 when the product is empty; bounded by `GroupProgressBounds` |
| TLDashboard.FullyComplete | components/TLDashboard.tsx:60 | `missingCount === 0`; `FullyCompleteMeans` shows it is full coverage |
| TLDashboard.GetGroupStats | components/TLDashboard.tsx:55-61 | the figures are the group's rounded covered share and `missing.length === 0`; progress lies in 0..100 |
| TLDashboard.GroupProgressBounds | components/TLDashboard.tsx:55-61 | a group's progress lies between 0 and 100 |
| TLDashboard.FullyCompleteMeans | components/TLDashboard.tsx:60 | fully complete exactly when every unit of the product is covered by a COMPLETED member assignment |
| TLDashboard.FullyCompleteIsHundred | components/TLDashboard.tsx:56-59 | a fully complete group with at least one unit shows 100% |
| TLDashboard.EmptyScopeIsComplete | components/TLDashboard.tsx:56-60 | an empty scope list counts as fully complete while showing 0% |
| TLDashboard.FullyCompleteItems | components/TLDashboard.tsx:47-60 | a fully complete group has completed every item it lists, on every axis |
| TLDashboard.CoveredProductItems | components/TLDashboard.tsx:49-52 | a covered product covers the whole slice through each of its items |
| TLDashboard.MissingShrinks | components/TLDashboard.tsx:33-45 | more covered units never leave more missing |
| TLDashboard.ProgressMonotone | components/TLDashboard.tsx:55-59 | one more member assignment never lowers a group's progress |
| TLDashboard.FindProject | components/TLDashboard.tsx:66 | nothing exactly when no project has the id, otherwise the first project in the list with the id, as `find` returns |
| TLDashboard.GroupTabMatch | components/TLDashboard.tsx:67-71 | hold: the project is ON_HOLD; completed: COMPLETED; ongoing: not COMPLETED and the project not on hold; recent: COMPLETED within the last day, a missing time read as the epoch |
| TLDashboard.GroupTabsPartition | components/TLDashboard.tsx:67-71 | completed and ongoing never overlap, recent implies completed, hold excludes ongoing, and outside a hold every assignment is completed or ongoing |
| TLDashboard.FilterGroups | components/TLDashboard.tsx:63-76 | with an empty search box, exactly the assignments of the leader's own team that match the tab |
| TLDashboard.NoTeamSeesNothing | components/TLDashboard.tsx:65 | a leader without a team sees nothing on any tab |
| TLDashboard.CanSubmitToPM | components/TLDashboard.tsx:160-165 | the button shows on the ongoing tab for an assignment not COMPLETED, REJECTED, REJECTION_REQ or PENDING_ACK, once nothing is missing; `SubmitOnce` draws the consequences |
| TLDashboard.SubmitUpdate | components/TLDashboard.tsx:165 | the submission is not a scoring update |
| TLDashboard.SubmitWrites | components/TLDashboard.tsx:165 | submitting stores PENDING_ACK with the submission time and leaves every other column alone |
| TLDashboard.SubmitOnce | components/TLDashboard.tsx:160-165 | only fully covered work can be submitted, and a submitted assignment cannot be submitted again |

## Left out

- Notifications (`notify`, `notifyTeam` and the manager look-ups that feed them) are an output sink and are not modelled. One exception: the group PENDING_ACK and REJECTION_REQ branches crash on a missing row only when a manager exists to notify. That case is the `managersExist` parameter of `Database.Db.UpdateGroupAssignment`.
- The system configuration is the `config` field of `Db`. `getConfigMap` and `updateConfig` are not modelled.
- The clock is a parameter (`now`, `today`).
- The search box of `getFilteredProjects` and `getFilteredGroups` is left out. The model is the empty-search case. Case folding of names cannot be stated on `seq<char>`.
- Floating-point numbers are exact `real`s, so JavaScript rounding error is not modelled. Dates are integer milliseconds.
- SqlArgs.SafeInt: a JavaScript number is an unbounded integer (`JsNumber(n: int)`). There is no 2^53 precision limit, no fractional value (`safeInt(2.5)` giving 2 is not modelled) and no exponent rendering.
- JsText.IntToString: renders every integer in plain decimal. JavaScript switches to exponent form from 1e21 on (`String(1e21)` is "1e+21"), and this is not modelled.
- JsText.ParseIntRoundTrip and JsText.IntToStringInjective: hold for the unbounded integers of the model. In JavaScript they fail once |n| reaches 1e21, where the rendering uses exponent form.
- PMDashboard.GeneratedDistinct and PMDashboard.NamesInjective: hold for the unbounded integers of the model. In JavaScript `s + i` loses precision past 2^53, so names could repeat for starts that large.
- Database.Db.ToggleHold: follows the evident intent of the `updateProject` writes, as the Findings below explain. On resume the hold start becomes empty, although `COALESCE(NULL, holdStartTime)` would keep it.
- Database.ShiftGroupEtas and Database.ShiftMemberEtas: SQLite's `datetime(eta, '+N minutes')` also rewrites the stored ISO text into `YYYY-MM-DD HH:MM:SS`. The model shifts the integer time exactly. Rows with a NULL status (`status != 'COMPLETED'` is NULL, so not shifted) or a NULL eta (`datetime(NULL, …)` stays NULL) cannot arise in the model, whose status and eta are never NULL.
- Database.Db.TriggerRework: follows the evident intent of the two inserts, as the Findings below explain. The shadow project's division, part and work-type lists are taken from the rework scope, flattened.
- Database.Db.TriggerRework: three details of the penalties:
  - a member is penalised once per overlapping assignment, not once per distinct member;
  - the penalties stay booked when the project row is missing, because there is no transaction;
  - culprits are booked in id order. Credits commute (`Database.CreditsCommute`), so the order does not change the result.
- Database.Db.UpdateGroupAssignment and Database.Db.UpdateMemberAssignment: there is no transition guard, so any status may be written. A second COMPLETED update with a rating scores again (`Database.CreditTwice` shows how the credits add up).
- Database.Db.UpdateGroupAssignment and Database.Db.UpdateMemberAssignment: the row id is taken as an integer. `safeInt(id)` in the WHERE clause is not modelled. The update fields are already converted values: `Option<int>` for `safeInt` fields, `Option<…>` for `safe` fields. The scope is a parsed tree.
- The rating is an integer. A rating sent as a string would fail `rating === 3`, and that case is not modelled.
- Scope.CheckScopeOverlap: a stored scope that `JSON.parse` rejects, or that is not an array, is one `Malformed` value, and the `catch` branch returns false for it. JSON text itself is not modelled.
- Scope.CheckScopeOverlap: scope items of the wrong shape inside an array (say, an item without `parts`) are not modelled; every item of a `Tree` is well-formed. For such a scope the source is order-dependent. It returns true when a hit is found before the loop touches the bad item, and false through the `catch` once it does. The model does not capture that true.
- Database.Db.constructor: only models a fresh database. On an existing database the admin row is inserted only when no user named `admin` exists, and the user's name, password hash and roles are not modelled.
- JsText.ParseInt: the white space it skips (and `JsText.Trim` removes) is space, tab, line feed, carriage return, vertical tab, form feed, no-break space and the byte-order mark. That is a subset of ECMAScript's white space and line terminators. The `0x` prefix that a radix-less `parseInt(count)` accepts is not modelled.
- The rest of `backend/db.js` is not part of this model: users, teams, login, work types, chat, forum, notifications, statistics. So are `backend/server.js`, `store.ts`, the other components and the React state handling (`setProjForm`, modals).

## Findings

| source | as written | input that shows it | evidently intended | confidence | as-written member | corrected member |
|---|---|---|---|---|---|---|
| backend/db.js:379 | the pause binds 8 values (`p.scope` where `divisions` goes) to `updateProject`, which has 10 placeholders; the driver refuses the call | any existing project, `isHold = true` | the project becomes ON_HOLD with its hold start recorded | not executed | Database.Db.ToggleHoldAsWritten | Database.Db.ToggleHold |
| backend/db.js:383 | the resume binds the same 8 values, so it fails before the eta extension | any existing project, `isHold = false` | the project becomes ACTIVE, the hold minutes are added, and the non-COMPLETED etas are pushed back | not executed | Database.Db.ToggleHoldAsWritten | Database.Db.ToggleHold |
| backend/db.js:403-404 | `insertProject` gets 5 of its 7 values and is refused after the penalties are booked; `insertGroupAssignment` would get 9 values for 8 placeholders | any existing project | penalties, then one shadow project and one PENDING rework group assignment | not executed | Database.Db.TriggerReworkAsWritten | Database.Db.TriggerRework |
