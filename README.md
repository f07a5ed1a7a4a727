# Weekly allowance ledger — a verified model

This project models the core of a small family application that keeps a
child's weekly allowance. Parents keep a catalogue of rules, each with a
severity weight. They log infractions against those rules. Each week the
child is due a base allowance of 100, less a deduction computed from that
week's infractions.

The model covers these parts:

- **Deduction rule** (`Calculations`): each infraction of a week takes the
  share `100 / ΣW · w` of the base. In exact arithmetic the shares of any
  non-empty week add up to the whole base, so every week with at least one
  infraction loses all of its allowance.
- **Week resolver** (`Calculations`): maps an instant to its Sunday
  00:00:00.000 to Saturday 23:59:59.999 window.
- **Consumers of the engine**: the eight-week history and its statistics
  (`History`), the dashboard summary and rule-cost table (`Dashboard`), and
  the infraction screen's preview, recent list and logging form
  (`InfractionsManagement`).
- **Application shell** (`App`): the add/update/delete handlers over the
  stored lists, the current week's allowance, the parent/child session and
  which screen renders.
- **Form screens for parents and rules** (`ParentsManagement`,
  `RulesManagement`).

Modelling choices:

- Money is `real`, so the proportional identities hold exactly.
- Time is an integer count of local milliseconds, with 86,400,000 ms per day.
  The epoch (day 0) was a Thursday, so the weekday of `t` is
  `(t / 86400000 + 4) % 7`, with Dafny's Euclidean division.
- Components that only compute become functions. Components that change
  state become classes:
  - `App.AppState` for the application;
  - `InfractionsManagement.InfractionForm`, `ParentsManagement.ParentsForm`
    and `RulesManagement.RulesForm` for the forms.
- A React callback (`onAddRule`, `onDeleteParent`, …) is modelled as the
  value the form method returns: an action, or the id to delete.
- `RulesManagement.ApplyRuleAction` and `ParentsManagement.ApplyParentAction`
  show what the application does with that value.
- The clock (`new Date()`), the fresh ids (`Date.now().toString()`) and the
  answer to `confirm(...)` are parameters.

`Seqs` holds the array operations the source relies on: `filter`, `find`,
`reverse`, a summing `reduce`, `slice(-n)`, and an `Option` for
`undefined`/`null`.

The history's loop is imperative in the source. In the model,
`History.BuildHistory` is a `while` loop from 7 down to 0 that pushes each
week and then reverses the list. It is proved against `History.WeekAgo`,
the specification of one row. The lemmas give the rows' shape and
statistics (`HistoryShape`, `HistoryRows`, `HistoryStatistics`).

The source disagrees with itself in two places, and the model follows the
code in both:

- **The infraction screen's preview** divides by the weights of *every*
  infraction ever logged, plus the candidate, not by the current week's.
  `PreviewIsNotTheDeduction` shows that the preview can therefore differ
  from what is actually deducted.
- **The sample data.** At src/App.tsx:17 the application ships three sample
  infractions (weights 2, 2 and 4). The comment there says they leave 20 of
  the allowance, but the deduction rule leaves 0
  (`App.SampleInfractionsLeaveNothing`). The intended outcome cannot be read
  from the code, so this is recorded here and not as a finding.

## Model

| member | source | states |
|---|---|---|
| Calculations.CalculateWeeklyDeduction | src/utils/calculations.ts:7-20 | an empty list deducts 0; a non-empty list whose weights do not cancel deducts exactly the base 100; the result always lies in [0, 100] |
| Calculations.SharesExhaustBase | src/utils/calculations.ts:11-17 | the shares `(B/ΣW)·w_i` of a list with a non-zero total add up to exactly B |
| Calculations.SumOfSharesScales | src/utils/calculations.ts:14-17 | the folded sum of shares is `B/T` times the sum of the weights |
| Calculations.ShareOrdered | src/utils/calculations.ts:15 | under one positive total, equal weights take equal shares and a heavier weight a strictly larger share |
| Calculations.ShareMonotone | src/utils/calculations.ts:15 | with the other weights fixed, raising an infraction's weight never lowers its share, and raises it strictly when there are other weights |
| Calculations.DeductionIgnoresOrder | src/utils/calculations.ts:11-17 | the deduction depends only on the multiset of weights, so reordering the infractions does not change it |
| Calculations.PositiveWeightsDefined | src/utils/calculations.ts:11 | positive weights make the total positive, so the division is defined |
| Calculations.WeekStart | src/utils/calculations.ts:22-30 | `getWeekStart(t)` is a Sunday at 00:00:00.000, at most t, and less than seven days before t |
| Calculations.Weekday | src/utils/calculations.ts:25 | `getDay()` always gives one of the seven days 0..6, with Sunday 0 (day 0 of the epoch being a Thursday) |
| Calculations.Midnight | src/utils/calculations.ts:28 | `setHours(0, 0, 0, 0)` gives a whole-day instant at most t and less than one day before it: the start of t's day |
| Calculations.WeekStartUnique | src/utils/calculations.ts:22-30 | the week start of t is the only Sunday midnight in the seven days that end at t |
| Calculations.WeekStartIdempotent | src/utils/calculations.ts:22-30 | a Sunday midnight is its own week start, and `getWeekStart` is idempotent |
| Calculations.WeekStartsApart | src/utils/calculations.ts:22-30 | two week starts less than a week apart are equal |
| Calculations.WeeksApart | src/utils/calculations.ts:22-30 | instants more than a week apart have strictly ordered week starts |
| Calculations.WeekStartShift | src/utils/calculations.ts:22-30 | going k weeks back moves the week start back by exactly k weeks |
| Calculations.WeekEnd | src/utils/calculations.ts:32-37 | `getWeekEnd(d)` is d's midnight plus 6 days and 23:59:59.999, which is the week start plus 7 days less 1 ms |
| Calculations.WeekMembership | src/utils/calculations.ts:22-37 | for a week start s, `getWeekStart(t) == s` holds iff `s <= t <= getWeekEnd(s)` |
| Calculations.GetCurrentWeek | src/utils/calculations.ts:39-44 | the current week starts at the week start of `now`, ends one week less 1 ms later, and contains `now` |
| History.InWindowMember | src/components/History.tsx:28-31 | an infraction belongs to a week's list iff it is one of all the infractions and is dated inside the week's window |
| History.WeekAgoFacts | src/components/History.tsx:22-44 | the row i weeks back starts i weeks before the current week start and ends one week less 1 ms later; it holds the window's infractions; its remaining amount is `max(0, 100 − deductions)` in [0, 100], which is 100 for an empty week and 0 otherwise; it is paid iff i > 0 |
| History.WeekAgoWindow | src/components/History.tsx:22-31 | the row i weeks back covers a calendar week starting exactly i weeks before the current week start, ending at its `getWeekEnd`, and holds exactly that window's infractions |
| History.WindowsDisjoint | src/components/History.tsx:22-31 | two different calendar weeks never select the same infraction |
| History.WeeksDisjoint | src/components/History.tsx:28-31 | no infraction appears in the rows of two different weeks |
| History.PushedRowsAt | src/components/History.tsx:21-45 | after n passes the loop has pushed the weeks 7, 6, … back, oldest first |
| History.BuildHistory | src/components/History.tsx:16-48 | `historyData` has exactly 8 rows, and row k is the week k weeks back (the list is reversed after the loop) |
| History.HistoryShape | src/components/History.tsx:21-47 | row 0 is the week that contains `today`; the week starts drop by exactly one week per row; only row 0 is unpaid |
| History.HistoryRows | src/components/History.tsx:33-43 | every row is paid iff it is not the current week, and keeps 100 when empty and 0 otherwise |
| History.EarnedIsCleanWeeks | src/components/History.tsx:50-52 | `totalEarned` is 100 for each paid week without infractions |
| History.SumRemainingBounds | src/components/History.tsx:50-52 | when each remaining amount lies in [0, 100], their sum lies in [0, 100 per week] |
| History.EarnedBounds | src/components/History.tsx:50-55 | the total lies in [0, 100·paid weeks]; `averageWeekly` lies in [0, 100] and is 0 when no week is paid |
| History.PerformanceCounts | src/components/History.tsx:187-193 | no week is both excellent (paid, at least 80 left) and difficult (paid, less than 50 left), and the two counts add up to at most the paid weeks |
| History.CountsBelowPaid | src/components/History.tsx:187-193 | the excellent weeks and the difficult weeks together number at most the paid weeks |
| History.HistoryStatistics | src/components/History.tsx:50-55 | over the eight rows exactly seven weeks are paid, the total is 100 per clean past week, the average lies in [0, 100], and excellent plus difficult weeks are at most 7 |
| Dashboard.ComputeWeekData | src/components/Dashboard.tsx:19-39 | no allowance gives (100, 0, 100, 100); otherwise the deduction is 0 or 100 by the week's emptiness, remaining is the base less it floored at 0, and the percentage is remaining over base, in [0, 100] for a positive base |
| Dashboard.PercentageBounds | src/components/Dashboard.tsx:30-31 | the percentage times the base is 100 times the remaining amount, and with a positive base a remainder within it gives a percentage in [0, 100] |
| Dashboard.GetProgressColor | src/components/Dashboard.tsx:41-45 | green iff at least 70, yellow iff in [40, 70), red iff below 40, so exactly one colour applies |
| Dashboard.CalculateRuleCost | src/components/Dashboard.tsx:50-53 | a rule's cost is its share of 100 among the weights of all rules |
| Dashboard.SumOfRuleCostsIsShares | src/components/Dashboard.tsx:50-53 | the costs of any shown rules add up to the engine's fold of shares of their weights against the total of all rules |
| Dashboard.RuleCostsSumTo100 | src/components/Dashboard.tsx:50-56 | when the rule weights do not cancel, the costs of all rules add up to 100, in stored order and in the table's sorted order |
| Dashboard.SortedRulesCorrect | src/components/Dashboard.tsx:56 | `sortedRules` is a permutation of the rules, heaviest first |
| Dashboard.SortedRulesStable | src/components/Dashboard.tsx:56 | the sort is stable: rules of the same weight keep their relative order |
| Dashboard.InsertKeepsOrder | src/components/Dashboard.tsx:56 | inserting a rule into a heaviest-first list keeps it heaviest first |
| Dashboard.InsertPermutes | src/components/Dashboard.tsx:56 | inserting a rule adds exactly that rule: the multiset grows by it and the length by one |
| Dashboard.InsertSorted | src/components/Dashboard.tsx:56 | one step of the sort turns a sorted permutation of the tail into a sorted permutation of the whole list |
| Dashboard.InsertOfWeight | src/components/Dashboard.tsx:56 | insertion passes only strictly heavier rules, so among the rules of the inserted weight it lands first |
| Dashboard.InsertCost | src/components/Dashboard.tsx:50-56 | inserting a rule adds exactly its cost to the table's cost total |
| Dashboard.SortedCost | src/components/Dashboard.tsx:50-56 | sorting does not change the table's cost total |
| Dashboard.GetPriority | src/components/Dashboard.tsx:126-127 | high iff the weight is at least 8, medium iff it is in 5..7, low otherwise, so exactly one band applies |
| InfractionsManagement.RecentInfractions | src/components/InfractionsManagement.tsx:34 | the last min(10, n) infractions, newest first |
| InfractionsManagement.GetWeightColor | src/components/InfractionsManagement.tsx:60-65 | red iff at least 8, orange iff in 5..7, yellow iff in 3..4, green below 3; the rules screen's badge is an identical copy of this function |
| InfractionsManagement.CalculateDeductionPreview | src/components/InfractionsManagement.tsx:67-71 | the preview is the candidate's share of B when the denominator is the weight of every logged infraction plus the candidate |
| InfractionsManagement.PreviewIsShareOfAppended | src/components/InfractionsManagement.tsx:69-70 | the preview is the share the candidate would take if every logged infraction and the candidate formed one week |
| InfractionsManagement.PreviewBounds | src/components/InfractionsManagement.tsx:67-71 | with positive weights the preview lies in (0, B], and it is B when nothing has been logged |
| InfractionsManagement.PreviewAtMostBase | src/components/InfractionsManagement.tsx:69-70 | a positive candidate weight against non-negative other weights previews a share in (0, B], the whole of B when there are no others |
| InfractionsManagement.PreviewMonotone | src/components/InfractionsManagement.tsx:70 | with the logged infractions fixed, a heavier candidate never previews less, and previews strictly more once something is logged |
| InfractionsManagement.PreviewIsNotTheDeduction | src/components/InfractionsManagement.tsx:69-70 | with weights 2 and 2 logged, a weight-4 candidate previews 50, while the week holding all three loses 100 |
| InfractionsManagement.PreviewWeight | src/components/InfractionsManagement.tsx:118 | the preview uses the first rule with the selected id, or 1 when there is none or its weight is 0 |
| InfractionsManagement.SubmittedRecord | src/components/InfractionsManagement.tsx:33-50 | nothing is submitted iff the selected rule or the current parent is missing; otherwise the record copies the rule's id, name, weight and image, signs with the parent's name, leaves `registeredById` unset, is dated now, and turns empty notes into none |
| InfractionsManagement.SubmitTakesFirstRule | src/components/InfractionsManagement.tsx:33-45 | with two rules under one id, weighing 2 and 9, the submitted record carries weight 2, the first match's |
| InfractionsManagement.InfractionForm.constructor | src/components/InfractionsManagement.tsx:29-31 | the form starts closed, with no rule selected and empty notes |
| InfractionsManagement.InfractionForm.SelectRule | src/components/InfractionsManagement.tsx:91 | choosing a rule in the select changes only the selected id |
| InfractionsManagement.InfractionForm.SetNotes | src/components/InfractionsManagement.tsx:128 | typing in the notes changes only the notes |
| InfractionsManagement.InfractionForm.PickRule | src/components/InfractionsManagement.tsx:228-231 | a click on a rule card selects that rule and opens the dialog, keeping the notes |
| InfractionsManagement.InfractionForm.HandleSubmit | src/components/InfractionsManagement.tsx:36-146 | with no rule selected the disabled submit button does nothing; otherwise returns `SubmittedRecord` of the form's state; a missing rule or parent changes nothing; a submit clears the rule and notes and closes the dialog |
| InfractionsManagement.InfractionForm.SetDialogOpen | src/components/InfractionsManagement.tsx:143 | cancel closes the dialog and keeps the selection and notes |
| App.Append | src/App.tsx:114 | an add keeps every earlier element and puts exactly one new element at the end |
| App.AppendKeepsUnique | src/App.tsx:140-145 | adding a record under an id no record has keeps ids unique |
| App.ReplaceById | src/App.tsx:118-120 | an update keeps the length and replaces exactly the elements with the id by the new record; the others stay in place |
| App.ReplaceKeepsIds | src/App.tsx:118-120 | an update whose replacement carries the updated id keeps every record's id, so unique ids stay unique |
| App.RemoveById | src/App.tsx:123-126 | a delete keeps exactly the elements without the id |
| App.RemoveKeepsOrder | src/App.tsx:123-126 | a delete distributes over concatenation, so the survivors keep their relative order |
| App.RemoveAbsent | src/App.tsx:154-157 | deleting an id that no record carries leaves the list unchanged |
| App.RemoveUnique | src/App.tsx:154-157 | with unique ids a delete removes at most one record, and exactly one when the id is present |
| App.RemoveKeepsUnique | src/App.tsx:123-126 | a delete keeps ids unique |
| App.NormalizeDate | src/App.tsx:133 | the stored date is always a string for the same instant; a string is kept as given |
| App.StoredInfraction | src/App.tsx:129-134 | the stored infraction has the fresh id, copies every submitted field, and has a string date |
| App.WeekFiltersAgree | src/App.tsx:65-68 | bucketing by equal week start selects exactly the infractions the history selects by range, in the same order |
| App.GetCurrentWeekAllowance | src/App.tsx:63-80 | none iff no infraction's week start equals the current one; otherwise that week's infractions in order, base 100, unpaid, totals 0 |
| App.CurrentWeekIsFirstHistoryRow | src/App.tsx:63-80 | the current week's allowance holds the same infractions as history row 0, and is absent exactly when that row is empty |
| App.DashboardOfCurrentWeek | src/App.tsx:170-177 | with positive weights the dashboard shows 100 left with no infraction this week and 0 left (a deduction of 100) otherwise |
| App.SampleInfractionsLeaveNothing | src/App.tsx:17-49 | the three sample infractions take shares 25, 25 and 50 and leave 0 for the week |
| App.RenderScreen | src/App.tsx:160-216 | a screen renders nothing iff it is one of rules, infractions, history and parents outside parent mode; any other view rendered is the current screen's own |
| App.AppState.CurrentParent | src/App.tsx:83 | the parent shown is the first one with the session's id, and none iff no parent has it; in a consistent child-mode session no parent is shown unless a record has an empty id |
| App.AppState.constructor | src/App.tsx:52-60 | the application starts on the login screen, not in parent mode, with no parent id |
| App.AppState.HandleLogin | src/App.tsx:86-92 | login sets the parent id and parent mode and opens the dashboard; the lists are unchanged |
| App.AppState.HandleChildAccess | src/App.tsx:94-99 | child access clears the mode and the id and opens the dashboard, where the parent screens render nothing |
| App.AppState.HandleLogout | src/App.tsx:101-106 | logout clears the mode and the id and returns to the login screen, which hides navigation |
| App.AppState.SetCurrentScreen | src/App.tsx:223 | navigating changes only the screen |
| App.AppState.HandleAddRule | src/App.tsx:109-116 | the rules gain `{...rule, id}` at the end; nothing else changes |
| App.AppState.HandleUpdateRule | src/App.tsx:118-121 | the rules with the id are replaced by `{...updatedRule, id}`; nothing else changes |
| App.AppState.HandleDeleteRule | src/App.tsx:123-126 | the rules with the id are removed; nothing else changes |
| App.AppState.HandleAddInfraction | src/App.tsx:129-137 | the infractions gain the stored record, with a string date, at the end; nothing else changes |
| App.AppState.HandleAddParent | src/App.tsx:140-147 | the parents gain `{...parent, id}` at the end; nothing else changes |
| App.AppState.HandleUpdateParent | src/App.tsx:149-152 | the parents with the id are replaced by `{...updatedParent, id}`; nothing else changes |
| App.AppState.HandleDeleteParent | src/App.tsx:154-157 | the parents with the id are removed; nothing else changes |
| ParentsManagement.HandleDelete | src/components/ParentsManagement.tsx:57-66 | a delete is requested iff there are at least two parents and it was confirmed, and then for the given id |
| ParentsManagement.GuardedDeleteKeepsAParent | src/components/ParentsManagement.tsx:57-65 | with unique ids a delete that passes the guard leaves at least one parent |
| ParentsManagement.GuardNeedsUniqueIds | src/components/ParentsManagement.tsx:58 | the guard counts records, not ids: two parents under one id pass it and are both removed |
| ParentsManagement.FormDataOf | src/components/ParentsManagement.tsx:50-53 | the form loaded for a parent, put back under the parent's id, is the parent again |
| ParentsManagement.EditRoundTrip | src/components/ParentsManagement.tsx:35-55 | editing a parent and saving it unchanged leaves the list as it was |
| ParentsManagement.RoleLabelsDistinct | src/components/ParentsManagement.tsx:68-79 | the label table covers all seven roles, with a different label for each |
| ParentsManagement.RoleColorsShared | src/components/ParentsManagement.tsx:81-92 | the colour table covers all seven roles; only 'avo' and 'avó' share a colour (grey) |
| ParentsManagement.ParentsForm.ResetForm | src/components/ParentsManagement.tsx:27-33 | the form is reset to name '', role 'pai', nothing being edited |
| ParentsManagement.ParentsForm.constructor | src/components/ParentsManagement.tsx:20-25 | the form starts closed, empty (name '', role 'pai') and editing nothing |
| ParentsManagement.ParentsForm.SetDialogOpen | src/components/ParentsManagement.tsx:98 | opening or closing the dialog (also the cancel button, line 145) keeps the form data and the parent being edited |
| ParentsManagement.ParentsForm.ChangeFormData | src/components/ParentsManagement.tsx:117-127 | editing the name or role input replaces only the form data |
| ParentsManagement.ParentsForm.HandleSubmit | src/components/ParentsManagement.tsx:35-120 | an action is produced iff the `required` name is filled in, and a refused form changes nothing; otherwise an update under the edited parent's id, or else an add, of the form data, and then the form is reset and the dialog closed |
| ParentsManagement.ApplyKeepsNames | src/components/ParentsManagement.tsx:110-120 | every add or update the form can submit keeps every parent named |
| ParentsManagement.ParentsForm.HandleEdit | src/components/ParentsManagement.tsx:48-55 | the parent becomes the one being edited, its name and role fill the form, and the dialog opens |
| RulesManagement.HandleDelete | src/components/RulesManagement.tsx:68-72 | a delete is requested iff it was confirmed, and then for the given id; there is no minimum count |
| RulesManagement.LastRuleDeletable | src/components/RulesManagement.tsx:68-72 | the last rule can be deleted, leaving an empty catalogue |
| RulesManagement.FormDataOf | src/components/RulesManagement.tsx:58-64 | the form loaded for a rule, put back under the rule's id, is the rule again |
| RulesManagement.EditRoundTrip | src/components/RulesManagement.tsx:43-66 | editing a rule and saving it unchanged leaves the catalogue as it was |
| RulesManagement.CategoryLabelsDistinct | src/components/RulesManagement.tsx:81-90 | the label table covers all five categories, with a different label for each |
| RulesManagement.RulesForm.ResetForm | src/components/RulesManagement.tsx:32-41 | the form is reset to empty texts, weight 1, category 'comportamento', nothing being edited |
| RulesManagement.RulesForm.constructor | src/components/RulesManagement.tsx:22-30 | the form starts closed, empty (texts '', weight 1, category 'comportamento') and editing nothing |
| RulesManagement.RulesForm.SetDialogOpen | src/components/RulesManagement.tsx:96 | opening or closing the dialog (also the cancel button, line 176) keeps the form data and the rule being edited |
| RulesManagement.RulesForm.ChangeFormData | src/components/RulesManagement.tsx:115-169 | editing any of the five inputs replaces only the form data |
| RulesManagement.RulesForm.HandleSubmit | src/components/RulesManagement.tsx:43-172 | an action is produced iff the `required` texts are filled in and the weight lies in `min`..`max` 1..10, and a refused form changes nothing; otherwise an update under the edited rule's id, or else an add, of the form data, and then the form is reset and the dialog closed |
| RulesManagement.ApplyKeepsWeightRange | src/components/RulesManagement.tsx:133-141 | a catalogue with weights in 1..10 keeps them there through every add or update the form can submit |
| RulesManagement.RulesForm.HandleEdit | src/components/RulesManagement.tsx:56-66 | the rule becomes the one being edited, all five of its fields fill the form, and the dialog opens |

Functions that only compute carry no contract of their own; the rows
above that state what each one means are:

- `History.WeekAgo`, which is also the body of the history loop:
  `WeekAgoFacts`, `WeekAgoWindow` and `PushedRowsAt`.
- `History.TotalEarned` and `History.AverageWeekly`: `EarnedIsCleanWeeks`,
  `EarnedBounds` and `HistoryStatistics`.
- `History.ExcellentCount` and `History.DifficultCount`:
  `PerformanceCounts` and `CountsBelowPaid`.
- `Dashboard.SortedRules` and `Dashboard.Insert`: `SortedRulesCorrect`,
  `SortedRulesStable` and the `Insert…` lemmas.
- `Calculations.Share` and `Calculations.TotalWeight`: `ShareOrdered`,
  `ShareMonotone`, `SumOfSharesScales`, `SharesExhaustBase` and
  `PositiveWeightsDefined`.
- `ParentsManagement.GetRoleLabel`, `ParentsManagement.GetRoleColor` and
  `RulesManagement.GetCategoryLabel` (src/components/ParentsManagement.tsx:68-92,
  src/components/RulesManagement.tsx:81-90): `RoleLabelsDistinct`,
  `RoleColorsShared` and `CategoryLabelsDistinct`.
- `App.RuleWithId` and `App.ParentWithId` (`{ ...rule, id }` and
  `{ ...parent, id }`, src/App.tsx:110-113, 141-144): the two `FormDataOf`
  rows and the two `EditRoundTrip` rows.
- `App.ShowNavigation` (src/App.tsx:220): the `HandleLogin`,
  `HandleChildAccess` and `HandleLogout` rows.

The record types of src/types/index.ts are in `Types`:

- Category, role and screen are closed datatypes with five, seven and six
  values.
- `Infraction` keeps `ruleName` and `weight` as snapshots beside `ruleId`.
- A date is `DateObject` or `DateString` of one instant.

## Left out

- Floating point. Money is exact `real`, so the model proves the exact
  identities (the shares add up to the base). It does not model JavaScript
  rounding.
- Calculations.CalculateWeeklyDeduction: the `Math.min` clamp only matters
  for floating-point overshoot. With exact arithmetic the clamp is not
  reached for positive weights.
- NaN and Infinity. They arise from a zero total weight. A cleared weight
  input makes `parseInt` store NaN in the form
  (src/components/RulesManagement.tsx:139), but the browser then refuses the
  submit; the model's weight is an integer.
- Calculations.CalculateWeeklyDeduction, Dashboard.CalculateRuleCost,
  Dashboard.ComputeWeekData and InfractionsManagement.CalculateDeductionPreview
  require a non-zero denominator, because a zero total (or, for
  `ComputeWeekData`, a zero base) gives NaN or Infinity in the source. The
  only allowance the application passes to the dashboard has base 100
  (src/App.tsx:63-80).
- History.BuildHistory and History.WeekAgo require positive weights for the
  same reason. The rules form only submits weights in 1..10
  (`RulesManagement.ApplyKeepsWeightRange`), and the default catalogue keeps
  to that range, but the lists loaded from storage are not checked.
- RulesManagement.RulesForm.HandleSubmit and
  ParentsManagement.ParentsForm.HandleSubmit model the `required`, `min` and
  `max` checks as `Submittable`: a text is filled in when it is non-empty.
  The browser's other constraint checks (a fractional weight failing the
  number input's step) and its validation messages are not modelled.
- Time zones and daylight saving. Days are 86,400,000 ms of local time, and
  `setDate` month rollover is the same day arithmetic.
- Parsing of date strings (src/utils/calculations.ts:23) and Invalid Date. A
  `DateString` is taken to hold a valid instant.
- `formatCurrency`, `formatDate` and `formatDateTime`
  (src/utils/calculations.ts:46-83). They are locale formatting library
  calls.
- Rendering, JSX, styling, images, toasts and alerts. Colour classes are
  kept only where they encode a rule, such as thresholds.
- `useLocalStorage` persistence. It is not part of this model. The lists
  are plain fields and the constructor takes their stored contents.
- The `weeklyAllowances` store is never written, and the history ignores
  it. It is not modelled.
- The `infractions.slice(-5)` handed to the dashboard (src/App.tsx:174). The
  dashboard never reads it.
- Id generation with `Date.now().toString()`. The fresh id is a parameter,
  and nothing guarantees it is unique.
  - `ParentsManagement.GuardNeedsUniqueIds` shows what the delete guard then
    misses.
  - The uniqueness lemmas take unique ids as a hypothesis.
- src/components/Login.tsx and its fixed password check, and
  src/components/Navigation.tsx. These are presentation only. `HandleLogin`
  receives the chosen parent id, and `SetCurrentScreen` stands for the
  navigation bar's screen change.
- src/data/mockData.ts, the default catalogue. Only the base amount 100
  (`WeeklyAllowanceBase`) is used.
- The form inputs. Each input's `setFormData` is modelled as one
  `ChangeFormData`, or `SelectRule` / `SetNotes` on the infractions form,
  without the individual fields' widgets.
