# School fees batch and school dashboard, modelled in Dafny

This project models two parts of an Odoo-based school management system and
proves properties of the model.

- **Fee-slip batches** (`oe.feeslip.run`, `feeslip_run.dfy`, module
  `FeeslipBatch`). A batch has a workflow state (draft, confirmed `verify`,
  done `close`, paid) and owns fee slips, each with a state of its own (draft,
  done, cancel, paid). The batch is a class whose `state` and `slips` fields
  its actions update in place: reset to draft, open, close, mark paid,
  validate. The computed state change from draft to confirmed is a method.
  The delete guard and the readiness test are pure functions.
- **The school dashboard** (`silina.dashboard`). Three files model it.
  - `school_records.dfy`, module `SchoolRecords`: the records the dashboard
    reads. A student search is a filter by a domain, a list of terms, which the
    dashboard narrows by appending one more term. There is also the customer
    invoice search and the sums over invoices.
  - `dashboard_stats.dfy`, module `DashboardStats`: what each figure is, as a
    function of those records and of the dashboard's academic year. This covers
    student counts, invoice totals, the payment rate, the debtor count, staff
    counts, and the per-level and per-classroom breakdown rows.
  - `dashboard_store.dfy`, module `DashboardStore`: a `Store` class holding the
    dashboards and their breakdown rows. Its methods follow the source's loops:
    a refresh deletes a dashboard's rows and creates them again one group at a
    time. `get_dashboard` finds the dashboard of the current year, or creates
    and refreshes one.

Notes on behaviour the model follows from the code:

- `_unlink_if_draft_or_cancel` tests `state not in ('draft')`. That is a
  substring test against the string `"draft"`, not a tuple test. The model
  writes it as a substring test and proves that, for the four declared states,
  it still picks out exactly the draft state (`StateInDraftLiteral`).
- The state labels (New, Confirmed, Done, Paid) suggest a linear workflow, but
  the actions do not check the current state. `action_open` confirms from any
  state. `action_close` closes from any state once every slip is done or
  cancelled. `action_draft` resets from
  any state, paid included, unless a slip is paid. The model follows the code.
- The classroom breakdown chooses classrooms by the dashboard's year but counts
  their active students of every year. The level breakdown and the totals
  count only the year's students. `ClassroomRowsIgnoreStudentYear` gives an
  input where the two disagree.

## Model

| member | source | states |
|---|---|---|
| FeeslipBatch.StateInDraftLiteral | addons/de_school_fees-18.0.0.2/de_school_fees/models/.ipynb_checkpoints/feeslip_run-checkpoint.py:99 | the substring test `state not in ('draft')` holds for every declared state except draft |
| FeeslipBatch.AreFeeslipsReady | addons/de_school_fees-18.0.0.2/de_school_fees/models/.ipynb_checkpoints/feeslip_run-checkpoint.py:104-105 | true exactly when every slip is done or cancelled, including for a batch with no slips |
| FeeslipBatch.StateChange | addons/de_school_fees-18.0.0.2/de_school_fees/models/.ipynb_checkpoints/feeslip_run-checkpoint.py:44-48 | only a draft batch changes state, and only to confirmed; the result is draft exactly when the batch is draft with no slips |
| FeeslipBatch.StateChangeIdempotent | addons/de_school_fees-18.0.0.2/de_school_fees/models/.ipynb_checkpoints/feeslip_run-checkpoint.py:44-48 | recomputing the state a second time changes nothing |
| FeeslipBatch.UnlinkCheck | addons/de_school_fees-18.0.0.2/de_school_fees/models/.ipynb_checkpoints/feeslip_run-checkpoint.py:97-102 | deletion fails with the batch message exactly when the batch is not draft; it fails with the slip message exactly when the batch is draft and some slip is neither draft nor cancelled; otherwise it passes |
| FeeslipBatch.ValidatedReadyIffNoDraft | addons/de_school_fees-18.0.0.2/de_school_fees/models/.ipynb_checkpoints/feeslip_run-checkpoint.py:67-70 | after validation the slips are ready to close exactly when none was draft before |
| FeeslipBatch.ValidatedSlipsShape | addons/de_school_fees-18.0.0.2/de_school_fees/models/.ipynb_checkpoints/feeslip_run-checkpoint.py:67-68 | validation keeps the number of slips, leaves draft and cancelled slips unchanged, and leaves no slip paid |
| FeeslipBatch.ResetBatchIsDeletable | addons/de_school_fees-18.0.0.2/de_school_fees/models/.ipynb_checkpoints/feeslip_run-checkpoint.py:50-54 | a batch that was reset to draft, with all its slips draft, passes the delete guard |
| FeeslipBatch.FeeslipRun.constructor | addons/de_school_fees-18.0.0.2/de_school_fees/models/.ipynb_checkpoints/feeslip_run-checkpoint.py:20-25 | a new batch is draft and has no slips |
| FeeslipBatch.FeeslipRun.FeeslipCount | addons/de_school_fees-18.0.0.2/de_school_fees/models/.ipynb_checkpoints/feeslip_run-checkpoint.py:40-42 | the count is the number of slips |
| FeeslipBatch.FeeslipRun.ComputeStateChange | addons/de_school_fees-18.0.0.2/de_school_fees/models/.ipynb_checkpoints/feeslip_run-checkpoint.py:44-48 | the new state is `StateChange` of the old state and the slips; only the state field changes |
| FeeslipBatch.FeeslipRun.AttachSlip | addons/de_school_fees-18.0.0.2/de_school_fees/models/.ipynb_checkpoints/feeslip_run-checkpoint.py:18-25 | the slip is appended, and a draft batch becomes confirmed |
| FeeslipBatch.FeeslipRun.ActionDraft | addons/de_school_fees-18.0.0.2/de_school_fees/models/.ipynb_checkpoints/feeslip_run-checkpoint.py:50-54 | with a paid slip it fails with the validation message and changes nothing; otherwise the batch and every slip are draft |
| FeeslipBatch.FeeslipRun.ActionOpen | addons/de_school_fees-18.0.0.2/de_school_fees/models/.ipynb_checkpoints/feeslip_run-checkpoint.py:56-57 | the batch is confirmed, whatever its state was |
| FeeslipBatch.FeeslipRun.ActionClose | addons/de_school_fees-18.0.0.2/de_school_fees/models/.ipynb_checkpoints/feeslip_run-checkpoint.py:59-61 | the batch is done when every slip is done or cancelled; otherwise nothing changes |
| FeeslipBatch.FeeslipRun.ActionPaid | addons/de_school_fees-18.0.0.2/de_school_fees/models/.ipynb_checkpoints/feeslip_run-checkpoint.py:63-65 | every slip is paid and the batch is paid |
| FeeslipBatch.PayThenReset | addons/de_school_fees-18.0.0.2/de_school_fees/models/.ipynb_checkpoints/feeslip_run-checkpoint.py:50-65 | on a non-empty batch, `action_paid` then `action_draft` fails with the validation message, and the batch and all its slips stay paid |
| FeeslipBatch.FeeslipRun.ActionValidate | addons/de_school_fees-18.0.0.2/de_school_fees/models/.ipynb_checkpoints/feeslip_run-checkpoint.py:67-70 | slips outside draft and cancel become done; the batch is then done exactly when no slip was draft, and otherwise keeps its state |
| SchoolRecords.SearchMembers | models/dashboard.py:111-114 | a student search finds exactly the students that match every term of the domain |
| SchoolRecords.SearchRefine | models/dashboard.py:203-209 | filtering a search result by a term equals searching with that term appended |
| SchoolRecords.SearchSubdomain | models/dashboard.py:114-121 | a domain that contains every term of another counts no more students |
| SchoolRecords.GenderSplit | models/dashboard.py:116-118 | the male count and the female count together do not exceed the count of the domain they narrow |
| SchoolRecords.SearchInvoicesMembers | models/dashboard.py:127-138 | the invoice search finds exactly the customer invoices that are not cancelled and, when a year is set, are dated within it |
| SchoolRecords.SumsBounded | models/dashboard.py:141-143 | when each invoice owes between nothing and its total, the total residual lies between nothing and the total amount |
| SchoolRecords.DebtPartners | models/dashboard.py:156-157 | a partner is in the set exactly when some invoice with a positive residual has that partner |
| SchoolRecords.CountActive | models/dashboard.py:254-259 | the count is at most the number of records; it is zero exactly when none is active, and full exactly when all are |
| SchoolRecords.CountActiveAppend | models/dashboard.py:254-259 | the count over two lists is the sum of their counts |
| SchoolRecords.CountActiveSingle | models/dashboard.py:254-259 | one record counts one exactly when it is active; with `CountActiveAppend` this makes the count the number of active records |
| SchoolRecords.SearchAll | models/dashboard.py:160-165 | when every student matches the domain, the search finds them all |
| DashboardStats.StudentDomainMeaning | models/dashboard.py:107-109 | a student matches the base domain exactly when active and, if a year is set, of that year |
| DashboardStats.ComputeStudentStats | models/dashboard.py:103-121 | male plus female, and enrolled, never exceed the total |
| DashboardStats.StudentTotalMeaning | models/dashboard.py:107-114 | the total counts exactly the active students of the year, or of any year when none is set |
| DashboardStats.PaymentRate | models/dashboard.py:150-153 | zero when nothing positive is expected; a percentage in [0, 100] when the paid amount lies in [0, expected]; 100 when everything is paid |
| DashboardStats.PaymentRateMeaning | models/dashboard.py:150-151 | with something expected, rate × expected = 100 × paid |
| DashboardStats.ComputeFinancialStats | models/dashboard.py:123-165 | expected and debt are the sums over the selected invoices; paid is expected less debt; the rate is derived from them; the debtor count is the number of debtors found, at most the active students |
| DashboardStats.DebtPartnerMeaning | models/dashboard.py:156-157 | a partner is in debt exactly when one of its invoices in the domain has something left to pay |
| DashboardStats.DebtorDomainMeaning | models/dashboard.py:160-163 | a student matches the debtor domain exactly when active and with a partner among the indebted ones |
| DashboardStats.DebtorsMembers | models/dashboard.py:156-165 | the debtors are exactly the active students of the table whose partner has an invoice in the domain with a positive residual |
| DashboardStats.PaymentRateIsPercentage | models/dashboard.py:140-153 | when every selected invoice owes between nothing and its total, the rate lies in [0, 100] |
| DashboardStats.PaymentRateExample | models/dashboard.py:141-153 | 1000 invoiced with 250 owed gives 750 paid and a rate of 75 |
| DashboardStats.PaymentRateNothingExpected | models/dashboard.py:150-153 | with no invoices the rate is 0 |
| DashboardStats.DebtorCountedOnce | models/dashboard.py:156-165 | another unpaid invoice for a partner already in debt does not change the debtor count |
| DashboardStats.SharedPartnerCountsEachStudent | models/dashboard.py:159-165 | when every student is active with an indebted partner, all are counted, however many share a partner |
| DashboardStats.SharedPartnerExample | models/dashboard.py:156-165 | two active students sharing a partner with one unpaid invoice give a debtor count of 2 |
| DashboardStats.NoResidualNoDebtors | models/dashboard.py:156-165 | when no selected invoice owes anything, nobody is counted in debt |
| DashboardStats.ComputeStaffStats | models/dashboard.py:250-263 | the teacher and employee counts are at most the records; the departments are all counted |
| DashboardStats.StaffStatsAddTeacher | models/dashboard.py:253-255 | one more teacher record raises the teacher count by one exactly when it is active, and changes no other figure |
| DashboardStats.GroupDomainMeaning | models/dashboard.py:195-205 | a student is in a group's domain exactly when in the breakdown's base domain and assigned to that group |
| DashboardStats.RowForReports | models/dashboard.py:202-217 | a group gets at most one row, exactly when it has students; that row carries the group, its size and its gender counts, and male plus female is at most the total |
| DashboardStats.Rows | models/dashboard.py:202-217 | a regeneration creates at most one row per visited group |
| DashboardStats.RowsGroupIn | models/dashboard.py:202-211 | every row is for a visited group |
| DashboardStats.RowsStep | models/dashboard.py:202-217 | visiting one more group appends that group's row, if it has one |
| DashboardStats.RowsReport | models/dashboard.py:207-217 | every row reports, for its dashboard, a group with students and its gender counts |
| DashboardStats.RowsComplete | models/dashboard.py:207 | a visited group has a row exactly when it has students |
| DashboardStats.RowsCover | models/dashboard.py:232-248 | the row of every visited group with students is among the rows |
| DashboardStats.RowsUnique | models/dashboard.py:200-217 | when the groups are distinct, no two rows are for the same group |
| DashboardStats.SelectClassrooms | models/dashboard.py:225-230 | at most one entry per classroom record |
| DashboardStats.SelectClassroomsMembers | models/dashboard.py:225-230 | a classroom is visited exactly when it exists and, if a year is set, belongs to it |
| DashboardStats.LevelRowsWithinTotal | models/dashboard.py:189-217 | over distinct levels, the level rows together count no more students than the dashboard's total |
| DashboardStats.ClassroomRowsIgnoreStudentYear | models/dashboard.py:225-236 | a classroom of the year counts an active student of another year, whom the dashboard's total leaves out |
| DashboardStore.ComputeFigures | models/dashboard.py:283-286 | the refreshed figures keep the student, financial and debtor bounds |
| DashboardStore.FilterMembers | models/dashboard.py:193 | a dashboard's rows and the other rows split the rows by owner |
| DashboardStore.Replace | models/dashboard.py:193-217 | after a dashboard's rows are replaced, its rows are exactly the new ones and the other dashboards' rows are unchanged |
| DashboardStore.FindDashboard | models/dashboard.py:269 | a dashboard found has the requested year; none is found exactly when no dashboard has that year |
| DashboardStore.FindDashboardAppend | models/dashboard.py:269-274 | once a dashboard for a year missing from the store is added, the search finds it |
| DashboardStore.GroupRow | models/dashboard.py:203-217 | one iteration of a breakdown loop produces exactly the row `RowFor` specifies |
| DashboardStore.Store.constructor | models/dashboard.py:4-7 | an empty store is valid |
| DashboardStore.Store.GenerateLevelStats | models/dashboard.py:189-217 | the dashboard's level rows are replaced by the level rows of its year, in level order; other dashboards' rows are kept |
| DashboardStore.Store.GenerateClassroomStats | models/dashboard.py:219-248 | the dashboard's classroom rows are replaced by the rows of its year's classrooms; other dashboards' rows are kept |
| DashboardStore.Store.Refresh | models/dashboard.py:279-290 | the figures are recomputed and both breakdowns are regenerated |
| DashboardStore.Store.AddDashboard | models/dashboard.py:271-274 | the new dashboard has a fresh id, larger than every existing one, and is then the one found for its year |
| DashboardStore.Store.GetDashboard | models/dashboard.py:265-277 | an existing dashboard of the year is returned with nothing changed; otherwise one is created and refreshed; either way the result is the one found for the year |
| DashboardStore.Store.GetDashboardTwice | models/dashboard.py:265-277 | two calls for the same year return the same dashboard and create at most one |
| DashboardStore.Store.RefreshTwice | models/dashboard.py:279-290 | after two refreshes the dashboard's rows are those of one refresh, with none carried over, and other dashboards' rows are unchanged |

## Left out

- `_compute_cash_stats` is left out. It sums balances over liquidity accounts, reads fields by reflection (`hasattr`) and swallows every exception. Its result feeds no other figure.
- Floating point: the payment rate is computed on exact reals. Monetary amounts are integers in minor units, and currency rounding is not modelled.
- `action_feeslip_done` and `action_feeslip_paid` belong to `oe.feeslip`, which is not part of this model. They are assumed to set exactly the slips they act on to done and to paid.
- FeeslipBatch.FeeslipRun.ActionValidate: the value returned by `action_feeslip_done` is not modelled.
- Each action is modelled on one batch or one dashboard. Actions on multi-record recordsets, which the framework allows, are not modelled.
- The framework's dependency triggers are not modelled. `_compute_state_change` runs only where a method calls it explicitly: after a slip is attached.
- `get_current_year` is a parameter of `GetDashboard`, not a lookup.
- Record ordering is left out: dashboards are kept in id order, which is the framework's default order, and levels and classrooms are visited in the given sequence order.
- DashboardStats.ComputeStaffStats: its own contract states only bounds; `StaffStatsAddTeacher`, `SchoolRecords.CountActiveAppend` and `SchoolRecords.CountActiveSingle` fix the counts as the number of active records.
- The UI action descriptors are left out: `action_open_feeslips`, `action_open_feeslip_run_form`, `_generate_feeslips` and the notification dictionary that `action_refresh` returns.
- The chatter mixins (`mail.thread`, `mail.activity.mixin`), dates, company and country fields are left out. No modelled operation reads them.
- A student field that holds a value outside `male` and `female` becomes `Unspecified`. The `state` selection is kept as a string.
