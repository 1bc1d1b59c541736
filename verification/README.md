# Competence tracker — verified model of the evaluation rule and the client state machine

The system tracks *competences* (a code `C1`..`C8`, a name, and an ordered list of
*sous-compétences*, each a name plus a `validee` flag). A competence is **`validée`** when
its validated sub-items are at least as many as the non-validated ones; ties, including
the empty list, pass. The rule exists in three copies: the server utility
(`calculerStatutCompetence`), the Mongoose instance method (`calculerStatut`) and the
React controller (`calculateEvaluation` / `calculateStats`). This project models:

- **`StatusCalculator`** (`status_calculator.dfy`): per-competence evaluation with the
  rounded percentage, the global statistics fold and `filtrerParStatut`. It proves the count
  identities, the threshold rule, the exact half-up rounding, additivity of the statistics
  over concatenation, their invariance under reordering, and that filtering by the two
  statuses partitions the list.
- **`CompetenceModel`** (`competence_model.dfy`): the schema as casting (`trim`, the
  `validee` default) plus validators (`required`, `match`), the unique indexes on insertion,
  the collection invariant, and agreement of `calculerStatut` with the utility.
- **`AppController`** (`app_controller.dfy`): the React component's state as a record, and
  load / create / toggle / add / delete as pure transitions. Every network call is an
  abstract `Outcome` or `Fetch` parameter. The central invariant `Consistent` says that
  every evaluation and the statistics are those of the current sub-items. Every transition
  preserves it, and a failed persist reloads instead of rolling back.
- **`CompetenceForm`** (`competence_form.dfy`): `validateForm` as an errors record, the three
  list edits, reset and submit. The list is never empty, and anything the form submits also
  passes the server schema.
- `Text` (ASCII `trim`, the `^C[1-8]$` pattern), `Domain` (entities, status labels) and
  `Wrappers` (`Option`, `Result`) are shared helpers.

Percentages are exact integers: for `total > 0`, `(200*v + t) / (2*t)`, the exact value
that `Math.round(v/t*100)` approximates (the nearest integer to `100*v/t`, halves rounded
up). For `total == 0` the source computes `NaN`, and
the model returns `None`.

Two consequences of the code are worth stating plainly:
- An empty sub-item list is `validée` (`0 >= 0`) and has no numeric percentage, since
  `Math.round((0 / 0) * 100)` is `NaN`.
- The evaluation update has no version check, so concurrent replacements of a sub-item
  list are last-write-wins.

## Model

| member | source | states |
|---|---|---|
| Text.Trim | server/models/competence.js:8 | the result is a slice of the input with only whitespace removed on both ends, and it neither starts nor ends with whitespace |
| Text.BlankIffTrimEmpty | Client/src/components/CompetenceForm.jsx:17 | `!s.trim()` holds exactly when every character of `s` is whitespace |
| Text.TrimmedIsFixpoint | server/models/competence.js:24-28 | a string with no whitespace at either end is its own trim, so a stored name is stable |
| Text.CodePatternIsC1ToC8 | server/models/competence.js:18-23 | `/^C[1-8]$/` accepts exactly the eight strings C1..C8 |
| Text.CodePatternNotBlank | Client/src/components/CompetenceForm.jsx:17-21 | a code matching the pattern is never blank, so "required" and "format" never both apply |
| StatusCalculator.ValidatedOnly | server/utils/statusCalculator.js:5-7 | the filter keeps exactly the validated sub-items and is no longer than its input |
| StatusCalculator.ValidatedCountIsPositionCount | server/utils/statusCalculator.js:5-7 | the filtered length equals the number of positions holding a validated sub-item |
| StatusCalculator.ValidatedOnlyCounts | server/utils/statusCalculator.js:5-7 | the filtered length equals the element-by-element count of validated sub-items |
| StatusCalculator.RoundedPercentage | server/utils/statusCalculator.js:17 | no number when the total is 0; otherwise the integer nearest to `100*v/t` (half up), within 0..100 when `v <= t` |
| StatusCalculator.CalculerStatutCompetence | server/utils/statusCalculator.js:4-19 | `validees + nonValidees == total` and that is the list length; `validée` iff at least half are validated, otherwise `non validée`; a percentage exists iff the list is non-empty |
| StatusCalculator.EvaluationCountsPositions | server/utils/statusCalculator.js:5-7 | `validees` is the number of positions holding a validated sub-item |
| StatusCalculator.EvaluationPercentage | server/utils/statusCalculator.js:17 | for a non-empty list the percentage is within 0..100 and is `100*validees/total` rounded half up |
| StatusCalculator.Reduce | server/utils/statusCalculator.js:23-38 | folding adds one competence per element, between 0 and 1 validated competence per element, the list lengths to the sub-item total, and never more validated sub-items than sub-items |
| StatusCalculator.CalculerStatistiquesGlobales | server/utils/statusCalculator.js:22-39 | `totalCompetences` is the list length, the sub-item total is the sum of list lengths, the validated sub-item counter is the per-competence count of validated sub-items summed over the list, and both validated counters are bounded by their totals |
| StatusCalculator.ReduceCountsValidated | server/utils/statusCalculator.js:23-31 | the fold adds each competence's count of validated sub-items to the counter it starts from |
| StatusCalculator.ReduceShift | server/utils/statusCalculator.js:33-38 | reducing from any start value equals that value plus the reduction from zero |
| StatusCalculator.ReduceConcat | server/utils/statusCalculator.js:23-38 | reducing a concatenation equals reducing the first part and continuing with the second |
| StatusCalculator.StatsConcat | server/utils/statusCalculator.js:23-38 | the statistics of `a + b` are the counter-wise sum of those of `a` and of `b` |
| StatusCalculator.StatsPermutation | server/utils/statusCalculator.js:23-38 | two lists with the same elements in any order have the same statistics |
| StatusCalculator.FiltrerParStatut | server/utils/statusCalculator.js:42-47 | a competence is in the result iff it is in the input and its computed status equals the argument |
| StatusCalculator.FilterConcat | server/utils/statusCalculator.js:42-47 | filtering distributes over concatenation, so input order is preserved |
| StatusCalculator.FilterCountsValidated | server/utils/statusCalculator.js:29 | the number of competences filtered by `validée` equals `competencesValidees` |
| StatusCalculator.FilterPartition | server/utils/statusCalculator.js:42-47 | the `validée` and `non validée` filters split the input multiset exactly |
| StatusCalculator.FilterPartitionLengths | server/utils/statusCalculator.js:42-47 | the lengths of the two status filters sum to the input length |
| StatusCalculator.FilterOtherStatus | server/utils/statusCalculator.js:42-47 | any status string other than the two labels selects nothing |
| StatusCalculator.ScenarioTwoOfThree | server/tests/statusCalculator.test.js:5-17 | `[T,T,F]` gives 2 validated, 1 not, `validée`, 67 percent |
| StatusCalculator.ScenarioOneOfThree | server/tests/statusCalculator.test.js:19-31 | `[T,F,F]` gives 1 validated, 2 not, `non validée`, 33 percent |
| StatusCalculator.ScenarioEmpty | server/utils/statusCalculator.js:16-17 | the empty list is `validée` with no numeric percentage |
| CompetenceModel.PresentAfterTrim | server/models/competence.js:24-28 | a trimmed name passes `required` iff it was given and is not blank |
| CompetenceModel.Violations | server/models/competence.js:4-29 | the collected validation errors report the code at most once, as missing or as off-pattern but never both, and name only existing sub-item positions |
| CompetenceModel.SubItemViolationsReport | server/models/competence.js:4-14 | sub-item `k` is reported iff its name is missing or blank, and no code or name violation comes from the sub-items |
| CompetenceModel.ViolationsEmptyIffAcceptable | server/models/competence.js:4-29 | validation reports nothing iff the code matches, the name is non-blank and every sub-item name is non-blank |
| CompetenceModel.ViolationsReport | server/models/competence.js:4-29 | each reported violation corresponds to exactly the offending field: a missing or empty code is "required", a non-empty code off the pattern is "format", a missing or blank name is "required" |
| CompetenceModel.CastIsValid | server/models/competence.js:4-29 | casting an acceptable body yields a document meeting every schema constraint |
| CompetenceModel.CreateDocument | server/models/competence.js:4-29 | a document is created iff the body is acceptable; it carries the given code, the trimmed names and the same number of sub-items, each `validee` defaulting to false; otherwise a non-empty validation error |
| CompetenceModel.AppendKeepsValid | server/models/competence.js:21 | appending a valid document with an unused code and id keeps codes and ids unique |
| CompetenceModel.Save | server/models/competence.js:17-32 | saving succeeds iff the body is acceptable and neither code nor id is taken, and then appends exactly the created document; an unacceptable body fails with the full validation error; a duplicate error carries the taken code or id; a taken code is reported before a taken id, a choice the code leaves open |
| CompetenceModel.SaveKeepsValid | server/models/competence.js:17-32 | a successful save preserves the collection invariant |
| CompetenceModel.CalculerStatut | server/models/competence.js:35-43 | counts sum to the list length, and `validée` iff at least half the sub-items are validated |
| CompetenceModel.CalculerStatutAgrees | server/models/competence.js:35-43 | the instance method returns the utility's `validees`, `nonValidees` and `statut` for every competence |
| CompetenceModel.RejectedCodes | server/models/competence.js:22 | `C9`, `c1` and `C10` fail the format check, `""` fails `required`, `C8` passes |
| CompetenceModel.DuplicateCodeRejected | server/models/competence.js:21 | saving a body whose code is already stored fails |
| AppController.CalculateEvaluation | Client/src/App.jsx:45-55 | counts sum to the list length, `validée` iff at least half are validated, percentage exists iff the list is non-empty |
| AppController.CalculateEvaluationAgrees | Client/src/App.jsx:45-55 | the client evaluation equals the server utility's on counts, status and percentage |
| AppController.StatsReduceAgrees | Client/src/App.jsx:24-42 | the client fold equals the server fold on the server's view of each competence, from any start value |
| AppController.CalculateStats | Client/src/App.jsx:24-42 | the client's four counters over the loaded list are the server's global statistics of the same documents, one competence counted per entry |
| AppController.MissingListCountsAsValidated | Client/src/App.jsx:26-28 | a competence without `sousCompetences` counts once, as validated, with no sub-items |
| AppController.ConsistentStatsMatchServer | Client/src/App.jsx:71 | in a consistent state the displayed statistics are the server's for the same documents |
| AppController.Annotate | Client/src/App.jsx:65-68 | every loaded competence keeps its fields and gets the evaluation of its own sub-items |
| AppController.LoadCompetences | Client/src/App.jsx:58-84 | afterwards loading is off and the state is consistent; on success the list is the fetched one (missing data read as empty) with no error; on failure the list is empty, all stats are 0 and the error is set; form flags are untouched |
| AppController.InitialLoadConsistent | Client/src/App.jsx:16-21 | the first load from the initial state yields a consistent, loaded state with the form closed |
| AppController.FindById | Client/src/App.jsx:108 | `find` returns nothing iff no competence has the id, otherwise the first one that has it |
| AppController.ToggleAt | Client/src/App.jsx:109-110 | same length, entry `i` has its flag negated and its name kept, every other entry unchanged |
| AppController.ToggleTwiceRestores | Client/src/App.jsx:109-110 | toggling the same index twice restores the list |
| AppController.ToggleMovesOneCount | Client/src/App.jsx:109-118 | a toggle moves exactly one sub-item between the validated and non-validated counts |
| AppController.AppendCounts | Client/src/App.jsx:150-160 | adding a sub-item leaves `validees` unchanged and adds one to `nonValidees` |
| AppController.ReplaceById | Client/src/App.jsx:113-122 | competences with another id are unchanged; those with the id get the new list and its evaluation |
| AppController.Optimistic | Client/src/App.jsx:113-125 | the optimistic update keeps the state consistent, recomputes the stats and touches nothing but the list and the stats |
| AppController.FailAndReload | Client/src/App.jsx:129-133 | the failure path ends consistent, not loading, with an error notice, with exactly the reloaded list, stats and error banner, and with the form flags untouched |
| AppController.ToggledList | Client/src/App.jsx:108-110 | a new list exists iff the id is found, its list is present and the index is in range; it is the found list with that entry toggled |
| AppController.HandleToggleSousCompetence | Client/src/App.jsx:106-134 | preserves consistency; a throwing lookup only reloads and notifies; a successful persist leaves the optimistic state; a failed persist ends exactly in the reload-plus-notice state, as if the optimistic update had never happened |
| AppController.AppendedList | Client/src/App.jsx:149-153 | a new list exists iff the id is found with a list; it is the old list plus `{nom, validee:false}` at the end |
| AppController.HandleAddSousCompetence | Client/src/App.jsx:147-174 | preserves consistency; success is the optimistic state plus a success notice; a failed persist ends exactly in the reload-plus-notice state, as if the optimistic update had never happened |
| AppController.CardAddSousCompetence | Client/src/components/CompetenceCard.jsx:18-24 | an all-whitespace entry changes nothing; otherwise the trimmed entry is added |
| AppController.HandleDeleteCompetence | Client/src/App.jsx:137-144 | preserves consistency; success is a reload; failure only adds an error notice |
| AppController.HandleCreateCompetence | Client/src/App.jsx:92-103 | preserves consistency and ends with `formLoading` off; success is exactly a reload with the form closed and no notice; failure keeps the form open and only adds an error notice |
| AppController.ToggleErrorOnlyReloads | Client/src/App.jsx:108-110 | an unknown id or an out-of-range index only reloads and notifies |
| AppController.ToggleScope | Client/src/App.jsx:113-125 | after a successful toggle, other competences are unchanged, the addressed one has the toggled list and its own evaluation, and stats match the new list |
| CompetenceForm.CodeErrorOf | Client/src/components/CompetenceForm.jsx:17-21 | no code error iff the code matches the pattern; a blank code reports "required", any other mismatch "format" |
| CompetenceForm.BlankPositions | Client/src/components/CompetenceForm.jsx:31-35 | a position is reported iff its sub-item name is all whitespace |
| CompetenceForm.ValidateForm | Client/src/components/CompetenceForm.jsx:14-39 | no errors iff the code matches, the name is non-blank, the list is non-empty and every sub-item name is non-blank; the code error is the one `CodeErrorOf` gives (required when blank, format otherwise), and the name flag, the empty-list flag and the blank indices each match their field |
| CompetenceForm.InitialFormInvalid | Client/src/components/CompetenceForm.jsx:5-9 | the initial form reports a required code, a required name and a blank sub-item 0 |
| CompetenceForm.ResetForm | Client/src/components/CompetenceForm.jsx:49-56 | after a reset the code and the name are empty, the list is exactly one `{nom: '', validee: false}` and there are no errors |
| CompetenceForm.AddSousCompetence | Client/src/components/CompetenceForm.jsx:58-63 | one `{nom:'', validee:false}` is appended, the existing entries and other fields are unchanged |
| CompetenceForm.WithoutIndex | Client/src/components/CompetenceForm.jsx:69 | filtering out index `i` removes exactly position `i` when in range and nothing otherwise |
| CompetenceForm.RemoveSousCompetence | Client/src/components/CompetenceForm.jsx:65-72 | no-op on a one-element list or an out-of-range index; otherwise exactly position `i` goes and the order of the rest is kept; the list stays non-empty |
| CompetenceForm.UpdateSousCompetence | Client/src/components/CompetenceForm.jsx:74-81 | length and every `validee` flag are kept, only the name at `i` changes, and it becomes the new value |
| CompetenceForm.HandleSubmit | Client/src/components/CompetenceForm.jsx:35-47 | data is submitted iff it validates, then the form resets; otherwise the data stays and the errors shown are exactly those validation computed, which are non-empty |
| CompetenceForm.EditsKeepListNonEmpty | Client/src/components/CompetenceForm.jsx:5-81 | the initial form, add, remove, update and submit all keep at least one sub-item |
| CompetenceForm.RequestBody | Client/src/components/CompetenceForm.jsx:44 | the submitted body carries the code, the name and every sub-item's name and flag, position by position |
| CompetenceForm.FormStricterThanSchema | Client/src/components/CompetenceForm.jsx:14-39 | the form accepts iff the server schema accepts the body and the list is non-empty |

## Left out

- `server/routes/competences.js`: the Express handlers. They map errors to 400/404/500 and delegate reads, updates and deletes to the store, whose semantics are not visible; only insertion (`save`) is modelled.
- `server/app.js`: database connection, CORS, JSON middleware and `listen`.
- `Client/src/services/api.js`: each axios call is an abstract `Outcome` (create, update, delete) or `Fetch` (list) parameter of the transition.
- Rendering: the JSX of every component, `StatCard`, `LoadingSpinner`, `window.confirm` before delete, and the `|| 0` display fallback that hides a `NaN` percentage. Toasts are kept only as the last notice in the state.
- Floating point: `Math.round` on a double division is replaced by exact integer rounding. IEEE edge cases are not reproduced.
- StatusCalculator.RoundedPercentage: rounds the exact quotient, so it can differ by one from the program where the double product falls just below a half. For 23 validated out of 40, `23/40*100` is `57.49999999999999` and the program shows 57, whereas the model gives 58; 29 out of 200 gives 14 against 15.
- Concurrency: overlapping toggles, out-of-order responses and last-write-wins on the server are not modelled.
- Toggle aliasing: the shallow copy followed by in-place mutation in the toggle is modelled as a pure update of one list entry. The model does not mutate the previous list.
- `toUpperCase` on the code input and Unicode whitespace in `trim` are not modelled. Only ASCII whitespace (space, tab, LF, VT, FF, CR) is trimmed.
- Mongoose `timestamps`, casting of non-string or non-boolean values, and ObjectId generation: the document id is a parameter, and only a clash on it is modelled (the `_id` index).
- Text.Trim: covers ASCII whitespace only, whereas `String.prototype.trim` also removes Unicode spaces and line terminators.
- AppController.LoadCompetences: describes the state once the request has settled. The intermediate `loading = true, error = null` state is not exposed.
- AppController.HandleToggleSousCompetence: describes the state once the update and any reload have settled. The optimistic state seen between them is given by `AppController.Optimistic`.
- CompetenceModel.Save: reporting a taken code before a taken id is a modelling choice. The route never sets `_id`, so the database supplies a fresh one, and which unique index the database checks first is not stated by the code.
- AppController.HandleAddSousCompetence: describes the state once the update and any reload have settled, like the toggle.
