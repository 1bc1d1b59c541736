/** The browser-side controller: the list of competences mirrored from the server, the
    locally computed evaluations and statistics, and the load, create, toggle, add and
    delete flows as pure state transitions. Every network call is an abstract outcome
    passed in as a parameter. */
module AppController {
  import opened Wrappers
  import opened Text
  import opened Domain
  import SC = StatusCalculator

  /** What `calculateEvaluation` returns: no `total` field, unlike the server's evaluation. */
  datatype ClientEvaluation = ClientEvaluation(validees: nat, nonValidees: nat, statut: string, pourcentage: Option<int>)

  /** A competence as received from the API; `sousCompetences` may be missing from the JSON,
      and `evaluation` is attached by the client. */
  datatype ClientCompetence = ClientCompetence(
    id: string, code: string, nom: string,
    sousCompetences: Option<seq<SubItem>>,
    evaluation: Option<ClientEvaluation>)

  /** The last notification shown. */
  datatype Toast = NoToast | ToastSuccess(message: string) | ToastError(message: string)

  /** The component state: the six `useState` hooks plus the last notification. */
  datatype ClientState = ClientState(
    competences: seq<ClientCompetence>,
    showForm: bool,
    loading: bool,
    formLoading: bool,
    stats: Option<SC.Stats>,
    error: Option<string>,
    toast: Toast)

  /** Outcome of a create, update or delete request. */
  datatype Outcome = Succeeded | Failed

  /** Outcome of `getAll`: the response's `data` field, which may be missing, or a failure. */
  datatype Fetch = Fetched(data: Option<seq<ClientCompetence>>) | FetchFailed

  const LOAD_ERROR: string := "Impossible de charger les compétences. Vérifiez que votre API est démarrée."
  const CREATE_ERROR: string := "Erreur lors de la création de la compétence"
  const UPDATE_ERROR: string := "Erreur lors de la mise à jour"
  const DELETE_ERROR: string := "Erreur lors de la suppression"
  const ADD_ERROR: string := "Erreur lors de l'ajout de la sous-compétence"
  const ADD_SUCCESS: string := "Sous-compétence ajoutée !"

  /** The state before the first load completes. */
  const InitialState := ClientState([], false, true, false, None, None, NoToast)

  /** `calculateEvaluation`: the client's copy of the threshold rule. */
  function CalculateEvaluation(s: seq<SubItem>): (e: ClientEvaluation)
    ensures e.validees + e.nonValidees == |s|
    ensures e.statut == VALIDEE <==> 2 * e.validees >= |s|
    ensures e.statut == NON_VALIDEE <==> 2 * e.validees < |s|
    ensures e.pourcentage.None? <==> |s| == 0
  {
    StatusLabelsDiffer();
    var validees := |SC.ValidatedOnly(s)|;
    var nonValidees := |s| - validees;
    ClientEvaluation(validees, nonValidees,
                     if validees >= nonValidees then VALIDEE else NON_VALIDEE,
                     SC.RoundedPercentage(validees, |s|))
  }

  /** `calculateEvaluation` agrees with the server's calculator on counts, status and percentage. */
  lemma CalculateEvaluationAgrees(s: seq<SubItem>)
    ensures var e := SC.CalculerStatutCompetence(s);
      CalculateEvaluation(s) == ClientEvaluation(e.validees, e.nonValidees, e.statut, e.pourcentage)
  {
  }

  /** The sub-items of a client competence, a missing list read as empty (`comp.sousCompetences || []`). */
  function SubItemsOf(c: ClientCompetence): seq<SubItem> {
    c.sousCompetences.OrElse([])
  }

  /** The reducer callback of `calculateStats`, where `?.` and `|| 0` turn a missing list into zeros. */
  function StatsStep(acc: SC.Stats, c: ClientCompetence): SC.Stats {
    var validees := if c.sousCompetences.Some? then |SC.ValidatedOnly(c.sousCompetences.value)| else 0;
    var total := if c.sousCompetences.Some? then |c.sousCompetences.value| else 0;
    var isValidee := validees >= total - validees;
    SC.Stats(acc.totalCompetences + 1,
             acc.competencesValidees + (if isValidee then 1 else 0),
             acc.totalSousCompetences + total,
             acc.sousCompetencesValidees + validees)
  }

  /** `reduce` with `StatsStep`, from the left. */
  function StatsReduce(acc: SC.Stats, cs: seq<ClientCompetence>): SC.Stats
    decreases |cs|
  {
    if |cs| == 0 then acc else StatsReduce(StatsStep(acc, cs[0]), cs[1..])
  }

  /** `calculateStats`: the four counters over the loaded competences, which are the
      server's global statistics of the same documents. */
  function CalculateStats(cs: seq<ClientCompetence>): (st: SC.Stats)
    ensures st == SC.CalculerStatistiquesGlobales(ServerViews(cs))
    ensures st.totalCompetences == |cs|
  {
    StatsReduceAgrees(SC.ZeroStats, cs);
    StatsReduce(SC.ZeroStats, cs)
  }

  /** The document the server holds for a client competence, a missing list read as empty. */
  function ServerView(c: ClientCompetence): Competence {
    Competence(c.id, c.code, c.nom, SubItemsOf(c))
  }

  function ServerViews(cs: seq<ClientCompetence>): (r: seq<Competence>)
    ensures |r| == |cs|
    ensures forall k :: 0 <= k < |cs| ==> r[k] == ServerView(cs[k])
  {
    seq(|cs|, k requires 0 <= k < |cs| => ServerView(cs[k]))
  }

  /** The client's reduction and the server's reduction agree step by step. */
  lemma {:induction false} StatsReduceAgrees(acc: SC.Stats, cs: seq<ClientCompetence>)
    ensures StatsReduce(acc, cs) == SC.Reduce(acc, ServerViews(cs))
    decreases |cs|
  {
    if |cs| > 0 {
      assert ServerViews(cs)[1..] == ServerViews(cs[1..]);
      assert StatsStep(acc, cs[0]) == SC.Accumulate(acc, ServerView(cs[0]));
      StatsReduceAgrees(StatsStep(acc, cs[0]), cs[1..]);
    }
  }

  /** A competence without a sub-item list contributes no sub-items and counts as validated. */
  lemma MissingListCountsAsValidated(c: ClientCompetence)
    requires c.sousCompetences.None?
    ensures CalculateStats([c]) == SC.Stats(1, 1, 0, 0)
  {
    assert [c][1..] == [];
    assert CalculateStats([c]) == StatsReduce(StatsStep(SC.ZeroStats, c), []);
  }

  /** The evaluation a competence should carry: the one computed from its own sub-items. */
  function EvaluationOf(c: ClientCompetence): ClientEvaluation {
    CalculateEvaluation(SubItemsOf(c))
  }

  /** The controller's invariant: every evaluation and the statistics are those of the
      current sub-items, never stale. */
  predicate Consistent(st: ClientState) {
    && (forall k :: 0 <= k < |st.competences| ==> st.competences[k].evaluation == Some(EvaluationOf(st.competences[k])))
    && st.stats == Some(CalculateStats(st.competences))
  }

  /** In a consistent state the displayed statistics are the server's for the same documents. */
  lemma ConsistentStatsMatchServer(st: ClientState)
    requires Consistent(st)
    ensures st.stats == Some(SC.CalculerStatistiquesGlobales(ServerViews(st.competences)))
  {
  }

  /** The competences of a successful load, each with its freshly computed evaluation. */
  function Annotate(cs: seq<ClientCompetence>): (r: seq<ClientCompetence>)
    ensures |r| == |cs|
    ensures forall k :: 0 <= k < |cs| ==>
      r[k] == cs[k].(evaluation := Some(CalculateEvaluation(SubItemsOf(cs[k]))))
  {
    seq(|cs|, k requires 0 <= k < |cs| => cs[k].(evaluation := Some(EvaluationOf(cs[k]))))
  }

  /** `loadCompetences`, once the request has settled. */
  function LoadCompetences(st: ClientState, reply: Fetch): (r: ClientState)
    ensures !r.loading && Consistent(r)
    ensures r.showForm == st.showForm && r.formLoading == st.formLoading && r.toast == st.toast
    ensures reply.Fetched? ==> r.error.None? && |r.competences| == |reply.data.OrElse([])|
    ensures reply.Fetched? ==> forall k :: 0 <= k < |r.competences| ==>
      r.competences[k].(evaluation := None) == reply.data.value[k].(evaluation := None)
    ensures reply.FetchFailed? ==> r.error == Some(LOAD_ERROR) && r.competences == []
    ensures reply.FetchFailed? ==> r.stats == Some(SC.Stats(0, 0, 0, 0))
  {
    match reply
    case Fetched(data) =>
      var cs := Annotate(data.OrElse([]));
      st.(loading := false, error := None, competences := cs, stats := Some(CalculateStats(cs)))
    case FetchFailed =>
      st.(loading := false, error := Some(LOAD_ERROR), competences := [], stats := Some(SC.ZeroStats))
  }

  /** Mounting the component runs the first load. */
  lemma InitialLoadConsistent(reply: Fetch)
    ensures var r := LoadCompetences(InitialState, reply);
      Consistent(r) && !r.loading && !r.showForm && !r.formLoading
  {
  }

  /** `competences.find(c => c._id === id)`: the first competence with that id. */
  function FindById(cs: seq<ClientCompetence>, id: string): (r: Option<ClientCompetence>)
    ensures r.None? <==> forall k :: 0 <= k < |cs| ==> cs[k].id != id
    ensures r.Some? ==> r.value.id == id
    ensures r.Some? ==> exists k :: (0 <= k < |cs| && cs[k] == r.value && forall j :: 0 <= j < k ==> cs[j].id != id)
  {
    if |cs| == 0 then None
    else if cs[0].id == id then Some(cs[0])
    else
      var r := FindById(cs[1..], id);
      if r.Some? then
        var k :| 0 <= k < |cs[1..]| && cs[1..][k] == r.value && forall j :: 0 <= j < k ==> cs[1..][j].id != id;
        assert cs[k + 1] == r.value;
        r
      else r
  }

  /** The sub-item list with entry `i`'s `validee` flag negated. */
  function ToggleAt(s: seq<SubItem>, i: int): (r: seq<SubItem>)
    requires 0 <= i < |s|
    ensures |r| == |s|
    ensures r[i].nom == s[i].nom && r[i].validee == !s[i].validee
    ensures forall k :: 0 <= k < |s| && k != i ==> r[k] == s[k]
  {
    s[i := s[i].(validee := !s[i].validee)]
  }

  /** Toggling the same entry twice restores the list. */
  lemma ToggleTwiceRestores(s: seq<SubItem>, i: int)
    requires 0 <= i < |s|
    ensures ToggleAt(ToggleAt(s, i), i) == s
  {
  }

  /** Toggling moves exactly one sub-item between the validated and non-validated counts. */
  lemma ToggleMovesOneCount(s: seq<SubItem>, i: int)
    requires 0 <= i < |s|
    ensures var before, after := CalculateEvaluation(s), CalculateEvaluation(ToggleAt(s, i));
      if s[i].validee then after.validees == before.validees - 1 && after.nonValidees == before.nonValidees + 1
      else after.validees == before.validees + 1 && after.nonValidees == before.nonValidees - 1
  {
    var t := ToggleAt(s, i);
    assert s == s[..i] + [s[i]] + s[i + 1..];
    assert t == s[..i] + [t[i]] + s[i + 1..];
    SC.ValidatedOnlyConcat(s[..i] + [s[i]], s[i + 1..]);
    SC.ValidatedOnlyConcat(s[..i], [s[i]]);
    SC.ValidatedOnlyConcat(s[..i] + [t[i]], s[i + 1..]);
    SC.ValidatedOnlyConcat(s[..i], [t[i]]);
    assert [s[i]][1..] == [] && [t[i]][1..] == [];
  }

  /** Appending a non-validated sub-item adds one to `nonValidees` and leaves `validees` alone. */
  lemma AppendCounts(s: seq<SubItem>, nom: string)
    ensures var before, after := CalculateEvaluation(s), CalculateEvaluation(s + [SubItem(nom, false)]);
      after.validees == before.validees && after.nonValidees == before.nonValidees + 1
  {
    SC.ValidatedOnlyConcat(s, [SubItem(nom, false)]);
    assert [SubItem(nom, false)][1..] == [];
  }

  /** The optimistic rewrite: every competence with that id gets the new list and its
      evaluation; every other competence is untouched. */
  function ReplaceById(cs: seq<ClientCompetence>, id: string, s: seq<SubItem>): (r: seq<ClientCompetence>)
    ensures |r| == |cs|
    ensures forall k :: 0 <= k < |cs| && cs[k].id != id ==> r[k] == cs[k]
    ensures forall k :: 0 <= k < |cs| && cs[k].id == id ==>
      r[k] == cs[k].(sousCompetences := Some(s), evaluation := Some(CalculateEvaluation(s)))
  {
    seq(|cs|, k requires 0 <= k < |cs| =>
      if cs[k].id == id then cs[k].(sousCompetences := Some(s), evaluation := Some(CalculateEvaluation(s)))
      else cs[k])
  }

  /** The synchronous part of a toggle or an add: the rewritten list and recomputed statistics. */
  function Optimistic(st: ClientState, id: string, s: seq<SubItem>): (r: ClientState)
    ensures Consistent(st) ==> Consistent(r)
    ensures r.competences == ReplaceById(st.competences, id, s)
    ensures r.stats == Some(CalculateStats(r.competences))
    ensures r.(competences := st.competences, stats := st.stats) == st
  {
    var cs := ReplaceById(st.competences, id, s);
    st.(competences := cs, stats := Some(CalculateStats(cs)))
  }

  /** The catch branch of toggle and add: a full reload from the server and an error
      notification, never a local rollback. */
  function FailAndReload(st: ClientState, reload: Fetch, message: string): (r: ClientState)
    ensures Consistent(r) && !r.loading && r.toast == ToastError(message)
    ensures r.competences == LoadCompetences(st, reload).competences
    ensures r.stats == LoadCompetences(st, reload).stats
    ensures r.error == LoadCompetences(st, reload).error
    ensures r.showForm == st.showForm && r.formLoading == st.formLoading
  {
    LoadCompetences(st, reload).(toast := ToastError(message))
  }

  /** The new sub-item list of a toggle, or `None` where the source throws: unknown id,
      missing list, or index out of range. */
  function ToggledList(cs: seq<ClientCompetence>, id: string, i: int): (r: Option<seq<SubItem>>)
    ensures r.Some? <==> (FindById(cs, id).Some? && FindById(cs, id).value.sousCompetences.Some?
      && 0 <= i < |FindById(cs, id).value.sousCompetences.value|)
    ensures r.Some? ==> var c := FindById(cs, id).value;
      r.value == ToggleAt(c.sousCompetences.value, i)
  {
    match FindById(cs, id)
    case None => None
    case Some(c) =>
      if c.sousCompetences.None? || !(0 <= i < |c.sousCompetences.value|) then None
      else Some(ToggleAt(c.sousCompetences.value, i))
  }

  /** `handleToggleSousCompetence`, once the update request (and any reload) has settled. */
  function HandleToggleSousCompetence(st: ClientState, id: string, i: int, persist: Outcome, reload: Fetch): (r: ClientState)
    ensures Consistent(st) ==> Consistent(r)
    ensures ToggledList(st.competences, id, i).None? ==> r == FailAndReload(st, reload, UPDATE_ERROR)
    ensures ToggledList(st.competences, id, i).Some? && persist.Succeeded? ==>
      r == Optimistic(st, id, ToggledList(st.competences, id, i).value)
    ensures persist.Failed? ==> r == FailAndReload(st, reload, UPDATE_ERROR)
  {
    match ToggledList(st.competences, id, i)
    case None => FailAndReload(st, reload, UPDATE_ERROR)
    case Some(s) =>
      var optimistic := Optimistic(st, id, s);
      if persist.Succeeded? then optimistic
      else FailAndReload(optimistic, reload, UPDATE_ERROR)
  }

  /** The new sub-item list of an add, or `None` where the source throws: unknown id or missing list. */
  function AppendedList(cs: seq<ClientCompetence>, id: string, nom: string): (r: Option<seq<SubItem>>)
    ensures r.Some? <==> FindById(cs, id).Some? && FindById(cs, id).value.sousCompetences.Some?
    ensures r.Some? ==> var prev := FindById(cs, id).value.sousCompetences.value;
      |r.value| == |prev| + 1 && r.value[..|prev|] == prev && r.value[|prev|] == SubItem(nom, false)
  {
    match FindById(cs, id)
    case None => None
    case Some(c) =>
      if c.sousCompetences.None? then None
      else
        var s := c.sousCompetences.value + [SubItem(nom, false)];
        assert s[..|c.sousCompetences.value|] == c.sousCompetences.value;
        Some(s)
  }

  /** `handleAddSousCompetence`, once the update request (and any reload) has settled. */
  function HandleAddSousCompetence(st: ClientState, id: string, nom: string, persist: Outcome, reload: Fetch): (r: ClientState)
    ensures Consistent(st) ==> Consistent(r)
    ensures AppendedList(st.competences, id, nom).None? ==> r == FailAndReload(st, reload, ADD_ERROR)
    ensures AppendedList(st.competences, id, nom).Some? && persist.Succeeded? ==>
      r == Optimistic(st, id, AppendedList(st.competences, id, nom).value).(toast := ToastSuccess(ADD_SUCCESS))
    ensures persist.Failed? ==> r == FailAndReload(st, reload, ADD_ERROR)
  {
    match AppendedList(st.competences, id, nom)
    case None => FailAndReload(st, reload, ADD_ERROR)
    case Some(s) =>
      var optimistic := Optimistic(st, id, s);
      if persist.Succeeded? then optimistic.(toast := ToastSuccess(ADD_SUCCESS))
      else FailAndReload(optimistic, reload, ADD_ERROR)
  }

  /** The card's add button: a blank entry is ignored, otherwise the trimmed name is added. */
  function CardAddSousCompetence(st: ClientState, id: string, input: string, persist: Outcome, reload: Fetch): (r: ClientState)
    ensures IsBlank(input) ==> r == st
    ensures !IsBlank(input) ==> r == HandleAddSousCompetence(st, id, Trim(input), persist, reload)
  {
    if TrimIsEmpty(input) then st else HandleAddSousCompetence(st, id, Trim(input), persist, reload)
  }

  /** `handleDeleteCompetence`: a reload on success, a notification and no change on failure. */
  function HandleDeleteCompetence(st: ClientState, id: string, del: Outcome, reload: Fetch): (r: ClientState)
    ensures Consistent(st) ==> Consistent(r)
    ensures del.Succeeded? ==> r == LoadCompetences(st, reload)
    ensures del.Failed? ==> r == st.(toast := ToastError(DELETE_ERROR))
  {
    if del.Succeeded? then LoadCompetences(st, reload) else st.(toast := ToastError(DELETE_ERROR))
  }

  /** `handleCreateCompetence`: success closes the form and reloads; failure keeps the form
      open and notifies; `formLoading` ends false either way. */
  function HandleCreateCompetence(st: ClientState, create: Outcome, reload: Fetch): (r: ClientState)
    ensures Consistent(st) ==> Consistent(r)
    ensures !r.formLoading
    ensures create.Succeeded? ==> r == LoadCompetences(st.(showForm := false, formLoading := false), reload)
    ensures create.Failed? ==> r == st.(formLoading := false, toast := ToastError(CREATE_ERROR))
  {
    var submitting := st.(formLoading := true);
    if create.Succeeded? then LoadCompetences(submitting.(showForm := false), reload).(formLoading := false)
    else submitting.(toast := ToastError(CREATE_ERROR), formLoading := false)
  }

  /** Where a toggle throws before any state change (unknown id, or index out of range),
      the only effect is the reload and the error notification. */
  lemma ToggleErrorOnlyReloads(st: ClientState, id: string, i: int, persist: Outcome, reload: Fetch)
    requires (forall k :: 0 <= k < |st.competences| ==> st.competences[k].id != id)
      || (FindById(st.competences, id).Some? && FindById(st.competences, id).value.sousCompetences.Some?
          && !(0 <= i < |FindById(st.competences, id).value.sousCompetences.value|))
    ensures HandleToggleSousCompetence(st, id, i, persist, reload) == LoadCompetences(st, reload).(toast := ToastError(UPDATE_ERROR))
  {
  }

  /** A successful toggle changes exactly one flag of exactly the addressed competence and
      leaves every other competence as it was. */
  lemma ToggleScope(st: ClientState, id: string, i: int, reload: Fetch, k: int)
    requires ToggledList(st.competences, id, i).Some?
    requires 0 <= k < |st.competences|
    ensures var r := HandleToggleSousCompetence(st, id, i, Succeeded, reload);
      && |r.competences| == |st.competences|
      && (st.competences[k].id != id ==> r.competences[k] == st.competences[k])
      && (st.competences[k].id == id ==>
            r.competences[k].sousCompetences == Some(ToggleAt(FindById(st.competences, id).value.sousCompetences.value, i))
            && r.competences[k].evaluation == Some(EvaluationOf(r.competences[k])))
      && r.stats == Some(CalculateStats(r.competences))
  {
  }
}
