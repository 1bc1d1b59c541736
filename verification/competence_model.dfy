/** The persisted competence document: schema casting (trim, defaults), schema validation,
    the unique indexes on insertion, and the `calculerStatut` instance method. */
module CompetenceModel {
  import opened Wrappers
  import opened Text
  import opened Domain
  import StatusCalculator

  /** A sub-item as received in a request body, before casting: either field may be missing. */
  datatype SubItemInput = SubItemInput(nom: Option<string>, validee: Option<bool>)

  /** A creation request body; `sousCompetences` defaults to the empty list upstream. */
  datatype CompetenceInput = CompetenceInput(code: Option<string>, nom: Option<string>, sousCompetences: seq<SubItemInput>)

  /** One failed schema validator, reported per path. */
  datatype Violation = CodeRequired | CodeFormat | NomRequired | SubItemNomRequired(index: int)

  /** Why saving a document fails: schema validation, or a unique index already holding the key. */
  datatype SaveError = ValidationError(violations: set<Violation>) | DuplicateCode(code: string) | DuplicateId(id: string)

  /** The `trim: true` setter, applied when a string path is cast. */
  function CastTrimmed(s: Option<string>): Option<string> {
    match s
    case None => None
    case Some(v) => Some(Trim(v))
  }

  /** The `required: true` validator on a string path: a missing value or `""` fails it. */
  predicate Present(s: Option<string>) {
    s.Some? && s.value != ""
  }

  /** Casting a sub-item: the name is trimmed and `validee` defaults to `false`. */
  function CastSubItem(x: SubItemInput): SubItem {
    SubItem(CastTrimmed(x.nom).OrElse(""), x.validee.OrElse(false))
  }

  /** `code`: `required`, then `match: /^C[1-8]$/`, which passes the empty string through. */
  function CodeViolations(code: Option<string>): set<Violation> {
    if !Present(code) then {CodeRequired}
    else if !MatchesCodePattern(code.value) then {CodeFormat}
    else {}
  }

  /** `nom`: trimmed, then `required`. */
  function NomViolations(nom: Option<string>): set<Violation> {
    if Present(CastTrimmed(nom)) then {} else {NomRequired}
  }

  /** `sousCompetences.<i>.nom`: trimmed, then `required`, for every position. */
  function SubItemViolations(items: seq<SubItemInput>): set<Violation> {
    set k | 0 <= k < |items| && !Present(CastTrimmed(items[k].nom)) :: SubItemNomRequired(k)
  }

  /** Every validator failure of a cast document, collected as one validation error does. */
  function Violations(input: CompetenceInput): (r: set<Violation>)
    ensures !(CodeRequired in r && CodeFormat in r)
    ensures forall v :: v in r && v.SubItemNomRequired? ==> 0 <= v.index < |input.sousCompetences|
  {
    CodeViolations(input.code) + NomViolations(input.nom) + SubItemViolations(input.sousCompetences)
  }

  /** A stored sub-item: its name is non-empty and already trimmed. */
  predicate ValidSubItem(x: SubItem) {
    x.nom != "" && IsTrimmed(x.nom)
  }

  /** A stored competence satisfies every schema constraint on its own. */
  predicate ValidCompetence(c: Competence) {
    && MatchesCodePattern(c.code)
    && c.nom != "" && IsTrimmed(c.nom)
    && forall k :: 0 <= k < |c.sousCompetences| ==> ValidSubItem(c.sousCompetences[k])
  }

  /** No two stored competences share a code (the `unique` index on `code`). */
  predicate UniqueCodes(store: seq<Competence>) {
    forall i, j :: 0 <= i < j < |store| ==> store[i].code != store[j].code
  }

  /** No two stored competences share an id (the implicit unique index on `_id`). */
  predicate UniqueIds(store: seq<Competence>) {
    forall i, j :: 0 <= i < j < |store| ==> store[i].id != store[j].id
  }

  /** The collection invariant of the competence collection. */
  predicate ValidStore(store: seq<Competence>) {
    && (forall k :: 0 <= k < |store| ==> ValidCompetence(store[k]))
    && UniqueCodes(store)
    && UniqueIds(store)
  }

  /** A trimmed name is present exactly when the raw name is given and not blank. */
  lemma PresentAfterTrim(s: Option<string>)
    ensures Present(CastTrimmed(s)) <==> s.Some? && !IsBlank(s.value)
  {
    if s.Some? {
      BlankIffTrimEmpty(s.value);
    }
  }

  /** What a request body must satisfy to be stored: a code C1 to C8, a non-blank name,
      and a non-blank name on every sub-item. */
  predicate Acceptable(input: CompetenceInput) {
    && input.code.Some? && MatchesCodePattern(input.code.value)
    && input.nom.Some? && !IsBlank(input.nom.value)
    && forall k :: 0 <= k < |input.sousCompetences| ==>
         input.sousCompetences[k].nom.Some? && !IsBlank(input.sousCompetences[k].nom.value)
  }

  /** The sub-item validators report position `k` exactly when its name is missing or blank,
      and report nothing about the code or the competence name. */
  lemma SubItemViolationsReport(items: seq<SubItemInput>)
    ensures forall k :: 0 <= k < |items| ==>
      (SubItemNomRequired(k) in SubItemViolations(items) <==> items[k].nom.None? || IsBlank(items[k].nom.value))
    ensures SubItemViolations(items) == {} <==> forall k :: 0 <= k < |items| ==> items[k].nom.Some? && !IsBlank(items[k].nom.value)
    ensures CodeRequired !in SubItemViolations(items) && CodeFormat !in SubItemViolations(items)
    ensures NomRequired !in SubItemViolations(items)
  {
    forall k | 0 <= k < |items| ensures Present(CastTrimmed(items[k].nom)) <==> items[k].nom.Some? && !IsBlank(items[k].nom.value) {
      PresentAfterTrim(items[k].nom);
    }
    if exists k :: 0 <= k < |items| && !(items[k].nom.Some? && !IsBlank(items[k].nom.value)) {
      var k :| 0 <= k < |items| && !(items[k].nom.Some? && !IsBlank(items[k].nom.value));
      assert SubItemNomRequired(k) in SubItemViolations(items);
    }
  }

  /** The validators report nothing exactly for acceptable bodies. */
  lemma ViolationsEmptyIffAcceptable(input: CompetenceInput)
    ensures Violations(input) == {} <==> Acceptable(input)
  {
    SubItemViolationsReport(input.sousCompetences);
    PresentAfterTrim(input.nom);
    if Acceptable(input) {
      assert CodeViolations(input.code) == {} && NomViolations(input.nom) == {};
    }
  }

  /** Each reported violation names exactly the offending field: a missing or empty code is
      "required", a non-empty code off the pattern is "format", a missing or blank name is
      "required", and likewise for each sub-item name. */
  lemma ViolationsReport(input: CompetenceInput)
    ensures CodeRequired in Violations(input) <==> input.code.None? || input.code.value == ""
    ensures CodeFormat in Violations(input) <==>
      input.code.Some? && input.code.value != "" && !MatchesCodePattern(input.code.value)
    ensures NomRequired in Violations(input) <==> input.nom.None? || IsBlank(input.nom.value)
    ensures forall k :: 0 <= k < |input.sousCompetences| ==>
      (SubItemNomRequired(k) in Violations(input) <==>
         input.sousCompetences[k].nom.None? || IsBlank(input.sousCompetences[k].nom.value))
  {
    var cv, nv, sv := CodeViolations(input.code), NomViolations(input.nom), SubItemViolations(input.sousCompetences);
    assert Violations(input) == cv + nv + sv;
    SubItemViolationsReport(input.sousCompetences);
    PresentAfterTrim(input.nom);
    assert CodeRequired in cv <==> input.code.None? || input.code.value == "";
    assert CodeFormat in cv <==> input.code.Some? && input.code.value != "" && !MatchesCodePattern(input.code.value);
    assert CodeRequired !in nv && CodeFormat !in nv;
    assert NomRequired !in cv && (NomRequired in nv <==> input.nom.None? || IsBlank(input.nom.value));
    forall k | 0 <= k < |input.sousCompetences|
      ensures SubItemNomRequired(k) !in cv && SubItemNomRequired(k) !in nv
    {
    }
  }

  /** The cast document of a body, before validation. */
  function Cast(input: CompetenceInput, id: string): Competence {
    Competence(id, input.code.OrElse(""), CastTrimmed(input.nom).OrElse(""),
               seq(|input.sousCompetences|, k requires 0 <= k < |input.sousCompetences| => CastSubItem(input.sousCompetences[k])))
  }

  /** Casting an acceptable body yields a document that satisfies every schema constraint. */
  lemma CastIsValid(input: CompetenceInput, id: string)
    requires Acceptable(input)
    ensures ValidCompetence(Cast(input, id))
  {
    var c := Cast(input, id);
    PresentAfterTrim(input.nom);
    forall k | 0 <= k < |c.sousCompetences| ensures ValidSubItem(c.sousCompetences[k]) {
      PresentAfterTrim(input.sousCompetences[k].nom);
    }
  }

  /** Casting and validating a new document: `new Competence(body)` followed by `validate`. */
  function CreateDocument(input: CompetenceInput, id: string): (r: Result<Competence, SaveError>)
    ensures r.Ok? <==> Acceptable(input)
    ensures r.Ok? ==> ValidCompetence(r.value) && r.value.id == id && r.value.code == input.code.value
    ensures r.Ok? ==> r.value.nom == Trim(input.nom.value)
    ensures r.Ok? ==> |r.value.sousCompetences| == |input.sousCompetences|
    ensures r.Ok? ==> forall k :: 0 <= k < |input.sousCompetences| ==>
      && r.value.sousCompetences[k].nom == Trim(input.sousCompetences[k].nom.value)
      && (input.sousCompetences[k].validee.None? ==> !r.value.sousCompetences[k].validee)
      && (input.sousCompetences[k].validee.Some? ==> r.value.sousCompetences[k].validee == input.sousCompetences[k].validee.value)
    ensures r.Err? ==> r.error == ValidationError(Violations(input)) && r.error.violations != {}
  {
    ViolationsEmptyIffAcceptable(input);
    if Violations(input) != {} then Err(ValidationError(Violations(input)))
    else
      CastIsValid(input, id);
      Ok(Cast(input, id))
  }

  /** Some stored competence already has this code. */
  predicate CodeTaken(store: seq<Competence>, code: string) {
    exists k :: 0 <= k < |store| && store[k].code == code
  }

  /** Some stored competence already has this id. */
  predicate IdTaken(store: seq<Competence>, id: string) {
    exists k :: 0 <= k < |store| && store[k].id == id
  }

  /** Appending a competence whose code is unused keeps codes unique. */
  lemma AppendKeepsCodesUnique(store: seq<Competence>, doc: Competence)
    requires UniqueCodes(store) && !CodeTaken(store, doc.code)
    ensures UniqueCodes(store + [doc])
  {
    var next := store + [doc];
    forall i, j | 0 <= i < j < |next| ensures next[i].code != next[j].code {
      assert next[i] == store[i];
      if j < |store| { assert next[j] == store[j]; }
    }
  }

  /** Appending a competence whose id is unused keeps ids unique. */
  lemma AppendKeepsIdsUnique(store: seq<Competence>, doc: Competence)
    requires UniqueIds(store) && !IdTaken(store, doc.id)
    ensures UniqueIds(store + [doc])
  {
    var next := store + [doc];
    forall i, j | 0 <= i < j < |next| ensures next[i].id != next[j].id {
      assert next[i] == store[i];
      if j < |store| { assert next[j] == store[j]; }
    }
  }

  /** Appending a valid document with a fresh code and a fresh id keeps the collection invariant. */
  lemma AppendKeepsValid(store: seq<Competence>, doc: Competence)
    requires ValidStore(store) && ValidCompetence(doc)
    requires !CodeTaken(store, doc.code) && !IdTaken(store, doc.id)
    ensures ValidStore(store + [doc])
  {
    AppendKeepsCodesUnique(store, doc);
    AppendKeepsIdsUnique(store, doc);
    var next := store + [doc];
    forall k | 0 <= k < |next| ensures ValidCompetence(next[k]) {
      if k < |store| { assert next[k] == store[k]; }
    }
  }

  /** `save()` of a new document: validation first, then the unique indexes on `code` and `_id`. */
  function Save(store: seq<Competence>, input: CompetenceInput, id: string): (r: Result<seq<Competence>, SaveError>)
    ensures r.Ok? ==> |r.value| == |store| + 1 && r.value[..|store|] == store
    ensures r.Ok? ==> CreateDocument(input, id) == Ok(r.value[|store|])
    ensures r.Ok? <==> Acceptable(input) && !CodeTaken(store, input.code.value) && !IdTaken(store, id)
    ensures r.Err? && r.error.DuplicateCode? <==> Acceptable(input) && CodeTaken(store, input.code.value)
    ensures r.Err? && r.error.DuplicateId? <==>
      Acceptable(input) && !CodeTaken(store, input.code.value) && IdTaken(store, id)
    ensures !Acceptable(input) ==> r == Err(ValidationError(Violations(input)))
    ensures r.Err? && r.error.DuplicateCode? ==> r.error.code == input.code.value
    ensures r.Err? && r.error.DuplicateId? ==> r.error.id == id
  {
    var doc :- CreateDocument(input, id);
    if CodeTaken(store, doc.code) then Err(DuplicateCode(doc.code))
    else if IdTaken(store, id) then Err(DuplicateId(id))
    else
      var next := store + [doc];
      assert next[..|store|] == store;
      Ok(next)
  }

  /** A successful save keeps the collection invariant: valid documents, unique codes and ids. */
  lemma SaveKeepsValid(store: seq<Competence>, input: CompetenceInput, id: string)
    requires ValidStore(store)
    ensures Save(store, input, id).Ok? ==> ValidStore(Save(store, input, id).value)
  {
    var r := Save(store, input, id);
    if r.Ok? {
      var doc := r.value[|store|];
      assert r.value == store + [doc];
      AppendKeepsValid(store, doc);
    }
  }

  /** What `calculerStatut` returns: counts and status, no total and no percentage. */
  datatype StatutSummary = StatutSummary(validees: nat, nonValidees: nat, statut: string)

  /** The `calculerStatut` instance method: its own copy of the threshold rule. */
  function CalculerStatut(c: Competence): (r: StatutSummary)
    ensures r.validees + r.nonValidees == |c.sousCompetences|
    ensures r.statut == VALIDEE <==> 2 * r.validees >= |c.sousCompetences|
    ensures r.statut == VALIDEE || r.statut == NON_VALIDEE
  {
    StatusLabelsDiffer();
    var validees := |StatusCalculator.ValidatedOnly(c.sousCompetences)|;
    var nonValidees := |c.sousCompetences| - validees;
    StatutSummary(validees, nonValidees, if validees >= nonValidees then VALIDEE else NON_VALIDEE)
  }

  /** The instance method and the calculator utility agree on every competence. */
  lemma CalculerStatutAgrees(c: Competence)
    ensures var e := StatusCalculator.CalculerStatutCompetence(c.sousCompetences);
      CalculerStatut(c) == StatutSummary(e.validees, e.nonValidees, e.statut)
  {
  }

  /** Codes outside C1 to C8, lower-case codes and longer codes fail validation. */
  lemma RejectedCodes()
    ensures CodeViolations(Some("C9")) == {CodeFormat}
    ensures CodeViolations(Some("c1")) == {CodeFormat}
    ensures CodeViolations(Some("C10")) == {CodeFormat}
    ensures CodeViolations(Some("")) == {CodeRequired}
    ensures CodeViolations(Some("C8")) == {}
  {
  }

  /** Saving a document whose code is already stored fails and writes nothing. */
  lemma DuplicateCodeRejected(store: seq<Competence>, input: CompetenceInput, id: string, k: int)
    requires 0 <= k < |store| && input.code == Some(store[k].code)
    ensures Save(store, input, id).Err?
  {
    assert CodeTaken(store, input.code.value);
  }
}
