/** The creation form: its validator, the three edits of the sub-item list, reset and submit.
    Together the edits keep the list non-empty. */
module CompetenceForm {
  import opened Wrappers
  import opened Text
  import opened Domain
  import CompetenceModel

  /** The form's fields, as `formData` holds them. */
  datatype FormData = FormData(code: string, nom: string, sousCompetences: seq<SubItem>)

  /** The two messages the code field can show. */
  datatype CodeError = CodeRequired | CodeFormat

  /** The `errors` object: one optional code error, a name error, an empty-list error,
      and the positions of the sub-items whose name is blank. */
  datatype FormErrors = FormErrors(code: Option<CodeError>, nomRequired: bool, listEmpty: bool, blankItems: set<int>)
  {
    /** `Object.keys(errors).length === 0`. */
    predicate IsEmpty() {
      code.None? && !nomRequired && !listEmpty && blankItems == {}
    }
  }

  /** The form component's state. */
  datatype FormState = FormState(data: FormData, errors: FormErrors)

  /** What a submit produces: the next form state, and the data handed to `onSubmit` if any. */
  datatype SubmitResult = SubmitResult(state: FormState, submitted: Option<FormData>)

  const NoErrors := FormErrors(None, false, false, {})

  /** A fresh, unnamed sub-item. */
  const BlankSubItem := SubItem("", false)

  /** The initial (and reset) form: empty code and name, one blank sub-item, no errors. */
  const InitialForm := FormState(FormData("", "", [BlankSubItem]), NoErrors)

  /** What the form accepts, stated field by field: a code C1 to C8, a non-blank name,
      at least one sub-item, and a non-blank name on every sub-item. */
  predicate Acceptable(f: FormData) {
    && MatchesCodePattern(f.code)
    && !IsBlank(f.nom)
    && |f.sousCompetences| > 0
    && forall k :: 0 <= k < |f.sousCompetences| ==> !IsBlank(f.sousCompetences[k].nom)
  }

  /** The code check: blank first, then the pattern on the untrimmed code. */
  function CodeErrorOf(code: string): (r: Option<CodeError>)
    ensures r.None? <==> MatchesCodePattern(code)
    ensures IsBlank(code) ==> r == Some(CodeRequired)
    ensures !IsBlank(code) && !MatchesCodePattern(code) ==> r == Some(CodeFormat)
  {
    if TrimIsEmpty(code) then Some(CodeRequired)
    else if !MatchesCodePattern(code) then Some(CodeFormat)
    else None
  }

  /** The positions of the sub-items whose name is blank. */
  function BlankPositions(s: seq<SubItem>): (r: set<int>)
    ensures forall k :: k in r <==> 0 <= k < |s| && IsBlank(s[k].nom)
  {
    set k | 0 <= k < |s| && TrimIsEmpty(s[k].nom)
  }

  /** `validateForm`: the errors object it builds. */
  function ValidateForm(f: FormData): (errs: FormErrors)
    ensures errs.IsEmpty() <==> Acceptable(f)
    ensures errs.code == CodeErrorOf(f.code)
    ensures errs.nomRequired <==> IsBlank(f.nom)
    ensures errs.listEmpty <==> f.sousCompetences == []
    ensures forall k :: k in errs.blankItems <==> 0 <= k < |f.sousCompetences| && IsBlank(f.sousCompetences[k].nom)
  {
    var s := f.sousCompetences;
    var blank := BlankPositions(s);
    assert blank == {} <==> forall k :: 0 <= k < |s| ==> !IsBlank(s[k].nom) by {
      if blank != {} {
        var k :| k in blank;
      }
    }
    FormErrors(CodeErrorOf(f.code), TrimIsEmpty(f.nom), |s| == 0, blank)
  }

  /** The initial form fails validation: the code is reported as required, and the name
      and the one sub-item as blank. */
  lemma InitialFormInvalid()
    ensures var errs := ValidateForm(InitialForm.data);
      errs.code == Some(CodeRequired) && errs.nomRequired && 0 in errs.blankItems
  {
    var f := InitialForm.data;
    assert IsBlank(f.code);
    assert IsBlank(f.sousCompetences[0].nom);
  }

  /** `resetForm`: empty code and name, one blank sub-item, no errors. */
  function ResetForm(st: FormState): (r: FormState)
    ensures r.data.code == "" && r.data.nom == ""
    ensures r.data.sousCompetences == [SubItem("", false)]
    ensures r.errors.IsEmpty()
  {
    InitialForm
  }

  /** `addSousCompetence`: one blank sub-item at the end, everything else unchanged. */
  function AddSousCompetence(st: FormState): (r: FormState)
    ensures |r.data.sousCompetences| == |st.data.sousCompetences| + 1
    ensures r.data.sousCompetences[..|st.data.sousCompetences|] == st.data.sousCompetences
    ensures r.data.sousCompetences[|st.data.sousCompetences|] == SubItem("", false)
    ensures r.data.code == st.data.code && r.data.nom == st.data.nom && r.errors == st.errors
  {
    var s := st.data.sousCompetences + [BlankSubItem];
    assert s[..|st.data.sousCompetences|] == st.data.sousCompetences;
    st.(data := st.data.(sousCompetences := s))
  }

  /** `filter((_, i) => i !== index)`: the list without position `index`. */
  function WithoutIndex(s: seq<SubItem>, index: int): (r: seq<SubItem>)
    ensures 0 <= index < |s| ==> r == s[..index] + s[index + 1..]
    ensures !(0 <= index < |s|) ==> r == s
  {
    if |s| == 0 then []
    else (if index == 0 then [] else [s[0]]) + WithoutIndex(s[1..], index - 1)
  }

  /** `removeSousCompetence`: a no-op on a one-element list; otherwise exactly position
      `index` goes and the rest keep their order. */
  function RemoveSousCompetence(st: FormState, index: int): (r: FormState)
    ensures |st.data.sousCompetences| <= 1 ==> r == st
    ensures |st.data.sousCompetences| > 1 && 0 <= index < |st.data.sousCompetences| ==>
      r.data.sousCompetences == st.data.sousCompetences[..index] + st.data.sousCompetences[index + 1..]
    ensures !(0 <= index < |st.data.sousCompetences|) ==> r == st
    ensures r.data.code == st.data.code && r.data.nom == st.data.nom && r.errors == st.errors
    ensures |st.data.sousCompetences| >= 1 ==> |r.data.sousCompetences| >= 1
  {
    if |st.data.sousCompetences| > 1 then
      st.(data := st.data.(sousCompetences := WithoutIndex(st.data.sousCompetences, index)))
    else st
  }

  /** `updateSousCompetence`: only the name at `index` changes; the length and every
      `validee` flag are kept. */
  function UpdateSousCompetence(st: FormState, index: int, value: string): (r: FormState)
    ensures |r.data.sousCompetences| == |st.data.sousCompetences|
    ensures forall k :: 0 <= k < |st.data.sousCompetences| ==>
      r.data.sousCompetences[k].validee == st.data.sousCompetences[k].validee
    ensures forall k :: 0 <= k < |st.data.sousCompetences| && k != index ==>
      r.data.sousCompetences[k] == st.data.sousCompetences[k]
    ensures 0 <= index < |st.data.sousCompetences| ==> r.data.sousCompetences[index].nom == value
    ensures r.data.code == st.data.code && r.data.nom == st.data.nom && r.errors == st.errors
  {
    var s := st.data.sousCompetences;
    var s' := seq(|s|, k requires 0 <= k < |s| => if k == index then s[k].(nom := value) else s[k]);
    st.(data := st.data.(sousCompetences := s'))
  }

  /** `handleSubmit`: `onSubmit` receives the data only when validation passes, and the
      form is then reset; otherwise the data stays and the errors are shown. */
  function HandleSubmit(st: FormState): (r: SubmitResult)
    ensures r.submitted.Some? <==> Acceptable(st.data)
    ensures r.submitted.Some? ==> r.submitted.value == st.data && r.state == InitialForm
    ensures r.submitted.None? ==> r.state.data == st.data && !r.state.errors.IsEmpty()
    ensures r.submitted.None? ==> r.state.errors == ValidateForm(st.data)
  {
    var errs := ValidateForm(st.data);
    if errs.IsEmpty() then SubmitResult(ResetForm(st.(errors := errs)), Some(st.data))
    else SubmitResult(st.(errors := errs), None)
  }

  /** The form's list invariant. */
  predicate NonEmptyList(st: FormState) {
    |st.data.sousCompetences| >= 1
  }

  /** Every form edit, reset and submit keeps the sub-item list non-empty. */
  lemma EditsKeepListNonEmpty(st: FormState, index: int, value: string)
    requires NonEmptyList(st)
    ensures NonEmptyList(InitialForm)
    ensures NonEmptyList(AddSousCompetence(st))
    ensures NonEmptyList(RemoveSousCompetence(st, index))
    ensures NonEmptyList(UpdateSousCompetence(st, index, value))
    ensures NonEmptyList(HandleSubmit(st).state)
  {
  }

  /** The request body built from the form's data. */
  function RequestBody(f: FormData): (b: CompetenceModel.CompetenceInput)
    ensures b.code == Some(f.code) && b.nom == Some(f.nom)
    ensures |b.sousCompetences| == |f.sousCompetences|
    ensures forall k :: 0 <= k < |f.sousCompetences| ==>
      b.sousCompetences[k] == CompetenceModel.SubItemInput(Some(f.sousCompetences[k].nom), Some(f.sousCompetences[k].validee))
  {
    CompetenceModel.CompetenceInput(Some(f.code), Some(f.nom),
      seq(|f.sousCompetences|, k requires 0 <= k < |f.sousCompetences| =>
        CompetenceModel.SubItemInput(Some(f.sousCompetences[k].nom), Some(f.sousCompetences[k].validee))))
  }

  /** The form is stricter than the schema: whatever it submits passes the server's
      validators, and it only adds the rule that the list be non-empty. */
  lemma FormStricterThanSchema(f: FormData)
    ensures Acceptable(f) <==> CompetenceModel.Acceptable(RequestBody(f)) && |f.sousCompetences| > 0
  {
  }
}
