/** The stored entities: a competence and its ordered sub-items, and the two status
    labels every copy of the evaluation rule produces. */
module Domain {

  /** A sub-item (`sousCompetence`): a named checkpoint that is validated or not. */
  datatype SubItem = SubItem(nom: string, validee: bool)

  /** A stored competence: a document id, a short code, a name and its sub-items in order. */
  datatype Competence = Competence(id: string, code: string, nom: string, sousCompetences: seq<SubItem>)

  /** The status of a competence whose validated sub-items are at least as many as the others. */
  const VALIDEE: string := "validée"

  /** The status of every other competence. */
  const NON_VALIDEE: string := "non validée"

  lemma StatusLabelsDiffer()
    ensures VALIDEE != NON_VALIDEE
  {
    assert VALIDEE[0] != NON_VALIDEE[0];
  }
}
