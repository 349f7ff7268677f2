/**
 * The categories screen of the admin dashboard: the list of categories, the edit form's
 * state, and the list edits after delete, update and create.
 */
module CategoryList {
  import opened Wrappers
  import Seqs

  /** A category as the API returns it. */
  datatype Category = Category(id: nat, name: string, slug: string, description: Option<string>)

  /** The form's initial values. */
  datatype FormValues = FormValues(name: string, description: string)

  /** The slug being edited (none when adding) and the form's initial values. */
  datatype EditState = EditState(editing: Option<string>, values: FormValues)

  /** `handleEdit`: edit this category; a missing description shows as empty. */
  function HandleEdit(c: Category): (s: EditState)
    ensures s.editing == Some(c.slug) && s.values.name == c.name
    ensures c.description.None? ==> s.values.description == ""
    ensures c.description.Some? ==> s.values.description == c.description.value
  {
    EditState(Some(c.slug), FormValues(c.name, c.description.GetOr("")))
  }

  /** `handleCancel`: back to adding, with empty values; the next submit creates. */
  function HandleCancel(): (s: EditState)
    ensures !IsUpdate(s)
    ensures s.values == FormValues("", "")
  {
    EditState(None, FormValues("", ""))
  }

  /** The submit updates when an edit slug is set (a non-empty string is truthy) and creates otherwise. */
  predicate IsUpdate(s: EditState)
  {
    s.editing.Some? && s.editing.value != ""
  }

  /** `handleDelete`: once confirmed and deleted, the categories with that slug leave the list; the rest keep their order. */
  function AfterDelete(cs: seq<Category>, slug: string, confirmed: bool, succeeded: bool): (r: seq<Category>)
    ensures !confirmed || !succeeded ==> r == cs
    ensures confirmed && succeeded ==>
      && (forall i :: 0 <= i < |r| ==> r[i].slug != slug)
      && (forall c :: multiset(r)[c] == if c.slug != slug then multiset(cs)[c] else 0)
      && Seqs.IsSubsequence(r, cs)
  {
    if confirmed && succeeded then
      var keep := (c: Category) => c.slug != slug;
      var kept := Seqs.Filter(cs, keep);
      Seqs.FilterIsSubsequence(cs, keep);
      Seqs.FilterMultiset(cs, keep);
      kept
    else cs
  }

  /** The update path: the entries whose slug is the edited one are replaced by the saved category. */
  function AfterUpdate(cs: seq<Category>, editing: string, saved: Category): (r: seq<Category>)
    ensures |r| == |cs|
    ensures forall i :: 0 <= i < |cs| && cs[i].slug == editing ==> r[i] == saved
    ensures forall i :: 0 <= i < |cs| && cs[i].slug != editing ==> r[i] == cs[i]
  {
    Seqs.Map(cs, (c: Category) => if c.slug == editing then saved else c)
  }

  /** The create path: the saved category goes at the end. */
  function AfterCreate(cs: seq<Category>, saved: Category): (r: seq<Category>)
    ensures |r| == |cs| + 1 && r[..|cs|] == cs && r[|cs|] == saved
  {
    cs + [saved]
  }

  /**
   * `handleSubmitForm`: the list and edit state after the API answered with `saved`, or
   * failed (`None`). A successful update also leaves edit mode; a failure changes nothing.
   */
  function Submit(cs: seq<Category>, s: EditState, saved: Option<Category>): (r: (seq<Category>, EditState))
    ensures saved.None? ==> r == (cs, s)
    ensures saved.Some? && IsUpdate(s) ==> r == (AfterUpdate(cs, s.editing.value, saved.value), HandleCancel())
    ensures saved.Some? && !IsUpdate(s) ==> r == (AfterCreate(cs, saved.value), s)
  {
    match saved
    case None => (cs, s)
    case Some(c) =>
      if IsUpdate(s) then (AfterUpdate(cs, s.editing.value, c), HandleCancel())
      else (AfterCreate(cs, c), s)
  }

  /** Deleting the slug of a just-created category removes it along with any earlier entries of that slug. */
  lemma DeleteUndoesCreate(cs: seq<Category>, saved: Category)
    ensures AfterDelete(AfterCreate(cs, saved), saved.slug, true, true) == AfterDelete(cs, saved.slug, true, true)
  {
    var keep := (c: Category) => c.slug != saved.slug;
    Seqs.FilterAppend(cs, [saved], keep);
    assert Seqs.Filter([saved], keep) == [];
  }

  /** Editing from the list and then submitting successfully always takes the update path for a non-empty slug. */
  lemma EditThenSubmitUpdates(cs: seq<Category>, c: Category, saved: Category)
    requires c.slug != ""
    ensures Submit(cs, HandleEdit(c), Some(saved)).0 == AfterUpdate(cs, c.slug, saved)
    ensures Submit(cs, HandleEdit(c), Some(saved)).1 == HandleCancel()
  {
  }
}
