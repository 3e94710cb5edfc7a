/** The role editor dialog (`AddRoleModal`): a form with a name, a
    description and a list of selected permission ids, edited one checkbox
    or one whole category at a time. The dialog's open flag belongs to its
    parent; only the form state is modelled here. */
module RoleEditor {
  import opened Seqs
  import opened Results
  import opened Role
  import opened RoleStore

  /** The form the dialog opens with and returns to after submit or close. */
  const EmptyForm: RoleFormData := RoleFormData("", "", [])

  /** The ids of the offered permissions of category `c`, in offered order. */
  function CategoryIds(available: seq<Permission>, c: Category): seq<string> {
    IdsOf(InCategory(available, c))
  }

  /** Every id of `ids` is selected (`every`, so true for no ids). */
  predicate AllSelected(selected: seq<string>, ids: seq<string>) {
    forall i :: 0 <= i < |ids| ==> ids[i] in selected
  }

  /** What a selection may hold: offered ids, each once. */
  predicate WellFormedSelection(selected: seq<string>, available: seq<Permission>) {
    NoDup(selected) && forall id :: id in selected ==> id in IdsOf(available)
  }

  /** The checkbox of one permission: unselect it if selected, else append it. */
  function TogglePermission(form: RoleFormData, id: string): (r: RoleFormData)
    ensures r.name == form.name && r.description == form.description
    ensures id in r.permissions <==> id !in form.permissions
    ensures forall other :: other != id ==> (other in r.permissions <==> other in form.permissions)
    ensures id !in form.permissions ==> r.permissions == form.permissions + [id]
    ensures id in form.permissions ==>
      IsSubsequence(r.permissions, form.permissions) && multiset(r.permissions) == multiset(form.permissions)[id := 0]
    ensures NoDup(form.permissions) ==> NoDup(r.permissions)
  {
    form.(permissions := Toggle(form.permissions, id))
  }

  /** Clicking a checkbox twice selects the same ids as before; when the id
      was not selected it gives back the very same form (a selected id comes
      back at the end of the list instead). */
  lemma TogglePermissionTwice(form: RoleFormData, id: string)
    ensures Elems(TogglePermission(TogglePermission(form, id), id).permissions) == Elems(form.permissions)
    ensures id !in form.permissions ==> TogglePermission(TogglePermission(form, id), id) == form
  {
    ToggleTwiceElems(form.permissions, id);
    if id !in form.permissions {
      ToggleTwiceAbsent(form.permissions, id);
    }
  }

  /** "Select All" / "Deselect All" of one category: when every offered id of
      the category is selected, drop them all; otherwise add the missing ones
      behind the current selection without repeating any id. */
  function ToggleAllInCategory(form: RoleFormData, available: seq<Permission>, c: Category): (r: RoleFormData)
    ensures r.name == form.name && r.description == form.description
    ensures AllSelected(form.permissions, CategoryIds(available, c)) ==>
      forall id :: id in r.permissions <==> id in form.permissions && id !in CategoryIds(available, c)
    ensures !AllSelected(form.permissions, CategoryIds(available, c)) ==>
      forall id :: id in r.permissions <==> id in form.permissions || id in CategoryIds(available, c)
    ensures AllSelected(form.permissions, CategoryIds(available, c)) ==> IsSubsequence(r.permissions, form.permissions)
    ensures AllSelected(form.permissions, CategoryIds(available, c)) ==>
      r.permissions == RemoveAllOf(form.permissions, CategoryIds(available, c))
    ensures NoDup(form.permissions) ==> NoDup(r.permissions)
    ensures !AllSelected(form.permissions, CategoryIds(available, c)) ==> NoDup(r.permissions)
    ensures !AllSelected(form.permissions, CategoryIds(available, c)) && NoDup(form.permissions) ==>
      |r.permissions| >= |form.permissions| && r.permissions[..|form.permissions|] == form.permissions
    ensures !AllSelected(form.permissions, CategoryIds(available, c)) && NoDup(form.permissions) ==>
      r.permissions == form.permissions + Dedup(RemoveAllOf(CategoryIds(available, c), form.permissions))
    ensures !AllSelected(form.permissions, CategoryIds(available, c)) && NoDup(form.permissions)
            && NoDup(CategoryIds(available, c)) ==>
      r.permissions == form.permissions + RemoveAllOf(CategoryIds(available, c), form.permissions)
  {
    var ids := CategoryIds(available, c);
    if AllSelected(form.permissions, ids) then
      form.(permissions := RemoveAllOf(form.permissions, ids))
    else
      DedupKeepsPrefix(form.permissions, ids);
      DedupAppend(form.permissions, ids);
      form.(permissions := Dedup(form.permissions + ids))
  }

  /** How many of the category's offered ids are selected: the `(n/m)` label. */
  function SelectedCount(selected: seq<string>, ids: seq<string>): (n: nat)
    ensures n == |set i | 0 <= i < |ids| && ids[i] in selected|
    ensures n <= |ids|
    ensures n == |ids| <==> AllSelected(selected, ids)
    ensures n == 0 <==> forall i :: 0 <= i < |ids| ==> ids[i] !in selected
  {
    var marks := seq(|ids|, i requires 0 <= i < |ids| => ids[i] in selected);
    assert forall i :: 0 <= i < |ids| ==> (marks[i] <==> ids[i] in selected);
    CountTrueIndices(marks);
    assert (set i | 0 <= i < |marks| && marks[i]) == (set i | 0 <= i < |ids| && ids[i] in selected);
    CountTrue(marks)
  }

  /** Submitting is possible only with a name, a description (both `required`)
      and at least one permission (the disabled submit button). */
  predicate CanSubmit(form: RoleFormData) {
    |form.name| > 0 && |form.description| > 0 && |form.permissions| > 0
  }

  /** What a submit does: the form goes to the store unchanged and the dialog
      goes back to the empty form. */
  datatype Submission = Submission(sent: RoleFormData, next: RoleFormData)

  function Submit(form: RoleFormData): (r: Option<Submission>)
    ensures r.Some? <==> CanSubmit(form)
    ensures r.Some? ==> r.value.sent == form && r.value.next == EmptyForm
  {
    if CanSubmit(form) then Some(Submission(form, EmptyForm)) else None
  }

  /** `handleClose`: drop whatever was typed or selected. */
  function Close(form: RoleFormData): (r: RoleFormData)
    ensures Submit(r).None?
    ensures r.name == "" && r.description == "" && r.permissions == []
  {
    EmptyForm
  }

  /** The offered ids of a category are offered ids. */
  lemma CategoryIdsOffered(available: seq<Permission>, c: Category)
    ensures forall id :: id in CategoryIds(available, c) ==> id in IdsOf(available)
  {
    InCategoryMembership(available, c);
    forall id | id in CategoryIds(available, c)
      ensures id in IdsOf(available)
    {
      var ps := InCategory(available, c);
      var i :| 0 <= i < |ps| && IdsOf(ps)[i] == id;
      assert ps[i] in available;
      var j :| 0 <= j < |available| && available[j] == ps[i];
      assert IdsOf(available)[j] == id;
    }
  }

  /** On a category with at least one offered permission the button flips:
      afterwards the category is entirely selected exactly when it was not. */
  lemma ToggleAllFlips(form: RoleFormData, available: seq<Permission>, c: Category)
    requires |CategoryIds(available, c)| > 0
    ensures AllSelected(ToggleAllInCategory(form, available, c).permissions, CategoryIds(available, c))
        <==> !AllSelected(form.permissions, CategoryIds(available, c))
  {
    var ids := CategoryIds(available, c);
    assert ids[0] in ids;
  }

  /** Pressing the category button twice: an entirely selected or entirely
      unselected category comes back to the same set of ids; a partly selected
      one ends with none of its ids selected. */
  lemma ToggleAllTwice(form: RoleFormData, available: seq<Permission>, c: Category)
    requires |CategoryIds(available, c)| > 0
    ensures var ids := CategoryIds(available, c);
      var twice := ToggleAllInCategory(ToggleAllInCategory(form, available, c), available, c);
      if AllSelected(form.permissions, ids) || SelectedCount(form.permissions, ids) == 0
      then Elems(twice.permissions) == Elems(form.permissions)
      else Elems(twice.permissions) == Elems(form.permissions) - Elems(ids)
  {
    var ids := CategoryIds(available, c);
    var once := ToggleAllInCategory(form, available, c);
    ToggleAllFlips(form, available, c);
    ToggleAllFlips(once, available, c);
    var twice := ToggleAllInCategory(once, available, c);
    if AllSelected(form.permissions, ids) {
      assert !AllSelected(once.permissions, ids);
      ElemsOfMembership(twice.permissions, form.permissions, ids, false);
    } else if SelectedCount(form.permissions, ids) == 0 {
      forall id | id in ids
        ensures id !in form.permissions
      {
        var i :| 0 <= i < |ids| && ids[i] == id;
      }
      assert AllSelected(once.permissions, ids);
      ElemsOfMembership(twice.permissions, form.permissions, ids, false);
    } else {
      assert AllSelected(once.permissions, ids);
      ElemsOfMembership(twice.permissions, form.permissions, ids, true);
    }
  }

  /** Membership facts about a result, restated as its set of elements:
      either the elements of `s`, or those of `s` outside `ids`. */
  lemma ElemsOfMembership(r: seq<string>, s: seq<string>, ids: seq<string>, drop: bool)
    requires forall id :: id in r <==> id in s && (drop ==> id !in ids)
    ensures drop ==> Elems(r) == Elems(s) - Elems(ids)
    ensures !drop ==> Elems(r) == Elems(s)
  {
  }

  /** Both kinds of click keep a well-formed selection well formed, so the
      ids a form submits are distinct offered ids. */
  lemma ClicksPreserveSelection(form: RoleFormData, available: seq<Permission>, id: string, c: Category)
    requires WellFormedSelection(form.permissions, available)
    ensures id in IdsOf(available) ==> WellFormedSelection(TogglePermission(form, id).permissions, available)
    ensures WellFormedSelection(ToggleAllInCategory(form, available, c).permissions, available)
  {
    CategoryIdsOffered(available, c);
  }

  /** A submitted selection of distinct catalog ids becomes a role with
      exactly as many permissions as the "n selected" badge showed. */
  lemma SubmittedRoleHasSelectedCount(roles: seq<Role>, form: RoleFormData, freshId: string, today: string)
    requires WellFormedSelection(form.permissions, Catalog)
    requires CanSubmit(form)
    requires !IdInUse(roles, freshId)
    ensures var added := AddRole(roles, Submit(form).value.sent, freshId, today);
      |added[|roles|].permissions| == |form.permissions|
  {
    var ids := form.permissions;
    var r := Resolve(ids);
    ResolveSpec(ids);
    assert NoDup(IdsOf(r));
    NoDupCardinality(IdsOf(r));
    NoDupCardinality(ids);
    assert Elems(IdsOf(r)) == Elems(ids);
  }
}
