/** The screen that manages the responsible adults
    (src/components/ParentsManagement.tsx): the add/edit form, the guarded
    delete, and the role label and colour tables. */
module ParentsManagement {
  import opened Seqs
  import opened Types
  import App

  /** What the form asks of the application: `onAddParent` or `onUpdateParent`. */
  datatype ParentAction = AddParent(data: ParentData) | UpdateParent(id: string, data: ParentData)

  /** The application state after it handles `action`; `newId` stands for
      the id an add would generate. */
  function ApplyParentAction(parents: seq<Parent>, action: ParentAction, newId: string): seq<Parent>
  {
    match action
    case AddParent(data) => App.Append(parents, App.ParentWithId(data, newId))
    case UpdateParent(id, data) => App.ReplaceById(parents, App.ParentId, id, App.ParentWithId(data, id))
  }

  /** What the browser checks before it lets the form submit: the
      `required` name is non-empty. */
  predicate Submittable(d: ParentData)
  {
    d.name != ""
  }

  /** Every parent has a non-empty name. */
  predicate NamesGiven(parents: seq<Parent>)
  {
    forall i :: 0 <= i < |parents| ==> parents[i].name != ""
  }

  /** A list whose parents all have names keeps that through any add or
      update the form can submit. */
  lemma ApplyKeepsNames(parents: seq<Parent>, action: ParentAction, newId: string)
    requires NamesGiven(parents)
    requires Submittable(action.data)
    ensures NamesGiven(ApplyParentAction(parents, action, newId))
  {
    var r := ApplyParentAction(parents, action, newId);
    forall i | 0 <= i < |r|
      ensures r[i].name != ""
    {
      if action.AddParent? && i == |parents| {
        assert r[i] == App.ParentWithId(action.data, newId);
      } else if action.AddParent? {
        assert r[i] == r[..|parents|][i] == parents[i];
      }
    }
  }

  /** The form contents `handleEdit` loads for `parent`. */
  function FormDataOf(parent: Parent): (d: ParentData)
    ensures App.ParentWithId(d, parent.id) == parent
  {
    ParentData(parent.name, parent.role)
  }

  /** Opening a parent for editing and saving it unchanged leaves the list
      as it was, as long as no other record shares its id. */
  lemma EditRoundTrip(parents: seq<Parent>, parent: Parent, newId: string)
    requires forall i :: 0 <= i < |parents| && parents[i].id == parent.id ==> parents[i] == parent
    ensures ApplyParentAction(parents, UpdateParent(parent.id, FormDataOf(parent)), newId) == parents
  {
    var r := ApplyParentAction(parents, UpdateParent(parent.id, FormDataOf(parent)), newId);
    assert forall i :: 0 <= i < |parents| ==> r[i] == parents[i];
  }

  /** `handleDelete`: the id handed to `onDeleteParent`, if any. Nothing is
      deleted while at most one parent is registered, nor without
      confirmation (`confirmed` is the answer to `confirm`). */
  function HandleDelete(parents: seq<Parent>, parentId: string, confirmed: bool): (request: Option<string>)
    ensures request.Some? <==> |parents| >= 2 && confirmed
    ensures request.Some? ==> request.value == parentId
  {
    if |parents| <= 1 then None
    else if confirmed then Some(parentId)
    else None
  }

  /** With unique ids the guarded delete never empties the list. */
  lemma GuardedDeleteKeepsAParent(parents: seq<Parent>, parentId: string, confirmed: bool)
    requires App.UniqueIds(parents, App.ParentId)
    requires HandleDelete(parents, parentId, confirmed).Some?
    ensures |App.RemoveById(parents, App.ParentId, parentId)| >= 1
  {
    App.RemoveUnique(parents, App.ParentId, parentId);
  }

  /** The guard counts records, not ids: two records under one id pass it,
      and the delete then removes both. */
  lemma GuardNeedsUniqueIds()
    ensures var p := Parent("1", "Papai", Pai);
            HandleDelete([p, p], "1", true) == Some("1")
            && App.RemoveById([p, p], App.ParentId, "1") == []
  {
    var p := Parent("1", "Papai", Pai);
    assert App.RemoveById([p], App.ParentId, "1") == App.RemoveById([], App.ParentId, "1");
    assert [p, p][1..] == [p];
  }

  /** `getRoleLabel`. */
  function GetRoleLabel(role: Role): string
  {
    match role
    case Pai => "\U{1F468} Pai"
    case Mae => "\U{1F469} Mãe"
    case Avo => "\U{1F474} Avô"
    case AvoAcute => "\U{1F475} Avó"
    case Tio => "\U{1F468}\U{200D}\U{1F9B1} Tio"
    case Tia => "\U{1F469}\U{200D}\U{1F9B1} Tia"
    case Professor => "\U{1F468}\U{200D}\U{1F3EB} Professor"
  }

  /** Every role has its own label. */
  lemma RoleLabelsDistinct(r1: Role, r2: Role)
    ensures GetRoleLabel(r1) == GetRoleLabel(r2) <==> r1 == r2
  {
  }

  /** `getRoleColor`. */
  function GetRoleColor(role: Role): string
  {
    match role
    case Pai => "bg-blue-500"
    case Mae => "bg-pink-500"
    case Avo => "bg-gray-500"
    case AvoAcute => "bg-gray-500"
    case Tio => "bg-green-500"
    case Tia => "bg-purple-500"
    case Professor => "bg-orange-500"
  }

  /** Grandfather and grandmother share grey; every other role has a colour
      of its own. */
  lemma RoleColorsShared(r1: Role, r2: Role)
    ensures GetRoleColor(r1) == GetRoleColor(r2) <==>
              r1 == r2 || ((r1 == Avo || r1 == AvoAcute) && (r2 == Avo || r2 == AvoAcute))
  {
  }

  /** The form state of the screen. */
  class ParentsForm {
    var isDialogOpen: bool
    var editingParent: Option<Parent>
    var formData: ParentData

    constructor ()
      ensures !isDialogOpen && editingParent.None? && formData == ParentData("", Pai)
    {
      isDialogOpen := false;
      editingParent := None;
      formData := ParentData("", Pai);
    }

    /** `resetForm` (also run by the "new" button): an empty name, the role
        'pai', and nothing being edited; the dialog is left as it is. */
    method ResetForm()
      modifies this
      ensures formData == ParentData("", Pai) && editingParent.None?
      ensures isDialogOpen == old(isDialogOpen)
    {
      formData := ParentData("", Pai);
      editingParent := None;
    }

    /** `onOpenChange`, and the cancel button with `open` false. */
    method SetDialogOpen(open: bool)
      modifies this
      ensures isDialogOpen == open
      ensures editingParent == old(editingParent) && formData == old(formData)
    {
      isDialogOpen := open;
    }

    /** An input's `setFormData({ ...formData, field: value })`. */
    method ChangeFormData(data: ParentData)
      modifies this
      ensures formData == data
      ensures isDialogOpen == old(isDialogOpen) && editingParent == old(editingParent)
    {
      formData := data;
    }

    /** Submitting the form. The browser refuses a form that is not
        `Submittable`, and then nothing happens. Otherwise `handleSubmit`
        runs: an update of the parent being edited, under its id, or else an
        add; then the form is reset and the dialog closed. */
    method HandleSubmit() returns (action: Option<ParentAction>)
      modifies this
      ensures action.Some? <==> Submittable(old(formData))
      ensures action.None? ==>
                formData == old(formData) && editingParent == old(editingParent) && isDialogOpen == old(isDialogOpen)
      ensures action.Some? && old(editingParent).Some? ==>
                action.value == UpdateParent(old(editingParent).value.id, old(formData))
      ensures action.Some? && old(editingParent).None? ==> action.value == AddParent(old(formData))
      ensures action.Some? ==> formData == ParentData("", Pai) && editingParent.None? && !isDialogOpen
    {
      if !Submittable(formData) {
        return None;
      }
      if editingParent.Some? {
        action := Some(UpdateParent(editingParent.value.id, formData));
      } else {
        action := Some(AddParent(formData));
      }
      ResetForm();
      isDialogOpen := false;
    }

    /** `handleEdit`: loads the parent's name and role and opens the dialog. */
    method HandleEdit(parent: Parent)
      modifies this
      ensures editingParent == Some(parent) && formData == FormDataOf(parent) && isDialogOpen
    {
      editingParent := Some(parent);
      formData := ParentData(parent.name, parent.role);
      isDialogOpen := true;
    }
  }
}
