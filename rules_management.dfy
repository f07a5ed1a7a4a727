/** The screen that manages the rule catalogue
    (src/components/RulesManagement.tsx): the add/edit form, the delete
    confirmation and the category labels. The weight badge uses
    `InfractionsManagement.GetWeightColor`, of which this screen holds an
    identical copy. */
module RulesManagement {
  import opened Seqs
  import opened Types
  import App

  /** What the form asks of the application: `onAddRule` or `onUpdateRule`. */
  datatype RuleAction = AddRule(data: RuleData) | UpdateRule(id: string, data: RuleData)

  /** The form contents of `resetForm`. */
  const EmptyForm: RuleData := RuleData("", "", 1, "", Comportamento)

  /** The application state after it handles `action`; `newId` stands for
      the id an add would generate. */
  function ApplyRuleAction(rules: seq<Rule>, action: RuleAction, newId: string): seq<Rule>
  {
    match action
    case AddRule(data) => App.Append(rules, App.RuleWithId(data, newId))
    case UpdateRule(id, data) => App.ReplaceById(rules, App.RuleId, id, App.RuleWithId(data, id))
  }

  /** What the browser checks before it lets the form submit: the
      `required` name, description and image URL are non-empty, and the
      `required` number input for the weight lies in its `min`..`max`, 1..10. */
  predicate Submittable(d: RuleData)
  {
    d.name != "" && d.description != "" && d.imageUrl != "" && 1 <= d.weight <= 10
  }

  /** Every weight in the catalogue lies in 1..10, as the weight input allows. */
  predicate WeightsInRange(rules: seq<Rule>)
  {
    forall i :: 0 <= i < |rules| ==> 1 <= rules[i].weight <= 10
  }

  /** A catalogue whose weights lie in 1..10 keeps them there through any add
      or update the form can submit. */
  lemma ApplyKeepsWeightRange(rules: seq<Rule>, action: RuleAction, newId: string)
    requires WeightsInRange(rules)
    requires Submittable(action.data)
    ensures WeightsInRange(ApplyRuleAction(rules, action, newId))
  {
    var r := ApplyRuleAction(rules, action, newId);
    forall i | 0 <= i < |r|
      ensures 1 <= r[i].weight <= 10
    {
      if action.AddRule? && i == |rules| {
        assert r[i] == App.RuleWithId(action.data, newId);
      } else if action.AddRule? {
        assert r[i] == r[..|rules|][i] == rules[i];
      }
    }
  }

  /** The form contents `handleEdit` loads for `rule`: all five fields. */
  function FormDataOf(rule: Rule): (d: RuleData)
    ensures App.RuleWithId(d, rule.id) == rule
  {
    RuleData(rule.name, rule.description, rule.weight, rule.imageUrl, rule.category)
  }

  /** Opening a rule for editing and saving it unchanged leaves the
      catalogue as it was, as long as no other rule shares its id. */
  lemma EditRoundTrip(rules: seq<Rule>, rule: Rule, newId: string)
    requires forall i :: 0 <= i < |rules| && rules[i].id == rule.id ==> rules[i] == rule
    ensures ApplyRuleAction(rules, UpdateRule(rule.id, FormDataOf(rule)), newId) == rules
  {
    var r := ApplyRuleAction(rules, UpdateRule(rule.id, FormDataOf(rule)), newId);
    assert forall i :: 0 <= i < |rules| ==> r[i] == rules[i];
  }

  /** `handleDelete`: the id handed to `onDeleteRule` once confirmed; unlike
      the parents screen there is no minimum count. */
  function HandleDelete(ruleId: string, confirmed: bool): (request: Option<string>)
    ensures request.Some? <==> confirmed
    ensures request.Some? ==> request.value == ruleId
  {
    if confirmed then Some(ruleId) else None
  }

  /** So the last rule can be deleted, leaving an empty catalogue. */
  lemma LastRuleDeletable(rule: Rule)
    ensures HandleDelete(rule.id, true) == Some(rule.id)
    ensures App.RemoveById([rule], App.RuleId, rule.id) == []
  {
    assert [rule][1..] == [];
  }

  /** `getCategoryLabel`. */
  function GetCategoryLabel(category: Category): string
  {
    match category
    case Higiene => "\U{1F9FC} Higiene"
    case Comportamento => "\U{1F60A} Comportamento"
    case Responsabilidade => "\U{1F4CB} Responsabilidade"
    case Seguranca => "\U{1F6E1}\U{FE0F} Segurança"
    case Alimentacao => "\U{1F34E} Alimentação"
  }

  /** Every category has its own label. */
  lemma CategoryLabelsDistinct(c1: Category, c2: Category)
    ensures GetCategoryLabel(c1) == GetCategoryLabel(c2) <==> c1 == c2
  {
  }

  /** The form state of the screen. */
  class RulesForm {
    var isDialogOpen: bool
    var editingRule: Option<Rule>
    var formData: RuleData

    constructor ()
      ensures !isDialogOpen && editingRule.None? && formData == EmptyForm
    {
      isDialogOpen := false;
      editingRule := None;
      formData := EmptyForm;
    }

    /** `resetForm` (also run by the "new" button): empty texts, weight 1,
        category 'comportamento', nothing being edited; the dialog is left
        as it is. */
    method ResetForm()
      modifies this
      ensures formData == EmptyForm && editingRule.None?
      ensures isDialogOpen == old(isDialogOpen)
    {
      formData := RuleData("", "", 1, "", Comportamento);
      editingRule := None;
    }

    /** `onOpenChange`, and the cancel button with `open` false. */
    method SetDialogOpen(open: bool)
      modifies this
      ensures isDialogOpen == open
      ensures editingRule == old(editingRule) && formData == old(formData)
    {
      isDialogOpen := open;
    }

    /** An input's `setFormData({ ...formData, field: value })`. */
    method ChangeFormData(data: RuleData)
      modifies this
      ensures formData == data
      ensures isDialogOpen == old(isDialogOpen) && editingRule == old(editingRule)
    {
      formData := data;
    }

    /** Submitting the form. The browser refuses a form that is not
        `Submittable`, and then nothing happens. Otherwise `handleSubmit`
        runs: an update of the rule being edited, under its id, or else an
        add; then the form is reset and the dialog closed. */
    method HandleSubmit() returns (action: Option<RuleAction>)
      modifies this
      ensures action.Some? <==> Submittable(old(formData))
      ensures action.None? ==>
                formData == old(formData) && editingRule == old(editingRule) && isDialogOpen == old(isDialogOpen)
      ensures action.Some? && old(editingRule).Some? ==>
                action.value == UpdateRule(old(editingRule).value.id, old(formData))
      ensures action.Some? && old(editingRule).None? ==> action.value == AddRule(old(formData))
      ensures action.Some? ==> formData == EmptyForm && editingRule.None? && !isDialogOpen
    {
      if !Submittable(formData) {
        return None;
      }
      if editingRule.Some? {
        action := Some(UpdateRule(editingRule.value.id, formData));
      } else {
        action := Some(AddRule(formData));
      }
      ResetForm();
      isDialogOpen := false;
    }

    /** `handleEdit`: loads the rule's five fields and opens the dialog. */
    method HandleEdit(rule: Rule)
      modifies this
      ensures editingRule == Some(rule) && formData == FormDataOf(rule) && isDialogOpen
    {
      editingRule := Some(rule);
      formData := RuleData(rule.name, rule.description, rule.weight, rule.imageUrl, rule.category);
      isDialogOpen := true;
    }
  }
}
