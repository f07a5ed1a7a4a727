/** The screen where a parent logs an infraction
    (src/components/InfractionsManagement.tsx): the recent list, the
    deduction preview, the badge colours and the logging form. */
module InfractionsManagement {
  import opened Seqs
  import opened Types
  import opened Calculations

  /** `infractions.slice(-10).reverse()`: the ten latest infractions, newest first. */
  function RecentInfractions(infractions: seq<Infraction>): (r: seq<Infraction>)
    ensures |r| == if |infractions| < 10 then |infractions| else 10
    ensures forall k :: 0 <= k < |r| ==> r[k] == infractions[|infractions| - 1 - k]
  {
    Reverse(LastN(infractions, 10))
  }

  /** `getWeightColor` (the rules screen has an identical copy): red from 8,
      orange from 5, yellow from 3, green below. */
  function GetWeightColor(weight: int): (c: string)
    ensures c == "bg-red-500" <==> weight >= 8
    ensures c == "bg-orange-500" <==> 5 <= weight < 8
    ensures c == "bg-yellow-500" <==> 3 <= weight < 5
    ensures c == "bg-green-500" <==> weight < 3
  {
    if weight >= 8 then "bg-red-500"
    else if weight >= 5 then "bg-orange-500"
    else if weight >= 3 then "bg-yellow-500"
    else "bg-green-500"
  }

  /** `calculateDeductionPreview`: the candidate's share of the base when the
      denominator is every logged infraction, of any week, plus the candidate. */
  function CalculateDeductionPreview(infractions: seq<Infraction>, weight: int): (r: real)
    requires TotalWeight(infractions) + weight != 0
    ensures r == Share(TotalWeight(infractions) + weight, weight)
  {
    var totalWeights := TotalWeight(infractions) + weight;
    (WeeklyAllowanceBase / totalWeights as real) * weight as real
  }

  /** The preview is the share the candidate would get if everything logged
      so far, and the candidate itself, were a single week. */
  lemma PreviewIsShareOfAppended(infractions: seq<Infraction>, candidate: Infraction)
    requires TotalWeight(infractions) + candidate.weight != 0
    ensures TotalWeight(infractions + [candidate]) == TotalWeight(infractions) + candidate.weight
    ensures CalculateDeductionPreview(infractions, candidate.weight)
         == Share(TotalWeight(infractions + [candidate]), candidate.weight)
  {
    assert Weights(infractions + [candidate]) == Weights(infractions) + [candidate.weight];
    SumAppend(Weights(infractions), [candidate.weight]);
  }

  /** With positive weights the preview lies in (0, B], and it is the whole
      base when nothing has been logged. */
  lemma PreviewBounds(infractions: seq<Infraction>, weight: int)
    requires PositiveWeights(infractions) && weight > 0
    ensures TotalWeight(infractions) + weight > 0
    ensures 0.0 < CalculateDeductionPreview(infractions, weight) <= WeeklyAllowanceBase
    ensures |infractions| == 0 ==> CalculateDeductionPreview(infractions, weight) == WeeklyAllowanceBase
  {
    PositiveWeightsDefined(infractions);
    if |infractions| == 0 {
      assert Weights(infractions) == [];
    }
    var others := TotalWeight(infractions);
    ShareMonotone(others, weight, weight);
    PreviewAtMostBase(others, weight);
  }

  lemma PreviewAtMostBase(others: int, weight: int)
    requires others >= 0 && weight > 0
    ensures 0.0 < Share(others + weight, weight) <= WeeklyAllowanceBase
    ensures others == 0 ==> Share(others + weight, weight) == WeeklyAllowanceBase
  {
    var t := (others + weight) as real;
    var w := weight as real;
    assert Share(others + weight, weight) == (WeeklyAllowanceBase / t) * w;
    assert (WeeklyAllowanceBase / t) * w == WeeklyAllowanceBase * (w / t);
    assert w / t <= 1.0 by {
      DivMonotone(w, t, 1.0, 1.0);
    }
  }

  /** A heavier candidate never previews a smaller deduction; once anything
      has been logged it previews a strictly larger one. */
  lemma PreviewMonotone(infractions: seq<Infraction>, w1: int, w2: int)
    requires PositiveWeights(infractions) && 0 < w1 <= w2
    ensures TotalWeight(infractions) + w1 > 0 && TotalWeight(infractions) + w2 > 0
    ensures CalculateDeductionPreview(infractions, w1) <= CalculateDeductionPreview(infractions, w2)
    ensures |infractions| > 0 && w1 < w2 ==>
              CalculateDeductionPreview(infractions, w1) < CalculateDeductionPreview(infractions, w2)
  {
    PositiveWeightsDefined(infractions);
    if |infractions| == 0 {
      assert Weights(infractions) == [];
    }
    ShareMonotone(TotalWeight(infractions), w1, w2);
  }

  /** The preview is only an estimate: with two weight-2 infractions logged,
      a weight-4 candidate previews 50, yet the week that holds all three
      loses the whole base. */
  lemma PreviewIsNotTheDeduction(a: Infraction, b: Infraction, c: Infraction)
    requires a.weight == 2 && b.weight == 2 && c.weight == 4
    ensures TotalWeight([a, b]) + c.weight == 8
    ensures CalculateDeductionPreview([a, b], c.weight) == 50.0
    ensures TotalWeight([a, b, c]) == 8
    ensures CalculateWeeklyDeduction([a, b, c]) == 100.0
  {
    assert Weights([a, b]) == [2, 2];
    assert Weights([a, b, c]) == [2, 2, 4];
    assert Sum([2, 2]) == 2 + Sum([2]);
    assert Sum([2, 2, 4]) == 2 + Sum([2, 4]);
    assert Sum([2, 4]) == 2 + Sum([4]);
  }

  /** The rule whose id is `id`. */
  function RuleHasId(id: string): Rule -> bool
  {
    (r: Rule) => r.id == id
  }

  /** The parent whose id is `id`. */
  function ParentHasId(id: string): Parent -> bool
  {
    (p: Parent) => p.id == id
  }

  /** `rules.find(r => r.id === selectedRuleId)?.weight || 1`: the weight fed
      to the preview, 1 when the rule is missing or weighs 0. */
  function PreviewWeight(rules: seq<Rule>, selectedRuleId: string): (w: int)
    ensures w != 0
    ensures (forall i :: 0 <= i < |rules| ==> rules[i].id != selectedRuleId) ==> w == 1
    ensures forall i :: 0 <= i < |rules| && rules[i].id == selectedRuleId
                        && (forall j :: 0 <= j < i ==> rules[j].id != selectedRuleId) ==>
              w == (if rules[i].weight == 0 then 1 else rules[i].weight)
  {
    var found := Find(rules, RuleHasId(selectedRuleId));
    assert forall i :: 0 <= i < |rules| && rules[i].id == selectedRuleId
                       && (forall j :: 0 <= j < i ==> rules[j].id != selectedRuleId) ==>
             found == Some(rules[i]) by {
      forall i | 0 <= i < |rules| && rules[i].id == selectedRuleId
                 && (forall j :: 0 <= j < i ==> rules[j].id != selectedRuleId)
      {
        FindFirst(rules, RuleHasId(selectedRuleId), i);
      }
    }
    match found
    case None => 1
    case Some(rule) => if rule.weight == 0 then 1 else rule.weight
  }

  /** The record `handleSubmit` hands to `onAddInfraction`: nothing when the
      selected rule or the current parent cannot be found; otherwise a
      snapshot of the rule's id, name, weight and image, signed with the
      parent's name (never its id), dated `now`, with empty notes left out.
      Like `find`, it takes the first rule and the first parent with the id. */
  function SubmittedRecord(rules: seq<Rule>, parents: seq<Parent>, currentParentId: string,
                           selectedRuleId: string, notes: string, now: Instant): (r: Option<InfractionData>)
    ensures r.None? <==> ((forall i :: 0 <= i < |rules| ==> rules[i].id != selectedRuleId)
                          || (forall i :: 0 <= i < |parents| ==> parents[i].id != currentParentId))
    ensures r.Some? ==>
              && (exists i :: 0 <= i < |rules| && rules[i].id == selectedRuleId
                               && (forall j :: 0 <= j < i ==> rules[j].id != selectedRuleId)
                               && r.value.ruleId == rules[i].id && r.value.ruleName == rules[i].name
                               && r.value.weight == rules[i].weight && r.value.imageUrl == rules[i].imageUrl)
              && (exists i :: 0 <= i < |parents| && parents[i].id == currentParentId
                               && (forall j :: 0 <= j < i ==> parents[j].id != currentParentId)
                               && r.value.registeredBy == parents[i].name)
              && r.value.registeredById.None?
              && r.value.date == DateObject(now)
              && (r.value.notes.None? <==> notes == "")
              && (r.value.notes.Some? ==> r.value.notes.value == notes)
  {
    var currentParent := Find(parents, ParentHasId(currentParentId));
    var selectedRule := Find(rules, RuleHasId(selectedRuleId));
    if selectedRule.None? || currentParent.None? then None
    else
      var rule := selectedRule.value;
      var parent := currentParent.value;
      Some(InfractionData(rule.id, rule.name, DateObject(now), parent.name, None,
                          if notes == "" then None else Some(notes),
                          rule.weight, rule.imageUrl))
  }

  /** With two rules under one id, the record is the first rule's snapshot,
      as `find` returns the first match. */
  lemma SubmitTakesFirstRule(first: Rule, second: Rule, parent: Parent, now: Instant)
    requires first.id == second.id && first.weight == 2 && second.weight == 9
    ensures var r := SubmittedRecord([first, second], [parent], parent.id, first.id, "", now);
            r.Some? && r.value.weight == 2 && r.value.registeredBy == parent.name
  {
    FindFirst([first, second], RuleHasId(first.id), 0);
    FindFirst([parent], ParentHasId(parent.id), 0);
  }

  /** The form state of the screen. */
  class InfractionForm {
    var isDialogOpen: bool
    var selectedRuleId: string
    var notes: string

    constructor ()
      ensures !isDialogOpen && selectedRuleId == "" && notes == ""
    {
      isDialogOpen := false;
      selectedRuleId := "";
      notes := "";
    }

    /** `onOpenChange`, and the cancel button with `open` false: the
        selection and notes are kept. */
    method SetDialogOpen(open: bool)
      modifies this
      ensures isDialogOpen == open
      ensures selectedRuleId == old(selectedRuleId) && notes == old(notes)
    {
      isDialogOpen := open;
    }

    method SelectRule(ruleId: string)
      modifies this
      ensures selectedRuleId == ruleId
      ensures isDialogOpen == old(isDialogOpen) && notes == old(notes)
    {
      selectedRuleId := ruleId;
    }

    method SetNotes(text: string)
      modifies this
      ensures notes == text
      ensures isDialogOpen == old(isDialogOpen) && selectedRuleId == old(selectedRuleId)
    {
      notes := text;
    }

    /** A click on a rule card: that rule is selected and the dialog opens,
        with the notes kept. */
    method PickRule(ruleId: string)
      modifies this
      ensures selectedRuleId == ruleId && isDialogOpen
      ensures notes == old(notes)
    {
      selectedRuleId := ruleId;
      isDialogOpen := true;
    }

    /** Submitting the form. With no rule selected the submit button is
        disabled and nothing happens. Otherwise `handleSubmit` runs and
        returns the record given to `onAddInfraction`. When the rule or the
        parent is missing it returns nothing and changes nothing; otherwise
        it clears the form and closes the dialog. */
    method HandleSubmit(rules: seq<Rule>, parents: seq<Parent>, currentParentId: string, now: Instant)
      returns (submitted: Option<InfractionData>)
      modifies this
      ensures old(selectedRuleId) == "" ==> submitted.None?
      ensures old(selectedRuleId) != "" ==>
                submitted == SubmittedRecord(rules, parents, currentParentId,
                                             old(selectedRuleId), old(notes), now)
      ensures submitted.None? ==>
                isDialogOpen == old(isDialogOpen) && selectedRuleId == old(selectedRuleId)
                && notes == old(notes)
      ensures submitted.Some? ==> !isDialogOpen && selectedRuleId == "" && notes == ""
    {
      if selectedRuleId == "" {
        return None;
      }
      var ruleId, text := selectedRuleId, notes;
      var currentParent := Find(parents, ParentHasId(currentParentId));
      var selectedRule := Find(rules, RuleHasId(ruleId));
      if selectedRule.None? || currentParent.None? {
        return None;
      }
      var rule := selectedRule.value;
      var parent := currentParent.value;
      var newInfraction := InfractionData(rule.id, rule.name, DateObject(now), parent.name, None,
                                          if text == "" then None else Some(text),
                                          rule.weight, rule.imageUrl);
      submitted := Some(newInfraction);
      selectedRuleId := "";
      notes := "";
      isDialogOpen := false;
    }
  }
}
