/** The application shell (src/App.tsx): the stored lists and their
    add/update/delete handlers, the current week's allowance, the session
    (parent or child mode) and which screen renders. */
module App {
  import opened Seqs
  import opened Types
  import opened Calculations
  import History
  import Dashboard

  // ---------------------------------------------------------------------
  // List handlers, generic in the record type; `idOf` reads the `id` field.
  // ---------------------------------------------------------------------

  /** `[...list, item]`: one element more, at the end; the rest untouched. */
  function Append<T>(list: seq<T>, item: T): (r: seq<T>)
    ensures |r| == |list| + 1
    ensures r[..|list|] == list && r[|list|] == item
  {
    list + [item]
  }

  /** `list.map(x => x.id === id ? replacement : x)`. */
  function ReplaceById<T>(list: seq<T>, idOf: T -> string, id: string, replacement: T): (r: seq<T>)
    ensures |r| == |list|
    ensures forall i :: 0 <= i < |list| && idOf(list[i]) == id ==> r[i] == replacement
    ensures forall i :: 0 <= i < |list| && idOf(list[i]) != id ==> r[i] == list[i]
  {
    if list == [] then []
    else [if idOf(list[0]) == id then replacement else list[0]]
         + ReplaceById(list[1..], idOf, id, replacement)
  }

  /** The records whose id is not `id`. */
  function IdIsNot<T>(idOf: T -> string, id: string): T -> bool
  {
    (x: T) => idOf(x) != id
  }

  /** `list.filter(x => x.id !== id)`. */
  function RemoveById<T>(list: seq<T>, idOf: T -> string, id: string): (r: seq<T>)
    ensures |r| <= |list|
    ensures forall i :: 0 <= i < |r| ==> r[i] in list && idOf(r[i]) != id
    ensures forall i :: 0 <= i < |list| && idOf(list[i]) != id ==> list[i] in r
  {
    Filter(list, IdIsNot(idOf, id))
  }

  /** Removing distributes over concatenation: the survivors keep their
      relative order. */
  lemma RemoveKeepsOrder<T>(a: seq<T>, b: seq<T>, idOf: T -> string, id: string)
    ensures RemoveById(a + b, idOf, id) == RemoveById(a, idOf, id) + RemoveById(b, idOf, id)
  {
    FilterAppend(a, b, IdIsNot(idOf, id));
  }

  /** Removing an id no record carries changes nothing. */
  lemma RemoveAbsent<T>(list: seq<T>, idOf: T -> string, id: string)
    requires forall i :: 0 <= i < |list| ==> idOf(list[i]) != id
    ensures RemoveById(list, idOf, id) == list
  {
    FilterKeepsAll(list, IdIsNot(idOf, id));
  }

  predicate UniqueIds<T>(list: seq<T>, idOf: T -> string)
  {
    forall i, j :: 0 <= i < j < |list| ==> idOf(list[i]) != idOf(list[j])
  }

  /** With unique ids a delete removes at most one record, and exactly one
      when some record carries the id. */
  lemma {:induction false} RemoveUnique<T>(list: seq<T>, idOf: T -> string, id: string)
    requires UniqueIds(list, idOf)
    ensures |RemoveById(list, idOf, id)| >= |list| - 1
    ensures (exists k :: 0 <= k < |list| && idOf(list[k]) == id) ==>
              |RemoveById(list, idOf, id)| == |list| - 1
  {
    FilterLength(list, IdIsNot(idOf, id));
    if list != [] {
      var rest := list[1..];
      assert UniqueIds(rest, idOf);
      FilterLength(rest, IdIsNot(idOf, id));
      if idOf(list[0]) == id {
        assert forall i :: 0 <= i < |rest| ==> idOf(rest[i]) != id by {
          forall i | 0 <= i < |rest|
            ensures idOf(rest[i]) != id
          {
            assert idOf(list[0]) != idOf(list[i + 1]);
          }
        }
        RemoveAbsent(rest, idOf, id);
      } else {
        RemoveUnique(rest, idOf, id);
        if exists k :: 0 <= k < |list| && idOf(list[k]) == id {
          var k :| 0 <= k < |list| && idOf(list[k]) == id;
          assert idOf(rest[k - 1]) == id;
        }
      }
    }
  }

  /** An update keeps every record's id when the replacement carries the
      updated id, so unique ids stay unique. */
  lemma ReplaceKeepsIds<T>(list: seq<T>, idOf: T -> string, id: string, replacement: T)
    requires idOf(replacement) == id
    ensures forall i :: 0 <= i < |list| ==> idOf(ReplaceById(list, idOf, id, replacement)[i]) == idOf(list[i])
    ensures UniqueIds(list, idOf) ==> UniqueIds(ReplaceById(list, idOf, id, replacement), idOf)
  {
  }

  /** Adding a record under a fresh id keeps ids unique. */
  lemma AppendKeepsUnique<T>(list: seq<T>, idOf: T -> string, item: T)
    requires UniqueIds(list, idOf)
    requires forall i :: 0 <= i < |list| ==> idOf(list[i]) != idOf(item)
    ensures UniqueIds(Append(list, item), idOf)
  {
  }

  /** A delete keeps ids unique. */
  lemma RemoveKeepsUnique<T>(list: seq<T>, idOf: T -> string, id: string)
    requires UniqueIds(list, idOf)
    ensures UniqueIds(RemoveById(list, idOf, id), idOf)
  {
    RemoveKeepsUniqueFilter(list, IdIsNot(idOf, id), idOf);
  }

  lemma {:induction false} RemoveKeepsUniqueFilter<T>(list: seq<T>, p: T -> bool, idOf: T -> string)
    requires UniqueIds(list, idOf)
    ensures UniqueIds(Filter(list, p), idOf)
  {
    if list != [] {
      var rest := list[1..];
      assert UniqueIds(rest, idOf);
      RemoveKeepsUniqueFilter(rest, p, idOf);
      var f := Filter(rest, p);
      if p(list[0]) {
        forall j | 0 <= j < |f|
          ensures idOf(list[0]) != idOf(f[j])
        {
          assert f[j] in rest;
          var m :| 0 <= m < |rest| && rest[m] == f[j];
          assert idOf(list[0]) != idOf(list[m + 1]);
        }
        assert Filter(list, p) == [list[0]] + f;
      }
    }
  }

  function RuleId(r: Rule): string { r.id }
  function ParentId(p: Parent): string { p.id }

  /** `{ ...rule, id }`. */
  function RuleWithId(data: RuleData, id: string): Rule
  {
    Rule(id, data.name, data.description, data.weight, data.imageUrl, data.category)
  }

  /** `{ ...parent, id }`. */
  function ParentWithId(data: ParentData, id: string): Parent
  {
    Parent(id, data.name, data.role)
  }

  /** `typeof date === 'string' ? date : date.toISOString()`: a stored date
      is always a string, for the same instant; a string is kept as given. */
  function NormalizeDate(date: DateValue): (d: DateValue)
    ensures d.DateString? && d.instant == date.instant
    ensures date.DateString? ==> d == date
  {
    match date
    case DateString(_) => date
    case DateObject(t) => DateString(t)
  }

  /** The record `handleAddInfraction` stores: the submitted fields, a fresh
      id, and the date as a string. */
  function StoredInfraction(data: InfractionData, id: string): (inf: Infraction)
    ensures inf.id == id && inf.date.DateString? && inf.date.instant == data.date.instant
    ensures inf.ruleId == data.ruleId && inf.ruleName == data.ruleName
            && inf.registeredBy == data.registeredBy && inf.registeredById == data.registeredById
            && inf.notes == data.notes && inf.weight == data.weight && inf.imageUrl == data.imageUrl
  {
    Infraction(id, data.ruleId, data.ruleName, NormalizeDate(data.date), data.registeredBy,
               data.registeredById, data.notes, data.weight, data.imageUrl)
  }

  // ---------------------------------------------------------------------
  // getCurrentWeekAllowance
  // ---------------------------------------------------------------------

  /** The infractions whose week starts at `start`. */
  function StartsWeek(start: Instant): Infraction -> bool
  {
    (inf: Infraction) => WeekStart(inf.date.instant) == start
  }

  /** Bucketing by equal week starts selects exactly the infractions dated
      within the week's range, in the same order. */
  lemma WeekFiltersAgree(all: seq<Infraction>, start: Instant)
    requires IsWeekStart(start)
    ensures Filter(all, StartsWeek(start)) == History.InWindow(all, start, WeekEnd(start))
  {
    forall i | 0 <= i < |all|
      ensures StartsWeek(start)(all[i]) == History.Within(start, WeekEnd(start))(all[i])
    {
      WeekMembership(start, all[i].date.instant);
    }
    FilterAgree(all, StartsWeek(start), History.Within(start, WeekEnd(start)));
  }

  /** `getCurrentWeekAllowance`: nothing when no infraction falls in the week
      of `now`; otherwise that week's infractions, in order, with base 100,
      unpaid, and totals left at 0 (the screens compute them). */
  function GetCurrentWeekAllowance(infractions: seq<Infraction>, now: Instant): (r: Option<WeeklyAllowance>)
    ensures r.None? <==> forall i :: 0 <= i < |infractions| ==>
                                       WeekStart(infractions[i].date.instant) != WeekStart(now)
    ensures r.Some? ==>
              && r.value.weekStart == WeekStart(now)
              && r.value.baseAmount == 100.0
              && r.value.totalDeductions == 0.0 && r.value.remainingAmount == 0.0
              && !r.value.paid
              && r.value.infractions == History.InWindow(infractions, WeekStart(now), WeekEnd(WeekStart(now)))
              && |r.value.infractions| > 0
    ensures r.None? ==> History.InWindow(infractions, WeekStart(now), WeekEnd(WeekStart(now))) == []
  {
    var start := GetCurrentWeek(now).start;
    var currentWeekInfractions := Filter(infractions, StartsWeek(start));
    WeekFiltersAgree(infractions, start);
    assert |currentWeekInfractions| > 0 ==>
             var i :| 0 <= i < |infractions| && infractions[i] == currentWeekInfractions[0];
             WeekStart(infractions[i].date.instant) == WeekStart(now);
    if |currentWeekInfractions| == 0 then
      None
    else
      Some(WeeklyAllowance(start, 100.0, 0.0, 0.0, currentWeekInfractions, false))
  }

  /** The dashboard's week is the first row of the history: the same
      infractions, and no allowance exactly when that row is empty. */
  lemma CurrentWeekIsFirstHistoryRow(all: seq<Infraction>, now: Instant)
    requires PositiveWeights(all)
    ensures var row := History.WeekAgo(all, now, 0);
            && (GetCurrentWeekAllowance(all, now).None? <==> |row.infractions| == 0)
            && (GetCurrentWeekAllowance(all, now).Some? ==>
                  GetCurrentWeekAllowance(all, now).value.infractions == row.infractions)
  {
    var row := History.WeekAgo(all, now, 0);
    History.WeekAgoFacts(all, now, 0);
    assert row.infractions == History.InWindow(all, WeekStart(now), WeekEnd(WeekStart(now)));
  }

  /** What the dashboard shows for the current week: everything when no
      infraction was logged in it, nothing once one was. */
  lemma DashboardOfCurrentWeek(all: seq<Infraction>, now: Instant)
    requires PositiveWeights(all)
    ensures Dashboard.WeekDataDefined(GetCurrentWeekAllowance(all, now))
    ensures var d := Dashboard.ComputeWeekData(GetCurrentWeekAllowance(all, now));
            (GetCurrentWeekAllowance(all, now).None? ==> d.remaining == 100.0 && d.percentage == 100.0)
            && (GetCurrentWeekAllowance(all, now).Some? ==>
                  d.deductions == 100.0 && d.remaining == 0.0 && d.percentage == 0.0)
  {
    var r := GetCurrentWeekAllowance(all, now);
    if r.Some? {
      var s := WeekStart(now);
      var w := r.value.infractions;
      forall i | 0 <= i < |w|
        ensures w[i] in all
      {
        History.InWindowMember(all, s, WeekEnd(s), w[i]);
      }
      History.PositiveSubset(all, w);
    }
  }

  /** The three sample infractions the application starts with (weights 2,
      2 and 4, all dated at start-up) take shares 25, 25 and 50, so the
      dashboard shows nothing left for the week, although the comment beside
      them announces 20 remaining. */
  lemma SampleInfractionsLeaveNothing(now: Instant, example1: Infraction, example2: Infraction,
                                      example3: Infraction)
    requires example1.weight == 2 && example2.weight == 2 && example3.weight == 4
    requires example1.date == DateString(now) && example2.date == DateString(now)
             && example3.date == DateString(now)
    ensures Share(8, 2) == 25.0 && Share(8, 4) == 50.0
    ensures GetCurrentWeekAllowance([example1, example2, example3], now).Some?
    ensures Dashboard.WeekDataDefined(GetCurrentWeekAllowance([example1, example2, example3], now))
    ensures Dashboard.ComputeWeekData(GetCurrentWeekAllowance([example1, example2, example3], now)).remaining == 0.0
  {
    var all := [example1, example2, example3];
    assert PositiveWeights(all);
    assert WeekStart(all[0].date.instant) == WeekStart(now);
    DashboardOfCurrentWeek(all, now);
  }

  // ---------------------------------------------------------------------
  // renderScreen and the navigation bar
  // ---------------------------------------------------------------------

  /** What `renderScreen` returns. */
  datatype View = LoginView | DashboardView | RulesView | InfractionsView | HistoryView
                | ParentsView | NoView

  /** The screens rendered only in parent mode. */
  predicate IsParentScreen(screen: Screen)
  {
    screen == RulesScreen || screen == InfractionsScreen || screen == HistoryScreen
    || screen == ParentsScreen
  }

  function ScreenOf(view: View): Screen
    requires view != NoView
  {
    match view
    case LoginView => LoginScreen
    case DashboardView => DashboardScreen
    case RulesView => RulesScreen
    case InfractionsView => InfractionsScreen
    case HistoryView => HistoryScreen
    case ParentsView => ParentsScreen
  }

  /** `renderScreen`: the screen's own view, except that the four parent
      screens render nothing outside parent mode. */
  function RenderScreen(screen: Screen, isParentMode: bool): (v: View)
    ensures v == NoView <==> IsParentScreen(screen) && !isParentMode
    ensures v != NoView ==> ScreenOf(v) == screen
  {
    match screen
    case LoginScreen => LoginView
    case DashboardScreen => DashboardView
    case RulesScreen => if isParentMode then RulesView else NoView
    case InfractionsScreen => if isParentMode then InfractionsView else NoView
    case HistoryScreen => if isParentMode then HistoryView else NoView
    case ParentsScreen => if isParentMode then ParentsView else NoView
  }

  /** `currentScreen !== 'login' && <Navigation .../>`. */
  function ShowNavigation(screen: Screen): bool
  {
    screen != LoginScreen
  }

  // ---------------------------------------------------------------------
  // The application state
  // ---------------------------------------------------------------------

  class AppState {
    var rules: seq<Rule>
    var infractions: seq<Infraction>
    var parents: seq<Parent>
    var currentScreen: Screen
    var currentParentId: string
    var isParentMode: bool

    /** The stored lists as loaded, on the login screen, with no session. */
    constructor (storedRules: seq<Rule>, storedInfractions: seq<Infraction>, storedParents: seq<Parent>)
      ensures rules == storedRules && infractions == storedInfractions && parents == storedParents
      ensures currentScreen == LoginScreen && currentParentId == "" && !isParentMode
      ensures SessionConsistent()
    {
      rules := storedRules;
      infractions := storedInfractions;
      parents := storedParents;
      currentScreen := LoginScreen;
      currentParentId := "";
      isParentMode := false;
    }

    /** Child mode never carries a parent id. */
    predicate SessionConsistent()
      reads this
    {
      !isParentMode ==> currentParentId == ""
    }

    /** `currentParent`, whose name the navigation bar shows: the first
        parent with the session's id. In child mode the session carries no
        id, so no parent is shown unless some record has an empty id. */
    function CurrentParent(): (p: Option<Parent>)
      reads this
      ensures p.Some? ==> exists i :: 0 <= i < |parents| && parents[i] == p.value
                                     && p.value.id == currentParentId
                                     && forall j :: 0 <= j < i ==> parents[j].id != currentParentId
      ensures p.None? <==> forall i :: 0 <= i < |parents| ==> parents[i].id != currentParentId
      ensures SessionConsistent() && !isParentMode && (forall i :: 0 <= i < |parents| ==> parents[i].id != "")
              ==> p.None?
    {
      var id := currentParentId;
      Find(parents, (q: Parent) => q.id == id)
    }

    twostate predicate ListsKept()
      reads this
    {
      rules == old(rules) && infractions == old(infractions) && parents == old(parents)
    }

    twostate predicate SessionKept()
      reads this
    {
      currentScreen == old(currentScreen) && currentParentId == old(currentParentId)
      && isParentMode == old(isParentMode)
    }

    /** `handleLogin`: parent mode for `parentId`, on the dashboard, with
        the navigation bar. */
    method HandleLogin(parentId: string)
      modifies this
      ensures currentParentId == parentId && isParentMode && currentScreen == DashboardScreen
      ensures ListsKept() && SessionConsistent() && ShowNavigation(currentScreen)
    {
      currentParentId := parentId;
      isParentMode := true;
      currentScreen := DashboardScreen;
    }

    /** `handleChildAccess`: child mode on the dashboard; the parent screens
        render nothing from here on. */
    method HandleChildAccess()
      modifies this
      ensures currentParentId == "" && !isParentMode && currentScreen == DashboardScreen
      ensures ListsKept() && SessionConsistent() && ShowNavigation(currentScreen)
      ensures forall s :: IsParentScreen(s) ==> RenderScreen(s, isParentMode) == NoView
    {
      currentParentId := "";
      isParentMode := false;
      currentScreen := DashboardScreen;
    }

    /** `handleLogout`: no session, back on the login screen, where the
        navigation bar is hidden. */
    method HandleLogout()
      modifies this
      ensures currentParentId == "" && !isParentMode && currentScreen == LoginScreen
      ensures ListsKept() && SessionConsistent() && !ShowNavigation(currentScreen)
    {
      currentParentId := "";
      isParentMode := false;
      currentScreen := LoginScreen;
    }

    /** The navigation bar's `onScreenChange`. */
    method SetCurrentScreen(screen: Screen)
      modifies this
      ensures currentScreen == screen
      ensures ListsKept() && currentParentId == old(currentParentId) && isParentMode == old(isParentMode)
      ensures old(SessionConsistent()) ==> SessionConsistent()
    {
      currentScreen := screen;
    }

    /** `handleAddRule`; `newId` stands for `Date.now().toString()`. */
    method HandleAddRule(rule: RuleData, newId: string)
      modifies this
      ensures rules == Append(old(rules), RuleWithId(rule, newId))
      ensures infractions == old(infractions) && parents == old(parents) && SessionKept()
    {
      var newRule := RuleWithId(rule, newId);
      rules := rules + [newRule];
    }

    /** `handleUpdateRule`. */
    method HandleUpdateRule(id: string, updatedRule: RuleData)
      modifies this
      ensures rules == ReplaceById(old(rules), RuleId, id, RuleWithId(updatedRule, id))
      ensures infractions == old(infractions) && parents == old(parents) && SessionKept()
    {
      rules := ReplaceById(rules, RuleId, id, RuleWithId(updatedRule, id));
    }

    /** `handleDeleteRule`. */
    method HandleDeleteRule(id: string)
      modifies this
      ensures rules == RemoveById(old(rules), RuleId, id)
      ensures infractions == old(infractions) && parents == old(parents) && SessionKept()
    {
      rules := RemoveById(rules, RuleId, id);
    }

    /** `handleAddInfraction`: the record is stored with a fresh id and its
        date as a string. */
    method HandleAddInfraction(infraction: InfractionData, newId: string)
      modifies this
      ensures infractions == Append(old(infractions), StoredInfraction(infraction, newId))
      ensures infractions[|infractions| - 1].date.DateString?
      ensures rules == old(rules) && parents == old(parents) && SessionKept()
    {
      var newInfraction := StoredInfraction(infraction, newId);
      infractions := infractions + [newInfraction];
    }

    /** `handleAddParent`. */
    method HandleAddParent(parent: ParentData, newId: string)
      modifies this
      ensures parents == Append(old(parents), ParentWithId(parent, newId))
      ensures rules == old(rules) && infractions == old(infractions) && SessionKept()
    {
      var newParent := ParentWithId(parent, newId);
      parents := parents + [newParent];
    }

    /** `handleUpdateParent`. */
    method HandleUpdateParent(id: string, updatedParent: ParentData)
      modifies this
      ensures parents == ReplaceById(old(parents), ParentId, id, ParentWithId(updatedParent, id))
      ensures rules == old(rules) && infractions == old(infractions) && SessionKept()
    {
      parents := ReplaceById(parents, ParentId, id, ParentWithId(updatedParent, id));
    }

    /** `handleDeleteParent`: no guard of its own; the parents screen holds
        the minimum-count check. */
    method HandleDeleteParent(id: string)
      modifies this
      ensures parents == RemoveById(old(parents), ParentId, id)
      ensures rules == old(rules) && infractions == old(infractions) && SessionKept()
    {
      parents := RemoveById(parents, ParentId, id);
    }
  }
}
