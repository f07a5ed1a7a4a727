/** The records of the allowance ledger (src/types/index.ts). The string
    unions of the source are closed datatypes here. */
module Types {
  import opened Seqs

  /** A point in time: milliseconds of local time since the epoch, with
      86,400,000 ms in every day (no time zone offsets, no daylight saving). */
  type Instant = int

  /** `Date | string`. A string is taken to be a valid ISO rendering of the
      instant it holds; parsing is not modelled. */
  datatype DateValue = DateObject(instant: Instant) | DateString(instant: Instant)

  datatype Category = Higiene | Comportamento | Responsabilidade | Seguranca | Alimentacao

  /** 'pai' | 'mae' | 'avo' | 'avó' | 'tio' | 'tia' | 'professor'; `Avo` is the
      tag 'avo' (grandfather) and `AvoAcute` the tag 'avó' (grandmother). */
  datatype Role = Pai | Mae | Avo | AvoAcute | Tio | Tia | Professor

  datatype Screen = LoginScreen | DashboardScreen | RulesScreen | InfractionsScreen
                  | HistoryScreen | ParentsScreen

  /** A rule; `weight` is documented as 1..10, 10 the most severe. */
  datatype Rule = Rule(id: string, name: string, description: string, weight: int,
                       imageUrl: string, category: Category)

  /** `Omit<Rule, 'id'>`, also the shape of the rule form. */
  datatype RuleData = RuleData(name: string, description: string, weight: int,
                               imageUrl: string, category: Category)

  /** An infraction: `ruleName` and `weight` are snapshots of the rule taken
      when it was logged, beside the `ruleId` reference. `registeredById` and
      `notes` may be absent (the submit path never sets the former). */
  datatype Infraction = Infraction(id: string, ruleId: string, ruleName: string,
                                   date: DateValue, registeredBy: string,
                                   registeredById: Option<string>, notes: Option<string>,
                                   weight: int, imageUrl: string)

  /** `Omit<Infraction, 'id'>`. */
  datatype InfractionData = InfractionData(ruleId: string, ruleName: string,
                                           date: DateValue, registeredBy: string,
                                           registeredById: Option<string>, notes: Option<string>,
                                           weight: int, imageUrl: string)

  datatype WeeklyAllowance = WeeklyAllowance(weekStart: Instant, baseAmount: real,
                                             totalDeductions: real, remainingAmount: real,
                                             infractions: seq<Infraction>, paid: bool)

  datatype Parent = Parent(id: string, name: string, role: Role)

  /** `Omit<Parent, 'id'>`, also the shape of the parent form. */
  datatype ParentData = ParentData(name: string, role: Role)
}
