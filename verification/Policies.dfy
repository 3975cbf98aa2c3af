/** Stored policies: their translation to engine rules, and decisions as status values. */
module Policies {
  import opened Common
  import opened Engine
  import opened Rows

  /** The `conditions` column: absent or empty, a list that reads as conditions, or neither. */
  datatype ConditionColumn = Null | List(conditions: seq<Condition>) | Unreadable

  datatype PolicyRow = PolicyRow(
    name: string,
    priority: int,
    conditions: ConditionColumn,
    action: string,
    vlanId: Option<int>)

  /** A signed 16-bit value read as unsigned, and back. */
  function AsU16(v: int): nat
    requires -0x8000 <= v < 0x8000
  {
    if v < 0 then v + 0x1_0000 else v
  }

  function AsI16(v: nat): int
    requires v < 0x1_0000
  {
    if v < 0x8000 then v else v - 0x1_0000
  }

  ghost predicate ValidVlan(row: PolicyRow) {
    row.vlanId.Some? ==> -0x8000 <= row.vlanId.value < 0x8000
  }

  function ConditionOf(cs: seq<Condition>): Condition {
    if |cs| == 1 then cs[0] else And(cs)
  }

  function DecisionOf(row: PolicyRow): Decision
    requires ValidVlan(row)
  {
    if row.action == "allow" then Allow
    else if row.action == "quarantine" then
      Quarantine(AsU16(row.vlanId.GetOr(99)), "policy: " + row.name)
    else Deny("policy: " + row.name)
  }

  function ToPolicyRule(row: PolicyRow): Result<Rule>
    requires ValidVlan(row)
  {
    match row.conditions
    case Unreadable => Err("conditions")
    case Null => Ok(Rule(row.name, row.priority, And([]), DecisionOf(row)))
    case List(cs) => Ok(Rule(row.name, row.priority, ConditionOf(cs), DecisionOf(row)))
  }

  function Listed(row: PolicyRow): seq<Condition> {
    if row.conditions.List? then row.conditions.conditions else []
  }

  function DecisionStatus(d: Decision): Status {
    match d
    case Allow => Allowed
    case AllowVlan(_) => Allowed
    case Quarantine(_, _) => Quarantined
    case Deny(_) => Denied
  }

  /** The translation keeps the meaning of a stored policy: its rule matches a context exactly when
      every listed condition does, for none, one or many conditions, and its decision has the
      status of the stored action. The VLAN survives the trip to a session row. */
  lemma ToPolicyRuleMeaning(row: PolicyRow, ctx: Context)
    requires ValidVlan(row)
    ensures ToPolicyRule(row).Err? <==> row.conditions.Unreadable?
    ensures ToPolicyRule(row).Ok? ==>
              var rule := ToPolicyRule(row).value;
              && (Matches(rule.condition, ctx) <==> forall c | c in Listed(row) :: Matches(c, ctx))
              && (DecisionStatus(rule.decision) == Allowed <==> row.action == "allow")
              && (DecisionStatus(rule.decision) == Quarantined <==> row.action == "quarantine")
              && (rule.decision.Quarantine? ==> AsI16(rule.decision.vlan) == row.vlanId.GetOr(99))
  {
    var cs := Listed(row);
    if |cs| == 1 {
      assert cs == [cs[0]];
    }
  }
}
