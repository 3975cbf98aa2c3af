/** The second interpreter of the condition language, which reads endpoint rows directly, and
    where it agrees with the engine. */
module BulkRules {
  import opened Common
  import opened MacText
  import opened Versions
  import opened Engine
  import opened Rows
  import opened Policies

  predicate EqIgnoreCase(a: string, b: string) {
    ToLower(a) == ToLower(b)
  }

  predicate Contains(hay: string, needle: string) {
    needle <= hay || (hay != [] && Contains(hay[1..], needle))
  }

  predicate Installed(row: Endpoint, name: string) {
    exists s | s in row.posture.software.GetOr([]) :: Contains(ToLower(s.name), ToLower(name))
  }

  function KnownVersion(row: Endpoint): string {
    Coalesce(row.posture.osVersion, row.osVersion).GetOr("")
  }

  predicate ConditionMatches(c: Condition, row: Endpoint)
  {
    match c
    case And(cs) => forall d | d in cs :: ConditionMatches(d, row)
    case Or(cs) => exists d | d in cs :: ConditionMatches(d, row)
    case Not(d) => !ConditionMatches(d, row)
    case OsFamily(v) => row.osFamily.Some? && EqIgnoreCase(row.osFamily.value, v)
    case DeviceType(v) => row.deviceType.Some? && EqIgnoreCase(row.deviceType.value, v)
    case Compliant(required) => row.isCompliant.GetOr(false) == required
    case MacList(macs) => exists m | m in macs :: EqIgnoreCase(m, Text(row.mac))
    case MacBlacklist(macs) => exists m | m in macs :: EqIgnoreCase(m, Text(row.mac))
    case UserGroup(_) => false
    case OsVersionBelow(v) => Compare(KnownVersion(row), v) == Less
    case OsVersionAtLeast(v) => Compare(KnownVersion(row), v) != Less
    case SoftwareInstalled(name) => Installed(row, name)
    case SoftwareNotInstalled(name) => !Installed(row, name)
    case HasMissingPatches => row.posture.missingPatches > 0
    case UsbEnabled => row.posture.usbEnabled.GetOr(false)
    case BluetoothEnabled => row.posture.bluetooth.GetOr(false)
    case FolderSharingEnabled => row.posture.folderSharing.GetOr(false)
  }

  /** First match over rules in the order they were loaded. */
  function FirstStatus(rules: seq<Rule>, row: Endpoint): (r: Option<Status>)
    ensures r != Some(Pending)
  {
    if rules == [] then None
    else if ConditionMatches(rules[0].condition, row) then Some(DecisionStatus(rules[0].decision))
    else FirstStatus(rules[1..], row)
  }

  /** The engine's view of a row when the caller knows compliance. */
  ghost predicate Describes(ctx: Context, row: Endpoint) {
    && ctx.mac == Text(row.mac)
    && ctx.osFamily == row.osFamily
    && ctx.deviceType == row.deviceType
  }

  /** The two interpreters treat this text condition alike: exact and case-blind equality with
      the stored value coincide. */
  predicate CaseCanonical(v: string, stored: Option<string>) {
    stored == Some(v) || stored.None? || !EqIgnoreCase(stored.value, v)
  }

  predicate Comparable(c: Condition, ctx: Context)
  {
    match c
    case And(cs) => forall d | d in cs :: Comparable(d, ctx)
    case Or(cs) => forall d | d in cs :: Comparable(d, ctx)
    case Not(d) => Comparable(d, ctx)
    case OsFamily(v) => CaseCanonical(v, ctx.osFamily)
    case DeviceType(v) => CaseCanonical(v, ctx.deviceType)
    case UserGroup(groups) => forall g | g in groups :: g !in ctx.groups
    case Compliant(_) => true
    case MacList(_) => true
    case MacBlacklist(_) => true
    case _ => false
  }

  lemma UpperLower(a: string, b: string)
    ensures ToUpper(a) == ToUpper(b) <==> ToLower(a) == ToLower(b)
  {
    if |a| == |b| {
      assert forall i | 0 <= i < |a| :: ToUpper(a)[i] == UpperChar(a[i]) && ToUpper(b)[i] == UpperChar(b[i]);
      assert forall i | 0 <= i < |a| :: ToLower(a)[i] == LowerChar(a[i]) && ToLower(b)[i] == LowerChar(b[i]);
      assert forall i | 0 <= i < |a| :: UpperChar(a[i]) == UpperChar(b[i]) <==> LowerChar(a[i]) == LowerChar(b[i]);
    }
  }

  /** Meaning is the same in both interpreters, for any nesting of And, Or and Not. */
  lemma {:induction false} InterpretersAgree(c: Condition, ctx: Context, row: Endpoint)
    requires Describes(ctx, row) && ctx.isCompliant == Some(row.isCompliant.GetOr(false))
    requires Comparable(c, ctx)
    ensures Matches(c, ctx) <==> ConditionMatches(c, row)
  {
    match c
    case And(cs) =>
      forall d | d in cs { InterpretersAgree(d, ctx, row); }
    case Or(cs) =>
      forall d | d in cs { InterpretersAgree(d, ctx, row); }
    case Not(d) =>
      InterpretersAgree(d, ctx, row);
    case MacList(macs) =>
      forall m | m in macs { UpperLower(m, Text(row.mac)); }
    case MacBlacklist(macs) =>
      forall m | m in macs { UpperLower(m, Text(row.mac)); }
    case _ =>
  }

  predicate ReadsPosture(c: Condition) {
    || c.OsVersionBelow? || c.OsVersionAtLeast? || c.SoftwareInstalled? || c.SoftwareNotInstalled?
    || c.HasMissingPatches? || c.UsbEnabled? || c.BluetoothEnabled? || c.FolderSharingEnabled?
  }

  /** Single tests, all kinds: one that does not read posture data is treated alike exactly when it is
      comparable (a group test when the device is in none of the groups), one that does exactly when
      the row fails it. */
  lemma ComparableIsExact(c: Condition, ctx: Context, row: Endpoint)
    requires Describes(ctx, row) && ctx.isCompliant == Some(row.isCompliant.GetOr(false))
    requires !c.And? && !c.Or? && !c.Not?
    ensures (Matches(c, ctx) <==> ConditionMatches(c, row)) <==>
            if ReadsPosture(c) then !ConditionMatches(c, row) else Comparable(c, ctx)
  {
    if Comparable(c, ctx) {
      InterpretersAgree(c, ctx, row);
    }
  }

  lemma {:induction false} FirstMatchAgrees(rules: seq<Rule>, ctx: Context, row: Endpoint)
    requires Describes(ctx, row) && ctx.isCompliant == Some(row.isCompliant.GetOr(false))
    requires forall r | r in rules :: Comparable(r.condition, ctx)
    ensures FirstStatus(rules, row) ==
            match FirstMatch(rules, ctx) case Some(r) => Some(DecisionStatus(r.decision)) case None => None
  {
    if rules != [] {
      InterpretersAgree(rules[0].condition, ctx, row);
      FirstMatchAgrees(rules[1..], ctx, row);
    }
  }

  /** The engine on the rules in any order gives the same status as the bulk evaluator on the
      rules loaded by priority, when the bulk evaluator falls back to a denial. */
  lemma EnginesAgree(given: seq<Rule>, loaded: seq<Rule>, ctx: Context, row: Endpoint)
    requires Describes(ctx, row) && ctx.isCompliant == Some(row.isCompliant.GetOr(false))
    requires multiset(given) == multiset(loaded) && Sorted(loaded)
    requires forall i, j | 0 <= i < j < |given| :: given[i].priority != given[j].priority
    requires forall r | r in loaded :: Comparable(r.condition, ctx)
    ensures DecisionStatus(Evaluation(given, ctx)) == FirstStatus(loaded, row).GetOr(Denied)
  {
    EvaluationIgnoresOrder(given, loaded, ctx);
    SortOfSorted(loaded);
    FirstMatchAgrees(loaded, ctx, row);
  }

  // A detection event evaluates with compliance unknown, whatever the row says.

  function DetectionContext(row: Endpoint): Context {
    Context(Text(row.mac), row.osFamily, row.deviceType, [], None)
  }

  /** On a compliance condition the detection handler and the bulk evaluator disagree exactly
      when the bulk evaluator matches it. */
  lemma DetectionMissesCompliance(required: bool, row: Endpoint)
    ensures (Matches(Compliant(required), DetectionContext(row)) <==> ConditionMatches(Compliant(required), row))
            <==> row.isCompliant.GetOr(false) != required
  {
  }

  const SEED_RULES := [
    Rule("quarantine-unknown", 10, Compliant(false), Quarantine(99, "policy: quarantine-unknown")),
    Rule("allow-corp-devices", 50, OsFamily("Windows"), Allow),
    Rule("default-allow", 9999, And([]), Allow)]

  /** With the three enabled seed policies every device is allowed when it is detected; when they are
      applied in bulk it gets the same status exactly when it is known to comply, and is quarantined
      otherwise. */
  lemma SeedPoliciesDisagree(row: Endpoint)
    ensures DecisionStatus(Evaluation(SEED_RULES, DetectionContext(row))) == Allowed
    ensures FirstStatus(SEED_RULES, row) == Some(DecisionStatus(Evaluation(SEED_RULES, DetectionContext(row))))
            <==> row.isCompliant.GetOr(false)
    ensures !row.isCompliant.GetOr(false) ==> FirstStatus(SEED_RULES, row) == Some(Quarantined)
  {
    var ctx := DetectionContext(row);
    assert Sorted(SEED_RULES);
    SortOfSorted(SEED_RULES);
    var tail := SEED_RULES[1..];
    assert FirstMatch(SEED_RULES, ctx) == FirstMatch(tail, ctx);
    assert tail[1..] == [SEED_RULES[2]];
    assert Matches(SEED_RULES[2].condition, ctx);
    assert FirstMatch([SEED_RULES[2]], ctx) == Some(SEED_RULES[2]);
    assert ConditionMatches(And([]), row) && FirstStatus([SEED_RULES[2]], row) == Some(Allowed);
    assert FirstStatus(tail, row) == Some(Allowed);
  }
}
