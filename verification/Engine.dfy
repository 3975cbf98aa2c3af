/** The policy engine: the condition language, its first interpreter, and rule selection. */
module Engine {
  import opened Common
  import opened MacText

  datatype Decision =
    | Allow
    | AllowVlan(vlanId: nat)
    | Quarantine(vlan: nat, reason: string)
    | Deny(reason: string)

  datatype Condition =
    | OsFamily(value: string)
    | UserGroup(groups: seq<string>)
    | Compliant(required: bool)
    | DeviceType(value: string)
    | And(conditions: seq<Condition>)
    | Or(conditions: seq<Condition>)
    | Not(condition: Condition)
    | MacList(macs: seq<string>)
    | OsVersionBelow(version: string)
    | OsVersionAtLeast(version: string)
    | SoftwareInstalled(name: string)
    | SoftwareNotInstalled(name: string)
    | HasMissingPatches
    | UsbEnabled
    | BluetoothEnabled
    | FolderSharingEnabled
    | MacBlacklist(macs: seq<string>)

  datatype Rule = Rule(name: string, priority: int, condition: Condition, decision: Decision)

  /** The fields of the evaluation context that some condition reads. */
  datatype Context = Context(
    mac: string,
    osFamily: Option<string>,
    deviceType: Option<string>,
    groups: seq<string>,
    isCompliant: Option<bool>)

  const NO_MATCH := Deny("no matching policy rule")

  predicate Matches(c: Condition, ctx: Context)
  {
    match c
    case OsFamily(v) => ctx.osFamily == Some(v)
    case UserGroup(groups) => exists g | g in groups :: g in ctx.groups
    case Compliant(required) => ctx.isCompliant == Some(required)
    case DeviceType(v) => ctx.deviceType == Some(v)
    case And(cs) => forall d | d in cs :: Matches(d, ctx)
    case Or(cs) => exists d | d in cs :: Matches(d, ctx)
    case Not(d) => !Matches(d, ctx)
    case MacList(macs) => exists m | m in macs :: ToUpper(m) == ToUpper(ctx.mac)
    case MacBlacklist(macs) => exists m | m in macs :: ToUpper(m) == ToUpper(ctx.mac)
    case _ => false
  }

  // Sorting by priority. The library sort is stable: rules of equal priority keep their order.

  function Insert(r: Rule, rules: seq<Rule>): seq<Rule> {
    if rules == [] then [r]
    else if r.priority <= rules[0].priority then [r] + rules
    else [rules[0]] + Insert(r, rules[1..])
  }

  function SortByPriority(rules: seq<Rule>): (r: seq<Rule>)
    ensures |r| == |rules|
  {
    if rules == [] then []
    else
      InsertLength(rules[0], SortByPriority(rules[1..]));
      Insert(rules[0], SortByPriority(rules[1..]))
  }

  lemma InsertLength(r: Rule, rules: seq<Rule>)
    ensures |Insert(r, rules)| == |rules| + 1
  {
  }

  ghost predicate Sorted(rules: seq<Rule>)
  {
    forall i, j | 0 <= i < j < |rules| :: rules[i].priority <= rules[j].priority
  }

  lemma {:induction false} InsertSorted(r: Rule, rules: seq<Rule>)
    requires Sorted(rules)
    ensures Sorted(Insert(r, rules))
    ensures multiset(Insert(r, rules)) == multiset{r} + multiset(rules)
    ensures forall x | x in Insert(r, rules) :: x == r || x in rules
  {
    if rules != [] && r.priority > rules[0].priority {
      InsertSorted(r, rules[1..]);
      var t := Insert(r, rules[1..]);
      assert rules == [rules[0]] + rules[1..];
      forall x | x in t
        ensures rules[0].priority <= x.priority
      {
      }
    } else {
      assert Insert(r, rules) == [r] + rules;
    }
  }

  lemma {:induction false} SortSorted(rules: seq<Rule>)
    ensures Sorted(SortByPriority(rules))
    ensures multiset(SortByPriority(rules)) == multiset(rules)
  {
    if rules != [] {
      SortSorted(rules[1..]);
      InsertSorted(rules[0], SortByPriority(rules[1..]));
      assert rules == [rules[0]] + rules[1..];
    }
  }

  lemma {:induction false} SortOfSorted(rules: seq<Rule>)
    requires Sorted(rules)
    ensures SortByPriority(rules) == rules
  {
    if rules != [] {
      SortOfSorted(rules[1..]);
      assert rules == [rules[0]] + rules[1..];
    }
  }

  function FirstMatch(rules: seq<Rule>, ctx: Context): Option<Rule> {
    if rules == [] then None
    else if Matches(rules[0].condition, ctx) then Some(rules[0])
    else FirstMatch(rules[1..], ctx)
  }

  function Evaluation(rules: seq<Rule>, ctx: Context): Decision {
    match FirstMatch(SortByPriority(rules), ctx)
    case Some(r) => r.decision
    case None => NO_MATCH
  }

  /** Moves element `i` right past the smaller ones of the sorted rest. */
  method SinkIn(rules: array<Rule>, i: nat)
    requires i < rules.Length
    modifies rules
    ensures rules[..i] == old(rules[..i])
    ensures rules[i..] == Insert(old(rules[i]), old(rules[i + 1..]))
    decreases rules.Length - i
  {
    if i + 1 < rules.Length && rules[i].priority > rules[i + 1].priority {
      rules[i], rules[i + 1] := rules[i + 1], rules[i];
      assert rules[i + 2..] == old(rules[i + 2..]) == old(rules[i + 1..])[1..];
      label Swapped:
      SinkIn(rules, i + 1);
      assert rules[i] == old@Swapped(rules[i]) by { assert rules[..i + 1][i] == old@Swapped(rules[..i + 1])[i]; }
      assert rules[..i] == rules[..i + 1][..i] == old@Swapped(rules[..i + 1])[..i] == old(rules[..i]);
      assert rules[i..] == [rules[i]] + rules[i + 1..];
    } else {
      assert rules[i..] == [rules[i]] + rules[i + 1..];
    }
  }

  /** A stable sort in place. */
  method SortInPlace(rules: array<Rule>)
    modifies rules
    ensures rules[..] == SortByPriority(old(rules[..]))
  {
    var i := rules.Length;
    while i > 0
      invariant 0 <= i <= rules.Length
      invariant rules[..i] == old(rules[..])[..i]
      invariant rules[i..] == SortByPriority(old(rules[..])[i..])
    {
      i := i - 1;
      assert rules[..i + 1][i] == old(rules[..])[..i + 1][i];
      assert rules[..i] == rules[..i + 1][..i] == old(rules[..])[..i + 1][..i] == old(rules[..])[..i];
      assert old(rules[..])[i..][1..] == old(rules[..])[i + 1..];
      SinkIn(rules, i);
    }
    assert rules[..] == rules[0..] && old(rules[..])[0..] == old(rules[..]);
  }

  method Evaluate(rules: array<Rule>, ctx: Context) returns (d: Decision)
    modifies rules
    ensures d == Evaluation(old(rules[..]), ctx)
    ensures rules[..] == SortByPriority(old(rules[..]))
  {
    SortInPlace(rules);
    for i := 0 to rules.Length
      invariant FirstMatch(rules[..], ctx) == FirstMatch(rules[i..], ctx)
      invariant rules[..] == SortByPriority(old(rules[..]))
    {
      assert rules[i..][1..] == rules[i + 1..];
      if Matches(rules[i].condition, ctx) {
        return rules[i].decision;
      }
    }
    return NO_MATCH;
  }

  // What selection means, on the rules as they were given.

  /** Rule `i` matches, and every other matching rule has a larger priority value,
      or the same one and a later place. */
  ghost predicate Selected(rules: seq<Rule>, ctx: Context, i: nat)
  {
    && i < |rules|
    && Matches(rules[i].condition, ctx)
    && forall j | 0 <= j < |rules| && Matches(rules[j].condition, ctx) ::
         rules[i].priority < rules[j].priority || (rules[i].priority == rules[j].priority && i <= j)
  }

  lemma {:induction false} FirstMatchOfInsert(r: Rule, rules: seq<Rule>, ctx: Context)
    requires Sorted(rules)
    ensures FirstMatch(Insert(r, rules), ctx) ==
            var m := FirstMatch(rules, ctx);
            if Matches(r.condition, ctx) && (m.None? || r.priority <= m.value.priority) then Some(r) else m
  {
    if rules != [] {
      if r.priority <= rules[0].priority {
        assert Insert(r, rules)[1..] == rules;
        FirstMatchIn(rules, ctx);
      } else {
        assert Insert(r, rules)[1..] == Insert(r, rules[1..]);
        FirstMatchOfInsert(r, rules[1..], ctx);
      }
    }
  }

  lemma {:induction false} FirstMatchIn(rules: seq<Rule>, ctx: Context)
    ensures FirstMatch(rules, ctx).Some? ==>
              FirstMatch(rules, ctx).value in rules && Matches(FirstMatch(rules, ctx).value.condition, ctx)
    ensures FirstMatch(rules, ctx).None? <==> forall i | 0 <= i < |rules| :: !Matches(rules[i].condition, ctx)
  {
    if rules != [] {
      FirstMatchIn(rules[1..], ctx);
      assert rules == [rules[0]] + rules[1..];
      assert forall i | 0 < i < |rules| :: rules[i] == rules[1..][i - 1];
    }
  }

  lemma {:induction false} SelectionExists(rules: seq<Rule>, ctx: Context) returns (i: nat)
    ensures FirstMatch(SortByPriority(rules), ctx).None? ==>
              forall j | 0 <= j < |rules| :: !Matches(rules[j].condition, ctx)
    ensures FirstMatch(SortByPriority(rules), ctx).Some? ==>
              Selected(rules, ctx, i) && FirstMatch(SortByPriority(rules), ctx) == Some(rules[i])
  {
    i := 0;
    if rules != [] {
      var tail := rules[1..];
      var k := SelectionExists(tail, ctx);
      SortSorted(tail);
      FirstMatchOfInsert(rules[0], SortByPriority(tail), ctx);
      assert forall j | 0 < j < |rules| :: rules[j] == tail[j - 1];
      var m := FirstMatch(SortByPriority(tail), ctx);
      if !(Matches(rules[0].condition, ctx) && (m.None? || rules[0].priority <= m.value.priority)) {
        i := k + 1;
      }
    }
  }

  /** Evaluation picks the matching rule of least priority, the earliest one given among ties,
      and falls back to a denial exactly when no rule matches. */
  lemma EvaluationSelects(rules: seq<Rule>, ctx: Context)
    ensures forall i: nat | Selected(rules, ctx, i) :: Evaluation(rules, ctx) == rules[i].decision
    ensures (exists i: nat :: Selected(rules, ctx, i)) <==>
              exists j | 0 <= j < |rules| :: Matches(rules[j].condition, ctx)
    ensures (forall j | 0 <= j < |rules| :: !Matches(rules[j].condition, ctx)) ==> Evaluation(rules, ctx) == NO_MATCH
  {
    var k := SelectionExists(rules, ctx);
    SortSorted(rules);
    FirstMatchIn(SortByPriority(rules), ctx);
    forall i: nat | Selected(rules, ctx, i)
      ensures i == k && FirstMatch(SortByPriority(rules), ctx).Some?
    {
    }
  }

  /** With distinct priorities the order in which rules are given does not matter. */
  lemma EvaluationIgnoresOrder(rules: seq<Rule>, other: seq<Rule>, ctx: Context)
    requires multiset(rules) == multiset(other)
    requires forall i, j | 0 <= i < j < |rules| :: rules[i].priority != rules[j].priority
    ensures Evaluation(rules, ctx) == Evaluation(other, ctx)
  {
    EvaluationSelects(rules, ctx);
    EvaluationSelects(other, ctx);
    SameMembers(rules, other);
    if i: nat :| Selected(rules, ctx, i) {
      assert rules[i] in other;
      var j: nat :| Selected(other, ctx, j);
      assert other[j] in rules;
    } else {
      forall j | 0 <= j < |other|
        ensures !Matches(other[j].condition, ctx)
      {
        assert other[j] in rules;
      }
    }
  }

  lemma SameMembers(a: seq<Rule>, b: seq<Rule>)
    requires multiset(a) == multiset(b)
    ensures forall x :: x in a <==> x in b
  {
    assert forall x :: x in a <==> x in multiset(a);
    assert forall x :: x in b <==> x in multiset(b);
  }
}
