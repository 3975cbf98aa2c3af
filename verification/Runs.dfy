/** Runs of the policy manager: any sequence of atomic handler steps from an empty database. */
module Runs {
  import opened Common
  import opened Engine
  import opened Rows
  import opened Handlers
  import opened ArpSync

  const LIST_LIMIT := 10_000

  /** `Starting` is a start of the policy manager: the pending addresses live in its memory only. A
      reconciliation follows each start, after a delay in which other handlers may run. */
  datatype Step =
    | Detecting(detection: Detection, rules: seq<Rule>)
    | Authenticating(response: AuthResponse, rules: seq<Rule>)
    | Reporting(report: PostureReport, rules: seq<Rule>)
    | Evaluating(listed: seq<nat>, request: BulkRequest)
    | Overriding(id: nat, status: Status)
    | Assigning(id: nat, policy: Option<nat>)
    | Exempting(id: nat, exempt: bool)
    | ChangingIpRule(ip: string, action: string)
    | Reconciling(input: ReconcileInput)
    | Syncing(scan: Scan)
    | Starting

  /** The rows a listing returned: distinct, and all of them up to the limit. */
  ghost predicate Listing(listed: seq<nat>, n: nat) {
    && (forall i | 0 <= i < |listed| :: listed[i] < n)
    && Distinct(listed)
    && |listed| == if n < LIST_LIMIT then n else LIST_LIMIT
  }

  /** The query results in a step fit the tables it runs on. */
  ghost predicate Enabled(w: World, step: Step) {
    match step
    case Evaluating(listed, _) => Listing(listed, |w.endpoints|)
    case Overriding(_, st) => st != Pending
    case Reconciling(input) => Enumerates(input.reauth, |w.endpoints|) && Enumerates(input.blocked, |w.endpoints|)
    case Syncing(scan) => ValidOrder(scan)
    case _ => true
  }

  ghost function Apply(w: World, step: Step): World
    requires Enabled(w, step)
  {
    match step
    case Detecting(ev, rules) => Detect(w, ev, rules)
    case Authenticating(ev, rules) => Authenticate(w, ev, rules)
    case Reporting(report, rules) => Report(w, report, rules)
    case Evaluating(listed, req) => BulkRun(w, listed, req).world
    case Overriding(id, st) => Override(w, id, st)
    case Assigning(id, policy) => AssignPolicy(w, id, policy)
    case Exempting(id, exempt) => SetExempt(w, id, exempt)
    case ChangingIpRule(ip, action) => IpRule(w, ip, action)
    case Reconciling(input) => Reconcile(w, input)
    case Syncing(scan) => Sync(w, scan)
    case Starting => w.(pendingIp := map[])
  }

  /** Every step of the run fits the tables it finds. */
  ghost predicate Possible(w: World, steps: seq<Step>)
    decreases |steps|, 0
  {
    steps == [] ||
    (var n := |steps| - 1;
     Possible(w, steps[..n]) && Enabled(Run(w, steps[..n]), steps[n]))
  }

  ghost function Run(w: World, steps: seq<Step>): World
    requires Possible(w, steps)
    decreases |steps|, 1
  {
    if steps == [] then w
    else
      var n := |steps| - 1;
      Apply(Run(w, steps[..n]), steps[n])
  }

  lemma {:induction false} PrefixPossible(w: World, steps: seq<Step>, k: nat)
    requires Possible(w, steps) && k <= |steps|
    ensures Possible(w, steps[..k])
  {
    if k < |steps| {
      var n := |steps| - 1;
      assert steps[..n][..k] == steps[..k];
      PrefixPossible(w, steps[..n], k);
    } else {
      assert steps[..k] == steps;
    }
  }
}
