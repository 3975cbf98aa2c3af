/** The two-scan confirmation over whole runs, with every other handler in between. */
module ArpRuns {
  import opened Common
  import opened MacText
  import Engine
  import opened Rows
  import opened Handlers
  import opened ArpSync
  import opened Runs
  import opened Agreement
  import opened Bulk

  lemma StatusMacs(rows: seq<Endpoint>, id: nat, st: Status)
    requires UniqueMacs(rows)
    ensures UniqueMacs(WithStatus(rows, id, st))
  {
  }

  lemma AuthMacs(w: World, id: nat, ev: AuthResponse, rules: seq<Engine.Rule>)
    requires UniqueMacs(w.endpoints) && id < |w.endpoints|
    ensures UniqueMacs(AuthenticateRow(w, id, ev, rules).endpoints)
    ensures AuthenticateRow(w, id, ev, rules).pendingIp == w.pendingIp
  {
    var named := WithUsername(w.endpoints, id, ev.username.GetOr(""));
    FieldsWritten(w.endpoints, named);
    AuthRows(w, id, ev, rules);
    forall st: Status
      ensures UniqueMacs(WithStatus(w.endpoints, id, st)) && UniqueMacs(WithStatus(named, id, st))
    {
      StatusMacs(w.endpoints, id, st);
      StatusMacs(named, id, st);
    }
  }

  lemma AuthRows(w: World, id: nat, ev: AuthResponse, rules: seq<Engine.Rule>)
    requires id < |w.endpoints|
    ensures var rows := AuthenticateRow(w, id, ev, rules).endpoints;
            var named := WithUsername(w.endpoints, id, ev.username.GetOr(""));
            || rows == w.endpoints
            || rows == named
            || exists st :: rows == WithStatus(named, id, st) || rows == WithStatus(w.endpoints, id, st)
    ensures AuthenticateRow(w, id, ev, rules).pendingIp == w.pendingIp
  {
  }

  lemma AuthenticateMacs(w: World, ev: AuthResponse, rules: seq<Engine.Rule>)
    requires UniqueMacs(w.endpoints)
    ensures UniqueMacs(Authenticate(w, ev, rules).endpoints)
    ensures Authenticate(w, ev, rules).pendingIp == w.pendingIp
  {
    match FindTarget(w.endpoints, ev)
    case NoKey =>
    case Found(id) => AuthMacs(w, id, ev, rules);
    case Missing =>
      if ev.mac.Some? {
        var u := AuthUpsert(ev.mac.value, ev);
        UpsertKeepsVerdicts(w.endpoints, u);
        AuthMacs(w.(endpoints := Upserted(w.endpoints, u)), UpsertId(w.endpoints, u), ev, rules);
      }
  }

  ghost predicate FramedStep(w: World, w': World) {
    UniqueMacs(w'.endpoints) && w'.pendingIp == w.pendingIp
  }

  lemma ReportMacs(w: World, report: PostureReport, rules: seq<Engine.Rule>)
    requires UniqueMacs(w.endpoints)
    ensures FramedStep(w, Report(w, report, rules))
  {
  }

  lemma BulkMacs(w: World, listed: seq<nat>, req: BulkRequest)
    requires UniqueMacs(w.endpoints) && ListedIn(listed, w.endpoints) && Distinct(listed)
    ensures FramedStep(w, BulkRun(w, listed, req).world)
  {
    BulkRunMeaning(w, listed, req);
  }

  lemma SyncMacs(w: World, scan: Scan)
    requires UniqueMacs(w.endpoints) && ValidOrder(scan)
    ensures UniqueMacs(Sync(w, scan).endpoints)
  {
    SyncMeaning(w, scan);
  }

  /** Addresses' owners stay unique; only a scan adds pending addresses, and a start drops them all. */
  lemma StepFrame(w: World, step: Step)
    requires UniqueMacs(w.endpoints) && Enabled(w, step)
    ensures UniqueMacs(Apply(w, step).endpoints)
    ensures !step.Syncing? && !step.Starting? ==> FramedStep(w, Apply(w, step))
  {
    match step
    case Detecting(ev, rules) =>
      UpsertKeepsVerdicts(w.endpoints, DetectionUpsert(ev));
      DetectMacs(w, ev, rules);
    case Authenticating(ev, rules) => AuthenticateMacs(w, ev, rules);
    case Reporting(report, rules) => ReportMacs(w, report, rules);
    case Evaluating(listed, req) => BulkMacs(w, listed, req);
    case Overriding(id, st) => StatusMacs(w.endpoints, id, st);
    case Assigning(_, _) =>
    case Exempting(_, _) =>
    case ChangingIpRule(_, _) =>
    case Reconciling(_) => SameMacs(w.endpoints, Requarantined(w.endpoints), ZERO_MAC);
    case Syncing(scan) => SyncMacs(w, scan);
    case Starting =>
  }

  lemma DetectMacs(w: World, ev: Detection, rules: seq<Engine.Rule>)
    requires UniqueMacs(Upserted(w.endpoints, DetectionUpsert(ev)))
    ensures UniqueMacs(Detect(w, ev, rules).endpoints)
    ensures Detect(w, ev, rules).pendingIp == w.pendingIp
  {
    var u := DetectionUpsert(ev);
    forall st {
      StatusMacs(Upserted(w.endpoints, u), UpsertId(w.endpoints, u), st);
    }
  }

  lemma {:induction false} RunUnique(steps: seq<Step>)
    requires Possible(EMPTY_WORLD, steps)
    ensures UniqueMacs(Run(EMPTY_WORLD, steps).endpoints)
  {
    if steps != [] {
      var n := |steps| - 1;
      RunUnique(steps[..n]);
      StepFrame(Run(EMPTY_WORLD, steps[..n]), steps[n]);
    }
  }

  lemma ScanRemembers(w: World, scan: Scan, mac: string)
    requires UniqueMacs(w.endpoints) && ValidOrder(scan) && mac in Sync(w, scan).pendingIp
    ensures SawChange(w.endpoints, scan, mac, Sync(w, scan).pendingIp[mac])
  {
    SyncMeaning(w, scan);
  }

  /** The step is neither a scan nor a start. */
  predicate Between(step: Step) { !step.Syncing? && !step.Starting? }

  /** A run cut at its last scan, in the life of the process that still runs. */
  ghost predicate CutAtScan(steps: seq<Step>, before: seq<Step>, scan: Scan, since: seq<Step>) {
    steps == before + [Syncing(scan)] + since && forall t | 0 <= t < |since| :: Between(since[t])
  }

  lemma CutExtends(init: seq<Step>, step: Step, before: seq<Step>, scan: Scan, since: seq<Step>)
    requires CutAtScan(init, before, scan, since) && Between(step)
    ensures CutAtScan(init + [step], before, scan, since + [step])
  {
    assert (before + [Syncing(scan)] + since) + [step] == before + [Syncing(scan)] + (since + [step]);
  }

  /** At the end of that run the scan saw `x` for a device stored elsewhere. */
  ghost predicate SawAfter(before: seq<Step>, scan: Scan, mac: string, x: string) {
    Possible(EMPTY_WORLD, before) && SawChange(Run(EMPTY_WORLD, before).endpoints, scan, mac, x)
  }

  /** Where a pending address comes from in one step: the scan itself, or an earlier one. */
  lemma PendingStep(w: World, step: Step, mac: string)
    requires UniqueMacs(w.endpoints) && Enabled(w, step) && mac in Apply(w, step).pendingIp
    ensures if step.Syncing? then SawChange(w.endpoints, step.scan, mac, Apply(w, step).pendingIp[mac])
            else Between(step) && Apply(w, step).pendingIp == w.pendingIp
  {
    StepFrame(w, step);
    if step.Syncing? {
      ScanRemembers(w, step.scan, mac);
    }
  }

  ghost predicate PendingAt(steps: seq<Step>, mac: string, x: string) {
    && Possible(EMPTY_WORLD, steps)
    && mac in Run(EMPTY_WORLD, steps).pendingIp && Run(EMPTY_WORLD, steps).pendingIp[mac] == x
  }

  lemma PendingLast(init: seq<Step>, step: Step, mac: string, x: string)
    requires PendingAt(init + [step], mac, x)
    ensures if step.Syncing? then SawAfter(init, step.scan, mac, x) else Between(step) && PendingAt(init, mac, x)
  {
    var steps := init + [step];
    assert steps[..|init|] == init;
    RunUnique(init);
    PendingStep(Run(EMPTY_WORLD, init), step, mac);
  }

  /** A pending address was put there by the last scan of the run, which saw the change. */
  lemma {:induction false} PendingSource(steps: seq<Step>, mac: string, x: string)
    returns (before: seq<Step>, scan: Scan, since: seq<Step>)
    requires PendingAt(steps, mac, x)
    ensures CutAtScan(steps, before, scan, since)
    ensures SawAfter(before, scan, mac, x)
  {
    before, since := [], [];
    if steps == [] {
      assert false;
    } else {
      var init, step := steps[..|steps| - 1], steps[|steps| - 1];
      assert steps == init + [step];
      PendingLast(init, step, mac, x);
      if step.Syncing? {
        before, scan := init, step.scan;
      } else {
        before, scan, since := PendingSource(init, mac, x);
        CutExtends(init, step, before, scan, since);
        since := since + [step];
      }
    }
  }

  /** In any run, if a scan rewrites the address of a row, then the scan before it saw the same
      change: both chose the same address for that device, it was stored at neither, and it was a
      gateway at neither, and the process was not started in between. So a device whose address
      differs at every scan is never rewritten. */
  lemma RewriteNeedsTwoScans(steps: seq<Step>, scan: Scan, i: nat)
    returns (before: seq<Step>, earlier: Scan, since: seq<Step>, x: string)
    requires Possible(EMPTY_WORLD, steps) && ValidOrder(scan)
    requires i < |Run(EMPTY_WORLD, steps).endpoints|
    requires Sync(Run(EMPTY_WORLD, steps), scan).endpoints[i] != Run(EMPTY_WORLD, steps).endpoints[i]
    ensures CutAtScan(steps, before, earlier, since)
    ensures SawAfter(before, earlier, Text(Run(EMPTY_WORLD, steps).endpoints[i].mac), x)
    ensures var w := Run(EMPTY_WORLD, steps);
            && SawChange(w.endpoints, scan, Text(w.endpoints[i].mac), x)
            && Sync(w, scan).endpoints[i] == w.endpoints[i].(ip := Some(InetText(x)))
  {
    var w := Run(EMPTY_WORLD, steps);
    RunUnique(steps);
    SyncMeaning(w, scan);
    var mac := Text(w.endpoints[i].mac);
    assert Confirmed(w, scan, mac);
    x := Chosen(scan.lines)[mac];
    assert mac in w.pendingIp && w.pendingIp[mac] == x;
    before, earlier, since := PendingSource(steps, mac, x);
  }
}
