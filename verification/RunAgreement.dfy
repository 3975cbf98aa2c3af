/** Log and table agree in every run of handler steps. */
module RunAgreement {
  import opened Common
  import opened MacText
  import opened Engine
  import opened Rows
  import opened Policies
  import opened BulkRules
  import opened Handlers
  import opened ArpSync
  import opened Actions
  import opened Runs
  import opened RunLog
  import opened ArpRuns
  import opened Agreement
  import opened Bulk

  lemma RowCommandCorrect(rows: seq<Endpoint>, id: nat)
    requires UniqueMacs(rows) && id < |rows| && Restricted(rows[id].status)
    ensures CorrectOne(RowCommand(rows, id), rows)
  {
    FoundAt(rows, id);
    WordEffects(rows[id].status);
    assert RowCommand(rows, id).mac == Text(rows[id].mac);
  }

  lemma {:induction false} IpRuleCommandsZero(rules: seq<(string, string)>, rows: seq<Endpoint>)
    ensures Correct(IpRuleCommands(rules), rows)
  {
    if rules != [] {
      IpRuleCommandsZero(rules[..|rules| - 1], rows);
    }
  }

  lemma RowCommandsCorrect(rows: seq<Endpoint>, ids: seq<nat>)
    requires UniqueMacs(rows)
    requires forall i | 0 <= i < |ids| :: ids[i] < |rows| && Restricted(rows[ids[i]].status)
    ensures Correct(RowCommands(rows, ids), rows)
  {
    forall i | 0 <= i < |ids|
      ensures CorrectOne(RowCommands(rows, ids)[i], rows)
    {
      RowCommandCorrect(rows, ids[i]);
    }
  }

  lemma CorrectConcat(a: seq<Command>, b: seq<Command>, rows: seq<Endpoint>)
    requires Correct(a, rows) && Correct(b, rows)
    ensures Correct(a + b, rows)
  {
  }

  /** Every re-quarantined row has a command among those of `ids`. */
  lemma ReauthCovered(rows: seq<Endpoint>, order: seq<nat>, m: Mac)
    requires UniqueMacs(rows) && Enumerates(order, |rows|)
    requires RowVerdict(Requarantined(rows), m) != RowVerdict(rows, m)
    ensures LastFor(RowCommands(Requarantined(rows), SelectReauth(rows, order)), Text(m)).Some?
  {
    var rows' := Requarantined(rows);
    var reauth := SelectReauth(rows, order);
    SameMacs(rows, rows', m);
    var id := FindMac(rows, m).value;
    SelectReauthIn(rows, order);
    var k :| 0 <= k < |reauth| && reauth[k] == id;
    var cmds := RowCommands(rows', reauth);
    assert cmds[k] == RowCommand(rows', id);
    LastForIn(cmds, Text(m));
  }

  function ReconcileCommands(w: World, input: ReconcileInput): seq<Command> {
    var rows := Requarantined(w.endpoints);
    RowCommands(rows, SelectReauth(w.endpoints, input.reauth))
    + RowCommands(rows, SelectRestricted(rows, input.blocked))
    + IpRuleCommands(input.ipRules)
  }

  lemma ReconcileCommandsCorrect(w: World, input: ReconcileInput)
    requires UniqueMacs(w.endpoints)
    ensures Correct(ReconcileCommands(w, input), Requarantined(w.endpoints))
  {
    var rows := Requarantined(w.endpoints);
    SameMacs(w.endpoints, rows, ZERO_MAC);
    var reauth, blocked := SelectReauth(w.endpoints, input.reauth), SelectRestricted(rows, input.blocked);
    RowCommandsCorrect(rows, reauth);
    RowCommandsCorrect(rows, blocked);
    IpRuleCommandsZero(input.ipRules, rows);
    CorrectConcat(RowCommands(rows, reauth), RowCommands(rows, blocked), rows);
    CorrectConcat(RowCommands(rows, reauth) + RowCommands(rows, blocked), IpRuleCommands(input.ipRules), rows);
  }

  lemma ReconcileCommandsCover(w: World, input: ReconcileInput, m: Mac)
    requires UniqueMacs(w.endpoints) && Enumerates(input.reauth, |w.endpoints|)
    requires RowVerdict(Requarantined(w.endpoints), m) != RowVerdict(w.endpoints, m)
    ensures LastFor(ReconcileCommands(w, input), Text(m)).Some?
  {
    var rows := Requarantined(w.endpoints);
    var first := RowCommands(rows, SelectReauth(w.endpoints, input.reauth));
    var second := RowCommands(rows, SelectRestricted(rows, input.blocked));
    ReauthCovered(w.endpoints, input.reauth, m);
    LastForConcat(first, second, Text(m));
    LastForConcat(first + second, IpRuleCommands(input.ipRules), Text(m));
  }

  lemma ReconcileAgrees(w: World, input: ReconcileInput)
    requires Consistent(w) && Enumerates(input.reauth, |w.endpoints|)
    ensures Consistent(Reconcile(w, input))
  {
    var w' := Reconcile(w, input);
    var cmds := ReconcileCommands(w, input);
    assert w'.log == w.log + cmds;
    SameMacs(w.endpoints, w'.endpoints, ZERO_MAC);
    ReconcileCommandsCorrect(w, input);
    forall m: Mac | m != ZERO_MAC && RowVerdict(w'.endpoints, m) != RowVerdict(w.endpoints, m)
      ensures LastFor(cmds, Text(m)).Some?
    {
      ReconcileCommandsCover(w, input, m);
    }
    StepAgrees(w, w', cmds);
  }

  lemma ResendCorrect(w: World, scan: Scan, mac: string, c: Command)
    requires UniqueMacs(w.endpoints) && c in ResendOf(w, scan, mac)
    ensures CorrectOne(c, w.endpoints)
  {
    var i := FindText(w.endpoints, mac).value;
    FoundAt(w.endpoints, i);
    WordEffects(w.endpoints[i].status);
    assert c.mac == Text(w.endpoints[i].mac);
  }

  lemma ResendsCorrect(w: World, scan: Scan, order: seq<string>)
    requires UniqueMacs(w.endpoints)
    ensures Correct(Resends(w, scan, order), w.endpoints)
  {
    var cmds := Resends(w, scan, order);
    ResendsOf(w, scan, order);
    forall k | 0 <= k < |cmds|
      ensures CorrectOne(cmds[k], w.endpoints)
    {
      assert cmds[k] in cmds;
      var mac :| mac in order && cmds[k] in ResendOf(w, scan, mac);
      ResendCorrect(w, scan, mac, cmds[k]);
    }
  }

  lemma SyncAgrees(w: World, scan: Scan)
    requires Consistent(w) && ValidOrder(scan)
    ensures Consistent(Sync(w, scan))
  {
    var w' := Sync(w, scan);
    SyncMeaning(w, scan);
    FieldsWritten(w.endpoints, w'.endpoints);
    ResendsCorrect(w, scan, scan.order);
    SyncStep(w, w', Resends(w, scan, scan.order));
  }

  lemma SyncStep(w: World, w': World, cmds: seq<Command>)
    requires Agree(w) && w'.log == w.log + cmds && Correct(cmds, w.endpoints)
    requires SameVerdicts(w.endpoints, w'.endpoints)
    ensures Agree(w')
  {
    forall i | 0 <= i < |cmds|
      ensures CorrectOne(cmds[i], w'.endpoints)
    {
      assert CorrectOne(cmds[i], w.endpoints);
    }
    StepAgrees(w, w', cmds);
  }

  /** The bulk default is one that keeps the agreement. */
  predicate Documented(step: Step) {
    step.Evaluating? ==> step.request.defaultAction != Some("pending")
  }

  lemma ApplyAgrees(w: World, step: Step)
    requires Consistent(w) && Enabled(w, step) && Documented(step)
    ensures Consistent(Apply(w, step))
  {
    match step
    case Detecting(ev, rules) => DetectAgrees(w, ev, rules);
    case Authenticating(ev, rules) => AuthAgrees(w, ev, rules);
    case Reporting(report, rules) => ReportAgrees(w, report, rules);
    case Evaluating(listed, req) => BulkKeepsAgreement(w, listed, req);
    case Overriding(id, st) => OverrideAgrees(w, id, st);
    case Assigning(id, policy) => FieldsWritten(w.endpoints, Apply(w, step).endpoints);
    case Exempting(id, exempt) => FieldsWritten(w.endpoints, Apply(w, step).endpoints);
    case ChangingIpRule(ip, action) => IpRuleAgrees(w, ip, action);
    case Reconciling(input) => ReconcileAgrees(w, input);
    case Syncing(scan) => SyncAgrees(w, scan);
    case Starting =>
  }

  /** In every run from an empty database, the last command about a device asks for exactly what
      its row says; a device without a row, or with a pending one, is left free. */
  lemma {:induction false} RunAgrees(steps: seq<Step>)
    requires Possible(EMPTY_WORLD, steps)
    requires forall i | 0 <= i < |steps| :: Documented(steps[i])
    ensures Consistent(Run(EMPTY_WORLD, steps))
  {
    if steps == [] {
      assert forall m: Mac :: LogVerdict([], Text(m)) == RowVerdict([], m);
    } else {
      var n := |steps| - 1;
      RunAgrees(steps[..n]);
      ApplyAgrees(Run(EMPTY_WORLD, steps[..n]), steps[n]);
    }
  }

  // ── Any bulk default, device by device ──

  /** A bulk run whose default action writes "pending" to the row of the device. */
  ghost predicate WritesPending(w: World, step: Step, m: Mac) {
    && step.Evaluating?
    && FindMac(w.endpoints, m).Some?
    && var id := FindMac(w.endpoints, m).value;
       id in step.listed && PendingWrite(w.endpoints[id], step.request)
  }

  /** The last of some change commands about a device: that of its row, if it is listed and changed. */
  ghost predicate ChangeSaid(last: Option<Command>, rows: seq<Endpoint>, rows': seq<Endpoint>, listed: seq<nat>, m: Mac)
    requires |rows'| == |rows|
  {
    var found := FindMac(rows, m);
    && (last.Some? <==> found.Some? && found.value in listed && rows'[found.value].status != rows[found.value].status)
    && (last.Some? ==> last.value.action == StatusText(rows'[found.value].status))
  }

  lemma ChangeOfOne(rows: seq<Endpoint>, rows': seq<Endpoint>, id: nat, m: Mac)
    requires UniqueMacs(rows) && |rows'| == |rows| && id < |rows|
    ensures ChangeSaid(LastFor(ChangeOf(rows[id], rows'[id].status), Text(m)), rows, rows', [id], m)
  {
    TextInjective(rows[id].mac, m);
    FoundAt(rows, id);
  }

  lemma {:induction false} ChangeFor(rows: seq<Endpoint>, rows': seq<Endpoint>, listed: seq<nat>, m: Mac)
    requires UniqueMacs(rows) && |rows'| == |rows| && ListedIn(listed, rows)
    ensures ChangeSaid(LastFor(ChangeCommands(rows, rows', listed), Text(m)), rows, rows', listed, m)
  {
    if listed != [] {
      var init, id := listed[..|listed| - 1], listed[|listed| - 1];
      ChangeFor(rows, rows', init, m);
      ChangeOfOne(rows, rows', id, m);
      LastForConcat(ChangeCommands(rows, rows', init), ChangeOf(rows[id], rows'[id].status), Text(m));
      assert forall i :: i in listed <==> i in init || i == id;
    }
  }

  /** A run with that default settles every listed row, and says so of each row it changes. */
  lemma PendingRun(w: World, listed: seq<nat>, req: BulkRequest, id: nat)
    requires ListedIn(listed, w.endpoints) && Distinct(listed) && req.defaultAction == Some("pending")
    ensures var s := BulkRun(w, listed, req);
            && |s.world.endpoints| == |w.endpoints|
            && (forall i | 0 <= i < |w.endpoints| :: s.world.endpoints[i].mac == w.endpoints[i].mac)
            && s.world.log == w.log + ChangeCommands(w.endpoints, s.world.endpoints, listed)
            && (id < |w.endpoints| ==>
                 s.world.endpoints[id].status ==
                 if id in listed then Settled(w.endpoints[id], req) else w.endpoints[id].status)
  {
    BulkRunMeaning(w, listed, req);
    forall e: Endpoint
      ensures !Refused(e, req)
    {
      SettledPending(e, req);
    }
  }

  /** What a step says of a device against what it makes of its row: nothing when the verdict stays,
      the new verdict, or `Held` when it writes "pending". */
  ghost predicate Word(last: Option<Command>, before: Verdict, pending: bool, now: Verdict) {
    match last
    case None => now == before
    case Some(c) => if pending then Effect(c.action) == Held && now == Free else Effect(c.action) == now
  }

  lemma SettledWord(last: Option<Command>, rows: seq<Endpoint>, rows': seq<Endpoint>, listed: seq<nat>,
                    req: BulkRequest, m: Mac)
    requires UniqueMacs(rows) && |rows'| == |rows|
    requires forall i | 0 <= i < |rows| :: rows'[i].mac == rows[i].mac
    requires ChangeSaid(last, rows, rows', listed, m)
    requires var found := FindMac(rows, m);
             found.Some? ==>
               rows'[found.value].status ==
               if found.value in listed then Settled(rows[found.value], req) else rows[found.value].status
    ensures var found := FindMac(rows, m);
            Word(last, RowVerdict(rows, m),
                 found.Some? && found.value in listed && PendingWrite(rows[found.value], req), RowVerdict(rows', m))
  {
    var found := FindMac(rows, m);
    SameMacs(rows, rows', m);
    if found.Some? {
      SettledPending(rows[found.value], req);
      WordEffects(rows'[found.value].status);
    }
  }

  lemma PendingWord(w: World, listed: seq<nat>, req: BulkRequest, m: Mac)
    requires UniqueMacs(w.endpoints) && ListedIn(listed, w.endpoints) && Distinct(listed) && w.log == []
    requires req.defaultAction == Some("pending")
    ensures var s, found := BulkRun(w, listed, req).world, FindMac(w.endpoints, m);
            Word(LastFor(s.log, Text(m)), RowVerdict(w.endpoints, m),
                 found.Some? && found.value in listed && PendingWrite(w.endpoints[found.value], req),
                 RowVerdict(s.endpoints, m))
  {
    var s, found := BulkRun(w, listed, req).world, FindMac(w.endpoints, m);
    PendingRun(w, listed, req, found.GetOr(0));
    assert s.log == ChangeCommands(w.endpoints, s.endpoints, listed);
    ChangeFor(w.endpoints, s.endpoints, listed, m);
    SettledWord(LastFor(s.log, Text(m)), w.endpoints, s.endpoints, listed, req, m);
  }

  lemma RestatedConsistent(w: World)
    requires UniqueMacs(w.endpoints)
    ensures Consistent(w.(log := Restated(w.endpoints)))
    ensures forall m: Mac :: LogVerdict(Restated(w.endpoints), Text(m)) == RowVerdict(w.endpoints, m)
  {
    forall m: Mac
      ensures LogVerdict(Restated(w.endpoints), Text(m)) == RowVerdict(w.endpoints, m)
    {
      RestatedLast(w.endpoints, m);
      if FindMac(w.endpoints, m).Some? {
        WordEffects(w.endpoints[FindMac(w.endpoints, m).value].status);
      }
    }
  }

  lemma StepWord(w: World, step: Step, m: Mac)
    requires UniqueMacs(w.endpoints) && Enabled(w, step) && m != ZERO_MAC
    ensures Word(LastFor(Published(w, step), Text(m)), RowVerdict(w.endpoints, m), WritesPending(w, step, m),
                 RowVerdict(Apply(w, step).endpoints, m))
  {
    LogIsUnread(w, step, []);
    if Documented(step) {
      var log := Restated(w.endpoints);
      RestatedConsistent(w);
      LogIsUnread(w, step, log);
      ApplyAgrees(w.(log := log), step);
      LastForConcat(log, Published(w, step), Text(m));
    } else {
      PendingWord(w.(log := []), step.listed, step.request, m);
    }
  }

  /** The last step that published about the device did not write a default of "pending" to its row. */
  ghost predicate LastDocumented(steps: seq<Step>, m: Mac)
    requires Possible(EMPTY_WORLD, steps)
  {
    steps == [] ||
    var n := |steps| - 1;
    var before := Run(EMPTY_WORLD, steps[..n]);
    if LastFor(Published(before, steps[n]), Text(m)).Some? then !WritesPending(before, steps[n], m)
    else LastDocumented(steps[..n], m)
  }

  ghost predicate SaysRow(w: World, m: Mac) { LogVerdict(w.log, Text(m)) == RowVerdict(w.endpoints, m) }

  /** In every run from an empty database, with any bulk defaults, the last command about a device
      asks for what its row says exactly when the step it came from wrote no pending default there;
      otherwise it asks to quarantine a device whose row leaves it free. */
  lemma {:induction false} RunAgreesExactly(steps: seq<Step>, m: Mac)
    requires Possible(EMPTY_WORLD, steps) && m != ZERO_MAC
    ensures var w := Run(EMPTY_WORLD, steps);
            && (SaysRow(w, m) <==> LastDocumented(steps, m))
            && (!SaysRow(w, m) ==> LogVerdict(w.log, Text(m)) == Held && RowVerdict(w.endpoints, m) == Free)
  {
    if steps != [] {
      var n := |steps| - 1;
      var before := Run(EMPTY_WORLD, steps[..n]);
      RunAgreesExactly(steps[..n], m);
      RunUnique(steps[..n]);
      StepWord(before, steps[n], m);
      LogIsUnread(before, steps[n], before.log);
      assert before.(log := before.log) == before;
      LastForConcat(before.log, Published(before, steps[n]), Text(m));
    }
  }

  // ── Every command names a device in the database's text form ──

  ghost predicate Named(log: seq<Command>) {
    forall i | 0 <= i < |log| :: IsDevice(log[i].mac)
  }

  lemma NamedRows(log: seq<Command>, rows: seq<Endpoint>, ids: seq<nat>)
    requires Named(log) && forall i | 0 <= i < |ids| :: ids[i] < |rows|
    ensures Named(log + RowCommands(rows, ids))
  {
    forall i | 0 <= i < |ids|
      ensures IsDevice(RowCommands(rows, ids)[i].mac)
    {
      TextIsCanonical(rows[ids[i]].mac);
    }
  }

  lemma {:induction false} ZeroCommands(rules: seq<(string, string)>)
    ensures forall i | 0 <= i < |IpRuleCommands(rules)| :: IpRuleCommands(rules)[i].mac == Text(ZERO_MAC)
  {
    if rules != [] {
      ZeroCommands(rules[..|rules| - 1]);
    }
  }

  lemma NamedRules(rules: seq<(string, string)>)
    ensures Named(IpRuleCommands(rules))
  {
    ZeroCommands(rules);
    TextIsCanonical(ZERO_MAC);
  }

  lemma {:induction false} NamedBulk(w: World, listed: seq<nat>, req: BulkRequest)
    requires Named(w.log) && ListedIn(listed, w.endpoints)
    ensures Named(BulkRun(w, listed, req).world.log)
  {
    if listed != [] {
      var n := |listed| - 1;
      NamedBulk(w, listed[..n], req);
      TextIsCanonical(w.endpoints[listed[n]].mac);
    }
  }

  lemma NamedResent(log: seq<Command>, rows: seq<Endpoint>, mac: Mac, ip: string)
    requires Named(log)
    ensures Named(log + ResentCommands(rows, mac, ip))
  {
    TextIsCanonical(mac);
  }

  lemma {:induction false} NamedSync(w: World, before: seq<Endpoint>, gateways: set<string>,
                                     arp: map<string, string>, order: seq<string>)
    requires Named(w.log) && forall i | 0 <= i < |order| :: order[i] in arp
    ensures Named(VisitAll(w, before, gateways, arp, order).log)
  {
    if order != [] {
      var n := |order| - 1;
      NamedSync(w, before, gateways, arp, order[..n]);
      var v := VisitAll(w, before, gateways, arp, order[..n]);
      if OutcomeOf(before, v.pendingIp, gateways, order[n], arp[order[n]]) == Confirm {
        var m := before[FindText(before, order[n]).value].mac;
        NamedResent(v.log, WithIp(v.endpoints, m, arp[order[n]]), m, arp[order[n]]);
      }
    }
  }

  lemma NamedFor(log: seq<Command>, mac: Mac, ip: string, st: Status)
    requires Named(log)
    ensures Named(log + CommandFor(mac, ip, st))
  {
    TextIsCanonical(mac);
  }

  lemma NamedOne(log: seq<Command>, mac: Mac, ip: string, action: string)
    requires Named(log)
    ensures Named(log + [MakeCommand(mac, ip, action)])
  {
    TextIsCanonical(mac);
  }

  lemma NamedDetect(w: World, ev: Detection, rules: seq<Rule>)
    requires Named(w.log)
    ensures Named(Detect(w, ev, rules).log)
  {
    if rules != [] {
      var u := DetectionUpsert(ev);
      var row := Upserted(w.endpoints, u)[UpsertId(w.endpoints, u)];
      NamedFor(w.log, row.mac, HostIp(row.ip).GetOr(""), DecisionStatus(Evaluation(rules, DetectionContext(row))));
      NamedFor(w.log, row.mac, HostIp(row.ip).GetOr(""), row.status);
    }
  }

  lemma NamedAuth(w: World, id: nat, ev: AuthResponse, rules: seq<Rule>)
    requires Named(w.log) && id < |w.endpoints|
    ensures Named(AuthenticateRow(w, id, ev, rules).log)
  {
    if ev.success && rules != [] {
      var row := w.endpoints[id];
      NamedFor(w.log, row.mac, row.ip.GetOr(""),
               DecisionStatus(Evaluation(rules, AuthContext(row, ev.groups))));
    }
  }

  lemma NamedReport(w: World, report: PostureReport, rules: seq<Rule>)
    requires Named(w.log)
    ensures Named(Report(w, report, rules).log)
  {
    if FindMac(w.endpoints, report.mac).Some? && rules != [] {
      var row := w.endpoints[FindMac(w.endpoints, report.mac).value];
      NamedOne(w.log, row.mac, row.ip.GetOr(""),
               StatusText(DecisionStatus(Evaluation(rules, PostureContext(row, report)))));
    }
  }

  lemma NamedReconcile(w: World, input: ReconcileInput)
    requires Named(w.log)
    ensures Named(Reconcile(w, input).log)
  {
    var rows := Requarantined(w.endpoints);
    var reauth, blocked := SelectReauth(w.endpoints, input.reauth), SelectRestricted(rows, input.blocked);
    NamedRows(w.log, rows, reauth);
    NamedRows(w.log + RowCommands(rows, reauth), rows, blocked);
    NamedRules(input.ipRules);
    NamedConcat(w.log + RowCommands(rows, reauth) + RowCommands(rows, blocked), IpRuleCommands(input.ipRules));
  }

  lemma NamedConcat(a: seq<Command>, b: seq<Command>)
    requires Named(a) && Named(b)
    ensures Named(a + b)
  {
  }

  lemma NamedAuthentication(w: World, ev: AuthResponse, rules: seq<Rule>)
    requires Named(w.log)
    ensures Named(Authenticate(w, ev, rules).log)
  {
    match FindTarget(w.endpoints, ev)
    case NoKey =>
    case Found(id) => NamedAuth(w, id, ev, rules);
    case Missing =>
      if ev.mac.Some? {
        var u := AuthUpsert(ev.mac.value, ev);
        NamedAuth(w.(endpoints := Upserted(w.endpoints, u)), UpsertId(w.endpoints, u), ev, rules);
      }
  }

  lemma StepNamed(w: World, step: Step)
    requires Named(w.log) && Enabled(w, step)
    ensures Named(Apply(w, step).log)
  {
    match step
    case Detecting(ev, rules) => NamedDetect(w, ev, rules);
    case Authenticating(ev, rules) => NamedAuthentication(w, ev, rules);
    case Reporting(report, rules) => NamedReport(w, report, rules);
    case Evaluating(listed, req) => NamedBulk(w, listed, req);
    case Overriding(id, st) =>
      if id < |w.endpoints| {
        NamedOne(w.log, w.endpoints[id].mac, HostIp(w.endpoints[id].ip).GetOr(""), StatusText(st));
      }
    case Assigning(_, _) =>
    case Exempting(_, _) =>
    case ChangingIpRule(ip, action) => NamedOne(w.log, ZERO_MAC, StripCidr(ip), action);
    case Reconciling(input) => NamedReconcile(w, input);
    case Syncing(scan) =>
      var arp := Chosen(scan.lines);
      NamedSync(w.(pendingIp := Retained(w.pendingIp, arp)), w.endpoints, scan.gateways, arp, scan.order);
    case Starting =>
  }

  lemma {:induction false} RunNamed(steps: seq<Step>)
    requires Possible(EMPTY_WORLD, steps)
    ensures Named(Run(EMPTY_WORLD, steps).log)
  {
    if steps != [] {
      var n := |steps| - 1;
      RunNamed(steps[..n]);
      StepNamed(Run(EMPTY_WORLD, steps[..n]), steps[n]);
    }
  }
}
