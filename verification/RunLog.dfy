/** What a step publishes. No handler reads the command log, so it publishes the same behind any log. */
module RunLog {
  import opened Common
  import opened MacText
  import opened Engine
  import opened Rows
  import opened Policies
  import opened BulkRules
  import opened Handlers
  import opened ArpSync
  import opened Runs
  import opened Agreement

  /** The commands a step adds to the log. */
  ghost function Published(w: World, step: Step): seq<Command>
    requires Enabled(w, step)
  {
    Apply(w.(log := []), step).log
  }

  /** The same world with more commands before its own. */
  function Behind(log: seq<Command>, w: World): World { w.(log := log + w.log) }

  lemma DetectBehind(log: seq<Command>, w: World, ev: Detection, rules: seq<Rule>)
    ensures Detect(Behind(log, w), ev, rules) == Behind(log, Detect(w, ev, rules))
  {
    var u := DetectionUpsert(ev);
    var row := Upserted(w.endpoints, u)[UpsertId(w.endpoints, u)];
    Associates(log, w.log, CommandFor(row.mac, HostIp(row.ip).GetOr(""),
                                      DecisionStatus(Evaluation(rules, DetectionContext(row)))));
    Associates(log, w.log, CommandFor(row.mac, HostIp(row.ip).GetOr(""), row.status));
  }

  lemma AuthRowBehind(log: seq<Command>, w: World, id: nat, ev: AuthResponse, rules: seq<Rule>)
    requires id < |w.endpoints|
    ensures AuthenticateRow(Behind(log, w), id, ev, rules) == Behind(log, AuthenticateRow(w, id, ev, rules))
  {
    var row := w.endpoints[id];
    var st := DecisionStatus(Evaluation(rules, AuthContext(row, ev.groups)));
    Associates(log, w.log, CommandFor(row.mac, row.ip.GetOr(""), st));
  }

  lemma AuthBehind(log: seq<Command>, w: World, ev: AuthResponse, rules: seq<Rule>)
    ensures Authenticate(Behind(log, w), ev, rules) == Behind(log, Authenticate(w, ev, rules))
  {
    match FindTarget(w.endpoints, ev)
    case NoKey =>
    case Found(id) => AuthRowBehind(log, w, id, ev, rules);
    case Missing =>
      if ev.mac.Some? {
        var u := AuthUpsert(ev.mac.value, ev);
        AuthRowBehind(log, w.(endpoints := Upserted(w.endpoints, u)), UpsertId(w.endpoints, u), ev, rules);
      }
  }

  lemma ReportBehind(log: seq<Command>, w: World, report: PostureReport, rules: seq<Rule>)
    ensures Report(Behind(log, w), report, rules) == Behind(log, Report(w, report, rules))
  {
    if FindMac(w.endpoints, report.mac).Some? {
      var row := w.endpoints[FindMac(w.endpoints, report.mac).value];
      var st := DecisionStatus(Evaluation(rules, PostureContext(row, report)));
      Associates(log, w.log, [MakeCommand(row.mac, row.ip.GetOr(""), StatusText(st))]);
    }
  }

  lemma {:induction false} BulkBehind(log: seq<Command>, w: World, listed: seq<nat>, req: BulkRequest)
    requires forall i | 0 <= i < |listed| :: listed[i] < |w.endpoints|
    ensures var s := BulkRun(w, listed, req);
            BulkRun(Behind(log, w), listed, req) == s.(world := Behind(log, s.world))
  {
    if listed != [] {
      var init, id := listed[..|listed| - 1], listed[|listed| - 1];
      BulkBehind(log, w, init, req);
      VisitBehind(log, BulkRun(w, init, req), w.endpoints[id], id, req);
    }
  }

  lemma VisitBehind(log: seq<Command>, s: BulkState, row: Endpoint, id: nat, req: BulkRequest)
    ensures var s' := BulkVisit(s, row, id, req);
            BulkVisit(s.(world := Behind(log, s.world)), row, id, req) == s'.(world := Behind(log, s'.world))
  {
    if EffectiveText(row, req).Some? {
      Associates(log, s.world.log, [MakeCommand(row.mac, row.ip.GetOr(""), EffectiveText(row, req).value)]);
    }
  }

  lemma ReconcileBehind(log: seq<Command>, w: World, input: ReconcileInput)
    ensures Reconcile(Behind(log, w), input) == Behind(log, Reconcile(w, input))
  {
    var rows := Requarantined(w.endpoints);
    var first := RowCommands(rows, SelectReauth(w.endpoints, input.reauth));
    var second := RowCommands(rows, SelectRestricted(rows, input.blocked));
    Associates(log, w.log, first);
    Associates(log, w.log + first, second);
    Associates(log, w.log + first + second, IpRuleCommands(input.ipRules));
  }

  lemma DeviceBehind(log: seq<Command>, w: World, before: seq<Endpoint>, gateways: set<string>, mac: string, ip: string)
    ensures VisitDevice(Behind(log, w), before, gateways, mac, ip) ==
            Behind(log, VisitDevice(w, before, gateways, mac, ip))
  {
    if OutcomeOf(before, w.pendingIp, gateways, mac, ip) == Confirm {
      var m := before[FindText(before, mac).value].mac;
      Associates(log, w.log, ResentCommands(WithIp(w.endpoints, m, ip), m, ip));
    }
  }

  lemma {:induction false} VisitAllBehind(log: seq<Command>, w: World, before: seq<Endpoint>, gateways: set<string>,
                                          arp: map<string, string>, order: seq<string>)
    requires forall i | 0 <= i < |order| :: order[i] in arp
    ensures VisitAll(Behind(log, w), before, gateways, arp, order) ==
            Behind(log, VisitAll(w, before, gateways, arp, order))
  {
    if order != [] {
      var init, mac := order[..|order| - 1], order[|order| - 1];
      VisitAllBehind(log, w, before, gateways, arp, init);
      DeviceBehind(log, VisitAll(w, before, gateways, arp, init), before, gateways, mac, arp[mac]);
    }
  }

  lemma ApplyBehind(log: seq<Command>, w: World, step: Step)
    requires Enabled(w, step)
    ensures Enabled(Behind(log, w), step)
    ensures Apply(Behind(log, w), step) == Behind(log, Apply(w, step))
  {
    match step
    case Detecting(ev, rules) => DetectBehind(log, w, ev, rules);
    case Authenticating(ev, rules) => AuthBehind(log, w, ev, rules);
    case Reporting(report, rules) => ReportBehind(log, w, report, rules);
    case Evaluating(listed, req) => BulkBehind(log, w, listed, req);
    case Overriding(id, st) =>
      if id < |w.endpoints| {
        var row := w.endpoints[id];
        Associates(log, w.log, [MakeCommand(row.mac, HostIp(row.ip).GetOr(""), StatusText(st))]);
      }
    case Assigning(_, _) =>
    case Exempting(_, _) =>
    case ChangingIpRule(ip, action) => Associates(log, w.log, [MakeCommand(ZERO_MAC, StripCidr(ip), action)]);
    case Reconciling(input) => ReconcileBehind(log, w, input);
    case Syncing(scan) =>
      var arp := Chosen(scan.lines);
      VisitAllBehind(log, w.(pendingIp := Retained(w.pendingIp, arp)), w.endpoints, scan.gateways, arp, scan.order);
    case Starting =>
  }

  /** A step does the same to the tables whatever the log says, and adds the same commands to it. */
  lemma LogIsUnread(w: World, step: Step, log: seq<Command>)
    requires Enabled(w, step)
    ensures Enabled(w.(log := log), step)
    ensures Apply(w.(log := log), step) == Apply(w, step).(log := log + Published(w, step))
  {
    var bare := w.(log := []);
    ApplyBehind(log, bare, step);
    ApplyBehind(w.log, bare, step);
    assert log + [] == log && w.log + [] == w.log;
    assert Behind(log, bare) == w.(log := log) && Behind(w.log, bare) == w;
  }

  /** A log that says of every restricted row, and of nothing else, what is stored. */
  function Restated(rows: seq<Endpoint>): seq<Command> {
    RowCommands(rows, SelectRestricted(rows, seq(|rows|, i => i)))
  }

  lemma RestatedHas(rows: seq<Endpoint>, i: nat)
    requires i < |rows| && Restricted(rows[i].status)
    ensures RowCommand(rows, i) in Restated(rows)
  {
    var all := seq(|rows|, i => i);
    var ids := SelectRestricted(rows, all);
    SelectRestrictedIn(rows, all);
    assert all[i] == i;
    var k :| 0 <= k < |ids| && ids[k] == i;
    assert Restated(rows)[k] == RowCommand(rows, i);
  }

  lemma RestatedOnly(rows: seq<Endpoint>, c: Command) returns (i: nat)
    requires c in Restated(rows)
    ensures i < |rows| && Restricted(rows[i].status) && c == RowCommand(rows, i)
  {
    var k :| 0 <= k < |Restated(rows)| && Restated(rows)[k] == c;
    i := SelectRestricted(rows, seq(|rows|, i => i))[k];
  }

  lemma RestatedLast(rows: seq<Endpoint>, m: Mac)
    requires UniqueMacs(rows)
    ensures LastFor(Restated(rows), Text(m)) ==
            match FindMac(rows, m)
            case Some(i) => if Restricted(rows[i].status) then Some(RowCommand(rows, i)) else None
            case None => None
  {
    var found, last := FindMac(rows, m), LastFor(Restated(rows), Text(m));
    LastForIn(Restated(rows), Text(m));
    if last.Some? {
      var i := RestatedOnly(rows, last.value);
      TextInjective(rows[i].mac, m);
      FoundAt(rows, i);
    } else if found.Some? && Restricted(rows[found.value].status) {
      RestatedHas(rows, found.value);
    }
  }
}
