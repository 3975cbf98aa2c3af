/** The address in the last command about a restricted device is the one its row stores. */
module Addresses {
  import opened Common
  import opened MacText
  import opened Engine
  import opened Rows
  import opened Policies
  import opened BulkRules
  import opened Handlers
  import opened ArpSync
  import opened Runs
  import opened RunLog
  import opened Agreement
  import opened RunAgreement
  import opened Bulk
  import opened ArpRuns

  // ── Texts ──

  lemma StripTwice(s: string)
    ensures StripCidr(StripCidr(s)) == StripCidr(s)
  {
    StripCidrPlain(StripCidr(s), "");
  }

  /** The stored address of a row, empty when there is none. */
  function StoredAddress(row: Endpoint): string { HostIp(row.ip).GetOr("") }

  lemma SentIsStored(row: Endpoint)
    ensures StripCidr(row.ip.GetOr("")) == StoredAddress(row)
    ensures StripCidr(StoredAddress(row)) == StoredAddress(row)
  {
    if row.ip.Some? {
      StripTwice(row.ip.value);
    }
  }

  lemma {:induction false} StripInet(ip: string)
    ensures StripCidr(ip + "/32") == StripCidr(ip)
  {
    if ip != "" {
      StripInet(ip[1..]);
      assert (ip + "/32")[1..] == ip[1..] + "/32";
    }
  }

  // ── Table and log ──

  /** The address a restricted row needs enforced. */
  function Wanted(row: Endpoint): Option<string> {
    if Restricted(row.status) then Some(StoredAddress(row)) else None
  }

  function WantedFor(rows: seq<Endpoint>, m: Mac): Option<string> {
    match FindMac(rows, m)
    case Some(i) => Wanted(rows[i])
    case None => None
  }

  /** The address in the last command about a device, as enforcement reads it. */
  function SentFor(log: seq<Command>, m: Mac): Option<string> {
    match LastFor(log, Text(m))
    case Some(c) => Some(StripCidr(c.ip))
    case None => None
  }

  ghost predicate Addressed(rows: seq<Endpoint>, log: seq<Command>) {
    forall m: Mac | m != ZERO_MAC && WantedFor(rows, m).Some? :: SentFor(log, m) == WantedFor(rows, m)
  }

  ghost predicate Good(w: World) { UniqueMacs(w.endpoints) && Addressed(w.endpoints, w.log) }

  ghost predicate CarriesOne(c: Command, rows: seq<Endpoint>) {
    c.mac == Text(ZERO_MAC) ||
    exists m: Mac :: c.mac == Text(m) && (WantedFor(rows, m).Some? ==> WantedFor(rows, m) == Some(StripCidr(c.ip)))
  }

  /** Commands that carry stored addresses, at least one for each device whose need changed. */
  lemma StepAddressed(rows: seq<Endpoint>, log: seq<Command>, rows': seq<Endpoint>, cmds: seq<Command>)
    requires Addressed(rows, log)
    requires forall i | 0 <= i < |cmds| :: CarriesOne(cmds[i], rows')
    requires forall m: Mac | m != ZERO_MAC && WantedFor(rows', m).Some? && WantedFor(rows', m) != WantedFor(rows, m) ::
               LastFor(cmds, Text(m)).Some?
    ensures Addressed(rows', log + cmds)
  {
    forall m: Mac | m != ZERO_MAC && WantedFor(rows', m).Some?
      ensures SentFor(log + cmds, m) == WantedFor(rows', m)
    {
      LastForConcat(log, cmds, Text(m));
      LastForIn(cmds, Text(m));
      if LastFor(cmds, Text(m)).Some? {
        CarriedFor(LastFor(cmds, Text(m)).value, rows', m);
      }
    }
  }

  lemma CarriedFor(c: Command, rows: seq<Endpoint>, m: Mac)
    requires CarriesOne(c, rows) && c.mac == Text(m) && m != ZERO_MAC && WantedFor(rows, m).Some?
    ensures WantedFor(rows, m) == Some(StripCidr(c.ip))
  {
    TextInjective(m, ZERO_MAC);
    var n: Mac :| c.mac == Text(n) && (WantedFor(rows, n).Some? ==> WantedFor(rows, n) == Some(StripCidr(c.ip)));
    TextInjective(m, n);
  }

  /** One row written, and perhaps one command about it. */
  lemma RowWritten(rows: seq<Endpoint>, id: nat, row: Endpoint, m: Mac)
    requires UniqueMacs(rows) && id < |rows| && row.mac == rows[id].mac
    ensures UniqueMacs(rows[id := row])
    ensures WantedFor(rows, rows[id].mac) == Wanted(rows[id])
    ensures WantedFor(rows[id := row], m) == if m == row.mac then Wanted(row) else WantedFor(rows, m)
  {
    SameMacs(rows, rows[id := row], m);
    FoundAt(rows, id);
  }

  lemma WrittenSilently(rows: seq<Endpoint>, log: seq<Command>, id: nat, row: Endpoint)
    requires UniqueMacs(rows) && Addressed(rows, log) && id < |rows| && row.mac == rows[id].mac
    requires row.mac != ZERO_MAC && Wanted(row).Some? ==> Wanted(row) == Wanted(rows[id])
    ensures UniqueMacs(rows[id := row]) && Addressed(rows[id := row], log)
  {
    forall m: Mac
      ensures WantedFor(rows[id := row], m) == if m == row.mac then Wanted(row) else WantedFor(rows, m)
    {
      RowWritten(rows, id, row, m);
    }
    RowWritten(rows, id, row, row.mac);
    assert log + [] == log;
    StepAddressed(rows, log, rows[id := row], []);
  }

  lemma WrittenAndSent(rows: seq<Endpoint>, log: seq<Command>, id: nat, row: Endpoint, c: Command)
    requires UniqueMacs(rows) && Addressed(rows, log) && id < |rows| && row.mac == rows[id].mac
    requires c.mac == Text(row.mac) && StripCidr(c.ip) == StoredAddress(row)
    ensures UniqueMacs(rows[id := row]) && Addressed(rows[id := row], log + [c])
  {
    var rows' := rows[id := row];
    forall m: Mac
      ensures WantedFor(rows', m) == if m == row.mac then Wanted(row) else WantedFor(rows, m)
    {
      RowWritten(rows, id, row, m);
    }
    RowWritten(rows, id, row, row.mac);
    assert WantedFor(rows', row.mac) == Wanted(row);
    assert CarriesOne(c, rows');
    assert LastFor([c], Text(row.mac)) == Some(c);
    StepAddressed(rows, log, rows', [c]);
  }

  lemma RowInserted(rows: seq<Endpoint>, log: seq<Command>, row: Endpoint)
    requires UniqueMacs(rows) && Addressed(rows, log) && FindMac(rows, row.mac).None? && Wanted(row).None?
    ensures UniqueMacs(rows + [row]) && Addressed(rows + [row], log)
  {
    var rows' := rows + [row];
    assert rows'[..|rows|] == rows;
    forall m: Mac
      ensures WantedFor(rows', m) == WantedFor(rows, m)
    {
    }
  }

  // ── The upsert of a handler ──

  /** The event gives a restricted device another address than the stored one. */
  ghost predicate AddressMoved(rows: seq<Endpoint>, u: Upsert) {
    && u.mac != ZERO_MAC
    && FindMac(rows, u.mac).Some?
    && var row := rows[FindMac(rows, u.mac).value];
       Restricted(row.status) && StoredAddress(Merged(row, u)) != StoredAddress(row)
  }

  /** Storing the event keeps log and table together exactly when no address moved. */
  lemma UpsertAddressed(rows: seq<Endpoint>, log: seq<Command>, u: Upsert)
    requires UniqueMacs(rows) && Addressed(rows, log)
    ensures UniqueMacs(Upserted(rows, u))
    ensures Addressed(Upserted(rows, u), log) <==> !AddressMoved(rows, u)
  {
    match FindMac(rows, u.mac)
    case None => RowInserted(rows, log, Inserted(u));
    case Some(i) => MergeAddressed(rows, log, u, i);
  }

  lemma MergeAddressed(rows: seq<Endpoint>, log: seq<Command>, u: Upsert, i: nat)
    requires UniqueMacs(rows) && Addressed(rows, log) && FindMac(rows, u.mac) == Some(i)
    ensures UniqueMacs(Upserted(rows, u))
    ensures Addressed(Upserted(rows, u), log) <==> !AddressMoved(rows, u)
  {
    var row := Merged(rows[i], u);
    RowWritten(rows, i, row, u.mac);
    if !AddressMoved(rows, u) {
      WrittenSilently(rows, log, i, row);
    }
  }

  // ── The handlers ──

  lemma DetectDecided(w: World, u: Upsert, st: Status, c: Command)
    requires Good(w) && c.mac == Text(u.mac)
    requires StripCidr(c.ip) == StoredAddress(Upserted(w.endpoints, u)[UpsertId(w.endpoints, u)])
    ensures var rows := WithStatus(Upserted(w.endpoints, u), UpsertId(w.endpoints, u), st);
            UniqueMacs(rows) && Addressed(rows, w.log + [c])
  {
    var id := UpsertId(w.endpoints, u);
    var row := Upserted(w.endpoints, u)[id].(status := st);
    match FindMac(w.endpoints, u.mac)
    case None =>
      RowInserted(w.endpoints, w.log, Inserted(u));
      WrittenAndSent(w.endpoints + [Inserted(u)], w.log, id, row, c);
    case Some(i) =>
      WrittenAndSent(w.endpoints, w.log, i, row, c);
      assert WithStatus(Upserted(w.endpoints, u), i, st) == w.endpoints[i := row];
  }

  /** A detection event keeps them together exactly when it does not move the address of a
      restricted device while no rules are loaded. */
  lemma DetectAddressed(w: World, ev: Detection, rules: seq<Rule>)
    requires Good(w)
    ensures UniqueMacs(Detect(w, ev, rules).endpoints)
    ensures Addressed(Detect(w, ev, rules).endpoints, Detect(w, ev, rules).log) <==>
            (rules == [] ==> !AddressMoved(w.endpoints, DetectionUpsert(ev)))
  {
    var u := DetectionUpsert(ev);
    UpsertAddressed(w.endpoints, w.log, u);
    if rules != [] {
      DetectWithRules(w, ev, rules);
    }
  }

  lemma CommandForOne(mac: Mac, ip: string, st: Status) returns (c: Command)
    requires st != Pending
    ensures CommandFor(mac, ip, st) == [c] && c.mac == Text(mac) && c.ip == ip
  {
    c := MakeCommand(mac, ip, ActionWord(st).value);
  }

  lemma DetectWithRules(w: World, ev: Detection, rules: seq<Rule>)
    requires Good(w) && rules != []
    ensures Good(Detect(w, ev, rules))
  {
    var u := DetectionUpsert(ev);
    var seen := Upserted(w.endpoints, u);
    var id := UpsertId(w.endpoints, u);
    var row := seen[id];
    var st := DecisionStatus(Evaluation(rules, DetectionContext(row)));
    var sent := HostIp(row.ip).GetOr("");
    SentIsStored(row);
    UpsertAddressed(w.endpoints, w.log, u);
    if !AlreadyAuthenticated(seen, w.sessions, id) && row.status != st {
      var c := CommandForOne(row.mac, sent, st);
      DetectDecided(w, u, st, c);
    } else if HostIp(row.ip).Some? && OldIp(w.endpoints, ev.mac) != HostIp(row.ip) && Restricted(row.status) {
      var c := CommandForOne(row.mac, sent, row.status);
      DetectDecided(w, u, row.status, c);
      assert WithStatus(seen, id, row.status) == seen;
    }
  }

  /** What a successful response with rules does to its row. */
  lemma AuthDecides(w: World, id: nat, ev: AuthResponse, rules: seq<Rule>) returns (row: Endpoint, c: Command)
    requires id < |w.endpoints| && ev.success && rules != []
    ensures row.mac == w.endpoints[id].mac && row.ip == w.endpoints[id].ip
    ensures c.mac == Text(row.mac) && StripCidr(c.ip) == StoredAddress(row)
    ensures AuthenticateRow(w, id, ev, rules).endpoints == w.endpoints[id := row]
    ensures AuthenticateRow(w, id, ev, rules).log == w.log + [c]
  {
    var before := w.endpoints[id];
    var name := ev.username.GetOr("");
    var st := DecisionStatus(Evaluation(rules, AuthContext(before, ev.groups)));
    row := before.(status := st, username := if name != "" then Some(name) else before.username);
    c := MakeCommand(before.mac, before.ip.GetOr(""), ActionWord(st).value);
    SentIsStored(before);
    assert w.endpoints == w.endpoints[id := before];
  }

  lemma AuthRowAddressed(w: World, id: nat, ev: AuthResponse, rules: seq<Rule>)
    requires Good(w) && id < |w.endpoints|
    ensures Good(AuthenticateRow(w, id, ev, rules))
  {
    if ev.success && rules != [] {
      var row, c := AuthDecides(w, id, ev, rules);
      WrittenAndSent(w.endpoints, w.log, id, row, c);
    } else if ev.success && ev.username.GetOr("") != "" {
      WrittenSilently(w.endpoints, w.log, id, w.endpoints[id].(username := Some(ev.username.GetOr(""))));
    }
  }

  ghost predicate AuthMoves(w: World, ev: AuthResponse) {
    FindTarget(w.endpoints, ev).Missing? && ev.mac.Some? && AddressMoved(w.endpoints, AuthUpsert(ev.mac.value, ev))
  }

  lemma AuthMoved(w: World, ev: AuthResponse, rules: seq<Rule>)
    requires Good(w) && AuthMoves(w, ev)
    ensures UniqueMacs(Authenticate(w, ev, rules).endpoints)
    ensures Addressed(Authenticate(w, ev, rules).endpoints, Authenticate(w, ev, rules).log) <==>
              ev.success && rules != []
  {
    var u := AuthUpsert(ev.mac.value, ev);
    var i := FindMac(w.endpoints, u.mac).value;
    var merged := Merged(w.endpoints[i], u);
    var seen := w.(endpoints := w.endpoints[i := merged]);
    if ev.success && rules != [] {
      var row, c := AuthDecides(seen, i, ev, rules);
      WrittenAndSent(w.endpoints, w.log, i, row, c);
      assert seen.endpoints[i := row] == w.endpoints[i := row];
    } else {
      var name := ev.username.GetOr("");
      var row := if ev.success && name != "" then merged.(username := Some(name)) else merged;
      RowWritten(w.endpoints, i, row, u.mac);
      assert seen.endpoints[i := row] == w.endpoints[i := row];
      assert AuthenticateRow(seen, i, ev, rules).endpoints == w.endpoints[i := row];
    }
  }

  /** An authentication response keeps them together exactly when it does not, by registering a
      restricted device again, move its address without publishing a decision. */
  lemma AuthAddressed(w: World, ev: AuthResponse, rules: seq<Rule>)
    requires Good(w)
    ensures UniqueMacs(Authenticate(w, ev, rules).endpoints)
    ensures Addressed(Authenticate(w, ev, rules).endpoints, Authenticate(w, ev, rules).log) <==>
            (AuthMoves(w, ev) ==> ev.success && rules != [])
  {
    if AuthMoves(w, ev) {
      AuthMoved(w, ev, rules);
    } else {
      AuthUnmoved(w, ev, rules);
    }
  }

  lemma AuthUnmoved(w: World, ev: AuthResponse, rules: seq<Rule>)
    requires Good(w) && !AuthMoves(w, ev)
    ensures Good(Authenticate(w, ev, rules))
  {
    match FindTarget(w.endpoints, ev)
    case NoKey =>
    case Found(id) => AuthRowAddressed(w, id, ev, rules);
    case Missing =>
      if ev.mac.Some? {
        var u := AuthUpsert(ev.mac.value, ev);
        UpsertAddressed(w.endpoints, w.log, u);
        AuthRowAddressed(w.(endpoints := Upserted(w.endpoints, u)), UpsertId(w.endpoints, u), ev, rules);
      }
  }

  lemma ReportAddressed(w: World, report: PostureReport, rules: seq<Rule>)
    requires Good(w)
    ensures Good(Report(w, report, rules))
  {
    if FindMac(w.endpoints, report.mac).Some? {
      var id := FindMac(w.endpoints, report.mac).value;
      var row := w.endpoints[id];
      var reported := row.(isCompliant := Some(report.compliant), posture := report.posture);
      WrittenSilently(w.endpoints, w.log, id, reported);
      if rules != [] {
        var st := DecisionStatus(Evaluation(rules, PostureContext(row, report)));
        ReportDecided(w, id, reported, st, StatusText(st));
      }
    }
  }

  lemma ReportDecided(w: World, id: nat, reported: Endpoint, st: Status, action: string)
    requires Good(w) && id < |w.endpoints|
    requires reported.mac == w.endpoints[id].mac && reported.ip == w.endpoints[id].ip
    ensures var rows := WithStatus(w.endpoints[id := reported], id, st);
            && UniqueMacs(rows)
            && Addressed(rows, w.log + [MakeCommand(w.endpoints[id].mac, w.endpoints[id].ip.GetOr(""), action)])
  {
    var row := reported.(status := st);
    SentIsStored(row);
    WrittenAndSent(w.endpoints, w.log, id, row, MakeCommand(row.mac, row.ip.GetOr(""), action));
    assert w.endpoints[id := reported][id := row] == w.endpoints[id := row];
  }

  lemma OverrideAddressed(w: World, id: nat, st: Status)
    requires Good(w)
    ensures Good(Override(w, id, st))
  {
    if id < |w.endpoints| {
      var row := w.endpoints[id];
      SentIsStored(row);
      WrittenAndSent(w.endpoints, w.log, id, row.(status := st),
                     MakeCommand(row.mac, HostIp(row.ip).GetOr(""), StatusText(st)));
    }
  }

  lemma {:induction false} BulkAddressed(w: World, listed: seq<nat>, req: BulkRequest)
    requires Good(w) && ListedIn(listed, w.endpoints) && Distinct(listed)
    ensures Good(BulkRun(w, listed, req).world)
  {
    if listed != [] {
      var init, id := listed[..|listed| - 1], listed[|listed| - 1];
      BulkAddressed(w, init, req);
      BulkRunMeaning(w, init, req);
      var s := BulkRun(w, init, req);
      VisitAddressed(s, w.endpoints[id], id, req);
    }
  }

  lemma VisitAddressed(s: BulkState, row: Endpoint, id: nat, req: BulkRequest)
    requires Good(s.world) && id < |s.world.endpoints|
    requires s.world.endpoints[id] == row.(status := s.world.endpoints[id].status)
    ensures Good(BulkVisit(s, row, id, req).world)
  {
    VisitCases(s, row, id, req);
    SentIsStored(row);
    var st := Settled(row, req);
    if st != row.status {
      WrittenAndSent(s.world.endpoints, s.world.log, id, s.world.endpoints[id].(status := st),
                     MakeCommand(row.mac, row.ip.GetOr(""), StatusText(st)));
    }
  }

  lemma IpRuleAddressed(w: World, ip: string, action: string)
    requires Good(w)
    ensures Good(IpRule(w, ip, action))
  {
    var w' := IpRule(w, ip, action);
    if w' != w {
      StepAddressed(w.endpoints, w.log, w.endpoints, [MakeCommand(ZERO_MAC, StripCidr(ip), action)]);
    }
  }

  lemma DeviceAddressed(w: World, before: seq<Endpoint>, gateways: set<string>, mac: string, ip: string)
    requires Good(w)
    ensures Good(VisitDevice(w, before, gateways, mac, ip))
  {
    if OutcomeOf(before, w.pendingIp, gateways, mac, ip) == Confirm {
      var m := before[FindText(before, mac).value].mac;
      if FindMac(w.endpoints, m).Some? {
        ConfirmAddressed(w.endpoints, w.log, m, FindMac(w.endpoints, m).value, ip);
      } else {
        assert WithIp(w.endpoints, m, ip) == w.endpoints && ResentCommands(w.endpoints, m, ip) == [];
        assert w.log + [] == w.log;
      }
    }
  }

  lemma ConfirmAddressed(rows: seq<Endpoint>, log: seq<Command>, m: Mac, i: nat, ip: string)
    requires UniqueMacs(rows) && Addressed(rows, log) && FindMac(rows, m) == Some(i)
    ensures var rows' := WithIp(rows, m, ip);
            UniqueMacs(rows') && Addressed(rows', log + ResentCommands(rows', m, ip))
  {
    var row := rows[i].(ip := Some(InetText(ip)));
    var rows' := rows[i := row];
    RowWritten(rows, i, row, m);
    SameMacs(rows, rows', m);
    StripInet(ip);
    var resent := ResentCommands(rows', m, ip);
    if Restricted(row.status) {
      var c := resent[0];
      assert resent == [c];
      WrittenAndSent(rows, log, i, row, c);
    } else {
      assert resent == [] && log + resent == log;
      WrittenSilently(rows, log, i, row);
    }
  }

  lemma {:induction false} VisitAllAddressed(w: World, before: seq<Endpoint>, gateways: set<string>,
                                             arp: map<string, string>, order: seq<string>)
    requires Good(w) && forall i | 0 <= i < |order| :: order[i] in arp
    ensures Good(VisitAll(w, before, gateways, arp, order))
  {
    if order != [] {
      var n := |order| - 1;
      VisitAllAddressed(w, before, gateways, arp, order[..n]);
      DeviceAddressed(VisitAll(w, before, gateways, arp, order[..n]), before, gateways, order[n], arp[order[n]]);
    }
  }

  // ── Reconciliation ──

  lemma RowCommandCarries(rows: seq<Endpoint>, id: nat)
    requires UniqueMacs(rows) && id < |rows|
    ensures CarriesOne(RowCommand(rows, id), rows)
  {
    var m := rows[id].mac;
    FoundAt(rows, id);
    SentIsStored(rows[id]);
    assert RowCommand(rows, id).mac == Text(m);
  }

  lemma ReconcileCarries(w: World, input: ReconcileInput)
    requires UniqueMacs(w.endpoints)
    ensures UniqueMacs(Requarantined(w.endpoints))
    ensures forall i | 0 <= i < |ReconcileCommands(w, input)| ::
              CarriesOne(ReconcileCommands(w, input)[i], Requarantined(w.endpoints))
  {
    var rows := Requarantined(w.endpoints);
    SameMacs(w.endpoints, rows, ZERO_MAC);
    forall id | 0 <= id < |rows|
      ensures CarriesOne(RowCommand(rows, id), rows)
    {
      RowCommandCarries(rows, id);
    }
    ZeroCommands(input.ipRules);
  }

  lemma ReconcileReaches(w: World, input: ReconcileInput, m: Mac)
    requires UniqueMacs(w.endpoints) && Enumerates(input.blocked, |w.endpoints|)
    requires WantedFor(Requarantined(w.endpoints), m).Some?
    ensures LastFor(ReconcileCommands(w, input), Text(m)).Some?
  {
    var rows := Requarantined(w.endpoints);
    var blocked := SelectRestricted(rows, input.blocked);
    var id := FindMac(rows, m).value;
    SelectRestrictedIn(rows, input.blocked);
    var k :| 0 <= k < |blocked| && blocked[k] == id;
    var first, second := RowCommands(rows, SelectReauth(w.endpoints, input.reauth)), RowCommands(rows, blocked);
    assert second[k] == RowCommand(rows, id);
    LastForIn(second, Text(m));
    LastForConcat(first, second, Text(m));
    LastForConcat(first + second, IpRuleCommands(input.ipRules), Text(m));
  }

  lemma ReconcileAddressed(w: World, input: ReconcileInput)
    requires Good(w) && Enumerates(input.blocked, |w.endpoints|)
    ensures Good(Reconcile(w, input))
  {
    var rows, cmds := Requarantined(w.endpoints), ReconcileCommands(w, input);
    ReconcileCarries(w, input);
    forall m: Mac | m != ZERO_MAC && WantedFor(rows, m).Some?
      ensures LastFor(cmds, Text(m)).Some?
    {
      ReconcileReaches(w, input, m);
    }
    StepAddressed(w.endpoints, w.log, rows, cmds);
    ReconcileShape(w, input);
  }

  lemma ReconcileShape(w: World, input: ReconcileInput)
    ensures Reconcile(w, input).endpoints == Requarantined(w.endpoints)
    ensures Reconcile(w, input).log == w.log + ReconcileCommands(w, input)
  {
    var rows := Requarantined(w.endpoints);
    var first := RowCommands(rows, SelectReauth(w.endpoints, input.reauth));
    var second := RowCommands(rows, SelectRestricted(rows, input.blocked));
    Associates(w.log, first, second);
    Associates(w.log, first + second, IpRuleCommands(input.ipRules));
  }

  // ── Runs ──

  /** The step stores no address for a restricted device without telling enforcement. */
  ghost predicate Tells(w: World, step: Step) {
    match step
    case Detecting(ev, rules) => rules == [] ==> !AddressMoved(w.endpoints, DetectionUpsert(ev))
    case Authenticating(ev, rules) => AuthMoves(w, ev) ==> ev.success && rules != []
    case _ => true
  }

  /** A step keeps table and log together exactly when it tells enforcement. */
  lemma ApplyAddressed(w: World, step: Step)
    requires Good(w) && Enabled(w, step)
    ensures Addressed(Apply(w, step).endpoints, Apply(w, step).log) <==> Tells(w, step)
    ensures UniqueMacs(Apply(w, step).endpoints)
  {
    match step
    case Detecting(ev, rules) => DetectAddressed(w, ev, rules);
    case Authenticating(ev, rules) => AuthAddressed(w, ev, rules);
    case Reporting(report, rules) => ReportAddressed(w, report, rules);
    case Evaluating(listed, req) => BulkAddressed(w, listed, req);
    case Overriding(id, st) => OverrideAddressed(w, id, st);
    case Assigning(id, policy) =>
      if id < |w.endpoints| {
        WrittenSilently(w.endpoints, w.log, id, w.endpoints[id].(assignedPolicy := policy));
      }
    case Exempting(id, exempt) =>
      if id < |w.endpoints| {
        WrittenSilently(w.endpoints, w.log, id, w.endpoints[id].(exempt := exempt));
      }
    case ChangingIpRule(ip, action) => IpRuleAddressed(w, ip, action);
    case Reconciling(input) => ReconcileAddressed(w, input);
    case Syncing(scan) =>
      var arp := Chosen(scan.lines);
      VisitAllAddressed(w.(pendingIp := Retained(w.pendingIp, arp)), w.endpoints, scan.gateways, arp, scan.order);
    case Starting =>
  }

  /** The stored address of a device is the one last sent, as far as it must be enforced. */
  ghost predicate Sent(w: World, m: Mac) {
    WantedFor(w.endpoints, m).Some? ==> SentFor(w.log, m) == WantedFor(w.endpoints, m)
  }

  lemma RestatedGood(w: World)
    requires UniqueMacs(w.endpoints)
    ensures Good(w.(log := Restated(w.endpoints)))
    ensures forall m: Mac :: SentFor(Restated(w.endpoints), m) == WantedFor(w.endpoints, m)
  {
    forall m: Mac
      ensures SentFor(Restated(w.endpoints), m) == WantedFor(w.endpoints, m)
    {
      RestatedLast(w.endpoints, m);
      if FindMac(w.endpoints, m).Some? {
        SentIsStored(w.endpoints[FindMac(w.endpoints, m).value]);
      }
    }
  }

  /** A step that does not tell enforcement publishes nothing. */
  lemma SilentStep(w: World, step: Step)
    requires Enabled(w, step) && !Tells(w, step)
    ensures Published(w, step) == []
  {
  }

  /** What a step publishes about a restricted device carries its stored address, and the address it
      needs does not change behind a step that tells enforcement and publishes nothing about it. */
  lemma StepTold(w: World, step: Step, m: Mac)
    requires UniqueMacs(w.endpoints) && Enabled(w, step) && m != ZERO_MAC
    ensures var cmds, now := Published(w, step), WantedFor(Apply(w, step).endpoints, m);
            && (now.Some? && LastFor(cmds, Text(m)).Some? ==> SentFor(cmds, m) == now)
            && (now.Some? && LastFor(cmds, Text(m)).None? && Tells(w, step) ==> now == WantedFor(w.endpoints, m))
  {
    var log := Restated(w.endpoints);
    var told := w.(log := log);
    RestatedGood(w);
    LogIsUnread(w, step, log);
    ApplyAddressed(told, step);
    LastForConcat(log, Published(w, step), Text(m));
    if !Tells(w, step) {
      SilentStep(w, step);
    }
  }

  lemma LogGrows(w: World, step: Step, m: Mac)
    requires Enabled(w, step)
    ensures SentFor(Apply(w, step).log, m) ==
            if LastFor(Published(w, step), Text(m)).Some? then SentFor(Published(w, step), m) else SentFor(w.log, m)
  {
    LogIsUnread(w, step, w.log);
    assert w.(log := w.log) == w;
    LastForConcat(w.log, Published(w, step), Text(m));
  }

  /** The last step that published about a device or gave it another address to enforce published, or
      went back to the address last sent; or nothing about the device is to be enforced. */
  ghost predicate LastTold(steps: seq<Step>, m: Mac)
    requires Possible(EMPTY_WORLD, steps)
  {
    steps == [] ||
    var n := |steps| - 1;
    var before := Run(EMPTY_WORLD, steps[..n]);
    var now := WantedFor(Apply(before, steps[n]).endpoints, m);
    || now.None?
    || LastFor(Published(before, steps[n]), Text(m)).Some?
    || (if now == WantedFor(before.endpoints, m) then LastTold(steps[..n], m) else SentFor(before.log, m) == now)
  }

  /** For every run and every device: the last command about it carries the address its row stores, as
      far as that row is denied or quarantined, exactly when the last change was told. */
  lemma {:induction false} RunAddressedExactly(steps: seq<Step>, m: Mac)
    requires Possible(EMPTY_WORLD, steps) && m != ZERO_MAC
    ensures Sent(Run(EMPTY_WORLD, steps), m) <==> LastTold(steps, m)
  {
    if steps != [] {
      var n := |steps| - 1;
      RunAddressedExactly(steps[..n], m);
      RunUnique(steps[..n]);
      StepTold(Run(EMPTY_WORLD, steps[..n]), steps[n], m);
      LogGrows(Run(EMPTY_WORLD, steps[..n]), steps[n], m);
    }
  }

  /** Every step of the run tells enforcement about the addresses it stores. */
  ghost predicate AllTell(steps: seq<Step>)
    requires Possible(EMPTY_WORLD, steps)
  {
    steps == [] ||
    var n := |steps| - 1;
    AllTell(steps[..n]) && Tells(Run(EMPTY_WORLD, steps[..n]), steps[n])
  }

  lemma {:induction false} TellingTold(steps: seq<Step>, m: Mac)
    requires Possible(EMPTY_WORLD, steps) && AllTell(steps) && m != ZERO_MAC
    ensures LastTold(steps, m)
  {
    if steps != [] {
      var n := |steps| - 1;
      TellingTold(steps[..n], m);
      RunUnique(steps[..n]);
      StepTold(Run(EMPTY_WORLD, steps[..n]), steps[n], m);
    }
  }

  /** In every run whose steps all tell enforcement, the last command about each denied or quarantined
      device carries the address its row stores. */
  lemma RunAddressed(steps: seq<Step>)
    requires Possible(EMPTY_WORLD, steps) && AllTell(steps)
    ensures Good(Run(EMPTY_WORLD, steps))
  {
    RunUnique(steps);
    forall m: Mac | m != ZERO_MAC
      ensures Sent(Run(EMPTY_WORLD, steps), m)
    {
      TellingTold(steps, m);
      RunAddressedExactly(steps, m);
    }
    AllSent(Run(EMPTY_WORLD, steps));
  }

  lemma AllSent(w: World)
    requires forall m: Mac | m != ZERO_MAC :: Sent(w, m)
    ensures Addressed(w.endpoints, w.log)
  {
    forall m: Mac | m != ZERO_MAC && WantedFor(w.endpoints, m).Some?
      ensures SentFor(w.log, m) == WantedFor(w.endpoints, m)
    {
      assert Sent(w, m);
    }
  }
}
