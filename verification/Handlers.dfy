/** What each policy-manager handler does to the tables and the command log, as one atomic step.
    Database calls succeed and a handler is not interrupted. */
module Handlers {
  import opened Common
  import opened MacText
  import opened Engine
  import opened Rows
  import opened Policies
  import opened BulkRules

  /** A message on the enforcement subject. */
  datatype Command = Command(mac: string, ip: string, action: string, gatewayIp: string)

  datatype Announcement = Announcement(mac: string, ip: string)

  datatype World = World(
    endpoints: seq<Endpoint>,
    sessions: seq<Session>,
    log: seq<Command>,
    pendingIp: map<string, string>,
    announced: seq<Announcement>)

  const EMPTY_WORLD := World([], [], [], map[], [])

  const ZERO_MAC: Mac := [0, 0, 0, 0, 0, 0]

  function StatusText(st: Status): string {
    match st
    case Allowed => "allowed"
    case Quarantined => "quarantined"
    case Denied => "denied"
    case Pending => "pending"
  }

  /** The status column accepts four texts. */
  function StatusOf(text: string): Option<Status> {
    if text == "allowed" then Some(Allowed)
    else if text == "quarantined" then Some(Quarantined)
    else if text == "denied" then Some(Denied)
    else if text == "pending" then Some(Pending)
    else None
  }

  /** The action word published for a status; a pending status publishes nothing. */
  function ActionWord(st: Status): Option<string> {
    match st
    case Quarantined => Some("quarantine")
    case Denied => Some("block")
    case Allowed => Some("allow")
    case Pending => None
  }

  predicate Restricted(st: Status) { st == Denied || st == Quarantined }

  function MakeCommand(mac: Mac, ip: string, action: string): Command {
    Command(Text(mac), ip, action, "")
  }

  function CommandFor(mac: Mac, ip: string, st: Status): seq<Command> {
    match ActionWord(st)
    case Some(word) => [MakeCommand(mac, ip, word)]
    case None => []
  }

  // ── Detection events ──

  datatype Detection = Detection(
    mac: Mac,
    ip: string,
    interface: string,
    hostname: Option<string>,
    osFamily: Option<string>,
    osVersion: Option<string>,
    deviceType: Option<string>,
    vendor: Option<string>)

  function TextOption(s: string): Option<string> { if s == "" then None else Some(s) }

  function DetectionUpsert(ev: Detection): Upsert {
    Upsert(ev.mac, TextOption(ev.ip), ev.hostname, ev.osFamily, ev.osVersion, ev.deviceType,
           ev.vendor, TextOption(ev.interface), None)
  }

  function OldIp(rows: seq<Endpoint>, mac: Mac): Option<string> {
    match FindMac(rows, mac) case Some(i) => HostIp(rows[i].ip) case None => None
  }

  predicate AlreadyAuthenticated(rows: seq<Endpoint>, sessions: seq<Session>, id: nat)
    requires id < |rows|
  {
    && rows[id].status == Allowed
    && rows[id].username.Some?
    && NewestOpen(sessions, id).Some?
    && sessions[NewestOpen(sessions, id).value].state == Active
  }

  function QuarantineVlan(d: Decision): Option<int> {
    if d.Quarantine? && d.vlan < 0x1_0000 then Some(AsI16(d.vlan)) else None
  }

  function Detect(w: World, ev: Detection, rules: seq<Rule>): World {
    var oldIp := OldIp(w.endpoints, ev.mac);
    var u := DetectionUpsert(ev);
    var id := UpsertId(w.endpoints, u);
    var seen := w.(endpoints := Upserted(w.endpoints, u));
    if rules == [] then seen
    else
      var row := seen.endpoints[id];
      var newIp := HostIp(row.ip);
      var decision := Evaluation(rules, DetectionContext(row));
      var st := DecisionStatus(decision);
      if !AlreadyAuthenticated(seen.endpoints, w.sessions, id) && row.status != st then
        seen.(endpoints := WithStatus(seen.endpoints, id, st),
              sessions := if st == Quarantined
                          then w.sessions + [NewSession(id, QuarantineVlan(decision))] else w.sessions,
              log := w.log + CommandFor(row.mac, newIp.GetOr(""), st))
      else if newIp.Some? && oldIp != newIp && Restricted(row.status) then
        seen.(log := w.log + CommandFor(row.mac, newIp.GetOr(""), row.status))
      else seen
  }

  // ── Authentication responses ──

  /** `choice` is the row a query by address returns when several rows have that address. */
  datatype AuthResponse = AuthResponse(
    sessionId: Option<nat>,
    endpointId: Option<nat>,
    mac: Option<Mac>,
    ip: string,
    success: bool,
    username: Option<string>,
    groups: seq<string>,
    choice: nat)

  datatype Target = NoKey | Missing | Found(id: nat)

  function FindIp(rows: seq<Endpoint>, ip: string, choice: nat): (r: Target)
    ensures r.Found? ==> r.id < |rows| && HostIp(rows[r.id].ip) == Some(ip)
    ensures r.Missing? <==> forall i | 0 <= i < |rows| :: HostIp(rows[i].ip) != Some(ip)
    ensures !r.NoKey?
  {
    if choice < |rows| && HostIp(rows[choice].ip) == Some(ip) then Found(choice)
    else if rows == [] then Missing
    else if HostIp(rows[|rows| - 1].ip) == Some(ip) then Found(|rows| - 1)
    else FindIp(rows[..|rows| - 1], ip, choice)
  }

  function FindTarget(rows: seq<Endpoint>, ev: AuthResponse): (r: Target)
    ensures r.Found? ==> r.id < |rows|
  {
    if ev.endpointId.Some? then
      if ev.endpointId.value < |rows| then Found(ev.endpointId.value) else Missing
    else if ev.mac.Some? then
      match FindMac(rows, ev.mac.value) case Some(i) => Found(i) case None => Missing
    else if ev.ip != "" then FindIp(rows, ev.ip, ev.choice)
    else NoKey
  }

  function AuthSession(sessions: seq<Session>, id: nat, ev: AuthResponse): (r: Option<nat>)
    ensures r.Some? ==> r.value < |sessions|
  {
    match ev.sessionId
    case Some(sid) => if sid < |sessions| then Some(sid) else None
    case None => NewestOpen(sessions, id)
  }

  function AuthContext(row: Endpoint, groups: seq<string>): Context {
    Context(Text(row.mac), row.osFamily, row.deviceType, groups, None)
  }

  function AuthUpsert(mac: Mac, ev: AuthResponse): Upsert {
    Upsert(mac, TextOption(ev.ip), None, None, None, None, None, None, None)
  }

  function Authenticate(w: World, ev: AuthResponse, rules: seq<Rule>): World {
    match FindTarget(w.endpoints, ev)
    case NoKey => w
    case Found(id) => AuthenticateRow(w, id, ev, rules)
    case Missing =>
      if ev.mac.None? then w
      else
        var u := AuthUpsert(ev.mac.value, ev);
        AuthenticateRow(w.(endpoints := Upserted(w.endpoints, u)), UpsertId(w.endpoints, u), ev, rules)
  }

  function AuthenticateRow(w: World, id: nat, ev: AuthResponse, rules: seq<Rule>): World
    requires id < |w.endpoints|
  {
    var row := w.endpoints[id];
    var session := AuthSession(w.sessions, id, ev);
    if !ev.success then
      if session.Some? then w.(sessions := TerminatedOne(w.sessions, session.value)) else w
    else
      var name := ev.username.GetOr("");
      var named := if name != "" then WithUsername(w.endpoints, id, name) else w.endpoints;
      var sessions := if session.Some? then Transitioned(w.sessions, session.value, Active, Some(name)) else w.sessions;
      if rules == [] then w.(endpoints := named, sessions := sessions)
      else
        var st := DecisionStatus(Evaluation(rules, AuthContext(row, ev.groups)));
        w.(endpoints := if row.status != st then WithStatus(named, id, st) else named,
           sessions := sessions,
           log := w.log + CommandFor(row.mac, row.ip.GetOr(""), st))
  }

  // ── Posture reports ──

  /** A report after the compliance check; the check itself is not modelled. */
  datatype PostureReport = PostureReport(mac: Mac, os: string, compliant: bool, posture: Posture)

  function PostureContext(row: Endpoint, report: PostureReport): Context {
    Context(Text(row.mac), Coalesce(row.osFamily, Some(report.os)), row.deviceType, [], Some(report.compliant))
  }

  function Report(w: World, report: PostureReport, rules: seq<Rule>): World {
    match FindMac(w.endpoints, report.mac)
    case None => w
    case Some(id) =>
      var row := w.endpoints[id];
      var rows := WithPosture(w.endpoints, id, report.compliant, report.posture);
      if rules == [] then w.(endpoints := rows)
      else
        var st := DecisionStatus(Evaluation(rules, PostureContext(row, report)));
        if row.status == st then w.(endpoints := rows)
        else
          w.(endpoints := WithStatus(rows, id, st),
             log := w.log + [MakeCommand(row.mac, row.ip.GetOr(""), StatusText(st))])
  }

  // ── Bulk evaluation ──

  /** The enabled policies in load order with their ids, every stored policy by id, and the
      action for endpoints that no policy matches. */
  datatype BulkRequest = BulkRequest(
    rules: seq<(nat, Rule)>,
    stored: map<nat, Rule>,
    defaultAction: Option<string>)

  datatype BulkState = BulkState(world: World, changed: nat, skipped: nat, failed: bool)

  function RuleWithId(rules: seq<(nat, Rule)>, id: nat): Option<Rule> {
    if rules == [] then None
    else if rules[|rules| - 1].0 == id then Some(rules[|rules| - 1].1)
    else RuleWithId(rules[..|rules| - 1], id)
  }

  function RulesOnly(rules: seq<(nat, Rule)>): seq<Rule> {
    seq(|rules|, i requires 0 <= i < |rules| => rules[i].1)
  }

  function PolicyStatus(row: Endpoint, req: BulkRequest): (r: Option<Status>)
    ensures r != Some(Pending)
  {
    match row.assignedPolicy
    case Some(pid) =>
      (match RuleWithId(req.rules, pid)
       case Some(rule) => Some(DecisionStatus(rule.decision))
       case None => if pid in req.stored then Some(DecisionStatus(req.stored[pid].decision)) else None)
    case None => FirstStatus(RulesOnly(req.rules), row)
  }

  /** The status text a row should end with, if any. */
  function EffectiveText(row: Endpoint, req: BulkRequest): Option<string> {
    match PolicyStatus(row, req)
    case Some(st) => Some(StatusText(st))
    case None => req.defaultAction
  }

  function BulkVisit(s: BulkState, row: Endpoint, id: nat, req: BulkRequest): BulkState {
    if row.exempt then s.(skipped := s.skipped + 1)
    else match EffectiveText(row, req)
      case None => s
      case Some(text) =>
        if StatusText(row.status) == text then s
        else match StatusOf(text)
          case None => s.(failed := true)
          case Some(st) =>
            s.(world := s.world.(endpoints := WithStatus(s.world.endpoints, id, st),
                                 log := s.world.log + [MakeCommand(row.mac, row.ip.GetOr(""), text)]),
               changed := s.changed + 1)
  }

  /** The state after visiting the listed rows in order; a failed write ends the run. */
  function BulkRun(w: World, listed: seq<nat>, req: BulkRequest): BulkState
    requires forall i | 0 <= i < |listed| :: listed[i] < |w.endpoints|
  {
    if listed == [] then BulkState(w, 0, 0, false)
    else
      var s := BulkRun(w, listed[..|listed| - 1], req);
      var id := listed[|listed| - 1];
      if s.failed then s else BulkVisit(s, w.endpoints[id], id, req)
  }

  // ── Administrator override and row settings ──

  function Override(w: World, id: nat, st: Status): World {
    if id < |w.endpoints| then
      w.(endpoints := WithStatus(w.endpoints, id, st),
         log := w.log + [MakeCommand(w.endpoints[id].mac, HostIp(w.endpoints[id].ip).GetOr(""), StatusText(st))])
    else w
  }

  function AssignPolicy(w: World, id: nat, policy: Option<nat>): World {
    if id < |w.endpoints| then w.(endpoints := w.endpoints[id := w.endpoints[id].(assignedPolicy := policy)]) else w
  }

  function SetExempt(w: World, id: nat, exempt: bool): World {
    if id < |w.endpoints| then w.(endpoints := w.endpoints[id := w.endpoints[id].(exempt := exempt)]) else w
  }

  /** Creating, removing or switching an IP rule publishes under the all-zero address. */
  function IpRule(w: World, ip: string, action: string): World {
    if action == "block" || action == "quarantine" || action == "allow" then
      w.(log := w.log + [MakeCommand(ZERO_MAC, StripCidr(ip), action)])
    else w
  }

  // ── Start-up reconciliation ──

  /** `reauth` and `blocked` are the orders in which the two queries return rows. */
  datatype ReconcileInput = ReconcileInput(reauth: seq<nat>, blocked: seq<nat>, ipRules: seq<(string, string)>)

  function SelectReauth(rows: seq<Endpoint>, order: seq<nat>): (r: seq<nat>)
    ensures forall i | 0 <= i < |r| :: r[i] < |rows| && NeedsReauth(rows[r[i]])
  {
    if order == [] then []
    else
      var rest := SelectReauth(rows, order[..|order| - 1]);
      var id := order[|order| - 1];
      if id < |rows| && NeedsReauth(rows[id]) then rest + [id] else rest
  }

  function SelectRestricted(rows: seq<Endpoint>, order: seq<nat>): (r: seq<nat>)
    ensures forall i | 0 <= i < |r| :: r[i] < |rows| && Restricted(rows[r[i]].status)
  {
    if order == [] then []
    else
      var rest := SelectRestricted(rows, order[..|order| - 1]);
      var id := order[|order| - 1];
      if id < |rows| && Restricted(rows[id].status) then rest + [id] else rest
  }

  function FreshSessions(ids: seq<nat>): (r: seq<Session>)
    ensures |r| == |ids|
  {
    seq(|ids|, i requires 0 <= i < |ids| => NewSession(ids[i], None))
  }

  /** The command that re-applies a row: quarantine unless the row is denied. */
  function RowCommand(rows: seq<Endpoint>, id: nat): Command
    requires id < |rows|
  {
    MakeCommand(rows[id].mac, HostIp(rows[id].ip).GetOr(""),
                if rows[id].status == Denied then "block" else "quarantine")
  }

  function RowCommands(rows: seq<Endpoint>, ids: seq<nat>): (r: seq<Command>)
    requires forall i | 0 <= i < |ids| :: ids[i] < |rows|
    ensures |r| == |ids|
    ensures forall i | 0 <= i < |ids| :: r[i] == RowCommand(rows, ids[i])
  {
    seq(|ids|, i requires 0 <= i < |ids| => RowCommand(rows, ids[i]))
  }

  function IpRuleCommands(rules: seq<(string, string)>): seq<Command> {
    if rules == [] then []
    else
      var rest := IpRuleCommands(rules[..|rules| - 1]);
      var (cidr, action) := rules[|rules| - 1];
      if action == "block" || action == "quarantine" then rest + [MakeCommand(ZERO_MAC, StripCidr(cidr), action)]
      else rest
  }

  lemma {:induction false} SelectReauthIn(rows: seq<Endpoint>, order: seq<nat>)
    ensures forall id :: id in SelectReauth(rows, order) <==> id in order && id < |rows| && NeedsReauth(rows[id])
  {
    if order != [] {
      SelectReauthIn(rows, order[..|order| - 1]);
      assert order == order[..|order| - 1] + [order[|order| - 1]];
    }
  }

  lemma {:induction false} SelectRestrictedIn(rows: seq<Endpoint>, order: seq<nat>)
    ensures forall id :: id in SelectRestricted(rows, order) <==>
              id in order && id < |rows| && Restricted(rows[id].status)
  {
    if order != [] {
      SelectRestrictedIn(rows, order[..|order| - 1]);
      assert order == order[..|order| - 1] + [order[|order| - 1]];
    }
  }

  function Reconcile(w: World, input: ReconcileInput): World {
    var reauth := SelectReauth(w.endpoints, input.reauth);
    var rows := Requarantined(w.endpoints);
    var blocked := SelectRestricted(rows, input.blocked);
    w.(endpoints := rows,
       sessions := TerminatedAll(w.sessions) + FreshSessions(reauth),
       log := w.log + RowCommands(rows, reauth) + RowCommands(rows, blocked) + IpRuleCommands(input.ipRules))
  }
}
