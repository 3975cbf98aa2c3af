/** The policy manager as it runs: each handler changes the tables and the log step by step, and
    its whole effect is the corresponding function of module Handlers. */
module Manager {
  import opened Common
  import opened MacText
  import opened Engine
  import opened Rows
  import opened Policies
  import opened BulkRules
  import opened Handlers
  import opened ArpSync

  class PolicyManager {
    const db: Database
    var log: seq<Command>
    var pendingIp: map<string, string>
    var announced: seq<Announcement>

    constructor ()
      ensures fresh(db) && View() == EMPTY_WORLD
    {
      db := new Database();
      log, pendingIp, announced := [], map[], [];
    }

    ghost function View(): World
      reads this, db
    {
      World(db.endpoints, db.sessions, log, pendingIp, announced)
    }

    /** A start of the process over the stored tables. */
    method Start()
      modifies this`pendingIp
      ensures View() == old(View()).(pendingIp := map[])
    {
      pendingIp := map[];
    }

    method Publish(mac: Mac, ip: string, action: string)
      modifies this`log
      ensures log == old(log) + [MakeCommand(mac, ip, action)]
    {
      log := log + [MakeCommand(mac, ip, action)];
    }

    method PublishStatus(mac: Mac, ip: string, st: Status)
      modifies this`log
      ensures log == old(log) + CommandFor(mac, ip, st)
    {
      match ActionWord(st) {
        case Some(word) => Publish(mac, ip, word);
        case None =>
      }
    }

    method EvaluateRules(rules: seq<Rule>, ctx: Context) returns (d: Decision)
      ensures d == Evaluation(rules, ctx)
    {
      var loaded := new Rule[|rules|](i requires 0 <= i < |rules| => rules[i]);
      assert loaded[..] == rules;
      d := Engine.Evaluate(loaded, ctx);
    }

    method HasActiveSession(id: nat) returns (r: bool)
      requires id < |db.endpoints|
      ensures r == AlreadyAuthenticated(db.endpoints, db.sessions, id)
    {
      r := false;
      if db.endpoints[id].status == Allowed && db.endpoints[id].username.Some? {
        var found := NewestOpen(db.sessions, id);
        r := found.Some? && db.sessions[found.value].state == Active;
      }
    }

    method ProcessEvent(ev: Detection, rules: seq<Rule>)
      modifies this`log, db
      ensures View() == Detect(old(View()), ev, rules)
    {
      var oldIp := OldIp(db.endpoints, ev.mac);
      var id := db.UpsertEndpoint(DetectionUpsert(ev));
      var row := db.endpoints[id];
      var newIp := HostIp(row.ip);
      var ipChanged := newIp.Some? && oldIp != newIp;
      if rules == [] {
        return;
      }
      var decision := EvaluateRules(rules, DetectionContext(row));
      var newStatus := DecisionStatus(decision);
      var authenticated := HasActiveSession(id);
      var statusChanged := !authenticated && row.status != newStatus;
      var needsUpdate := ipChanged && Restricted(row.status);
      if statusChanged {
        db.SetStatus(id, newStatus);
        if newStatus == Quarantined {
          db.CreateSession(id, QuarantineVlan(decision));
        }
        PublishStatus(row.mac, newIp.GetOr(""), newStatus);
      } else if needsUpdate {
        PublishStatus(row.mac, newIp.GetOr(""), row.status);
      }
    }

    method ProcessAuthResponse(ev: AuthResponse, rules: seq<Rule>)
      modifies this`log, db
      ensures View() == Authenticate(old(View()), ev, rules)
    {
      var id := 0;
      match FindTarget(db.endpoints, ev) {
        case NoKey => return;
        case Found(i) => id := i;
        case Missing =>
          if ev.mac.None? {
            return;
          }
          id := db.UpsertEndpoint(AuthUpsert(ev.mac.value, ev));
      }
      AuthenticateEndpoint(id, ev, rules);
    }

    method AuthenticateEndpoint(id: nat, ev: AuthResponse, rules: seq<Rule>)
      requires id < |db.endpoints|
      modifies this`log, db
      ensures View() == AuthenticateRow(old(View()), id, ev, rules)
    {
      var row := db.endpoints[id];
      var session := AuthSession(db.sessions, id, ev);
      if !ev.success {
        if session.Some? {
          db.Terminate(session.value);
        }
        return;
      }
      var username := ev.username.GetOr("");
      if username != "" {
        db.SetUsername(id, username);
      }
      if session.Some? {
        db.Transition(session.value, Active, Some(username));
      }
      if rules == [] {
        return;
      }
      var decision := EvaluateRules(rules, AuthContext(row, ev.groups));
      var newStatus := DecisionStatus(decision);
      if row.status != newStatus {
        db.SetStatus(id, newStatus);
      }
      PublishStatus(row.mac, row.ip.GetOr(""), newStatus);
    }

    method ProcessPosture(report: PostureReport, rules: seq<Rule>)
      modifies this`log, db
      ensures View() == Report(old(View()), report, rules)
    {
      var found := FindMac(db.endpoints, report.mac);
      if found.None? {
        return;
      }
      var id := found.value;
      var row := db.endpoints[id];
      db.SetPosture(id, report.compliant, report.posture);
      if rules == [] {
        return;
      }
      var decision := EvaluateRules(rules, PostureContext(row, report));
      var newStatus := DecisionStatus(decision);
      if row.status != newStatus {
        db.SetStatus(id, newStatus);
        Publish(row.mac, row.ip.GetOr(""), StatusText(newStatus));
      }
    }

    /** Each listed row in turn; a refused status ends the run with an error. */
    method EvaluatePolicies(listed: seq<nat>, req: BulkRequest) returns (changed: nat, skipped: nat, failed: bool)
      requires forall i | 0 <= i < |listed| :: listed[i] < |db.endpoints|
      modifies this`log, db`endpoints
      ensures BulkState(View(), changed, skipped, failed) == BulkRun(old(View()), listed, req)
    {
      changed, skipped, failed := 0, 0, false;
      var endpoints := db.endpoints;
      for k := 0 to |listed|
        invariant BulkState(View(), changed, skipped, false) == BulkRun(old(View()), listed[..k], req)
      {
        assert listed[..k + 1][..k] == listed[..k];
        ghost var before := BulkState(View(), changed, skipped, false);
        ghost var next := BulkVisit(before, endpoints[listed[k]], listed[k], req);
        assert BulkRun(old(View()), listed[..k + 1], req) == next;
        var id := listed[k];
        var row := endpoints[id];
        if row.exempt {
          skipped := skipped + 1;
          continue;
        }
        var effective := EffectiveText(row, req);
        if effective.Some? && StatusText(row.status) != effective.value {
          match StatusOf(effective.value) {
            case None =>
              FailedRunStops(old(View()), listed, k + 1, req);
              failed := true;
              return;
            case Some(st) =>
              db.SetStatus(id, st);
              changed := changed + 1;
              Publish(row.mac, row.ip.GetOr(""), effective.value);
          }
        }
      }
      assert listed[..|listed|] == listed;
    }

    method UpdateEndpointStatus(id: nat, st: Status) returns (found: bool)
      modifies this`log, db`endpoints
      ensures found <==> id < |old(db.endpoints)|
      ensures View() == Override(old(View()), id, st)
    {
      found := id < |db.endpoints|;
      if found {
        var row := db.endpoints[id];
        db.SetStatus(id, st);
        Publish(row.mac, HostIp(row.ip).GetOr(""), StatusText(st));
      }
    }

    method ReconcileAll(input: ReconcileInput)
      modifies this`log, db
      ensures View() == Reconcile(old(View()), input)
    {
      db.TerminateOpen();
      var reauth := SelectReauth(db.endpoints, input.reauth);
      db.RequarantineAuthenticated();
      ghost var terminated := db.sessions;
      for k := 0 to |reauth|
        invariant db.endpoints == Requarantined(old(db.endpoints))
        invariant db.sessions == terminated + FreshSessions(reauth[..k])
        invariant log == old(log) + RowCommands(db.endpoints, reauth[..k])
        invariant pendingIp == old(pendingIp) && announced == old(announced)
      {
        var row := db.endpoints[reauth[k]];
        db.CreateSession(reauth[k], None);
        Publish(row.mac, HostIp(row.ip).GetOr(""), "quarantine");
        assert FreshSessions(reauth[..k + 1]) == FreshSessions(reauth[..k]) + [NewSession(reauth[k], None)];
        assert RowCommands(db.endpoints, reauth[..k + 1])
            == RowCommands(db.endpoints, reauth[..k]) + [RowCommand(db.endpoints, reauth[k])];
      }
      assert reauth[..|reauth|] == reauth;
      ReapplyRestricted(SelectRestricted(db.endpoints, input.blocked));
      ReapplyIpRules(input.ipRules);
    }

    method ReapplyRestricted(ids: seq<nat>)
      requires forall i | 0 <= i < |ids| :: ids[i] < |db.endpoints|
      modifies this`log
      ensures log == old(log) + RowCommands(db.endpoints, ids)
    {
      for k := 0 to |ids|
        invariant log == old(log) + RowCommands(db.endpoints, ids[..k])
      {
        var row := db.endpoints[ids[k]];
        Publish(row.mac, HostIp(row.ip).GetOr(""), if row.status == Denied then "block" else "quarantine");
        assert RowCommands(db.endpoints, ids[..k + 1])
            == RowCommands(db.endpoints, ids[..k]) + [RowCommand(db.endpoints, ids[k])];
      }
      assert ids[..|ids|] == ids;
    }

    method ReapplyIpRules(rules: seq<(string, string)>)
      modifies this`log
      ensures log == old(log) + IpRuleCommands(rules)
    {
      for k := 0 to |rules|
        invariant log == old(log) + IpRuleCommands(rules[..k])
      {
        assert rules[..k + 1][..k] == rules[..k];
        var (cidr, action) := rules[k];
        if action == "block" || action == "quarantine" {
          Publish(ZERO_MAC, StripCidr(cidr), action);
        }
      }
      assert rules[..|rules|] == rules;
    }

    /** Reading the ARP table: complete entries first, then the earliest line. */
    method ReadTable(lines: seq<ArpLine>) returns (arp: map<string, string>)
      ensures arp == Chosen(lines)
    {
      var raw: map<string, (string, byte)> := map[];
      for k := 0 to |lines|
        invariant raw == RawTable(lines[..k])
      {
        assert lines[..k + 1][..k] == lines[..k];
        var mac := ToLower(lines[k].mac);
        if !Usable(lines[k]) {
          continue;
        }
        if mac !in raw {
          raw := raw[mac := (lines[k].ip, lines[k].flags)];
        } else if lines[k].flags > raw[mac].1 {
          raw := raw[mac := (lines[k].ip, lines[k].flags)];
        }
      }
      assert lines[..|lines|] == lines;
      arp := map mac | mac in raw :: raw[mac].0;
    }

    method SyncArp(scan: Scan)
      requires forall i | 0 <= i < |scan.order| :: scan.order[i] in Chosen(scan.lines)
      modifies this, db`endpoints
      ensures View() == Sync(old(View()), scan)
    {
      var arp := ReadTable(scan.lines);
      var existing := db.endpoints;
      pendingIp := map m | m in pendingIp && m in arp :: pendingIp[m];
      ghost var start := View();
      for k := 0 to |scan.order|
        invariant View() == VisitAll(start, existing, scan.gateways, arp, scan.order[..k])
      {
        assert scan.order[..k + 1][..k] == scan.order[..k];
        SyncDevice(existing, scan.gateways, scan.order[k], arp[scan.order[k]]);
      }
      assert scan.order[..|scan.order|] == scan.order;
    }

    method SyncDevice(existing: seq<Endpoint>, gateways: set<string>, mac: string, ip: string)
      modifies this, db`endpoints
      ensures View() == VisitDevice(old(View()), existing, gateways, mac, ip)
    {
      if ip in gateways {
        pendingIp := pendingIp - {mac};
        return;
      }
      var known := FindText(existing, mac);
      if known.None? {
        announced := announced + [Announcement(mac, ip)];
        pendingIp := pendingIp - {mac};
      } else if HostIp(existing[known.value].ip) != Some(ip) {
        if mac in pendingIp && pendingIp[mac] == ip {
          var device := existing[known.value].mac;
          db.SetIp(device, ip);
          var found := FindMac(db.endpoints, device);
          if found.Some? {
            match db.endpoints[found.value].status {
              case Denied => Publish(device, ip, "block");
              case Quarantined => Publish(device, ip, "quarantine");
              case _ =>
            }
          }
          pendingIp := pendingIp - {mac};
        } else {
          pendingIp := pendingIp[mac := ip];
        }
      } else {
        pendingIp := pendingIp - {mac};
      }
    }
  }

  /** Once a run has failed, the rows after it are not visited. */
  lemma {:induction false} FailedRunStops(w: World, listed: seq<nat>, k: nat, req: BulkRequest)
    requires k <= |listed| && forall i | 0 <= i < |listed| :: listed[i] < |w.endpoints|
    requires BulkRun(w, listed[..k], req).failed
    ensures BulkRun(w, listed, req) == BulkRun(w, listed[..k], req)
  {
    if k == |listed| {
      assert listed[..k] == listed;
    } else {
      var init := listed[..|listed| - 1];
      assert init[..k] == listed[..k];
      FailedRunStops(w, init, k, req);
    }
  }
}
