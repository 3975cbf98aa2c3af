/** The command log agrees with the endpoints table in every run. */
module Agreement {
  import opened Common
  import opened MacText
  import opened Engine
  import opened Rows
  import opened Policies
  import opened BulkRules
  import opened Handlers
  import opened Actions

  function StatusVerdict(st: Status): Verdict {
    match st
    case Denied => Blocked
    case Quarantined => Held
    case _ => Free
  }

  function RowVerdict(rows: seq<Endpoint>, mac: Mac): Verdict {
    match FindMac(rows, mac)
    case Some(i) => StatusVerdict(rows[i].status)
    case None => Free
  }

  /** The last command about a device. */
  function LastFor(log: seq<Command>, mac: string): Option<Command> {
    if log == [] then None
    else if log[|log| - 1].mac == mac then Some(log[|log| - 1])
    else LastFor(log[..|log| - 1], mac)
  }

  function LogVerdict(log: seq<Command>, mac: string): Verdict {
    match LastFor(log, mac)
    case Some(c) => Effect(c.action)
    case None => Free
  }

  /** For every device but the all-zero address, the last command asks for what the row says. */
  ghost predicate Agree(w: World) {
    forall m: Mac | m != ZERO_MAC :: LogVerdict(w.log, Text(m)) == RowVerdict(w.endpoints, m)
  }

  ghost predicate Consistent(w: World) {
    UniqueMacs(w.endpoints) && Agree(w)
  }

  // ── Tables ──

  ghost predicate SameVerdicts(rows: seq<Endpoint>, rows': seq<Endpoint>) {
    forall m: Mac :: RowVerdict(rows', m) == RowVerdict(rows, m)
  }

  lemma FoundAt(rows: seq<Endpoint>, i: nat)
    requires UniqueMacs(rows) && i < |rows|
    ensures FindMac(rows, rows[i].mac) == Some(i)
    ensures RowVerdict(rows, rows[i].mac) == StatusVerdict(rows[i].status)
  {
  }

  lemma SameMacs(rows: seq<Endpoint>, rows': seq<Endpoint>, m: Mac)
    requires UniqueMacs(rows) && |rows| == |rows'|
    requires forall i | 0 <= i < |rows| :: rows'[i].mac == rows[i].mac
    ensures UniqueMacs(rows') && FindMac(rows', m) == FindMac(rows, m)
  {
  }

  /** Writing anything but addresses' owners and statuses changes no verdict. */
  lemma FieldsWritten(rows: seq<Endpoint>, rows': seq<Endpoint>)
    requires UniqueMacs(rows) && |rows| == |rows'|
    requires forall i | 0 <= i < |rows| :: rows'[i].mac == rows[i].mac && rows'[i].status == rows[i].status
    ensures UniqueMacs(rows') && SameVerdicts(rows, rows')
  {
    forall m: Mac
      ensures RowVerdict(rows', m) == RowVerdict(rows, m)
    {
      SameMacs(rows, rows', m);
    }
  }

  lemma RowAppended(rows: seq<Endpoint>, row: Endpoint)
    requires UniqueMacs(rows) && FindMac(rows, row.mac).None? && StatusVerdict(row.status) == Free
    ensures UniqueMacs(rows + [row]) && SameVerdicts(rows, rows + [row])
  {
    var rows' := rows + [row];
    assert rows'[..|rows|] == rows;
    forall m: Mac
      ensures RowVerdict(rows', m) == RowVerdict(rows, m)
    {
    }
  }

  lemma UpsertKeepsVerdicts(rows: seq<Endpoint>, u: Upsert)
    requires UniqueMacs(rows)
    ensures UniqueMacs(Upserted(rows, u)) && SameVerdicts(rows, Upserted(rows, u))
  {
    match FindMac(rows, u.mac)
    case Some(_) => FieldsWritten(rows, Upserted(rows, u));
    case None => RowAppended(rows, Inserted(u));
  }

  lemma StatusWritten(rows: seq<Endpoint>, id: nat, st: Status)
    requires UniqueMacs(rows) && id < |rows|
    ensures UniqueMacs(WithStatus(rows, id, st))
    ensures forall m: Mac :: RowVerdict(WithStatus(rows, id, st), m) ==
                             if m == rows[id].mac then StatusVerdict(st) else RowVerdict(rows, m)
  {
    var rows' := WithStatus(rows, id, st);
    forall m: Mac
      ensures RowVerdict(rows', m) == if m == rows[id].mac then StatusVerdict(st) else RowVerdict(rows, m)
    {
      SameMacs(rows, rows', m);
      FoundAt(rows, id);
    }
  }

  // ── The log ──

  lemma {:induction false} LastForConcat(a: seq<Command>, b: seq<Command>, mac: string)
    ensures LastFor(a + b, mac) == if LastFor(b, mac).Some? then LastFor(b, mac) else LastFor(a, mac)
  {
    if b == [] {
      assert a + b == a;
    } else {
      var n := |b| - 1;
      assert (a + b)[..|a + b| - 1] == a + b[..n];
      LastForConcat(a, b[..n], mac);
    }
  }

  lemma {:induction false} LastForIn(log: seq<Command>, mac: string)
    ensures LastFor(log, mac).Some? ==> LastFor(log, mac).value in log && LastFor(log, mac).value.mac == mac
    ensures LastFor(log, mac).None? ==> forall i | 0 <= i < |log| :: log[i].mac != mac
  {
    if log != [] {
      LastForIn(log[..|log| - 1], mac);
    }
  }

  /** Each command names the all-zero address, or a device whose row asks for its effect. */
  ghost predicate Correct(cmds: seq<Command>, rows: seq<Endpoint>) {
    forall i | 0 <= i < |cmds| :: CorrectOne(cmds[i], rows)
  }

  ghost predicate CorrectOne(c: Command, rows: seq<Endpoint>) {
    c.mac == Text(ZERO_MAC) || exists m: Mac :: c.mac == Text(m) && Effect(c.action) == RowVerdict(rows, m)
  }

  /** A step that publishes only correct commands, one at least for each device whose row
      changed its verdict, keeps the agreement. */
  lemma StepAgrees(w: World, w': World, cmds: seq<Command>)
    requires Agree(w) && w'.log == w.log + cmds
    requires Correct(cmds, w'.endpoints)
    requires forall m: Mac | m != ZERO_MAC && RowVerdict(w'.endpoints, m) != RowVerdict(w.endpoints, m) ::
               LastFor(cmds, Text(m)).Some?
    ensures Agree(w')
  {
    forall m: Mac | m != ZERO_MAC
      ensures LogVerdict(w'.log, Text(m)) == RowVerdict(w'.endpoints, m)
    {
      LastForConcat(w.log, cmds, Text(m));
      LastForIn(cmds, Text(m));
      if LastFor(cmds, Text(m)).Some? {
        var c := LastFor(cmds, Text(m)).value;
        TextInjective(m, ZERO_MAC);
        var n: Mac :| c.mac == Text(n) && Effect(c.action) == RowVerdict(w'.endpoints, n);
        TextInjective(m, n);
      }
    }
  }

  lemma Quiet(w: World, w': World)
    requires Agree(w) && w'.log == w.log && SameVerdicts(w.endpoints, w'.endpoints)
    ensures Agree(w')
  {
  }

  lemma OneCommand(w: World, w': World, mac: Mac, c: Command)
    requires Agree(w) && w'.log == w.log + [c]
    requires c.mac == Text(mac) && Effect(c.action) == RowVerdict(w'.endpoints, mac)
    requires forall m: Mac | m != mac :: RowVerdict(w'.endpoints, m) == RowVerdict(w.endpoints, m)
    ensures Agree(w')
  {
    assert CorrectOne(c, w'.endpoints);
    StepAgrees(w, w', [c]);
  }

  lemma WordEffects(st: Status)
    ensures st != Pending ==> Effect(StatusText(st)) == StatusVerdict(st)
    ensures ActionWord(st).Some? ==> st != Pending && Effect(ActionWord(st).value) == StatusVerdict(st)
    ensures st != Pending ==> ActionWord(st).Some?
    ensures Effect(StatusText(Pending)) == Held
  {
  }

  // ── The handlers ──

  lemma StatusDecided(rows: seq<Endpoint>, id: nat, st: Status, rows': seq<Endpoint>)
    requires UniqueMacs(rows) && id < |rows|
    requires rows' == if rows[id].status != st then WithStatus(rows, id, st) else rows
    ensures UniqueMacs(rows') && RowVerdict(rows', rows[id].mac) == StatusVerdict(st)
    ensures forall m: Mac | m != rows[id].mac :: RowVerdict(rows', m) == RowVerdict(rows, m)
  {
    FoundAt(rows, id);
    StatusWritten(rows, id, st);
  }

  /** A row gets a status, written or already there, and the command for it is published. */
  lemma Decided(w: World, w': World, rows: seq<Endpoint>, id: nat, st: Status, cmds: seq<Command>)
    requires Consistent(w) && UniqueMacs(rows) && SameVerdicts(w.endpoints, rows) && id < |rows|
    requires w'.endpoints == if rows[id].status != st then WithStatus(rows, id, st) else rows
    requires w'.log == w.log + cmds && |cmds| == 1 && cmds[0].mac == Text(rows[id].mac)
    requires Effect(cmds[0].action) == StatusVerdict(st)
    ensures Consistent(w')
  {
    var mac, c := rows[id].mac, cmds[0];
    StatusDecided(rows, id, st, w'.endpoints);
    assert forall m: Mac | m != mac :: RowVerdict(w'.endpoints, m) == RowVerdict(w.endpoints, m);
    assert cmds == [c];
    OneCommand(w, w', mac, c);
  }

  lemma DetectAgrees(w: World, ev: Detection, rules: seq<Rule>)
    requires Consistent(w)
    ensures Consistent(Detect(w, ev, rules))
  {
    var u := DetectionUpsert(ev);
    var seen := w.(endpoints := Upserted(w.endpoints, u));
    UpsertKeepsVerdicts(w.endpoints, u);
    Quiet(w, seen);
    if rules != [] {
      var id := UpsertId(w.endpoints, u);
      var row := seen.endpoints[id];
      var w' := Detect(w, ev, rules);
      var st := DecisionStatus(Evaluation(rules, DetectionContext(row)));
      WordEffects(st);
      WordEffects(row.status);
      if !AlreadyAuthenticated(seen.endpoints, w.sessions, id) && row.status != st {
        Decided(seen, w', seen.endpoints, id, st, CommandFor(row.mac, HostIp(row.ip).GetOr(""), st));
      } else if w'.log != seen.log {
        FoundAt(seen.endpoints, id);
        OneCommand(seen, w', row.mac, w'.log[|w.log|]);
      }
    }
  }

  lemma AuthRowAgrees(w: World, id: nat, ev: AuthResponse, rules: seq<Rule>)
    requires Consistent(w) && id < |w.endpoints|
    ensures Consistent(AuthenticateRow(w, id, ev, rules))
  {
    var w' := AuthenticateRow(w, id, ev, rules);
    if ev.success {
      var row := w.endpoints[id];
      var name := ev.username.GetOr("");
      var named := if name != "" then WithUsername(w.endpoints, id, name) else w.endpoints;
      FieldsWritten(w.endpoints, named);
      if rules != [] {
        var st := DecisionStatus(Evaluation(rules, AuthContext(row, ev.groups)));
        WordEffects(st);
        Decided(w, w', named, id, st, CommandFor(row.mac, row.ip.GetOr(""), st));
      } else {
        Quiet(w, w');
      }
    } else {
      Quiet(w, w');
    }
  }

  lemma AuthAgrees(w: World, ev: AuthResponse, rules: seq<Rule>)
    requires Consistent(w)
    ensures Consistent(Authenticate(w, ev, rules))
  {
    match FindTarget(w.endpoints, ev)
    case NoKey =>
    case Found(id) => AuthRowAgrees(w, id, ev, rules);
    case Missing =>
      if ev.mac.Some? {
        var u := AuthUpsert(ev.mac.value, ev);
        var seen := w.(endpoints := Upserted(w.endpoints, u));
        UpsertKeepsVerdicts(w.endpoints, u);
        Quiet(w, seen);
        AuthRowAgrees(seen, UpsertId(w.endpoints, u), ev, rules);
      }
  }

  lemma ReportAgrees(w: World, report: PostureReport, rules: seq<Rule>)
    requires Consistent(w)
    ensures Consistent(Report(w, report, rules))
  {
    if FindMac(w.endpoints, report.mac).Some? {
      var id := FindMac(w.endpoints, report.mac).value;
      var row := w.endpoints[id];
      var rows := WithPosture(w.endpoints, id, report.compliant, report.posture);
      var w' := Report(w, report, rules);
      FieldsWritten(w.endpoints, rows);
      var st := DecisionStatus(Evaluation(rules, PostureContext(row, report)));
      if rules == [] || row.status == st {
        Quiet(w, w');
      } else {
        ReportDecides(w, w', rows, id, st, row.ip.GetOr(""));
      }
    }
  }

  lemma ReportDecides(w: World, w': World, rows: seq<Endpoint>, id: nat, st: Status, ip: string)
    requires Consistent(w) && UniqueMacs(rows) && SameVerdicts(w.endpoints, rows) && id < |rows|
    requires w'.endpoints == if rows[id].status != st then WithStatus(rows, id, st) else rows
    requires st != Pending && w'.log == w.log + [MakeCommand(rows[id].mac, ip, StatusText(st))]
    ensures Consistent(w')
  {
    WordEffects(st);
    Decided(w, w', rows, id, st, [MakeCommand(rows[id].mac, ip, StatusText(st))]);
  }

  lemma OverrideAgrees(w: World, id: nat, st: Status)
    requires Consistent(w) && st != Pending
    ensures Consistent(Override(w, id, st))
  {
    if id < |w.endpoints| {
      var w' := Override(w, id, st);
      StatusWritten(w.endpoints, id, st);
      WordEffects(st);
      OneCommand(w, w', w.endpoints[id].mac, w'.log[|w.log|]);
    }
  }

  lemma IpRuleAgrees(w: World, ip: string, action: string)
    requires Consistent(w)
    ensures Consistent(IpRule(w, ip, action))
  {
    var w' := IpRule(w, ip, action);
    if w' != w {
      StepAgrees(w, w', [MakeCommand(ZERO_MAC, StripCidr(ip), action)]);
    }
  }
}
