/** Sessions over whole runs: ended sessions stay ended, a restart asks every device to log in
    again, and detection never disturbs a logged-in device. */
module SessionRuns {
  import opened Common
  import opened Engine
  import opened Rows
  import opened BulkRules
  import opened Handlers
  import opened ArpSync
  import opened Runs
  import opened Bulk

  predicate OpenActive(w: World, i: nat) {
    i < |w.sessions| && !w.sessions[i].ended && w.sessions[i].state == Active
  }

  /** The endpoint a response is about, after a possible registration. */
  function ResponseEndpoint(w: World, ev: AuthResponse): Option<nat> {
    match FindTarget(w.endpoints, ev)
    case NoKey => None
    case Found(id) => Some(id)
    case Missing => if ev.mac.None? then None else Some(UpsertId(w.endpoints, AuthUpsert(ev.mac.value, ev)))
  }

  /** The step is a successful login that names or finds session `i`. */
  predicate Login(w: World, step: Step, i: nat) {
    && step.Authenticating? && step.response.success
    && ResponseEndpoint(w, step.response).Some?
    && AuthSession(w.sessions, ResponseEndpoint(w, step.response).value, step.response) == Some(i)
  }

  lemma {:induction false} BulkSessions(w: World, listed: seq<nat>, req: BulkRequest)
    requires ListedIn(listed, w.endpoints)
    ensures BulkRun(w, listed, req).world.sessions == w.sessions
    ensures |BulkRun(w, listed, req).world.endpoints| == |w.endpoints|
  {
    if listed != [] {
      BulkSessions(w, listed[..|listed| - 1], req);
    }
  }

  lemma {:induction false} SyncSessions(w: World, before: seq<Endpoint>, gateways: set<string>,
                                        arp: map<string, string>, order: seq<string>)
    requires forall i | 0 <= i < |order| :: order[i] in arp
    ensures VisitAll(w, before, gateways, arp, order).sessions == w.sessions
  {
    if order != [] {
      SyncSessions(w, before, gateways, arp, order[..|order| - 1]);
    }
  }

  /** Sessions are kept in place, ended ones as ended, and none becomes open and active but `login`. */
  ghost predicate SessionsKept(w: World, w': World, login: Option<nat>) {
    && |w'.sessions| >= |w.sessions|
    && (forall i | 0 <= i < |w.sessions| ::
         && w'.sessions[i].endpoint == w.sessions[i].endpoint
         && (w.sessions[i].ended ==> w'.sessions[i].ended))
    && (forall i: nat | OpenActive(w', i) :: OpenActive(w, i) || Some(i) == login)
  }

  lemma AuthRowSessions(w: World, id: nat, ev: AuthResponse, rules: seq<Rule>)
    requires id < |w.endpoints|
    ensures SessionsKept(w, AuthenticateRow(w, id, ev, rules),
                         if ev.success then AuthSession(w.sessions, id, ev) else None)
  {
    var session := AuthSession(w.sessions, id, ev);
    var name := Some(ev.username.GetOr(""));
    var s' := if session.None? then w.sessions
              else if ev.success then Transitioned(w.sessions, session.value, Active, name)
              else TerminatedOne(w.sessions, session.value);
    assert AuthenticateRow(w, id, ev, rules).sessions == s';
  }

  lemma AuthSessions(w: World, ev: AuthResponse, rules: seq<Rule>)
    ensures SessionsKept(w, Authenticate(w, ev, rules),
                         if ev.success && ResponseEndpoint(w, ev).Some?
                         then AuthSession(w.sessions, ResponseEndpoint(w, ev).value, ev) else None)
  {
    match FindTarget(w.endpoints, ev)
    case NoKey =>
    case Found(id) => AuthRowSessions(w, id, ev, rules);
    case Missing =>
      if ev.mac.Some? {
        var u := AuthUpsert(ev.mac.value, ev);
        AuthRowSessions(w.(endpoints := Upserted(w.endpoints, u)), UpsertId(w.endpoints, u), ev, rules);
      }
  }

  lemma DetectSessions(w: World, ev: Detection, rules: seq<Rule>)
    ensures SessionsKept(w, Detect(w, ev, rules), None)
  {
    var s' := Detect(w, ev, rules).sessions;
    assert || s' == w.sessions
           || (|s'| == |w.sessions| + 1 && s'[..|w.sessions|] == w.sessions
               && s'[|w.sessions|].state == SessionState.Detecting);
  }

  lemma ReconcileSessions(w: World, input: ReconcileInput)
    ensures SessionsKept(w, Reconcile(w, input), None)
    ensures forall i: nat :: !OpenActive(Reconcile(w, input), i)
  {
    var added := FreshSessions(SelectReauth(w.endpoints, input.reauth));
    assert Reconcile(w, input).sessions == TerminatedAll(w.sessions) + added;
  }

  /** No step shortens the table or reopens an ended session, and only a login makes an open
      session active. */
  lemma StepSessions(w: World, step: Step)
    requires Enabled(w, step)
    ensures |Apply(w, step).sessions| >= |w.sessions|
    ensures forall i | 0 <= i < |w.sessions| ::
              && Apply(w, step).sessions[i].endpoint == w.sessions[i].endpoint
              && (w.sessions[i].ended ==> Apply(w, step).sessions[i].ended)
    ensures forall i: nat | OpenActive(Apply(w, step), i) :: OpenActive(w, i) || Login(w, step, i)
    ensures step.Reconciling? ==> forall i: nat :: !OpenActive(Apply(w, step), i)
  {
    match step
    case Detecting(ev, rules) => DetectSessions(w, ev, rules);
    case Authenticating(ev, rules) => AuthSessions(w, ev, rules);
    case Reconciling(input) => ReconcileSessions(w, input);
    case Evaluating(listed, req) => BulkSessions(w, listed, req);
    case Syncing(scan) =>
      var arp := Chosen(scan.lines);
      SyncSessions(w.(pendingIp := Retained(w.pendingIp, arp)), w.endpoints, scan.gateways, arp, scan.order);
    case _ =>
  }

  /** An ended session never becomes open again, whatever follows. */
  lemma {:induction false} EndedStaysEnded(w: World, steps: seq<Step>, i: nat)
    requires Possible(w, steps) && i < |w.sessions| && w.sessions[i].ended
    ensures i < |Run(w, steps).sessions| && Run(w, steps).sessions[i].ended
    ensures Run(w, steps).sessions[i].endpoint == w.sessions[i].endpoint
  {
    if steps != [] {
      var n := |steps| - 1;
      EndedStaysEnded(w, steps[..n], i);
      StepSessions(Run(w, steps[..n]), steps[n]);
    }
  }

  /** After a reconciliation, every open active session was made so by a login since then. */
  lemma {:induction false} ActiveNeedsLogin(w: World, input: ReconcileInput, steps: seq<Step>, i: nat) returns (k: nat)
    requires Possible(Reconcile(w, input), steps)
    requires OpenActive(Run(Reconcile(w, input), steps), i)
    ensures k < |steps| && Possible(Reconcile(w, input), steps[..k])
    ensures Login(Run(Reconcile(w, input), steps[..k]), steps[k], i)
  {
    var w0 := Reconcile(w, input);
    k := 0;
    if steps == [] {
      assert false;
    } else {
      var n := |steps| - 1;
      var before := Run(w0, steps[..n]);
      StepSessions(before, steps[n]);
      if Login(before, steps[n], i) {
        k := n;
      } else {
        k := ActiveNeedsLogin(w, input, steps[..n], i);
        assert steps[..n][..k] == steps[..k];
      }
    }
  }

  /** No step of the run is a login that names or finds session `i`. */
  ghost predicate NoLoginTo(w: World, steps: seq<Step>, i: nat) {
    forall k | 0 <= k < |steps| && Possible(w, steps[..k]) :: !Login(Run(w, steps[..k]), steps[k], i)
  }

  /** After a reconciliation an endpoint does not count as already authenticated before a login names or
      finds its newest open session, whoever else logs in. */
  lemma NotAuthenticatedBeforeLogin(w: World, input: ReconcileInput, steps: seq<Step>, id: nat)
    requires Possible(Reconcile(w, input), steps)
    requires id < |Run(Reconcile(w, input), steps).endpoints|
    requires var own := NewestOpen(Run(Reconcile(w, input), steps).sessions, id);
             own.Some? ==> NoLoginTo(Reconcile(w, input), steps, own.value)
    ensures !AlreadyAuthenticated(Run(Reconcile(w, input), steps).endpoints,
                                  Run(Reconcile(w, input), steps).sessions, id)
  {
    var v := Run(Reconcile(w, input), steps);
    if AlreadyAuthenticated(v.endpoints, v.sessions, id) {
      var k := ActiveNeedsLogin(w, input, steps, NewestOpen(v.sessions, id).value);
      assert false;
    }
  }

  ghost predicate NoLogin(steps: seq<Step>) {
    forall k | 0 <= k < |steps| :: steps[k].Authenticating? ==> !steps[k].response.success
  }

  /** So until the next successful login no endpoint does. */
  lemma NobodyAuthenticatedBeforeLogin(w: World, input: ReconcileInput, steps: seq<Step>, id: nat)
    requires Possible(Reconcile(w, input), steps) && NoLogin(steps)
    requires id < |Run(Reconcile(w, input), steps).endpoints|
    ensures !AlreadyAuthenticated(Run(Reconcile(w, input), steps).endpoints,
                                  Run(Reconcile(w, input), steps).sessions, id)
  {
    NotAuthenticatedBeforeLogin(w, input, steps, id);
  }

  /** Of every login: the session it activates ends as an open one of the endpoint that is logged in
      exactly when the response names no session, or names an open one of that endpoint. Without a
      name it was open for that endpoint before. */
  lemma LoginActivatesOwnExactly(w: World, step: Step, i: nat)
    requires Login(w, step, i)
    ensures step.response.sessionId.None? ==>
              i < |w.sessions| && OpenFor(w.sessions[i], ResponseEndpoint(w, step.response).value)
    ensures var ev := step.response;
            var own := ResponseEndpoint(w, ev).value;
            var after := Authenticate(w, ev, step.rules).sessions;
            && i < |after| == |w.sessions| && after[i].state == Active
            && (OpenFor(after[i], own) <==>
                 || ev.sessionId.None?
                 || (ev.sessionId.value < |w.sessions| && OpenFor(w.sessions[ev.sessionId.value], own)))
  {
    AuthChangesOneSession(w, step.response, step.rules);
  }

  /** The session a response is about, if any. */
  function ResponseSession(w: World, ev: AuthResponse): Option<nat> {
    match ResponseEndpoint(w, ev)
    case Some(id) => AuthSession(w.sessions, id, ev)
    case None => None
  }

  /** A response changes its own session only: a success makes it active under the user name without
      reopening it, a failure ends it. */
  lemma AuthChangesOneSession(w: World, ev: AuthResponse, rules: seq<Rule>)
    ensures var after := Authenticate(w, ev, rules).sessions;
            var own := ResponseSession(w, ev);
            && |after| == |w.sessions|
            && (forall k | 0 <= k < |after| && own != Some(k) :: after[k] == w.sessions[k])
            && (own.Some? && ev.success ==>
                 after[own.value] == w.sessions[own.value].(state := Active, username := Some(ev.username.GetOr(""))))
            && (own.Some? && !ev.success ==> after[own.value].ended && after[own.value].state == Terminated)
  {
    match FindTarget(w.endpoints, ev)
    case NoKey =>
    case Found(id) =>
    case Missing =>
  }

  // ── What opens a session ──

  /** A detection opens a session exactly when it turns a row quarantined; that session is then the
      row's newest open one, awaits login, and carries the VLAN of the decision. */
  lemma DetectOpensExactly(w: World, ev: Detection, rules: seq<Rule>)
    ensures var w' := Detect(w, ev, rules);
            var id := UpsertId(w.endpoints, DetectionUpsert(ev));
            var turned := w'.endpoints[id].status == Quarantined
                && (id < |w.endpoints| ==> w.endpoints[id].status != Quarantined);
            && id < |w'.endpoints|
            && (if turned then
                  && |w'.sessions| == |w.sessions| + 1
                  && NewestOpen(w'.sessions, id) == Some(|w.sessions|)
                  && w'.sessions[|w.sessions|].state == SessionState.Detecting
                  && w'.sessions[|w.sessions|].vlanId ==
                     QuarantineVlan(Evaluation(rules, DetectionContext(Upserted(w.endpoints, DetectionUpsert(ev))[id])))
                else w'.sessions == w.sessions)
  {
    var u := DetectionUpsert(ev);
    var id := UpsertId(w.endpoints, u);
    var row := Upserted(w.endpoints, u)[id];
    assert row.status == if id < |w.endpoints| then w.endpoints[id].status else Pending;
    NewestOpenAppend(w.sessions, NewSession(id, QuarantineVlan(Evaluation(rules, DetectionContext(row)))), id);
  }

  /** After a reconciliation an endpoint has an open session exactly when it was logged in before. */
  lemma ReconcileOpensExactly(w: World, input: ReconcileInput, id: nat)
    requires Enumerates(input.reauth, |w.endpoints|) && id < |w.endpoints|
    ensures NewestOpen(Reconcile(w, input).sessions, id).Some? <==> NeedsReauth(w.endpoints[id])
  {
    var reauth := SelectReauth(w.endpoints, input.reauth);
    var added := FreshSessions(reauth);
    var after := TerminatedAll(w.sessions) + added;
    assert Reconcile(w, input).sessions == after;
    SelectReauthIn(w.endpoints, input.reauth);
    if NeedsReauth(w.endpoints[id]) {
      var k :| 0 <= k < |reauth| && reauth[k] == id;
      assert OpenFor(after[|w.sessions| + k], id);
    } else {
      forall k | 0 <= k < |after|
        ensures !OpenFor(after[k], id)
      {
        if k >= |w.sessions| {
          assert after[k] == NewSession(reauth[k - |w.sessions|], None);
          assert reauth[k - |w.sessions|] in reauth;
        }
      }
    }
  }

  // ── A logged-in device under detection ──

  lemma NewestOpenAppend(sessions: seq<Session>, s: Session, e: nat)
    ensures NewestOpen(sessions + [s], e) == if OpenFor(s, e) then Some(|sessions|) else NewestOpen(sessions, e)
  {
    assert (sessions + [s])[..|sessions|] == sessions;
  }

  lemma DetectKeepsLogin(w: World, ev: Detection, rules: seq<Rule>, id: nat)
    requires id < |w.endpoints| && AlreadyAuthenticated(w.endpoints, w.sessions, id)
    ensures var w' := Detect(w, ev, rules);
            && id < |w'.endpoints|
            && w'.endpoints[id].status == w.endpoints[id].status
            && w'.endpoints[id].username == w.endpoints[id].username
            && NewestOpen(w'.sessions, id) == NewestOpen(w.sessions, id)
            && w.sessions <= w'.sessions
            && AlreadyAuthenticated(w'.endpoints, w'.sessions, id)
  {
    var u := DetectionUpsert(ev);
    var seen := Upserted(w.endpoints, u);
    var j := UpsertId(w.endpoints, u);
    assert seen[id].status == w.endpoints[id].status && seen[id].username == w.endpoints[id].username;
    forall v: Option<int> {
      NewestOpenAppend(w.sessions, NewSession(j, v), id);
    }
  }

  ghost predicate OnlyDetections(steps: seq<Step>) {
    forall k | 0 <= k < |steps| :: steps[k].Detecting?
  }

  /** Any number of detection events, for any devices, addresses, fingerprints and rule sets,
      leave a logged-in device's status, user name and session as they are. */
  lemma {:induction false} DetectionsKeepLogin(w: World, steps: seq<Step>, id: nat)
    requires Possible(w, steps) && OnlyDetections(steps)
    requires id < |w.endpoints| && AlreadyAuthenticated(w.endpoints, w.sessions, id)
    ensures var w' := Run(w, steps);
            && id < |w'.endpoints|
            && w'.endpoints[id].status == Allowed
            && w'.endpoints[id].username == w.endpoints[id].username
            && NewestOpen(w'.sessions, id) == NewestOpen(w.sessions, id)
            && w.sessions <= w'.sessions
            && AlreadyAuthenticated(w'.endpoints, w'.sessions, id)
  {
    if steps != [] {
      var n := |steps| - 1;
      DetectionsKeepLogin(w, steps[..n], id);
      DetectKeepsLogin(Run(w, steps[..n]), steps[n].detection, steps[n].rules, id);
    }
  }
}
