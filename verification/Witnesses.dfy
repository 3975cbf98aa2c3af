/** Runs from an empty database at which a promise fails, each on the failing side of a condition
    proved elsewhere. */
module Witnesses {
  import opened Common
  import opened MacText
  import opened Engine
  import opened Rows
  import opened BulkRules
  import opened Handlers
  import opened Runs
  import opened Actions
  import opened Firewall
  import opened Agreement
  import opened Bulk
  import opened SessionRuns
  import opened Addresses
  import opened Enforcement
  import opened EnforcementRuns
  import opened AddressSets
  import opened EndToEnd

  const QUARANTINE_ALL := Rule("quarantine-all", 1, And([]), Quarantine(99, "policy"))

  function Seen(mac: Mac, ip: string): Detection { Detection(mac, ip, "", None, None, None, None, None) }

  function FirstSteps(mac: Mac, ip: string): seq<Step> { [Step.Detecting(Seen(mac, ip), [QUARANTINE_ALL])] }

  function FirstRow(mac: Mac, ip: string): Endpoint { Inserted(DetectionUpsert(Seen(mac, ip))).(status := Quarantined) }

  /** The world after one device was detected under that rule. */
  ghost function FirstWorld(mac: Mac, ip: string): World {
    World([FirstRow(mac, ip)], [NewSession(0, Some(99))],
          [MakeCommand(mac, HostIp(FirstRow(mac, ip).ip).GetOr(""), "quarantine")], map[], [])
  }

  lemma FirstDecision(ctx: Context)
    ensures Evaluation([QUARANTINE_ALL], ctx) == Quarantine(99, "policy")
  {
    var rules := [QUARANTINE_ALL];
    assert Sorted(rules);
    SortOfSorted(rules);
    assert Matches(rules[0].condition, ctx);
  }

  lemma FirstDetection(mac: Mac, ip: string)
    ensures Detect(EMPTY_WORLD, Seen(mac, ip), [QUARANTINE_ALL]) == FirstWorld(mac, ip)
  {
    var row := Inserted(DetectionUpsert(Seen(mac, ip)));
    FirstDecision(DetectionContext(row));
    assert [row][0 := row.(status := Quarantined)] == [FirstRow(mac, ip)];
  }

  lemma FirstRun(mac: Mac, ip: string)
    ensures Possible(EMPTY_WORLD, FirstSteps(mac, ip))
    ensures Run(EMPTY_WORLD, FirstSteps(mac, ip)) == FirstWorld(mac, ip)
  {
    var steps := FirstSteps(mac, ip);
    assert steps[..0] == [];
    FirstDetection(mac, ip);
  }

  lemma OneMore(steps: seq<Step>, step: Step)
    requires Possible(EMPTY_WORLD, steps) && Enabled(Run(EMPTY_WORLD, steps), step)
    ensures Possible(EMPTY_WORLD, steps + [step])
    ensures Run(EMPTY_WORLD, steps + [step]) == Apply(Run(EMPTY_WORLD, steps), step)
  {
    assert (steps + [step])[..|steps|] == steps;
  }

  // ── Sessions ──

  /** A device that logs in naming another device's session activates that one. */
  lemma LoginActivatesForeignSession(a: Mac, b: Mac, ip: string, name: string)
    requires a != b
    ensures var login := Authenticating(AuthResponse(Some(0), None, Some(b), "", true, Some(name), [], 0), []);
            var steps := FirstSteps(a, ip);
            && Possible(EMPTY_WORLD, steps) && Possible(EMPTY_WORLD, steps + [login])
            && Login(Run(EMPTY_WORLD, steps), login, 0)
            && ResponseEndpoint(Run(EMPTY_WORLD, steps), login.response) == Some(1)
            && var after := Run(EMPTY_WORLD, steps + [login]).sessions;
               |after| == 1 && after[0].endpoint == 0 && !after[0].ended && after[0].state == Active
  {
    var login := Authenticating(AuthResponse(Some(0), None, Some(b), "", true, Some(name), [], 0), []);
    var steps := FirstSteps(a, ip);
    FirstRun(a, ip);
    OneMore(steps, login);
    var w := FirstWorld(a, ip);
    assert FindMac(w.endpoints, b).None?;
    AuthChangesOneSession(w, login.response, []);
    LoginActivatesOwnExactly(w, login, 0);
  }

  /** A session that ended with a failed login is marked active by a later login that names it. */
  lemma LoginActivatesEndedSession(a: Mac, ip: string, name: string)
    ensures var failure := Authenticating(AuthResponse(None, Some(0), None, "", false, None, [], 0), []);
            var login := Authenticating(AuthResponse(Some(0), Some(0), None, "", true, Some(name), [], 0), []);
            var steps := FirstSteps(a, ip) + [failure];
            && Possible(EMPTY_WORLD, steps) && Possible(EMPTY_WORLD, steps + [login])
            && Login(Run(EMPTY_WORLD, steps), login, 0)
            && var after := Run(EMPTY_WORLD, steps + [login]).sessions;
               |after| == 1 && after[0].ended && after[0].state == Active
  {
    var failure := Authenticating(AuthResponse(None, Some(0), None, "", false, None, [], 0), []);
    var login := Authenticating(AuthResponse(Some(0), Some(0), None, "", true, Some(name), [], 0), []);
    var first := FirstSteps(a, ip);
    FirstRun(a, ip);
    OneMore(first, failure);
    var w := FirstWorld(a, ip);
    assert NewestOpen(w.sessions, 0) == Some(0);
    AuthChangesOneSession(w, failure.response, []);
    var w1 := Run(EMPTY_WORLD, first + [failure]);
    OneMore(first + [failure], login);
    AuthChangesOneSession(w1, login.response, []);
  }

  // ── Addresses ──

  /** Detected again at another address while no policy is enabled, a quarantined device keeps the old
      address in force: the last command does not carry the stored one. */
  lemma MovedWithoutRules(mac: Mac, x: string, y: string)
    requires mac != ZERO_MAC && x != "" && y != "" && StripCidr(x) != StripCidr(y)
    ensures var steps := FirstSteps(mac, x) + [Step.Detecting(Seen(mac, y), [])];
            && Possible(EMPTY_WORLD, steps)
            && !Addressed(Run(EMPTY_WORLD, steps).endpoints, Run(EMPTY_WORLD, steps).log)
  {
    var first := FirstSteps(mac, x);
    var move := Step.Detecting(Seen(mac, y), []);
    var w := FirstWorld(mac, x);
    FirstRun(mac, x);
    OneMore(first, move);
    FirstGood(mac, x);
    StripInet(x);
    StripInet(y);
    assert FindMac(w.endpoints, mac) == Some(0);
    assert AddressMoved(w.endpoints, DetectionUpsert(Seen(mac, y)));
    ApplyAddressed(w, move);
  }

  /** A failed response that names an unknown endpoint and a quarantined device's address registers the
      device again, at another address nobody publishes. */
  lemma MovedByFailedLogin(mac: Mac, x: string, y: string)
    requires mac != ZERO_MAC && x != "" && y != "" && StripCidr(x) != StripCidr(y)
    ensures var steps := FirstSteps(mac, x) + [FailedLogin(mac, y)];
            && Possible(EMPTY_WORLD, steps)
            && !Addressed(Run(EMPTY_WORLD, steps).endpoints, Run(EMPTY_WORLD, steps).log)
  {
    var w, login := FirstWorld(mac, x), FailedLogin(mac, y);
    FirstRun(mac, x);
    OneMore(FirstSteps(mac, x), login);
    FirstGood(mac, x);
    StripInet(x);
    StripInet(y);
    assert FindMac(w.endpoints, mac) == Some(0);
    assert AuthMoves(w, login.response);
    ApplyAddressed(w, login);
  }

  function FailedLogin(mac: Mac, ip: string): Step {
    Authenticating(AuthResponse(None, Some(7), Some(mac), ip, false, None, [], 0), [])
  }

  lemma FirstGood(mac: Mac, ip: string)
    ensures Good(FirstWorld(mac, ip)) && Consistent(FirstWorld(mac, ip))
  {
    FirstDetection(mac, ip);
    assert Consistent(EMPTY_WORLD);
    assert Good(EMPTY_WORLD);
    DetectAgrees(EMPTY_WORLD, Seen(mac, ip), [QUARANTINE_ALL]);
    DetectAddressed(EMPTY_WORLD, Seen(mac, ip), [QUARANTINE_ALL]);
  }

  /** Detected, moved while no policy is enabled, allowed by an administrator. */
  function MovedAndAllowed(mac: Mac, x: string, y: string): seq<Step> {
    FirstSteps(mac, x) + [Step.Detecting(Seen(mac, y), [])] + [Overriding(0, Allowed)]
  }

  function MovedEvents(mac: Mac, x: string, y: string, env: Environment): seq<Event> {
    [Consume(MakeCommand(mac, x, "quarantine"), env), Consume(MakeCommand(mac, y, "allowed"), env)]
  }

  /** The allow carries the new address, so the old one stays quarantined although nothing is tracked
      and the row is allowed. */
  lemma AllowLeavesOldAddress(mac: Mac, x: string, y: string, gateway: string)
    requires HasIp(x) && IsIpv4(x) && '/' !in x && y != "" && '/' !in y && x != y
    ensures var env := Environment(Some(gateway), Sending);
            var t := Served(FreshService(Nft, NO_CHAINS), MovedEvents(mac, x, y, env));
            && Delivers(MovedAndAllowed(mac, x, y), Nft, NO_CHAINS, MovedEvents(mac, x, y, env))
            && RowVerdict(Run(EMPTY_WORLD, MovedAndAllowed(mac, x, y)).endpoints, mac) == Free
            && t.tracked == map[] && x in t.firewall.sets.heldIps
  {
    var env := Environment(Some(gateway), Sending);
    var s0 := FreshService(Nft, NO_CHAINS);
    MovedRun(mac, x, y);
    TextIsCanonical(mac);
    StripCidrPlain(x, "");
    StripCidrPlain(y, "");
    UnaddressedWords();
    TwoEvents(s0, Consume(MakeCommand(mac, x, "quarantine"), env), Consume(MakeCommand(mac, y, "allowed"), env));
    OldAddressStays(s0, mac, MakeCommand(mac, x, "quarantine"), env, MakeCommand(mac, y, "allowed"));
  }

  lemma OldAddressStays(s: Service, m: Mac, first: Command, env: Environment, second: Command)
    requires s.firewall.backend == Nft && s.tracked == map[] && first.mac == second.mac == Text(m)
    requires !IsAllowAction(first.action) && CommandVerdict(first) == Held && Reaches(Cleaned(first), env)
    requires IsAllowAction(second.action) && AddressOf(second) != AddressOf(first)
    ensures var t := Receive(Receive(s, first, env), second, env);
            t.tracked == map[] && AddressOf(first) in t.firewall.sets.heldIps
  {
    var s1 := Receive(s, first, env);
    var x := AddressOf(first);
    ActOnIps(s.firewall, Held, first.mac, x, x, Free);
    assert InIpSets(s1.firewall.sets, x, Held);
    AllowSetsIps(s1.firewall, second.mac, AddressOf(second), x);
    TextIsCanonical(m);
  }

  lemma MovedRun(mac: Mac, x: string, y: string)
    requires x != "" && '/' !in x && y != "" && '/' !in y
    ensures Possible(EMPTY_WORLD, MovedAndAllowed(mac, x, y))
    ensures Run(EMPTY_WORLD, MovedAndAllowed(mac, x, y)).log ==
            [MakeCommand(mac, x, "quarantine"), MakeCommand(mac, y, "allowed")]
    ensures RowVerdict(Run(EMPTY_WORLD, MovedAndAllowed(mac, x, y)).endpoints, mac) == Free
  {
    var move := Step.Detecting(Seen(mac, y), []);
    FirstRun(mac, x);
    FirstHost(mac, x);
    OneMore(FirstSteps(mac, x), move);
    OneMore(FirstSteps(mac, x) + [move], Overriding(0, Allowed));
    MovedRow(mac, x, y);
    var w := Run(EMPTY_WORLD, FirstSteps(mac, x) + [move]);
    var rows := Override(w, 0, Allowed).endpoints;
    assert rows == [w.endpoints[0].(status := Allowed)];
    FoundAt(rows, 0);
  }

  lemma MovedRow(mac: Mac, x: string, y: string)
    requires y != "" && '/' !in y
    ensures var w := Detect(FirstWorld(mac, x), Seen(mac, y), []);
            && |w.endpoints| == 1 && w.endpoints[0].mac == mac && HostIp(w.endpoints[0].ip) == Some(y)
            && w.log == FirstWorld(mac, x).log
  {
    assert FindMac(FirstWorld(mac, x).endpoints, mac) == Some(0);
    StripInet(y);
    StripCidrPlain(y, "");
  }

  // ── The default "pending" ──

  /** A bulk run without policies and with that default writes a pending row, while enforcement goes
      on quarantining its device. */
  lemma PendingDefault(mac: Mac, ip: string)
    requires mac != ZERO_MAC
    ensures var bulk := Evaluating([0], BulkRequest([], map[], Some("pending")));
            var steps := FirstSteps(mac, ip) + [bulk];
            && Possible(EMPTY_WORLD, steps)
            && !Agree(Run(EMPTY_WORLD, steps))
            && RowVerdict(Run(EMPTY_WORLD, steps).endpoints, mac) == Free
            && LogVerdict(Run(EMPTY_WORLD, steps).log, Text(mac)) == Held
  {
    var req := BulkRequest([], map[], Some("pending"));
    var first := FirstSteps(mac, ip);
    var w := FirstWorld(mac, ip);
    FirstRun(mac, ip);
    FirstGood(mac, ip);
    assert Listing([0], 1);
    OneMore(first, Evaluating([0], req));
    assert PendingWrite(w.endpoints[0], req);
    PendingIsHeld(w, [0], req, 0);
    PendingSettles(w, [0], req, 0);
    var w' := BulkRun(w, [0], req).world;
    FoundAt(w'.endpoints, 0);
  }

  // ── Ticks ──

  /** A device detected without an address is quarantined and not tracked. */
  lemma UntrackedQuarantine(mac: Mac, env: Environment)
    ensures var events := [Consume(MakeCommand(mac, "", "quarantine"), env)];
            && Delivers(FirstSteps(mac, ""), Nft, NO_CHAINS, events)
            && RowVerdict(Run(EMPTY_WORLD, FirstSteps(mac, "")).endpoints, mac) == Held
            && Text(mac) !in Served(FreshService(Nft, NO_CHAINS), events).tracked
  {
    var s0, e := FreshService(Nft, NO_CHAINS), Consume(MakeCommand(mac, "", "quarantine"), env);
    FirstRun(mac, "");
    FoundAt(FirstWorld(mac, "").endpoints, 0);
    assert HostIp(FirstRow(mac, "").ip).None?;
    assert [] + [e] == [e];
    OneMoreEvent(s0, [], e);
    UnaddressedWords();
    assert Receive(s0, e.cmd, env).tracked == map[];
  }

  function DeniedSteps(mac: Mac, ip: string): seq<Step> { FirstSteps(mac, ip) + [Overriding(0, Denied)] }

  /** Both commands of that run, the ARP sender failing at the second, and a tick. */
  function UndoneEvents(mac: Mac, ip: string, gateway: string): seq<Event> {
    [Consume(MakeCommand(mac, ip, "quarantine"), Environment(Some(gateway), Sending)),
     Consume(MakeCommand(mac, ip, "denied"), Environment(Some(gateway), Failing)),
     Tick([Text(mac)])]
  }

  /** A quarantine that reaches tracking, a denial whose ARP frame cannot be sent, a tick: the row says
      denied, the firewall quarantines. */
  lemma TickUndoesDenial(mac: Mac, ip: string, gateway: string)
    requires HasIp(ip) && IsIpv4(ip) && '/' !in ip
    ensures Delivers(DeniedSteps(mac, ip), Nft, NO_CHAINS, UndoneEvents(mac, ip, gateway))
    ensures RowVerdict(Run(EMPTY_WORLD, DeniedSteps(mac, ip)).endpoints, mac) == Blocked
    ensures Holds(Served(FreshService(Nft, NO_CHAINS), UndoneEvents(mac, ip, gateway)).firewall, Text(mac), Held)
  {
    DeniedRun(mac, ip);
    UndoneSchedule(mac, ip, gateway);
  }

  lemma DeniedRun(mac: Mac, ip: string)
    requires HasIp(ip) && '/' !in ip
    ensures Possible(EMPTY_WORLD, DeniedSteps(mac, ip))
    ensures Run(EMPTY_WORLD, DeniedSteps(mac, ip)).log
              == [MakeCommand(mac, ip, "quarantine"), MakeCommand(mac, ip, "denied")]
    ensures RowVerdict(Run(EMPTY_WORLD, DeniedSteps(mac, ip)).endpoints, mac) == Blocked
  {
    FirstRun(mac, ip);
    OneMore(FirstSteps(mac, ip), Overriding(0, Denied));
    FirstHost(mac, ip);
    FirstDenied(mac, ip);
  }

  lemma FirstHost(mac: Mac, ip: string)
    requires ip != "" && '/' !in ip
    ensures HostIp(FirstRow(mac, ip).ip) == Some(ip)
  {
    StripInet(ip);
    StripCidrPlain(ip, "");
  }

  lemma FirstDenied(mac: Mac, ip: string)
    ensures var w, host := Override(FirstWorld(mac, ip), 0, Denied), HostIp(FirstRow(mac, ip).ip).GetOr("");
            && w.log == [MakeCommand(mac, host, "quarantine"), MakeCommand(mac, host, "denied")]
            && RowVerdict(w.endpoints, mac) == Blocked
  {
    var rows := Override(FirstWorld(mac, ip), 0, Denied).endpoints;
    assert rows == [FirstRow(mac, ip).(status := Denied)];
    FoundAt(rows, 0);
  }

  lemma OneMoreEvent(s: Service, events: seq<Event>, e: Event)
    requires Feasible(s, events) && Fits(Served(s, events), e)
    ensures Feasible(s, events + [e]) && Served(s, events + [e]) == After(Served(s, events), e)
    ensures Consumed(events + [e]) == if e.Consume? then Consumed(events) + [e.cmd] else Consumed(events)
  {
    assert (events + [e])[..|events|] == events;
  }

  lemma UndoneSchedule(mac: Mac, ip: string, gateway: string)
    requires HasIp(ip) && IsIpv4(ip) && '/' !in ip
    ensures Feasible(FreshService(Nft, NO_CHAINS), UndoneEvents(mac, ip, gateway))
    ensures Consumed(UndoneEvents(mac, ip, gateway))
              == [MakeCommand(mac, ip, "quarantine"), MakeCommand(mac, ip, "denied")]
    ensures Holds(Served(FreshService(Nft, NO_CHAINS), UndoneEvents(mac, ip, gateway)).firewall, Text(mac), Held)
  {
    TextIsCanonical(mac);
    StripCidrPlain(ip, "");
    UnaddressedWords();
    GoesBack(FreshService(Nft, NO_CHAINS), mac, MakeCommand(mac, ip, "quarantine"), Environment(Some(gateway), Sending),
             MakeCommand(mac, ip, "denied"), Environment(Some(gateway), Failing));
  }

  lemma GoesBack(s: Service, m: Mac, first: Command, e1: Environment, second: Command, e2: Environment)
    requires s.firewall.backend == Nft && s.tracked == map[] && first.mac == second.mac == Text(m)
    requires !IsAllowAction(first.action) && !IsAllowAction(second.action)
    requires Reaches(Cleaned(first), e1) && !Reaches(Cleaned(second), e2)
    ensures var events := [Consume(first, e1), Consume(second, e2), Tick([Text(m)])];
            && Feasible(s, events)
            && Consumed(events) == [first, second]
            && Holds(Served(s, events).firewall, Text(m), CommandVerdict(first))
  {
    var tick := Tick([Text(m)]);
    TickGoesBack(s, m, first, e1, second, e2);
    ThreeEvents(s, Consume(first, e1), Consume(second, e2), tick);
    var t := Receive(Receive(s, first, e1), second, e2);
    BackendKept(t.firewall, t.tracked, tick.order);
    TextIsCanonical(m);
  }

  lemma ThreeEvents(s: Service, a: Event, b: Event, c: Event)
    requires a.Consume? && b.Consume? && c.Tick? && Fits(After(After(s, a), b), c)
    ensures Feasible(s, [a, b, c]) && Served(s, [a, b, c]) == After(After(After(s, a), b), c)
    ensures Consumed([a, b, c]) == [a.cmd, b.cmd]
  {
    TwoEvents(s, a, b);
    assert [a, b] + [c] == [a, b, c];
    OneMoreEvent(s, [a, b], c);
  }

  lemma OneEvent(s: Service, a: Event)
    requires a.Consume?
    ensures Feasible(s, [a]) && Served(s, [a]) == After(s, a) && Consumed([a]) == [a.cmd]
  {
    assert [] + [a] == [a];
    OneMoreEvent(s, [], a);
  }

  lemma TwoEvents(s: Service, a: Event, b: Event)
    requires a.Consume? && b.Consume?
    ensures Feasible(s, [a, b]) && Served(s, [a, b]) == After(After(s, a), b) && Consumed([a, b]) == [a.cmd, b.cmd]
  {
    assert [a] + [b] == [a, b];
    OneEvent(s, a);
    OneMoreEvent(s, [a], b);
  }
}
