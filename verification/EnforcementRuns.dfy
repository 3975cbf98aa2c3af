/** Runs of the enforcement service: commands in order, ticks and restarts in between. */
module EnforcementRuns {
  import opened Common
  import opened MacText
  import opened Actions
  import opened Handlers
  import opened Firewall
  import opened Agreement
  import opened Enforcement

  /** A restart forgets the tracked devices; the kernel keeps the firewall. */
  datatype Event =
    | Consume(cmd: Command, env: Environment)
    | Tick(order: seq<string>)
    | Restart

  ghost predicate Fits(s: Service, e: Event) {
    e.Tick? ==>
      && (forall i | 0 <= i < |e.order| :: e.order[i] in s.tracked)
      && (forall k | k in s.tracked :: k in e.order)
      && Distinct(e.order)
  }

  ghost function After(s: Service, e: Event): Service
    requires Fits(s, e)
  {
    match e
    case Consume(cmd, env) => Receive(s, cmd, env)
    case Tick(order) => s.(firewall := Reapplied(s.firewall, s.tracked, order))
    case Restart => s.(tracked := map[])
  }

  ghost predicate Feasible(s: Service, events: seq<Event>)
    decreases |events|, 0
  {
    events == [] ||
    (var n := |events| - 1;
     Feasible(s, events[..n]) && Fits(Served(s, events[..n]), events[n]))
  }

  ghost function Served(s: Service, events: seq<Event>): Service
    requires Feasible(s, events)
    decreases |events|, 1
  {
    if events == [] then s
    else
      var n := |events| - 1;
      After(Served(s, events[..n]), events[n])
  }

  /** The commands of a schedule, in order. */
  function Consumed(events: seq<Event>): seq<Command> {
    if events == [] then []
    else
      var n := |events| - 1;
      if events[n].Consume? then Consumed(events[..n]) + [events[n].cmd] else Consumed(events[..n])
  }

  // ── One command ──

  function CommandVerdict(cmd: Command): Verdict { Effect(cmd.action) }

  lemma ReceiveActs(s: Service, cmd: Command, env: Environment)
    ensures exists f: Firewall ::
              && f.backend == s.firewall.backend && f.chains == s.firewall.chains
              && f.sets.blockedMacs == s.firewall.sets.blockedMacs && f.sets.heldMacs == s.firewall.sets.heldMacs
              && Receive(s, cmd, env).firewall == Act(f, CommandVerdict(cmd), cmd.mac, IpOption(StripCidr(cmd.ip)))
  {
    if IsAllowAction(cmd.action) {
      assert Receive(s, cmd, env).firewall == Act(s.firewall, Free, cmd.mac, IpOption(StripCidr(cmd.ip)));
    } else {
      var f := StaleIpRemoved(s, Cleaned(cmd));
      assert Receive(s, cmd, env).firewall == Act(f, CommandVerdict(cmd), cmd.mac, IpOption(StripCidr(cmd.ip)));
    }
  }

  /** Receiving a command about one device gives it the command's verdict, even when the command
      stops short of tracking it, and keeps every other device's verdict. */
  lemma ReceiveHolds(s: Service, cmd: Command, env: Environment, m: Mac, n: Mac, before: Verdict, u: Verdict)
    requires cmd.mac == Text(m)
    requires s.firewall.backend != Nft ==> Holds(s.firewall, Text(m), before)
    requires m != n ==> Holds(s.firewall, Text(n), u)
    ensures Receive(s, cmd, env).firewall.backend == s.firewall.backend
    ensures Holds(Receive(s, cmd, env).firewall, Text(m), CommandVerdict(cmd))
    ensures m != n ==> Holds(Receive(s, cmd, env).firewall, Text(n), u)
  {
    ReceiveActs(s, cmd, env);
    var f: Firewall :|
      && f.backend == s.firewall.backend && f.chains == s.firewall.chains
      && f.sets.blockedMacs == s.firewall.sets.blockedMacs && f.sets.heldMacs == s.firewall.sets.heldMacs
      && Receive(s, cmd, env).firewall == Act(f, CommandVerdict(cmd), cmd.mac, IpOption(StripCidr(cmd.ip)));
    ActHolds(f, CommandVerdict(cmd), m, IpOption(StripCidr(cmd.ip)), n, u, before);
  }

  /** The verdict recorded for a tracked device. */
  function Recorded(s: Service, key: string): Option<Verdict> {
    if key in s.tracked then Some(ActionVerdict(s.tracked[key].action)) else None
  }

  lemma ReceiveRecords(s: Service, cmd: Command, env: Environment, m: Mac, n: Mac)
    requires cmd.mac == Text(m)
    ensures m != n ==> Recorded(Receive(s, cmd, env), Text(n)) == Recorded(s, Text(n))
    ensures Recorded(Receive(s, cmd, env), Text(m)) ==
            if IsAllowAction(cmd.action) then None
            else if Reaches(Cleaned(cmd), env) then Some(CommandVerdict(cmd))
            else Recorded(s, Text(m))
    ensures forall k | k in Receive(s, cmd, env).tracked :: k in s.tracked || k == Text(m)
  {
    TextIsCanonical(m);
    TextInjective(m, n);
  }

  // ── Ticks ──

  /** Every tracked key is a device name. */
  ghost predicate DeviceKeys(tracked: map<string, Entry>) {
    forall k | k in tracked :: IsDevice(k)
  }

  function TickVerdict(tracked: map<string, Entry>, order: seq<string>, key: string, otherwise: Verdict): Verdict {
    if key in order && key in tracked then ActionVerdict(tracked[key].action) else otherwise
  }

  ghost predicate HoldsAll(f: Firewall, tracked: map<string, Entry>, order: seq<string>, prior: Mac -> Verdict) {
    forall n: Mac :: Holds(f, Text(n), TickVerdict(tracked, order, Text(n), prior(n)))
  }

  /** After re-applying the devices of `order`, each of them has its recorded verdict and every
      other device the verdict it had. */
  lemma {:induction false} ReappliedHolds(f: Firewall, tracked: map<string, Entry>, order: seq<string>,
                                          prior: Mac -> Verdict)
    requires forall i | 0 <= i < |order| :: order[i] in tracked
    requires DeviceKeys(tracked)
    requires forall n: Mac :: Holds(f, Text(n), prior(n))
    ensures HoldsAll(Reapplied(f, tracked, order), tracked, order, prior)
  {
    if order != [] {
      var init, e := order[..|order| - 1], tracked[order[|order| - 1]];
      ReappliedHolds(f, tracked, init, prior);
      var before := Reapplied(f, tracked, init);
      var after := Act(before, ActionVerdict(e.action), order[|order| - 1], Some(e.victimIp));
      ReapplyHolds(before, tracked, order, prior, after);
      assert Reapplied(f, tracked, order) == after;
    }
  }

  lemma ReapplyHolds(f: Firewall, tracked: map<string, Entry>, order: seq<string>, prior: Mac -> Verdict, g: Firewall)
    requires order != [] && order[|order| - 1] in tracked && IsDevice(order[|order| - 1])
    requires HoldsAll(f, tracked, order[..|order| - 1], prior)
    requires var e := tracked[order[|order| - 1]];
             g == Act(f, ActionVerdict(e.action), order[|order| - 1], Some(e.victimIp))
    ensures HoldsAll(g, tracked, order, prior)
  {
    var init, key := order[..|order| - 1], order[|order| - 1];
    assert order == init + [key];
    var k := ParsedMac(key).value;
    var e := tracked[key];
    forall n: Mac
      ensures Holds(g, Text(n), TickVerdict(tracked, order, Text(n), prior(n)))
    {
      TextInjective(n, k);
      ActHolds(f, ActionVerdict(e.action), k, Some(e.victimIp), n,
               TickVerdict(tracked, init, Text(n), prior(n)), TickVerdict(tracked, init, Text(k), prior(k)));
      assert forall x :: x in order <==> x in init || x == key;
    }
  }

  lemma {:induction false} BackendKept(f: Firewall, tracked: map<string, Entry>, order: seq<string>)
    requires forall i | 0 <= i < |order| :: order[i] in tracked
    ensures Reapplied(f, tracked, order).backend == f.backend
  {
    if order != [] {
      BackendKept(f, tracked, order[..|order| - 1]);
    }
  }

  lemma {:induction false} ReappliedSets(f: Firewall, tracked: map<string, Entry>, order: seq<string>, key: string)
    requires f.backend == Nft && DeviceKeys(tracked) && key in order
    requires forall i | 0 <= i < |order| :: order[i] in tracked
    ensures InSets(Reapplied(f, tracked, order).sets, key, ActionVerdict(tracked[key].action))
  {
    var i := |order| - 1;
    var init, last := order[..i], order[i];
    assert order == init + [last];
    BackendKept(f, tracked, init);
    TextIsCanonical(ParsedMac(last).value);
    TextIsCanonical(ParsedMac(key).value);
    if key != last {
      ReappliedSets(f, tracked, init, key);
    }
    NftHolds(Reapplied(f, tracked, init), ActionVerdict(tracked[last].action), last, Some(tracked[last].victimIp),
             key, ActionVerdict(tracked[key].action));
  }

  /** One tick from any contents of the nft sets, an outside flush included, in any order: every
      tracked device ends in exactly the set of its recorded action. */
  lemma TickRestores(s: Service, order: seq<string>, key: string)
    requires s.firewall.backend == Nft && DeviceKeys(s.tracked)
    requires Fits(s, Tick(order)) && key in s.tracked
    ensures InSets(After(s, Tick(order)).firewall.sets, key, ActionVerdict(s.tracked[key].action))
  {
    ReappliedSets(s.firewall, s.tracked, order, key);
  }

  // ── Tracked addresses ──

  ghost predicate TrackedIps(tracked: map<string, Entry>) {
    forall k | k in tracked :: HasIp(tracked[k].victimIp) && IsIpv4(tracked[k].victimIp)
  }

  ghost predicate DistinctIps(tracked: map<string, Entry>) {
    forall j, k | j in tracked && k in tracked && j != k :: tracked[j].victimIp != tracked[k].victimIp
  }

  /** Which address set an address is in. */
  ghost predicate InIpSets(s: NftSets, ip: string, v: Verdict) {
    && (ip in s.blockedIps <==> v == Blocked)
    && (ip in s.heldIps <==> v == Held)
  }

  /** Acting on a device puts the address given in exactly the set of the verdict, an allowed one in
      neither, and leaves every other address where it was. */
  lemma ActOnIps(f: Firewall, v: Verdict, mac: string, ip: string, other: string, u: Verdict)
    requires f.backend == Nft && HasIp(ip) && IsIpv4(ip)
    ensures Act(f, v, mac, Some(ip)).backend == Nft
    ensures InIpSets(Act(f, v, mac, Some(ip)).sets, ip, v)
    ensures other != ip && InIpSets(f.sets, other, u) ==> InIpSets(Act(f, v, mac, Some(ip)).sets, other, u)
  {
  }

  ghost predicate IpsHold(s: NftSets, tracked: map<string, Entry>, order: seq<string>) {
    forall key | key in order && key in tracked ::
        InIpSets(s, tracked[key].victimIp, ActionVerdict(tracked[key].action))
  }

  lemma ReapplyIps(f: Firewall, tracked: map<string, Entry>, order: seq<string>, e: Entry, g: Firewall)
    requires order != [] && order[|order| - 1] in tracked && e == tracked[order[|order| - 1]]
    requires f.backend == Nft && HasIp(e.victimIp) && IsIpv4(e.victimIp) && DistinctIps(tracked)
    requires IpsHold(f.sets, tracked, order[..|order| - 1])
    requires g == Act(f, ActionVerdict(e.action), order[|order| - 1], Some(e.victimIp))
    ensures IpsHold(g.sets, tracked, order)
  {
    var init, last := order[..|order| - 1], order[|order| - 1];
    assert order == init + [last];
    forall key | key in order && key in tracked
      ensures InIpSets(g.sets, tracked[key].victimIp, ActionVerdict(tracked[key].action))
    {
      ActOnIps(f, ActionVerdict(e.action), last, e.victimIp, tracked[key].victimIp, ActionVerdict(tracked[key].action));
      assert key == last || key in init;
    }
  }

  /** One tick also leaves every tracked address in exactly the set of its device's recorded
      action, when no two devices are tracked at the same address. */
  lemma {:induction false} TickRestoresIps(f: Firewall, tracked: map<string, Entry>, order: seq<string>)
    requires f.backend == Nft && TrackedIps(tracked) && DistinctIps(tracked)
    requires forall i | 0 <= i < |order| :: order[i] in tracked
    ensures IpsHold(Reapplied(f, tracked, order).sets, tracked, order)
  {
    if order != [] {
      var init, e := order[..|order| - 1], tracked[order[|order| - 1]];
      TickRestoresIps(f, tracked, init);
      BackendKept(f, tracked, init);
      var before := Reapplied(f, tracked, init);
      var after := Act(before, ActionVerdict(e.action), order[|order| - 1], Some(e.victimIp));
      ReapplyIps(before, tracked, order, e, after);
      assert Reapplied(f, tracked, order) == after;
    }
  }

  // ── Whole schedules ──

  /** What the service and the commands consumed so far agree on. A tracked device is recorded
      with the verdict of its last command; after a restart it may be missing. */
  ghost predicate InStep(s: Service, cmds: seq<Command>) {
    DeviceKeys(s.tracked) && forall m: Mac :: InStepFor(s, LogVerdict(cmds, Text(m)), m)
  }

  ghost predicate InStepFor(s: Service, v: Verdict, m: Mac) {
    Holds(s.firewall, Text(m), v) && (Recorded(s, Text(m)).Some? ==> Recorded(s, Text(m)).value == v)
  }

  /** Commands that restrict a device get as far as tracking it. */
  ghost predicate AllReach(events: seq<Event>) {
    forall i | 0 <= i < |events| && events[i].Consume? && !IsAllowAction(events[i].cmd.action) ::
      Reaches(Cleaned(events[i].cmd), events[i].env)
  }

  ghost predicate DeviceCommands(events: seq<Event>) {
    forall i | 0 <= i < |events| && events[i].Consume? :: IsDevice(events[i].cmd.mac)
  }

  // ── Every device always has one whole verdict ──

  ghost predicate HasVerdict(f: Firewall, n: Mac) { exists v: Verdict :: Holds(f, Text(n), v) }

  ghost predicate Whole(f: Firewall) { forall n: Mac :: HasVerdict(f, n) }

  ghost function SomeVerdict(f: Firewall, n: Mac): (v: Verdict)
    requires Whole(f)
    ensures Holds(f, Text(n), v)
  {
    assert HasVerdict(f, n);
    var v: Verdict :| Holds(f, Text(n), v);
    v
  }

  lemma WholeReceive(s: Service, cmd: Command, env: Environment)
    requires Whole(s.firewall) && IsDevice(cmd.mac)
    ensures Whole(Receive(s, cmd, env).firewall)
  {
    var m := ParsedMac(cmd.mac).value;
    forall n: Mac
      ensures HasVerdict(Receive(s, cmd, env).firewall, n)
    {
      ReceiveHolds(s, cmd, env, m, n, SomeVerdict(s.firewall, m), SomeVerdict(s.firewall, n));
    }
  }

  /** A tick gives each device its recorded verdict and leaves it alone without one. */
  lemma TickDevice(s: Service, order: seq<string>, m: Mac, v: Verdict)
    requires Whole(s.firewall) && DeviceKeys(s.tracked) && Fits(s, Tick(order))
    requires Holds(s.firewall, Text(m), v)
    ensures Holds(After(s, Tick(order)).firewall, Text(m), Recorded(s, Text(m)).GetOr(v))
    ensures Whole(After(s, Tick(order)).firewall)
  {
    var f := s.firewall;
    var prior := (n: Mac) => if n == m then v else SomeVerdict(f, n);
    ReappliedHolds(f, s.tracked, order, prior);
    var g := After(s, Tick(order)).firewall;
    assert HoldsAll(g, s.tracked, order, prior);
    assert Holds(g, Text(m), TickVerdict(s.tracked, order, Text(m), prior(m)));
    forall n: Mac
      ensures HasVerdict(g, n)
    {
      assert Holds(g, Text(n), TickVerdict(s.tracked, order, Text(n), prior(n)));
    }
  }

  lemma {:induction false} WholeServed(s: Service, events: seq<Event>)
    requires Feasible(s, events) && Whole(s.firewall) && DeviceKeys(s.tracked) && DeviceCommands(events)
    ensures Whole(Served(s, events).firewall) && DeviceKeys(Served(s, events).tracked)
  {
    if events != [] {
      var n := |events| - 1;
      WholeServed(s, events[..n]);
      WholeStep(Served(s, events[..n]), events[n]);
    }
  }

  lemma WholeStep(s: Service, e: Event)
    requires Whole(s.firewall) && DeviceKeys(s.tracked) && Fits(s, e)
    requires e.Consume? ==> IsDevice(e.cmd.mac)
    ensures Whole(After(s, e).firewall) && DeviceKeys(After(s, e).tracked)
  {
    match e
    case Consume(cmd, env) =>
      WholeReceive(s, cmd, env);
      ReceiveRecords(s, cmd, env, ParsedMac(cmd.mac).value, ParsedMac(cmd.mac).value);
    case Tick(order) => TickDevice(s, order, ZERO_MAC, SomeVerdict(s.firewall, ZERO_MAC));
    case Restart =>
  }

  // ── Commands that a tick does not undo ──

  /** The command leaves no contrary record of its device behind. */
  ghost predicate Keeps(s: Service, cmd: Command, env: Environment) {
    || IsAllowAction(cmd.action)
    || Reaches(Cleaned(cmd), env)
    || Recorded(s, cmd.mac).None?
    || Recorded(s, cmd.mac) == Some(CommandVerdict(cmd))
  }

  lemma KeptRecord(s: Service, cmd: Command, env: Environment, m: Mac)
    requires cmd.mac == Text(m)
    ensures var r := Recorded(Receive(s, cmd, env), Text(m));
            && (Keeps(s, cmd, env) ==> r.Some? ==> r.value == CommandVerdict(cmd))
            && (!Keeps(s, cmd, env) ==> r.Some? && r.value != CommandVerdict(cmd))
  {
    ReceiveRecords(s, cmd, env, m, m);
  }

  lemma CommandForDevice(s: Service, cmds: seq<Command>, cmd: Command, env: Environment, m: Mac, n: Mac)
    requires InStep(s, cmds) && cmd.mac == Text(m)
    ensures InStepFor(Receive(s, cmd, env), LogVerdict(cmds + [cmd], Text(n)), n) <==> n != m || Keeps(s, cmd, env)
  {
    VerdictAppend(cmds, cmd, m, n);
    assert InStepFor(s, LogVerdict(cmds, Text(m)), m) && InStepFor(s, LogVerdict(cmds, Text(n)), n);
    ReceiveHolds(s, cmd, env, m, n, LogVerdict(cmds, Text(m)), LogVerdict(cmds, Text(n)));
    ReceiveRecords(s, cmd, env, m, n);
    KeptRecord(s, cmd, env, m);
  }

  /** From a service in step, the step survives a command exactly when the command keeps. */
  lemma CommandInStepExactly(s: Service, cmds: seq<Command>, cmd: Command, env: Environment)
    requires InStep(s, cmds) && IsDevice(cmd.mac)
    ensures InStep(Receive(s, cmd, env), cmds + [cmd]) <==> Keeps(s, cmd, env)
  {
    var m := ParsedMac(cmd.mac).value;
    var s' := Receive(s, cmd, env);
    forall n: Mac
      ensures InStepFor(s', LogVerdict(cmds + [cmd], Text(n)), n) <==> n != m || Keeps(s, cmd, env)
    {
      CommandForDevice(s, cmds, cmd, env, m, n);
    }
    ReceiveRecords(s, cmd, env, m, m);
  }

  lemma VerdictAppend(cmds: seq<Command>, cmd: Command, m: Mac, n: Mac)
    requires cmd.mac == Text(m)
    ensures LogVerdict(cmds + [cmd], Text(n)) == if n == m then CommandVerdict(cmd) else LogVerdict(cmds, Text(n))
  {
    LastForConcat(cmds, [cmd], Text(n));
    assert LastFor([cmd], Text(n)) == if cmd.mac == Text(n) then Some(cmd) else None;
    TextInjective(m, n);
  }

  /** And a tick after it, in any order, leaves the command's verdict exactly when it keeps. */
  lemma TickKeepsExactly(s: Service, cmds: seq<Command>, cmd: Command, env: Environment, order: seq<string>)
    requires InStep(s, cmds) && IsDevice(cmd.mac) && s.firewall.backend != Unavailable
    requires Fits(Receive(s, cmd, env), Tick(order))
    ensures Holds(After(Receive(s, cmd, env), Tick(order)).firewall, cmd.mac, CommandVerdict(cmd)) <==>
              Keeps(s, cmd, env)
  {
    var m := ParsedMac(cmd.mac).value;
    var s1 := Receive(s, cmd, env);
    var g := After(s1, Tick(order)).firewall;
    assert InStepFor(s, LogVerdict(cmds, Text(m)), m);
    ReceiveHolds(s, cmd, env, m, m, LogVerdict(cmds, Text(m)), LogVerdict(cmds, Text(m)));
    forall n: Mac
      ensures HasVerdict(s.firewall, n)
    {
      assert InStepFor(s, LogVerdict(cmds, Text(n)), n);
    }
    WholeStep(s, Consume(cmd, env));
    TickDevice(s1, order, m, CommandVerdict(cmd));
    BackendKept(s1.firewall, s1.tracked, order);
    KeptRecord(s, cmd, env, m);
    if !Keeps(s, cmd, env) && Holds(g, Text(m), CommandVerdict(cmd)) {
      HoldsOne(g, Text(m), CommandVerdict(cmd), Recorded(s1, Text(m)).value);
    }
  }

  // ── Schedules, device by device ──

  /** The last command about a device kept. */
  ghost predicate LastKept(s: Service, events: seq<Event>, m: Mac)
    requires Feasible(s, events)
  {
    events == [] ||
    var n := |events| - 1;
    if events[n].Consume? && events[n].cmd.mac == Text(m)
    then Keeps(Served(s, events[..n]), events[n].cmd, events[n].env)
    else LastKept(s, events[..n], m)
  }

  /** The service was restarted after the last command about a device. */
  predicate RestartedSince(events: seq<Event>, m: Mac) {
    events != [] &&
    var n := |events| - 1;
    match events[n]
    case Consume(cmd, _) => cmd.mac != Text(m) && RestartedSince(events[..n], m)
    case Tick(_) => RestartedSince(events[..n], m)
    case Restart => true
  }

  /** A tick ran after the last command about a device, and before any restart after it. */
  predicate TickedSince(events: seq<Event>, m: Mac) {
    events != [] &&
    var n := |events| - 1;
    match events[n]
    case Consume(cmd, _) => cmd.mac != Text(m) && TickedSince(events[..n], m)
    case Tick(_) => TickedSince(events[..n], m) || !RestartedSince(events[..n], m)
    case Restart => TickedSince(events[..n], m)
  }

  /** What the record and the firewall say of a device whose last command asked for `v`. */
  ghost predicate DeviceState(s: Service, m: Mac, v: Verdict, kept: bool, restarted: bool, ticked: bool) {
    var r := Recorded(s, Text(m));
    && (restarted ==> r.None?)
    && (kept ==> r.Some? ==> r.value == v)
    && (!kept && !restarted ==> r.Some? && r.value != v)
    && (kept || !ticked ==> Holds(s.firewall, Text(m), v))
    && (!kept && ticked ==> exists u :: u != v && u != Free && Holds(s.firewall, Text(m), u))
    && (!kept && ticked && !restarted ==> Holds(s.firewall, Text(m), r.value))
  }

  lemma {:induction false} DeviceFollows(s: Service, events: seq<Event>, m: Mac)
    requires Feasible(s, events) && InStep(s, []) && DeviceCommands(events)
    ensures DeviceState(Served(s, events), m, LogVerdict(Consumed(events), Text(m)),
                        LastKept(s, events, m), RestartedSince(events, m), TickedSince(events, m))
  {
    if events == [] {
      assert InStepFor(s, LogVerdict([], Text(m)), m);
      assert Recorded(s, Text(m)).None?;
    } else {
      var n := |events| - 1;
      var init, before := events[..n], Served(s, events[..n]);
      var v := LogVerdict(Consumed(init), Text(m));
      DeviceFollows(s, init, m);
      StartWhole(s);
      WholeServed(s, init);
      match events[n]
      case Consume(cmd, env) => ConsumeState(before, cmd, env, Consumed(init), m, LastKept(s, init, m),
                                             RestartedSince(init, m), TickedSince(init, m));
      case Tick(order) => TickState(before, order, m, v, LastKept(s, init, m), RestartedSince(init, m),
                                    TickedSince(init, m));
      case Restart =>
    }
  }

  lemma StartWhole(s: Service)
    requires InStep(s, [])
    ensures Whole(s.firewall)
  {
    forall n: Mac
      ensures HasVerdict(s.firewall, n)
    {
      assert InStepFor(s, LogVerdict([], Text(n)), n);
    }
  }

  lemma ConsumeState(s: Service, cmd: Command, env: Environment, cmds: seq<Command>, m: Mac, kept: bool,
                     restarted: bool, ticked: bool)
    requires IsDevice(cmd.mac) && Whole(s.firewall)
    requires DeviceState(s, m, LogVerdict(cmds, Text(m)), kept, restarted, ticked)
    ensures var own := cmd.mac == Text(m);
            DeviceState(Receive(s, cmd, env), m, LogVerdict(cmds + [cmd], Text(m)),
                        if own then Keeps(s, cmd, env) else kept, !own && restarted, !own && ticked)
  {
    var k := ParsedMac(cmd.mac).value;
    VerdictAppend(cmds, cmd, k, m);
    TextInjective(k, m);
    KeptRecord(s, cmd, env, k);
    ReceiveRecords(s, cmd, env, k, m);
    forall u | k != m && Holds(s.firewall, Text(m), u)
      ensures Holds(Receive(s, cmd, env).firewall, Text(m), u)
    {
      ReceiveHolds(s, cmd, env, k, m, SomeVerdict(s.firewall, k), u);
    }
    ReceiveHolds(s, cmd, env, k, k, SomeVerdict(s.firewall, k), SomeVerdict(s.firewall, k));
  }

  lemma TickState(s: Service, order: seq<string>, m: Mac, v: Verdict, kept: bool, restarted: bool, ticked: bool)
    requires Whole(s.firewall) && DeviceKeys(s.tracked) && Fits(s, Tick(order))
    requires DeviceState(s, m, v, kept, restarted, ticked)
    ensures DeviceState(After(s, Tick(order)), m, v, kept, restarted, ticked || !restarted)
  {
    forall u | Holds(s.firewall, Text(m), u)
      ensures Holds(After(s, Tick(order)).firewall, Text(m), Recorded(s, Text(m)).GetOr(u))
    {
      TickDevice(s, order, m, u);
    }
    var u := SomeVerdict(s.firewall, m);
    assert Recorded(After(s, Tick(order)), Text(m)) == Recorded(s, Text(m));
  }

  /** For every schedule of commands, ticks and restarts, and every device: the firewall ends with
      the verdict of the last command about it exactly when that command kept, or no tick ran
      between it and the next restart or the end. */
  lemma ScheduleFollowsExactly(s: Service, events: seq<Event>, m: Mac)
    requires Feasible(s, events) && InStep(s, []) && DeviceCommands(events) && s.firewall.backend != Unavailable
    ensures Holds(Served(s, events).firewall, Text(m), LogVerdict(Consumed(events), Text(m))) <==>
            LastKept(s, events, m) || !TickedSince(events, m)
  {
    DeviceFollows(s, events, m);
    BackendServed(s, events);
    var f, v := Served(s, events).firewall, LogVerdict(Consumed(events), Text(m));
    if !LastKept(s, events, m) && TickedSince(events, m) {
      var u :| u != v && Holds(f, Text(m), u);
      if Holds(f, Text(m), v) {
        HoldsOne(f, Text(m), u, v);
      }
    }
  }

  /** The last command about a device kept, or a restart dropped its contrary record before any tick. */
  ghost predicate LeftInStep(s: Service, events: seq<Event>, m: Mac)
    requires Feasible(s, events)
  {
    LastKept(s, events, m) || (RestartedSince(events, m) && !TickedSince(events, m))
  }

  lemma DeviceInStep(s: Service, events: seq<Event>, m: Mac)
    requires Feasible(s, events) && InStep(s, []) && DeviceCommands(events) && s.firewall.backend != Unavailable
    ensures InStepFor(Served(s, events), LogVerdict(Consumed(events), Text(m)), m) <==> LeftInStep(s, events, m)
  {
    DeviceFollows(s, events, m);
    ScheduleFollowsExactly(s, events, m);
  }

  /** Records and firewall are in step with the commands for all devices exactly when each of them
      was left in step. */
  lemma ScheduleInStep(s: Service, events: seq<Event>)
    requires Feasible(s, events) && InStep(s, []) && DeviceCommands(events) && s.firewall.backend != Unavailable
    ensures InStep(Served(s, events), Consumed(events)) <==> forall m: Mac :: LeftInStep(s, events, m)
  {
    var t, cmds := Served(s, events), Consumed(events);
    StartWhole(s);
    WholeServed(s, events);
    if InStep(t, cmds) {
      forall m: Mac
        ensures LeftInStep(s, events, m)
      {
        assert InStepFor(t, LogVerdict(cmds, Text(m)), m);
        DeviceInStep(s, events, m);
      }
    } else {
      var m: Mac :| !InStepFor(t, LogVerdict(cmds, Text(m)), m);
      DeviceInStep(s, events, m);
    }
  }

  /** Commands that all reach tracking keep. */
  lemma {:induction false} ReachingKeeps(s: Service, events: seq<Event>, m: Mac)
    requires Feasible(s, events) && AllReach(events)
    ensures LastKept(s, events, m)
  {
    if events != [] {
      ReachingKeeps(s, events[..|events| - 1], m);
    }
  }

  lemma {:induction false} NoTicks(events: seq<Event>, m: Mac)
    requires forall i | 0 <= i < |events| :: !events[i].Tick?
    ensures !TickedSince(events, m)
  {
    if events != [] {
      NoTicks(events[..|events| - 1], m);
    }
  }

  lemma {:induction false} BackendServed(s: Service, events: seq<Event>)
    requires Feasible(s, events)
    ensures Served(s, events).firewall.backend == s.firewall.backend
  {
    if events != [] {
      var n := |events| - 1;
      BackendServed(s, events[..n]);
      var before := Served(s, events[..n]);
      match events[n]
      case Consume(cmd, env) => ReceiveActs(before, cmd, env);
      case Tick(order) => BackendKept(before.firewall, before.tracked, order);
      case Restart =>
    }
  }

  // ── Where the tracked map and the sets part ──

  /** The record of a device and its verdict in the firewall coincide, none being free. */
  ghost predicate RecordMatches(s: Service, m: Mac, v: Verdict) {
    Holds(s.firewall, Text(m), v) && Recorded(s, Text(m)).GetOr(Free) == v
  }

  /** From a device whose record matches, a restricting command keeps them matched exactly when
      it reaches tracking or the device already had its verdict. */
  lemma RecordMatchesExactly(s: Service, cmd: Command, env: Environment, m: Mac, v: Verdict)
    requires cmd.mac == Text(m) && !IsAllowAction(cmd.action) && s.firewall.backend != Unavailable
    requires RecordMatches(s, m, v)
    ensures (exists u :: RecordMatches(Receive(s, cmd, env), m, u)) <==>
            Reaches(Cleaned(cmd), env) || v == CommandVerdict(cmd)
  {
    var s' := Receive(s, cmd, env);
    ReceiveHolds(s, cmd, env, m, m, v, v);
    ReceiveRecords(s, cmd, env, m, m);
    forall u | Holds(s'.firewall, Text(m), u)
      ensures u == CommandVerdict(cmd)
    {
      HoldsOne(s'.firewall, Text(m), u, CommandVerdict(cmd));
    }
    if Reaches(Cleaned(cmd), env) || v == CommandVerdict(cmd) {
      assert RecordMatches(s', m, CommandVerdict(cmd));
    }
  }

  lemma HoldsOne(f: Firewall, mac: string, u: Verdict, v: Verdict)
    requires f.backend != Unavailable && Holds(f, mac, u) && Holds(f, mac, v)
    ensures u == v
  {
  }

  /** Two restricting commands about a device nobody tracked, the first reaching tracking and the
      second not: the next tick goes back to the first. */
  lemma TickGoesBack(s: Service, m: Mac, first: Command, e1: Environment, second: Command, e2: Environment)
    requires s.firewall.backend == Nft && s.tracked == map[] && first.mac == second.mac == Text(m)
    requires !IsAllowAction(first.action) && !IsAllowAction(second.action)
    requires Reaches(Cleaned(first), e1) && !Reaches(Cleaned(second), e2)
    ensures var t := Receive(Receive(s, first, e1), second, e2);
            && t.firewall.backend == Nft
            && InSets(t.firewall.sets, Text(m), CommandVerdict(second))
            && Fits(t, Tick([Text(m)]))
            && InSets(After(t, Tick([Text(m)])).firewall.sets, Text(m), CommandVerdict(first))
  {
    var s1 := Receive(s, first, e1);
    var t := Receive(s1, second, e2);
    TextIsCanonical(m);
    ReceiveHolds(s, first, e1, m, m, Free, Free);
    ReceiveRecords(s, first, e1, m, m);
    ReceiveHolds(s1, second, e2, m, m, CommandVerdict(first), CommandVerdict(first));
    ReceiveRecords(s1, second, e2, m, m);
    assert t.tracked.Keys == {Text(m)};
    TickRestores(t, [Text(m)], Text(m));
  }

  /** For one, a denial without an address, after a quarantine with one: the next tick quarantines the
      device although its last command blocks it. */
  lemma TickUndoesUnaddressedBlock(f: Firewall, m: Mac, ip: string, gateway: string)
    requires f.backend == Nft && HasIp(ip) && IsIpv4(ip) && '/' !in ip
    ensures var env := Environment(Some(gateway), Sending);
            var s1 := Receive(Service(f, map[]), MakeCommand(m, ip, "quarantine"), env);
            var s2 := Receive(s1, MakeCommand(m, "", "denied"), env);
            && InSets(s2.firewall.sets, Text(m), Blocked)
            && Fits(s2, Tick([Text(m)]))
            && InSets(After(s2, Tick([Text(m)])).firewall.sets, Text(m), Held)
  {
    var env := Environment(Some(gateway), Sending);
    TextIsCanonical(m);
    StripCidrPlain(ip, "");
    UnaddressedWords();
    TickGoesBack(Service(f, map[]), m, MakeCommand(m, ip, "quarantine"), env, MakeCommand(m, "", "denied"), env);
  }

  lemma UnaddressedWords()
    ensures Effect("quarantine") == Held && !IsAllowAction("quarantine") && MapAction("quarantine") == NacQuarantine
    ensures Effect("denied") == Blocked && !IsAllowAction("denied")
  {
  }
}
