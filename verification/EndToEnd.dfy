/** From the endpoints table to packets: a run of the policy manager followed through enforcement. */
module EndToEnd {
  import opened Common
  import opened MacText
  import opened Rows
  import opened Handlers
  import opened Runs
  import opened Actions
  import opened LegacyChains
  import opened Firewall
  import opened Agreement
  import opened RunAgreement
  import opened Enforcement
  import opened EnforcementRuns
  import opened Addresses
  import opened Tracking
  import opened AddressSets

  const NO_CHAINS := Chains([], [], [], [])

  /** A service over an empty firewall. */
  function FreshService(backend: Backend, hooks: Chains): Service {
    Service(Firewall(backend, NftSets({}, {}, {}, {}), hooks.(block := [], quarantine := [])), map[])
  }

  lemma FreshInStep(backend: Backend, hooks: Chains)
    ensures InStep(FreshService(backend, hooks), [])
  {
  }

  lemma {:induction false} NamesConsumed(events: seq<Event>)
    requires Named(Consumed(events))
    ensures DeviceCommands(events)
  {
    if events != [] {
      var n := |events| - 1;
      var earlier := Consumed(events[..n]);
      assert earlier <= Consumed(events);
      forall i | 0 <= i < |earlier|
        ensures IsDevice(earlier[i].mac)
      {
        assert earlier[i] == Consumed(events)[i];
      }
      NamesConsumed(events[..n]);
      if events[n].Consume? {
        assert Consumed(events)[|earlier|] == events[n].cmd;
      }
    }
  }

  ghost predicate SameShape(f: Firewall, g: Firewall) {
    g.backend == f.backend && g.chains.forward == f.chains.forward && g.chains.input == f.chains.input
  }

  lemma {:induction false} ReappliedShape(f: Firewall, tracked: map<string, Entry>, order: seq<string>)
    requires forall i | 0 <= i < |order| :: order[i] in tracked
    ensures SameShape(f, Reapplied(f, tracked, order))
  {
    if order != [] {
      ReappliedShape(f, tracked, order[..|order| - 1]);
    }
  }

  lemma StepShape(s: Service, event: Event)
    requires Fits(s, event)
    ensures SameShape(s.firewall, After(s, event).firewall)
  {
    match event
    case Consume(_, _) =>
    case Tick(order) => ReappliedShape(s.firewall, s.tracked, order);
    case Restart =>
  }

  lemma {:induction false} ServedShape(s: Service, events: seq<Event>)
    requires Feasible(s, events)
    ensures SameShape(s.firewall, Served(s, events).firewall)
  {
    if events != [] {
      var n := |events| - 1;
      ServedShape(s, events[..n]);
      StepShape(Served(s, events[..n]), events[n]);
    }
  }

  /** A schedule over a fresh service that consumes exactly the commands of a run, in order. */
  ghost predicate Delivers(steps: seq<Step>, backend: Backend, hooks: Chains, events: seq<Event>) {
    && Possible(EMPTY_WORLD, steps)
    && Feasible(FreshService(backend, hooks), events)
    && Consumed(events) == Run(EMPTY_WORLD, steps).log
  }

  lemma DeliveredLog(steps: seq<Step>, backend: Backend, hooks: Chains, events: seq<Event>, m: Mac)
    requires Delivers(steps, backend, hooks, events) && m != ZERO_MAC
    ensures InStep(FreshService(backend, hooks), []) && DeviceCommands(events)
    ensures var u, v := RowVerdict(Run(EMPTY_WORLD, steps).endpoints, m), LogVerdict(Consumed(events), Text(m));
            if LastDocumented(steps, m) then u == v else u == Free && v == Held
  {
    RunAgreesExactly(steps, m);
    RunNamed(steps);
    NamesConsumed(events);
    FreshInStep(backend, hooks);
  }

  /** A firewall never leaves free a device whose last command quarantines it. */
  lemma NeverFree(s: Service, events: seq<Event>, m: Mac)
    requires Feasible(s, events) && InStep(s, []) && DeviceCommands(events) && s.firewall.backend != Unavailable
    requires LogVerdict(Consumed(events), Text(m)) == Held
    ensures !Holds(Served(s, events).firewall, Text(m), Free)
  {
    var f := Served(s, events).firewall;
    DeviceFollows(s, events, m);
    BackendServed(s, events);
    var u :| u != Free && Holds(f, Text(m), u);
    if Holds(f, Text(m), Free) {
      HoldsOne(f, Text(m), u, Free);
    }
  }

  /** Take any run of handler steps from an empty database, and any schedule in which enforcement
      consumes its commands in order, with reinforcement ticks and restarts anywhere. The firewall
      ends with exactly what a device's row says if and only if the last command about the device
      came from no bulk default "pending", and left no contrary record behind or no tick ran between
      it and the next restart or the end. */
  lemma FirewallFollowsTable(steps: seq<Step>, backend: Backend, hooks: Chains, events: seq<Event>, m: Mac)
    requires Delivers(steps, backend, hooks, events) && m != ZERO_MAC && backend != Unavailable
    ensures Holds(Served(FreshService(backend, hooks), events).firewall, Text(m),
                  RowVerdict(Run(EMPTY_WORLD, steps).endpoints, m)) <==>
            LastDocumented(steps, m) && (LastKept(FreshService(backend, hooks), events, m) || !TickedSince(events, m))
  {
    DeliveredLog(steps, backend, hooks, events, m);
    if LastDocumented(steps, m) {
      ScheduleFollowsExactly(FreshService(backend, hooks), events, m);
    } else {
      NeverFree(FreshService(backend, hooks), events, m);
    }
  }

  /** So schedules without ticks need no hypothesis on what commands reach. */
  lemma ReplayFollowsTable(steps: seq<Step>, backend: Backend, hooks: Chains, events: seq<Event>, m: Mac)
    requires Delivers(steps, backend, hooks, events) && m != ZERO_MAC && LastDocumented(steps, m)
    requires forall i | 0 <= i < |events| :: !events[i].Tick?
    ensures Holds(Served(FreshService(backend, hooks), events).firewall, Text(m),
                  RowVerdict(Run(EMPTY_WORLD, steps).endpoints, m))
  {
    if backend == Unavailable {
      BackendServed(FreshService(backend, hooks), events);
    } else {
      NoTicks(events, m);
      FirewallFollowsTable(steps, backend, hooks, events, m);
    }
  }

  /** Nor do schedules in which every restricting command reaches tracking. */
  lemma ReachingFollowsTable(steps: seq<Step>, backend: Backend, hooks: Chains, events: seq<Event>, m: Mac)
    requires Delivers(steps, backend, hooks, events) && m != ZERO_MAC && LastDocumented(steps, m) && AllReach(events)
    ensures Holds(Served(FreshService(backend, hooks), events).firewall, Text(m),
                  RowVerdict(Run(EMPTY_WORLD, steps).endpoints, m))
  {
    if backend == Unavailable {
      BackendServed(FreshService(backend, hooks), events);
    } else {
      ReachingKeeps(FreshService(backend, hooks), events, m);
      FirewallFollowsTable(steps, backend, hooks, events, m);
    }
  }

  /** On nft: under exactly that condition a row's device is in the blocked set if and only if it is
      denied, and in the quarantined set if and only if it is quarantined. */
  lemma SetsFollowTable(steps: seq<Step>, events: seq<Event>, m: Mac)
    requires Delivers(steps, Nft, NO_CHAINS, events) && m != ZERO_MAC
    ensures var rows := Run(EMPTY_WORLD, steps).endpoints;
            var row := FindMac(rows, m);
            var f := Served(FreshService(Nft, NO_CHAINS), events).firewall;
            && (Text(m) in f.sets.blockedMacs <==> row.Some? && rows[row.value].status == Denied)
            && (Text(m) in f.sets.heldMacs <==> row.Some? && rows[row.value].status == Quarantined) <==>
            LastDocumented(steps, m) && (LastKept(FreshService(Nft, NO_CHAINS), events, m) || !TickedSince(events, m))
  {
    FirewallFollowsTable(steps, Nft, NO_CHAINS, events, m);
    BackendServed(FreshService(Nft, NO_CHAINS), events);
    TextIsCanonical(m);
  }

  /** What both hooks do with every packet of a sender: a blocked one is dropped in both, a held one
      passes FORWARD for DNS and the portal only, a free one passes. */
  ghost predicate TreatedAs(c: Chains, sender: string, v: Verdict) {
    forall protocol: Protocol, port: nat ::
      && (ForwardDrops(c, Packet(sender, protocol, port)) <==>
           v == Blocked || (v == Held && !PortalTraffic(Packet(sender, protocol, port))))
      && (InputDrops(c, Packet(sender, protocol, port)) <==> v == Blocked)
  }

  lemma TreatedAsOne(c: Chains, sender: string, u: Verdict, v: Verdict)
    requires Hooked(c) && Installed(c, sender, u)
    ensures TreatedAs(c, sender, v) <==> u == v
  {
    forall protocol: Protocol, port: nat
      ensures ForwardDrops(c, Packet(sender, protocol, port)) <==>
                u == Blocked || (u == Held && !PortalTraffic(Packet(sender, protocol, port)))
      ensures InputDrops(c, Packet(sender, protocol, port)) <==> u == Blocked
    {
      PacketsFollowVerdict(c, Packet(sender, protocol, port), u);
    }
    if u != v {
      var p := Packet(sender, OtherProtocol, 0);
      assert !PortalTraffic(p);
      assert (ForwardDrops(c, p) <==> u != Free) && (InputDrops(c, p) <==> u == Blocked);
    }
  }

  /** On iptables-legacy: under exactly that condition every packet of a device is treated as the
      status of its row asks. */
  lemma PacketsFollowTable(steps: seq<Step>, hooks: Chains, events: seq<Event>, m: Mac)
    requires Delivers(steps, IptablesLegacy, hooks, events) && m != ZERO_MAC && Hooked(hooks)
    ensures TreatedAs(Served(FreshService(IptablesLegacy, hooks), events).firewall.chains, IptMac(Text(m)),
                      RowVerdict(Run(EMPTY_WORLD, steps).endpoints, m)) <==>
            LastDocumented(steps, m)
            && (LastKept(FreshService(IptablesLegacy, hooks), events, m) || !TickedSince(events, m))
  {
    var s := FreshService(IptablesLegacy, hooks);
    var v := RowVerdict(Run(EMPTY_WORLD, steps).endpoints, m);
    FirewallFollowsTable(steps, IptablesLegacy, hooks, events, m);
    DeliveredLog(steps, IptablesLegacy, hooks, events, m);
    StartWhole(s);
    WholeServed(s, events);
    ServedShape(s, events);
    var f := Served(s, events).firewall;
    var u := SomeVerdict(f, m);
    TreatedAsOne(f.chains, IptMac(Text(m)), u, v);
    if u != v && Holds(f, Text(m), v) {
      HoldsOne(f, Text(m), u, v);
    }
  }

  /** A device is tracked while its row is denied or quarantined, at the address its row stores. */
  ghost predicate TracksRow(s: Service, rows: seq<Endpoint>, m: Mac) {
    var wanted := WantedFor(rows, m);
    && (Text(m) in s.tracked <==> wanted.Some?)
    && (wanted.Some? ==> s.tracked[Text(m)].victimIp == wanted.value)
  }

  lemma TrackedByTable(w: World, s: Service, m: Mac)
    requires LogVerdict(w.log, Text(m)) == RowVerdict(w.endpoints, m)
    ensures Restricts(LastFor(w.log, Text(m))) <==> WantedFor(w.endpoints, m).Some?
    ensures Sent(w, m) ==> (TracksRow(s, w.endpoints, m) <==> TracksLast(s, w.log, m))
    ensures !Sent(w, m) && TracksLast(s, w.log, m) ==> !TracksRow(s, w.endpoints, m)
    ensures WantedFor(w.endpoints, m).None? ==> Sent(w, m)
  {
  }

  /** For any run and schedule and any device whose last command came from no bulk default "pending".
      Once a restart follows that command, the device is tracked as its row asks if and only if its row
      restricts nothing. Otherwise, when the last change of its stored address was told, if and only
      if that command was tracked; and when that command was tracked, if and only if the change was told. */
  lemma TrackedFollowsTable(steps: seq<Step>, backend: Backend, hooks: Chains, events: seq<Event>, m: Mac)
    requires Delivers(steps, backend, hooks, events) && m != ZERO_MAC && LastDocumented(steps, m)
    ensures var s, rows := FreshService(backend, hooks), Run(EMPTY_WORLD, steps).endpoints;
            if RestartedSince(events, m) then
              TracksRow(Served(s, events), rows, m) <==> WantedFor(rows, m).None?
            else
              && (LastTold(steps, m) ==> (TracksRow(Served(s, events), rows, m) <==> LastTracked(s, events, m)))
              && (LastTracked(s, events, m) ==> (TracksRow(Served(s, events), rows, m) <==> LastTold(steps, m)))
  {
    var s, w := FreshService(backend, hooks), Run(EMPTY_WORLD, steps);
    DeliveredLog(steps, backend, hooks, events, m);
    RunAddressedExactly(steps, m);
    TrackFollows(s, events, m);
    TrackedByTable(w, Served(s, events), m);
  }

  /** On nft, for any address wanted for a device: when the last command about the device came from no
      default "pending", carried that address, was tracked, and no restart followed it, and when each
      event keeps the sets matching the map at that address, the address is in exactly the set of the
      row's status, whatever happens to other devices at other addresses. */
  lemma AddressSetsFollowTable(steps: seq<Step>, events: seq<Event>, m: Mac)
    requires Delivers(steps, Nft, NO_CHAINS, events) && m != ZERO_MAC && LastDocumented(steps, m) && LastTold(steps, m)
    requires LastTracked(FreshService(Nft, NO_CHAINS), events, m) && !RestartedSince(events, m)
    requires var wanted := WantedFor(Run(EMPTY_WORLD, steps).endpoints, m);
             wanted.Some? && OrderlyAt(FreshService(Nft, NO_CHAINS), events, wanted.value)
    ensures var rows := Run(EMPTY_WORLD, steps).endpoints;
            InIpSets(Served(FreshService(Nft, NO_CHAINS), events).firewall.sets, WantedFor(rows, m).value,
                     RowVerdict(rows, m))
  {
    var s, w := FreshService(Nft, NO_CHAINS), Run(EMPTY_WORLD, steps);
    var x := WantedFor(w.endpoints, m).value;
    DeliveredLog(steps, Nft, NO_CHAINS, events, m);
    TrackedFollowsTable(steps, Nft, NO_CHAINS, events, m);
    RunAddressedExactly(steps, m);
    AddressFollowsRecords(s, events, x);
    OrderlyRecorded(s, events, m);
    RecordsFollowLog(s, events, m);
    TrackedOwn(Served(s, events).tracked, Text(m));
  }
}
