/** The map of tracked devices over whole schedules, against the commands and the firewall. */
module Tracking {
  import opened Common
  import opened MacText
  import opened Actions
  import opened Handlers
  import opened Firewall
  import opened Agreement
  import opened Enforcement
  import opened EnforcementRuns

  // ── Records against commands ──

  /** The last command about a device allows it, reaches tracking, or finds its own verdict recorded. */
  ghost predicate LastRecorded(s: Service, events: seq<Event>, m: Mac)
    requires Feasible(s, events)
  {
    events == [] ||
    var n := |events| - 1;
    if events[n].Consume? && events[n].cmd.mac == Text(m) then
      || IsAllowAction(events[n].cmd.action)
      || Reaches(Cleaned(events[n].cmd), events[n].env)
      || Recorded(Served(s, events[..n]), Text(m)) == Some(CommandVerdict(events[n].cmd))
    else LastRecorded(s, events[..n], m)
  }

  ghost predicate RecordState(s: Service, m: Mac, v: Verdict, recorded: bool, restarted: bool) {
    var r := Recorded(s, Text(m));
    && (restarted ==> r.None?)
    && (!restarted ==> (r.GetOr(Free) == v <==> recorded))
    && (v == Free ==> recorded)
  }

  lemma {:induction false} RecordFollows(s: Service, events: seq<Event>, m: Mac)
    requires Feasible(s, events) && s.tracked == map[] && DeviceCommands(events)
    ensures RecordState(Served(s, events), m, LogVerdict(Consumed(events), Text(m)),
                        LastRecorded(s, events, m), RestartedSince(events, m))
  {
    if events != [] {
      var n := |events| - 1;
      var init, before := events[..n], Served(s, events[..n]);
      RecordFollows(s, init, m);
      match events[n]
      case Consume(cmd, env) =>
        ConsumeRecord(before, cmd, env, Consumed(init), m, LastRecorded(s, init, m), RestartedSince(init, m));
      case Tick(order) => assert Recorded(After(before, Tick(order)), Text(m)) == Recorded(before, Text(m));
      case Restart =>
    }
  }

  lemma ConsumeRecord(s: Service, cmd: Command, env: Environment, cmds: seq<Command>, m: Mac, recorded: bool,
      restarted: bool)
    requires IsDevice(cmd.mac) && RecordState(s, m, LogVerdict(cmds, Text(m)), recorded, restarted)
    ensures var own := cmd.mac == Text(m);
            RecordState(Receive(s, cmd, env), m, LogVerdict(cmds + [cmd], Text(m)),
              if own then
                || IsAllowAction(cmd.action) || Reaches(Cleaned(cmd), env)
                || Recorded(s, Text(m)) == Some(CommandVerdict(cmd))
              else recorded,
              !own && restarted)
  {
    var k := ParsedMac(cmd.mac).value;
    VerdictAppend(cmds, cmd, k, m);
    TextInjective(k, m);
    ReceiveRecords(s, cmd, env, k, m);
  }

  /** For any schedule and device: the record, none being free, is the verdict of the last command
      exactly when that command was recorded and no restart came after it; after a restart exactly
      when it frees the device. */
  lemma RecordsFollowLog(s: Service, events: seq<Event>, m: Mac)
    requires Feasible(s, events) && s.tracked == map[] && DeviceCommands(events)
    ensures var v := LogVerdict(Consumed(events), Text(m));
            Recorded(Served(s, events), Text(m)).GetOr(Free) == v <==>
            if RestartedSince(events, m) then v == Free else LastRecorded(s, events, m)
  {
    RecordFollows(s, events, m);
  }

  // ── Addresses tracked against commands ──

  predicate Restricts(last: Option<Command>) { last.Some? && !IsAllowAction(last.value.action) }

  /** A device is tracked while its last command restricts it, at the address of that command. */
  ghost predicate TracksLast(s: Service, cmds: seq<Command>, m: Mac) {
    var last := LastFor(cmds, Text(m));
    && (Text(m) in s.tracked <==> Restricts(last))
    && (Text(m) in s.tracked ==> s.tracked[Text(m)].victimIp == StripCidr(last.value.ip))
  }

  predicate TrackedAt(s: Service, key: string, ip: string) {
    key in s.tracked && s.tracked[key].victimIp == ip
  }

  /** The last command about a device allows it, reaches tracking, or finds it tracked at its address. */
  ghost predicate LastTracked(s: Service, events: seq<Event>, m: Mac)
    requires Feasible(s, events)
  {
    events == [] ||
    var n := |events| - 1;
    if events[n].Consume? && events[n].cmd.mac == Text(m) then
      || IsAllowAction(events[n].cmd.action)
      || Reaches(Cleaned(events[n].cmd), events[n].env)
      || TrackedAt(Served(s, events[..n]), Text(m), StripCidr(events[n].cmd.ip))
    else LastTracked(s, events[..n], m)
  }

  ghost predicate TrackState(s: Service, cmds: seq<Command>, m: Mac, tracked: bool, restarted: bool) {
    && (restarted ==> Text(m) !in s.tracked)
    && (!restarted ==> (TracksLast(s, cmds, m) <==> tracked))
    && (!Restricts(LastFor(cmds, Text(m))) ==> tracked)
  }

  lemma ReceiveTracks(s: Service, cmd: Command, env: Environment, m: Mac, n: Mac)
    requires cmd.mac == Text(m)
    ensures var t := Receive(s, cmd, env).tracked;
            && (m != n ==> (Text(n) in t <==> Text(n) in s.tracked))
            && (m != n && Text(n) in s.tracked ==> t[Text(n)] == s.tracked[Text(n)])
            && (IsAllowAction(cmd.action) ==> Text(m) !in t)
            && (!IsAllowAction(cmd.action) && Reaches(Cleaned(cmd), env) ==>
                 Text(m) in t && t[Text(m)].victimIp == StripCidr(cmd.ip) && t[Text(m)].victimMac == m)
            && (!IsAllowAction(cmd.action) && !Reaches(Cleaned(cmd), env) ==> t == s.tracked)
  {
    TextIsCanonical(m);
    TextInjective(m, n);
  }

  lemma ConsumeTracks(s: Service, cmd: Command, env: Environment, cmds: seq<Command>, m: Mac, tracked: bool,
      restarted: bool)
    requires IsDevice(cmd.mac) && TrackState(s, cmds, m, tracked, restarted)
    ensures var own := cmd.mac == Text(m);
            TrackState(Receive(s, cmd, env), cmds + [cmd], m,
              if own then
                || IsAllowAction(cmd.action) || Reaches(Cleaned(cmd), env) || TrackedAt(s, Text(m), StripCidr(cmd.ip))
              else tracked,
              !own && restarted)
  {
    var k := ParsedMac(cmd.mac).value;
    LastForConcat(cmds, [cmd], Text(m));
    assert LastFor([cmd], Text(m)) == if cmd.mac == Text(m) then Some(cmd) else None;
    TextInjective(k, m);
    ReceiveTracks(s, cmd, env, k, m);
  }

  lemma {:induction false} TrackFollows(s: Service, events: seq<Event>, m: Mac)
    requires Feasible(s, events) && s.tracked == map[] && DeviceCommands(events)
    ensures TrackState(Served(s, events), Consumed(events), m, LastTracked(s, events, m), RestartedSince(events, m))
  {
    if events != [] {
      var n := |events| - 1;
      var init, before := events[..n], Served(s, events[..n]);
      TrackFollows(s, init, m);
      match events[n]
      case Consume(cmd, env) =>
        ConsumeTracks(before, cmd, env, Consumed(init), m, LastTracked(s, init, m), RestartedSince(init, m));
      case Tick(_) =>
      case Restart =>
    }
  }

  /** For any schedule and device: it is tracked as its last command asks exactly when that command
      was tracked and no restart came after it; after a restart exactly when it restricts nothing. */
  lemma TrackedIpFollowsLog(s: Service, events: seq<Event>, m: Mac)
    requires Feasible(s, events) && s.tracked == map[] && DeviceCommands(events)
    ensures TracksLast(Served(s, events), Consumed(events), m) <==>
            if RestartedSince(events, m) then !Restricts(LastFor(Consumed(events), Text(m)))
            else LastTracked(s, events, m)
  {
    TrackFollows(s, events, m);
  }

  /** A tracked device is tracked under its own hardware address. */
  lemma {:induction false} TrackedUnderOwnMac(s: Service, events: seq<Event>, m: Mac)
    requires Feasible(s, events) && s.tracked == map[] && DeviceCommands(events)
    ensures Text(m) in Served(s, events).tracked ==> Served(s, events).tracked[Text(m)].victimMac == m
  {
    if events != [] {
      var n := |events| - 1;
      TrackedUnderOwnMac(s, events[..n], m);
      if events[n].Consume? {
        var k := ParsedMac(events[n].cmd.mac).value;
        TextInjective(k, m);
        ReceiveTracks(Served(s, events[..n]), events[n].cmd, events[n].env, k, m);
      }
    }
  }

  /** Commands that all reach tracking are recorded and tracked. */
  lemma {:induction false} ReachingTracks(s: Service, events: seq<Event>, m: Mac)
    requires Feasible(s, events) && AllReach(events)
    ensures LastRecorded(s, events, m) && LastTracked(s, events, m)
  {
    if events != [] {
      ReachingTracks(s, events[..|events| - 1], m);
    }
  }

  // ── Records against the firewall ──

  /** For any schedule and device: record and firewall agree exactly when the last command was
      recorded, or a tick went back to an older record; after a restart exactly when it frees the
      device. */
  lemma MapAgreesExactly(s: Service, events: seq<Event>, m: Mac)
    requires Feasible(s, events) && InStep(s, []) && s.tracked == map[]
    requires DeviceCommands(events) && s.firewall.backend != Unavailable
    ensures Holds(Served(s, events).firewall, Text(m), Recorded(Served(s, events), Text(m)).GetOr(Free)) <==>
            if RestartedSince(events, m) then LogVerdict(Consumed(events), Text(m)) == Free
            else LastRecorded(s, events, m) || (!LastKept(s, events, m) && TickedSince(events, m))
  {
    var t, v := Served(s, events), LogVerdict(Consumed(events), Text(m));
    DeviceFollows(s, events, m);
    RecordFollows(s, events, m);
    RecordedKeeps(s, events, m);
    BackendServed(s, events);
    OneVerdict(t.firewall, Text(m));
  }

  lemma OneVerdict(f: Firewall, mac: string)
    requires f.backend != Unavailable
    ensures forall u, v | Holds(f, mac, u) && Holds(f, mac, v) :: u == v
  {
    forall u, v | Holds(f, mac, u) && Holds(f, mac, v)
      ensures u == v
    {
      HoldsOne(f, mac, u, v);
    }
  }

  lemma {:induction false} RecordedKeeps(s: Service, events: seq<Event>, m: Mac)
    requires Feasible(s, events)
    ensures LastRecorded(s, events, m) ==> LastKept(s, events, m)
  {
    if events != [] {
      RecordedKeeps(s, events[..|events| - 1], m);
    }
  }

  /** Every tracked device is in exactly the set of its recorded action. */
  ghost predicate SetsHoldRecords(s: Service) {
    forall k | k in s.tracked :: InSets(s.firewall.sets, k, ActionVerdict(s.tracked[k].action))
  }

  lemma ActAgain(f: Firewall, v: Verdict, key: string, ip: string)
    requires f.backend == Nft && v != Free && IsDevice(key) && InSets(f.sets, key, v)
    ensures var g := Act(f, v, key, Some(ip));
            g.backend == Nft && g.sets.blockedMacs == f.sets.blockedMacs && g.sets.heldMacs == f.sets.heldMacs
  {
    var m := NftMac(key);
    TextIsCanonical(ParsedMac(key).value);
    if v == Blocked {
      assert f.sets.blockedMacs + {m} == f.sets.blockedMacs && f.sets.heldMacs - {m} == f.sets.heldMacs;
    } else {
      assert f.sets.heldMacs + {m} == f.sets.heldMacs && f.sets.blockedMacs - {m} == f.sets.blockedMacs;
    }
  }

  /** Re-applying what is already there, in any order, changes no device set. */
  lemma {:induction false} ReappliedAgain(s: Service, order: seq<string>)
    requires s.firewall.backend == Nft && DeviceKeys(s.tracked) && SetsHoldRecords(s)
    requires forall i | 0 <= i < |order| :: order[i] in s.tracked
    ensures var g := Reapplied(s.firewall, s.tracked, order);
            && g.backend == Nft
            && g.sets.blockedMacs == s.firewall.sets.blockedMacs && g.sets.heldMacs == s.firewall.sets.heldMacs
  {
    if order != [] {
      var init, key := order[..|order| - 1], order[|order| - 1];
      var f, e := Reapplied(s.firewall, s.tracked, init), s.tracked[key];
      ReappliedAgain(s, init);
      SameSets(s.firewall.sets, f.sets, key, ActionVerdict(e.action));
      ActAgain(f, ActionVerdict(e.action), key, e.victimIp);
    }
  }

  lemma SameSets(s: NftSets, t: NftSets, name: string, v: Verdict)
    requires t.blockedMacs == s.blockedMacs && t.heldMacs == s.heldMacs && InSets(s, name, v)
    ensures InSets(t, name, v)
  {
  }

  lemma RecordsByDevice(t: Service)
    requires DeviceKeys(t.tracked)
    ensures SetsHoldRecords(t) <==>
            forall m: Mac :: Recorded(t, Text(m)).Some? ==> InSets(t.firewall.sets, Text(m), Recorded(t, Text(m)).value)
  {
    forall k | k in t.tracked
      ensures Text(ParsedMac(k).value) == k
    {
    }
    if forall m: Mac :: Recorded(t, Text(m)).Some? ==> InSets(t.firewall.sets, Text(m), Recorded(t, Text(m)).value) {
      forall k | k in t.tracked
        ensures InSets(t.firewall.sets, k, ActionVerdict(t.tracked[k].action))
      {
        var m := ParsedMac(k).value;
        assert Recorded(t, Text(m)) == Some(ActionVerdict(t.tracked[k].action));
      }
    }
  }

  /** For one device, a tick changes nothing about it. */
  ghost predicate Idle(s: Service, events: seq<Event>, m: Mac)
    requires Feasible(s, events)
  {
    LastKept(s, events, m) || TickedSince(events, m) || RestartedSince(events, m)
  }

  lemma IdleDevice(s: Service, events: seq<Event>, m: Mac)
    requires Feasible(s, events) && InStep(s, []) && DeviceCommands(events) && s.firewall.backend == Nft
    ensures var t := Served(s, events);
            (Recorded(t, Text(m)).Some? ==> InSets(t.firewall.sets, Text(m), Recorded(t, Text(m)).value)) <==>
            Idle(s, events, m)
  {
    var t := Served(s, events);
    DeviceFollows(s, events, m);
    BackendServed(s, events);
    OneVerdict(t.firewall, Text(m));
    TextIsCanonical(m);
  }

  /** For any schedule on nft, and in any order: the next tick leaves the device sets as they are
      exactly when each device's last command kept, or was already undone, or lost its record. */
  lemma TickIdleExactly(s: Service, events: seq<Event>, order: seq<string>)
    requires Feasible(s, events) && InStep(s, []) && DeviceCommands(events) && s.firewall.backend == Nft
    requires Fits(Served(s, events), Tick(order))
    ensures var t := Served(s, events);
            var after := After(t, Tick(order)).firewall.sets;
            after.blockedMacs == t.firewall.sets.blockedMacs && after.heldMacs == t.firewall.sets.heldMacs <==>
            forall m: Mac :: Idle(s, events, m)
  {
    var t := Served(s, events);
    StartWhole(s);
    WholeServed(s, events);
    BackendServed(s, events);
    RecordsByDevice(t);
    forall m: Mac
      ensures Idle(s, events, m) <==>
              (Recorded(t, Text(m)).Some? ==> InSets(t.firewall.sets, Text(m), Recorded(t, Text(m)).value))
    {
      IdleDevice(s, events, m);
    }
    if SetsHoldRecords(t) {
      ReappliedAgain(t, order);
    } else {
      var key :| key in t.tracked && !InSets(t.firewall.sets, key, ActionVerdict(t.tracked[key].action));
      TickRestores(t, order, key);
    }
  }

  /** When every restricting command reaches tracking and the service is not restarted, map and device
      sets agree for all devices and a tick leaves the device sets as they are. */
  lemma MapAndSetsAgree(s: Service, events: seq<Event>, order: seq<string>)
    requires Feasible(s, events) && InStep(s, []) && s.tracked == map[] && s.firewall.backend == Nft
    requires AllReach(events) && DeviceCommands(events) && Fits(Served(s, events), Tick(order))
    requires forall i | 0 <= i < |events| :: !events[i].Restart?
    ensures var t := Served(s, events);
            && (forall m: Mac :: InSets(t.firewall.sets, Text(m), Recorded(t, Text(m)).GetOr(Free)))
            && After(t, Tick(order)).firewall.sets.blockedMacs == t.firewall.sets.blockedMacs
            && After(t, Tick(order)).firewall.sets.heldMacs == t.firewall.sets.heldMacs
  {
    var t := Served(s, events);
    BackendServed(s, events);
    forall m: Mac
      ensures InSets(t.firewall.sets, Text(m), Recorded(t, Text(m)).GetOr(Free)) && Idle(s, events, m)
    {
      ReachingTracks(s, events, m);
      ReachingKeeps(s, events, m);
      NoRestarts(events, m);
      MapAgreesExactly(s, events, m);
      TextIsCanonical(m);
    }
    TickIdleExactly(s, events, order);
  }

  lemma {:induction false} NoRestarts(events: seq<Event>, m: Mac)
    requires forall i | 0 <= i < |events| :: !events[i].Restart?
    ensures !RestartedSince(events, m)
  {
    if events != [] {
      NoRestarts(events[..|events| - 1], m);
    }
  }
}
