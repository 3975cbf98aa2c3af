/** The address sets of the nft back end against the events of a schedule and the addresses the
    service tracks, address by address. */
module AddressSets {
  import opened Common
  import opened MacText
  import opened Actions
  import opened Handlers
  import opened Firewall
  import opened Agreement
  import opened Enforcement
  import opened EnforcementRuns
  import opened Tracking

  // ── What an event does to one address ──

  /** The verdict a tick gives an address: that of the last device in the order tracked there. */
  function TickMove(tracked: map<string, Entry>, order: seq<string>, x: string): Option<Verdict>
    requires forall i | 0 <= i < |order| :: order[i] in tracked
  {
    if order == [] then None
    else
      var e := tracked[order[|order| - 1]];
      if e.victimIp == x then Some(ActionVerdict(e.action)) else TickMove(tracked, order[..|order| - 1], x)
  }

  /** Where an event moves an address, if anywhere: a restricting command puts its own address into the
      set of its verdict and drops the address its device is tracked at, an allow drops its own, a tick
      puts the tracked ones. */
  ghost function Move(s: Service, e: Event, x: string): Option<Verdict>
    requires Fits(s, e)
  {
    match e
    case Consume(cmd, env) =>
      if IsAllowAction(cmd.action) then (if HasIp(x) && AddressOf(cmd) == x then Some(Free) else None)
      else if !Settable(cmd) then None
      else if AddressOf(cmd) == x then Some(CommandVerdict(cmd))
      else if TrackedAt(s, ToLower(cmd.mac), x) then Some(Free)
      else None
    case Tick(order) => TickMove(s.tracked, order, x)
    case Restart => None
  }

  lemma AllowSetsIps(f: Firewall, mac: string, ip: string, x: string)
    requires f.backend == Nft
    ensures var g := Allow(f, mac, IpOption(ip));
            && g.backend == Nft
            && (x in g.sets.blockedIps <==> x in f.sets.blockedIps && !(HasIp(ip) && x == ip))
            && (x in g.sets.heldIps <==> x in f.sets.heldIps && !(HasIp(ip) && x == ip))
  {
  }

  lemma StaleIps(s: Service, cmd: Command, x: string, u: Verdict)
    requires s.firewall.backend == Nft && HasIp(cmd.ip) && IsIpv4(cmd.ip) && InIpSets(s.firewall.sets, x, u)
    ensures var f := StaleIpRemoved(s, cmd);
            && f.backend == Nft
            && InIpSets(f.sets, x, if TrackedAt(s, ToLower(cmd.mac), x) && x != cmd.ip then Free else u)
  {
  }

  lemma SettableMoves(s: Service, cmd: Command, env: Environment, x: string, u: Verdict)
    requires s.firewall.backend == Nft && InIpSets(s.firewall.sets, x, u)
    requires !IsAllowAction(cmd.action) && Settable(cmd)
    ensures Receive(s, cmd, env).firewall.backend == Nft
    ensures InIpSets(Receive(s, cmd, env).firewall.sets, x, Move(s, Consume(cmd, env), x).GetOr(u))
  {
    var clean := Cleaned(cmd);
    var now := if TrackedAt(s, ToLower(cmd.mac), x) && x != clean.ip then Free else u;
    StaleIps(s, clean, x, u);
    ActOnIps(StaleIpRemoved(s, clean), CommandVerdict(cmd), cmd.mac, clean.ip, x, now);
  }

  lemma CommandMoves(s: Service, cmd: Command, env: Environment, x: string, u: Verdict)
    requires s.firewall.backend == Nft && InIpSets(s.firewall.sets, x, u) && (u != Free ==> HasIp(x) && IsIpv4(x))
    ensures Receive(s, cmd, env).firewall.backend == Nft
    ensures InIpSets(Receive(s, cmd, env).firewall.sets, x, Move(s, Consume(cmd, env), x).GetOr(u))
  {
    if IsAllowAction(cmd.action) {
      AllowSetsIps(s.firewall, cmd.mac, AddressOf(cmd), x);
    } else if Settable(cmd) {
      SettableMoves(s, cmd, env, x, u);
    }
  }

  lemma {:induction false} TickMoves(f: Firewall, tracked: map<string, Entry>, order: seq<string>, x: string,
                                     u: Verdict)
    requires f.backend == Nft && TrackedIps(tracked) && InIpSets(f.sets, x, u)
    requires forall i | 0 <= i < |order| :: order[i] in tracked
    ensures Reapplied(f, tracked, order).backend == Nft
    ensures InIpSets(Reapplied(f, tracked, order).sets, x, TickMove(tracked, order, x).GetOr(u))
  {
    if order != [] {
      var init, last := order[..|order| - 1], order[|order| - 1];
      TickMoves(f, tracked, init, x, u);
      ActOnIps(Reapplied(f, tracked, init), ActionVerdict(tracked[last].action), last, tracked[last].victimIp, x,
               TickMove(tracked, init, x).GetOr(u));
    }
  }

  /** A tick moves exactly the tracked addresses, each to the verdict of a device tracked there. */
  lemma {:induction false} TickFinds(tracked: map<string, Entry>, order: seq<string>, x: string)
    requires forall i | 0 <= i < |order| :: order[i] in tracked
    ensures TickMove(tracked, order, x).Some? <==> exists k :: k in order && tracked[k].victimIp == x
    ensures TickMove(tracked, order, x).Some? ==>
              exists k :: k in order && tracked[k].victimIp == x
                          && TickMove(tracked, order, x).value == ActionVerdict(tracked[k].action)
  {
    if order != [] {
      var init, last := order[..|order| - 1], order[|order| - 1];
      TickFinds(tracked, init, x);
      assert forall k :: k in order <==> k in init || k == last;
    }
  }

  lemma ReceiveTrackedIps(s: Service, cmd: Command, env: Environment)
    requires TrackedIps(s.tracked)
    ensures TrackedIps(Receive(s, cmd, env).tracked)
  {
  }

  /** Only addresses the sets can take are put into one. */
  lemma MoveIsIpv4(s: Service, e: Event, x: string)
    requires Fits(s, e) && TrackedIps(s.tracked)
    ensures Move(s, e, x).Some? && Move(s, e, x).value != Free ==> HasIp(x) && IsIpv4(x)
  {
    if e.Tick? {
      TickFinds(s.tracked, e.order, x);
    }
  }

  /** Every event leaves an address where it moves it, and otherwise where it was. */
  lemma EventMoves(s: Service, e: Event, x: string, u: Verdict)
    requires s.firewall.backend == Nft && Fits(s, e) && TrackedIps(s.tracked)
    requires InIpSets(s.firewall.sets, x, u) && (u != Free ==> HasIp(x) && IsIpv4(x))
    ensures After(s, e).firewall.backend == Nft
    ensures InIpSets(After(s, e).firewall.sets, x, Move(s, e, x).GetOr(u))
  {
    match e
    case Consume(cmd, env) => CommandMoves(s, cmd, env, x, u);
    case Tick(order) => TickMoves(s.firewall, s.tracked, order, x, u);
    case Restart =>
  }

  lemma EventTrackedIps(s: Service, e: Event)
    requires Fits(s, e) && TrackedIps(s.tracked)
    ensures TrackedIps(After(s, e).tracked)
  {
    if e.Consume? {
      ReceiveTrackedIps(s, e.cmd, e.env);
    }
  }

  // ── Schedules ──

  /** Nothing is tracked and the address is in neither set. */
  ghost predicate Clear(s: Service, x: string) {
    s.firewall.backend == Nft && s.tracked == map[] && InIpSets(s.firewall.sets, x, Free)
  }

  /** What the last event that moved an address made of it. */
  ghost function LastMove(s: Service, events: seq<Event>, x: string): Option<Verdict>
    requires Feasible(s, events)
  {
    if events == [] then None
    else
      var n := |events| - 1;
      var move := Move(Served(s, events[..n]), events[n], x);
      if move.Some? then move else LastMove(s, events[..n], x)
  }

  lemma {:induction false} AddressFollows(s: Service, events: seq<Event>, x: string)
    requires Feasible(s, events) && Clear(s, x)
    ensures var t, v := Served(s, events), LastMove(s, events, x).GetOr(Free);
            && t.firewall.backend == Nft && TrackedIps(t.tracked)
            && InIpSets(t.firewall.sets, x, v) && (v != Free ==> HasIp(x) && IsIpv4(x))
  {
    if events != [] {
      var n := |events| - 1;
      AddressFollows(s, events[..n], x);
      EventTrackedIps(Served(s, events[..n]), events[n]);
      MoveIsIpv4(Served(s, events[..n]), events[n], x);
      EventMoves(Served(s, events[..n]), events[n], x, LastMove(s, events[..n], x).GetOr(Free));
    }
  }

  /** The address a device is tracked at, by the events alone: that of the last command about it that
      reached tracking, unless an allow or a restart came after. */
  function TrackedAddress(events: seq<Event>, key: string): Option<string> {
    if events == [] then None
    else
      var init := events[..|events| - 1];
      match events[|events| - 1]
      case Consume(cmd, env) =>
        if ToLower(cmd.mac) != key then TrackedAddress(init, key)
        else if IsAllowAction(cmd.action) then None
        else if Reaches(Cleaned(cmd), env) then Some(AddressOf(cmd))
        else TrackedAddress(init, key)
      case Tick(_) => TrackedAddress(init, key)
      case Restart => None
  }

  lemma {:induction false} TrackedByEvents(s: Service, events: seq<Event>, key: string)
    requires Feasible(s, events) && s.tracked == map[]
    ensures var t := Served(s, events).tracked;
            TrackedAddress(events, key) == if key in t then Some(t[key].victimIp) else None
  {
    if events != [] {
      TrackedByEvents(s, events[..|events| - 1], key);
    }
  }

  predicate InForce(s: NftSets, x: string) { x in s.blockedIps || x in s.heldIps }

  /** Event `i` puts the address into a set: a restricting command for it that the sets can take, or a
      tick while a device is tracked there. */
  ghost predicate Puts(events: seq<Event>, i: nat, x: string) {
    i < |events| &&
    match events[i]
    case Consume(cmd, _) => !IsAllowAction(cmd.action) && Settable(cmd) && AddressOf(cmd) == x
    case Tick(_) => exists key :: TrackedAddress(events[..i], key) == Some(x)
    case Restart => false
  }

  /** Event `i` drops it: an allow that carries it, or a restricting command for another address about
      a device tracked there. */
  ghost predicate Drops(events: seq<Event>, i: nat, x: string) {
    i < |events| &&
    match events[i]
    case Consume(cmd, _) =>
      if IsAllowAction(cmd.action) then HasIp(x) && AddressOf(cmd) == x
      else Settable(cmd) && AddressOf(cmd) != x && TrackedAddress(events[..i], ToLower(cmd.mac)) == Some(x)
    case _ => false
  }

  ghost predicate NoDrops(events: seq<Event>, i: nat, x: string) {
    forall j: nat | i < j :: !Drops(events, j, x)
  }

  /** Event `i` puts the address and no later one drops it. */
  ghost predicate StaysFrom(events: seq<Event>, i: nat, x: string) {
    Puts(events, i, x) && NoDrops(events, i, x)
  }

  ghost predicate Stays(events: seq<Event>, x: string) {
    exists i: nat :: StaysFrom(events, i, x)
  }

  lemma EarlierEvents(events: seq<Event>, i: nat, x: string)
    requires i < |events| - 1
    ensures Puts(events, i, x) <==> Puts(events[..|events| - 1], i, x)
    ensures Drops(events, i, x) <==> Drops(events[..|events| - 1], i, x)
  {
    assert events[..i] == events[..|events| - 1][..i];
  }

  lemma NoDropsLess(events: seq<Event>, i: nat, x: string)
    requires i < |events| - 1 && NoDrops(events, i, x)
    ensures NoDrops(events[..|events| - 1], i, x) && !Drops(events, |events| - 1, x)
  {
    var init := events[..|events| - 1];
    forall j: nat | i < j
      ensures !Drops(init, j, x)
    {
      assert !Drops(events, j, x);
      if j < |events| - 1 {
        EarlierEvents(events, j, x);
      }
    }
  }

  lemma NoDropsMore(events: seq<Event>, i: nat, x: string)
    requires i < |events| - 1 && NoDrops(events[..|events| - 1], i, x) && !Drops(events, |events| - 1, x)
    ensures NoDrops(events, i, x)
  {
    forall j: nat | i < j
      ensures !Drops(events, j, x)
    {
      assert !Drops(events[..|events| - 1], j, x);
      if j < |events| - 1 {
        EarlierEvents(events, j, x);
      }
    }
  }

  lemma StaysLast(events: seq<Event>, x: string)
    requires events != []
    ensures var n := |events| - 1;
            Stays(events, x) <==> Puts(events, n, x) || (Stays(events[..n], x) && !Drops(events, n, x))
  {
    var n := |events| - 1;
    forall i: nat | i < n
      ensures StaysFrom(events, i, x) <==> StaysFrom(events[..n], i, x) && !Drops(events, n, x)
    {
      EarlierEvents(events, i, x);
      if NoDrops(events, i, x) {
        NoDropsLess(events, i, x);
      } else if NoDrops(events[..n], i, x) && !Drops(events, n, x) {
        NoDropsMore(events, i, x);
      }
    }
    assert StaysFrom(events, n, x) <==> Puts(events, n, x);
  }

  lemma MoveByEvents(s: Service, events: seq<Event>, x: string)
    requires Feasible(s, events) && events != [] && s.tracked == map[]
    ensures var n := |events| - 1;
            var move := Move(Served(s, events[..n]), events[n], x);
            && (Puts(events, n, x) <==> move.Some? && move.value != Free)
            && (Drops(events, n, x) <==> move == Some(Free))
  {
    var n := |events| - 1;
    var t := Served(s, events[..n]);
    match events[n]
    case Consume(cmd, _) => TrackedByEvents(s, events[..n], ToLower(cmd.mac));
    case Tick(order) =>
      forall key
        ensures TrackedAddress(events[..n], key) == if key in t.tracked then Some(t.tracked[key].victimIp) else None
      {
        TrackedByEvents(s, events[..n], key);
      }
      TickFinds(t.tracked, order, x);
    case Restart =>
  }

  /** For any schedule of commands about any devices, ticks and restarts, and any address: it ends in
      force exactly when some event puts it there and no later event drops it. */
  lemma {:induction false} InForceExactly(s: Service, events: seq<Event>, x: string)
    requires Feasible(s, events) && Clear(s, x)
    ensures InForce(Served(s, events).firewall.sets, x) <==> Stays(events, x)
  {
    AddressFollows(s, events, x);
    if events != [] {
      var n := |events| - 1;
      InForceExactly(s, events[..n], x);
      AddressFollows(s, events[..n], x);
      MoveByEvents(s, events, x);
      StaysLast(events, x);
    }
  }

  // ── Against the tracked map ──

  ghost predicate TrackedAs(tracked: map<string, Entry>, x: string, a: NacAction) {
    exists k :: k in tracked && tracked[k].victimIp == x && tracked[k].action == a
  }

  ghost function TrackedVerdict(tracked: map<string, Entry>, x: string): Verdict {
    if TrackedAs(tracked, x, NacBlock) then Blocked
    else if TrackedAs(tracked, x, NacQuarantine) then Held
    else Free
  }

  /** At most one device is tracked at the address. */
  ghost predicate OneAt(tracked: map<string, Entry>, x: string) {
    forall j, k | j in tracked && k in tracked && tracked[j].victimIp == x && tracked[k].victimIp == x :: j == k
  }

  /** The address sets say of an address what the tracked map says. */
  ghost predicate AgreesAt(s: Service, x: string) {
    InIpSets(s.firewall.sets, x, TrackedVerdict(s.tracked, x))
  }

  lemma TrackedOwn(tracked: map<string, Entry>, k: string)
    requires k in tracked && OneAt(tracked, tracked[k].victimIp)
    ensures TrackedVerdict(tracked, tracked[k].victimIp) == ActionVerdict(tracked[k].action)
  {
    assert TrackedAs(tracked, tracked[k].victimIp, tracked[k].action);
  }

  lemma TrackedNone(tracked: map<string, Entry>, x: string)
    ensures TrackedVerdict(tracked, x) == Free <==> forall k | k in tracked :: tracked[k].victimIp != x
  {
    forall k | k in tracked && tracked[k].victimIp == x
      ensures TrackedVerdict(tracked, x) != Free
    {
      assert TrackedAs(tracked, x, tracked[k].action);
    }
  }

  /** A device tracked elsewhere, before and after, does not matter to an address. */
  lemma TrackedElsewhere(tracked: map<string, Entry>, t: map<string, Entry>, key: string, x: string)
    requires tracked - {key} == t - {key}
    requires key in tracked ==> tracked[key].victimIp != x
    requires key in t ==> t[key].victimIp != x
    ensures TrackedVerdict(t, x) == TrackedVerdict(tracked, x)
  {
    forall a: NacAction
      ensures TrackedAs(t, x, a) <==> TrackedAs(tracked, x, a)
    {
      assert forall k | k != key :: (k in t <==> k in t - {key}) && (k in tracked <==> k in tracked - {key});
      if k :| k in tracked && tracked[k].victimIp == x && tracked[k].action == a {
        assert k in t - {key} && t[k] == (t - {key})[k] == (tracked - {key})[k] == tracked[k];
      }
      if k :| k in t && t[k].victimIp == x && t[k].action == a {
        assert k in tracked - {key} && tracked[k] == (tracked - {key})[k] == (t - {key})[k] == t[k];
      }
    }
  }

  lemma TrackedAdded(tracked: map<string, Entry>, key: string, e: Entry, x: string)
    requires OneAt(tracked, x) && OneAt(tracked[key := e], x)
    ensures TrackedVerdict(tracked[key := e], x) ==
            if x == e.victimIp then ActionVerdict(e.action)
            else if key in tracked && tracked[key].victimIp == x then Free
            else TrackedVerdict(tracked, x)
  {
    var t := tracked[key := e];
    if x == e.victimIp {
      TrackedOwn(t, key);
    } else if key in tracked && tracked[key].victimIp == x {
      TrackedNone(t, x);
    } else {
      assert tracked - {key} == t - {key};
      TrackedElsewhere(tracked, t, key, x);
    }
  }

  lemma TrackedDropped(tracked: map<string, Entry>, key: string, x: string)
    requires OneAt(tracked, x)
    ensures TrackedVerdict(tracked - {key}, x) ==
            if key in tracked && tracked[key].victimIp == x then Free else TrackedVerdict(tracked, x)
  {
    var t := tracked - {key};
    if key in tracked && tracked[key].victimIp == x {
      TrackedNone(t, x);
    } else {
      assert tracked - {key} == t - {key};
      TrackedElsewhere(tracked, t, key, x);
    }
  }

  lemma IpVerdict(sets: NftSets, x: string, u: Verdict, v: Verdict)
    requires InIpSets(sets, x, u)
    ensures InIpSets(sets, x, v) <==> u == v
  {
  }

  /** What an event must meet for an address: an allow that carries it, that no other device is tracked
      there, another allow, that its own device is not; a restricting command, that it is tracked, or
      not settable, or finds its address in force with its verdict or its device tracked elsewhere; a
      restart, that nobody is tracked there. */
  ghost predicate FitsAt(s: Service, e: Event, x: string) {
    match e
    case Consume(cmd, env) =>
      var key := ToLower(cmd.mac);
      if IsAllowAction(cmd.action) then
        if HasIp(x) && AddressOf(cmd) == x then forall k | k in s.tracked && k != key :: s.tracked[k].victimIp != x
        else !TrackedAt(s, key, x)
      else
        || !Settable(cmd)
        || Reaches(Cleaned(cmd), env)
        || (if AddressOf(cmd) == x then TrackedVerdict(s.tracked, x) == CommandVerdict(cmd)
            else !TrackedAt(s, key, x))
    case Tick(_) => true
    case Restart => forall k | k in s.tracked :: s.tracked[k].victimIp != x
  }

  lemma AllowFitsAt(s: Service, cmd: Command, env: Environment, x: string)
    requires IsAllowAction(cmd.action) && OneAt(s.tracked, x)
    ensures Move(s, Consume(cmd, env), x).GetOr(TrackedVerdict(s.tracked, x)) ==
              TrackedVerdict(Receive(s, cmd, env).tracked, x) <==>
            FitsAt(s, Consume(cmd, env), x)
  {
    var key := ToLower(cmd.mac);
    TrackedDropped(s.tracked, key, x);
    TrackedNone(s.tracked, x);
    TrackedNone(s.tracked - {key}, x);
  }

  lemma RestrictFitsAt(s: Service, cmd: Command, env: Environment, x: string)
    requires !IsAllowAction(cmd.action) && TrackedIps(s.tracked)
    requires OneAt(s.tracked, x) && OneAt(Receive(s, cmd, env).tracked, x)
    ensures Move(s, Consume(cmd, env), x).GetOr(TrackedVerdict(s.tracked, x)) ==
              TrackedVerdict(Receive(s, cmd, env).tracked, x) <==>
            FitsAt(s, Consume(cmd, env), x)
  {
    var key := ToLower(cmd.mac);
    TrackedNone(s.tracked, x);
    if Reaches(Cleaned(cmd), env) {
      TrackedAdded(s.tracked, key, Receive(s, cmd, env).tracked[key], x);
    }
  }

  lemma TickFitsAt(tracked: map<string, Entry>, order: seq<string>, x: string)
    requires OneAt(tracked, x) && forall i | 0 <= i < |order| :: order[i] in tracked
    ensures TickMove(tracked, order, x).GetOr(TrackedVerdict(tracked, x)) == TrackedVerdict(tracked, x)
  {
    TickFinds(tracked, order, x);
    if TickMove(tracked, order, x).Some? {
      var k :| k in order && tracked[k].victimIp == x
               && TickMove(tracked, order, x).value == ActionVerdict(tracked[k].action);
      TrackedOwn(tracked, k);
    }
  }

  /** For any address at which at most one device is tracked, before and after: from sets that match the
      map there, an event keeps them matching there exactly when it fits. */
  lemma EventAtExactly(s: Service, e: Event, x: string)
    requires s.firewall.backend == Nft && Fits(s, e) && TrackedIps(s.tracked)
    requires OneAt(s.tracked, x) && OneAt(After(s, e).tracked, x) && AgreesAt(s, x)
    ensures AgreesAt(After(s, e), x) <==> FitsAt(s, e, x)
  {
    var u := TrackedVerdict(s.tracked, x);
    TrackedNone(s.tracked, x);
    EventMoves(s, e, x, u);
    IpVerdict(After(s, e).firewall.sets, x, Move(s, e, x).GetOr(u), TrackedVerdict(After(s, e).tracked, x));
    match e
    case Consume(cmd, env) =>
      if IsAllowAction(cmd.action) {
        AllowFitsAt(s, cmd, env, x);
      } else {
        RestrictFitsAt(s, cmd, env, x);
      }
    case Tick(order) => TickFitsAt(s.tracked, order, x);
    case Restart => TrackedNone(After(s, e).tracked, x);
  }

  /** At every point of the schedule at most one device is tracked at the address and the event fits. */
  ghost predicate OrderlyAt(s: Service, events: seq<Event>, x: string)
    requires Feasible(s, events)
  {
    events == [] ||
    var n := |events| - 1;
    && OrderlyAt(s, events[..n], x)
    && OneAt(Served(s, events).tracked, x)
    && FitsAt(Served(s, events[..n]), events[n], x)
  }

  /** Over such a schedule the sets match the map at that address, whatever happens at others. */
  lemma {:induction false} AddressFollowsRecords(s: Service, events: seq<Event>, x: string)
    requires Feasible(s, events) && Clear(s, x) && OrderlyAt(s, events, x)
    ensures AgreesAt(Served(s, events), x) && OneAt(Served(s, events).tracked, x)
  {
    if events == [] {
      TrackedNone(s.tracked, x);
    } else {
      var n := |events| - 1;
      AddressFollowsRecords(s, events[..n], x);
      AddressFollows(s, events[..n], x);
      EventAtExactly(Served(s, events[..n]), events[n], x);
    }
  }

  /** Exactly, for any schedule at all: the sets match the map at an address if and only if the last
      event that moved the address moved it to what the map says. */
  lemma AddressMatchesExactly(s: Service, events: seq<Event>, x: string)
    requires Feasible(s, events) && Clear(s, x)
    ensures AgreesAt(Served(s, events), x) <==>
            LastMove(s, events, x).GetOr(Free) == TrackedVerdict(Served(s, events).tracked, x)
  {
    var t := Served(s, events);
    AddressFollows(s, events, x);
    IpVerdict(t.firewall.sets, x, LastMove(s, events, x).GetOr(Free), TrackedVerdict(t.tracked, x));
  }

  /** Where the address of its last command stays matched, a device tracked as that command asks is
      recorded with its verdict. */
  lemma {:induction false} OrderlyRecorded(s: Service, events: seq<Event>, m: Mac)
    requires Feasible(s, events) && LastTracked(s, events, m) && LastFor(Consumed(events), Text(m)).Some?
    requires var x := AddressOf(LastFor(Consumed(events), Text(m)).value);
             Clear(s, x) && OrderlyAt(s, events, x)
    ensures LastRecorded(s, events, m)
  {
    if events != [] {
      var n := |events| - 1;
      var before, e := Served(s, events[..n]), events[n];
      if e.Consume? && e.cmd.mac == Text(m) {
        var x := AddressOf(e.cmd);
        AddressFollows(s, events[..n], x);
        AddressFollowsRecords(s, events[..n], x);
        OrderlyRecord(before, e.cmd, e.env, m);
      } else {
        OrderlyRecorded(s, events[..n], m);
      }
    }
  }

  lemma OrderlyRecord(s: Service, cmd: Command, env: Environment, m: Mac)
    requires TrackedIps(s.tracked) && OneAt(s.tracked, AddressOf(cmd)) && cmd.mac == Text(m)
    requires FitsAt(s, Consume(cmd, env), AddressOf(cmd))
    requires IsAllowAction(cmd.action) || Reaches(Cleaned(cmd), env) || TrackedAt(s, Text(m), AddressOf(cmd))
    ensures IsAllowAction(cmd.action) || Reaches(Cleaned(cmd), env)
            || Recorded(s, Text(m)) == Some(CommandVerdict(cmd))
  {
    if TrackedAt(s, Text(m), AddressOf(cmd)) {
      TextIsCanonical(m);
      TrackedOwn(s.tracked, Text(m));
    }
  }

  // ── All addresses at once ──

  /** The address sets hold exactly the tracked addresses, by action. */
  ghost predicate SetsExact(s: Service) { forall x :: AgreesAt(s, x) }

  lemma DistinctOneAt(tracked: map<string, Entry>)
    ensures DistinctIps(tracked) <==> forall x :: OneAt(tracked, x)
  {
    if forall x :: OneAt(tracked, x) {
      forall j, k | j in tracked && k in tracked && j != k
        ensures tracked[j].victimIp != tracked[k].victimIp
      {
        assert OneAt(tracked, tracked[j].victimIp);
      }
    }
  }

  /** With distinct tracked addresses, an event keeps sets and map together exactly when it fits at
      every address. */
  lemma EventExactly(s: Service, e: Event)
    requires s.firewall.backend == Nft && Fits(s, e) && TrackedIps(s.tracked)
    requires DistinctIps(s.tracked) && DistinctIps(After(s, e).tracked) && SetsExact(s)
    ensures SetsExact(After(s, e)) <==> forall x :: FitsAt(s, e, x)
  {
    DistinctOneAt(s.tracked);
    DistinctOneAt(After(s, e).tracked);
    forall x
      ensures AgreesAt(After(s, e), x) <==> FitsAt(s, e, x)
    {
      assert AgreesAt(s, x);
      EventAtExactly(s, e, x);
    }
  }

  /** An allow does exactly when it carries the address tracked for its device, and no other device's. */
  lemma AllowExactly(s: Service, cmd: Command, env: Environment)
    requires s.firewall.backend == Nft && IsAllowAction(cmd.action)
    requires SetsExact(s) && TrackedIps(s.tracked) && DistinctIps(s.tracked)
    ensures var key, ip := ToLower(cmd.mac), AddressOf(cmd);
            SetsExact(Receive(s, cmd, env)) <==>
            && (key in s.tracked ==> ip == s.tracked[key].victimIp)
            && (HasIp(ip) ==> forall k | k in s.tracked && k != key :: s.tracked[k].victimIp != ip)
  {
    var e, key, ip := Consume(cmd, env), ToLower(cmd.mac), AddressOf(cmd);
    EventExactly(s, e);
    if forall x :: FitsAt(s, e, x) {
      assert FitsAt(s, e, ip);
      if key in s.tracked {
        assert FitsAt(s, e, s.tracked[key].victimIp);
      }
    } else {
      var x :| !FitsAt(s, e, x);
    }
  }

  /** A restricting command does exactly when no set can take its address, or it is tracked, or its
      address is in force with its verdict and its device is tracked nowhere else. */
  lemma RestrictExactly(s: Service, cmd: Command, env: Environment)
    requires s.firewall.backend == Nft && !IsAllowAction(cmd.action)
    requires SetsExact(s) && TrackedIps(s.tracked) && DistinctIps(s.tracked)
    requires DistinctIps(Receive(s, cmd, env).tracked)
    ensures var key, ip := ToLower(cmd.mac), AddressOf(cmd);
            SetsExact(Receive(s, cmd, env)) <==>
            || !Settable(cmd)
            || Reaches(Cleaned(cmd), env)
            || (TrackedVerdict(s.tracked, ip) == CommandVerdict(cmd)
                && (key in s.tracked ==> s.tracked[key].victimIp == ip))
  {
    var e, key, ip := Consume(cmd, env), ToLower(cmd.mac), AddressOf(cmd);
    EventExactly(s, e);
    if forall x :: FitsAt(s, e, x) {
      assert FitsAt(s, e, ip);
      if key in s.tracked {
        assert FitsAt(s, e, s.tracked[key].victimIp);
      }
    } else {
      var x :| !FitsAt(s, e, x);
    }
  }

  /** A restart does exactly when nothing is tracked. */
  lemma RestartExactly(s: Service)
    requires SetsExact(s)
    ensures SetsExact(After(s, Restart)) <==> s.tracked == map[]
  {
    var t := After(s, Restart);
    if k :| k in s.tracked {
      var x := s.tracked[k].victimIp;
      TrackedNone(s.tracked, x);
      TrackedNone(t.tracked, x);
      assert AgreesAt(s, x);
      IpVerdict(t.firewall.sets, x, TrackedVerdict(s.tracked, x), Free);
      assert !AgreesAt(t, x);
    }
  }

  /** Over a schedule that is orderly at every address, the address sets hold exactly the tracked
      addresses, each in the set of its device's recorded action. */
  lemma SetsFollowRecords(s: Service, events: seq<Event>)
    requires Feasible(s, events) && forall x :: Clear(s, x) && OrderlyAt(s, events, x)
    ensures SetsExact(Served(s, events)) && DistinctIps(Served(s, events).tracked)
  {
    forall x
      ensures AgreesAt(Served(s, events), x) && OneAt(Served(s, events).tracked, x)
    {
      assert Clear(s, x) && OrderlyAt(s, events, x);
      AddressFollowsRecords(s, events, x);
    }
    DistinctOneAt(Served(s, events).tracked);
  }
}
