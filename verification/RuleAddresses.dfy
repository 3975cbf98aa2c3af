/** IP rules are all published under one name, so the service tracks one of their addresses at a
    time: which of them stay in the address sets. */
module RuleAddresses {
  import opened Common
  import opened MacText
  import opened Actions
  import opened Handlers
  import opened Enforcement
  import opened EnforcementRuns
  import opened AddressSets

  /** Commands under one name, with ticks and restarts anywhere. */
  ghost predicate Rules(events: seq<Event>, name: string) {
    forall i | 0 <= i < |events| && events[i].Consume? :: events[i].cmd.mac == name
  }

  /** The address of the last rule that reached tracking, unless one was withdrawn or the service
      restarted since. */
  function LastReached(events: seq<Event>): Option<string> {
    if events == [] then None
    else
      match events[|events| - 1]
      case Consume(cmd, env) =>
        if IsAllowAction(cmd.action) then None
        else if Reaches(Cleaned(cmd), env) then Some(AddressOf(cmd))
        else LastReached(events[..|events| - 1])
      case Tick(_) => LastReached(events[..|events| - 1])
      case Restart => None
  }

  lemma {:induction false} OneTracked(events: seq<Event>, name: string, key: string)
    requires Rules(events, name)
    ensures TrackedAddress(events, key) == if key == ToLower(name) then LastReached(events) else None
  {
    if events != [] {
      OneTracked(events[..|events| - 1], name, key);
    }
  }

  /** Event `i` puts the address into a set: a rule for it, or a tick while it is the one tracked. */
  ghost predicate RulePuts(events: seq<Event>, i: nat, x: string) {
    i < |events| &&
    match events[i]
    case Consume(cmd, _) => !IsAllowAction(cmd.action) && Settable(cmd) && AddressOf(cmd) == x
    case Tick(_) => LastReached(events[..i]) == Some(x)
    case Restart => false
  }

  /** Event `i` drops it: its withdrawal, or a rule for another address that finds it tracked. */
  ghost predicate RuleDrops(events: seq<Event>, i: nat, x: string) {
    && i < |events| && events[i].Consume?
    && var cmd := events[i].cmd;
       if IsAllowAction(cmd.action) then HasIp(x) && AddressOf(cmd) == x
       else Settable(cmd) && AddressOf(cmd) != x && LastReached(events[..i]) == Some(x)
  }

  lemma RuleMoves(events: seq<Event>, name: string, i: nat, x: string)
    requires Rules(events, name)
    ensures RulePuts(events, i, x) <==> Puts(events, i, x)
    ensures RuleDrops(events, i, x) <==> Drops(events, i, x)
  {
    if i < |events| {
      forall key
        ensures TrackedAddress(events[..i], key) == if key == ToLower(name) then LastReached(events[..i]) else None
      {
        OneTracked(events[..i], name, key);
      }
      assert events[i].Consume? ==> events[i].cmd.mac == name;
      assert TrackedAddress(events[..i], ToLower(name)) == LastReached(events[..i]);
    }
  }

  /** Of any sequence of rules made and withdrawn, ticks and restarts: an address is in force exactly
      when some event puts it and no later one drops it. */
  lemma IpRulesStayExactly(s: Service, events: seq<Event>, x: string)
    requires Feasible(s, events) && Clear(s, x) && Rules(events, Text(ZERO_MAC))
    ensures InForce(Served(s, events).firewall.sets, x) <==>
            exists i: nat :: RulePuts(events, i, x) && forall j: nat | i < j :: !RuleDrops(events, j, x)
  {
    InForceExactly(s, events, x);
    forall i: nat
      ensures RulePuts(events, i, x) <==> Puts(events, i, x)
      ensures RuleDrops(events, i, x) <==> Drops(events, i, x)
    {
      RuleMoves(events, Text(ZERO_MAC), i, x);
    }
    if Stays(events, x) {
      var i: nat :| StaysFrom(events, i, x);
      assert RulePuts(events, i, x) && forall j: nat | i < j :: !RuleDrops(events, j, x);
    }
    if i: nat :| RulePuts(events, i, x) && forall j: nat | i < j :: !RuleDrops(events, j, x) {
      assert StaysFrom(events, i, x);
    }
  }

  /** Two rules for two addresses: the first stays exactly when it did not reach tracking, whatever
      becomes of the second, and the second is always in force. */
  lemma FirstOfTwoRules(s: Service, a: Command, aEnv: Environment, b: Command, bEnv: Environment)
    requires Clear(s, AddressOf(a)) && Clear(s, AddressOf(b))
    requires a.mac == b.mac && !IsAllowAction(a.action) && !IsAllowAction(b.action)
    requires Settable(a) && Settable(b) && AddressOf(a) != AddressOf(b)
    ensures var sets := Receive(Receive(s, a, aEnv), b, bEnv).firewall.sets;
            && (InForce(sets, AddressOf(a)) <==> !Reaches(Cleaned(a), aEnv))
            && InForce(sets, AddressOf(b))
  {
    var s1 := Receive(s, a, aEnv);
    SettableMoves(s, a, aEnv, AddressOf(a), Free);
    SettableMoves(s, a, aEnv, AddressOf(b), Free);
    SettableMoves(s1, b, bEnv, AddressOf(a), CommandVerdict(a));
    SettableMoves(s1, b, bEnv, AddressOf(b), Free);
  }

  /** Where a tick goes back: the first rule tracked, the second one not, its ARP frame failing. The
      second drops the first address, and the next tick puts it back beside the second. */
  lemma TickRevivesRule(s: Service, a: Command, aEnv: Environment, b: Command, bEnv: Environment)
    requires Clear(s, AddressOf(a)) && Clear(s, AddressOf(b)) && AddressOf(a) != AddressOf(b)
    requires a.mac == b.mac && !IsAllowAction(a.action) && !IsAllowAction(b.action)
    requires Settable(b) && Reaches(Cleaned(a), aEnv) && !Reaches(Cleaned(b), bEnv)
    ensures var t, tick := Receive(Receive(s, a, aEnv), b, bEnv), Tick([ToLower(a.mac)]);
            && !InForce(t.firewall.sets, AddressOf(a)) && InForce(t.firewall.sets, AddressOf(b))
            && Fits(t, tick)
            && InForce(After(t, tick).firewall.sets, AddressOf(a))
            && InForce(After(t, tick).firewall.sets, AddressOf(b))
  {
    var t, tick := Receive(Receive(s, a, aEnv), b, bEnv), Tick([ToLower(a.mac)]);
    var s1 := Receive(s, a, aEnv);
    FirstOfTwoRules(s, a, aEnv, b, bEnv);
    SettableMoves(s, a, aEnv, AddressOf(b), Free);
    SettableMoves(s1, b, bEnv, AddressOf(b), Free);
    SettableMoves(s, a, aEnv, AddressOf(a), Free);
    SettableMoves(s1, b, bEnv, AddressOf(a), CommandVerdict(a));
    TickMoves(t.firewall, t.tracked, tick.order, AddressOf(a), Free);
    TickMoves(t.firewall, t.tracked, tick.order, AddressOf(b), CommandVerdict(b));
    TickFinds(t.tracked, tick.order, AddressOf(a));
    TickFinds(t.tracked, tick.order, AddressOf(b));
  }

  /** The address of the last command consumed. */
  function LastAddress(events: seq<Event>): Option<string> {
    var cmds := Consumed(events);
    if cmds == [] then None else Some(AddressOf(cmds[|cmds| - 1]))
  }

  predicate Restarted(events: seq<Event>) { exists i :: 0 <= i < |events| && events[i].Restart? }

  /** Rules made, each of them tracked; no restart but after the last one. */
  ghost predicate RulesTracked(events: seq<Event>, name: string) {
    && Rules(events, name) && AllReach(events)
    && (forall i | 0 <= i < |events| && events[i].Consume? :: !IsAllowAction(events[i].cmd.action))
    && (forall i, j | 0 <= i < j < |events| && events[i].Restart? :: !events[j].Consume?)
  }

  lemma {:induction false} LastRuleStays(events: seq<Event>, name: string, x: string)
    requires RulesTracked(events, name)
    ensures Stays(events, x) <==> LastAddress(events) == Some(x)
    ensures LastReached(events) == if Restarted(events) then None else LastAddress(events)
  {
    if events != [] {
      var n := |events| - 1;
      var init := events[..n];
      LastRuleStays(init, name, x);
      StaysLast(events, x);
      RuleMoves(events, name, n, x);
      RestartedLast(events);
    }
  }

  lemma RestartedLast(events: seq<Event>)
    requires events != []
    ensures Restarted(events) <==> Restarted(events[..|events| - 1]) || events[|events| - 1].Restart?
  {
    var init := events[..|events| - 1];
    if i :| 0 <= i < |init| && init[i].Restart? {
      assert events[i].Restart?;
    }
    if i :| 0 <= i < |events| && events[i].Restart? {
      assert i == |init| || init[i].Restart?;
    }
  }

  /** When every rule reaches tracking, only the last one's address stays, whatever ticks run. */
  lemma OnlyLastIpRuleStays(s: Service, events: seq<Event>, name: string, x: string)
    requires Feasible(s, events) && Clear(s, x) && RulesTracked(events, name)
    ensures InForce(Served(s, events).firewall.sets, x) <==> LastAddress(events) == Some(x)
  {
    InForceExactly(s, events, x);
    LastRuleStays(events, name, x);
  }
}
