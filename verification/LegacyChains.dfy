/** The iptables-legacy back end: two chains of per-device rules, first match decides. */
module LegacyChains {
  import opened MacText
  import opened Actions

  const DNS_PORT := 53
  const CAPTIVE_PORT := 8080

  datatype Filter = AnyPacket | UdpPort(port: nat) | TcpPort(port: nat)
  datatype Target = Drop | Return
  datatype IptRule = IptRule(mac: string, filter: Filter, target: Target)

  datatype Protocol = Udp | Tcp | OtherProtocol
  /** `mac` is the sender's address as the rules write it. */
  datatype Packet = Packet(mac: string, protocol: Protocol, port: nat)

  datatype Jump = ToBlock | ToQuarantine

  datatype Chains = Chains(block: seq<IptRule>, quarantine: seq<IptRule>, forward: seq<Jump>, input: seq<Jump>)

  function DropRule(mac: string): IptRule { IptRule(mac, AnyPacket, Drop) }
  function DnsRule(mac: string): IptRule { IptRule(mac, UdpPort(DNS_PORT), Return) }
  function PortalRule(mac: string): IptRule { IptRule(mac, TcpPort(CAPTIVE_PORT), Return) }

  // ── Packet semantics ──

  predicate RuleMatches(r: IptRule, p: Packet) {
    && r.mac == p.mac
    && match r.filter
       case AnyPacket => true
       case UdpPort(n) => p.protocol == Udp && p.port == n
       case TcpPort(n) => p.protocol == Tcp && p.port == n
  }

  /** A chain drops a packet when its first matching rule does; otherwise it returns. */
  predicate Drops(rules: seq<IptRule>, p: Packet) {
    rules != [] && if RuleMatches(rules[0], p) then rules[0].target == Drop else Drops(rules[1..], p)
  }

  predicate HookDrops(jumps: seq<Jump>, c: Chains, p: Packet) {
    jumps != [] &&
    (Drops(if jumps[0] == ToBlock then c.block else c.quarantine, p) || HookDrops(jumps[1..], c, p))
  }

  predicate ForwardDrops(c: Chains, p: Packet) { HookDrops(c.forward, c, p) }
  predicate InputDrops(c: Chains, p: Packet) { HookDrops(c.input, c, p) }

  // ── Chain edits ──

  /** Deleting one rule removes its first occurrence. */
  function WithoutFirst(rules: seq<IptRule>, r: IptRule): seq<IptRule> {
    if rules == [] then []
    else if rules[0] == r then rules[1..]
    else [rules[0]] + WithoutFirst(rules[1..], r)
  }

  /** Every occurrence gone, the rest in order. */
  function Without(rules: seq<IptRule>, r: IptRule): (w: seq<IptRule>)
    ensures r !in w
  {
    if rules == [] then []
    else if rules[0] == r then Without(rules[1..], r)
    else [rules[0]] + Without(rules[1..], r)
  }

  function QuarantineRemoved(rules: seq<IptRule>, mac: string): seq<IptRule> {
    Without(Without(Without(rules, DnsRule(mac)), PortalRule(mac)), DropRule(mac))
  }

  function BlockAdded(rules: seq<IptRule>, mac: string): seq<IptRule> {
    if DropRule(mac) in rules then rules else [DropRule(mac)] + rules
  }

  function QuarantineAdded(rules: seq<IptRule>, mac: string): seq<IptRule> {
    if DropRule(mac) in rules then rules
    else [PortalRule(mac), DnsRule(mac)] + rules + [DropRule(mac)]
  }

  function LegacyBlock(c: Chains, mac: string): Chains {
    var m := IptMac(mac);
    c.(quarantine := QuarantineRemoved(c.quarantine, m), block := BlockAdded(c.block, m))
  }

  function LegacyQuarantine(c: Chains, mac: string): Chains {
    var m := IptMac(mac);
    c.(block := Without(c.block, DropRule(m)), quarantine := QuarantineAdded(c.quarantine, m))
  }

  function LegacyAllow(c: Chains, mac: string): Chains {
    var m := IptMac(mac);
    c.(block := Without(c.block, DropRule(m)), quarantine := QuarantineRemoved(c.quarantine, m))
  }

  function EnsureJump(jumps: seq<Jump>, j: Jump): seq<Jump> {
    if j in jumps then jumps else [j] + jumps
  }

  function LegacySetup(c: Chains): Chains {
    c.(forward := EnsureJump(EnsureJump(c.forward, ToBlock), ToQuarantine), input := EnsureJump(c.input, ToBlock))
  }

  class Chain {
    var rules: seq<IptRule>

    constructor ()
      ensures rules == []
    {
      rules := [];
    }

    method InsertFirst(r: IptRule)
      modifies this
      ensures rules == [r] + old(rules)
    {
      rules := [r] + rules;
    }

    method Append(r: IptRule)
      modifies this
      ensures rules == old(rules) + [r]
    {
      rules := rules + [r];
    }

    /** Deletion fails when the rule is not there. */
    method Delete(r: IptRule) returns (ok: bool)
      modifies this
      ensures ok <==> r in old(rules)
      ensures rules == WithoutFirst(old(rules), r)
    {
      ok := r in rules;
      WithoutFirstAbsent(rules, r);
      if ok {
        rules := WithoutFirst(rules, r);
      }
    }

    /** Delete until deletion fails. */
    method DeleteAll(r: IptRule)
      modifies this
      ensures rules == Without(old(rules), r)
    {
      var ok := true;
      while ok
        invariant Without(rules, r) == Without(old(rules), r)
        invariant !ok ==> r !in rules
        decreases |rules|, ok
      {
        ghost var before := rules;
        ok := Delete(r);
        WithoutFirstStep(before, r);
        WithoutFirstAbsent(before, r);
      }
      WithoutAbsent(rules, r);
    }
  }

  lemma {:induction false} WithoutFirstAbsent(rules: seq<IptRule>, r: IptRule)
    ensures r !in rules ==> WithoutFirst(rules, r) == rules
    ensures r in rules ==> |WithoutFirst(rules, r)| == |rules| - 1
  {
    if rules != [] && rules[0] != r {
      WithoutFirstAbsent(rules[1..], r);
      assert rules == [rules[0]] + rules[1..];
    }
  }

  lemma {:induction false} WithoutFirstStep(rules: seq<IptRule>, r: IptRule)
    ensures Without(WithoutFirst(rules, r), r) == Without(rules, r)
  {
    if rules != [] && rules[0] != r {
      WithoutFirstStep(rules[1..], r);
      assert WithoutFirst(rules, r)[1..] == WithoutFirst(rules[1..], r);
    }
  }

  lemma {:induction false} WithoutAbsent(rules: seq<IptRule>, r: IptRule)
    requires r !in rules
    ensures Without(rules, r) == rules
  {
    if rules != [] {
      WithoutAbsent(rules[1..], r);
    }
  }

  // ── One device's rules ──

  function Of(rules: seq<IptRule>, mac: string): seq<IptRule> {
    if rules == [] then []
    else if rules[0].mac == mac then [rules[0]] + Of(rules[1..], mac)
    else Of(rules[1..], mac)
  }

  lemma {:induction false} OfConcat(a: seq<IptRule>, b: seq<IptRule>, mac: string)
    ensures Of(a + b, mac) == Of(a, mac) + Of(b, mac)
  {
    if a == [] {
      assert a + b == b;
    } else {
      assert (a + b)[1..] == a[1..] + b;
      OfConcat(a[1..], b, mac);
    }
  }

  lemma {:induction false} OfWithout(rules: seq<IptRule>, r: IptRule, mac: string)
    ensures Of(Without(rules, r), mac) == Without(Of(rules, mac), r)
    ensures r.mac != mac ==> Of(Without(rules, r), mac) == Of(rules, mac)
  {
    if rules != [] {
      OfWithout(rules[1..], r, mac);
      if rules[0] != r {
        assert Without(rules, r)[1..] == Without(rules[1..], r);
      }
      if rules[0].mac == mac {
        assert Of(rules, mac)[1..] == Of(rules[1..], mac);
      }
    }
  }

  lemma {:induction false} OfIn(rules: seq<IptRule>, r: IptRule)
    ensures r in Of(rules, r.mac) <==> r in rules
  {
    if rules != [] {
      OfIn(rules[1..], r);
      assert rules == [rules[0]] + rules[1..];
    }
  }

  /** Only the sender's own rules decide. */
  lemma {:induction false} DropsOf(rules: seq<IptRule>, p: Packet)
    ensures Drops(rules, p) == Drops(Of(rules, p.mac), p)
  {
    if rules != [] {
      DropsOf(rules[1..], p);
      if rules[0].mac == p.mac {
        assert Of(rules, p.mac)[1..] == Of(rules[1..], p.mac);
      }
    }
  }

  function HeldRules(mac: string): seq<IptRule> { [PortalRule(mac), DnsRule(mac), DropRule(mac)] }

  /** The chains hold exactly the rules of verdict `v` for this device. */
  ghost predicate Installed(c: Chains, mac: string, v: Verdict) {
    && Of(c.block, mac) == (if v == Blocked then [DropRule(mac)] else [])
    && Of(c.quarantine, mac) == (if v == Held then HeldRules(mac) else [])
  }

  lemma OfOne(r: IptRule, mac: string)
    ensures Of([r], mac) == if r.mac == mac then [r] else []
  {
  }

  lemma RemovalOf(rules: seq<IptRule>, m: string, mac: string)
    ensures m != mac ==> Of(QuarantineRemoved(rules, m), mac) == Of(rules, mac)
    ensures Of(QuarantineRemoved(rules, m), m) == QuarantineRemoved(Of(rules, m), m)
  {
    var a := Without(rules, DnsRule(m));
    var b := Without(a, PortalRule(m));
    OfWithout(rules, DnsRule(m), mac);
    OfWithout(a, PortalRule(m), mac);
    OfWithout(b, DropRule(m), mac);
    OfWithout(rules, DnsRule(m), m);
    OfWithout(a, PortalRule(m), m);
    OfWithout(b, DropRule(m), m);
  }

  lemma AdditionOf(rules: seq<IptRule>, m: string, mac: string)
    ensures Of(BlockAdded(rules, m), mac) ==
            if m == mac && DropRule(m) !in Of(rules, m) then [DropRule(m)] + Of(rules, m) else Of(rules, mac)
    ensures Of(QuarantineAdded(rules, m), mac) ==
            if m == mac && DropRule(m) !in Of(rules, m) then [PortalRule(m), DnsRule(m)] + Of(rules, m) + [DropRule(m)]
            else Of(rules, mac)
  {
    OfIn(rules, DropRule(m));
    var head := [PortalRule(m), DnsRule(m)];
    OfConcat([DropRule(m)], rules, mac);
    OfConcat(head, rules, mac);
    OfConcat(head + rules, [DropRule(m)], mac);
    OfConcat([PortalRule(m)], [DnsRule(m)], mac);
    assert [PortalRule(m)] + [DnsRule(m)] == head;
    OfOne(DropRule(m), mac);
    OfOne(DnsRule(m), mac);
    OfOne(PortalRule(m), mac);
  }

  lemma RemovedFromHeld(m: string)
    ensures QuarantineRemoved(HeldRules(m), m) == []
    ensures QuarantineRemoved([], m) == []
    ensures Without([DropRule(m)], DropRule(m)) == []
    ensures DropRule(m) in HeldRules(m)
  {
    var portal, dns, drop := PortalRule(m), DnsRule(m), DropRule(m);
    assert Without([drop], dns) == [drop] && Without([drop], portal) == [drop];
    assert [dns, drop][1..] == [drop] && [portal, drop][1..] == [drop];
    assert Without([dns, drop], dns) == [drop];
    assert [portal, dns, drop][1..] == [dns, drop];
    assert Without([portal, dns, drop], dns) == [portal] + [drop] == [portal, drop];
    assert Without([portal, drop], portal) == [drop];
    assert [portal, dns, drop][2] == drop;
    assert [drop][1..] == [];
    assert Without(Without(Without(HeldRules(m), dns), portal), drop) == [];
  }

  // ── From any chains ──

  /** The block chain has nothing on a device but drops. */
  ghost predicate OnlyDrops(c: Chains, mac: string) {
    forall r | r in c.block && r.mac == mac :: r == DropRule(mac)
  }

  /** The quarantine chain has nothing on a device but rules of the three shapes. */
  ghost predicate OnlyHeldShapes(c: Chains, mac: string) {
    forall r | r in c.quarantine && r.mac == mac :: r in HeldRules(mac)
  }

  lemma {:induction false} OfMembers(rules: seq<IptRule>, mac: string)
    ensures forall r :: r in Of(rules, mac) <==> r in rules && r.mac == mac
  {
    if rules != [] {
      OfMembers(rules[1..], mac);
      assert rules == [rules[0]] + rules[1..];
    }
  }

  lemma NoneLeft(s: seq<IptRule>)
    ensures s == [] <==> forall r :: r !in s
  {
    if s != [] {
      assert s[0] in s;
    }
  }

  lemma OnlyDropsLeavesNone(c: Chains, mac: string)
    ensures Without(Of(c.block, mac), DropRule(mac)) == [] <==> OnlyDrops(c, mac)
  {
    var own := Of(c.block, mac);
    OfMembers(c.block, mac);
    forall r
      ensures r in Without(own, DropRule(mac)) <==> r in own && r != DropRule(mac)
    {
      WithoutIn(own, DropRule(mac), r);
    }
    NoneLeft(Without(own, DropRule(mac)));
  }

  lemma OnlyHeldShapesLeavesNone(c: Chains, mac: string)
    ensures QuarantineRemoved(Of(c.quarantine, mac), mac) == [] <==> OnlyHeldShapes(c, mac)
  {
    var own := Of(c.quarantine, mac);
    var a := Without(own, DnsRule(mac));
    var b := Without(a, PortalRule(mac));
    OfMembers(c.quarantine, mac);
    forall r
      ensures r in QuarantineRemoved(own, mac) <==> r in own && r !in HeldRules(mac)
    {
      WithoutIn(own, DnsRule(mac), r);
      WithoutIn(a, PortalRule(mac), r);
      WithoutIn(b, DropRule(mac), r);
    }
    NoneLeft(QuarantineRemoved(own, mac));
  }

  /** Blocking from any chains installs the blocked verdict exactly when the device's quarantine rules
      can all be removed and it has at most the one drop. */
  lemma BlockInstallsExactly(c: Chains, mac: string)
    ensures var m := IptMac(mac);
            Installed(LegacyBlock(c, mac), m, Blocked) <==>
            OnlyHeldShapes(c, m) && (Of(c.block, m) == [] || Of(c.block, m) == [DropRule(m)])
  {
    var m := IptMac(mac);
    RemovalOf(c.quarantine, m, m);
    OnlyHeldShapesLeavesNone(c, m);
    AdditionOf(c.block, m, m);
    assert DropRule(m) !in Of(c.block, m) ==>
        ([DropRule(m)] + Of(c.block, m) == [DropRule(m)] <==> Of(c.block, m) == []);
  }

  /** Quarantining from any chains gives the device its three rules exactly when it had none or just
      those: a half-installed chain is not repaired. */
  lemma QuarantineRulesExactly(c: Chains, mac: string)
    ensures var m := IptMac(mac);
            Of(LegacyQuarantine(c, mac).quarantine, m) == HeldRules(m) <==>
            Of(c.quarantine, m) == [] || Of(c.quarantine, m) == HeldRules(m)
  {
    var m := IptMac(mac);
    var own := Of(c.quarantine, m);
    AdditionOf(c.quarantine, m, m);
    RemovedFromHeld(m);
    if DropRule(m) !in own {
      HeldAround(m, own);
    }
  }

  lemma HeldAround(m: string, own: seq<IptRule>)
    ensures [PortalRule(m), DnsRule(m)] + own + [DropRule(m)] == HeldRules(m) <==> own == []
  {
    var all := [PortalRule(m), DnsRule(m)] + own + [DropRule(m)];
    assert |all| == 3 + |own|;
    assert own == [] ==> all == HeldRules(m);
  }

  lemma QuarantineInstallsExactly(c: Chains, mac: string)
    ensures var m := IptMac(mac);
            Installed(LegacyQuarantine(c, mac), m, Held) <==>
            OnlyDrops(c, m) && (Of(c.quarantine, m) == [] || Of(c.quarantine, m) == HeldRules(m))
  {
    OfWithout(c.block, DropRule(IptMac(mac)), IptMac(mac));
    OnlyDropsLeavesNone(c, IptMac(mac));
    QuarantineRulesExactly(c, mac);
  }

  lemma AllowInstallsExactly(c: Chains, mac: string)
    ensures var m := IptMac(mac);
            Installed(LegacyAllow(c, mac), m, Free) <==> OnlyDrops(c, m) && OnlyHeldShapes(c, m)
  {
    var m := IptMac(mac);
    OfWithout(c.block, DropRule(m), m);
    OnlyDropsLeavesNone(c, m);
    RemovalOf(c.quarantine, m, m);
    OnlyHeldShapesLeavesNone(c, m);
  }

  /** The witness: a lone drop rule keeps quarantine from adding the two exceptions, so the device
      cannot reach the portal. */
  lemma HalfInstalledStays(c: Chains, mac: string, p: Packet)
    requires Of(c.quarantine, IptMac(mac)) == [DropRule(IptMac(mac))] && ToQuarantine in c.forward
    requires p.mac == IptMac(mac)
    ensures Of(LegacyQuarantine(c, mac).quarantine, IptMac(mac)) != HeldRules(IptMac(mac))
    ensures ForwardDrops(LegacyQuarantine(c, mac), p)
  {
    var m := IptMac(mac);
    QuarantineRulesExactly(c, mac);
    AdditionOf(c.quarantine, m, m);
    HookDropsMeaning(c.forward, LegacyQuarantine(c, mac), p);
    DropsOf(LegacyQuarantine(c, mac).quarantine, p);
    assert Drops([DropRule(m)], p);
  }

  lemma WholeRules(c: Chains, m: string, v: Verdict)
    requires Installed(c, m, v)
    ensures OnlyDrops(c, m) && OnlyHeldShapes(c, m)
    ensures Of(c.block, m) == [] || Of(c.block, m) == [DropRule(m)]
    ensures Of(c.quarantine, m) == [] || Of(c.quarantine, m) == HeldRules(m)
  {
    RemovedFromHeld(m);
    OnlyDropsLeavesNone(c, m);
    OnlyHeldShapesLeavesNone(c, m);
  }

  /** From any chains, each operation installs its verdict for the named device exactly under these
      conditions, and leaves every other device's rules in order; chains that hold a whole verdict
      meet them. */
  lemma OperationsInstall(c: Chains, mac: string, other: string)
    ensures var m := IptMac(mac);
            && (Installed(LegacyBlock(c, mac), m, Blocked) <==>
                 OnlyHeldShapes(c, m) && (Of(c.block, m) == [] || Of(c.block, m) == [DropRule(m)]))
            && (Installed(LegacyQuarantine(c, mac), m, Held) <==>
                 OnlyDrops(c, m) && (Of(c.quarantine, m) == [] || Of(c.quarantine, m) == HeldRules(m)))
            && (Installed(LegacyAllow(c, mac), m, Free) <==> OnlyDrops(c, m) && OnlyHeldShapes(c, m))
            && (forall v | Installed(c, m, v) ::
                 && Installed(LegacyBlock(c, mac), m, Blocked)
                 && Installed(LegacyQuarantine(c, mac), m, Held)
                 && Installed(LegacyAllow(c, mac), m, Free))
            && (other != m ==>
                 forall c' | c' in {LegacyBlock(c, mac), LegacyQuarantine(c, mac), LegacyAllow(c, mac)} ::
                   Of(c'.block, other) == Of(c.block, other) && Of(c'.quarantine, other) == Of(c.quarantine, other))
  {
    var m := IptMac(mac);
    BlockInstallsExactly(c, mac);
    QuarantineInstallsExactly(c, mac);
    AllowInstallsExactly(c, mac);
    forall v | Installed(c, m, v)
      ensures Installed(LegacyBlock(c, mac), m, Blocked) && Installed(LegacyQuarantine(c, mac), m, Held)
                && Installed(LegacyAllow(c, mac), m, Free)
    {
      WholeRules(c, m, v);
    }
    if other != m {
      OthersKept(c, m, other);
    }
  }

  lemma OthersKept(c: Chains, m: string, other: string)
    requires other != m
    ensures Of(QuarantineRemoved(c.quarantine, m), other) == Of(c.quarantine, other)
    ensures Of(QuarantineAdded(c.quarantine, m), other) == Of(c.quarantine, other)
    ensures Of(BlockAdded(c.block, m), other) == Of(c.block, other)
    ensures Of(Without(c.block, DropRule(m)), other) == Of(c.block, other)
  {
    RemovalOf(c.quarantine, m, other);
    AdditionOf(c.block, m, other);
    AdditionOf(c.quarantine, m, other);
    OfWithout(c.block, DropRule(m), other);
  }

  /** The rules of other shapes, in order. */
  function Except(rules: seq<IptRule>, shapes: set<IptRule>): seq<IptRule> {
    if rules == [] then []
    else if rules[0] in shapes then Except(rules[1..], shapes)
    else [rules[0]] + Except(rules[1..], shapes)
  }

  lemma {:induction false} WithoutExcept(rules: seq<IptRule>, shapes: set<IptRule>, r: IptRule)
    ensures Without(Except(rules, shapes), r) == Except(rules, shapes + {r})
  {
    if rules != [] {
      WithoutExcept(rules[1..], shapes, r);
      if rules[0] !in shapes {
        assert ([rules[0]] + Except(rules[1..], shapes))[1..] == Except(rules[1..], shapes);
      }
    }
  }

  lemma {:induction false} ExceptNone(rules: seq<IptRule>)
    ensures Except(rules, {}) == rules
  {
    if rules != [] {
      ExceptNone(rules[1..]);
    }
  }

  /** From any chains at all, with duplicate or half-installed rules, allowing a device removes exactly
      the rules of its three shapes, and leaves every other rule, whatever its name, in order. */
  lemma AllowClears(c: Chains, mac: string)
    ensures var m := IptMac(mac);
            var c' := LegacyAllow(c, mac);
            && c'.block == Except(c.block, {DropRule(m)})
            && c'.quarantine == Except(c.quarantine, {DropRule(m), DnsRule(m), PortalRule(m)})
            && DropRule(m) !in c'.block
            && DropRule(m) !in c'.quarantine && DnsRule(m) !in c'.quarantine && PortalRule(m) !in c'.quarantine
            && forall other | other != m ::
                Of(c'.block, other) == Of(c.block, other) && Of(c'.quarantine, other) == Of(c.quarantine, other)
  {
    var m := IptMac(mac);
    var a := Without(c.quarantine, DnsRule(m));
    var b := Without(a, PortalRule(m));
    AllowExcepts(c, m);
    WithoutIn(a, PortalRule(m), DnsRule(m));
    WithoutIn(b, DropRule(m), DnsRule(m));
    WithoutIn(b, DropRule(m), PortalRule(m));
    forall other | other != m
      ensures Of(Without(c.block, DropRule(m)), other) == Of(c.block, other)
      ensures Of(QuarantineRemoved(c.quarantine, m), other) == Of(c.quarantine, other)
    {
      OfWithout(c.block, DropRule(m), other);
      RemovalOf(c.quarantine, m, other);
    }
  }

  lemma AllowExcepts(c: Chains, m: string)
    ensures Without(c.block, DropRule(m)) == Except(c.block, {DropRule(m)})
    ensures QuarantineRemoved(c.quarantine, m) == Except(c.quarantine, {DropRule(m), DnsRule(m), PortalRule(m)})
  {
    ExceptNone(c.block);
    ExceptNone(c.quarantine);
    WithoutExcept(c.block, {}, DropRule(m));
    WithoutExcept(c.quarantine, {}, DnsRule(m));
    WithoutExcept(c.quarantine, {} + {DnsRule(m)}, PortalRule(m));
    WithoutExcept(c.quarantine, {} + {DnsRule(m)} + {PortalRule(m)}, DropRule(m));
    assert {} + {DropRule(m)} == {DropRule(m)};
    assert {} + {DnsRule(m)} + {PortalRule(m)} + {DropRule(m)} == {DropRule(m), DnsRule(m), PortalRule(m)};
  }

  lemma {:induction false} WithoutIn(rules: seq<IptRule>, r: IptRule, x: IptRule)
    ensures x in Without(rules, r) <==> x in rules && x != r
  {
    if rules != [] {
      WithoutIn(rules[1..], r, x);
      assert rules == [rules[0]] + rules[1..];
    }
  }

  // ── What the firewall does to packets ──

  /** Both chains are reached from FORWARD, and only the block chain from INPUT. */
  predicate Hooked(c: Chains) {
    ToBlock in c.forward && ToQuarantine in c.forward && ToBlock in c.input && ToQuarantine !in c.input
  }

  lemma {:induction false} HookDropsMeaning(jumps: seq<Jump>, c: Chains, p: Packet)
    ensures HookDrops(jumps, c, p) <==>
            (ToBlock in jumps && Drops(c.block, p)) || (ToQuarantine in jumps && Drops(c.quarantine, p))
  {
    if jumps != [] {
      HookDropsMeaning(jumps[1..], c, p);
      assert jumps == [jumps[0]] + jumps[1..];
    }
  }

  predicate PortalTraffic(p: Packet) {
    (p.protocol == Udp && p.port == DNS_PORT) || (p.protocol == Tcp && p.port == CAPTIVE_PORT)
  }

  /** First-match evaluation refines the verdict: a blocked device is dropped in both hooks, a
      held one passes FORWARD only for DNS and the portal and is untouched in INPUT, and a free
      one passes both. */
  lemma PacketsFollowVerdict(c: Chains, p: Packet, v: Verdict)
    requires Hooked(c) && Installed(c, p.mac, v)
    ensures ForwardDrops(c, p) <==> v == Blocked || (v == Held && !PortalTraffic(p))
    ensures InputDrops(c, p) <==> v == Blocked
  {
    HookDropsMeaning(c.forward, c, p);
    HookDropsMeaning(c.input, c, p);
    DropsOf(c.block, p);
    DropsOf(c.quarantine, p);
    var h := HeldRules(p.mac);
    assert h[1..] == [DnsRule(p.mac), DropRule(p.mac)];
    assert h[1..][1..] == [DropRule(p.mac)];
    assert Drops([DropRule(p.mac)], p);
  }

  // ── Any sequence of operations ──

  /** One call: block, quarantine or allow a device. */
  datatype Operation = Operation(verdict: Verdict, mac: string)

  function Operate(c: Chains, op: Operation): Chains {
    match op.verdict
    case Blocked => LegacyBlock(c, op.mac)
    case Held => LegacyQuarantine(c, op.mac)
    case Free => LegacyAllow(c, op.mac)
  }

  function Operated(c: Chains, ops: seq<Operation>): Chains {
    if ops == [] then c else Operate(Operated(c, ops[..|ops| - 1]), ops[|ops| - 1])
  }

  /** The abstract state: the verdict last asked for a name, whatever way it was written. */
  function LastAsked(ops: seq<Operation>, name: string): Verdict {
    if ops == [] then Free
    else if IptMac(ops[|ops| - 1].mac) == name then ops[|ops| - 1].verdict
    else LastAsked(ops[..|ops| - 1], name)
  }

  lemma {:induction false} OperationsFollowMap(c: Chains, ops: seq<Operation>, name: string)
    requires c.block == [] && c.quarantine == []
    ensures Installed(Operated(c, ops), name, LastAsked(ops, name))
    ensures Operated(c, ops).forward == c.forward && Operated(c, ops).input == c.input
  {
    if ops != [] {
      var init, op := ops[..|ops| - 1], ops[|ops| - 1];
      OperationsFollowMap(c, init, name);
      OperationsFollowMap(c, init, IptMac(op.mac));
      OperationsInstall(Operated(c, init), op.mac, name);
    }
  }

  /** After any calls on any devices, first-match evaluation of both hooks is the abstract state:
      blocked names are dropped in both, quarantined names pass FORWARD only for DNS and the
      portal, every other packet is untouched. */
  lemma PacketsFollowOperations(c: Chains, ops: seq<Operation>, p: Packet)
    requires c.block == [] && c.quarantine == [] && Hooked(c)
    ensures var v := LastAsked(ops, p.mac);
            && (ForwardDrops(Operated(c, ops), p) <==> v == Blocked || (v == Held && !PortalTraffic(p)))
            && (InputDrops(Operated(c, ops), p) <==> v == Blocked)
  {
    OperationsFollowMap(c, ops, p.mac);
    PacketsFollowVerdict(Operated(c, ops), p, LastAsked(ops, p.mac));
  }

  /** Setting up gives the intended hooks exactly when INPUT did not jump to the quarantine chain, a
      second setup changes nothing, and no rule or hook is lost. */
  lemma SetupHooks(c: Chains)
    ensures Hooked(LegacySetup(c)) <==> ToQuarantine !in c.input
    ensures LegacySetup(LegacySetup(c)) == LegacySetup(c)
    ensures LegacySetup(c).block == c.block && LegacySetup(c).quarantine == c.quarantine
    ensures forall j :: j in LegacySetup(c).forward <==> j in c.forward || j == ToBlock || j == ToQuarantine
    ensures forall j :: j in LegacySetup(c).input <==> j in c.input || j == ToBlock
  {
  }
}
