/** The firewall behind enforcement: four nft sets, or the iptables-legacy chains, or nothing. */
module Firewall {
  import opened Common
  import opened MacText
  import opened Versions
  import opened Actions
  import opened LegacyChains

  datatype Backend = Nft | IptablesLegacy | Unavailable

  datatype NftSets = NftSets(blockedMacs: set<string>, heldMacs: set<string>, blockedIps: set<string>,
                             heldIps: set<string>)

  datatype Firewall = Firewall(backend: Backend, sets: NftSets, chains: Chains)

  predicate IsOctet(s: string) {
    && 1 <= |s| <= 3
    && (forall c | c in s :: IsDigit(c))
    && (s[0] == '0' ==> |s| == 1)
    && DecimalValue(s) < 256
  }

  /** The strict dotted form: parsing it and printing it back gives the same text, so the text
      itself stands for the address. */
  predicate IsIpv4(s: string) {
    var parts := SplitDots(s);
    |parts| == 4 && forall i | 0 <= i < 4 :: IsOctet(parts[i])
  }

  predicate UsableIp(ip: Option<string>) {
    ip.Some? && ip.value != "" && ip.value != "0.0.0.0"
  }

  // Element commands succeed for device names; an address set takes only IPv4 addresses, and
  // removing an absent element is harmless.

  function BlockSets(s: NftSets, mac: string, ip: Option<string>): NftSets {
    var m := NftMac(mac);
    var s1 := s.(heldMacs := s.heldMacs - {m}, blockedMacs := s.blockedMacs + {m});
    if UsableIp(ip) then
      s1.(heldIps := s.heldIps - {ip.value},
          blockedIps := if IsIpv4(ip.value) then s.blockedIps + {ip.value} else s.blockedIps)
    else s1
  }

  function QuarantineSets(s: NftSets, mac: string, ip: Option<string>): NftSets {
    var m := NftMac(mac);
    var s1 := s.(blockedMacs := s.blockedMacs - {m}, heldMacs := s.heldMacs + {m});
    if UsableIp(ip) then
      s1.(blockedIps := s.blockedIps - {ip.value},
          heldIps := if IsIpv4(ip.value) then s.heldIps + {ip.value} else s.heldIps)
    else s1
  }

  function RemoveIpSets(s: NftSets, ip: string): NftSets {
    s.(blockedIps := s.blockedIps - {ip}, heldIps := s.heldIps - {ip})
  }

  function AllowSets(s: NftSets, mac: string, ip: Option<string>): NftSets {
    var m := NftMac(mac);
    var s1 := s.(blockedMacs := s.blockedMacs - {m}, heldMacs := s.heldMacs - {m});
    if UsableIp(ip) then RemoveIpSets(s1, ip.value) else s1
  }

  function Block(f: Firewall, mac: string, ip: Option<string>): Firewall {
    match f.backend
    case Nft => f.(sets := BlockSets(f.sets, mac, ip))
    case IptablesLegacy => f.(chains := LegacyBlock(f.chains, mac))
    case Unavailable => f
  }

  function Quarantine(f: Firewall, mac: string, ip: Option<string>): Firewall {
    match f.backend
    case Nft => f.(sets := QuarantineSets(f.sets, mac, ip))
    case IptablesLegacy => f.(chains := LegacyQuarantine(f.chains, mac))
    case Unavailable => f
  }

  function Allow(f: Firewall, mac: string, ip: Option<string>): Firewall {
    match f.backend
    case Nft => f.(sets := AllowSets(f.sets, mac, ip))
    case IptablesLegacy => f.(chains := LegacyAllow(f.chains, mac))
    case Unavailable => f
  }

  function RemoveIp(f: Firewall, ip: string): Firewall {
    if f.backend == Nft then f.(sets := RemoveIpSets(f.sets, ip)) else f
  }

  function SetUp(f: Firewall): Firewall {
    if f.backend == IptablesLegacy then f.(chains := LegacySetup(f.chains)) else f
  }

  // ── The verdict a firewall holds for a device ──

  /** Which set a name is in; a name in both is in neither class. */
  ghost predicate InSets(s: NftSets, name: string, v: Verdict) {
    && (name in s.blockedMacs <==> v == Blocked)
    && (name in s.heldMacs <==> v == Held)
  }

  /** The firewall holds exactly verdict `v` for the device, whichever back end runs. */
  ghost predicate Holds(f: Firewall, mac: string, v: Verdict) {
    match f.backend
    case Nft => InSets(f.sets, NftMac(mac), v)
    case IptablesLegacy => Installed(f.chains, IptMac(mac), v)
    case Unavailable => true
  }

  function Act(f: Firewall, v: Verdict, mac: string, ip: Option<string>): Firewall {
    match v
    case Blocked => Block(f, mac, ip)
    case Held => Quarantine(f, mac, ip)
    case Free => Allow(f, mac, ip)
  }

  lemma SetsAct(s: NftSets, mac: string, ip: Option<string>, other: string, u: Verdict)
    requires other != NftMac(mac) ==> InSets(s, other, u)
    ensures InSets(BlockSets(s, mac, ip), NftMac(mac), Blocked)
    ensures InSets(QuarantineSets(s, mac, ip), NftMac(mac), Held)
    ensures InSets(AllowSets(s, mac, ip), NftMac(mac), Free)
    ensures other != NftMac(mac) ==>
              && InSets(BlockSets(s, mac, ip), other, u)
              && InSets(QuarantineSets(s, mac, ip), other, u)
              && InSets(AllowSets(s, mac, ip), other, u)
  {
  }

  /** Acting on one device gives it the verdict and keeps every other device's. On the nft back
      end the device's own state before does not matter. */
  lemma ActHolds(f: Firewall, v: Verdict, m: Mac, ip: Option<string>, n: Mac, u: Verdict, before: Verdict)
    requires f.backend != Nft ==> Holds(f, Text(m), before)
    requires m != n ==> Holds(f, Text(n), u)
    ensures Act(f, v, Text(m), ip).backend == f.backend
    ensures Holds(Act(f, v, Text(m), ip), Text(m), v)
    ensures m != n ==> Holds(Act(f, v, Text(m), ip), Text(n), u)
  {
    var a, b := Text(m), Text(n);
    assert m != n ==> NftMac(a) != NftMac(b) by {
      TextIsCanonical(m);
      TextIsCanonical(n);
    }
    assert m != n ==> IptMac(a) != IptMac(b) by {
      IptMacInjective(m, n);
    }
    match f.backend
    case Nft => NftHolds(f, v, a, ip, b, u);
    case IptablesLegacy => OperationsInstall(f.chains, a, IptMac(b));
    case Unavailable =>
  }

  lemma NftHolds(f: Firewall, v: Verdict, a: string, ip: Option<string>, b: string, u: Verdict)
    requires f.backend == Nft
    requires NftMac(a) != NftMac(b) ==> InSets(f.sets, NftMac(b), u)
    ensures InSets(Act(f, v, a, ip).sets, NftMac(a), v)
    ensures NftMac(a) != NftMac(b) ==> InSets(Act(f, v, a, ip).sets, NftMac(b), u)
  {
    SetsAct(f.sets, a, ip, NftMac(b), u);
  }

  class IptablesEnforcer {
    const backend: Backend
    var blockedMacs: set<string>
    var heldMacs: set<string>
    var blockedIps: set<string>
    var heldIps: set<string>
    const blockChain: Chain
    const quarantineChain: Chain
    var forward: seq<Jump>
    var input: seq<Jump>

    ghost predicate Valid() { blockChain != quarantineChain }

    ghost function View(): Firewall
      reads this, blockChain, quarantineChain
    {
      Firewall(backend, NftSets(blockedMacs, heldMacs, blockedIps, heldIps),
               Chains(blockChain.rules, quarantineChain.rules, forward, input))
    }

    /** Set contents survive a restart of the service, so any contents may be found. */
    constructor (backend: Backend, sets: NftSets)
      ensures Valid() && fresh(blockChain) && fresh(quarantineChain)
      ensures View() == Firewall(backend, sets, Chains([], [], [], []))
    {
      this.backend := backend;
      blockedMacs, heldMacs, blockedIps, heldIps := sets.blockedMacs, sets.heldMacs, sets.blockedIps, sets.heldIps;
      blockChain := new Chain();
      quarantineChain := new Chain();
      forward, input := [], [];
    }

    method EnsureForwardJump(j: Jump)
      modifies this`forward
      ensures forward == EnsureJump(old(forward), j)
    {
      if j !in forward {
        forward := [j] + forward;
      }
    }

    method SetupLegacy()
      modifies this`forward, this`input
      ensures View() == old(View()).(chains := LegacySetup(old(View()).chains))
    {
      EnsureForwardJump(ToBlock);
      EnsureForwardJump(ToQuarantine);
      if ToBlock !in input {
        input := [ToBlock] + input;
      }
    }

    /** Setting up nft lays down fixed rules over the sets and keeps their contents. */
    method SetupChains()
      modifies this`forward, this`input
      ensures View() == SetUp(old(View()))
    {
      if backend == IptablesLegacy {
        SetupLegacy();
      }
    }

    method RemoveLegacyQuarantine(mac: string)
      modifies quarantineChain
      ensures quarantineChain.rules == QuarantineRemoved(old(quarantineChain.rules), mac)
    {
      quarantineChain.DeleteAll(DnsRule(mac));
      quarantineChain.DeleteAll(PortalRule(mac));
      quarantineChain.DeleteAll(DropRule(mac));
    }

    method BlockLegacy(name: string)
      requires Valid()
      modifies blockChain, quarantineChain
      ensures View() == old(View()).(chains := LegacyBlock(old(View()).chains, name))
    {
      var mac := IptMac(name);
      RemoveLegacyQuarantine(mac);
      if DropRule(mac) !in blockChain.rules {
        blockChain.InsertFirst(DropRule(mac));
      }
    }

    method QuarantineLegacy(name: string)
      requires Valid()
      modifies blockChain, quarantineChain
      ensures View() == old(View()).(chains := LegacyQuarantine(old(View()).chains, name))
    {
      var mac := IptMac(name);
      blockChain.DeleteAll(DropRule(mac));
      if DropRule(mac) !in quarantineChain.rules {
        quarantineChain.InsertFirst(DnsRule(mac));
        quarantineChain.InsertFirst(PortalRule(mac));
        quarantineChain.Append(DropRule(mac));
        assert [PortalRule(mac)] + ([DnsRule(mac)] + old(quarantineChain.rules)) + [DropRule(mac)]
            == [PortalRule(mac), DnsRule(mac)] + old(quarantineChain.rules) + [DropRule(mac)];
      }
    }

    method AllowLegacy(name: string)
      requires Valid()
      modifies blockChain, quarantineChain
      ensures View() == old(View()).(chains := LegacyAllow(old(View()).chains, name))
    {
      var mac := IptMac(name);
      blockChain.DeleteAll(DropRule(mac));
      RemoveLegacyQuarantine(mac);
    }

    method BlockDevice(mac: string, ip: Option<string>)
      requires Valid()
      modifies this, blockChain, quarantineChain
      ensures View() == Block(old(View()), mac, ip)
    {
      match backend {
        case Nft =>
          var m := NftMac(mac);
          heldMacs := heldMacs - {m};
          blockedMacs := blockedMacs + {m};
          if UsableIp(ip) {
            heldIps := heldIps - {ip.value};
            if IsIpv4(ip.value) {
              blockedIps := blockedIps + {ip.value};
            }
          }
        case IptablesLegacy => BlockLegacy(mac);
        case Unavailable =>
      }
    }

    method QuarantineDevice(mac: string, ip: Option<string>)
      requires Valid()
      modifies this, blockChain, quarantineChain
      ensures View() == Quarantine(old(View()), mac, ip)
    {
      match backend {
        case Nft =>
          var m := NftMac(mac);
          blockedMacs := blockedMacs - {m};
          heldMacs := heldMacs + {m};
          if UsableIp(ip) {
            blockedIps := blockedIps - {ip.value};
            if IsIpv4(ip.value) {
              heldIps := heldIps + {ip.value};
            }
          }
        case IptablesLegacy => QuarantineLegacy(mac);
        case Unavailable =>
      }
    }

    method AllowDevice(mac: string, ip: Option<string>)
      requires Valid()
      modifies this, blockChain, quarantineChain
      ensures View() == Allow(old(View()), mac, ip)
    {
      match backend {
        case Nft =>
          var m := NftMac(mac);
          blockedMacs := blockedMacs - {m};
          heldMacs := heldMacs - {m};
          if UsableIp(ip) {
            blockedIps := blockedIps - {ip.value};
            heldIps := heldIps - {ip.value};
          }
        case IptablesLegacy => AllowLegacy(mac);
        case Unavailable =>
      }
    }

    method RemoveAddress(ip: string)
      modifies this`blockedIps, this`heldIps
      ensures View() == RemoveIp(old(View()), ip)
    {
      if backend == Nft {
        blockedIps := blockedIps - {ip};
        heldIps := heldIps - {ip};
      }
    }
  }
}
