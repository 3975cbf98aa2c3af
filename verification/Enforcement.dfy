/** The enforcement service: what it does with each command, the devices it tracks, and the
    periodic re-application of their verdicts. */
module Enforcement {
  import opened Common
  import opened MacText
  import opened Actions
  import opened Handlers
  import opened Firewall
  import opened LegacyChains

  datatype Spoofer = NoSpoofer | Sending | Failing

  /** What a command finds outside the service: the default gateway and the ARP sender. */
  datatype Environment = Environment(gateway: Option<string>, spoofer: Spoofer)

  datatype Entry = Entry(victimIp: string, victimMac: Mac, gatewayIp: string, action: NacAction)

  datatype Service = Service(firewall: Firewall, tracked: map<string, Entry>)

  predicate HasIp(ip: string) { ip != "" && ip != "0.0.0.0" }

  function IpOption(ip: string): Option<string> { if HasIp(ip) then Some(ip) else None }

  function GatewayFor(cmd: Command, env: Environment): Option<string> {
    if HasIp(cmd.gatewayIp) then (if IsIpv4(cmd.gatewayIp) then Some(cmd.gatewayIp) else None)
    else env.gateway
  }

  /** The command gets as far as recording the device. */
  predicate Reaches(cmd: Command, env: Environment) {
    && HasIp(cmd.ip) && IsIpv4(cmd.ip)
    && ParsedMac(cmd.mac).Some?
    && GatewayFor(cmd, env).Some?
    && env.spoofer != Failing
  }

  function StaleIpRemoved(s: Service, cmd: Command): Firewall {
    var key := ToLower(cmd.mac);
    if HasIp(cmd.ip) && key in s.tracked && IsIpv4(cmd.ip) && s.tracked[key].victimIp != cmd.ip
    then RemoveIp(s.firewall, s.tracked[key].victimIp) else s.firewall
  }

  function Execute(s: Service, cmd: Command, env: Environment): Service {
    var action := MapAction(cmd.action);
    var f := Act(StaleIpRemoved(s, cmd), ActionVerdict(action), cmd.mac, IpOption(cmd.ip));
    if Reaches(cmd, env) then
      Service(f, s.tracked[ToLower(cmd.mac) :=
        Entry(cmd.ip, ParsedMac(cmd.mac).value, GatewayFor(cmd, env).value, action)])
    else Service(f, s.tracked)
  }

  function ExecuteAllow(s: Service, cmd: Command): Service {
    Service(Allow(s.firewall, cmd.mac, IpOption(cmd.ip)), s.tracked - {ToLower(cmd.mac)})
  }

  function Cleaned(cmd: Command): Command { cmd.(ip := StripCidr(cmd.ip)) }

  /** The address of a command, as the service reads it. */
  function AddressOf(cmd: Command): string { StripCidr(cmd.ip) }

  /** The address sets can take it. */
  predicate Settable(cmd: Command) { HasIp(AddressOf(cmd)) && IsIpv4(AddressOf(cmd)) }

  function Receive(s: Service, cmd: Command, env: Environment): Service {
    if IsAllowAction(cmd.action) then ExecuteAllow(s, Cleaned(cmd)) else Execute(s, Cleaned(cmd), env)
  }

  function Reapplied(f: Firewall, tracked: map<string, Entry>, order: seq<string>): Firewall
    requires forall i | 0 <= i < |order| :: order[i] in tracked
  {
    if order == [] then f
    else
      var n := |order| - 1;
      var e := tracked[order[n]];
      Act(Reapplied(f, tracked, order[..n]), ActionVerdict(e.action), order[n], Some(e.victimIp))
  }

  // ── The service as it runs ──

  class EnforcementService {
    const ipt: IptablesEnforcer
    var tracked: map<string, Entry>

    constructor (ipt: IptablesEnforcer)
      ensures this.ipt == ipt && tracked == map[]
    {
      this.ipt := ipt;
      tracked := map[];
    }

    ghost function View(): Service
      reads this, ipt, ipt.blockChain, ipt.quarantineChain
    {
      Service(ipt.View(), tracked)
    }

    method UpdateState(cmd: Command, victimIp: string, victimMac: Mac, gatewayIp: string, action: NacAction)
      modifies this
      ensures tracked == old(tracked)[ToLower(cmd.mac) := Entry(victimIp, victimMac, gatewayIp, action)]
    {
      tracked := tracked[ToLower(cmd.mac) := Entry(victimIp, victimMac, gatewayIp, action)];
    }

    method ExecuteCommand(cmd: Command, env: Environment)
      requires ipt.Valid()
      modifies this, ipt, ipt.blockChain, ipt.quarantineChain
      ensures View() == Execute(old(View()), cmd, env)
    {
      var action := MapAction(cmd.action);
      var key := ToLower(cmd.mac);
      if HasIp(cmd.ip) && key in tracked && IsIpv4(cmd.ip) && tracked[key].victimIp != cmd.ip {
        ipt.RemoveAddress(tracked[key].victimIp);
      }
      match action {
        case NacBlock => ipt.BlockDevice(cmd.mac, IpOption(cmd.ip));
        case NacQuarantine => ipt.QuarantineDevice(cmd.mac, IpOption(cmd.ip));
      }
      if !HasIp(cmd.ip) || !IsIpv4(cmd.ip) {
        return;
      }
      var victimMac := ParseMac(cmd.mac);
      if victimMac.None? {
        return;
      }
      var gateway := GatewayFor(cmd, env);
      if gateway.None? {
        return;
      }
      match env.spoofer {
        case NoSpoofer => UpdateState(cmd, cmd.ip, victimMac.value, gateway.value, action);
        case Failing => return;
        case Sending => UpdateState(cmd, cmd.ip, victimMac.value, gateway.value, action);
      }
    }

    method ExecuteAllowCommand(cmd: Command)
      requires ipt.Valid()
      modifies this, ipt, ipt.blockChain, ipt.quarantineChain
      ensures View() == ExecuteAllow(old(View()), cmd)
    {
      ipt.AllowDevice(cmd.mac, IpOption(cmd.ip));
      tracked := tracked - {ToLower(cmd.mac)};
    }

    method ReceiveCommand(cmd: Command, env: Environment)
      requires ipt.Valid()
      modifies this, ipt, ipt.blockChain, ipt.quarantineChain
      ensures View() == Receive(old(View()), cmd, env)
    {
      var clean := cmd.(ip := StripCidr(cmd.ip));
      if IsAllowAction(clean.action) {
        ExecuteAllowCommand(clean);
      } else {
        ExecuteCommand(clean, env);
      }
    }

    /** One reinforcement tick; `order` is the order in which the map is copied. */
    method Reinforce(order: seq<string>)
      requires ipt.Valid()
      requires forall i | 0 <= i < |order| :: order[i] in tracked
      modifies ipt, ipt.blockChain, ipt.quarantineChain
      ensures View() == old(View()).(firewall := Reapplied(old(View()).firewall, old(tracked), order))
    {
      for i := 0 to |order|
        invariant ipt.View() == Reapplied(old(ipt.View()), tracked, order[..i])
      {
        assert order[..i + 1][..i] == order[..i];
        var entry := tracked[order[i]];
        match entry.action {
          case NacBlock => ipt.BlockDevice(order[i], Some(entry.victimIp));
          case NacQuarantine => ipt.QuarantineDevice(order[i], Some(entry.victimIp));
        }
      }
      assert order[..|order|] == order;
    }
  }

  /** A start of the service: nothing is tracked, the nft sets are as the kernel kept them, and on a
      host without legacy chains those are created and hooked. */
  method Start(backend: Backend, sets: NftSets) returns (service: EnforcementService)
    ensures fresh(service) && fresh(service.ipt) && service.ipt.Valid()
    ensures service.View() == Service(SetUp(Firewall(backend, sets, Chains([], [], [], []))), map[])
    ensures backend == IptablesLegacy ==> Hooked(service.View().firewall.chains)
  {
    var ipt := new IptablesEnforcer(backend, sets);
    ipt.SetupChains();
    service := new EnforcementService(ipt);
    SetupHooks(Chains([], [], [], []));
  }
}
