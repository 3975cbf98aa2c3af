/** How enforcement reads the action text of a command. */
module Actions {

  datatype NacAction = NacBlock | NacQuarantine

  /** What the firewall is to do with a device. */
  datatype Verdict = Free | Blocked | Held

  predicate IsAllowAction(action: string) {
    action == "allowed" || action == "allow"
  }

  /** Unknown words quarantine. */
  function MapAction(action: string): NacAction {
    if action == "denied" || action == "block" || action == "blocked" then NacBlock
    else NacQuarantine
  }

  function ActionVerdict(a: NacAction): Verdict {
    match a case NacBlock => Blocked case NacQuarantine => Held
  }

  function Effect(action: string): Verdict {
    if IsAllowAction(action) then Free else ActionVerdict(MapAction(action))
  }
}
