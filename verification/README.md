# Verified model of the network access control platform

This project models the decision and enforcement core of the platform and proves what it promises
over whole runs: what the policy manager decides and publishes, what the enforcement service makes of
it in the firewall, and the codecs, policy interpreters and address tables beside them.

`dafny verify dfyconfig.toml` checks everything.

## What is modelled

- **Policy manager** (`Rows`, `Policies`, `Engine`, `Versions`, `BulkRules`, `Handlers`, `ArpSync`,
  `Manager`). Each handler is one function from a world (endpoint rows, session rows, command log,
  pending addresses, announcements) to the next, in module `Handlers` or `ArpSync`. Class
  `Manager.PolicyManager` runs the same handlers step by step over class `Rows.Database`; the
  contract of each method equates its final state with that function. Theorems are about the functions.
- **Enforcement** (`Actions`, `LegacyChains`, `Firewall`, `Enforcement`). Classes `LegacyChains.Chain`,
  `Firewall.IptablesEnforcer` and `Enforcement.EnforcementService` change chains, sets and the tracked
  map in place; their contracts equate the result with a function of the old state.
- **Runs** (`Runs`, `RunLog`, `Agreement`, `RunAgreement`, `Bulk`, `SessionRuns`, `ArpRuns`, `Addresses`,
  `EnforcementRuns`, `Tracking`, `AddressSets`, `RuleAddresses`, `EndToEnd`, `Witnesses`). A run is any sequence of
  atomic handler steps and process starts from an empty database; a schedule is any sequence of consumed
  commands, reinforcement ticks and restarts. `EndToEnd` joins the two: from the table to the sets, the
  tracked map and the packets. `Witnesses` holds concrete runs at which a promise fails.
- **Codecs** (`MacText`, `Radius`, `Pap`, `Base64Url`, `Token`, `Dhcp`) and the **lease pool**
  (`LeasePool`).

Octets are integers from 0 to 255 (`Common.byte`); shifts and masks are division and remainder.
A row is found by its position in a sequence, and a later session row is a newer one. A query
whose order the database leaves open takes that order as an argument, so every theorem holds for all
orders. Hash functions, the token signature, the claims codec and UTF-8 decoding are
function arguments, so the theorems hold for every such function.

## Hypotheses

- A handler is atomic, its database calls succeed, and commands arrive in the order they were published.
- Hardware addresses are in the form the database prints: six lower-case pairs with colons.
- nft element commands succeed for device names; an address set accepts IPv4 addresses only; deleting an
  absent element is harmless.

## Where the code falls short of what it is for

Each of these is proved with its exact condition, and where the condition alone does not show one, with a
run or input on the failing side.

- A restricting command that stops before being tracked (no address, no gateway, or an ARP frame that
  cannot be sent) leaves an older record behind, which the next tick re-applies. The firewall ends with
  what the last command about a device asks exactly when that command left no contrary record, or no tick
  ran before the next restart or the end (`EnforcementRuns.ScheduleFollowsExactly`,
  `EndToEnd.FirewallFollowsTable`, `Witnesses.TickUndoesDenial`).
- Such a command also leaves its device untracked, or tracked at an older address: a device is tracked as its
  last command asks exactly when that command allows, is tracked, or finds it tracked at its address, and no
  restart came after it (`Tracking.TrackedIpFollowsLog`, `Witnesses.UntrackedQuarantine`).
- A bulk run with the default action `pending` writes a pending row and publishes the word `pending`,
  which enforcement reads as quarantine. The last command about a device asks for what its row says exactly
  when the step it came from wrote no such default there (`RunAgreement.RunAgreesExactly`,
  `Bulk.BulkAgreesExactly`, `Witnesses.PendingDefault`).
- A detection event while no policy is enabled, or a failed or undecided authentication that registers a
  restricted device again, stores a new address without publishing it. The last command about a device carries
  its stored address exactly when the last change of that address was told (`Addresses.RunAddressedExactly`,
  `Addresses.ApplyAddressed`, `Witnesses.MovedWithoutRules`, `Witnesses.MovedByFailedLogin`).
- All IP rules share the all-zero address, so the service tracks one of their addresses at a time. An
  address ends in force exactly when some event puts it, a rule for it or a tick while it is the one tracked,
  and no later event drops it, its withdrawal or a rule for another address that finds it tracked
  (`RuleAddresses.IpRulesStayExactly`). So of two rules the first stays exactly when it was not tracked
  (`RuleAddresses.FirstOfTwoRules`), and a tick may bring it back (`RuleAddresses.TickRevivesRule`).
- The nft address sets stay those of the tracked map, address by address: at an allow exactly when, of the
  address it carries, no other device is tracked there, and of any other, its own device is not; at a command
  that stops early exactly when its address cannot be set, or already has its verdict and is the only one of
  its device; at a restart exactly when the address is not tracked (`AddressSets.EventAtExactly`,
  `AddressSets.AddressMatchesExactly`, `Witnesses.AllowLeavesOldAddress`).
- Detection evaluates compliance conditions as unknown, so with the seed policies detection and bulk
  evaluation agree exactly on devices known to comply (`BulkRules.DetectionMissesCompliance`,
  `BulkRules.SeedPoliciesDisagree`).
- A response that names a session activates that one: it is an open session of the endpoint that logs in
  exactly when the response names none or names such a one (`SessionRuns.LoginActivatesOwnExactly`,
  `Witnesses.LoginActivatesForeignSession`, `Witnesses.LoginActivatesEndedSession`).
- Quarantining on iptables-legacy gives a device its three rules exactly when it had none or just those;
  a lone drop rule is not repaired (`LegacyChains.QuarantineRulesExactly`, `LegacyChains.HalfInstalledStays`).
- The lease pool runs past its end exactly when the last address of all is in it, the counter wrapping
  around at 2^32 (`LeasePool.IntendedExactly`).
- PAP recovery loses trailing zero octets: it is exact for exactly the other passwords (`Pap.PasswordRecovered`).

Where code and comments differ the model follows the code: the header of
`services/enforcement/src/iptables.rs:8-18` lets quarantined devices through the nft forward hook on two
ports, while the rules at lines 216-221 drop them there; and `compare_os_version` skips components that
are not numbers instead of comparing them.

## Model

| member | source | states |
|---|---|---|
| `EndToEnd.FirewallFollowsTable` | services/enforcement/src/consumer.rs:48-257 | After any run of handler steps from an empty database and any schedule that consumes its commands in order, with ticks and restarts anywhere, the firewall on either back end holds for a device exactly what its row says iff the last command about it came from no bulk default `pending`, and left no contrary record or no tick ran before the next restart or the end |
| `EndToEnd.ReplayFollowsTable` | services/enforcement/src/consumer.rs:48-129 | So, that default aside, a schedule without ticks leaves each device as its row says, whatever commands stop before being tracked |
| `EndToEnd.ReachingFollowsTable` | services/enforcement/src/main.rs:172-206 | So does a schedule with ticks and restarts in which every restricting command is tracked |
| `EndToEnd.SetsFollowTable` | services/enforcement/src/iptables.rs:74-148 | On nft, under exactly that condition a device is in the blocked set iff its row is denied and in the quarantined set iff its row is quarantined |
| `EndToEnd.PacketsFollowTable` | services/enforcement/src/iptables.rs:329-481 | On iptables-legacy, under exactly that condition every packet of a device is treated in FORWARD and INPUT as its row asks |
| `Witnesses.TickUndoesDenial` | services/enforcement/src/consumer.rs:188-200 | A run and schedule on the failing side: quarantined and tracked, then denied while ARP frames cannot be sent, then a tick; the row says denied and the firewall quarantines |
| `RunAgreement.RunAgreesExactly` | services/policy-manager/src/consumer.rs:65-267 | In every run, with any bulk defaults, and for each device: the last command about it asks for exactly its row's status iff the step it came from wrote no default `pending` to that row; otherwise it asks to quarantine a device whose row leaves it free |
| `RunAgreement.RunAgrees` | services/policy-manager/src/api/evaluate.rs:17-21 | So with documented defaults only, log and table agree for all devices |
| `RunLog.LogIsUnread` | services/policy-manager/src/consumer.rs:269-320 | A step does the same to the tables and publishes the same commands whatever was published before |
| `RunAgreement.RunNamed` | services/policy-manager/src/consumer.rs:269-320 | Every published command names a device in the database's text form |
| `Addresses.RunAddressedExactly` | services/policy-manager/src/consumer.rs:199-264 | In every run and for each device: the last command about it carries the address its row stores, as far as that row is denied or quarantined, iff the last step that published about it or changed that address published, or went back to the address last sent |
| `Addresses.RunAddressed` | services/policy-manager/src/consumer.rs:199-264 | So it does for all devices in a run whose steps all tell enforcement |
| `Addresses.ApplyAddressed` | services/policy-manager/src/background.rs:289-326 | A step keeps that up iff it stores no address for a restricted device without publishing it; reconciliation, ARP scans, bulk runs, posture reports and overrides always do |
| `Addresses.DetectAddressed` | services/policy-manager/src/consumer.rs:105-160 | For a detection event: iff rules are loaded or the address of a restricted device does not move |
| `Addresses.AuthAddressed` | services/policy-manager/src/session_handler.rs:108-234 | For an authentication response: iff registering a restricted device again does not move its address without a decision being published |
| `Witnesses.MovedWithoutRules` | services/policy-manager/src/consumer.rs:154-160 | A two-step run on the failing side: detected and quarantined, then detected at another address with no policy enabled |
| `Witnesses.MovedByFailedLogin` | services/policy-manager/src/session_handler.rs:108-140 | Likewise for a response: a failed one with an unknown endpoint id registers a quarantined device again at another address |
| `EndToEnd.TrackedFollowsTable` | services/enforcement/src/consumer.rs:101-221 | Under any run and schedule, for each device whose last command came from no default `pending`: it is tracked exactly while its row is denied or quarantined, at the address its row stores, iff, given that the last change of that address was told, its last command was tracked, and conversely; once a restart follows that command, iff the row restricts nothing |
| `EndToEnd.AddressSetsFollowTable` | services/enforcement/src/iptables.rs:82-142 | On nft the stored address of such a restricted row, told, tracked and not lost in a restart, is in exactly the set of its status when each event keeps the sets matching the map at that one address |
| `Witnesses.UntrackedQuarantine` | services/enforcement/src/consumer.rs:131-144 | On the failing side: a device detected without an address is quarantined and not tracked |
| `Agreement.DetectAgrees` | services/policy-manager/src/consumer.rs:154-267 | A detection event keeps log and table in agreement |
| `Agreement.AuthAgrees` | services/policy-manager/src/session_handler.rs:74-253 | So does an authentication response, whichever key finds the endpoint |
| `Agreement.ReportAgrees` | services/policy-manager/src/posture_handler.rs:35-161 | So does a posture report |
| `Agreement.OverrideAgrees` | services/policy-manager/src/api/endpoints.rs:91-167 | So does an administrator's override |
| `Agreement.IpRuleAgrees` | services/policy-manager/src/api/ip_rules.rs:102-190 | An IP rule command disturbs no device but the all-zero one |
| `RunAgreement.ReconcileAgrees` | services/policy-manager/src/background.rs:26-134 | Start-up reconciliation keeps the agreement, whatever order its queries return rows in |
| `RunAgreement.SyncAgrees` | services/policy-manager/src/background.rs:181-345 | So does a completed ARP scan |
| `Bulk.BulkRunMeaning` | services/policy-manager/src/api/evaluate.rs:51-118 | A completed run leaves each visited row with its settled status and everything else alone, counts exactly the rows changed, and publishes for each of them, in order, one command with its stored address and new status; it fails iff a visited row's text is refused |
| `Bulk.ExemptUntouched` | services/policy-manager/src/api/evaluate.rs:56-60 | Exempt rows are not touched |
| `Bulk.SecondRunIsIdle` | services/policy-manager/src/api/evaluate.rs:37-118 | After a completed run a second one with the same inputs, in any row order, changes and publishes nothing |
| `Bulk.SettledIsStable` | services/policy-manager/src/api/evaluate.rs:62-89 | The status a row settles to does not depend on the status it had |
| `Bulk.BulkAgreesExactly` | services/policy-manager/src/api/evaluate.rs:17-21 | A bulk run keeps log and table in agreement iff it writes the default `pending` to no row but one of the all-zero address |
| `Witnesses.PendingDefault` | services/policy-manager/src/api/evaluate.rs:86-109 | A two-step run on the failing side: a quarantined row becomes pending while enforcement goes on quarantining its device |
| `SessionRuns.StepSessions` | crates/nac-store/src/session.rs:39-122 | No handler shortens the session table or reopens an ended session, only a login makes an open session active, and none is after a reconciliation |
| `SessionRuns.EndedStaysEnded` | crates/nac-store/src/session.rs:93-122 | An ended session stays ended in every later state |
| `SessionRuns.ActiveNeedsLogin` | services/policy-manager/src/background.rs:26-83 | After a reconciliation each open active session was made so by a successful login since then |
| `SessionRuns.NotAuthenticatedBeforeLogin` | services/policy-manager/src/consumer.rs:184-198 | Until a login names or finds its newest open session an endpoint does not pass the already-authenticated test, whoever else logs in |
| `SessionRuns.NobodyAuthenticatedBeforeLogin` | services/policy-manager/src/consumer.rs:184-198 | So until any successful login no endpoint does |
| `SessionRuns.DetectOpensExactly` | services/policy-manager/src/consumer.rs:203-252 | A detection opens a session iff it turns a row quarantined; it is the row's newest open one, awaits login and carries the decision's VLAN |
| `SessionRuns.ReconcileOpensExactly` | services/policy-manager/src/background.rs:26-76 | After a reconciliation an endpoint has an open session iff it was allowed under a user name |
| `SessionRuns.AuthChangesOneSession` | services/policy-manager/src/session_handler.rs:142-187 | A response changes its own session only: a success activates it under the user name without reopening it, a failure ends it |
| `SessionRuns.LoginActivatesOwnExactly` | services/policy-manager/src/session_handler.rs:142-187 | Of every login: the session it activates ends as an open one of its own endpoint iff it names none or names an open one of that endpoint; when it names none, that session was open for it before |
| `Witnesses.LoginActivatesForeignSession` | services/policy-manager/src/session_handler.rs:143-146 | A run in which one device's login activates another device's session |
| `Witnesses.LoginActivatesEndedSession` | services/policy-manager/src/session_handler.rs:179-187 | A run in which a login marks an ended session active |
| `SessionRuns.DetectKeepsLogin` | services/policy-manager/src/consumer.rs:184-264 | A detection event leaves a logged-in device's status, user name and session alone |
| `SessionRuns.DetectionsKeepLogin` | services/policy-manager/src/consumer.rs:65-267 | So does any number of them, for any devices and rule sets |
| `ArpSync.ChosenIsBest` | services/policy-manager/src/background.rs:200-230 | The address chosen for a device is on its earliest usable line of maximal flags |
| `ArpSync.SyncMeaning` | services/policy-manager/src/background.rs:253-342 | A completed scan is determined device by device by what was stored, pending and read: rows, pending addresses, and in visiting order the commands sent and announcements made |
| `ArpSync.OneCommandEach` | services/policy-manager/src/background.rs:314-326 | Of all devices, listed by the scan or not: one that is confirmed at a new address and whose row is restricted has exactly one new command, at that address, and any other has none |
| `ArpSync.OrderIsIrrelevant` | services/policy-manager/src/background.rs:256-342 | The resulting tables do not depend on the map's iteration order |
| `ArpSync.GatewaysAreLeftAlone` | services/policy-manager/src/background.rs:257-262 | No gateway address is written to a row or announced |
| `ArpSync.RewrittenIffConfirmed` | services/policy-manager/src/background.rs:289-341 | Of two successive scans the second confirms an address iff both saw the change to it and the first did not confirm it itself |
| `ArpSync.FirstScanRewritesNothing` | services/policy-manager/src/background.rs:169-179 | With nothing pending a scan rewrites no row and publishes no command |
| `ArpRuns.RewriteNeedsTwoScans` | services/policy-manager/src/background.rs:165-345 | In any run a rewritten address was chosen by this scan and by the last one before it, with no start of the process in between, and was stored for the device at neither |
| `Manager.PolicyManager.ProcessEvent` | services/policy-manager/src/consumer.rs:65-267 | The step-by-step handler has exactly the effect of `Handlers.Detect` |
| `Manager.PolicyManager.ProcessAuthResponse` | services/policy-manager/src/session_handler.rs:74-234 | Likewise `Handlers.Authenticate` |
| `Manager.PolicyManager.ProcessPosture` | services/policy-manager/src/posture_handler.rs:35-161 | Likewise `Handlers.Report` |
| `Manager.PolicyManager.EvaluatePolicies` | services/policy-manager/src/api/evaluate.rs:37-118 | Likewise `Handlers.BulkRun`, counters and early failure included |
| `Manager.PolicyManager.UpdateEndpointStatus` | services/policy-manager/src/api/endpoints.rs:91-143 | Likewise `Handlers.Override`; reports whether the row exists |
| `Manager.PolicyManager.ReconcileAll` | services/policy-manager/src/background.rs:26-134 | Likewise `Handlers.Reconcile` |
| `Manager.PolicyManager.ReadTable` | services/policy-manager/src/background.rs:200-230 | The table-reading loop yields the map of chosen addresses |
| `Manager.PolicyManager.SyncArp` | services/policy-manager/src/background.rs:181-345 | The visiting loop has exactly the effect of `ArpSync.Sync` |
| `Rows.Database.UpsertEndpoint` | crates/nac-store/src/endpoint.rs:93-134 | The row of the address keeps each field the event leaves open, takes each it gives, and keeps status, user name, compliance, policy, exemption and posture; an unknown address gets a new pending row at the end; all other rows stay |
| `Rows.Database.Transition` | crates/nac-store/src/session.rs:94-110 | Exactly one row changes: it gets the state and, when one is given, the user name, and keeps endpoint, VLAN and end |
| `Rows.Database.TerminateOpen` | services/policy-manager/src/background.rs:28-37 | Row by row: each open session becomes terminated and ended with its other fields kept, each ended one stays as it was |
| `Rows.Database.RequarantineAuthenticated` | services/policy-manager/src/background.rs:46-55 | Row by row: each allowed row with a user name becomes quarantined without one and keeps its other fields, each other row stays as it was |
| `Firewall.ActHolds` | services/enforcement/src/iptables.rs:74-148 | On either back end acting on one device gives it the verdict and keeps every other device's |
| `Firewall.IptablesEnforcer.BlockDevice` | services/enforcement/src/iptables.rs:75-95 | Blocking in place has the effect of `Firewall.Block` |
| `Firewall.IptablesEnforcer.QuarantineDevice` | services/enforcement/src/iptables.rs:98-118 | Likewise `Firewall.Quarantine` |
| `Firewall.IptablesEnforcer.AllowDevice` | services/enforcement/src/iptables.rs:130-147 | Likewise `Firewall.Allow` |
| `Firewall.IptablesEnforcer.RemoveAddress` | services/enforcement/src/iptables.rs:121-127 | Removes one address from both address sets, on nft only |
| `LegacyChains.PacketsFollowOperations` | services/enforcement/src/iptables.rs:343-481 | After any calls on any devices, first-match evaluation of both hooks is the map from name to the verdict last asked for |
| `LegacyChains.OperationsFollowMap` | services/enforcement/src/iptables.rs:343-421 | The chains then hold for each name exactly the rules of that verdict |
| `LegacyChains.PacketsFollowVerdict` | services/enforcement/src/iptables.rs:336-413 | Blocked devices are dropped in both hooks, quarantined ones pass FORWARD on udp/53 and tcp/8080 only, others are untouched |
| `LegacyChains.OperationsInstall` | services/enforcement/src/iptables.rs:343-421 | From any chains each operation installs its verdict for a device iff the rules it finds for it are of the stated shapes, as those of a whole verdict are, and leaves every other device's rules in order |
| `LegacyChains.QuarantineRulesExactly` | services/enforcement/src/iptables.rs:365-413 | From any chains quarantining gives a device its three rules iff it had none or just those |
| `LegacyChains.AllowClears` | services/enforcement/src/iptables.rs:415-481 | From any chains allowing a device removes exactly the rules of its three shapes and leaves all others in order, those of other devices and those of other shapes |
| `LegacyChains.Chain.DeleteAll` | services/enforcement/src/iptables.rs:423-436 | Deleting until deletion fails terminates and removes every occurrence, keeping the rest in order |
| `LegacyChains.SetupHooks` | services/enforcement/src/iptables.rs:329-341 | Setup gives the intended hooks iff INPUT did not jump to the quarantine chain, loses no rule or hook, and is idempotent |
| `LegacyChains.HalfInstalledStays` | services/enforcement/src/iptables.rs:365-413 | A lone drop rule is not repaired, so every packet of the device stays dropped, portal traffic included |
| `Enforcement.EnforcementService.ExecuteCommand` | services/enforcement/src/consumer.rs:93-221 | Restricting a device in place has the effect of `Enforcement.Execute`, early returns included |
| `Enforcement.EnforcementService.ExecuteAllowCommand` | services/enforcement/src/consumer.rs:240-256 | Allowing a device clears its rules and forgets it |
| `Enforcement.EnforcementService.ReceiveCommand` | services/enforcement/src/consumer.rs:48-91 | A received command is stripped of its prefix length and dispatched by its action |
| `Enforcement.EnforcementService.Reinforce` | services/enforcement/src/main.rs:172-206 | A tick re-applies each tracked device once, in the order the map is copied |
| `Enforcement.Start` | services/enforcement/src/iptables.rs:47-72 | A start tracks nothing, keeps the nft sets, and on a host without legacy chains creates and hooks them |
| `EnforcementRuns.ReceiveHolds` | services/enforcement/src/consumer.rs:93-129 | A command gives its device the verdict even when it stops before tracking, and keeps the others |
| `EnforcementRuns.TickRestores` | services/enforcement/src/main.rs:189-199 | From any contents of the sets, in any order, a tick leaves each tracked device in exactly the set of its recorded action |
| `EnforcementRuns.TickRestoresIps` | services/enforcement/src/main.rs:189-199 | And each tracked address, when no two devices are tracked at one address |
| `EnforcementRuns.ScheduleInStep` | services/enforcement/src/main.rs:172-206 | For any schedule, records and firewall are in step with the commands for all devices iff each device's last command left no contrary record or a restart dropped it before any tick |
| `EnforcementRuns.ScheduleFollowsExactly` | services/enforcement/src/main.rs:172-206 | For any schedule and device, the firewall ends with the last command's verdict iff that command left no contrary record or no tick ran before the next restart or the end |
| `EnforcementRuns.TickKeepsExactly` | services/enforcement/src/consumer.rs:131-200 | From a service in step, a tick after a command keeps its verdict iff the command allows, reaches tracking, or finds its device untracked or recorded with the same verdict |
| `EnforcementRuns.CommandInStepExactly` | services/enforcement/src/consumer.rs:131-200 | Under exactly that condition the service stays in step |
| `EnforcementRuns.ActOnIps` | services/enforcement/src/iptables.rs:82-142 | Acting on a device puts the given address in exactly the set of the verdict, in neither when allowed, and leaves the others |
| `Tracking.TrackedIpFollowsLog` | services/enforcement/src/consumer.rs:199-257 | For any schedule and device: it is tracked iff its last command restricts it, at that address, iff that command allows, is tracked or finds the device tracked at its address; once a restart follows it, iff it restricts nothing |
| `Tracking.RecordsFollowLog` | services/enforcement/src/consumer.rs:199-257 | For any schedule and device: the record is the last command's verdict iff that command allows, is tracked or finds its verdict recorded; once a restart follows it, iff it allows |
| `Tracking.MapAgreesExactly` | services/enforcement/src/main.rs:172-206 | For any schedule and device record and firewall agree iff the last command was recorded or a tick has already gone back to an older record; once a restart follows it, iff it allows |
| `Tracking.TickIdleExactly` | services/enforcement/src/main.rs:172-206 | For any schedule on nft the next tick, in any order, leaves the device sets as they are iff each device's last command left no contrary record, was already undone by a tick, or lost its record in a restart |
| `Tracking.MapAndSetsAgree` | services/enforcement/src/main.rs:172-206 | So, when every restricting command is tracked and the service is not restarted, map and device sets agree for all devices and ticks change no device set |
| `EnforcementRuns.RecordMatchesExactly` | services/enforcement/src/consumer.rs:131-200 | A restricting command keeps record and verdict matched iff it reaches tracking or the device already had its verdict |
| `EnforcementRuns.TickUndoesUnaddressedBlock` | services/enforcement/src/consumer.rs:131-144 | On the failing side: a denial without an address after a tracked quarantine is undone by the next tick |
| `AddressSets.InForceExactly` | services/enforcement/src/consumer.rs:101-257 | For any schedule of commands about any devices, ticks and restarts: an address ends in force iff some event puts it, a command for it or a tick while a device is tracked there, and no later event drops it |
| `AddressSets.EventAtExactly` | services/enforcement/src/consumer.rs:93-257 | At any one address where at most one device is tracked: from sets that match the map there an event keeps them matching there iff it fits |
| `AddressSets.AddressFollowsRecords` | services/enforcement/src/iptables.rs:82-142 | So over a schedule whose events fit at one address the sets match the map there, whatever happens at others |
| `AddressSets.AddressMatchesExactly` | services/enforcement/src/iptables.rs:82-142 | For any schedule the sets match the map at an address iff the last event that moved the address moved it to what the map says |
| `AddressSets.SetsFollowRecords` | services/enforcement/src/iptables.rs:82-142 | Over a schedule that fits at every address, early stops and restarts included, the nft address sets hold exactly the tracked addresses by action |
| `AddressSets.EventExactly` | services/enforcement/src/consumer.rs:93-257 | With distinct tracked addresses any event keeps address sets and map together iff it fits at every address |
| `AddressSets.AllowExactly` | services/enforcement/src/consumer.rs:240-256 | An allow keeps address sets and map together iff it carries the address tracked for its device and for no other |
| `AddressSets.RestrictExactly` | services/enforcement/src/consumer.rs:93-221 | A restricting command does iff its address cannot be set, or it is tracked, or its address is already in force with its verdict and its device is tracked nowhere else |
| `AddressSets.RestartExactly` | services/enforcement/src/iptables.rs:47-72 | A restart does iff nothing is tracked |
| `Witnesses.AllowLeavesOldAddress` | services/enforcement/src/consumer.rs:240-256 | On the failing side: a quarantined device moves while no policy is enabled and is then allowed; its old address stays quarantined although nothing is tracked |
| `RuleAddresses.IpRulesStayExactly` | services/policy-manager/src/api/ip_rules.rs:102-190 | Of any sequence of IP rules made and withdrawn, ticks and restarts: an address ends in force iff some event puts it, a rule for it or a tick while it is the one tracked, and no later event drops it |
| `RuleAddresses.FirstOfTwoRules` | services/enforcement/src/consumer.rs:101-118 | Of two rules for two addresses the first stays in force iff it did not reach tracking; the second is in force either way |
| `RuleAddresses.TickRevivesRule` | services/enforcement/src/main.rs:172-206 | On the failing side: a rule tracked, another rule whose ARP frame fails, a tick; the first address was dropped and is back in force beside the second |
| `RuleAddresses.OnlyLastIpRuleStays` | services/enforcement/src/consumer.rs:101-118 | When every rule is tracked and none withdrawn, and no restart comes between them, only the last one's address is in force, whatever ticks run |
| `Engine.EvaluationSelects` | crates/nac-policy-engine/src/evaluator.rs:8-25 | The decision is that of the matching rule of least priority, earliest among ties, and a denial iff none matches |
| `Engine.EvaluationIgnoresOrder` | crates/nac-policy-engine/src/evaluator.rs:10-25 | With distinct priorities the decision is the same for every permutation |
| `Engine.SortInPlace` | crates/nac-policy-engine/src/evaluator.rs:14 | An insertion sort in place yields the stable order by priority |
| `Engine.Evaluate` | crates/nac-policy-engine/src/evaluator.rs:10-25 | Sorting in place and scanning gives that decision and leaves the rules sorted |
| `Policies.ToPolicyRuleMeaning` | crates/nac-store/src/policy.rs:186-227 | A stored policy's rule matches iff all its conditions do, for none, one or many, and its decision has the stored action's status |
| `BulkRules.InterpretersAgree` | services/policy-manager/src/api/evaluate.rs:120-173 | On comparable conditions, however nested, both interpreters give the same answer |
| `BulkRules.ComparableIsExact` | crates/nac-policy-engine/src/evaluator.rs:28-54 | On a single test of any kind: one that reads no posture data is treated alike iff its text or group is comparable, one that does iff the row fails it |
| `BulkRules.EnginesAgree` | services/policy-manager/src/api/evaluate.rs:75-86 | For rules on comparable conditions, in any order with distinct priorities, in a context that states the row's compliance (none stored counting as not compliant), the engine's status is the bulk evaluator's first match, denied by default |
| `BulkRules.DetectionMissesCompliance` | services/policy-manager/src/consumer.rs:162-172 | On a compliance condition detection and bulk evaluation disagree iff the bulk evaluator matches it |
| `BulkRules.SeedPoliciesDisagree` | services/policy-manager/migrations/0004_fix_seed_policies.sql:1-13 | With the enabled seed policies detection allows every device, and bulk evaluation gives the same status iff the device is known to comply, quarantining it otherwise |
| `Versions.CompareOsVersion` | services/policy-manager/src/api/evaluate.rs:176-190 | The index loop computes the specified comparison |
| `Versions.CompareIsLexicographic` | services/policy-manager/src/api/evaluate.rs:176-190 | It is lexicographic order on the parsed components extended with zeros |
| `Versions.CompareIsTotalPreorder` | services/policy-manager/src/api/evaluate.rs:176-190 | It is reflexive, antisymmetric up to equality, transitive and total |
| `Versions.EqualUpToTrailingZeros` | services/policy-manager/src/api/evaluate.rs:180-189 | It says equal iff the component lists agree once trailing zeros are dropped |
| `MacText.ParseMac` | services/enforcement/src/consumer.rs:351-362 | The filling loop yields the six octets named by the twelve hexadecimal digits |
| `MacText.ReadersAgree` | services/aaa/src/radius.rs:138-157 | The RADIUS normal form exists iff enforcement can parse the name, and then it and the nft name are that address's text |
| `MacText.TextIsCanonical` | services/enforcement/src/iptables.rs:315-325 | The database text is a fixed point of every reader |
| `MacText.IptMacInjective` | services/enforcement/src/iptables.rs:518-528 | The iptables-legacy name tells devices apart |
| `Radius.Encode` | services/aaa/src/radius.rs:81-96 | The printing loop yields header, authenticator and attributes with a 16-bit length |
| `Radius.Parse` | services/aaa/src/radius.rs:47-79 | The parsing loop yields the packet or the error of a short or truncated buffer |
| `Radius.RoundTripExactly` | services/aaa/src/radius.rs:47-96 | Parsing what was printed gives the packet back iff values have at most 253 octets and the packet at most 65535 |
| `Radius.ReprintIsStable` | services/aaa/src/radius.rs:47-96 | Every accepted buffer reads the same after reprinting, and the attributes reprinted are a prefix of its attribute area |
| `Radius.EncodeWithResponseAuth` | services/aaa/src/radius.rs:98-109 | Overwriting the authenticator twice in place yields the signed reply |
| `Radius.ReplyIsAuthentic` | services/aaa/src/radius.rs:98-109 | A reply passes the client's authenticator check of section 3 of RFC 2865 and parses back |
| `Radius.ReplyReadsBack` | services/aaa/src/radius.rs:321-350 | Code, identifier, message and, on accept with a VLAN, its numeral are read back from an authentic reply |
| `Radius.DecimalReads` | services/aaa/src/radius.rs:160-187 | The VLAN numeral reads back as the VLAN |
| `Pap.DecryptPapPassword` | services/aaa/src/radius.rs:119-135 | The chained loop computes the specified recovery |
| `Pap.PasswordRecovered` | services/aaa/src/radius.rs:119-135 | Applied to the hiding of section 5.2 of RFC 2865, for every hash, it returns the password iff that does not end in a zero octet |
| `Base64Url.Encode` | services/api-gateway/src/auth.rs:95-118 | The chunk loop computes the specified text |
| `Base64Url.Decode` | services/api-gateway/src/auth.rs:120-157 | The chunk loop computes the specified octets |
| `Base64Url.DecodeEncode` | services/api-gateway/src/auth.rs:95-157 | Decoding undoes encoding for every octet string |
| `Base64Url.EncodedAlphabet` | services/api-gateway/src/auth.rs:95-118 | The output has the least length that holds the bits and uses the URL-safe alphabet only, no dot, no padding |
| `Token.TokenVerifies` | services/api-gateway/src/auth.rs:22-62 | Checked under the signing secret a token yields its user name until it expires; under another it is refused iff that one signs differently |
| `Token.SplitJoined` | services/api-gateway/src/auth.rs:39-46 | Splitting at the first two dots gives back the three parts |
| `Dhcp.ParseClient` | crates/nac-netproto/src/dhcp.rs:76-131 | Accepts exactly long enough requests and reports the last host name, parameter list and vendor class and the last one-octet message type |
| `Dhcp.ParseBinding` | crates/nac-netproto/src/dhcp.rs:14-57 | Accepts exactly long enough replies and reports the last four-octet lease time of the same options, a day by default |
| `Dhcp.WalkOfCutArea` | crates/nac-netproto/src/dhcp.rs:90-122 | Of any list of options with pads, cut anywhere, the walk yields exactly those that fit whole; nothing behind the end mark counts |
| `Dhcp.EveryAreaIsAnEncoding` | crates/nac-netproto/src/dhcp.rs:90-122 | Every area is an encoding of what the walk yields, up to where it stops |
| `Dhcp.ReportOfCutPacket` | crates/nac-netproto/src/dhcp.rs:76-131 | So a packet written from a list and cut anywhere is reported by the options that fit |
| `LeasePool.LeasePool.GetOrAllocate` | services/dhcp/src/pool.rs:42-58 | Looks up or hands out an address, changing exactly the lease table and the counter as specified |
| `LeasePool.PoolFollowsClients` | services/dhcp/src/pool.rs:14-58 | After any requests each client holds the address of its place in the order of first requests, and the counter depends on their number alone |
| `LeasePool.AnswerIsByPlace` | services/dhcp/src/pool.rs:42-58 | Every answer is the address of the asking client's place |
| `LeasePool.IntendedExactly` | services/dhcp/src/pool.rs:48-55 | Clients are numbered as intended iff the last address of all is not in the pool or the pool is not used up |
| `LeasePool.SharingExactly` | services/dhcp/src/pool.rs:42-58 | Of any pool: one client always gets one address; two share one iff their places do, which takes more clients than addresses; an answer is in range iff there is a pool and its numbering has not run past the last address of all |

## Left out

- Interleavings inside a handler, or between a tick's copy of the map and its firewall commands: the code holds no lock there, so agreement is stated at handler granularity.
- Failing database calls, lost messages and failing nft commands: each is taken to succeed.
- Agent registration, which rewrites an endpoint's hardware address: it is not a step of a run.
- Agreement.Agree: excludes the all-zero address, under which all IP rules are published.
- The nft rule text, its NAT and input chains and the management addresses: only the four sets are modelled. First-match semantics is given for iptables-legacy.
- ARP frames, the re-poisoning tick, reading routes and the ARP file: parsed tables and the gateway set are arguments. An ARP scan that fails half-way is not a step.
- The compliance check and the decoding of the software inventory: their results are arguments.
- Case folding is ASCII; other text is compared as it is.
- Base64Url.Decode: its input is a string of single-octet characters; a longer character would count by its UTF-8 length in the code.
- Radius tunnel attributes carry five octets for type and medium where RFC 2868 has four; the model keeps the code's layout.
- LeasePool.Served: an overflow of the counter wraps around, as in an optimised build; a debug build stops there.
- The signature in `services/api-gateway/src/auth.rs:81-93`, MD5, JSON and UTF-8: any function will do.
- NATS, SQL text, HTTP, gRPC, sockets, audit entries, logging, the user interface, packaging, LDAP, SNMP and the fingerprinting tables.
