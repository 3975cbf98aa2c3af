/** The endpoints and sessions tables, and the repository operations on them. A row's id is its
    place in the table; rows are never deleted. A later session row is a newer session. */
module Rows {
  import opened Common

  datatype Status = Allowed | Quarantined | Denied | Pending

  datatype Software = Software(name: string, version: string)

  datatype Posture = Posture(
    software: Option<seq<Software>>,
    missingPatches: int,
    usbEnabled: Option<bool>,
    bluetooth: Option<bool>,
    folderSharing: Option<bool>,
    osVersion: Option<string>)

  const NO_POSTURE := Posture(None, 0, None, None, None, None)

  datatype Endpoint = Endpoint(
    mac: Mac,
    ip: Option<string>,
    hostname: Option<string>,
    osFamily: Option<string>,
    osVersion: Option<string>,
    deviceType: Option<string>,
    vendor: Option<string>,
    interface: Option<string>,
    agentId: Option<string>,
    username: Option<string>,
    status: Status,
    isCompliant: Option<bool>,
    assignedPolicy: Option<nat>,
    exempt: bool,
    posture: Posture)

  datatype SessionState = Detecting | Active | Terminated

  datatype Session = Session(
    endpoint: nat,
    username: Option<string>,
    state: SessionState,
    vlanId: Option<int>,
    ended: bool)

  datatype Upsert = Upsert(
    mac: Mac,
    ip: Option<string>,
    hostname: Option<string>,
    osFamily: Option<string>,
    osVersion: Option<string>,
    deviceType: Option<string>,
    vendor: Option<string>,
    interface: Option<string>,
    agentId: Option<string>)

  /** What an `inet` column prints for a plain IPv4 literal. */
  function InetText(ip: string): string { ip + "/32" }

  function StoredIp(ip: Option<string>): Option<string> {
    match ip case None => None case Some(s) => Some(InetText(s))
  }

  function HostIp(ip: Option<string>): Option<string> {
    match ip case None => None case Some(s) => Some(StripCidr(s))
  }

  function Coalesce<T>(a: Option<T>, b: Option<T>): Option<T> {
    if a.Some? then a else b
  }

  // ── Endpoints ──

  function FindMac(rows: seq<Endpoint>, mac: Mac): (r: Option<nat>)
    ensures r.Some? ==> r.value < |rows| && rows[r.value].mac == mac
    ensures r.None? ==> forall i | 0 <= i < |rows| :: rows[i].mac != mac
  {
    if rows == [] then None
    else if rows[|rows| - 1].mac == mac then Some(|rows| - 1)
    else FindMac(rows[..|rows| - 1], mac)
  }

  ghost predicate UniqueMacs(rows: seq<Endpoint>) {
    forall i, j | 0 <= i < j < |rows| :: rows[i].mac != rows[j].mac
  }

  function Inserted(u: Upsert): Endpoint {
    Endpoint(u.mac, StoredIp(u.ip), u.hostname, u.osFamily, u.osVersion, u.deviceType, u.vendor,
             u.interface, u.agentId, None, Pending, None, None, false, NO_POSTURE)
  }

  function Merged(row: Endpoint, u: Upsert): Endpoint {
    row.(ip := Coalesce(StoredIp(u.ip), row.ip),
         hostname := Coalesce(u.hostname, row.hostname),
         osFamily := Coalesce(u.osFamily, row.osFamily),
         osVersion := Coalesce(u.osVersion, row.osVersion),
         deviceType := Coalesce(u.deviceType, row.deviceType),
         vendor := Coalesce(u.vendor, row.vendor),
         interface := Coalesce(u.interface, row.interface),
         agentId := Coalesce(u.agentId, row.agentId))
  }

  /** A field keeps the given value if there is one, else its own. */
  predicate Fills<T(==)>(before: Option<T>, given: Option<T>, after: Option<T>) {
    (given.Some? ==> after == given) && (given.None? ==> after == before)
  }

  /** What an upsert reports replaces what the row held, field by field; an address is stored as `inet` text. */
  predicate Learned(row: Endpoint, u: Upsert, row': Endpoint) {
    && row'.ip == (match u.ip case Some(ip) => Some(InetText(ip)) case None => row.ip)
    && Fills(row.hostname, u.hostname, row'.hostname)
    && Fills(row.osFamily, u.osFamily, row'.osFamily)
    && Fills(row.osVersion, u.osVersion, row'.osVersion)
    && Fills(row.deviceType, u.deviceType, row'.deviceType)
    && Fills(row.vendor, u.vendor, row'.vendor)
    && Fills(row.interface, u.interface, row'.interface)
    && Fills(row.agentId, u.agentId, row'.agentId)
  }

  /** What no upsert touches. */
  predicate RestKept(row: Endpoint, row': Endpoint) {
    && row'.mac == row.mac && row'.username == row.username && row'.status == row.status
    && row'.isCompliant == row.isCompliant && row'.assignedPolicy == row.assignedPolicy
    && row'.exempt == row.exempt && row'.posture == row.posture
  }

  /** A row that an upsert adds: pending, known by what the upsert reports and nothing else. */
  predicate NewRow(row: Endpoint, u: Upsert) {
    && row.mac == u.mac && row.status == Pending
    && Learned(row.(ip := None, hostname := None, osFamily := None, osVersion := None, deviceType := None,
                    vendor := None, interface := None, agentId := None), u, row)
    && row.username == None && row.isCompliant == None && row.assignedPolicy == None && !row.exempt
    && row.posture == NO_POSTURE
  }

  function UpsertId(rows: seq<Endpoint>, u: Upsert): nat {
    FindMac(rows, u.mac).GetOr(|rows|)
  }

  function Upserted(rows: seq<Endpoint>, u: Upsert): (r: seq<Endpoint>)
    ensures UpsertId(rows, u) < |r|
    ensures r[UpsertId(rows, u)].mac == u.mac
  {
    match FindMac(rows, u.mac)
    case Some(i) => rows[i := Merged(rows[i], u)]
    case None => rows + [Inserted(u)]
  }

  function WithStatus(rows: seq<Endpoint>, id: nat, status: Status): seq<Endpoint> {
    if id < |rows| then rows[id := rows[id].(status := status)] else rows
  }

  function WithUsername(rows: seq<Endpoint>, id: nat, username: string): seq<Endpoint> {
    if id < |rows| then rows[id := rows[id].(username := Some(username))] else rows
  }

  function WithPosture(rows: seq<Endpoint>, id: nat, compliant: bool, p: Posture): seq<Endpoint> {
    if id < |rows| then rows[id := rows[id].(isCompliant := Some(compliant), posture := p)] else rows
  }

  /** `UPDATE endpoints SET ip_address = … WHERE mac_address = …` */
  function WithIp(rows: seq<Endpoint>, mac: Mac, ip: string): seq<Endpoint> {
    match FindMac(rows, mac)
    case Some(i) => rows[i := rows[i].(ip := Some(InetText(ip)))]
    case None => rows
  }

  predicate NeedsReauth(row: Endpoint) { row.status == Allowed && row.username.Some? }

  /** Re-quarantine every allowed row that carries a user name. */
  function Requarantined(rows: seq<Endpoint>): (r: seq<Endpoint>)
    ensures |r| == |rows|
  {
    seq(|rows|, i requires 0 <= i < |rows| =>
      if NeedsReauth(rows[i]) then rows[i].(status := Quarantined, username := None) else rows[i])
  }

  // ── Sessions ──

  function NewSession(endpoint: nat, vlanId: Option<int>): Session {
    Session(endpoint, None, Detecting, vlanId, false)
  }

  predicate OpenFor(s: Session, endpoint: nat) { s.endpoint == endpoint && !s.ended }

  /** The newest open session of an endpoint. */
  function NewestOpen(sessions: seq<Session>, endpoint: nat): (r: Option<nat>)
    ensures r.Some? ==>
              && r.value < |sessions| && OpenFor(sessions[r.value], endpoint)
              && forall j | r.value < j < |sessions| :: !OpenFor(sessions[j], endpoint)
    ensures r.None? ==> forall j | 0 <= j < |sessions| :: !OpenFor(sessions[j], endpoint)
  {
    if sessions == [] then None
    else if OpenFor(sessions[|sessions| - 1], endpoint) then Some(|sessions| - 1)
    else NewestOpen(sessions[..|sessions| - 1], endpoint)
  }

  function Transitioned(sessions: seq<Session>, id: nat, state: SessionState,
                        username: Option<string>): (r: seq<Session>)
    ensures |r| == |sessions|
  {
    if id < |sessions| then
      sessions[id := sessions[id].(state := state, username := Coalesce(username, sessions[id].username))]
    else sessions
  }

  function Ended(s: Session): Session { s.(state := Terminated, ended := true) }

  function TerminatedOne(sessions: seq<Session>, id: nat): (r: seq<Session>)
    ensures |r| == |sessions|
  {
    if id < |sessions| then sessions[id := Ended(sessions[id])] else sessions
  }

  function TerminatedAll(sessions: seq<Session>): (r: seq<Session>)
    ensures |r| == |sessions|
    ensures forall i | 0 <= i < |r| :: r[i] == if sessions[i].ended then sessions[i] else Ended(sessions[i])
  {
    seq(|sessions|, i requires 0 <= i < |sessions| =>
      if sessions[i].ended then sessions[i] else Ended(sessions[i]))
  }

  /** The two tables, updated in place. */
  class Database {
    var endpoints: seq<Endpoint>
    var sessions: seq<Session>

    constructor ()
      ensures endpoints == [] && sessions == []
    {
      endpoints, sessions := [], [];
    }

    method UpsertEndpoint(u: Upsert) returns (id: nat)
      modifies this`endpoints
      ensures id < |endpoints|
      ensures if forall k | 0 <= k < |old(endpoints)| :: old(endpoints)[k].mac != u.mac
              then id == |old(endpoints)| && endpoints == old(endpoints) + [endpoints[id]] && NewRow(endpoints[id], u)
              else
                && id < |old(endpoints)| && old(endpoints)[id].mac == u.mac
                && endpoints == old(endpoints)[id := endpoints[id]]
                && Learned(old(endpoints)[id], u, endpoints[id])
                && RestKept(old(endpoints)[id], endpoints[id])
      ensures endpoints == Upserted(old(endpoints), u) && id == UpsertId(old(endpoints), u)
    {
      var found := FindMac(endpoints, u.mac);
      match found {
        case Some(i) =>
          id := i;
          endpoints := endpoints[i := Merged(endpoints[i], u)];
        case None =>
          id := |endpoints|;
          endpoints := endpoints + [Inserted(u)];
      }
    }

    method SetStatus(id: nat, status: Status)
      modifies this`endpoints
      ensures endpoints == WithStatus(old(endpoints), id, status)
    {
      if id < |endpoints| {
        endpoints := endpoints[id := endpoints[id].(status := status)];
      }
    }

    method SetUsername(id: nat, username: string)
      modifies this`endpoints
      ensures endpoints == WithUsername(old(endpoints), id, username)
    {
      if id < |endpoints| {
        endpoints := endpoints[id := endpoints[id].(username := Some(username))];
      }
    }

    method SetPosture(id: nat, compliant: bool, p: Posture)
      modifies this`endpoints
      ensures endpoints == WithPosture(old(endpoints), id, compliant, p)
    {
      if id < |endpoints| {
        endpoints := endpoints[id := endpoints[id].(isCompliant := Some(compliant))];
        endpoints := endpoints[id := endpoints[id].(posture := p)];
      }
    }

    method SetIp(mac: Mac, ip: string)
      modifies this`endpoints
      ensures endpoints == WithIp(old(endpoints), mac, ip)
    {
      endpoints := WithIp(endpoints, mac, ip);
    }

    method RequarantineAuthenticated()
      modifies this`endpoints
      ensures |endpoints| == |old(endpoints)|
      ensures forall i | 0 <= i < |endpoints| && old(endpoints)[i].status == Allowed
                && old(endpoints)[i].username.Some? ::
                endpoints[i] == old(endpoints)[i].(status := Quarantined, username := None)
      ensures forall i | 0 <= i < |endpoints|
                && !(old(endpoints)[i].status == Allowed && old(endpoints)[i].username.Some?) ::
                endpoints[i] == old(endpoints)[i]
      ensures endpoints == Requarantined(old(endpoints))
    {
      for i := 0 to |endpoints|
        invariant |endpoints| == |old(endpoints)|
        invariant forall k | 0 <= k < i :: endpoints[k] == Requarantined(old(endpoints))[k]
        invariant forall k | i <= k < |endpoints| :: endpoints[k] == old(endpoints)[k]
      {
        if NeedsReauth(endpoints[i]) {
          endpoints := endpoints[i := endpoints[i].(status := Quarantined, username := None)];
        }
      }
    }

    method CreateSession(endpoint: nat, vlanId: Option<int>)
      modifies this`sessions
      ensures sessions == old(sessions) + [NewSession(endpoint, vlanId)]
    {
      sessions := sessions + [NewSession(endpoint, vlanId)];
    }

    method Transition(id: nat, state: SessionState, username: Option<string>)
      modifies this`sessions
      ensures |sessions| == |old(sessions)|
      ensures forall i | 0 <= i < |sessions| && i != id :: sessions[i] == old(sessions)[i]
      ensures id < |sessions| ==>
                && sessions[id].state == state
                && sessions[id].username == (if username.Some? then username else old(sessions)[id].username)
                && sessions[id].endpoint == old(sessions)[id].endpoint
                && sessions[id].vlanId == old(sessions)[id].vlanId
                && sessions[id].ended == old(sessions)[id].ended
      ensures sessions == Transitioned(old(sessions), id, state, username)
    {
      if id < |sessions| {
        sessions := sessions[id := sessions[id].(state := state)];
        if username.Some? {
          sessions := sessions[id := sessions[id].(username := username)];
        }
      }
    }

    method Terminate(id: nat)
      modifies this`sessions
      ensures sessions == TerminatedOne(old(sessions), id)
    {
      sessions := TerminatedOne(sessions, id);
    }

    method TerminateOpen()
      modifies this`sessions
      ensures |sessions| == |old(sessions)|
      ensures forall i | 0 <= i < |sessions| ::
                sessions[i] == if old(sessions)[i].ended then old(sessions)[i]
                               else old(sessions)[i].(state := Terminated, ended := true)
      ensures sessions == TerminatedAll(old(sessions))
    {
      for i := 0 to |sessions|
        invariant |sessions| == |old(sessions)|
        invariant forall k | 0 <= k < i :: sessions[k] == TerminatedAll(old(sessions))[k]
        invariant forall k | i <= k < |sessions| :: sessions[k] == old(sessions)[k]
      {
        if !sessions[i].ended {
          sessions := sessions[i := sessions[i].(state := Terminated, ended := true)];
        }
      }
    }
  }
}
