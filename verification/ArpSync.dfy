/** The periodic ARP table scan: which address it picks for each device, the two-scan
    confirmation of a changed address, and what it writes and announces. */
module ArpSync {
  import opened Common
  import opened MacText
  import opened Rows
  import opened Handlers

  /** A table line with at least four fields; unreadable flags count as zero. */
  datatype ArpLine = ArpLine(ip: string, flags: byte, mac: string)

  /** One reading of the tables, and the order in which the loop visits the devices. */
  datatype Scan = Scan(lines: seq<ArpLine>, gateways: set<string>, order: seq<string>)

  predicate Usable(line: ArpLine) {
    && ToLower(line.mac) != "00:00:00:00:00:00"
    && line.flags != 0
    && !("172." <= line.ip) && !("127." <= line.ip) && !("169.254." <= line.ip)
  }

  function AddLine(raw: map<string, (string, byte)>, line: ArpLine): map<string, (string, byte)> {
    var mac := ToLower(line.mac);
    if Usable(line) && (mac !in raw || line.flags > raw[mac].1) then raw[mac := (line.ip, line.flags)] else raw
  }

  function RawTable(lines: seq<ArpLine>): map<string, (string, byte)> {
    if lines == [] then map[] else AddLine(RawTable(lines[..|lines| - 1]), lines[|lines| - 1])
  }

  function Chosen(lines: seq<ArpLine>): map<string, string> {
    var raw := RawTable(lines);
    map mac | mac in raw :: raw[mac].0
  }

  /** Line `i` has the largest flags among the usable lines of its device, and is the first such. */
  ghost predicate BestLine(lines: seq<ArpLine>, mac: string, i: nat) {
    && i < |lines| && Usable(lines[i]) && ToLower(lines[i].mac) == mac
    && forall j | 0 <= j < |lines| && Usable(lines[j]) && ToLower(lines[j].mac) == mac ::
         lines[j].flags < lines[i].flags || (lines[j].flags == lines[i].flags && i <= j)
  }

  lemma {:induction false} RawTableBest(lines: seq<ArpLine>, mac: string) returns (i: nat)
    ensures mac in RawTable(lines) ==> BestLine(lines, mac, i) && RawTable(lines)[mac] == (lines[i].ip, lines[i].flags)
    ensures mac !in RawTable(lines) ==>
              forall j | 0 <= j < |lines| :: !(Usable(lines[j]) && ToLower(lines[j].mac) == mac)
  {
    i := 0;
    if lines != [] {
      var n := |lines| - 1;
      var init, last := lines[..n], lines[n];
      i := RawTableBest(init, mac);
      assert forall j | 0 <= j < n :: lines[j] == init[j];
      if Usable(last) && ToLower(last.mac) == mac && (mac !in RawTable(init) || last.flags > RawTable(init)[mac].1) {
        i := n;
      }
    }
  }

  /** The address picked for a device is that of its earliest line with maximal flags. */
  lemma ChosenIsBest(lines: seq<ArpLine>, mac: string, i: nat)
    ensures BestLine(lines, mac, i) ==> mac in Chosen(lines) && Chosen(lines)[mac] == lines[i].ip
    ensures mac in Chosen(lines) <==> exists j | 0 <= j < |lines| :: Usable(lines[j]) && ToLower(lines[j].mac) == mac
  {
    var k := RawTableBest(lines, mac);
  }

  function FindText(rows: seq<Endpoint>, mac: string): (r: Option<nat>)
    ensures r.Some? ==> r.value < |rows| && Text(rows[r.value].mac) == mac
    ensures r.None? ==> forall i | 0 <= i < |rows| :: Text(rows[i].mac) != mac
  {
    if rows == [] then None
    else if Text(rows[|rows| - 1].mac) == mac then Some(|rows| - 1)
    else FindText(rows[..|rows| - 1], mac)
  }

  datatype Outcome = Forget | Announce | Confirm | Remember

  /** The branch the loop takes for a device, given the rows read before the loop. */
  function OutcomeOf(rows: seq<Endpoint>, pending: map<string, string>, gateways: set<string>, mac: string,
                     ip: string): Outcome {
    if ip in gateways then Forget
    else match FindText(rows, mac)
      case None => Announce
      case Some(i) =>
        if HostIp(rows[i].ip) == Some(ip) then Forget
        else if mac in pending && pending[mac] == ip then Confirm
        else Remember
  }

  function Without(m: map<string, string>, k: string): map<string, string> { m - {k} }

  /** Commands re-sent for a confirmed address when the row is denied or quarantined. */
  function ResentCommands(rows: seq<Endpoint>, mac: Mac, ip: string): seq<Command> {
    match FindMac(rows, mac)
    case None => []
    case Some(j) =>
      if rows[j].status == Denied then [MakeCommand(mac, ip, "block")]
      else if rows[j].status == Quarantined then [MakeCommand(mac, ip, "quarantine")]
      else []
  }

  function VisitDevice(w: World, before: seq<Endpoint>, gateways: set<string>, mac: string, ip: string): (r: World)
    ensures |r.endpoints| == |w.endpoints| && w.announced <= r.announced
  {
    match OutcomeOf(before, w.pendingIp, gateways, mac, ip)
    case Forget => w.(pendingIp := Without(w.pendingIp, mac))
    case Announce =>
      w.(announced := w.announced + [Announcement(mac, ip)], pendingIp := Without(w.pendingIp, mac))
    case Remember => w.(pendingIp := w.pendingIp[mac := ip])
    case Confirm =>
      var m := before[FindText(before, mac).value].mac;
      var rows := WithIp(w.endpoints, m, ip);
      w.(endpoints := rows, log := w.log + ResentCommands(rows, m, ip), pendingIp := Without(w.pendingIp, mac))
  }

  function VisitAll(w: World, before: seq<Endpoint>, gateways: set<string>, arp: map<string, string>,
                    order: seq<string>): (r: World)
    requires forall i | 0 <= i < |order| :: order[i] in arp
    ensures |r.endpoints| == |w.endpoints| && w.announced <= r.announced
  {
    if order == [] then w
    else
      var n := |order| - 1;
      VisitDevice(VisitAll(w, before, gateways, arp, order[..n]), before, gateways, order[n], arp[order[n]])
  }

  function Retained(pending: map<string, string>, arp: map<string, string>): map<string, string> {
    map m | m in pending && m in arp :: pending[m]
  }

  ghost predicate ValidOrder(scan: Scan) {
    && (forall i | 0 <= i < |scan.order| :: scan.order[i] in Chosen(scan.lines))
    && (forall m | m in Chosen(scan.lines) :: m in scan.order)
    && Distinct(scan.order)
  }

  /** The state after visiting the devices of `order` in a scan. */
  function VisitedWorld(w: World, scan: Scan, order: seq<string>): (r: World)
    requires forall i | 0 <= i < |order| :: order[i] in Chosen(scan.lines)
    ensures |r.endpoints| == |w.endpoints| && w.announced <= r.announced
  {
    var arp := Chosen(scan.lines);
    VisitAll(w.(pendingIp := Retained(w.pendingIp, arp)), w.endpoints, scan.gateways, arp, order)
  }

  function Sync(w: World, scan: Scan): (r: World)
    requires forall i | 0 <= i < |scan.order| :: scan.order[i] in Chosen(scan.lines)
    ensures |r.endpoints| == |w.endpoints| && w.announced <= r.announced
  {
    VisitedWorld(w, scan, scan.order)
  }

  // ── What a whole scan does, without mentioning the visiting order ──

  function ScanOutcome(w: World, scan: Scan, mac: string): Outcome
    requires mac in Chosen(scan.lines)
  {
    OutcomeOf(w.endpoints, w.pendingIp, scan.gateways, mac, Chosen(scan.lines)[mac])
  }

  ghost predicate Confirmed(w: World, scan: Scan, mac: string) {
    mac in Chosen(scan.lines) && ScanOutcome(w, scan, mac) == Confirm
  }

  function RowAfter(w: World, scan: Scan, row: Endpoint): Endpoint {
    var mac := Text(row.mac);
    if mac in Chosen(scan.lines) && ScanOutcome(w, scan, mac) == Confirm
    then row.(ip := Some(InetText(Chosen(scan.lines)[mac]))) else row
  }

  /** The command a device calls for: one when its row is restricted and its address confirmed. */
  ghost function ResendOf(w: World, scan: Scan, mac: string): seq<Command> {
    if !Confirmed(w, scan, mac) then []
    else
      var row := w.endpoints[FindText(w.endpoints, mac).value];
      if row.status == Denied then [MakeCommand(row.mac, Chosen(scan.lines)[mac], "block")]
      else if row.status == Quarantined then [MakeCommand(row.mac, Chosen(scan.lines)[mac], "quarantine")]
      else []
  }

  ghost function Resends(w: World, scan: Scan, order: seq<string>): seq<Command> {
    if order == [] then []
    else Resends(w, scan, order[..|order| - 1]) + ResendOf(w, scan, order[|order| - 1])
  }

  /** The announcement a device calls for: one when no row has its address. */
  ghost function NewsOf(w: World, scan: Scan, mac: string): seq<Announcement> {
    if mac in Chosen(scan.lines) && ScanOutcome(w, scan, mac) == Announce
    then [Announcement(mac, Chosen(scan.lines)[mac])] else []
  }

  ghost function News(w: World, scan: Scan, order: seq<string>): seq<Announcement> {
    if order == [] then []
    else News(w, scan, order[..|order| - 1]) + NewsOf(w, scan, order[|order| - 1])
  }

  /** What is pending for a device, after it was visited or before. */
  ghost predicate PendingFits(w: World, scan: Scan, m: string, visited: bool, pending: map<string, string>) {
    var arp := Chosen(scan.lines);
    && (m in pending <==> m in arp && (if visited then ScanOutcome(w, scan, m) == Remember else m in w.pendingIp))
    && (m in pending ==> pending[m] == if visited then arp[m] else w.pendingIp[m])
  }

  ghost predicate PendingVisited(w: World, scan: Scan, order: seq<string>, pending: map<string, string>) {
    forall m :: PendingFits(w, scan, m, m in order, pending)
  }

  /** The rows after visiting the devices of `order`: those of visited devices as the whole scan leaves them. */
  ghost predicate RowsVisited(w: World, scan: Scan, order: seq<string>, rows: seq<Endpoint>) {
    && |rows| == |w.endpoints|
    && forall i | 0 <= i < |w.endpoints| ::
         rows[i] == if Text(w.endpoints[i].mac) in order then RowAfter(w, scan, w.endpoints[i]) else w.endpoints[i]
  }

  /** The state after visiting the devices of `order`, a part of the whole visit. */
  ghost predicate Visited(w: World, scan: Scan, order: seq<string>, v: World) {
    && PendingVisited(w, scan, order, v.pendingIp)
    && RowsVisited(w, scan, order, v.endpoints)
    && v.sessions == w.sessions
    && v.log == w.log + Resends(w, scan, order)
    && v.announced == w.announced + News(w, scan, order)
  }

  lemma PendingVisit(w: World, scan: Scan, init: seq<string>, mac: string, pending: map<string, string>)
    requires mac in Chosen(scan.lines) && mac !in init && PendingVisited(w, scan, init, pending)
    ensures ScanOutcome(w, scan, mac) == Remember ==>
              PendingVisited(w, scan, init + [mac], pending[mac := Chosen(scan.lines)[mac]])
    ensures ScanOutcome(w, scan, mac) != Remember ==> PendingVisited(w, scan, init + [mac], Without(pending, mac))
  {
    var after := if ScanOutcome(w, scan, mac) == Remember then pending[mac := Chosen(scan.lines)[mac]]
                 else Without(pending, mac);
    forall m: string
      ensures PendingFits(w, scan, m, m in init + [mac], after)
    {
      assert PendingFits(w, scan, m, m in init, pending);
    }
  }

  lemma LogVisit(w: World, scan: Scan, init: seq<string>, mac: string)
    ensures Resends(w, scan, init + [mac]) == Resends(w, scan, init) + ResendOf(w, scan, mac)
    ensures News(w, scan, init + [mac]) == News(w, scan, init) + NewsOf(w, scan, mac)
  {
    assert (init + [mac])[..|init|] == init;
  }

  lemma VisitNone(w: World, scan: Scan)
    ensures Visited(w, scan, [], VisitedWorld(w, scan, []))
  {
  }

  lemma VisitLast(w: World, scan: Scan, init: seq<string>, mac: string)
    requires mac in Chosen(scan.lines) && forall i | 0 <= i < |init| :: init[i] in Chosen(scan.lines)
    ensures VisitedWorld(w, scan, init + [mac]) ==
              VisitDevice(VisitedWorld(w, scan, init), w.endpoints, scan.gateways, mac, Chosen(scan.lines)[mac])
  {
    assert (init + [mac])[..|init|] == init;
  }

  lemma {:induction false} VisitAllMeaning(w: World, scan: Scan, order: seq<string>)
    requires UniqueMacs(w.endpoints)
    requires forall i | 0 <= i < |order| :: order[i] in Chosen(scan.lines)
    requires Distinct(order)
    ensures Visited(w, scan, order, VisitedWorld(w, scan, order))
  {
    if order == [] {
      VisitNone(w, scan);
    } else {
      var init, mac := order[..|order| - 1], order[|order| - 1];
      assert order == init + [mac];
      VisitAllMeaning(w, scan, init);
      VisitLast(w, scan, init, mac);
      VisitOne(w, scan, init, mac, VisitedWorld(w, scan, init));
    }
  }

  lemma VisitOne(w: World, scan: Scan, init: seq<string>, mac: string, v: World)
    requires UniqueMacs(w.endpoints)
    requires mac in Chosen(scan.lines) && mac !in init
    requires Visited(w, scan, init, v)
    ensures Visited(w, scan, init + [mac], VisitDevice(v, w.endpoints, scan.gateways, mac, Chosen(scan.lines)[mac]))
  {
    assert OutcomeOf(w.endpoints, v.pendingIp, scan.gateways, mac, Chosen(scan.lines)[mac])
        == ScanOutcome(w, scan, mac);
    if ScanOutcome(w, scan, mac) == Confirm {
      VisitConfirmed(w, scan, init, mac, v);
    } else {
      VisitUnconfirmed(w, scan, init, mac, v);
    }
  }

  lemma VisitUnconfirmed(w: World, scan: Scan, init: seq<string>, mac: string, v: World)
    requires mac in Chosen(scan.lines) && mac !in init
    requires Visited(w, scan, init, v)
    requires OutcomeOf(w.endpoints, v.pendingIp, scan.gateways, mac, Chosen(scan.lines)[mac])
               == ScanOutcome(w, scan, mac) != Confirm
    ensures Visited(w, scan, init + [mac], VisitDevice(v, w.endpoints, scan.gateways, mac, Chosen(scan.lines)[mac]))
  {
    PendingVisit(w, scan, init, mac, v.pendingIp);
    UnmarkedRows(w, scan, init, mac, v);
    QuietVisit(w, scan, init, mac);
  }

  lemma QuietVisit(w: World, scan: Scan, init: seq<string>, mac: string)
    requires mac in Chosen(scan.lines) && ScanOutcome(w, scan, mac) != Confirm
    ensures w.log + Resends(w, scan, init + [mac]) == w.log + Resends(w, scan, init)
    ensures w.announced + News(w, scan, init + [mac]) ==
            if ScanOutcome(w, scan, mac) == Announce
            then (w.announced + News(w, scan, init)) + [Announcement(mac, Chosen(scan.lines)[mac])]
            else w.announced + News(w, scan, init)
  {
    LogVisit(w, scan, init, mac);
    AppendLogs(w, scan, init, mac);
    assert Resends(w, scan, init) + [] == Resends(w, scan, init);
    assert News(w, scan, init) + [] == News(w, scan, init);
  }

  lemma VisitConfirmed(w: World, scan: Scan, init: seq<string>, mac: string, v: World)
    requires UniqueMacs(w.endpoints)
    requires mac in Chosen(scan.lines) && mac !in init
    requires Visited(w, scan, init, v)
    requires OutcomeOf(w.endpoints, v.pendingIp, scan.gateways, mac, Chosen(scan.lines)[mac])
               == ScanOutcome(w, scan, mac) == Confirm
    ensures Visited(w, scan, init + [mac], VisitDevice(v, w.endpoints, scan.gateways, mac, Chosen(scan.lines)[mac]))
  {
    PendingVisit(w, scan, init, mac, v.pendingIp);
    var i := FindText(w.endpoints, mac).value;
    var rows := WithIp(v.endpoints, w.endpoints[i].mac, Chosen(scan.lines)[mac]);
    ConfirmRows(w, scan, init, mac, v.endpoints, i);
    VisitedOwners(w, scan, init + [mac], rows);
    LogConfirmed(w, scan, mac, i, rows);
    LogsConfirmed(w, scan, init, mac);
  }

  lemma LogsConfirmed(w: World, scan: Scan, init: seq<string>, mac: string)
    requires Confirmed(w, scan, mac)
    ensures w.log + Resends(w, scan, init + [mac]) == (w.log + Resends(w, scan, init)) + ResendOf(w, scan, mac)
    ensures w.announced + News(w, scan, init + [mac]) == w.announced + News(w, scan, init)
  {
    LogVisit(w, scan, init, mac);
    AppendLogs(w, scan, init, mac);
  }

  lemma AppendLogs(w: World, scan: Scan, init: seq<string>, mac: string)
    ensures (w.log + Resends(w, scan, init)) + ResendOf(w, scan, mac)
              == w.log + (Resends(w, scan, init) + ResendOf(w, scan, mac))
    ensures (w.announced + News(w, scan, init)) + NewsOf(w, scan, mac)
              == w.announced + (News(w, scan, init) + NewsOf(w, scan, mac))
    ensures (w.log + Resends(w, scan, init)) + [] == w.log + Resends(w, scan, init)
    ensures (w.announced + News(w, scan, init)) + [] == w.announced + News(w, scan, init)
  {
  }

  lemma LogConfirmed(w: World, scan: Scan, mac: string, i: nat, rows: seq<Endpoint>)
    requires UniqueMacs(w.endpoints)
    requires Confirmed(w, scan, mac) && FindText(w.endpoints, mac) == Some(i)
    requires SameOwners(w.endpoints, rows)
    ensures ResentCommands(rows, w.endpoints[i].mac, Chosen(scan.lines)[mac]) == ResendOf(w, scan, mac)
  {
    var m := w.endpoints[i].mac;
    var j := FindMac(rows, m);
    assert rows[i].mac == m;
    assert j.Some? && rows[j.value].mac == w.endpoints[j.value].mac;
    assert j == Some(i);
  }

  lemma UnmarkedRows(w: World, scan: Scan, init: seq<string>, mac: string, v: World)
    requires RowsVisited(w, scan, init, v.endpoints) && mac in Chosen(scan.lines)
               && ScanOutcome(w, scan, mac) != Confirm
    ensures RowsVisited(w, scan, init + [mac], v.endpoints)
  {
    assert forall m :: m in init + [mac] <==> m in init || m == mac;
  }

  /** Row by row the same address and status. */
  ghost predicate SameOwners(rows: seq<Endpoint>, rows': seq<Endpoint>) {
    && |rows'| == |rows|
    && forall k | 0 <= k < |rows| :: rows'[k].mac == rows[k].mac && rows'[k].status == rows[k].status
  }

  lemma VisitedOwners(w: World, scan: Scan, order: seq<string>, rows: seq<Endpoint>)
    requires RowsVisited(w, scan, order, rows)
    ensures SameOwners(w.endpoints, rows)
  {
  }

  lemma FoundRow(rows: seq<Endpoint>, rows': seq<Endpoint>, i: nat)
    requires UniqueMacs(rows) && SameOwners(rows, rows') && i < |rows|
    ensures FindMac(rows', rows[i].mac) == Some(i)
  {
    var m := rows[i].mac;
    assert rows'[i].mac == m;
    var j := FindMac(rows', m).value;
    assert rows'[j].mac == rows[j].mac;
  }

  lemma ConfirmRows(w: World, scan: Scan, init: seq<string>, mac: string, rows: seq<Endpoint>, i: nat)
    requires UniqueMacs(w.endpoints) && RowsVisited(w, scan, init, rows)
    requires i < |w.endpoints| && Text(w.endpoints[i].mac) == mac && Confirmed(w, scan, mac)
    ensures RowsVisited(w, scan, init + [mac], WithIp(rows, w.endpoints[i].mac, Chosen(scan.lines)[mac]))
  {
    VisitedOwners(w, scan, init, rows);
    FoundRow(w.endpoints, rows, i);
    forall k | 0 <= k < |rows|
      ensures (if k == i then rows[i].(ip := Some(InetText(Chosen(scan.lines)[mac]))) else rows[k]) ==
              if Text(w.endpoints[k].mac) in init + [mac] then RowAfter(w, scan, w.endpoints[k]) else w.endpoints[k]
    {
      ConfirmRow(w, scan, init, mac, rows, i, k);
    }
  }

  lemma ConfirmRow(w: World, scan: Scan, init: seq<string>, mac: string, rows: seq<Endpoint>, i: nat, k: nat)
    requires UniqueMacs(w.endpoints) && RowsVisited(w, scan, init, rows) && i < |w.endpoints| && k < |w.endpoints|
    requires Text(w.endpoints[i].mac) == mac && Confirmed(w, scan, mac)
    ensures (if k == i then rows[i].(ip := Some(InetText(Chosen(scan.lines)[mac]))) else rows[k]) ==
            if Text(w.endpoints[k].mac) in init + [mac] then RowAfter(w, scan, w.endpoints[k]) else w.endpoints[k]
  {
    TextInjective(w.endpoints[k].mac, w.endpoints[i].mac);
    assert Text(w.endpoints[k].mac) in init + [mac] <==> Text(w.endpoints[k].mac) in init || k == i;
  }

  /** A completed scan is determined, device by device, by what was stored, pending and read: rows,
      pending addresses, and in visiting order the commands sent and the announcements made. */
  lemma SyncMeaning(w: World, scan: Scan)
    requires UniqueMacs(w.endpoints) && ValidOrder(scan)
    ensures Visited(w, scan, scan.order, Sync(w, scan))
    ensures forall m :: m in Sync(w, scan).pendingIp <==> m in Chosen(scan.lines) && ScanOutcome(w, scan, m) == Remember
    ensures forall m | m in Sync(w, scan).pendingIp :: Sync(w, scan).pendingIp[m] == Chosen(scan.lines)[m]
    ensures |Sync(w, scan).endpoints| == |w.endpoints|
    ensures forall i | 0 <= i < |w.endpoints| :: Sync(w, scan).endpoints[i] == RowAfter(w, scan, w.endpoints[i])
    ensures Sync(w, scan).log == w.log + Resends(w, scan, scan.order)
    ensures Sync(w, scan).announced == w.announced + News(w, scan, scan.order)
  {
    VisitAllMeaning(w, scan, scan.order);
    forall m: string
      ensures m in Sync(w, scan).pendingIp <==> m in Chosen(scan.lines) && ScanOutcome(w, scan, m) == Remember
      ensures m in Sync(w, scan).pendingIp ==> Sync(w, scan).pendingIp[m] == Chosen(scan.lines)[m]
    {
      assert PendingFits(w, scan, m, m in scan.order, Sync(w, scan).pendingIp);
    }
  }

  // ── Members of the logs ──

  ghost predicate HasOne(cmds: seq<Command>, mac: string, c: Command) {
    exists k :: 0 <= k < |cmds| && cmds[k] == c && forall j | 0 <= j < |cmds| && j != k :: cmds[j].mac != mac
  }

  lemma {:induction false} ResendsOf(w: World, scan: Scan, order: seq<string>)
    ensures forall c | c in Resends(w, scan, order) :: exists mac :: mac in order && c in ResendOf(w, scan, mac)
    ensures forall c | c in Resends(w, scan, order) :: c.mac in order
  {
    if order != [] {
      var init, mac := order[..|order| - 1], order[|order| - 1];
      ResendsOf(w, scan, init);
      assert order == init + [mac];
      forall c | c in Resends(w, scan, order)
        ensures exists m :: m in order && c in ResendOf(w, scan, m)
        ensures c.mac in order
      {
        if c in Resends(w, scan, init) {
          var m :| m in init && c in ResendOf(w, scan, m);
          assert m in order;
        } else {
          assert mac in order && c in ResendOf(w, scan, mac);
        }
      }
    }
  }

  ghost predicate HasNone(cmds: seq<Command>, mac: string) {
    forall j | 0 <= j < |cmds| :: cmds[j].mac != mac
  }

  lemma HasOneLast(earlier: seq<Command>, mac: string, c: Command)
    requires HasNone(earlier, mac)
    ensures HasOne(earlier + [c], mac, c)
  {
    assert (earlier + [c])[|earlier|] == c;
  }

  lemma HasOneEarlier(earlier: seq<Command>, added: seq<Command>, mac: string, c: Command)
    requires HasOne(earlier, mac, c) && HasNone(added, mac)
    ensures HasOne(earlier + added, mac, c)
  {
    var k :| 0 <= k < |earlier| && earlier[k] == c
             && forall j | 0 <= j < |earlier| && j != k :: earlier[j].mac != mac;
    assert (earlier + added)[k] == c;
  }

  /** Commands that name a device once and only as asked. */
  ghost predicate Asked(cmds: seq<Command>, mac: string, asked: seq<Command>) {
    if asked == [] then HasNone(cmds, mac) else HasOne(cmds, mac, asked[0])
  }

  lemma ResendNames(w: World, scan: Scan, mac: string)
    ensures |ResendOf(w, scan, mac)| <= 1
    ensures forall c | c in ResendOf(w, scan, mac) :: c.mac == mac
  {
  }

  lemma AskedStep(earlier: seq<Command>, added: seq<Command>, last: string, mac: string, asked: seq<Command>)
    requires |added| <= 1 && forall c | c in added :: c.mac == last
    requires if mac == last then HasNone(earlier, mac) && asked == added else Asked(earlier, mac, asked)
    ensures Asked(earlier + added, mac, asked)
  {
    if mac == last {
      if added != [] {
        assert added == [added[0]];
        HasOneLast(earlier, mac, added[0]);
      }
    } else if asked != [] {
      HasOneEarlier(earlier, added, mac, asked[0]);
    }
  }

  lemma UnvisitedHasNone(w: World, scan: Scan, order: seq<string>, mac: string)
    requires mac !in order
    ensures HasNone(Resends(w, scan, order), mac)
  {
    var cmds := Resends(w, scan, order);
    ResendsOf(w, scan, order);
    assert forall j | 0 <= j < |cmds| :: cmds[j] in cmds;
  }

  lemma {:induction false} AskedOnce(w: World, scan: Scan, order: seq<string>, mac: string)
    requires Distinct(order) && mac in order
    ensures Asked(Resends(w, scan, order), mac, ResendOf(w, scan, mac))
  {
    var init, last := order[..|order| - 1], order[|order| - 1];
    assert order == init + [last];
    if mac == last {
      UnvisitedHasNone(w, scan, init, mac);
    } else {
      AskedOnce(w, scan, init, mac);
    }
    ResendNames(w, scan, last);
    AskedStep(Resends(w, scan, init), ResendOf(w, scan, last), last, mac, ResendOf(w, scan, mac));
  }

  /** Of all devices: one that a completed scan confirms at a new address and whose row is restricted
      has exactly one command among the new ones, at that address; no other device has any. */
  lemma OneCommandEach(w: World, scan: Scan, mac: string)
    requires UniqueMacs(w.endpoints) && ValidOrder(scan)
    ensures Sync(w, scan).log == w.log + Resends(w, scan, scan.order)
    ensures |ResendOf(w, scan, mac)| <= 1
    ensures if ResendOf(w, scan, mac) != [] then HasOne(Resends(w, scan, scan.order), mac, ResendOf(w, scan, mac)[0])
            else HasNone(Resends(w, scan, scan.order), mac)
  {
    SyncMeaning(w, scan);
    ResendNames(w, scan, mac);
    if mac in scan.order {
      AskedOnce(w, scan, scan.order, mac);
    } else {
      UnvisitedHasNone(w, scan, scan.order, mac);
    }
  }

  lemma {:induction false} NewsMembers(w: World, scan: Scan, order: seq<string>)
    ensures forall a | a in News(w, scan, order) ::
              && a.mac in order && a.mac in Chosen(scan.lines) && a.ip == Chosen(scan.lines)[a.mac]
              && ScanOutcome(w, scan, a.mac) == Announce
  {
    if order != [] {
      NewsMembers(w, scan, order[..|order| - 1]);
      assert order == order[..|order| - 1] + [order[|order| - 1]];
    }
  }

  lemma SyncTables(w: World, scan: Scan)
    requires UniqueMacs(w.endpoints) && ValidOrder(scan)
    ensures Sync(w, scan).endpoints ==
              seq(|w.endpoints|, i requires 0 <= i < |w.endpoints| => RowAfter(w, scan, w.endpoints[i]))
    ensures Sync(w, scan).pendingIp ==
              map m | m in Chosen(scan.lines) && ScanOutcome(w, scan, m) == Remember :: Chosen(scan.lines)[m]
    ensures Sync(w, scan).sessions == w.sessions
  {
    SyncMeaning(w, scan);
  }

  lemma RowIgnoresOrder(w: World, scan: Scan, other: seq<string>, row: Endpoint)
    ensures RowAfter(w, scan.(order := other), row) == RowAfter(w, scan, row)
  {
  }

  /** The tables do not depend on the order in which the devices are visited. */
  lemma OrderIsIrrelevant(w: World, scan: Scan, other: seq<string>)
    requires UniqueMacs(w.endpoints) && ValidOrder(scan) && ValidOrder(scan.(order := other))
    ensures Sync(w, scan).endpoints == Sync(w, scan.(order := other)).endpoints
    ensures Sync(w, scan).pendingIp == Sync(w, scan.(order := other)).pendingIp
    ensures Sync(w, scan).sessions == Sync(w, scan.(order := other)).sessions
  {
    var rows, rows' := Sync(w, scan).endpoints, Sync(w, scan.(order := other)).endpoints;
    SyncTables(w, scan);
    SyncTables(w, scan.(order := other));
    forall i | 0 <= i < |w.endpoints|
      ensures rows[i] == rows'[i]
    {
      RowIgnoresOrder(w, scan, other, w.endpoints[i]);
    }
    assert rows == rows';
  }

  /** No gateway address is written to a row or announced as a new device. */
  lemma GatewaysAreLeftAlone(w: World, scan: Scan)
    requires UniqueMacs(w.endpoints) && ValidOrder(scan)
    ensures forall i | 0 <= i < |w.endpoints| && Sync(w, scan).endpoints[i] != w.endpoints[i] ::
              exists ip :: ip !in scan.gateways && Sync(w, scan).endpoints[i].ip == Some(InetText(ip))
    ensures forall a | a in Sync(w, scan).announced[|w.announced|..] ::
              a.ip !in scan.gateways && FindText(w.endpoints, a.mac).None?
  {
    SyncMeaning(w, scan);
    NewsMembers(w, scan, scan.order);
    assert Sync(w, scan).announced[|w.announced|..] == News(w, scan, scan.order);
    forall i | 0 <= i < |w.endpoints| && Sync(w, scan).endpoints[i] != w.endpoints[i]
      ensures exists ip :: ip !in scan.gateways && Sync(w, scan).endpoints[i].ip == Some(InetText(ip))
    {
      var ip := Chosen(scan.lines)[Text(w.endpoints[i].mac)];
      assert ip !in scan.gateways;
    }
  }

  // ── The two-scan confirmation ──

  /** A scan saw `x` for a stored device whose stored address was something else. */
  ghost predicate SawChange(rows: seq<Endpoint>, scan: Scan, mac: string, x: string) {
    && mac in Chosen(scan.lines) && Chosen(scan.lines)[mac] == x && x !in scan.gateways
    && FindText(rows, mac).Some? && HostIp(rows[FindText(rows, mac).value].ip) != Some(x)
  }

  /** A completed scan leaves an address pending exactly when it saw the change to it and did not confirm it. */
  lemma PendingExactly(w: World, scan: Scan, mac: string, x: string)
    requires UniqueMacs(w.endpoints) && ValidOrder(scan)
    ensures var pending := Sync(w, scan).pendingIp;
            mac in pending && pending[mac] == x <==>
            SawChange(w.endpoints, scan, mac, x) && !(mac in w.pendingIp && w.pendingIp[mac] == x)
  {
    SyncMeaning(w, scan);
  }

  lemma ConfirmedExactly(w: World, scan: Scan, mac: string, x: string)
    ensures Confirmed(w, scan, mac) && Chosen(scan.lines)[mac] == x <==>
            SawChange(w.endpoints, scan, mac, x) && mac in w.pendingIp && w.pendingIp[mac] == x
  {
  }

  /** Two successive completed scans, with any other handlers in between: the second rewrites the
      address of a row to `x` exactly when both saw the change to `x` and the first one did not
      itself confirm it. */
  lemma RewrittenIffConfirmed(w1: World, s1: Scan, w2: World, s2: Scan, i: nat, x: string)
    requires UniqueMacs(w1.endpoints) && ValidOrder(s1)
    requires UniqueMacs(w2.endpoints) && ValidOrder(s2)
    requires w2.pendingIp == Sync(w1, s1).pendingIp
    requires i < |w2.endpoints|
    ensures var mac := Text(w2.endpoints[i].mac);
            Confirmed(w2, s2, mac) && Chosen(s2.lines)[mac] == x <==>
            && SawChange(w2.endpoints, s2, mac, x)
            && SawChange(w1.endpoints, s1, mac, x)
            && !(mac in w1.pendingIp && w1.pendingIp[mac] == x)
    ensures Sync(w2, s2).endpoints[i] != w2.endpoints[i] ==>
              exists y ::
                && SawChange(w1.endpoints, s1, Text(w2.endpoints[i].mac), y)
                && SawChange(w2.endpoints, s2, Text(w2.endpoints[i].mac), y)
                && Sync(w2, s2).endpoints[i] == w2.endpoints[i].(ip := Some(InetText(y)))
  {
    var mac := Text(w2.endpoints[i].mac);
    PendingExactly(w1, s1, mac, x);
    ConfirmedExactly(w2, s2, mac, x);
    SyncMeaning(w2, s2);
    if Sync(w2, s2).endpoints[i] != w2.endpoints[i] {
      var y := Chosen(s2.lines)[mac];
      PendingExactly(w1, s1, mac, y);
      ConfirmedExactly(w2, s2, mac, y);
    }
  }

  lemma {:induction false} NoResends(w: World, scan: Scan, order: seq<string>)
    requires w.pendingIp == map[]
    ensures Resends(w, scan, order) == []
  {
    if order != [] {
      NoResends(w, scan, order[..|order| - 1]);
    }
  }

  /** The first completed scan rewrites nothing. */
  lemma FirstScanRewritesNothing(w: World, scan: Scan)
    requires UniqueMacs(w.endpoints) && ValidOrder(scan) && w.pendingIp == map[]
    ensures Sync(w, scan).endpoints == w.endpoints
    ensures Sync(w, scan).log == w.log
  {
    SyncMeaning(w, scan);
    NoResends(w, scan, scan.order);
  }
}
