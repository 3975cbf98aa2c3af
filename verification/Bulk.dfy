/** What one bulk evaluation does to the tables and the log. */
module Bulk {
  import opened Common
  import opened MacText
  import opened Engine
  import opened Rows
  import opened BulkRules
  import opened Handlers
  import opened Actions
  import opened Agreement

  /** The status a visited row ends with. */
  function Settled(row: Endpoint, req: BulkRequest): Status {
    if row.exempt then row.status
    else match EffectiveText(row, req)
      case None => row.status
      case Some(text) => StatusOf(text).GetOr(row.status)
  }

  /** A row whose effective text the status column refuses. */
  predicate Refused(row: Endpoint, req: BulkRequest) {
    !row.exempt && EffectiveText(row, req).Some? && StatusOf(EffectiveText(row, req).value).None?
  }

  ghost function ChangedRows(rows: seq<Endpoint>, rows': seq<Endpoint>): set<nat>
    requires |rows| == |rows'|
  {
    set i: nat | i < |rows| && rows'[i].status != rows[i].status
  }

  ghost predicate ListedIn(listed: seq<nat>, rows: seq<Endpoint>) {
    forall i | 0 <= i < |listed| :: listed[i] < |rows|
  }

  lemma StatusTexts(st: Status, text: string)
    ensures StatusOf(StatusText(st)) == Some(st)
    ensures StatusOf(text).Some? ==> StatusText(StatusOf(text).value) == text
  {
  }

  /** The three ways a visit can go: nothing to write, a refused write, or one write that
      changes the status. */
  lemma VisitCases(s: BulkState, row: Endpoint, id: nat, req: BulkRequest)
    ensures var s' := BulkVisit(s, row, id, req);
            && (Refused(row, req) ==> s' == s.(failed := true))
            && (!Refused(row, req) && Settled(row, req) == row.status ==>
                 s'.world == s.world && s'.changed == s.changed && s'.failed == s.failed)
            && (Settled(row, req) != row.status ==>
                 && !row.exempt
                 && EffectiveText(row, req) == Some(StatusText(Settled(row, req)))
                 && s' == s.(changed := s.changed + 1,
                             world := s.world.(endpoints := WithStatus(s.world.endpoints, id, Settled(row, req)),
                                               log := s.world.log + [MakeCommand(row.mac, row.ip.GetOr(""),
                                                                                 StatusText(Settled(row, req)))])))
  {
    if !row.exempt && EffectiveText(row, req).Some? {
      StatusTexts(row.status, EffectiveText(row, req).value);
    }
  }

  function Targets(rows: seq<Endpoint>, req: BulkRequest): (r: seq<Status>)
    ensures |r| == |rows|
  {
    seq(|rows|, i requires 0 <= i < |rows| => Settled(rows[i], req))
  }

  ghost function RefusedRows(rows: seq<Endpoint>, req: BulkRequest): set<nat> {
    set i: nat | i < |rows| && Refused(rows[i], req)
  }

  /** The state after visiting `listed`, for given target statuses and refused rows. */
  ghost predicate Ran(w: World, listed: seq<nat>, target: seq<Status>, refused: set<nat>, s: BulkState)
    requires |target| == |w.endpoints|
  {
    && |s.world.endpoints| == |w.endpoints|
    && s.world == w.(endpoints := s.world.endpoints, log := s.world.log)
    && (forall i | 0 <= i < |w.endpoints| ::
         s.world.endpoints[i] == w.endpoints[i].(status := s.world.endpoints[i].status))
    && (forall i | 0 <= i < |w.endpoints| && i !in listed :: s.world.endpoints[i].status == w.endpoints[i].status)
    && (!s.failed ==> forall i | 0 <= i < |w.endpoints| && i in listed :: s.world.endpoints[i].status == target[i])
    && s.changed == |ChangedRows(w.endpoints, s.world.endpoints)|
    && w.log <= s.world.log && |s.world.log| == |w.log| + s.changed
    && (s.failed <==> exists i :: i in listed && i in refused)
  }

  lemma {:induction false} RunRan(w: World, listed: seq<nat>, req: BulkRequest)
    requires ListedIn(listed, w.endpoints) && Distinct(listed)
    ensures Ran(w, listed, Targets(w.endpoints, req), RefusedRows(w.endpoints, req), BulkRun(w, listed, req))
  {
    if listed == [] {
      assert ChangedRows(w.endpoints, w.endpoints) == {};
    } else {
      var init, id := listed[..|listed| - 1], listed[|listed| - 1];
      LastIsNew(listed);
      RunRan(w, init, req);
      var s := BulkRun(w, init, req);
      if s.failed {
        RanFailed(w, init, id, Targets(w.endpoints, req), RefusedRows(w.endpoints, req), s);
      } else {
        RanVisit(w, init, id, req, s);
      }
    }
  }

  lemma LastIsNew(listed: seq<nat>)
    requires listed != [] && Distinct(listed)
    ensures var init, id := listed[..|listed| - 1], listed[|listed| - 1];
            listed == init + [id] && id !in init && Distinct(init)
  {
  }

  lemma RanFailed(w: World, init: seq<nat>, id: nat, target: seq<Status>, refused: set<nat>, s: BulkState)
    requires |target| == |w.endpoints| && Ran(w, init, target, refused, s) && s.failed
    ensures Ran(w, init + [id], target, refused, s)
  {
    var i :| i in init && i in refused;
    assert i in init + [id];
  }

  lemma RanVisit(w: World, init: seq<nat>, id: nat, req: BulkRequest, s: BulkState)
    requires id < |w.endpoints| && id !in init && !s.failed
    requires Ran(w, init, Targets(w.endpoints, req), RefusedRows(w.endpoints, req), s)
    ensures Ran(w, init + [id], Targets(w.endpoints, req), RefusedRows(w.endpoints, req),
                BulkVisit(s, w.endpoints[id], id, req))
  {
    VisitCases(s, w.endpoints[id], id, req);
    VisitRan(w, init, id, Targets(w.endpoints, req), RefusedRows(w.endpoints, req), s,
             BulkVisit(s, w.endpoints[id], id, req));
  }

  lemma VisitRan(w: World, init: seq<nat>, id: nat, target: seq<Status>, refused: set<nat>, s: BulkState, s': BulkState)
    requires |target| == |w.endpoints| && id < |w.endpoints| && id !in init
    requires Ran(w, init, target, refused, s) && !s.failed
    requires id in refused ==> s' == s.(failed := true)
    requires id !in refused && target[id] == w.endpoints[id].status ==>
               s'.world == s.world && s'.changed == s.changed && !s'.failed
    requires id !in refused && target[id] != w.endpoints[id].status ==>
               exists c :: s' == s.(changed := s.changed + 1,
                                    world := s.world.(endpoints := WithStatus(s.world.endpoints, id, target[id]),
                                                      log := s.world.log + [c]))
    ensures Ran(w, init + [id], target, refused, s')
  {
    assert forall i :: i in init + [id] <==> i in init || i == id;
    ChangedOne(w.endpoints, s.world.endpoints, s'.world.endpoints, id);
  }

  lemma ChangedOne(rows: seq<Endpoint>, before: seq<Endpoint>, after: seq<Endpoint>, id: nat)
    requires |before| == |after| == |rows| && id < |rows| && before[id].status == rows[id].status
    requires forall i | 0 <= i < |rows| && i != id :: after[i] == before[i]
    ensures |ChangedRows(rows, after)| ==
            |ChangedRows(rows, before)| + if after[id].status != rows[id].status then 1 else 0
  {
    assert ChangedRows(rows, after) ==
           ChangedRows(rows, before) + if after[id].status != rows[id].status then {id} else {};
  }

  /** The command a row's change calls for. */
  function ChangeOf(row: Endpoint, st: Status): seq<Command> {
    if st == row.status then [] else [MakeCommand(row.mac, row.ip.GetOr(""), StatusText(st))]
  }

  /** One command for each changed row among the listed ones, in order. */
  function ChangeCommands(rows: seq<Endpoint>, rows': seq<Endpoint>, listed: seq<nat>): seq<Command>
    requires |rows'| == |rows| && ListedIn(listed, rows)
  {
    if listed == [] then []
    else
      var n := |listed| - 1;
      ChangeCommands(rows, rows', listed[..n]) + ChangeOf(rows[listed[n]], rows'[listed[n]].status)
  }

  lemma {:induction false} ChangeCommandsSame(rows: seq<Endpoint>, a: seq<Endpoint>, b: seq<Endpoint>, listed: seq<nat>)
    requires |a| == |rows| == |b| && ListedIn(listed, rows)
    requires forall i | 0 <= i < |listed| :: a[listed[i]].status == b[listed[i]].status
    ensures ChangeCommands(rows, a, listed) == ChangeCommands(rows, b, listed)
  {
    if listed != [] {
      ChangeCommandsSame(rows, a, b, listed[..|listed| - 1]);
    }
  }

  lemma {:induction false} BulkPublishes(w: World, listed: seq<nat>, req: BulkRequest)
    requires ListedIn(listed, w.endpoints) && Distinct(listed)
    ensures |BulkRun(w, listed, req).world.endpoints| == |w.endpoints|
    ensures BulkRun(w, listed, req).world.log
              == w.log + ChangeCommands(w.endpoints, BulkRun(w, listed, req).world.endpoints, listed)
  {
    RunRan(w, listed, req);
    if listed != [] {
      var init, id := listed[..|listed| - 1], listed[|listed| - 1];
      LastIsNew(listed);
      BulkPublishes(w, init, req);
      RunRan(w, init, req);
      PublishOne(w, init, id, req, BulkRun(w, init, req), BulkRun(w, listed, req));
    }
  }

  lemma VisitPublishes(s: BulkState, row: Endpoint, id: nat, req: BulkRequest)
    requires id < |s.world.endpoints| && s.world.endpoints[id].status == row.status
    ensures var t := BulkVisit(s, row, id, req).world;
            && |t.endpoints| == |s.world.endpoints|
            && (forall i | 0 <= i < |t.endpoints| && i != id :: t.endpoints[i] == s.world.endpoints[i])
            && t.log == s.world.log + ChangeOf(row, t.endpoints[id].status)
  {
    VisitCases(s, row, id, req);
  }

  lemma PublishOne(w: World, init: seq<nat>, id: nat, req: BulkRequest, s: BulkState, t: BulkState)
    requires ListedIn(init, w.endpoints) && id < |w.endpoints| && id !in init
    requires Ran(w, init, Targets(w.endpoints, req), RefusedRows(w.endpoints, req), s)
    requires s.world.log == w.log + ChangeCommands(w.endpoints, s.world.endpoints, init)
    requires t == if s.failed then s else BulkVisit(s, w.endpoints[id], id, req)
    ensures |t.world.endpoints| == |w.endpoints|
    ensures t.world.log == w.log + ChangeCommands(w.endpoints, t.world.endpoints, init + [id])
  {
    VisitPublishes(s, w.endpoints[id], id, req);
    assert s.failed ==> ChangeOf(w.endpoints[id], t.world.endpoints[id].status) == [];
    assert t.world.log == s.world.log + ChangeOf(w.endpoints[id], t.world.endpoints[id].status);
    PublishAppend(w, init, id, s.world.endpoints, t.world.endpoints);
  }

  lemma PublishAppend(w: World, init: seq<nat>, id: nat, before: seq<Endpoint>, after: seq<Endpoint>)
    requires ListedIn(init, w.endpoints) && id < |w.endpoints| && id !in init
    requires |before| == |after| == |w.endpoints|
    requires forall i | 0 <= i < |after| && i != id :: after[i] == before[i]
    ensures (w.log + ChangeCommands(w.endpoints, before, init)) + ChangeOf(w.endpoints[id], after[id].status) ==
            w.log + ChangeCommands(w.endpoints, after, init + [id])
  {
    ChangeCommandsSame(w.endpoints, before, after, init);
    ChangeCommandsLast(w.endpoints, after, init, id);
    Associates(w.log, ChangeCommands(w.endpoints, before, init), ChangeOf(w.endpoints[id], after[id].status));
  }

  lemma ChangeCommandsLast(rows: seq<Endpoint>, after: seq<Endpoint>, init: seq<nat>, id: nat)
    requires |after| == |rows| && ListedIn(init, rows) && id < |rows|
    ensures ChangeCommands(rows, after, init + [id]) ==
              ChangeCommands(rows, after, init) + ChangeOf(rows[id], after[id].status)
  {
    assert (init + [id])[..|init|] == init;
  }

  /** A completed run leaves every visited row with its settled status and every other field and
      row as it was, and counts exactly the rows whose status changed, one command for each. It
      fails exactly when some visited row's text is refused. */
  lemma BulkRunMeaning(w: World, listed: seq<nat>, req: BulkRequest)
    requires ListedIn(listed, w.endpoints) && Distinct(listed)
    ensures var s := BulkRun(w, listed, req);
            && |s.world.endpoints| == |w.endpoints|
            && s.world == w.(endpoints := s.world.endpoints, log := s.world.log)
            && (forall i | 0 <= i < |w.endpoints| ::
                s.world.endpoints[i] == w.endpoints[i].(status := s.world.endpoints[i].status))
            && (forall i | 0 <= i < |w.endpoints| && i !in listed :: s.world.endpoints[i] == w.endpoints[i])
            && (!s.failed ==> forall i | 0 <= i < |w.endpoints| && i in listed ::
                s.world.endpoints[i].status == Settled(w.endpoints[i], req))
            && s.changed == |ChangedRows(w.endpoints, s.world.endpoints)|
            && |s.world.log| == |w.log| + s.changed
            && s.world.log == w.log + ChangeCommands(w.endpoints, s.world.endpoints, listed)
            && (s.failed <==> exists i | 0 <= i < |w.endpoints| && i in listed :: Refused(w.endpoints[i], req))
  {
    RunRan(w, listed, req);
    BulkPublishes(w, listed, req);
    var target, refused, s := Targets(w.endpoints, req), RefusedRows(w.endpoints, req), BulkRun(w, listed, req);
    assert forall i | 0 <= i < |w.endpoints| :: target[i] == Settled(w.endpoints[i], req);
    if s.failed {
      var i :| i in listed && i in refused;
      assert Refused(w.endpoints[i], req);
    }
  }

  /** Rows exempt from policy are never touched. */
  lemma {:induction false} ExemptUntouched(w: World, listed: seq<nat>, req: BulkRequest, i: nat)
    requires ListedIn(listed, w.endpoints) && i < |w.endpoints| && w.endpoints[i].exempt
    ensures |BulkRun(w, listed, req).world.endpoints| == |w.endpoints|
    ensures BulkRun(w, listed, req).world.endpoints[i] == w.endpoints[i]
  {
    if listed != [] {
      ExemptUntouched(w, listed[..|listed| - 1], req, i);
    }
  }

  /** Settling a row again finds nothing to do: conditions do not read the status. */
  lemma SettledIsStable(row: Endpoint, req: BulkRequest, st: Status)
    ensures EffectiveText(row.(status := st), req) == EffectiveText(row, req)
  {
    var r := row.(status := st);
    forall c
      ensures ConditionMatches(c, r) == ConditionMatches(c, row)
    {
      StatusUnread(c, row, st);
    }
    FirstStatusUnread(RulesOnly(req.rules), row, st);
  }

  lemma {:induction false} StatusUnread(c: Condition, row: Endpoint, st: Status)
    ensures ConditionMatches(c, row.(status := st)) == ConditionMatches(c, row)
  {
    match c
    case And(cs) => forall d | d in cs { StatusUnread(d, row, st); }
    case Or(cs) => forall d | d in cs { StatusUnread(d, row, st); }
    case Not(d) => StatusUnread(d, row, st);
    case _ =>
  }

  lemma {:induction false} FirstStatusUnread(rules: seq<Rule>, row: Endpoint, st: Status)
    ensures FirstStatus(rules, row.(status := st)) == FirstStatus(rules, row)
  {
    if rules != [] {
      StatusUnread(rules[0].condition, row, st);
      FirstStatusUnread(rules[1..], row, st);
    }
  }

  lemma {:induction false} NothingToDo(w: World, listed: seq<nat>, req: BulkRequest)
    requires ListedIn(listed, w.endpoints)
    requires forall k | 0 <= k < |listed| :: Settled(w.endpoints[listed[k]], req) == w.endpoints[listed[k]].status
    ensures BulkRun(w, listed, req).changed == 0 && BulkRun(w, listed, req).world == w
  {
    if listed != [] {
      var n := |listed| - 1;
      NothingToDo(w, listed[..n], req);
      var row := w.endpoints[listed[n]];
      if !row.exempt && EffectiveText(row, req).Some? {
        StatusTexts(row.status, EffectiveText(row, req).value);
      }
    }
  }

  /** After a completed run, the same request on the same rows, listed in any order, changes and
      publishes nothing. */
  lemma SecondRunIsIdle(w: World, listed: seq<nat>, req: BulkRequest, again: seq<nat>)
    requires ListedIn(listed, w.endpoints) && Distinct(listed)
    requires forall k | 0 <= k < |again| :: again[k] in listed
    requires !BulkRun(w, listed, req).failed
    ensures var first := BulkRun(w, listed, req).world;
            && ListedIn(again, first.endpoints)
            && BulkRun(first, again, req).world == first
            && BulkRun(first, again, req).changed == 0
  {
    BulkRunMeaning(w, listed, req);
    var first := BulkRun(w, listed, req).world;
    assert forall k | 0 <= k < |again| :: again[k] < |w.endpoints|;
    forall k | 0 <= k < |again|
      ensures Settled(first.endpoints[again[k]], req) == first.endpoints[again[k]].status
    {
      var id := again[k];
      if w.endpoints[id].exempt {
        ExemptUntouched(w, listed, req, id);
      }
      SettledIsStable(w.endpoints[id], req, first.endpoints[id].status);
    }
    NothingToDo(first, again, req);
  }

  // ── Agreement ──

  /** A row that a default action of "pending" would be written to. */
  predicate PendingWrite(row: Endpoint, req: BulkRequest) {
    !row.exempt && PolicyStatus(row, req).None? && req.defaultAction == Some("pending") && row.status != Pending
  }

  predicate PendingDevice(row: Endpoint, req: BulkRequest) { PendingWrite(row, req) && row.mac != ZERO_MAC }

  lemma {:induction false} BulkKeepsAgreement(w: World, listed: seq<nat>, req: BulkRequest)
    requires Consistent(w) && ListedIn(listed, w.endpoints) && Distinct(listed)
    requires forall k | 0 <= k < |listed| :: !PendingDevice(w.endpoints[listed[k]], req)
    ensures Consistent(BulkRun(w, listed, req).world)
  {
    if listed != [] {
      var n := |listed| - 1;
      var init, id := listed[..n], listed[n];
      BulkKeepsAgreement(w, init, req);
      BulkRunMeaning(w, init, req);
      assert id !in init;
      var s := BulkRun(w, init, req);
      assert !PendingDevice(w.endpoints[listed[n]], req);
      if !s.failed {
        VisitAgrees(s, w.endpoints[id], id, req);
      }
    }
  }

  lemma VisitAgrees(s: BulkState, row: Endpoint, id: nat, req: BulkRequest)
    requires Consistent(s.world) && id < |s.world.endpoints| && s.world.endpoints[id] == row
    requires !PendingDevice(row, req)
    ensures Consistent(BulkVisit(s, row, id, req).world)
  {
    VisitCases(s, row, id, req);
    var s' := BulkVisit(s, row, id, req);
    var st := Settled(row, req);
    if st != row.status {
      SettledPending(row, req);
      StatusWritten(s.world.endpoints, id, st);
      WordEffects(st);
      var c := MakeCommand(row.mac, row.ip.GetOr(""), StatusText(st));
      if row.mac == ZERO_MAC {
        ZeroCommand(s.world, s'.world, c);
      } else {
        OneCommand(s.world, s'.world, row.mac, c);
      }
    }
  }

  /** The row of the all-zero address, and commands about it, are outside the agreement. */
  lemma ZeroCommand(w: World, w': World, c: Command)
    requires Agree(w) && w'.log == w.log + [c] && c.mac == Text(ZERO_MAC)
    requires forall m: Mac | m != ZERO_MAC :: RowVerdict(w'.endpoints, m) == RowVerdict(w.endpoints, m)
    ensures Agree(w')
  {
    assert CorrectOne(c, w'.endpoints);
    StepAgrees(w, w', [c]);
  }

  /** Only a default action of "pending" settles a row as pending. */
  lemma SettledPending(row: Endpoint, req: BulkRequest)
    ensures Settled(row, req) == Pending && row.status != Pending <==> PendingWrite(row, req)
    ensures req.defaultAction == Some("pending") ==> !Refused(row, req)
  {
    if EffectiveText(row, req).Some? {
      StatusTexts(Pending, EffectiveText(row, req).value);
    }
    if PolicyStatus(row, req).Some? {
      StatusTexts(PolicyStatus(row, req).value, "");
      assert PolicyStatus(row, req).value != Pending;
    }
  }

  lemma {:induction false} PendingIsHeld(w: World, listed: seq<nat>, req: BulkRequest, k: nat)
    requires UniqueMacs(w.endpoints) && ListedIn(listed, w.endpoints) && Distinct(listed)
    requires k < |listed| && PendingWrite(w.endpoints[listed[k]], req)
    ensures LogVerdict(BulkRun(w, listed, req).world.log, Text(w.endpoints[listed[k]].mac)) == Held
  {
    var n := |listed| - 1;
    var init, id := listed[..n], listed[n];
    var s := BulkRun(w, init, req);
    BulkRunMeaning(w, init, req);
    forall e: Endpoint
      ensures !Refused(e, req)
    {
      SettledPending(e, req);
    }
    if k < n {
      PendingIsHeld(w, init, req, k);
      OtherVisit(s, w.endpoints[id], id, req, w.endpoints[listed[k]].mac);
    } else {
      OwnVisit(s, w.endpoints[id], id, req);
    }
  }

  lemma OtherVisit(s: BulkState, row: Endpoint, id: nat, req: BulkRequest, m: Mac)
    requires row.mac != m
    ensures LogVerdict(BulkVisit(s, row, id, req).world.log, Text(m)) == LogVerdict(s.world.log, Text(m))
  {
    TextInjective(row.mac, m);
    VisitCases(s, row, id, req);
  }

  lemma OwnVisit(s: BulkState, row: Endpoint, id: nat, req: BulkRequest)
    requires PendingWrite(row, req)
    ensures LogVerdict(BulkVisit(s, row, id, req).world.log, Text(row.mac)) == Held
  {
    SettledPending(row, req);
    VisitCases(s, row, id, req);
    WordEffects(Pending);
  }

  lemma PendingSettles(w: World, listed: seq<nat>, req: BulkRequest, k: nat)
    requires ListedIn(listed, w.endpoints) && Distinct(listed)
    requires k < |listed| && PendingWrite(w.endpoints[listed[k]], req)
    ensures var rows := BulkRun(w, listed, req).world.endpoints;
            && |rows| == |w.endpoints|
            && (forall i | 0 <= i < |rows| :: rows[i].mac == w.endpoints[i].mac)
            && rows[listed[k]].status == Pending
  {
    BulkRunMeaning(w, listed, req);
    forall e: Endpoint
      ensures !Refused(e, req)
    {
      SettledPending(e, req);
    }
    SettledPending(w.endpoints[listed[k]], req);
  }

  /** The exact limit of the agreement: a bulk evaluation keeps log and table in agreement unless
      it writes a default of "pending" to the row of some device, which enforcement then quarantines. */
  lemma BulkAgreesExactly(w: World, listed: seq<nat>, req: BulkRequest)
    requires Consistent(w) && ListedIn(listed, w.endpoints) && Distinct(listed)
    ensures Consistent(BulkRun(w, listed, req).world) <==>
              forall k | 0 <= k < |listed| :: !PendingDevice(w.endpoints[listed[k]], req)
  {
    if forall k | 0 <= k < |listed| :: !PendingDevice(w.endpoints[listed[k]], req) {
      BulkKeepsAgreement(w, listed, req);
    } else {
      var k: nat :| k < |listed| && PendingDevice(w.endpoints[listed[k]], req);
      PendingIsHeld(w, listed, req, k);
      PendingSettles(w, listed, req, k);
      var w' := BulkRun(w, listed, req).world;
      var m := w.endpoints[listed[k]].mac;
      SameMacs(w.endpoints, w'.endpoints, m);
      FoundAt(w'.endpoints, listed[k]);
      assert LogVerdict(w'.log, Text(m)) != RowVerdict(w'.endpoints, m);
    }
  }
}
