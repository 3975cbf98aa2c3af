/** The option walks over DHCP payloads, against the encoding of section 2 of RFC 2132. Decoding
    octets as UTF-8 is a parameter. */
module Dhcp {
  import opened Common

  const PAD: byte := 0
  const END: byte := 255
  const HOSTNAME: byte := 12
  const LEASE_TIME: byte := 51
  const MESSAGE_TYPE: byte := 53
  const PARAMETERS: byte := 55
  const VENDOR_CLASS: byte := 60
  const OPTIONS_AT := 240

  datatype Opt = Opt(code: byte, data: seq<byte>)

  /** One element of an options area. */
  datatype Item = Pad | Field(opt: Opt)

  predicate Encodable(item: Item) {
    item.Field? ==> item.opt.code != PAD && item.opt.code != END && |item.opt.data| < 256
  }

  function ItemBytes(item: Item): (r: seq<byte>)
    requires Encodable(item)
  {
    match item
    case Pad => [PAD]
    case Field(o) => [o.code, |o.data|] + o.data
  }

  function Bytes(items: seq<Item>): seq<byte>
    requires forall i | 0 <= i < |items| :: Encodable(items[i])
  {
    if items == [] then [] else ItemBytes(items[0]) + Bytes(items[1..])
  }

  function Options(items: seq<Item>): seq<Opt> {
    if items == [] then []
    else (if items[0].Field? then [items[0].opt] else []) + Options(items[1..])
  }

  /** No further option can be read here: the area is over, says so, or ends inside an option. */
  predicate Stops(s: seq<byte>) {
    s == [] || s[0] == END || (s[0] != PAD && (|s| < 2 || |s| < 2 + s[1] as int))
  }

  /** The options of an area. */
  function Walk(s: seq<byte>): seq<Opt> {
    if Stops(s) then []
    else if s[0] == PAD then Walk(s[1..])
    else [Opt(s[0], s[2..2 + s[1] as int])] + Walk(s[2 + s[1] as int..])
  }

  /** The data of the last option with a code, and, where given, that length. */
  function Last(options: seq<Opt>, code: byte, size: Option<nat>): Option<seq<byte>> {
    if options == [] then None
    else
      var o := options[|options| - 1];
      if o.code == code && (size.None? || |o.data| == size.value) then Some(o.data)
      else Last(options[..|options| - 1], code, size)
  }

  type Utf8 = seq<byte> -> Option<string>

  function Text(utf8: Utf8, data: Option<seq<byte>>): Option<string> {
    if data.None? then None else utf8(data.value)
  }

  datatype ClientPacket = ClientPacket(
    clientMac: Mac, msgType: byte, hostname: Option<string>,
    parameterRequestList: Option<seq<byte>>, vendorClass: Option<string>)

  /** What a client packet reports, given its options. */
  predicate Reports(c: ClientPacket, options: seq<Opt>, utf8: Utf8) {
    && c.hostname == Text(utf8, Last(options, HOSTNAME, None))
    && c.vendorClass == Text(utf8, Last(options, VENDOR_CLASS, None))
    && c.parameterRequestList == Last(options, PARAMETERS, None)
    && (match Last(options, MESSAGE_TYPE, Some(1))
        case None => c.msgType == 0
        case Some(data) => data == [c.msgType])
  }

  function Area(payload: seq<byte>): seq<byte> {
    if |payload| < OPTIONS_AT then [] else payload[OPTIONS_AT..]
  }

  /** The options from a position on. */
  function WalkFrom(payload: seq<byte>, i: nat): seq<Opt> {
    if i <= |payload| then Walk(payload[i..]) else []
  }

  function FieldAt(payload: seq<byte>, i: nat): Opt
    requires i + 1 < |payload| && i + 2 + payload[i + 1] as int <= |payload|
  {
    Opt(payload[i], payload[i + 2..i + 2 + payload[i + 1] as int])
  }

  lemma FromPad(payload: seq<byte>, i: nat)
    requires i < |payload| && payload[i] == PAD
    ensures WalkFrom(payload, i) == WalkFrom(payload, i + 1)
  {
    var s := payload[i..];
    assert s[1..] == payload[i + 1..];
    assert !Stops(s);
  }

  lemma FromField(payload: seq<byte>, i: nat)
    requires i + 1 < |payload| && payload[i] != PAD && payload[i] != END
    requires i + 2 + payload[i + 1] as int <= |payload|
    ensures WalkFrom(payload, i) == [FieldAt(payload, i)] + WalkFrom(payload, i + 2 + payload[i + 1] as int)
  {
    var s, len := payload[i..], payload[i + 1] as int;
    SliceOfTail(payload, i, 2, 2 + len);
    assert s[2 + len..] == payload[i + 2 + len..];
    assert !Stops(s);
  }

  lemma SliceOfTail(payload: seq<byte>, i: nat, a: nat, b: nat)
    requires a <= b && i + b <= |payload|
    ensures payload[i..][a..b] == payload[i + a..i + b]
  {
  }

  lemma FromStop(payload: seq<byte>, i: nat)
    requires i + 1 < |payload| ==>
               payload[i] == END || (payload[i] != PAD && i + 2 + payload[i + 1] as int > |payload|)
    ensures WalkFrom(payload, i) == []
  {
    if i + 1 == |payload| && payload[i] == PAD {
      FromPad(payload, i);
    }
  }

  /** The effect of one option on the report. */
  function Read(c: ClientPacket, o: Opt, utf8: Utf8): ClientPacket {
    if o.code == HOSTNAME then c.(hostname := utf8(o.data))
    else if o.code == MESSAGE_TYPE && |o.data| == 1 then c.(msgType := o.data[0])
    else if o.code == PARAMETERS then c.(parameterRequestList := Some(o.data))
    else if o.code == VENDOR_CLASS then c.(vendorClass := utf8(o.data))
    else c
  }

  lemma ReportsGrows(c: ClientPacket, seen: seq<Opt>, o: Opt, utf8: Utf8)
    requires Reports(c, seen, utf8)
    ensures Reports(Read(c, o, utf8), seen + [o], utf8)
  {
    LastAppend(seen, o);
  }

  /** The effect of several options, in order. */
  function ReadOn(c: ClientPacket, options: seq<Opt>, utf8: Utf8): ClientPacket
    decreases |options|
  {
    if options == [] then c else ReadOn(Read(c, options[0], utf8), options[1..], utf8)
  }

  lemma ReadOnOne(c: ClientPacket, o: Opt, left: seq<Opt>, utf8: Utf8)
    ensures ReadOn(c, [o] + left, utf8) == ReadOn(Read(c, o, utf8), left, utf8)
  {
    assert ([o] + left)[1..] == left;
  }

  lemma {:induction false} ReadOnReports(c: ClientPacket, seen: seq<Opt>, options: seq<Opt>, utf8: Utf8)
    requires Reports(c, seen, utf8)
    ensures var r := ReadOn(c, options, utf8);
            r.clientMac == c.clientMac && Reports(r, seen + options, utf8)
    decreases |options|
  {
    if options == [] {
      assert seen + options == seen;
    } else {
      var o := options[0];
      ReportsGrows(c, seen, o, utf8);
      ReadOnReports(Read(c, o, utf8), seen + [o], options[1..], utf8);
      assert seen + [o] + options[1..] == seen + options;
    }
  }

  /** What the packet will report when the walk goes on from position `i`. */
  function Remaining(c: ClientPacket, payload: seq<byte>, i: nat, utf8: Utf8): ClientPacket {
    ReadOn(c, WalkFrom(payload, i), utf8)
  }

  lemma RemainingField(c: ClientPacket, payload: seq<byte>, i: nat, utf8: Utf8)
    requires i + 1 < |payload| && payload[i] != PAD && payload[i] != END
    requires i + 2 + payload[i + 1] as int <= |payload|
    ensures Remaining(c, payload, i, utf8) ==
            Remaining(Read(c, FieldAt(payload, i), utf8), payload, i + 2 + payload[i + 1] as int, utf8)
  {
    FromField(payload, i);
    ReadOnOne(c, FieldAt(payload, i), WalkFrom(payload, i + 2 + payload[i + 1] as int), utf8);
  }

  lemma RemainingPad(c: ClientPacket, payload: seq<byte>, i: nat, utf8: Utf8)
    requires i < |payload| && payload[i] == PAD
    ensures Remaining(c, payload, i, utf8) == Remaining(c, payload, i + 1, utf8)
  {
    FromPad(payload, i);
  }

  lemma RemainingStop(c: ClientPacket, payload: seq<byte>, i: nat, utf8: Utf8)
    requires i + 1 < |payload| ==>
               payload[i] == END || (payload[i] != PAD && i + 2 + payload[i + 1] as int > |payload|)
    ensures Remaining(c, payload, i, utf8) == c
  {
    FromStop(payload, i);
  }

  method ReadOption(c: ClientPacket, payload: seq<byte>, i: nat, utf8: Utf8) returns (c': ClientPacket)
    requires i + 1 < |payload| && payload[i] != PAD && payload[i] != END
    requires i + 2 + payload[i + 1] as int <= |payload|
    ensures c' == Read(c, FieldAt(payload, i), utf8)
    ensures Remaining(c', payload, i + 2 + payload[i + 1] as int, utf8) == Remaining(c, payload, i, utf8)
  {
    RemainingField(c, payload, i, utf8);
    c' := Read(c, FieldAt(payload, i), utf8);
  }

  method ReadOptions(payload: seq<byte>, first: ClientPacket, utf8: Utf8) returns (c: ClientPacket)
    requires |payload| >= OPTIONS_AT
    ensures c == ReadOn(first, Walk(Area(payload)), utf8)
  {
    c := first;
    var i := OPTIONS_AT;
    ghost var whole := ReadOn(first, Walk(Area(payload)), utf8);
    while i < |payload|
      invariant OPTIONS_AT <= i <= |payload|
      invariant Remaining(c, payload, i, utf8) == whole
    {
      var code := payload[i];
      if code == END {
        break;
      }
      if code == PAD {
        RemainingPad(c, payload, i, utf8);
        i := i + 1;
        continue;
      }
      if i + 1 >= |payload| {
        break;
      }
      var len := payload[i + 1] as int;
      if i + 2 + len > |payload| {
        break;
      }
      c := ReadOption(c, payload, i, utf8);
      i := i + 2 + len;
    }
    RemainingStop(c, payload, i, utf8);
  }

  method ParseClient(payload: seq<byte>, utf8: Utf8) returns (r: Result<ClientPacket>)
    ensures r.Ok? <==> |payload| >= OPTIONS_AT && payload[0] == 1
    ensures r.Ok? ==> r.value.clientMac == payload[28..34]
    ensures r.Ok? ==> Reports(r.value, Walk(Area(payload)), utf8)
  {
    if |payload| < OPTIONS_AT {
      return Err("DHCP client payload too short");
    }
    if payload[0] != 1 {
      return Err("not a DHCP request (op != 1)");
    }
    var mac := payload[28..34];
    var c := ReadOptions(payload, ClientPacket(mac, 0, None, None, None), utf8);
    ReadOnReports(ClientPacket(mac, 0, None, None, None), [], Walk(Area(payload)), utf8);
    assert [] + Walk(Area(payload)) == Walk(Area(payload));
    r := Ok(c);
  }

  lemma LastAppend(options: seq<Opt>, o: Opt)
    ensures forall code: byte, size: Option<nat> {:trigger Last(options + [o], code, size)} ::
              Last(options + [o], code, size) ==
              if o.code == code && (size.None? || |o.data| == size.value) then Some(o.data)
              else Last(options, code, size)
  {
    assert (options + [o])[..|options|] == options;
  }

  datatype Binding = Binding(clientMac: Mac, offeredIp: seq<byte>, leaseSecs: nat)

  function BigEndian(data: seq<byte>): nat
    requires |data| == 4
  {
    data[0] as int * 0x100_0000 + data[1] as int * 0x1_0000 + data[2] as int * 0x100 + data[3] as int
  }

  predicate Leases(secs: nat, options: seq<Opt>) {
    match Last(options, LEASE_TIME, Some(4))
    case None => secs == 86400
    case Some(data) => |data| == 4 && secs == BigEndian(data)
  }

  lemma LeasesAppend(options: seq<Opt>, o: Opt)
    ensures forall secs: nat :: Leases(secs, options + [o]) <==>
              if o.code == LEASE_TIME && |o.data| == 4 then secs == BigEndian(o.data) else Leases(secs, options)
  {
    LastAppend(options, o);
    LastSize(options, LEASE_TIME, 4);
  }

  lemma {:induction false} LastSize(options: seq<Opt>, code: byte, size: nat)
    ensures Last(options, code, Some(size)).Some? ==> |Last(options, code, Some(size)).value| == size
  {
    if options != [] {
      LastSize(options[..|options| - 1], code, size);
    }
  }

  /** The lease time after one more option. */
  function Lease(secs: nat, o: Opt): nat {
    if o.code == LEASE_TIME && |o.data| == 4 then BigEndian(o.data) else secs
  }

  /** The lease time after several options, in order. */
  function LeaseOn(secs: nat, options: seq<Opt>): nat
    decreases |options|
  {
    if options == [] then secs else LeaseOn(Lease(secs, options[0]), options[1..])
  }

  lemma {:induction false} LeaseOnLeases(secs: nat, seen: seq<Opt>, options: seq<Opt>)
    requires Leases(secs, seen)
    ensures Leases(LeaseOn(secs, options), seen + options)
    decreases |options|
  {
    if options == [] {
      assert seen + options == seen;
    } else {
      LeasesAppend(seen, options[0]);
      LeaseOnLeases(Lease(secs, options[0]), seen + [options[0]], options[1..]);
      assert seen + [options[0]] + options[1..] == seen + options;
    }
  }

  lemma LeaseOnOne(secs: nat, o: Opt, left: seq<Opt>)
    ensures LeaseOn(secs, [o] + left) == LeaseOn(Lease(secs, o), left)
  {
    assert ([o] + left)[1..] == left;
  }

  /** The lease time when the walk goes on from position `i`. */
  function RemainingLease(secs: nat, payload: seq<byte>, i: nat): nat { LeaseOn(secs, WalkFrom(payload, i)) }

  lemma RemainingLeaseField(secs: nat, payload: seq<byte>, i: nat)
    requires i + 1 < |payload| && payload[i] != PAD && payload[i] != END
    requires i + 2 + payload[i + 1] as int <= |payload|
    ensures RemainingLease(secs, payload, i) ==
            RemainingLease(Lease(secs, FieldAt(payload, i)), payload, i + 2 + payload[i + 1] as int)
  {
    FromField(payload, i);
    LeaseOnOne(secs, FieldAt(payload, i), WalkFrom(payload, i + 2 + payload[i + 1] as int));
  }

  lemma RemainingLeaseStop(secs: nat, payload: seq<byte>, i: nat)
    requires i + 1 < |payload| ==>
               payload[i] == END || (payload[i] != PAD && i + 2 + payload[i + 1] as int > |payload|)
    ensures RemainingLease(secs, payload, i) == secs
  {
    FromStop(payload, i);
  }

  method ReadLease(payload: seq<byte>) returns (secs: nat)
    ensures secs == LeaseOn(86400, Walk(Area(payload)))
  {
    secs := 86400;
    var i := 236 + 4;
    while i + 1 < |payload|
      invariant OPTIONS_AT <= i
      invariant RemainingLease(secs, payload, i) == RemainingLease(86400, payload, OPTIONS_AT)
    {
      var code := payload[i];
      if code == END {
        break;
      }
      if code == PAD {
        FromPad(payload, i);
        i := i + 1;
        continue;
      }
      var len := payload[i + 1] as int;
      if i + 2 + len <= |payload| {
        RemainingLeaseField(secs, payload, i);
        secs := Lease(secs, FieldAt(payload, i));
      } else {
        RemainingLeaseStop(secs, payload, i);
      }
      i := i + 2 + len;
    }
    RemainingLeaseStop(secs, payload, i);
  }

  lemma LeaseIsLast(payload: seq<byte>, secs: nat)
    requires secs == LeaseOn(86400, Walk(Area(payload)))
    ensures Leases(secs, Walk(Area(payload)))
  {
    LeaseOnLeases(86400, [], Walk(Area(payload)));
    assert [] + Walk(Area(payload)) == Walk(Area(payload));
  }

  method ParseBinding(payload: seq<byte>) returns (r: Result<Binding>)
    ensures r.Ok? <==> |payload| >= 236 && payload[0] == 2
    ensures r.Ok? ==> r.value.clientMac == payload[28..34] && r.value.offeredIp == payload[16..20]
    ensures r.Ok? ==> Leases(r.value.leaseSecs, Walk(Area(payload)))
  {
    if |payload| < 236 {
      return Err("DHCPv4 payload too short");
    }
    if payload[0] != 2 {
      return Err("not a DHCP reply (op != 2)");
    }
    var mac, ip := payload[28..34], payload[16..20];
    var secs := ReadLease(payload);
    LeaseIsLast(payload, secs);
    r := Ok(Binding(mac, ip, secs));
  }

  // ── The walk reads back what an encoder wrote ──

  ghost predicate AllEncodable(items: seq<Item>) { forall i | 0 <= i < |items| :: Encodable(items[i]) }

  lemma {:induction false} WalkSkips(items: seq<Item>, rest: seq<byte>)
    requires AllEncodable(items)
    ensures Walk(Bytes(items) + rest) == Options(items) + Walk(rest)
    decreases |items|
  {
    if items == [] {
      assert Bytes(items) + rest == rest;
    } else {
      var tail := Bytes(items[1..]) + rest;
      assert Bytes(items) + rest == ItemBytes(items[0]) + tail;
      WalkItem(items[0], tail);
      WalkSkips(items[1..], rest);
    }
  }

  lemma WalkItem(item: Item, tail: seq<byte>)
    requires Encodable(item)
    ensures Walk(ItemBytes(item) + tail) == Options([item]) + Walk(tail)
  {
    match item
    case Pad =>
      assert ([PAD] + tail)[1..] == tail;
    case Field(o) =>
      WalkField(o, tail);
      assert Options([item]) == [o] + Options([item][1..]);
  }

  lemma WalkField(o: Opt, tail: seq<byte>)
    requires Encodable(Field(o))
    ensures Walk(ItemBytes(Field(o)) + tail) == [o] + Walk(tail)
  {
    var s, n := ItemBytes(Field(o)) + tail, 2 + |o.data|;
    assert s[0] == o.code && s[1] as int == |o.data| && |s| >= n;
    assert s[2..n] == o.data;
    assert s[n..] == tail;
  }

  lemma {:induction false} BytesConcat(a: seq<Item>, b: seq<Item>)
    requires AllEncodable(a) && AllEncodable(b)
    ensures AllEncodable(a + b) && Bytes(a + b) == Bytes(a) + Bytes(b)
  {
    if a == [] {
      assert a + b == b;
    } else {
      assert (a + b)[1..] == a[1..] + b;
      BytesConcat(a[1..], b);
    }
  }

  lemma CutItemStops(item: Item, n: nat)
    requires Encodable(item) && n < |ItemBytes(item)|
    ensures Stops(ItemBytes(item)[..n])
  {
  }

  /** What is left of a cut area behind the options that fit. */
  lemma CutRestStops(left: seq<Item>, junk: seq<byte>, n: nat)
    requires AllEncodable(left) && n <= |Bytes(left) + [END] + junk|
    requires left != [] ==> n < |ItemBytes(left[0])|
    ensures Walk((Bytes(left) + [END] + junk)[..n]) == []
  {
    var rest := (Bytes(left) + [END] + junk)[..n];
    if left == [] {
      assert rest == [] || rest[0] == END;
    } else {
      assert rest == ItemBytes(left[0])[..n];
      CutItemStops(left[0], n);
    }
  }

  /** An area cut at any point: the walk yields exactly the options that fit whole before the
      cut, in order, and nothing that follows an end mark. */
  lemma WalkOfCutArea(items: seq<Item>, junk: seq<byte>, cut: nat, k: nat)
    requires AllEncodable(items) && k <= |items|
    requires cut <= |Bytes(items) + [END] + junk|
    requires |Bytes(items[..k])| <= cut
    requires k < |items| ==> cut < |Bytes(items[..k + 1])|
    ensures Walk((Bytes(items) + [END] + junk)[..cut]) == Options(items[..k])
  {
    var whole, left := items[..k], items[k..];
    assert items == whole + left;
    SplitArea(whole, left, junk);
    if left != [] {
      assert items[..k + 1] == whole + [left[0]];
      BytesConcat(whole, [left[0]]);
      OneItem(left[0]);
    }
    CutRestStops(left, junk, cut - |Bytes(whole)|);
    CutBehind(whole, Bytes(left) + [END] + junk, cut);
  }

  lemma SplitArea(whole: seq<Item>, left: seq<Item>, junk: seq<byte>)
    requires AllEncodable(whole) && AllEncodable(left)
    ensures AllEncodable(whole + left)
    ensures Bytes(whole + left) + [END] + junk == Bytes(whole) + (Bytes(left) + [END] + junk)
  {
    BytesConcat(whole, left);
  }

  lemma CutBehind(whole: seq<Item>, behind: seq<byte>, cut: nat)
    requires AllEncodable(whole) && |Bytes(whole)| <= cut <= |Bytes(whole)| + |behind|
    requires Walk(behind[..cut - |Bytes(whole)|]) == []
    ensures Walk((Bytes(whole) + behind)[..cut]) == Options(whole)
  {
    CutInside(Bytes(whole), behind, cut);
    WalkSkips(whole, behind[..cut - |Bytes(whole)|]);
  }

  lemma OneItem(item: Item)
    requires Encodable(item)
    ensures Bytes([item]) == ItemBytes(item)
  {
    assert Bytes([item]) == ItemBytes(item) + Bytes([item][1..]);
  }

  lemma CutInside(a: seq<byte>, b: seq<byte>, cut: nat)
    requires |a| <= cut <= |a| + |b|
    ensures (a + b)[..cut] == a + b[..cut - |a|]
  {
  }

  lemma EncodingGrows(first: Item, s: seq<byte>, more: seq<Item>, rest: seq<byte>)
    requires Encodable(first) && AllEncodable(more) && s == Bytes(more) + rest
    ensures AllEncodable([first] + more)
    ensures ItemBytes(first) + s == Bytes([first] + more) + rest
    ensures Options([first] + more) == Options([first]) + Options(more)
  {
    HeadItem(first, more);
    Associates(ItemBytes(first), Bytes(more), rest);
  }

  lemma HeadItem(first: Item, more: seq<Item>)
    requires Encodable(first) && AllEncodable(more)
    ensures AllEncodable([first] + more)
    ensures Bytes([first] + more) == ItemBytes(first) + Bytes(more)
    ensures Options([first] + more) == Options([first]) + Options(more)
  {
    var items := [first] + more;
    assert items[1..] == more;
    assert [first][1..] == [];
  }

  /** Every area is an encoding up to the point where its walk stops. */
  lemma {:induction false} EveryAreaIsAnEncoding(s: seq<byte>) returns (items: seq<Item>, rest: seq<byte>)
    ensures AllEncodable(items) && s == Bytes(items) + rest && Stops(rest)
    ensures Walk(s) == Options(items)
    decreases |s|
  {
    if Stops(s) {
      items, rest := [], s;
    } else {
      var n := if s[0] == PAD then 1 else 2 + s[1] as int;
      var first := if s[0] == PAD then Pad else Field(Opt(s[0], s[2..n]));
      var more;
      more, rest := EveryAreaIsAnEncoding(s[n..]);
      items := [first] + more;
      EncodingGrows(first, s[n..], more, rest);
      FirstItem(s, first, n);
    }
  }

  lemma FirstItem(s: seq<byte>, first: Item, n: nat)
    requires !Stops(s) && n == if s[0] == PAD then 1 else 2 + s[1] as int
    requires first == if s[0] == PAD then Pad else Field(Opt(s[0], s[2..n]))
    ensures Encodable(first) && s == ItemBytes(first) + s[n..]
    ensures Walk(s) == Options([first]) + Walk(s[n..])
  {
    assert s == ItemBytes(first) + s[n..];
    assert Options([first]) == if s[0] == PAD then [] else [first.opt];
  }

  /** What a client packet whose options area was written from a list, and cut anywhere, reports. */
  lemma ReportOfCutPacket(c: ClientPacket, utf8: Utf8, payload: seq<byte>, items: seq<Item>, junk: seq<byte>, k: nat)
    requires AllEncodable(items) && k <= |items|
    requires |payload| >= OPTIONS_AT && Area(payload) <= Bytes(items) + [END] + junk
    requires |Bytes(items[..k])| <= |Area(payload)|
    requires k < |items| ==> |Area(payload)| < |Bytes(items[..k + 1])|
    ensures Reports(c, Walk(Area(payload)), utf8) <==> Reports(c, Options(items[..k]), utf8)
  {
    WalkOfCutArea(items, junk, |Area(payload)|, k);
    assert Area(payload) == (Bytes(items) + [END] + junk)[..|Area(payload)|];
  }
}
