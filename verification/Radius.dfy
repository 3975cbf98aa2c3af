/** The RADIUS codec and the replies it carries, against sections 3 and 5 of RFC 2865. */
module Radius {
  import opened Common

  type Authenticator = a: seq<byte> | |a| == 16 witness [0, 0, 0, 0, 0, 0, 0, 0, 0, 0, 0, 0, 0, 0, 0, 0]

  datatype Attribute = Attribute(attrType: byte, value: seq<byte>)

  datatype RadiusPacket = RadiusPacket(code: byte, identifier: byte, authenticator: Authenticator,
                                       attributes: seq<Attribute>)

  const CODE_ACCESS_ACCEPT: byte := 2
  const CODE_ACCESS_REJECT: byte := 3
  const ATTR_REPLY_MESSAGE: byte := 18
  const ATTR_TUNNEL_TYPE: byte := 64
  const ATTR_TUNNEL_MEDIUM_TYPE: byte := 65
  const ATTR_TUNNEL_PRIVATE_GROUP_ID: byte := 81
  const MAX_VALUE := 253
  const MAX_PACKET := 65535

  // ── Printing ──

  /** The length octet is the value's length plus two, cut to eight bits. */
  function AttributeBytes(a: Attribute): seq<byte> {
    [a.attrType, (|a.value| + 2) % 256] + a.value
  }

  function AttributesBytes(attrs: seq<Attribute>): seq<byte> {
    if attrs == [] then [] else AttributeBytes(attrs[0]) + AttributesBytes(attrs[1..])
  }

  /** The four octets before the authenticator; the length is cut to sixteen bits. */
  function Header(p: RadiusPacket): (h: seq<byte>)
    ensures |h| == 4
  {
    var length := (20 + |AttributesBytes(p.attributes)|) % 65536;
    [p.code, p.identifier, length / 256, length % 256]
  }

  function Encoded(p: RadiusPacket): (b: seq<byte>)
    ensures |b| >= 20
  {
    Header(p) + p.authenticator + AttributesBytes(p.attributes)
  }

  lemma {:induction false} AttributesBytesConcat(a: seq<Attribute>, b: seq<Attribute>)
    ensures AttributesBytes(a + b) == AttributesBytes(a) + AttributesBytes(b)
  {
    if a == [] {
      assert a + b == b;
    } else {
      assert (a + b)[1..] == a[1..] + b;
      AttributesBytesConcat(a[1..], b);
    }
  }

  lemma AppendAttribute(attrs: seq<Attribute>, a: Attribute)
    ensures AttributesBytes(attrs + [a]) == AttributesBytes(attrs) + [a.attrType] + [(|a.value| + 2) % 256] + a.value
  {
    AttributesBytesConcat(attrs, [a]);
    assert AttributesBytes([a]) == AttributeBytes(a);
  }

  method Encode(p: RadiusPacket) returns (buf: seq<byte>)
    ensures buf == Encoded(p)
  {
    var attrsBytes: seq<byte> := [];
    for i := 0 to |p.attributes|
      invariant attrsBytes == AttributesBytes(p.attributes[..i])
    {
      var attr := p.attributes[i];
      attrsBytes := attrsBytes + [attr.attrType];
      attrsBytes := attrsBytes + [(|attr.value| + 2) % 256];
      attrsBytes := attrsBytes + attr.value;
      assert p.attributes[..i + 1] == p.attributes[..i] + [attr];
      AppendAttribute(p.attributes[..i], attr);
    }
    assert p.attributes[..|p.attributes|] == p.attributes;
    var length := (20 + |attrsBytes|) % 65536;
    buf := [p.code, p.identifier];
    buf := buf + [length / 256, length % 256];
    buf := buf + p.authenticator;
    buf := buf + attrsBytes;
  }

  // ── Parsing ──

  /** Attributes as far as they are well formed. */
  function ParsedAttributes(b: seq<byte>): seq<Attribute> {
    if |b| < 2 || b[1] < 2 || b[1] > |b| then []
    else [Attribute(b[0], b[2..b[1]])] + ParsedAttributes(b[b[1]..])
  }

  function LengthField(buf: seq<byte>): nat
    requires |buf| >= 4
  {
    buf[2] as int * 256 + buf[3] as int
  }

  function AttributeArea(buf: seq<byte>): seq<byte>
    requires |buf| >= 20 && LengthField(buf) <= |buf|
  {
    if LengthField(buf) < 20 then [] else buf[20..LengthField(buf)]
  }

  predicate Accepted(buf: seq<byte>) { |buf| >= 20 && LengthField(buf) <= |buf| }

  function Parsed(buf: seq<byte>): Result<RadiusPacket> {
    if |buf| < 20 then Err("RADIUS packet too short")
    else if |buf| < LengthField(buf) then Err("RADIUS packet truncated")
    else Ok(RadiusPacket(buf[0], buf[1], buf[4..20], ParsedAttributes(AttributeArea(buf))))
  }

  /** What is left of the declared area from `pos` on. */
  function Rest(buf: seq<byte>, pos: nat, length: nat): seq<byte>
    requires length <= |buf|
  {
    if pos <= length then buf[pos..length] else []
  }

  lemma SliceOfSlice(buf: seq<byte>, pos: nat, length: nat, n: nat)
    requires 2 <= n && pos + n <= length <= |buf|
    ensures buf[pos..length][2..n] == buf[pos + 2..pos + n]
    ensures buf[pos..length][n..] == buf[pos + n..length]
  {
    var mid := buf[pos..length];
    assert forall i | 0 <= i < |mid| :: mid[i] == buf[pos + i];
    assert mid[2..n] == buf[pos + 2..pos + n];
  }

  lemma TakeAttribute(buf: seq<byte>, pos: nat, length: nat)
    requires pos + 2 <= length <= |buf|
    ensures var n := buf[pos + 1];
            ParsedAttributes(Rest(buf, pos, length)) ==
            if n < 2 || pos + n > length then []
            else [Attribute(buf[pos], buf[pos + 2..pos + n])] + ParsedAttributes(Rest(buf, pos + n, length))
  {
    var rest, n := Rest(buf, pos, length), buf[pos + 1];
    assert rest[0] == buf[pos] && rest[1] == n;
    if !(n < 2 || pos + n > length) {
      SliceOfSlice(buf, pos, length, n);
      assert rest[2..n] == buf[pos + 2..pos + n] && rest[n..] == Rest(buf, pos + n, length);
    }
  }

  /** The result when parsing goes on from `pos` with some attributes read. */
  function Onto(read: seq<Attribute>, buf: seq<byte>, pos: nat, length: nat): seq<Attribute>
    requires length <= |buf|
  {
    read + ParsedAttributes(Rest(buf, pos, length))
  }

  function AttributeAt(buf: seq<byte>, pos: nat): Attribute
    requires pos + 1 < |buf| && 2 <= buf[pos + 1] && pos + buf[pos + 1] as int <= |buf|
  {
    Attribute(buf[pos], buf[pos + 2..pos + buf[pos + 1] as int])
  }

  lemma OntoAttribute(read: seq<Attribute>, buf: seq<byte>, pos: nat, length: nat)
    requires pos + 1 < length <= |buf| && 2 <= buf[pos + 1] && pos + buf[pos + 1] as int <= length
    ensures Onto(read, buf, pos, length) ==
            Onto(read + [AttributeAt(buf, pos)], buf, pos + buf[pos + 1] as int, length)
  {
    TakeAttribute(buf, pos, length);
  }

  lemma OntoEnd(read: seq<Attribute>, buf: seq<byte>, pos: nat, length: nat)
    requires length <= |buf|
    requires pos + 2 <= length ==> buf[pos + 1] < 2 || pos + buf[pos + 1] as int > length
    ensures Onto(read, buf, pos, length) == read
  {
    if pos + 2 <= length {
      TakeAttribute(buf, pos, length);
    }
  }

  method ParseAttributes(buf: seq<byte>, length: nat) returns (attributes: seq<Attribute>)
    requires length <= |buf|
    ensures attributes == Onto([], buf, 20, length)
  {
    attributes := [];
    var pos := 20;
    while pos + 2 <= length
      invariant Onto(attributes, buf, pos, length) == Onto([], buf, 20, length)
      decreases length - pos
    {
      var attrLen := buf[pos + 1] as int;
      if attrLen < 2 || pos + attrLen > length {
        break;
      }
      OntoAttribute(attributes, buf, pos, length);
      attributes := attributes + [AttributeAt(buf, pos)];
      pos := pos + attrLen;
    }
    OntoEnd(attributes, buf, pos, length);
  }

  method Parse(buf: seq<byte>) returns (r: Result<RadiusPacket>)
    ensures r == Parsed(buf)
  {
    if |buf| < 20 {
      return Err("RADIUS packet too short");
    }
    var length := buf[2] as int * 256 + buf[3] as int;
    if |buf| < length {
      return Err("RADIUS packet truncated");
    }
    var attributes := ParseAttributes(buf, length);
    assert attributes == ParsedAttributes(Rest(buf, 20, length));
    return Ok(RadiusPacket(buf[0], buf[1], buf[4..20], attributes));
  }

  // ── Round trips ──

  predicate Encodable(p: RadiusPacket) {
    && (forall a | a in p.attributes :: |a.value| <= MAX_VALUE)
    && 20 + |AttributesBytes(p.attributes)| <= MAX_PACKET
  }

  lemma {:induction false} ParsedOfBytes(attrs: seq<Attribute>)
    requires forall a | a in attrs :: |a.value| <= MAX_VALUE
    ensures ParsedAttributes(AttributesBytes(attrs)) == attrs
  {
    if attrs != [] {
      var a := attrs[0];
      var one, rest := AttributeBytes(a), AttributesBytes(attrs[1..]);
      var b := one + rest;
      assert b[1] == |a.value| + 2 == |one|;
      assert b[2..b[1]] == a.value;
      assert b[b[1]..] == rest;
      ParsedOfBytes(attrs[1..]);
      assert attrs == [a] + attrs[1..];
    }
  }

  lemma {:induction false} BytesOfParsed(b: seq<byte>)
    ensures AttributesBytes(ParsedAttributes(b)) <= b
    ensures forall a | a in ParsedAttributes(b) :: |a.value| <= MAX_VALUE
  {
    if !(|b| < 2 || b[1] < 2 || b[1] > |b|) {
      BytesOfParsed(b[b[1]..]);
      var a := Attribute(b[0], b[2..b[1]]);
      assert AttributeBytes(a) == b[..b[1]];
      assert ParsedAttributes(b)[1..] == ParsedAttributes(b[b[1]..]);
      assert b == b[..b[1]] + b[b[1]..];
    }
  }

  lemma ParsedIsEncodable(buf: seq<byte>)
    requires Accepted(buf)
    ensures Encodable(Parsed(buf).value)
    ensures LengthField(buf) >= 20 ==> AttributesBytes(Parsed(buf).value.attributes) <= buf[20..LengthField(buf)]
  {
    BytesOfParsed(AttributeArea(buf));
  }

  /** Parsing what was printed gives the packet back exactly when every value has at most 253
      octets and the whole packet at most 65535. */
  lemma RoundTripExactly(p: RadiusPacket)
    ensures Parsed(Encoded(p)) == Ok(p) <==> Encodable(p)
  {
    var b := Encoded(p);
    if Encodable(p) {
      assert LengthField(b) == |b|;
      assert b[0] == p.code && b[1] == p.identifier && AttributeArea(b) == b[20..];
      assert b[4..20] == p.authenticator && b[20..] == AttributesBytes(p.attributes);
      ParsedOfBytes(p.attributes);
    }
    if Parsed(b) == Ok(p) {
      ParsedIsEncodable(b);
      assert Parsed(b).value == p;
    }
  }

  /** Every accepted buffer reads the same after being printed again, and the attributes printed
      are a prefix of the attribute area it declared. */
  lemma ReprintIsStable(buf: seq<byte>)
    requires Accepted(buf)
    ensures Parsed(buf).Ok?
    ensures Parsed(Encoded(Parsed(buf).value)) == Parsed(buf)
    ensures LengthField(buf) >= 20 ==> Encoded(Parsed(buf).value)[20..] <= buf[20..LengthField(buf)]
    ensures LengthField(buf) < 20 ==> Parsed(buf).value.attributes == []
  {
    ParsedIsEncodable(buf);
    var p := Parsed(buf).value;
    RoundTripExactly(p);
    assert Encoded(p)[20..] == AttributesBytes(p.attributes);
  }

  // ── Replies ──

  /** The reply on the wire: its authenticator is the hash of header, request authenticator,
      attributes and secret (section 3 of RFC 2865). */
  function Signed(p: RadiusPacket, requestAuth: Authenticator, secret: seq<byte>,
                  md5: seq<byte> -> Authenticator): seq<byte> {
    var attrs := AttributesBytes(p.attributes);
    Header(p) + md5(Header(p) + requestAuth + attrs + secret) + attrs
  }

  /** Copies sixteen octets over positions 4 to 19 of a buffer. */
  method FillAuthenticator(buf: array<byte>, a: Authenticator)
    requires buf.Length >= 20
    modifies buf
    ensures buf[..] == old(buf[..4]) + a + old(buf[20..])
  {
    forall i | 4 <= i < 20 {
      buf[i] := a[i - 4];
    }
  }

  method EncodeWithResponseAuth(p: RadiusPacket, requestAuth: Authenticator, secret: seq<byte>,
                                md5: seq<byte> -> Authenticator)
    returns (reply: seq<byte>)
    ensures reply == Signed(p, requestAuth, secret, md5)
  {
    var encoded := Encode(p);
    var buf := new byte[|encoded|](i requires 0 <= i < |encoded| => encoded[i]);
    assert buf[..] == encoded;
    assert encoded[..4] == Header(p) && encoded[20..] == AttributesBytes(p.attributes);
    FillAuthenticator(buf, requestAuth);
    assert buf[..4] == Header(p) && buf[20..] == AttributesBytes(p.attributes);
    var input := buf[..] + secret;
    var hash := md5(input);
    FillAuthenticator(buf, hash);
    reply := buf[..];
  }

  /** What a client checks on a reply to its request. */
  predicate Authentic(reply: seq<byte>, requestAuth: Authenticator, secret: seq<byte>, md5: seq<byte> -> Authenticator)
    requires |reply| >= 20
  {
    reply[4..20] == md5(reply[..4] + requestAuth + reply[20..] + secret)
  }

  /** A reply passes the client's check and parses back to the packet under the new authenticator. */
  lemma ReplyIsAuthentic(p: RadiusPacket, requestAuth: Authenticator, secret: seq<byte>,
                         md5: seq<byte> -> Authenticator)
    requires Encodable(p)
    ensures var reply := Signed(p, requestAuth, secret, md5);
            && |reply| >= 20
            && Authentic(reply, requestAuth, secret, md5)
            && Parsed(reply) == Ok(p.(authenticator := reply[4..20]))
  {
    var reply := Signed(p, requestAuth, secret, md5);
    assert reply[..4] == Header(p) && reply[20..] == AttributesBytes(p.attributes);
    var q := p.(authenticator := reply[4..20]);
    assert Encoded(q) == reply;
    RoundTripExactly(q);
  }

  // ── Response construction ──

  function Decimal(n: nat): seq<byte> {
    if n < 10 then [48 + n] else Decimal(n / 10) + [48 + n % 10]
  }

  predicate IsNumeral(s: seq<byte>) {
    s != [] && forall i | 0 <= i < |s| :: 48 <= s[i] <= 57
  }

  /** The number a decimal numeral stands for. */
  function ReadDecimal(s: seq<byte>): nat
    requires forall i | 0 <= i < |s| :: 48 <= s[i] <= 57
  {
    if s == [] then 0 else 10 * ReadDecimal(s[..|s| - 1]) + (s[|s| - 1] - 48)
  }

  lemma {:induction false} DecimalReads(n: nat)
    ensures IsNumeral(Decimal(n)) && ReadDecimal(Decimal(n)) == n
    ensures n < 65536 ==> |Decimal(n)| <= 5
    ensures n < 6554 ==> |Decimal(n)| <= 4
    ensures n < 656 ==> |Decimal(n)| <= 3
    ensures n < 66 ==> |Decimal(n)| <= 2
    ensures |Decimal(n)| > 1 ==> Decimal(n)[0] != 48
  {
    if n >= 10 {
      DecimalReads(n / 10);
      var d := Decimal(n / 10);
      assert Decimal(n)[..|d|] == d;
    } else {
      assert Decimal(n)[..0] == [];
    }
  }

  function VlanAttributes(vlan: nat): seq<Attribute> {
    [Attribute(ATTR_TUNNEL_TYPE, [0, 0, 0, 0, 13]),
     Attribute(ATTR_TUNNEL_MEDIUM_TYPE, [0, 0, 0, 0, 6]),
     Attribute(ATTR_TUNNEL_PRIVATE_GROUP_ID, [0] + Decimal(vlan))]
  }

  function BuildResponse(req: RadiusPacket, accept: bool, vlan: Option<nat>, message: seq<byte>): RadiusPacket {
    RadiusPacket(
      if accept then CODE_ACCESS_ACCEPT else CODE_ACCESS_REJECT,
      req.identifier,
      req.authenticator,
      [Attribute(ATTR_REPLY_MESSAGE, message)] + if accept && vlan.Some? then VlanAttributes(vlan.value) else [])
  }

  function GetAttr(attrs: seq<Attribute>, attrType: byte): Option<seq<byte>> {
    if attrs == [] then None
    else if attrs[0].attrType == attrType then Some(attrs[0].value)
    else GetAttr(attrs[1..], attrType)
  }

  lemma ResponseEncodable(req: RadiusPacket, accept: bool, vlan: Option<nat>, message: seq<byte>)
    requires |message| <= MAX_VALUE && (vlan.Some? ==> vlan.value < 65536)
    ensures Encodable(BuildResponse(req, accept, vlan, message))
  {
    var p := BuildResponse(req, accept, vlan, message);
    var first := [Attribute(ATTR_REPLY_MESSAGE, message)];
    assert AttributesBytes(first) == AttributeBytes(first[0]);
    if accept && vlan.Some? {
      DecimalReads(vlan.value);
      var v := VlanAttributes(vlan.value);
      AttributesBytesConcat(first, v);
      assert v[1..] == [v[1], v[2]] && v[1..][1..] == [v[2]];
      assert AttributesBytes([v[2]]) == AttributeBytes(v[2]);
    } else {
      assert p.attributes == first;
    }
  }

  lemma ResponseAttributes(req: RadiusPacket, accept: bool, vlan: Option<nat>, message: seq<byte>)
    ensures var attrs := BuildResponse(req, accept, vlan, message).attributes;
            && GetAttr(attrs, ATTR_REPLY_MESSAGE) == Some(message)
            && GetAttr(attrs, ATTR_TUNNEL_PRIVATE_GROUP_ID) ==
               if accept && vlan.Some? then Some([0] + Decimal(vlan.value)) else None
  {
    var attrs := BuildResponse(req, accept, vlan, message).attributes;
    if accept && vlan.Some? {
      var v := VlanAttributes(vlan.value);
      assert attrs[1..] == v;
      assert v[1..] == [v[1], v[2]] && v[1..][1..] == [v[2]];
      assert GetAttr(v[1..][1..], ATTR_TUNNEL_PRIVATE_GROUP_ID) == Some(v[2].value);
      assert GetAttr(v, ATTR_TUNNEL_PRIVATE_GROUP_ID) == GetAttr(v[1..], ATTR_TUNNEL_PRIVATE_GROUP_ID);
    } else {
      assert attrs[1..] == [];
    }
  }

  /** The group attribute names the VLAN: a zero tag octet, then its decimal numeral. */
  predicate NamesVlan(value: seq<byte>, vlan: nat) {
    |value| > 1 && value[0] == 0 && IsNumeral(value[1..]) && ReadDecimal(value[1..]) == vlan
  }

  /** For any request, decision, 16-bit VLAN and message of at most 253 octets, the client reads
      back the code, the identifier of its request and the message from an authentic reply. On
      accept with a VLAN, attribute 81 names that VLAN; otherwise there is no such attribute. */
  lemma ReplyReadsBack(req: RadiusPacket, accept: bool, vlan: Option<nat>, message: seq<byte>, secret: seq<byte>,
                       md5: seq<byte> -> Authenticator)
    requires |message| <= MAX_VALUE && (vlan.Some? ==> vlan.value < 65536)
    ensures var reply := Signed(BuildResponse(req, accept, vlan, message), req.authenticator, secret, md5);
            && |reply| >= 20 && Authentic(reply, req.authenticator, secret, md5)
            && Parsed(reply).Ok?
            && var q := Parsed(reply).value;
               && q.code == (if accept then 2 else 3)
               && q.identifier == req.identifier
               && GetAttr(q.attributes, ATTR_REPLY_MESSAGE) == Some(message)
               && var group := GetAttr(q.attributes, ATTR_TUNNEL_PRIVATE_GROUP_ID);
                  && (group.Some? <==> accept && vlan.Some?)
                  && (group.Some? ==> NamesVlan(group.value, vlan.value))
  {
    ResponseEncodable(req, accept, vlan, message);
    ReplyIsAuthentic(BuildResponse(req, accept, vlan, message), req.authenticator, secret, md5);
    ResponseAttributes(req, accept, vlan, message);
    if vlan.Some? {
      DecimalReads(vlan.value);
      assert ([0] + Decimal(vlan.value))[1..] == Decimal(vlan.value);
    }
  }
}
