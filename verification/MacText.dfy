/** The text forms of a hardware address: what the database prints, what the two
    firewall back ends write into their rules, and what the parsers accept. */
module MacText {
  import opened Common

  function LowerChar(c: char): char {
    if 'A' <= c <= 'Z' then (c as int + 32) as char else c
  }

  function UpperChar(c: char): char {
    if 'a' <= c <= 'z' then (c as int - 32) as char else c
  }

  /** ASCII lower case; every text in this model that is folded is ASCII. */
  function ToLower(s: string): (r: string)
    ensures |r| == |s|
  {
    seq(|s|, i requires 0 <= i < |s| => LowerChar(s[i]))
  }

  function ToUpper(s: string): (r: string)
    ensures |r| == |s|
  {
    seq(|s|, i requires 0 <= i < |s| => UpperChar(s[i]))
  }

  predicate IsHexDigit(c: char) {
    '0' <= c <= '9' || 'a' <= c <= 'f' || 'A' <= c <= 'F'
  }

  function HexDigits(s: string): (r: string)
    ensures forall c | c in r :: IsHexDigit(c)
  {
    if s == [] then []
    else if IsHexDigit(s[0]) then [s[0]] + HexDigits(s[1..])
    else HexDigits(s[1..])
  }

  function HexValue(c: char): (v: nat)
    requires IsHexDigit(c)
    ensures v < 16
  {
    if c <= '9' then c as int - 48
    else if c <= 'F' then c as int - 55
    else c as int - 87
  }

  function HexChar(v: nat): char
    requires v < 16
  {
    if v < 10 then (v + 48) as char else (v + 87) as char
  }

  function HexPair(b: byte): (r: string)
    ensures |r| == 2 && IsHexDigit(r[0]) && IsHexDigit(r[1])
  {
    [HexChar(b / 16), HexChar(b % 16)]
  }

  function Colons(m: seq<byte>): string {
    if m == [] then "" else if |m| == 1 then HexPair(m[0])
    else HexPair(m[0]) + ":" + Colons(m[1..])
  }

  /** `mac_address::text`: six lower-case pairs separated by colons. */
  function Text(m: Mac): string { Colons(m) }

  function JoinPairs(clean: string): string {
    if |clean| <= 2 then clean else clean[..2] + ":" + JoinPairs(clean[2..])
  }

  /** The name of a device in the nft sets. */
  function NftMac(mac: string): string {
    var clean := HexDigits(mac);
    if |clean| == 12 then JoinPairs(ToLower(clean)) else ToLower(mac)
  }

  /** The name of a device in the iptables-legacy rules. */
  function IptMac(mac: string): string {
    var clean := HexDigits(mac);
    if |clean| == 12 then JoinPairs(ToUpper(clean)) else ToUpper(mac)
  }

  /** The RADIUS server's form of a station identifier. */
  function NormalizeMac(raw: string): Option<string> {
    var hex := ToLower(HexDigits(raw));
    if |hex| == 12 then Some(JoinPairs(hex)) else None
  }

  function PairValues(clean: string): (r: seq<byte>)
    requires forall c | c in clean :: IsHexDigit(c)
    ensures |r| == |clean| / 2
    ensures forall i | 0 <= i < |r| :: r[i] == 16 * HexValue(clean[2 * i]) + HexValue(clean[2 * i + 1])
  {
    if |clean| < 2 then []
    else [16 * HexValue(clean[0]) + HexValue(clean[1])] + PairValues(clean[2..])
  }

  function ParsedMac(mac: string): Option<Mac> {
    var clean := HexDigits(mac);
    if |clean| != 12 then None else Some(PairValues(clean))
  }

  method ParseMac(mac: string) returns (r: Option<Mac>)
    ensures r == ParsedMac(mac)
  {
    var clean := HexDigits(mac);
    if |clean| != 12 {
      return None;
    }
    var bytes: seq<byte> := [];
    for i := 0 to 6
      invariant |bytes| == i
      invariant forall k | 0 <= k < i :: bytes[k] == 16 * HexValue(clean[2 * k]) + HexValue(clean[2 * k + 1])
    {
      bytes := bytes + [16 * HexValue(clean[2 * i]) + HexValue(clean[2 * i + 1])];
    }
    assert bytes == PairValues(clean);
    return Some(bytes);
  }

  lemma {:induction false} HexDigitsConcat(a: string, b: string)
    ensures HexDigits(a + b) == HexDigits(a) + HexDigits(b)
  {
    if a == [] {
      assert a + b == b;
    } else {
      assert (a + b)[1..] == a[1..] + b;
      HexDigitsConcat(a[1..], b);
    }
  }

  function Flat(m: seq<byte>): (r: string)
    ensures |r| == 2 * |m|
    ensures forall c | c in r :: IsHexDigit(c)
  {
    if m == [] then "" else HexPair(m[0]) + Flat(m[1..])
  }

  lemma {:induction false} HexDigitsOfColons(m: seq<byte>)
    ensures HexDigits(Colons(m)) == Flat(m)
  {
    if |m| == 1 {
      assert m[1..] == [];
      assert Flat(m) == HexPair(m[0]);
      HexDigitsOfPair(m[0]);
    } else if |m| > 1 {
      HexDigitsOfPair(m[0]);
      HexDigitsOfColons(m[1..]);
      HexDigitsConcat(HexPair(m[0]) + ":", Colons(m[1..]));
      HexDigitsConcat(HexPair(m[0]), ":");
      assert HexDigits(":") == "";
    }
  }

  lemma HexDigitsOfPair(b: byte)
    ensures HexDigits(HexPair(b)) == HexPair(b)
  {
    var p := HexPair(b);
    assert p[1..][1..] == [];
    assert HexDigits(p[1..]) == [p[1]];
  }

  lemma HexCharOfValue(c: char)
    requires IsHexDigit(c)
    ensures HexChar(HexValue(c)) == LowerChar(c)
    ensures LowerChar(LowerChar(c)) == LowerChar(c)
  {
  }

  lemma {:induction false} PairValuesOfFlat(m: seq<byte>)
    ensures PairValues(Flat(m)) == m
  {
    if m != [] {
      var f := Flat(m);
      assert f[2..] == Flat(m[1..]);
      PairValuesOfFlat(m[1..]);
      assert HexValue(HexChar(m[0] / 16)) == m[0] / 16;
      assert HexValue(HexChar(m[0] % 16)) == m[0] % 16;
      assert f[0] == HexChar(m[0] / 16) && f[1] == HexChar(m[0] % 16);
      assert PairValues(f) == [m[0]] + PairValues(f[2..]);
    }
  }

  lemma PairOfLower(c: char, d: char)
    requires IsHexDigit(c) && IsHexDigit(d)
    ensures HexPair(16 * HexValue(c) + HexValue(d)) == [LowerChar(c), LowerChar(d)]
  {
    HexCharOfValue(c);
    HexCharOfValue(d);
    assert (16 * HexValue(c) + HexValue(d)) / 16 == HexValue(c);
  }

  lemma LowerHead(s: string)
    requires |s| >= 2
    ensures ToLower(s) == [LowerChar(s[0]), LowerChar(s[1])] + ToLower(s[2..])
  {
  }

  lemma JoinPairsHead(pair: string, rest: string)
    requires |pair| == 2
    ensures JoinPairs(pair + rest) == if rest == "" then pair else pair + ":" + JoinPairs(rest)
  {
    assert (pair + rest)[..2] == pair && (pair + rest)[2..] == rest;
    assert rest == "" ==> pair + rest == pair;
  }

  lemma ColonsHead(b: byte, rest: seq<byte>)
    ensures Colons([b] + rest) == if rest == [] then HexPair(b) else HexPair(b) + ":" + Colons(rest)
  {
    assert ([b] + rest)[1..] == rest;
  }

  lemma {:induction false} JoinPairsOfLower(clean: string)
    requires |clean| % 2 == 0
    requires forall c | c in clean :: IsHexDigit(c)
    ensures JoinPairs(ToLower(clean)) == Colons(PairValues(clean))
  {
    if clean != "" {
      var pair, rest := [LowerChar(clean[0]), LowerChar(clean[1])], clean[2..];
      PairOfLower(clean[0], clean[1]);
      LowerHead(clean);
      JoinPairsOfLower(rest);
      JoinStep(pair, ToLower(rest), 16 * HexValue(clean[0]) + HexValue(clean[1]), PairValues(rest));
    }
  }

  lemma JoinStep(pair: string, low: string, value: byte, values: seq<byte>)
    requires HexPair(value) == pair
    requires JoinPairs(low) == Colons(values) && (low == "" <==> values == [])
    ensures JoinPairs(pair + low) == Colons([value] + values)
  {
    JoinPairsHead(pair, low);
    ColonsHead(value, values);
  }

  /** All readers of a device name agree: the RADIUS form exists exactly when enforcement can
      parse the name, and then both it and the nft name are the database text of that address. */
  lemma ReadersAgree(s: string)
    ensures NormalizeMac(s).Some? <==> ParsedMac(s).Some?
    ensures ParsedMac(s).Some? ==>
              && NormalizeMac(s) == Some(Text(ParsedMac(s).value))
              && NftMac(s) == Text(ParsedMac(s).value)
  {
    var clean := HexDigits(s);
    if |clean| == 12 {
      JoinPairsOfLower(clean);
    }
  }

  /** The database text is a fixed point of every reader and names one device only. */
  lemma TextIsCanonical(m: Mac)
    ensures ParsedMac(Text(m)) == Some(m)
    ensures NftMac(Text(m)) == Text(m)
    ensures ToLower(Text(m)) == Text(m)
    ensures NormalizeMac(Text(m)) == Some(Text(m))
    ensures IsDevice(Text(m))
  {
    HexDigitsOfColons(m);
    PairValuesOfFlat(m);
    ReadersAgree(Text(m));
    LowerColons(m);
  }

  /** The text is what the database prints for some address. */
  predicate IsDevice(s: string) {
    ParsedMac(s).Some? && Text(ParsedMac(s).value) == s
  }

  lemma TextInjective(m: Mac, n: Mac)
    ensures Text(m) == Text(n) ==> m == n
  {
    TextIsCanonical(m);
    TextIsCanonical(n);
  }

  lemma {:induction false} LowerColons(m: seq<byte>)
    ensures ToLower(Colons(m)) == Colons(m)
  {
    if |m| > 1 {
      LowerColons(m[1..]);
      var p := HexPair(m[0]) + ":";
      assert Colons(m) == p + Colons(m[1..]);
      forall i | 0 <= i < |Colons(m)|
        ensures LowerChar(Colons(m)[i]) == Colons(m)[i]
      {
        if i >= 3 {
          assert Colons(m)[i] == Colons(m[1..])[i - 3] == ToLower(Colons(m[1..]))[i - 3];
        }
      }
    }
  }

  /** The iptables-legacy name also tells devices apart. */
  lemma IptMacInjective(m: Mac, n: Mac)
    ensures IptMac(Text(m)) == IptMac(Text(n)) ==> m == n
  {
    IptMacRead(m);
    IptMacRead(n);
    JoinPairsInjective(ToUpper(Flat(m)), ToUpper(Flat(n)));
  }

  lemma PairValuesOfUpper(s: string)
    requires forall c | c in s :: IsHexDigit(c)
    ensures forall c | c in ToUpper(s) :: IsHexDigit(c)
    ensures PairValues(ToUpper(s)) == PairValues(s)
  {
    var u := ToUpper(s);
    forall i | 0 <= i < |s|
      ensures IsHexDigit(u[i]) && HexValue(u[i]) == HexValue(s[i])
    {
      assert s[i] in s;
    }
    var a, b := PairValues(u), PairValues(s);
    forall k | 0 <= k < |b|
      ensures a[k] == b[k]
    {
      assert u[2 * k] == UpperChar(s[2 * k]) && u[2 * k + 1] == UpperChar(s[2 * k + 1]);
    }
    assert a == b;
  }

  lemma IptMacRead(m: Mac)
    ensures IptMac(Text(m)) == JoinPairs(ToUpper(Flat(m)))
    ensures forall c | c in ToUpper(Flat(m)) :: IsHexDigit(c)
    ensures PairValues(ToUpper(Flat(m))) == m
  {
    HexDigitsOfColons(m);
    PairValuesOfFlat(m);
    PairValuesOfUpper(Flat(m));
  }

  lemma {:induction false} JoinPairsInjective(a: string, b: string)
    requires |a| == |b|
    ensures JoinPairs(a) == JoinPairs(b) ==> a == b
  {
    if |a| > 2 && JoinPairs(a) == JoinPairs(b) {
      var ja, jb := JoinPairs(a), JoinPairs(b);
      assert ja[..2] == a[..2] && ja[3..] == JoinPairs(a[2..]);
      assert jb[..2] == b[..2] && jb[3..] == JoinPairs(b[2..]);
      JoinPairsInjective(a[2..], b[2..]);
      assert a == a[..2] + a[2..] && b == b[..2] + b[2..];
    }
  }
}
