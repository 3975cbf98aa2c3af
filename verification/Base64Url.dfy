/** base64url without padding, against section 5 of RFC 4648. Shifts and masks of octets are
    written as division and remainder; the fields joined by "or" never overlap. */
module Base64Url {
  import opened Common

  type sextet = v: int | 0 <= v < 64

  /** The standard alphabet: upper case, lower case, digits, '+' and '/'. */
  function Symbol(v: sextet): char {
    if v < 26 then (v + 65) as char
    else if v < 52 then (v + 71) as char
    else if v < 62 then (v - 4) as char
    else if v == 62 then '+' else '/'
  }

  /** Anything outside the alphabet reads as zero. */
  function SymbolValue(c: char): sextet {
    if 'A' <= c <= 'Z' then c as int - 65
    else if 'a' <= c <= 'z' then c as int - 71
    else if '0' <= c <= '9' then c as int + 4
    else if c == '+' then 62
    else if c == '/' then 63
    else 0
  }

  lemma SymbolReads(v: sextet)
    ensures SymbolValue(Symbol(v)) == v
    ensures Symbol(v) !in "=-_."
  {
  }

  function Cut3(s: seq<byte>): nat { if |s| < 3 then |s| else 3 }

  /** Four symbols for one to three octets, padded with '='. */
  function Quad(chunk: seq<byte>): (r: string)
    requires 1 <= |chunk| <= 3
    ensures |r| == 4
  {
    var b0 := chunk[0] as int;
    var b1 := if |chunk| > 1 then chunk[1] as int else 0;
    var b2 := if |chunk| > 2 then chunk[2] as int else 0;
    var n := b0 * 65536 + b1 * 256 + b2;
    [Symbol(n / 262144 % 64), Symbol(n / 4096 % 64),
     if |chunk| > 1 then Symbol(n / 64 % 64) else '=',
     if |chunk| > 2 then Symbol(n % 64) else '=']
  }

  function Standard(input: seq<byte>): string {
    if input == [] then "" else Quad(input[..Cut3(input)]) + Standard(input[Cut3(input)..])
  }

  /** '+' and '/' replaced, '=' removed. */
  function UrlSafe(s: string): string {
    if s == "" then ""
    else
      (if s[0] == '=' then "" else if s[0] == '+' then "-" else if s[0] == '/' then "_" else [s[0]]) + UrlSafe(s[1..])
  }

  function Encoded(input: seq<byte>): string { UrlSafe(Standard(input)) }

  function StandardChar(c: char): char { if c == '-' then '+' else if c == '_' then '/' else c }

  function Padding(n: nat): string { if n % 4 == 2 then "==" else if n % 4 == 3 then "=" else "" }

  function Restored(input: string): (r: string) {
    var padded := input + Padding(|input|);
    seq(|padded|, i requires 0 <= i < |padded| => StandardChar(padded[i]))
  }

  /** The octets of four symbols, the shifts dropping high bits; '=' in the last two places leaves out an octet each. */
  function Octets(q: string): (r: seq<byte>)
    requires |q| == 4
  {
    var b0, b1, b2, b3 := SymbolValue(q[0]), SymbolValue(q[1]), SymbolValue(q[2]), SymbolValue(q[3]);
    [b0 as int * 4 + b1 as int / 16]
    + (if q[2] != '=' then [b1 as int % 16 * 16 + b2 as int / 4] else [])
    + (if q[3] != '=' then [b2 as int % 4 * 64 + b3 as int] else [])
  }

  /** Whole groups of four; an incomplete group at the end is dropped. */
  function StandardDecoded(s: string): seq<byte> {
    if |s| < 4 then [] else Octets(s[..4]) + StandardDecoded(s[4..])
  }

  function Decoded(input: string): seq<byte> { StandardDecoded(Restored(input)) }

  method Encode(input: seq<byte>) returns (r: string)
    ensures r == Encoded(input)
  {
    var s := "";
    var rest := input;
    while rest != []
      invariant Standard(input) == s + Standard(rest)
      decreases |rest|
    {
      var quad := Quad(rest[..Cut3(rest)]);
      ghost var tail := Standard(rest[Cut3(rest)..]);
      assert s + (quad + tail) == (s + quad) + tail;
      s := s + quad;
      rest := rest[Cut3(rest)..];
    }
    assert s == Standard(input);
    r := UrlSafe(s);
  }

  method Decode(input: string) returns (result: seq<byte>)
    ensures result == Decoded(input)
  {
    var rest := Restored(input);
    result := [];
    while |rest| >= 4
      invariant Decoded(input) == result + StandardDecoded(rest)
      decreases |rest|
    {
      ghost var tail := StandardDecoded(rest[4..]);
      assert result + (Octets(rest[..4]) + tail) == (result + Octets(rest[..4])) + tail;
      result := result + Octets(rest[..4]);
      rest := rest[4..];
    }
  }

  // ── Round trip ──

  /** The four base-64 digits of a number. */
  lemma Digits(d0: int, d1: int, d2: int, d3: int)
    requires 0 <= d0 < 64 && 0 <= d1 < 64 && 0 <= d2 < 64 && 0 <= d3 < 64
    ensures var n := d0 * 262144 + d1 * 4096 + d2 * 64 + d3;
            n / 262144 % 64 == d0 && n / 4096 % 64 == d1 && n / 64 % 64 == d2 && n % 64 == d3
  {
    var n := d0 * 262144 + d1 * 4096 + d2 * 64 + d3;
    assert n / 64 == d0 * 4096 + d1 * 64 + d2;
    assert n / 4096 == d0 * 64 + d1;
    assert n / 262144 == d0;
  }

  /** The bits of three octets, regrouped by six. */
  lemma Regroup(b0: int, b1: int, b2: int)
    requires 0 <= b0 < 256 && 0 <= b1 < 256 && 0 <= b2 < 256
    ensures var n := b0 * 65536 + b1 * 256 + b2;
            && n / 262144 % 64 == b0 / 4
            && n / 4096 % 64 == b0 % 4 * 16 + b1 / 16
            && n / 64 % 64 == b1 % 16 * 4 + b2 / 64
            && n % 64 == b2 % 64
  {
    Digits(b0 / 4, b0 % 4 * 16 + b1 / 16, b1 % 16 * 4 + b2 / 64, b2 % 64);
  }

  /** Six-bit groups, regrouped by eight. */
  lemma Rejoin(b0: int, b1: int, b2: int)
    requires 0 <= b0 < 256 && 0 <= b1 < 256 && 0 <= b2 < 256
    ensures b0 / 4 * 4 + (b0 % 4 * 16 + b1 / 16) / 16 == b0
    ensures (b0 % 4 * 16 + b1 / 16) % 16 * 16 + (b1 % 16 * 4 + b2 / 64) / 4 == b1
    ensures (b1 % 16 * 4 + b2 / 64) % 4 * 64 + b2 % 64 == b2
  {
    Halves(b0 % 4, b1 / 16, 16);
    Halves(b1 % 16, b2 / 64, 4);
  }

  lemma Halves(high: int, low: int, base: int)
    requires 0 <= high && 0 <= low < base && (base == 16 || base == 4)
    ensures (high * base + low) / base == high && (high * base + low) % base == low
  {
  }

  /** A quad that spells four given groups, the last two only as far as the chunk goes. */
  predicate Spells(q: string, chunk: seq<byte>, d0: int, d1: int, d2: int, d3: int) {
    && |q| == 4 && 0 <= d0 < 64 && 0 <= d1 < 64 && 0 <= d2 < 64 && 0 <= d3 < 64
    && q[0] == Symbol(d0) && q[1] == Symbol(d1)
    && q[2] == (if |chunk| > 1 then Symbol(d2) else '=')
    && q[3] == (if |chunk| > 2 then Symbol(d3) else '=')
  }

  lemma SpelledRead(q: string, chunk: seq<byte>, d0: int, d1: int, d2: int, d3: int)
    requires Spells(q, chunk, d0, d1, d2, d3)
    ensures SymbolValue(q[0]) as int == d0 && SymbolValue(q[1]) as int == d1
    ensures if |chunk| > 1 then q[2] != '=' && SymbolValue(q[2]) as int == d2 else q[2] == '='
    ensures if |chunk| > 2 then q[3] != '=' && SymbolValue(q[3]) as int == d3 else q[3] == '='
  {
    SymbolReads(d0);
    SymbolReads(d1);
    SymbolReads(d2);
    SymbolReads(d3);
  }

  /** The symbols of a quad, by value. */
  lemma QuadSpells(chunk: seq<byte>, b0: int, b1: int, b2: int)
    requires 1 <= |chunk| <= 3
    requires b0 == chunk[0] as int
    requires b1 == if |chunk| > 1 then chunk[1] as int else 0
    requires b2 == if |chunk| > 2 then chunk[2] as int else 0
    ensures Spells(Quad(chunk), chunk, b0 / 4, b0 % 4 * 16 + b1 / 16, b1 % 16 * 4 + b2 / 64, b2 % 64)
  {
    Regroup(b0, b1, b2);
    QuadSpelled(chunk, b0 * 65536 + b1 * 256 + b2);
  }

  lemma QuadSpelled(chunk: seq<byte>, n: int)
    requires 1 <= |chunk| <= 3
    requires n == (chunk[0] as int) * 65536 + (if |chunk| > 1 then chunk[1] as int else 0) * 256
                  + (if |chunk| > 2 then chunk[2] as int else 0)
    ensures Spells(Quad(chunk), chunk, n / 262144 % 64, n / 4096 % 64, n / 64 % 64, n % 64)
  {
  }

  lemma OctetsOfQuad(chunk: seq<byte>)
    requires 1 <= |chunk| <= 3
    ensures Octets(Quad(chunk)) == chunk
  {
    var b0 := chunk[0] as int;
    var b1 := if |chunk| > 1 then chunk[1] as int else 0;
    var b2 := if |chunk| > 2 then chunk[2] as int else 0;
    QuadSpells(chunk, b0, b1, b2);
    SpelledRead(Quad(chunk), chunk, b0 / 4, b0 % 4 * 16 + b1 / 16, b1 % 16 * 4 + b2 / 64, b2 % 64);
    OctetsByValue(Quad(chunk), chunk, b0, b1, b2);
  }

  lemma OctetsByValue(q: string, chunk: seq<byte>, b0: int, b1: int, b2: int)
    requires |q| == 4 && 1 <= |chunk| <= 3
    requires b0 == chunk[0] as int
    requires b1 == if |chunk| > 1 then chunk[1] as int else 0
    requires b2 == if |chunk| > 2 then chunk[2] as int else 0
    requires SymbolValue(q[0]) as int == b0 / 4
    requires SymbolValue(q[1]) as int == b0 % 4 * 16 + b1 / 16
    requires if |chunk| > 1 then q[2] != '=' && SymbolValue(q[2]) as int == b1 % 16 * 4 + b2 / 64 else q[2] == '='
    requires if |chunk| > 2 then q[3] != '=' && SymbolValue(q[3]) as int == b2 % 64 else q[3] == '='
    ensures Octets(q) == chunk
  {
    Rejoin(b0, b1, b2);
  }

  lemma DecodedGroup(q: string, tail: string)
    requires |q| == 4
    ensures StandardDecoded(q + tail) == Octets(q) + StandardDecoded(tail)
  {
    assert (q + tail)[..4] == q && (q + tail)[4..] == tail;
  }

  lemma {:induction false} DecodedStandard(x: seq<byte>)
    ensures StandardDecoded(Standard(x)) == x
    decreases |x|
  {
    if x != [] {
      var n := Cut3(x);
      DecodedGroup(Quad(x[..n]), Standard(x[n..]));
      OctetsOfQuad(x[..n]);
      DecodedStandard(x[n..]);
      assert x == x[..n] + x[n..];
    }
  }

  lemma {:induction false} UrlSafeConcat(a: string, b: string)
    ensures UrlSafe(a + b) == UrlSafe(a) + UrlSafe(b)
  {
    if a == "" {
      assert a + b == b;
    } else {
      assert (a + b)[1..] == a[1..] + b;
      UrlSafeConcat(a[1..], b);
    }
  }

  lemma {:induction false} UrlSafeOfSymbols(s: string)
    requires forall i | 0 <= i < |s| :: s[i] !in "=-_"
    ensures |UrlSafe(s)| == |s|
    ensures forall i | 0 <= i < |s| :: StandardChar(UrlSafe(s)[i]) == s[i]
  {
    if s != "" {
      UrlSafeOfSymbols(s[1..]);
    }
  }

  lemma QuadSymbols(chunk: seq<byte>)
    requires 1 <= |chunk| <= 3
    ensures forall i | 0 <= i <= |chunk| :: Quad(chunk)[i] !in "=-_."
    ensures forall i | |chunk| < i < 4 :: Quad(chunk)[i] == '='
  {
    var b0 := chunk[0] as int;
    var b1 := if |chunk| > 1 then chunk[1] as int else 0;
    var b2 := if |chunk| > 2 then chunk[2] as int else 0;
    var n := b0 * 65536 + b1 * 256 + b2;
    SymbolReads(n / 262144 % 64);
    SymbolReads(n / 4096 % 64);
    SymbolReads(n / 64 % 64);
    SymbolReads(n % 64);
  }

  lemma UrlSafeOfQuad(chunk: seq<byte>)
    requires 1 <= |chunk| <= 3
    ensures |UrlSafe(Quad(chunk))| == |chunk| + 1
    ensures forall i | 0 <= i <= |chunk| :: StandardChar(UrlSafe(Quad(chunk))[i]) == Quad(chunk)[i]
  {
    QuadSymbols(chunk);
    var q := Quad(chunk);
    var head, pad := q[..|chunk| + 1], q[|chunk| + 1..];
    assert q == head + pad;
    UrlSafeConcat(head, pad);
    UrlSafeOfSymbols(head);
    OnlyPadding(pad);
  }

  lemma {:induction false} OnlyPadding(pad: string)
    requires forall i | 0 <= i < |pad| :: pad[i] == '='
    ensures UrlSafe(pad) == ""
  {
    if pad != "" {
      OnlyPadding(pad[1..]);
    }
  }

  /** A whole group in front leaves the padding of the rest unchanged. */
  lemma RestoredGroup(q: string, u: string, v: string)
    requires |u| == 4 && |q| == 4
    requires forall i | 0 <= i < 4 :: StandardChar(u[i]) == q[i]
    ensures Restored(u + v) == q + Restored(v)
  {
    var pad := Padding(|v|);
    assert Padding(|u + v|) == pad;
    assert (u + v) + pad == u + (v + pad);
  }

  /** Padding restored by length gives back the padded standard form. */
  lemma {:induction false} RestoredEncoded(x: seq<byte>)
    ensures Restored(Encoded(x)) == Standard(x)
    decreases |x|
  {
    if x != [] {
      var n := Cut3(x);
      var q, tail := Quad(x[..n]), Standard(x[n..]);
      UrlSafeConcat(q, tail);
      if n < 3 {
        assert x[..n] == x && tail == "" && q + tail == q;
        LastGroup(x, q);
      } else {
        UrlSafeOfQuad(x[..n]);
        RestoredEncoded(x[n..]);
        RestoredGroup(q, UrlSafe(q), UrlSafe(tail));
      }
    }
  }

  lemma LastGroup(x: seq<byte>, q: string)
    requires 1 <= |x| < 3 && q == Quad(x)
    ensures Restored(UrlSafe(q)) == q
  {
    UrlSafeOfQuad(x);
    QuadSymbols(x);
    var u := UrlSafe(q);
    var r := Restored(u);
    assert |r| == 4;
    assert forall i | 0 <= i < 4 :: r[i] == q[i];
  }

  /** Decoding undoes encoding, for every octet string. */
  lemma DecodeEncode(x: seq<byte>)
    ensures Decoded(Encoded(x)) == x
  {
    RestoredEncoded(x);
    DecodedStandard(x);
  }

  predicate UrlAlphabet(c: char) {
    'A' <= c <= 'Z' || 'a' <= c <= 'z' || '0' <= c <= '9' || c == '-' || c == '_'
  }

  lemma {:induction false} UrlSafeAlphabet(s: string)
    requires forall i | 0 <= i < |s| :: UrlAlphabet(s[i]) || s[i] in "+/="
    ensures forall c | c in UrlSafe(s) :: UrlAlphabet(c)
  {
    if s != "" {
      UrlSafeAlphabet(s[1..]);
    }
  }

  lemma {:induction false} StandardAlphabet(x: seq<byte>)
    ensures forall i | 0 <= i < |Standard(x)| :: UrlAlphabet(Standard(x)[i]) || Standard(x)[i] in "+/="
    decreases |x|
  {
    if x != [] {
      var n := Cut3(x);
      StandardAlphabet(x[n..]);
      assert forall v: sextet :: UrlAlphabet(Symbol(v)) || Symbol(v) in "+/=";
    }
  }

  /** The output uses the URL-safe alphabet only: no padding, no '.', '+' or '/'; its length is
      the least that holds the bits. */
  lemma EncodedAlphabet(x: seq<byte>)
    ensures forall c | c in Encoded(x) :: UrlAlphabet(c)
    ensures '.' !in Encoded(x) && '=' !in Encoded(x) && '+' !in Encoded(x) && '/' !in Encoded(x)
    ensures |Encoded(x)| == (8 * |x| + 5) / 6
  {
    StandardAlphabet(x);
    UrlSafeAlphabet(Standard(x));
    EncodedLength(x);
  }

  lemma {:induction false} EncodedLength(x: seq<byte>)
    ensures |Encoded(x)| == (8 * |x| + 5) / 6
    decreases |x|
  {
    if x != [] {
      var n := Cut3(x);
      UrlSafeConcat(Quad(x[..n]), Standard(x[n..]));
      UrlSafeOfQuad(x[..n]);
      EncodedLength(x[n..]);
    }
  }
}
