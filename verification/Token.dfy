/** Session tokens in the compact form of section 7.1 of RFC 7515, for any signing function and
    any claims codec. */
module Token {
  import opened Common
  import opened Base64Url

  datatype Claims = Claims(sub: string, exp: nat)

  const LIFETIME := 86400

  /** The environment of both functions: what signs a message, and how claims become octets. */
  datatype Codec = Codec(
    sign: (seq<byte>, string) -> seq<byte>,
    toJson: Claims -> seq<byte>,
    fromJson: seq<byte> -> Option<Claims>,
    headerOctets: seq<byte>)

  function CreateToken(secret: seq<byte>, username: string, now: nat, k: Codec): string {
    var header := Encoded(k.headerOctets);
    var payload := Encoded(k.toJson(Claims(username, now + LIFETIME)));
    var message := header + "." + payload;
    message + "." + Encoded(k.sign(secret, message))
  }

  /** Position of the first dot, or the length. */
  function DotAt(s: string): (i: nat)
    ensures i <= |s| && (i < |s| ==> s[i] == '.') && '.' !in s[..i]
  {
    if s == "" then 0
    else if s[0] == '.' then 0
    else
      var i := DotAt(s[1..]);
      assert s[..1 + i] == [s[0]] + s[1..][..i];
      1 + i
  }

  /** At most three parts; the third keeps any further dots. */
  function SplitThree(s: string): Option<(string, string, string)> {
    var i := DotAt(s);
    if i == |s| then None
    else
      var rest := s[i + 1..];
      var j := DotAt(rest);
      if j == |rest| then None else Some((s[..i], rest[..j], rest[j + 1..]))
  }

  function VerifyToken(secret: seq<byte>, token: string, now: nat, k: Codec): Result<string> {
    match SplitThree(token)
    case None => Err("invalid token format")
    case Some((first, second, third)) =>
      var message := first + "." + second;
      if k.sign(secret, message) != Decoded(third) then Err("invalid token signature")
      else match k.fromJson(Decoded(second))
        case None => Err("claims")
        case Some(claims) => if claims.exp < now then Err("token expired") else Ok(claims.sub)
  }

  lemma DotAtSkips(a: string, b: string)
    requires '.' !in a
    ensures DotAt(a + "." + b) == |a|
    decreases |a|
  {
    if a != "" {
      assert (a + "." + b)[1..] == a[1..] + "." + b;
      DotAtSkips(a[1..], b);
    }
  }

  lemma SplitJoined(a: string, b: string, c: string)
    requires '.' !in a && '.' !in b
    ensures SplitThree(a + "." + b + "." + c) == Some((a, b, c))
  {
    var s := a + "." + b + "." + c;
    var rest := b + "." + c;
    assert s == a + "." + rest;
    DotAtSkips(a, rest);
    assert s[..|a|] == a && s[|a| + 1..] == rest;
    DotAtSkips(b, c);
    assert rest[..|b|] == b && rest[|b| + 1..] == c;
  }

  /** A token checked under any secret: it is refused for its signature exactly when that secret
      signs its message differently; otherwise it yields the user name until it expires. */
  lemma TokenVerifies(secret: seq<byte>, other: seq<byte>, username: string, issued: nat, now: nat, k: Codec)
    requires k.fromJson(k.toJson(Claims(username, issued + LIFETIME))) == Some(Claims(username, issued + LIFETIME))
    ensures var token := CreateToken(secret, username, issued, k);
            && VerifyToken(secret, token, now, k) ==
               (if now <= issued + LIFETIME then Ok(username) else Err("token expired"))
            && var message := Encoded(k.headerOctets) + "." + Encoded(k.toJson(Claims(username, issued + LIFETIME)));
               && (k.sign(other, message) == k.sign(secret, message) ==>
                    VerifyToken(other, token, now, k) == VerifyToken(secret, token, now, k))
               && (k.sign(other, message) != k.sign(secret, message) ==>
                    VerifyToken(other, token, now, k) == Err("invalid token signature"))
  {
    var json := k.toJson(Claims(username, issued + LIFETIME));
    var header, payload := Encoded(k.headerOctets), Encoded(json);
    var message := header + "." + payload;
    var signature := k.sign(secret, message);
    EncodedAlphabet(k.headerOctets);
    EncodedAlphabet(json);
    SplitJoined(header, payload, Encoded(signature));
    DecodeEncode(json);
    DecodeEncode(signature);
  }
}
