/** Password hiding of section 5.2 of RFC 2865, and the server's recovery of the password. */
module Pap {
  import opened Common
  import opened Radius

  const BLOCK := 16

  function Pow2(n: nat): nat { if n == 0 then 1 else 2 * Pow2(n - 1) }

  /** Bitwise exclusive or of the low `n` bits. */
  function XorBits(a: nat, b: nat, n: nat): (r: nat)
    ensures r < Pow2(n)
  {
    if n == 0 then 0 else (a + b) % 2 + 2 * XorBits(a / 2, b / 2, n - 1)
  }

  lemma Halves(bit: nat, high: nat)
    requires bit < 2
    ensures (bit + 2 * high) / 2 == high && (bit + 2 * high) % 2 == bit
  {
  }

  lemma ParityTwice(a: nat, b: nat, high: nat)
    ensures ((a + b) % 2 + 2 * high + b) % 2 == a % 2
  {
  }

  lemma {:induction false} XorBitsTwice(a: nat, b: nat, n: nat)
    requires a < Pow2(n)
    ensures XorBits(XorBits(a, b, n), b, n) == a
  {
    if n > 0 {
      var high := XorBits(a / 2, b / 2, n - 1);
      XorBitsTwice(a / 2, b / 2, n - 1);
      Halves((a + b) % 2, high);
      ParityTwice(a, b, high);
    }
  }

  function Xor(a: byte, b: byte): byte {
    assert Pow2(8) == 256;
    XorBits(a, b, 8)
  }

  lemma XorTwice(a: byte, b: byte)
    ensures Xor(Xor(a, b), b) == a
  {
    assert Pow2(8) == 256;
    XorBitsTwice(a, b, 8);
  }

  /** A block under a hash, cut to the block's length. */
  function XorBlock(block: seq<byte>, hash: Authenticator): (r: seq<byte>)
    requires |block| <= BLOCK
    ensures |r| == |block|
  {
    seq(|block|, i requires 0 <= i < |block| => Xor(block[i], hash[i]))
  }

  lemma XorBlockTwice(block: seq<byte>, hash: Authenticator)
    requires |block| <= BLOCK
    ensures XorBlock(XorBlock(block, hash), hash) == block
  {
    forall i | 0 <= i < |block| {
      XorTwice(block[i], hash[i]);
    }
  }

  function Cut(s: seq<byte>): nat { if |s| < BLOCK then |s| else BLOCK }

  /** The blocks of a password, each under the hash of the secret and the previous hidden block. */
  function Hidden(p: seq<byte>, prev: seq<byte>, secret: seq<byte>, md5: seq<byte> -> Authenticator): seq<byte>
    decreases |p|
  {
    if p == [] then []
    else
      var c := XorBlock(p[..Cut(p)], md5(secret + prev));
      c + Hidden(p[Cut(p)..], c, secret, md5)
  }

  /** Padded with zero octets to a multiple of sixteen. */
  function Padded(p: seq<byte>): (r: seq<byte>)
    ensures |r| % BLOCK == 0
    ensures p <= r && forall i | |p| <= i < |r| :: r[i] == 0
    decreases (BLOCK - |p| % BLOCK) % BLOCK
  {
    if |p| % BLOCK == 0 then p else Padded(p + [0])
  }

  /** What a client sends for a password. */
  function HidePassword(p: seq<byte>, secret: seq<byte>, requestAuth: Authenticator,
                        md5: seq<byte> -> Authenticator): seq<byte> {
    Hidden(Padded(p), requestAuth, secret, md5)
  }

  function Unhidden(c: seq<byte>, prev: seq<byte>, secret: seq<byte>, md5: seq<byte> -> Authenticator): seq<byte>
    decreases |c|
  {
    if c == [] then []
    else
      var block := c[..Cut(c)];
      XorBlock(block, md5(secret + prev)) + Unhidden(c[Cut(c)..], block, secret, md5)
  }

  function StripZeros(s: seq<byte>): (r: seq<byte>)
    ensures r <= s
    ensures r != [] ==> r[|r| - 1] != 0
    ensures forall i | |r| <= i < |s| :: s[i] == 0
  {
    if s != [] && s[|s| - 1] == 0 then StripZeros(s[..|s| - 1]) else s
  }

  function Recovered(c: seq<byte>, secret: seq<byte>, requestAuth: Authenticator,
                     md5: seq<byte> -> Authenticator): seq<byte> {
    StripZeros(Unhidden(c, requestAuth, secret, md5))
  }

  method DecryptBlocks(encrypted: seq<byte>, secret: seq<byte>, requestAuth: Authenticator,
                       md5: seq<byte> -> Authenticator)
    returns (result: seq<byte>)
    ensures result == Unhidden(encrypted, requestAuth, secret, md5)
  {
    result := [];
    var prev: seq<byte> := requestAuth;
    var rest := encrypted;
    while rest != []
      invariant Unhidden(encrypted, requestAuth, secret, md5) == result + Unhidden(rest, prev, secret, md5)
      decreases |rest|
    {
      var chunk := rest[..Cut(rest)];
      var hash := md5(secret + prev);
      var decrypted := XorBlock(chunk, hash);
      ghost var tail := Unhidden(rest[Cut(rest)..], chunk, secret, md5);
      assert Unhidden(rest, prev, secret, md5) == decrypted + tail;
      assert result + (decrypted + tail) == (result + decrypted) + tail;
      prev := chunk;
      rest := rest[Cut(rest)..];
      result := result + decrypted;
    }
  }

  method DecryptPapPassword(encrypted: seq<byte>, secret: seq<byte>, requestAuth: Authenticator,
                            md5: seq<byte> -> Authenticator)
    returns (result: seq<byte>)
    ensures result == Recovered(encrypted, secret, requestAuth, md5)
  {
    result := DecryptBlocks(encrypted, secret, requestAuth, md5);
    ghost var plain := result;
    while result != [] && result[|result| - 1] == 0
      invariant StripZeros(result) == StripZeros(plain)
      decreases |result|
    {
      result := result[..|result| - 1];
    }
  }

  lemma {:induction false} UnhiddenOfHidden(p: seq<byte>, prev: seq<byte>, secret: seq<byte>,
                                            md5: seq<byte> -> Authenticator)
    ensures |Hidden(p, prev, secret, md5)| == |p|
    ensures Unhidden(Hidden(p, prev, secret, md5), prev, secret, md5) == p
    decreases |p|
  {
    if p != [] {
      var n := Cut(p);
      var hash := md5(secret + prev);
      var c := XorBlock(p[..n], hash);
      var tail := Hidden(p[n..], c, secret, md5);
      UnhiddenOfHidden(p[n..], c, secret, md5);
      XorBlockTwice(p[..n], hash);
      var all := c + tail;
      assert Cut(all) == n && all[..n] == c && all[n..] == tail;
      assert p == p[..n] + p[n..];
    }
  }

  lemma {:induction false} StripZerosUnique(s: seq<byte>, p: seq<byte>)
    requires p <= s && forall i | |p| <= i < |s| :: s[i] == 0
    ensures StripZeros(s) == StripZeros(p)
    decreases |s|
  {
    if |p| < |s| {
      StripZerosUnique(s[..|s| - 1], p);
    } else {
      assert s == p;
    }
  }

  /** For every 16-octet hash function, secret and request authenticator, and a password of any
      length, the server recovers the password without its trailing zero octets; it recovers the
      password itself exactly when it does not end in a zero octet. */
  lemma PasswordRecovered(p: seq<byte>, secret: seq<byte>, requestAuth: Authenticator, md5: seq<byte> -> Authenticator)
    ensures Recovered(HidePassword(p, secret, requestAuth, md5), secret, requestAuth, md5) == StripZeros(p)
    ensures Recovered(HidePassword(p, secret, requestAuth, md5), secret, requestAuth, md5) == p <==>
              (p == [] || p[|p| - 1] != 0)
    ensures |HidePassword(p, secret, requestAuth, md5)| % BLOCK == 0
  {
    UnhiddenOfHidden(Padded(p), requestAuth, secret, md5);
    StripZerosUnique(Padded(p), p);
  }
}
