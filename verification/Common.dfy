/** Types shared by every part of the model. */
module Common {

  datatype Option<+T> = None | Some(value: T) {
    function GetOr(default: T): T {
      match this
      case Some(v) => v
      case None => default
    }
  }

  datatype Result<+T> = Ok(value: T) | Err(message: string)

  type byte = x: int | 0 <= x < 256

  /** A hardware address, as the `macaddr` column stores it. */
  type Mac = m: seq<byte> | |m| == 6 witness [0, 0, 0, 0, 0, 0]

  /** Every index below `n` exactly once: the order in which a loop visits rows. */
  ghost predicate Enumerates(order: seq<nat>, n: nat)
  {
    && (forall i | 0 <= i < |order| :: order[i] < n)
    && (forall k | 0 <= k < n :: k in order)
    && Distinct(order)
  }

  ghost predicate Distinct<T(!new)>(s: seq<T>)
  {
    forall i, j | 0 <= i < j < |s| :: s[i] != s[j]
  }

  lemma Associates<T>(a: seq<T>, b: seq<T>, c: seq<T>)
    ensures a + (b + c) == (a + b) + c
  {
  }

  /** The part of an address before the first '/', as `split('/').next()` gives it. */
  function StripCidr(s: string): (r: string)
    ensures '/' !in r
    ensures r <= s
    ensures |r| == |s| || s[|r|] == '/'
  {
    if s == [] then [] else if s[0] == '/' then [] else [s[0]] + StripCidr(s[1..])
  }

  lemma {:induction false} StripCidrPlain(s: string, tail: string)
    requires '/' !in s
    ensures StripCidr(s + "/" + tail) == s
    ensures StripCidr(s) == s
  {
    if s != [] {
      StripCidrPlain(s[1..], tail);
      assert (s + "/" + tail)[1..] == s[1..] + "/" + tail;
    }
  }
}
