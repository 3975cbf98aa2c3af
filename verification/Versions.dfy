/** The comparison of dotted version strings used by the version conditions. */
module Versions {
  import opened Common

  datatype Ordering = Less | Equal | Greater

  const U64_LIMIT: nat := 0x1_0000_0000_0000_0000

  predicate IsDigit(c: char) { '0' <= c <= '9' }

  function SplitDots(s: string): (r: seq<string>)
    ensures |r| >= 1
  {
    if s == "" then [""]
    else if s[0] == '.' then [""] + SplitDots(s[1..])
    else var r := SplitDots(s[1..]); [[s[0]] + r[0]] + r[1..]
  }

  function DecimalValue(s: string): nat
    requires forall c | c in s :: IsDigit(c)
  {
    if s == "" then 0
    else
      assert IsDigit(s[|s| - 1]);
      10 * DecimalValue(s[..|s| - 1]) + (s[|s| - 1] as int - '0' as int)
  }

  /** Parsing one component as an unsigned 64-bit number: an optional plus sign, then at
      least one digit, and no overflow. */
  function ParseU64(s: string): Option<nat> {
    var digits := if |s| > 1 && s[0] == '+' then s[1..] else s;
    if digits == "" || exists c | c in digits :: !IsDigit(c) then None
    else if DecimalValue(digits) < U64_LIMIT then Some(DecimalValue(digits))
    else None
  }

  function ParsedParts(parts: seq<string>): seq<nat> {
    if parts == [] then []
    else match ParseU64(parts[0])
      case Some(n) => [n] + ParsedParts(parts[1..])
      case None => ParsedParts(parts[1..])
  }

  function Components(s: string): seq<nat> { ParsedParts(SplitDots(s)) }

  /** Component `i`, with zeros past the end. */
  function At(v: seq<nat>, i: nat): nat { if i < |v| then v[i] else 0 }

  function Longer(va: seq<nat>, vb: seq<nat>): nat { if |va| < |vb| then |vb| else |va| }

  function CompareNat(x: nat, y: nat): Ordering {
    if x < y then Less else if x > y then Greater else Equal
  }

  function CompareFrom(va: seq<nat>, vb: seq<nat>, i: nat): Ordering
    requires i <= Longer(va, vb)
    decreases Longer(va, vb) - i
  {
    if i == Longer(va, vb) then Equal
    else if At(va, i) == At(vb, i) then CompareFrom(va, vb, i + 1)
    else CompareNat(At(va, i), At(vb, i))
  }

  function Compare(a: string, b: string): Ordering {
    CompareFrom(Components(a), Components(b), 0)
  }

  method CompareOsVersion(a: string, b: string) returns (r: Ordering)
    ensures r == Compare(a, b)
  {
    var va := Components(a);
    var vb := Components(b);
    var len := Longer(va, vb);
    for i := 0 to len
      invariant CompareFrom(va, vb, 0) == CompareFrom(va, vb, i)
    {
      var x := At(va, i);
      var y := At(vb, i);
      match CompareNat(x, y) {
        case Equal =>
        case other => return other;
      }
    }
    return Equal;
  }

  /** `i` is the first place where the zero-extended component lists differ. */
  ghost predicate FirstDifference(va: seq<nat>, vb: seq<nat>, i: nat)
  {
    At(va, i) != At(vb, i) && forall j: nat | j < i :: At(va, j) == At(vb, j)
  }

  lemma {:induction false} CompareFromMeaning(va: seq<nat>, vb: seq<nat>, i: nat) returns (d: nat)
    requires i <= Longer(va, vb)
    requires forall j: nat | j < i :: At(va, j) == At(vb, j)
    ensures CompareFrom(va, vb, i) == Equal ==> forall j: nat :: At(va, j) == At(vb, j)
    ensures CompareFrom(va, vb, i) == Less ==> FirstDifference(va, vb, d) && At(va, d) < At(vb, d)
    ensures CompareFrom(va, vb, i) == Greater ==> FirstDifference(va, vb, d) && At(va, d) > At(vb, d)
    decreases Longer(va, vb) - i
  {
    d := i;
    if i < Longer(va, vb) && At(va, i) == At(vb, i) {
      d := CompareFromMeaning(va, vb, i + 1);
    }
  }

  /** The comparison is lexicographic order on the components extended with zeros. */
  lemma CompareIsLexicographic(a: string, b: string)
    ensures Compare(a, b) == Equal <==>
              forall i: nat :: At(Components(a), i) == At(Components(b), i)
    ensures Compare(a, b) == Less <==>
              exists i: nat ::
                FirstDifference(Components(a), Components(b), i) && At(Components(a), i) < At(Components(b), i)
    ensures Compare(a, b) == Greater <==>
              exists i: nat ::
                FirstDifference(Components(a), Components(b), i) && At(Components(a), i) > At(Components(b), i)
  {
    var va, vb := Components(a), Components(b);
    var d := CompareFromMeaning(va, vb, 0);
    if Compare(a, b) != Equal {
      assert FirstDifference(va, vb, d);
      forall i: nat | FirstDifference(va, vb, i)
        ensures i == d
      {
      }
    }
  }

  function Flip(o: Ordering): Ordering {
    match o case Less => Greater case Equal => Equal case Greater => Less
  }

  lemma {:induction false} FlipFrom(va: seq<nat>, vb: seq<nat>, i: nat)
    requires i <= Longer(va, vb)
    ensures CompareFrom(vb, va, i) == Flip(CompareFrom(va, vb, i))
    decreases Longer(va, vb) - i
  {
    if i < Longer(va, vb) {
      FlipFrom(va, vb, i + 1);
    }
  }

  /** The comparison is a total preorder on all strings. */
  lemma CompareIsTotalPreorder(a: string, b: string, c: string)
    ensures Compare(a, a) == Equal
    ensures Compare(b, a) == Flip(Compare(a, b))
    ensures Compare(a, b) != Greater && Compare(b, c) != Greater ==> Compare(a, c) != Greater
    ensures Compare(a, b) == Less && Compare(b, c) != Greater ==> Compare(a, c) == Less
    ensures Compare(a, b) != Greater && Compare(b, c) == Less ==> Compare(a, c) == Less
  {
    var va, vb, vc := Components(a), Components(b), Components(c);
    var _ := CompareFromMeaning(va, va, 0);
    FlipFrom(va, vb, 0);
    var ab := CompareFromMeaning(va, vb, 0);
    var bc := CompareFromMeaning(vb, vc, 0);
    var ac := CompareFromMeaning(va, vc, 0);
    if Compare(a, b) == Less && Compare(b, c) == Less {
      var d := if ab < bc then ab else bc;
      assert At(va, d) < At(vc, d);
      assert forall j: nat | j < d :: At(va, j) == At(vb, j) == At(vc, j);
      assert FirstDifference(va, vc, d);
      CompareIsLexicographic(a, c);
    } else if Compare(a, b) == Equal && Compare(b, c) == Less {
      assert FirstDifference(va, vc, bc);
      CompareIsLexicographic(a, c);
    } else if Compare(a, b) == Less && Compare(b, c) == Equal {
      assert FirstDifference(va, vc, ab);
      CompareIsLexicographic(a, c);
    } else if Compare(a, b) == Equal && Compare(b, c) == Equal {
      CompareIsLexicographic(a, c);
    }
  }

  function DropTrailingZeros(v: seq<nat>): (r: seq<nat>)
    ensures r <= v
    ensures r != [] ==> r[|r| - 1] != 0
    ensures forall i | |r| <= i < |v| :: v[i] == 0
  {
    if v != [] && v[|v| - 1] == 0 then DropTrailingZeros(v[..|v| - 1]) else v
  }

  lemma TrimmedAt(v: seq<nat>, i: nat)
    ensures At(DropTrailingZeros(v), i) == At(v, i)
  {
  }

  lemma TrimmedLength(v: seq<nat>, t: seq<nat>)
    requires forall i: nat :: At(v, i) == At(t, i)
    ensures |DropTrailingZeros(v)| <= |DropTrailingZeros(t)|
  {
    var n := |DropTrailingZeros(v)|;
    if n > 0 {
      TrimmedAt(v, n - 1);
      TrimmedAt(t, n - 1);
    }
  }

  lemma TrimmedSame(v: seq<nat>, t: seq<nat>)
    requires forall i: nat :: At(v, i) == At(t, i)
    ensures DropTrailingZeros(v) == DropTrailingZeros(t)
  {
    TrimmedLength(v, t);
    TrimmedLength(t, v);
    forall i | 0 <= i < |DropTrailingZeros(v)|
      ensures DropTrailingZeros(v)[i] == DropTrailingZeros(t)[i]
    {
      assert At(v, i) == At(t, i);
    }
  }

  /** Two versions compare equal exactly when their components agree up to trailing zeros. */
  lemma EqualUpToTrailingZeros(a: string, b: string)
    ensures Compare(a, b) == Equal <==>
              DropTrailingZeros(Components(a)) == DropTrailingZeros(Components(b))
  {
    var va, vb := Components(a), Components(b);
    CompareIsLexicographic(a, b);
    if forall i: nat :: At(va, i) == At(vb, i) {
      TrimmedSame(va, vb);
    } else {
      var i: nat :| At(va, i) != At(vb, i);
      TrimmedAt(va, i);
      TrimmedAt(vb, i);
    }
  }
}
