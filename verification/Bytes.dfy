/** Bytes, and the fixed-width numbers the key formats write. */
module Bytes {

  type Byte = b: int | 0 <= b < 256

  type Data = seq<Byte>

  function Power(n: nat): (r: nat)
    ensures r > 0
  {
    if n == 0 then 1 else 256 * Power(n - 1)
  }

  function FromLittle(b: Data): nat {
    if b == [] then 0 else b[0] + 256 * FromLittle(b[1..])
  }

  function ToLittle(n: nat, width: nat): (r: Data)
    ensures |r| == width
  {
    if width == 0 then [] else [n % 256] + ToLittle(n / 256, width - 1)
  }

  lemma {:induction false} FromLittleBound(b: Data)
    ensures FromLittle(b) < Power(|b|)
  {
    if b != [] { FromLittleBound(b[1..]); }
  }

  lemma {:induction false} ToFromLittle(b: Data)
    ensures ToLittle(FromLittle(b), |b|) == b
  {
    if b != [] {
      ToFromLittle(b[1..]);
      assert FromLittle(b) % 256 == b[0] && FromLittle(b) / 256 == FromLittle(b[1..]);
    }
  }

  lemma {:induction false} FromToLittle(n: nat, width: nat)
    requires n < Power(width)
    ensures FromLittle(ToLittle(n, width)) == n
  {
    if width > 0 {
      FromToLittle(n / 256, width - 1);
      assert ToLittle(n, width)[1..] == ToLittle(n / 256, width - 1);
    }
  }

  function Reversed(b: Data): (r: Data)
    ensures |r| == |b| && forall i :: 0 <= i < |r| ==> r[i] == b[|b| - 1 - i]
  {
    seq(|b|, i requires 0 <= i < |b| => b[|b| - 1 - i])
  }

  lemma ReversedTwice(b: Data)
    ensures Reversed(Reversed(b)) == b
  {}

  /** Fixed-width numbers, most significant byte first. */
  function FromBig(b: Data): nat {
    FromLittle(Reversed(b))
  }

  function ToBig(n: nat, width: nat): (r: Data)
    ensures |r| == width
  {
    Reversed(ToLittle(n, width))
  }

  lemma BigRoundTrip(b: Data, n: nat, width: nat)
    ensures ToBig(FromBig(b), |b|) == b
    ensures n < Power(width) ==> FromBig(ToBig(n, width)) == n
  {
    ToFromLittle(Reversed(b));
    ReversedTwice(b);
    ReversedTwice(ToLittle(n, width));
    if n < Power(width) { FromToLittle(n, width); }
  }
}
