/** Unsigned LEB128 integers and length-prefixed byte strings. The decoder of the `unsigned-varint`
    and `multi-util` crates is taken to accept minimal forms only. */
module Varints {
  import opened Wrappers
  import opened Bytes

  /** Largest byte string that a length prefix may announce. */
  const MAX_DECODED_SIZE: nat := 16 * 1024 * 1024

  const U8_MAX: nat := 0xff
  const USIZE_MAX: nat := 0xffff_ffff_ffff_ffff

  function Encode(n: nat): (r: Data)
    ensures r != []
  {
    if n < 128 then [n] else [128 + n % 128] + Encode(n / 128)
  }

  lemma {:induction false} EncodeMonotone(m: nat, n: nat)
    requires m <= n
    ensures |Encode(m)| <= |Encode(n)|
  {
    if m >= 128 { EncodeMonotone(m / 128, n / 128); }
  }

  function Power128(k: nat): nat {
    if k == 0 then 1 else 128 * Power128(k - 1)
  }

  /** Every byte holds seven bits. */
  lemma {:induction false} EncodeLength(n: nat, k: nat)
    requires 0 < k && n < Power128(k)
    ensures |Encode(n)| <= k
  {
    if n >= 128 { EncodeLength(n / 128, k - 1); }
  }

  /** A machine word takes at most ten bytes. */
  lemma EncodeWord(n: nat)
    requires n <= USIZE_MAX
    ensures |Encode(n)| <= 10
  {
    assert Power128(5) == 0x8_0000_0000;
    assert Power128(10) == 0x8_0000_0000 * Power128(5);
    EncodeLength(n, 10);
  }

  /** The number at the front of the input and the input after it. */
  function Parse(b: Data): Option<(nat, Data)> {
    if b == [] then None
    else if b[0] < 128 then Some((b[0], b[1..]))
    else
      match Parse(b[1..])
      case None => None
      case Some((high, rest)) => if high == 0 then None else Some((b[0] - 128 + 128 * high, rest))
  }

  function Decode(b: Data, max: nat): Result<(nat, Data)> {
    match Parse(b)
    case None => Err(InvalidVarint)
    case Some((n, rest)) => if n <= max then Ok((n, rest)) else Err(InvalidVarint)
  }

  lemma {:induction false} ParseEncode(n: nat, rest: Data)
    ensures Parse(Encode(n) + rest) == Some((n, rest))
  {
    var b := Encode(n) + rest;
    if n >= 128 {
      ParseEncode(n / 128, rest);
      assert b[1..] == Encode(n / 128) + rest;
    } else {
      assert b[1..] == rest;
    }
  }

  lemma {:induction false} ParseOnlyEncodings(b: Data)
    ensures Parse(b).Some? ==> b == Encode(Parse(b).value.0) + Parse(b).value.1
  {
    if b != [] {
      ParseOnlyEncodings(b[1..]);
      assert b == [b[0]] + b[1..];
    }
  }

  /** The decoder accepts exactly the encodings of numbers up to its maximum. */
  lemma DecodeExact(b: Data, max: nat, n: nat, rest: Data)
    ensures Decode(b, max) == Ok((n, rest)) <==> b == Encode(n) + rest && n <= max
  {
    ParseEncode(n, rest);
    ParseOnlyEncodings(b);
  }

  function EncodeBytes(data: Data): Data {
    Encode(|data|) + data
  }

  function DecodeBytes(b: Data): Result<(Data, Data)> {
    var (length, p) :- Decode(b, USIZE_MAX);
    if length > MAX_DECODED_SIZE then Err(InputTooLarge(length))
    else if length > |p| then Err(Truncated)
    else Ok((p[..length], p[length..]))
  }

  /** A byte string is accepted exactly in its encoded form and within the cap. */
  lemma DecodeBytesExact(b: Data, data: Data, rest: Data)
    ensures DecodeBytes(b) == Ok((data, rest)) <==> b == EncodeBytes(data) + rest && |data| <= MAX_DECODED_SIZE
  {
    if b == EncodeBytes(data) + rest && |data| <= MAX_DECODED_SIZE {
      assert b == Encode(|data|) + (data + rest);
      DecodeExact(b, USIZE_MAX, |data|, data + rest);
    }
    if DecodeBytes(b) == Ok((data, rest)) {
      var (length, p) := Decode(b, USIZE_MAX).value;
      DecodeExact(b, USIZE_MAX, length, p);
      assert p == data + rest;
    }
  }
}
