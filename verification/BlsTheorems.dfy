/** What collecting shares guarantees: the stored bytes are a finite map of shares, in any order of
    arrival, and enough shares of one split restore the key. */
module BlsTheorems {
  import opened Wrappers
  import opened Bytes
  import opened Codecs
  import opened AttrIds
  import opened Wire
  import opened Views
  import opened OrderedKeys
  import opened Fields
  import opened PrimeField
  import opened Polynomials
  import opened Sharing
  import opened BlsShares
  import Varints

  // ---- the nested codec ----

  predicate ShareOk(order: Positive, s: KeyShare) {
    && s.id < order && s.threshold <= Varints.USIZE_MAX && s.limit <= Varints.USIZE_MAX
    && |s.data| <= Varints.MAX_DECODED_SIZE
  }

  ghost predicate OrderOk(order: Positive) {
    IsPrime(order) && order <= Power(SECRET_KEY_BYTES)
  }

  /** Canonical scalar bytes are exactly the 32-byte forms of the numbers below the order. */
  lemma ScalarBytesExact(order: Positive, b: Data, v: nat)
    requires OrderOk(order)
    ensures ScalarFromBytes(order, b) == Ok(v) <==> v < order && b == ToBig(v, SECRET_KEY_BYTES)
  {
    BigRoundTrip(b, v, SECRET_KEY_BYTES);
  }

  /** A share is accepted exactly in its encoded form. */
  lemma DecodeShareExact(order: Positive, b: Data, s: KeyShare, rest: Data)
    requires OrderOk(order)
    ensures DecodeShare(order, b) == Ok((s, rest)) <==> b == EncodeShare(s) + rest && ShareOk(order, s)
  {
    hide ToBig, Varints.Encode, Varints.Decode, Varints.EncodeBytes, Varints.DecodeBytes, ScalarFromBytes, Power;
    var p3 := Varints.EncodeBytes(s.data) + rest;
    var p2 := Varints.Encode(s.limit) + p3;
    var p1 := Varints.Encode(s.threshold) + p2;
    var id := ToBig(s.id, SECRET_KEY_BYTES);
    assert EncodeShare(s) + rest == id + p1;
    Varints.DecodeExact(p1, Varints.USIZE_MAX, s.threshold, p2);
    Varints.DecodeExact(p2, Varints.USIZE_MAX, s.limit, p3);
    Varints.DecodeBytesExact(p3, s.data, rest);
    if |b| >= SECRET_KEY_BYTES {
      ScalarBytesExact(order, b[..SECRET_KEY_BYTES], s.id);
      if b == id + p1 {
        assert b[..SECRET_KEY_BYTES] == id && b[SECRET_KEY_BYTES..] == p1;
      }
      if DecodeShare(order, b) == Ok((s, rest)) {
        ShareParts(order, b, s, rest);
      }
    }
  }

  lemma ShareParts(order: Positive, b: Data, s: KeyShare, rest: Data)
    requires OrderOk(order) && DecodeShare(order, b) == Ok((s, rest))
    ensures b == EncodeShare(s) + rest && ShareOk(order, s)
  {
    hide ToBig, Varints.Encode, Varints.Decode, Varints.EncodeBytes, Varints.DecodeBytes, ScalarFromBytes, Power;
    var p1 := b[SECRET_KEY_BYTES..];
    var p2 := Varints.Decode(p1, Varints.USIZE_MAX).value.1;
    var p3 := Varints.Decode(p2, Varints.USIZE_MAX).value.1;
    assert Varints.Decode(p1, Varints.USIZE_MAX) == Ok((s.threshold, p2));
    assert Varints.Decode(p2, Varints.USIZE_MAX) == Ok((s.limit, p3));
    assert Varints.DecodeBytes(p3).Ok? && Varints.DecodeBytes(p3).value.1 == rest;
    assert Varints.DecodeBytes(p3).value.0 == s.data;
    assert ScalarFromBytes(order, b[..SECRET_KEY_BYTES]) == Ok(s.id);
    ScalarBytesExact(order, b[..SECRET_KEY_BYTES], s.id);
    Varints.DecodeExact(p1, Varints.USIZE_MAX, s.threshold, p2);
    Varints.DecodeExact(p2, Varints.USIZE_MAX, s.limit, p3);
    Varints.DecodeBytesExact(p3, s.data, rest);
    assert b == b[..SECRET_KEY_BYTES] + p1;
  }

  // ---- lists of shares and maps ----

  predicate DistinctShares(l: seq<KeyShare>) {
    forall i, j :: 0 <= i < j < |l| ==> l[i].id != l[j].id
  }

  ghost predicate NewTo(m: ShareMap, l: seq<KeyShare>) {
    DistinctShares(l) && forall i :: 0 <= i < |l| ==> l[i].id !in m
  }

  ghost predicate AllOk(order: Positive, l: seq<KeyShare>) {
    forall i :: 0 <= i < |l| ==> ShareOk(order, l[i])
  }

  /** Every share is stored under its own identifier and can be written. */
  ghost predicate WellKeyed(order: Positive, m: ShareMap) {
    forall id :: id in m ==> m[id].id == id && ShareOk(order, m[id])
  }

  function InsertAll(m: ShareMap, l: seq<KeyShare>): ShareMap
    decreases l
  {
    if l == [] then m else InsertAll(m[l[0].id := l[0]], l[1..])
  }

  lemma {:induction false} InsertAllContents(m: ShareMap, l: seq<KeyShare>)
    requires NewTo(m, l)
    ensures forall s: KeyShare :: s in l ==> s.id in InsertAll(m, l) && InsertAll(m, l)[s.id] == s
    ensures forall id: nat :: id in m ==> id in InsertAll(m, l) && InsertAll(m, l)[id] == m[id]
    ensures forall id: nat :: id in InsertAll(m, l) && id !in m ==>
              InsertAll(m, l)[id] in l && InsertAll(m, l)[id].id == id
    ensures |InsertAll(m, l)| == |m| + |l|
    decreases l
  {
    if l != [] {
      var first, r := l[0], InsertAll(m, l);
      var m' := m[first.id := first];
      InsertAllContents(m', l[1..]);
      assert r == InsertAll(m', l[1..]);
      forall s: KeyShare | s in l
        ensures s.id in r && r[s.id] == s
      {
        if s != first { assert s in l[1..]; }
      }
      assert forall id: nat :: id in m ==> id in m' && m'[id] == m[id];
    }
  }

  /** Permuting the shares does not change the map they make. */
  lemma InsertAllOrder(l: seq<KeyShare>, l': seq<KeyShare>)
    requires DistinctShares(l) && DistinctShares(l')
    requires forall s: KeyShare :: s in l <==> s in l'
    ensures InsertAll(map[], l) == InsertAll(map[], l')
  {
    hide InsertAll;
    InsertAllContents(map[], l);
    InsertAllContents(map[], l');
    var m, m' := InsertAll(map[], l), InsertAll(map[], l');
    forall id: nat
      ensures id in m <==> id in m'
      ensures id in m ==> m[id] == m'[id]
    {
      if id in m { assert m[id] in l; }
      if id in m' { assert m'[id] in l'; }
    }
  }

  lemma InOrderContents(order: Positive, m: ShareMap)
    requires WellKeyed(order, m)
    ensures NewTo(map[], InOrder(m)) && AllOk(order, InOrder(m)) && |InOrder(m)| == |m|
    ensures forall s: KeyShare :: s in InOrder(m) <==> s.id in m && m[s.id] == s
  {
    hide KeysInOrder, ValuesAt, ShareOk;
    var l, keys := InOrder(m), KeysInOrder(m);
    forall s: KeyShare
      ensures s in l <==> s.id in m && m[s.id] == s
    {
      if s.id in m && m[s.id] == s {
        var i :| 0 <= i < |keys| && keys[i] == s.id;
        assert l[i] == s;
      }
    }
  }

  /** The ordered list of a well-keyed map inserts back to the map. */
  lemma InOrderOfMap(order: Positive, m: ShareMap)
    requires WellKeyed(order, m)
    ensures NewTo(map[], InOrder(m)) && AllOk(order, InOrder(m)) && InsertAll(map[], InOrder(m)) == m
  {
    hide InsertAll, ShareOk, InOrder;
    InOrderContents(order, m);
    var l := InOrder(m);
    InsertAllContents(map[], l);
    var n := InsertAll(map[], l);
    forall id: nat
      ensures id in m <==> id in n
      ensures id in m ==> n[id] == m[id]
    {
      if id in m { assert m[id] in l; }
      if id in n { assert n[id] in l; }
    }
  }

  /** A written list of shares decodes if its identifiers are new and distinct, to the map of its
      shares, and is rejected as a duplicate otherwise. */
  lemma {:induction false} SharesDecode(order: Positive, l: seq<KeyShare>, rest: Data, m: ShareMap)
    requires OrderOk(order) && AllOk(order, l)
    ensures DecodeShares(order, |l|, EncodeShares(l) + rest, m)
         == if NewTo(m, l) then Ok((InsertAll(m, l), rest)) else Err(DuplicateShare)
    decreases l
  {
    hide DecodeShare, EncodeShare, ShareOk, Power;
    if l == [] {
      assert EncodeShares(l) + rest == rest;
    } else {
      var s, q := l[0], EncodeShares(l[1..]) + rest;
      assert EncodeShares(l) + rest == EncodeShare(s) + q;
      DecodeShareExact(order, EncodeShare(s) + q, s, q);
      assert |l| - 1 == |l[1..]|;
      if s.id !in m {
        var m' := m[s.id := s];
        SharesDecode(order, l[1..], rest, m');
        NewToCons(m, l);
      }
    }
  }

  lemma NewToCons(m: ShareMap, l: seq<KeyShare>)
    requires l != [] && l[0].id !in m
    ensures NewTo(m, l) <==> NewTo(m[l[0].id := l[0]], l[1..])
  {
    if NewTo(m[l[0].id := l[0]], l[1..]) {
      forall i, j | 0 <= i < j < |l| ensures l[i].id != l[j].id {
        assert l[j] == l[1..][j - 1];
        if i > 0 { assert l[i] == l[1..][i - 1]; }
      }
      forall i | 0 <= i < |l| ensures l[i].id !in m {
        if i > 0 { assert l[i] == l[1..][i - 1]; }
      }
    }
  }

  /** Whatever is accepted was written as new shares, so the result is well keyed. */
  lemma {:induction false} SharesShape(order: Positive, count: nat, p: Data, m: ShareMap) returns (l: seq<KeyShare>)
    requires OrderOk(order) && WellKeyed(order, m) && DecodeShares(order, count, p, m).Ok?
    ensures var (m', rest) := DecodeShares(order, count, p, m).value;
            |l| == count && AllOk(order, l) && p == EncodeShares(l) + rest && WellKeyed(order, m')
    decreases count
  {
    hide DecodeShare, EncodeShare, ShareOk, Power;
    l := [];
    if count > 0 {
      var (s, q) := DecodeShare(order, p).value;
      var rest := DecodeShares(order, count, p, m).value.1;
      DecodeShareExact(order, p, s, q);
      var tail := SharesShape(order, count - 1, q, m[s.id := s]);
      l := [s] + tail;
      assert l[1..] == tail;
      assert EncodeShares(l) + rest == EncodeShare(s) + (EncodeShares(tail) + rest);
    }
  }

  /** The nested codec round-trips, with any bytes after it, exactly the well-keyed maps. */
  lemma MapRoundTrip(order: Positive, m: ShareMap, rest: Data)
    requires OrderOk(order) && |m| <= Varints.USIZE_MAX
    ensures DecodeMap(order, EncodeMap(m) + rest) == Ok((m, rest)) <==> WellKeyed(order, m)
  {
    hide DecodeShares, EncodeShares, InsertAll, ShareOk, Power, Varints.Decode, Varints.Encode;
    var l := InOrder(m);
    assert EncodeMap(m) + rest == Varints.Encode(|m|) + (EncodeShares(l) + rest);
    Varints.DecodeExact(EncodeMap(m) + rest, Varints.USIZE_MAX, |m|, EncodeShares(l) + rest);
    if WellKeyed(order, m) {
      InOrderOfMap(order, m);
      SharesDecode(order, l, rest, map[]);
    }
    if DecodeMap(order, EncodeMap(m) + rest) == Ok((m, rest)) {
      var _ := SharesShape(order, |m|, EncodeShares(l) + rest, map[]);
    }
  }

  /** A list with a repeated identifier is rejected wherever the repetition stands. */
  lemma RepeatedShareRejected(order: Positive, l: seq<KeyShare>, rest: Data)
    requires OrderOk(order) && AllOk(order, l) && |l| <= Varints.USIZE_MAX
    ensures DecodeMap(order, Varints.Encode(|l|) + EncodeShares(l) + rest)
         == if DistinctShares(l) then Ok((InsertAll(map[], l), rest)) else Err(DuplicateShare)
  {
    hide DecodeShares, EncodeShares, InsertAll, ShareOk, Power, Varints.Decode, Varints.Encode;
    var b := Varints.Encode(|l|) + EncodeShares(l) + rest;
    assert b == Varints.Encode(|l|) + (EncodeShares(l) + rest);
    Varints.DecodeExact(b, Varints.USIZE_MAX, |l|, EncodeShares(l) + rest);
    SharesDecode(order, l, rest, map[]);
  }
}
