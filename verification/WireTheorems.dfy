/** What the wire format guarantees: exactly which inputs decode, and to what. */
module WireTheorems {
  import opened Wrappers
  import opened Bytes
  import opened Codecs
  import opened AttrIds
  import opened Wire
  import Varints

  lemma DecodeCodecExact(reg: Registry, b: Data, c: Codec, rest: Data)
    requires Sound(reg)
    ensures DecodeCodec(reg, b) == Ok((c, rest)) <==> b == Varints.Encode(reg.code(c)) + rest
  {
    Varints.DecodeExact(b, Varints.USIZE_MAX, reg.code(c), rest);
    if DecodeCodec(reg, b) == Ok((c, rest)) {
      var (n, p) := Varints.Decode(b, Varints.USIZE_MAX).value;
      assert reg.lookup(n) == Some(c);
    }
  }

  lemma DecodeAttrIdExact(b: Data, id: AttrId, rest: Data)
    ensures DecodeAttrId(b) == Ok((id, rest)) <==> b == Varints.Encode(Code(id)) + rest
  {
    Varints.DecodeExact(b, Varints.U8_MAX, Code(id), rest);
    FromCodeOfCode(id);
    if DecodeAttrId(b) == Ok((id, rest)) {
      var (n, p) := Varints.Decode(b, Varints.U8_MAX).value;
      CodesInverse(id, n);
    }
  }

  /** Splitting a header off its fields one by one. */
  lemma HeaderParts(reg: Registry, codec: Codec, comment: Data, count: nat, rest: Data)
    ensures EncodeHeader(reg, codec, comment, count) + rest ==
            Varints.Encode(reg.code(MultikeySigil))
            + (Varints.Encode(reg.code(codec)) + (Varints.EncodeBytes(comment) + (Varints.Encode(count) + rest)))
  {}

  lemma HeaderDecodes(reg: Registry, codec: Codec, comment: Data, count: nat, rest: Data)
    requires Sound(reg) && reg.utf8(comment) && |comment| <= MAX_DECODED_SIZE && count <= MAX_ATTRIBUTES
    ensures DecodeHeader(reg, EncodeHeader(reg, codec, comment, count) + rest) == Ok((codec, comment, count, rest))
  {
    var p3 := Varints.Encode(count) + rest;
    var p2 := Varints.EncodeBytes(comment) + p3;
    var p1 := Varints.Encode(reg.code(codec)) + p2;
    HeaderParts(reg, codec, comment, count, rest);
    DecodeCodecExact(reg, Varints.Encode(reg.code(MultikeySigil)) + p1, MultikeySigil, p1);
    DecodeCodecExact(reg, p1, codec, p2);
    Varints.DecodeBytesExact(p2, comment, p3);
    Varints.DecodeExact(p3, Varints.USIZE_MAX, count, rest);
  }

  lemma HeaderShape(reg: Registry, b: Data)
    requires Sound(reg) && DecodeHeader(reg, b).Ok?
    ensures var (codec, comment, count, rest) := DecodeHeader(reg, b).value;
            b == EncodeHeader(reg, codec, comment, count) + rest
            && reg.utf8(comment) && |comment| <= MAX_DECODED_SIZE && count <= MAX_ATTRIBUTES
  {
    var (codec, comment, count, rest) := DecodeHeader(reg, b).value;
    var p1 := DecodeCodec(reg, b).value.1;
    var p2 := DecodeCodec(reg, p1).value.1;
    var p3 := Varints.DecodeBytes(p2).value.1;
    DecodeCodecExact(reg, b, MultikeySigil, p1);
    DecodeCodecExact(reg, p1, codec, p2);
    Varints.DecodeBytesExact(p2, comment, p3);
    Varints.DecodeExact(p3, Varints.USIZE_MAX, count, rest);
    HeaderParts(reg, codec, comment, count, rest);
  }

  lemma RecordSize(r: Record)
    ensures |EncodeRecord(r)| >= |r.data|
  {}

  lemma RecordDecodes(r: Record, rest: Data) returns (p: Data)
    ensures DecodeAttrId(EncodeRecord(r) + rest) == Ok((r.id, p))
    ensures if |r.data| <= MAX_DECODED_SIZE then Varints.DecodeBytes(p) == Ok((r.data, rest))
            else Varints.DecodeBytes(p).Err?
  {
    p := Varints.EncodeBytes(r.data) + rest;
    assert EncodeRecord(r) + rest == Varints.Encode(Code(r.id)) + p;
    DecodeAttrIdExact(EncodeRecord(r) + rest, r.id, p);
    Varints.DecodeBytesExact(p, r.data, rest);
    if |r.data| > MAX_DECODED_SIZE { TooLong(r.data, rest); }
  }

  /** Fresh records decode exactly when they end within the cap, and then to the map they insert to. */
  lemma {:induction false} RecordsDecode(start: int, rs: seq<Record>, rest: Data, m: Attributes)
    requires Fresh(m, rs) && rs != [] && start >= |EncodeRecords(rs) + rest|
    ensures var r := DecodeAttributes(start, |rs|, EncodeRecords(rs) + rest, m);
            if start - |rest| <= MAX_DECODED_SIZE then r == Ok((Insert(m, rs), rest)) else r.Err?
    decreases |rs|
  {
    hide Code, FromCode, DecodeAttrId, Varints.DecodeBytes, Varints.EncodeBytes, Varints.Encode;
    var r, p2 := rs[0], EncodeRecords(rs[1..]) + rest;
    assert EncodeRecords(rs) + rest == EncodeRecord(r) + p2;
    var p1 := RecordDecodes(r, p2);
    RecordSize(r);
    if |r.data| <= MAX_DECODED_SIZE {
      if |rs| == 1 {
        assert p2 == rest;
        assert DecodeAttributes(start, 0, rest, m[r.id := r.data]) == Ok((m[r.id := r.data], rest));
        assert Insert(m, rs) == Insert(m[r.id := r.data], []);
      } else {
        RecordsDecode(start, rs[1..], rest, m[r.id := r.data]);
      }
    }
  }

  lemma TooLong(data: Data, rest: Data)
    requires |data| > MAX_DECODED_SIZE
    ensures Varints.DecodeBytes(Varints.EncodeBytes(data) + rest).Err?
  {
    Varints.ParseEncode(|data|, data + rest);
    assert Varints.EncodeBytes(data) + rest == Varints.Encode(|data|) + (data + rest);
  }

  lemma RecordShape(p: Data, r: Record, p1: Data, p2: Data)
    requires DecodeAttrId(p) == Ok((r.id, p1)) && Varints.DecodeBytes(p1) == Ok((r.data, p2))
    ensures p == EncodeRecord(r) + p2
  {
    DecodeAttrIdExact(p, r.id, p1);
    Varints.DecodeBytesExact(p1, r.data, p2);
  }

  /** Whatever is accepted was written as fresh records. */
  lemma {:induction false} RecordsShape(start: int, count: nat, p: Data, m: Attributes) returns (rs: seq<Record>)
    requires DecodeAttributes(start, count, p, m).Ok?
    ensures var (m', rest) := DecodeAttributes(start, count, p, m).value;
            |rs| == count && Fresh(m, rs) && m' == Insert(m, rs) && p == EncodeRecords(rs) + rest
            && (count > 0 ==> start - |rest| <= MAX_DECODED_SIZE)
    decreases count
  {
    hide Code, FromCode, EncodeRecord, DecodeAttrId, Varints.DecodeBytes;
    rs := [];
    if count > 0 {
      var (id, p1) := DecodeAttrId(p).value;
      var (data, p2) := Varints.DecodeBytes(p1).value;
      var rest := DecodeAttributes(start, count, p, m).value.1;
      var r := Record(id, data);
      RecordShape(p, r, p1, p2);
      var tail := RecordsShape(start, count - 1, p2, m[id := data]);
      rs := [r] + tail;
      assert rs[1..] == tail;
      assert EncodeRecords(rs) + rest == EncodeRecord(r) + (EncodeRecords(tail) + rest);
    }
  }

  /** `b` is `mk` written with its attributes in the order `rs`, followed by `rest`. */
  ghost predicate Writes(reg: Registry, b: Data, mk: Multikey, rest: Data, rs: seq<Record>) {
    && DistinctIds(rs) && Insert(map[], rs) == mk.attributes
    && b == EncodeHeader(reg, mk.codec, mk.comment, |rs|) + EncodeRecords(rs) + rest
  }

  /** The two caps: on the comment, and on the whole key when it has attributes. */
  predicate Fits(mk: Multikey, size: int) {
    |mk.comment| <= MAX_DECODED_SIZE && (mk.attributes != map[] ==> size <= MAX_DECODED_SIZE)
  }

  /** A written key decodes to itself if it fits, in whatever order its attributes stand, and
      is rejected if it does not. */
  lemma WrittenDecodes(reg: Registry, b: Data, mk: Multikey, rest: Data, rs: seq<Record>)
    requires Sound(reg) && reg.utf8(mk.comment) && Writes(reg, b, mk, rest, rs)
    ensures if Fits(mk, |b| - |rest|) then Decode(reg, b) == Ok((mk, rest)) else Decode(reg, b).Err?
  {
    InsertContents(map[], rs);
    AttributeCount(mk.attributes);
    var p := EncodeRecords(rs) + rest;
    assert b == EncodeHeader(reg, mk.codec, mk.comment, |rs|) + p;
    if |mk.comment| <= MAX_DECODED_SIZE {
      HeaderDecodes(reg, mk.codec, mk.comment, |rs|, p);
      if rs == [] {
        assert p == rest;
      } else {
        RecordsDecode(|b|, rs, rest, map[]);
      }
    } else {
      LongComment(reg, mk, |rs|, p);
    }
  }

  lemma LongComment(reg: Registry, mk: Multikey, count: nat, p: Data)
    requires Sound(reg) && |mk.comment| > MAX_DECODED_SIZE
    ensures DecodeHeader(reg, EncodeHeader(reg, mk.codec, mk.comment, count) + p).Err?
  {
    var v1, v2 := Varints.Encode(reg.code(MultikeySigil)), Varints.Encode(reg.code(mk.codec));
    var tail := Varints.Encode(count) + p;
    var b := EncodeHeader(reg, mk.codec, mk.comment, count) + p;
    assert b == v1 + (v2 + (Varints.EncodeBytes(mk.comment) + tail));
    DecodeCodecExact(reg, b, MultikeySigil, v2 + (Varints.EncodeBytes(mk.comment) + tail));
    var p1 := Varints.EncodeBytes(mk.comment) + tail;
    DecodeCodecExact(reg, v2 + p1, mk.codec, p1);
    TooLong(mk.comment, tail);
  }

  /** The inputs that decode to `mk` with remainder `rest` are exactly its writings that fit. */
  lemma AcceptedExactly(reg: Registry, b: Data, mk: Multikey, rest: Data)
    requires Sound(reg)
    ensures Decode(reg, b) == Ok((mk, rest)) <==>
            reg.utf8(mk.comment) && Fits(mk, |b| - |rest|) && exists rs :: Writes(reg, b, mk, rest, rs)
  {
    hide Decode, Writes, Fits;
    if Decode(reg, b) == Ok((mk, rest)) {
      var rs := AcceptedWrites(reg, b, mk, rest);
    }
    if reg.utf8(mk.comment) && Fits(mk, |b| - |rest|) && exists rs :: Writes(reg, b, mk, rest, rs) {
      var rs :| Writes(reg, b, mk, rest, rs);
      WrittenDecodes(reg, b, mk, rest, rs);
    }
  }

  lemma AcceptedWrites(reg: Registry, b: Data, mk: Multikey, rest: Data) returns (rs: seq<Record>)
    requires Sound(reg) && Decode(reg, b) == Ok((mk, rest))
    ensures reg.utf8(mk.comment) && Fits(mk, |b| - |rest|) && Writes(reg, b, mk, rest, rs)
  {
    hide DecodeHeader, EncodeHeader, DecodeAttributes, EncodeRecords, Insert;
    var (codec, comment, count, p) := DecodeHeader(reg, b).value;
    HeaderShape(reg, b);
    rs := RecordsShape(|b|, count, p, map[]);
    InsertContents(map[], rs);
    assert b == EncodeHeader(reg, mk.codec, mk.comment, |rs|) + (EncodeRecords(rs) + rest);
  }

  lemma EncodeWrites(reg: Registry, mk: Multikey, rest: Data)
    ensures Writes(reg, Encode(reg, mk) + rest, mk, rest, Entries(mk.attributes))
  {
    EntriesOfMap(mk.attributes);
  }

  /** Round trip with remainder: an encoded key followed by any bytes decodes to the key and those
      bytes if it is within the size cap; past the cap the encoder's output is rejected. */
  lemma RoundTrip(reg: Registry, mk: Multikey, rest: Data)
    requires Sound(reg) && reg.utf8(mk.comment)
    ensures if Fits(mk, |Encode(reg, mk)|) then Decode(reg, Encode(reg, mk) + rest) == Ok((mk, rest))
            else Decode(reg, Encode(reg, mk) + rest).Err?
  {
    EncodeWrites(reg, mk, rest);
    WrittenDecodes(reg, Encode(reg, mk) + rest, mk, rest, Entries(mk.attributes));
  }

  /** Decoding ignores the order of the attribute records. */
  lemma OrderIrrelevant(reg: Registry, codec: Codec, comment: Data, rs: seq<Record>, rs': seq<Record>, rest: Data)
    requires Sound(reg) && reg.utf8(comment) && DistinctIds(rs) && DistinctIds(rs')
    requires |rs| == |rs'| && forall r: Record :: r in rs <==> r in rs'
    ensures var b := EncodeHeader(reg, codec, comment, |rs|) + EncodeRecords(rs) + rest;
            var b' := EncodeHeader(reg, codec, comment, |rs|) + EncodeRecords(rs') + rest;
            (Decode(reg, b).Ok? <==> Decode(reg, b').Ok?) && (Decode(reg, b).Ok? ==> Decode(reg, b) == Decode(reg, b'))
  {
    var mk := Multikey(codec, comment, Insert(map[], rs));
    InsertOrder(rs, rs');
    SizeIsCanonical(rs);
    SizeIsCanonical(rs');
    WrittenDecodes(reg, EncodeHeader(reg, codec, comment, |rs|) + EncodeRecords(rs) + rest, mk, rest, rs);
    WrittenDecodes(reg, EncodeHeader(reg, codec, comment, |rs|) + EncodeRecords(rs') + rest, mk, rest, rs');
  }

  /** Whatever is accepted, re-encoding the result has the length of the consumed bytes and decodes
      to the same result; the remainder is a suffix of the input, the consumed part of a key with
      attributes is within the cap, and there are at most as many attributes as identifiers. */
  lemma DecoderCanonicalises(reg: Registry, b: Data)
    requires Sound(reg) && Decode(reg, b).Ok?
    ensures var (mk, rest) := Decode(reg, b).value;
            && |rest| <= |b| && b[|b| - |rest|..] == rest
            && |Encode(reg, mk)| == |b| - |rest|
            && Decode(reg, Encode(reg, mk) + rest) == Ok((mk, rest))
            && (mk.attributes != map[] ==> |b| - |rest| <= MAX_DECODED_SIZE)
            && |mk.attributes| <= COUNT
  {
    var (mk, rest) := Decode(reg, b).value;
    AcceptedExactly(reg, b, mk, rest);
    var rs :| Writes(reg, b, mk, rest, rs);
    InsertContents(map[], rs);
    SizeIsCanonical(rs);
    RoundTrip(reg, mk, rest);
    AttributeCount(mk.attributes);
  }

  /** A header that announces more attributes than there are identifiers is never accepted, although
      the decoder only compares the count with its own larger maximum. */
  lemma TooManyDeclared(reg: Registry, b: Data)
    requires Sound(reg) && DecodeHeader(reg, b).Ok? && DecodeHeader(reg, b).value.2 > COUNT
    ensures Decode(reg, b).Err?
  {
    var (codec, comment, count, p) := DecodeHeader(reg, b).value;
    if Decode(reg, b).Ok? {
      var rs := RecordsShape(|b|, count, p, map[]);
      InsertContents(map[], rs);
      AttributeCount(Insert(map[], rs));
    }
  }

  /** Input that starts with another codec than the sigil is rejected for that, and a comment that is not
      UTF-8 for that. */
  lemma HeaderIsChecked(reg: Registry, sigil: Codec, codec: Codec, comment: Data, p: Data)
    requires Sound(reg) && |comment| <= MAX_DECODED_SIZE
    ensures sigil != MultikeySigil ==> Decode(reg, Varints.Encode(reg.code(sigil)) + p) == Err(MissingSigil)
    ensures var b := Varints.Encode(reg.code(MultikeySigil)) + (Varints.Encode(reg.code(codec))
                     + (Varints.EncodeBytes(comment) + p));
            Decode(reg, b) == Err(InvalidUtf8) <==> !reg.utf8(comment)
  {
    hide DecodeCodec, Varints.Decode, Varints.DecodeBytes, Varints.Encode, Varints.EncodeBytes, DecodeAttributes;
    DecodeCodecExact(reg, Varints.Encode(reg.code(sigil)) + p, sigil, p);
    var p2 := Varints.EncodeBytes(comment) + p;
    var p1 := Varints.Encode(reg.code(codec)) + p2;
    DecodeCodecExact(reg, Varints.Encode(reg.code(MultikeySigil)) + p1, MultikeySigil, p1);
    DecodeCodecExact(reg, p1, codec, p2);
    Varints.DecodeBytesExact(p2, comment, p);
    var b := Varints.Encode(reg.code(MultikeySigil)) + p1;
    RecordError(p, 0);
    if reg.utf8(comment) && Varints.Decode(p, Varints.USIZE_MAX).Ok? {
      var (count, q) := Varints.Decode(p, Varints.USIZE_MAX).value;
      AttributesError(|b|, count, q, map[], 0);
    }
  }

  /** Exactly the headers that announce more than 256 attributes are rejected for that reason. */
  lemma CountIsChecked(reg: Registry, codec: Codec, comment: Data, count: nat, p: Data)
    requires Sound(reg) && reg.utf8(comment) && |comment| <= MAX_DECODED_SIZE && count <= Varints.USIZE_MAX
    ensures Decode(reg, EncodeHeader(reg, codec, comment, count) + p) == Err(TooManyAttributes(count)) <==> count > 256
  {
    hide EncodeHeader, DecodeAttributes;
    var b := EncodeHeader(reg, codec, comment, count) + p;
    if count <= 256 {
      HeaderDecodes(reg, codec, comment, count, p);
      AttributesError(|b|, count, p, map[], count);
    } else {
      LongHeader(reg, codec, comment, count, p);
    }
  }

  lemma LongHeader(reg: Registry, codec: Codec, comment: Data, count: nat, p: Data)
    requires Sound(reg) && reg.utf8(comment) && |comment| <= MAX_DECODED_SIZE && 256 < count <= Varints.USIZE_MAX
    ensures DecodeHeader(reg, EncodeHeader(reg, codec, comment, count) + p) == Err(TooManyAttributes(count))
  {
    hide EncodeHeader, DecodeCodec, Varints.Decode, Varints.DecodeBytes, Varints.Encode, Varints.EncodeBytes;
    var p3 := Varints.Encode(count) + p;
    var p2 := Varints.EncodeBytes(comment) + p3;
    var p1 := Varints.Encode(reg.code(codec)) + p2;
    HeaderParts(reg, codec, comment, count, p);
    DecodeCodecExact(reg, Varints.Encode(reg.code(MultikeySigil)) + p1, MultikeySigil, p1);
    DecodeCodecExact(reg, p1, codec, p2);
    Varints.DecodeBytesExact(p2, comment, p3);
    Varints.DecodeExact(p3, Varints.USIZE_MAX, count, p);
  }

  /** Neither of these errors comes from the records. */
  predicate HeaderError(e: Error, n: nat) {
    e == TooManyAttributes(n) || e == InvalidUtf8
  }

  lemma RecordError(p: Data, n: nat)
    ensures DecodeAttrId(p).Err? ==> !HeaderError(DecodeAttrId(p).error, n)
    ensures Varints.DecodeBytes(p).Err? ==> !HeaderError(Varints.DecodeBytes(p).error, n)
    ensures Varints.Decode(p, Varints.USIZE_MAX) != Err(InvalidUtf8)
  {}

  lemma {:induction false} AttributesError(start: int, count: nat, p: Data, m: Attributes, n: nat)
    ensures var r := DecodeAttributes(start, count, p, m); r.Err? ==> !HeaderError(r.error, n)
    decreases count
  {
    hide DecodeAttrId, Varints.DecodeBytes;
    if count > 0 {
      RecordError(p, n);
      if DecodeAttrId(p).Ok? {
        var (id, p1) := DecodeAttrId(p).value;
        RecordError(p1, n);
        if Varints.DecodeBytes(p1).Ok? {
          var (data, p2) := Varints.DecodeBytes(p1).value;
          AttributesError(start, count - 1, p2, m[id := data], n);
        }
      }
    }
  }

  /** A repeated attribute is rejected as such wherever it stands: after any distinct records within the
      size cap, a record with one of their identifiers ends decoding with that identifier's code. */
  lemma RepeatedAttributeRejected(
    reg: Registry, codec: Codec, comment: Data, count: nat, rs: seq<Record>, r: Record, rest: Data)
    requires Sound(reg) && reg.utf8(comment) && |comment| <= MAX_DECODED_SIZE && |rs| < count <= 256
    requires DistinctIds(rs) && |r.data| <= MAX_DECODED_SIZE && exists i :: 0 <= i < |rs| && rs[i].id == r.id
    requires |EncodeHeader(reg, codec, comment, count)| + |EncodeRecords(rs)| <= MAX_DECODED_SIZE
    ensures Decode(reg, EncodeHeader(reg, codec, comment, count) + (EncodeRecords(rs) + (EncodeRecord(r) + rest)))
         == Err(DuplicateAttribute(Code(r.id)))
  {
    hide EncodeHeader, EncodeRecord, EncodeRecords, DecodeAttributes, Code, FromCode;
    var p := EncodeRecords(rs) + (EncodeRecord(r) + rest);
    var b := EncodeHeader(reg, codec, comment, count) + p;
    HeaderDecodes(reg, codec, comment, count, p);
    DuplicateStops(|b|, count, rs, r, rest, map[]);
  }

  lemma {:induction false} DuplicateStops(
    start: int, count: nat, rs: seq<Record>, r: Record, rest: Data, m: Attributes)
    requires Fresh(m, rs) && |rs| < count && |r.data| <= MAX_DECODED_SIZE
    requires r.id in m || exists i :: 0 <= i < |rs| && rs[i].id == r.id
    requires |EncodeRecords(rs) + (EncodeRecord(r) + rest)| <= start
    requires start - |EncodeRecord(r) + rest| <= MAX_DECODED_SIZE
    ensures DecodeAttributes(start, count, EncodeRecords(rs) + (EncodeRecord(r) + rest), m)
         == Err(DuplicateAttribute(Code(r.id)))
    decreases |rs|
  {
    hide Code, FromCode, EncodeRecord, DecodeAttrId, Varints.DecodeBytes;
    var tail := EncodeRecord(r) + rest;
    if rs == [] {
      assert EncodeRecords(rs) + tail == tail;
      var p := RecordDecodes(r, rest);
    } else {
      var first, next := rs[0], EncodeRecords(rs[1..]) + tail;
      assert EncodeRecords(rs) + tail == EncodeRecord(first) + next;
      RecordSize(first);
      var p := RecordDecodes(first, next);
      var m' := m[first.id := first.data];
      if r.id !in m' {
        var i :| 0 <= i < |rs| && rs[i].id == r.id;
        assert rs[1..][i - 1].id == r.id;
      }
      DuplicateStops(start, count - 1, rs[1..], r, rest, m');
    }
  }

  // ---- size ----

  /** `m` has no attribute that `n` has not, and none is longer. */
  ghost predicate NoLarger(m: Attributes, n: Attributes) {
    forall id: AttrId :: id in m ==> id in n && |m[id]| <= |n[id]|
  }

  lemma {:induction false} SizeMonotone(m: Attributes, n: Attributes, c: nat)
    requires c <= COUNT && NoLarger(m, n)
    ensures SizeFrom(m, c) <= SizeFrom(n, c)
    decreases COUNT - c
  {
    hide Code, FromCode, Varints.Encode;
    if c < COUNT {
      SizeMonotone(m, n, c + 1);
      if AtCode(c) in m { Varints.EncodeMonotone(|m[AtCode(c)]|, |n[AtCode(c)]|); }
    }
  }

  lemma {:induction false} SizeOfNothing(c: nat)
    requires c <= COUNT
    ensures SizeFrom(map[], c) == 0
    decreases COUNT - c
  {
    if c < COUNT { SizeOfNothing(c + 1); }
  }

  lemma EncodedSize(m: Attributes)
    ensures |EncodeRecords(Entries(m))| == SizeFrom(m, 0)
  {
    EntriesOfMap(m);
    SizeOfRecords(map[], Entries(m));
    SizeOfNothing(0);
  }

  /** A key with fewer or shorter attributes is no longer on the wire. */
  lemma SmallerKey(reg: Registry, mk: Multikey, n: Multikey)
    requires mk.codec == n.codec && mk.comment == n.comment && NoLarger(mk.attributes, n.attributes)
    ensures |Encode(reg, mk)| <= |Encode(reg, n)|
  {
    hide Entries, EncodeRecords, Varints.Encode;
    EncodedSize(mk.attributes);
    EncodedSize(n.attributes);
    SizeMonotone(mk.attributes, n.attributes, 0);
    CardinalityMonotone(mk.attributes.Keys, n.attributes.Keys);
    assert |mk.attributes| == |mk.attributes.Keys| && |n.attributes| == |n.attributes.Keys|;
    Varints.EncodeMonotone(|mk.attributes|, |n.attributes|);
  }

  lemma CardinalityMonotone(a: set<AttrId>, b: set<AttrId>)
    requires a <= b
    ensures |a| <= |b|
  {
    assert b == a + (b - a);
  }

  // ---- injectivity ----

  lemma BytesPrefixFree(d: Data, d': Data, x: Data, x': Data)
    requires Varints.EncodeBytes(d) + x == Varints.EncodeBytes(d') + x'
    ensures d == d' && x == x'
  {
    var b := Varints.EncodeBytes(d) + x;
    assert b == Varints.Encode(|d|) + (d + x);
    assert b == Varints.Encode(|d'|) + (d' + x');
    Varints.ParseEncode(|d|, d + x);
    Varints.ParseEncode(|d'|, d' + x');
    assert (d + x)[..|d|] == d && (d' + x')[..|d|] == d';
    assert (d + x)[|d|..] == x && (d' + x')[|d|..] == x';
  }

  lemma VarintPrefixFree(n: nat, n': nat, x: Data, x': Data)
    requires Varints.Encode(n) + x == Varints.Encode(n') + x'
    ensures n == n' && x == x'
  {
    Varints.ParseEncode(n, x);
    Varints.ParseEncode(n', x');
  }

  lemma RecordPrefixFree(r: Record, r': Record, x: Data, x': Data)
    requires EncodeRecord(r) + x == EncodeRecord(r') + x'
    ensures r == r' && x == x'
  {
    assert EncodeRecord(r) + x == Varints.Encode(Code(r.id)) + (Varints.EncodeBytes(r.data) + x);
    assert EncodeRecord(r') + x' == Varints.Encode(Code(r'.id)) + (Varints.EncodeBytes(r'.data) + x');
    VarintPrefixFree(Code(r.id), Code(r'.id), Varints.EncodeBytes(r.data) + x, Varints.EncodeBytes(r'.data) + x');
    FromCodeOfCode(r.id);
    FromCodeOfCode(r'.id);
    BytesPrefixFree(r.data, r'.data, x, x');
  }

  lemma {:induction false} RecordsPrefixFree(rs: seq<Record>, rs': seq<Record>, x: Data, x': Data)
    requires |rs| == |rs'| && EncodeRecords(rs) + x == EncodeRecords(rs') + x'
    ensures rs == rs' && x == x'
    decreases |rs|
  {
    hide EncodeRecord;
    if rs == [] {
      assert EncodeRecords(rs) + x == x && EncodeRecords(rs') + x' == x';
    } else {
      var t, t' := EncodeRecords(rs[1..]) + x, EncodeRecords(rs'[1..]) + x';
      assert EncodeRecords(rs) + x == EncodeRecord(rs[0]) + t;
      assert EncodeRecords(rs') + x' == EncodeRecord(rs'[0]) + t';
      RecordPrefixFree(rs[0], rs'[0], t, t');
      RecordsPrefixFree(rs[1..], rs'[1..], x, x');
      assert rs == [rs[0]] + rs[1..] && rs' == [rs'[0]] + rs'[1..];
    }
  }

  lemma HeaderPrefixFree(reg: Registry, mk: Multikey, mk': Multikey, n: nat, n': nat, x: Data, x': Data)
    requires Sound(reg)
    requires EncodeHeader(reg, mk.codec, mk.comment, n) + x == EncodeHeader(reg, mk'.codec, mk'.comment, n') + x'
    ensures mk.codec == mk'.codec && mk.comment == mk'.comment && n == n' && x == x'
  {
    HeaderParts(reg, mk.codec, mk.comment, n, x);
    HeaderParts(reg, mk'.codec, mk'.comment, n', x');
    var u, u' := Varints.Encode(n) + x, Varints.Encode(n') + x';
    var v, v' := Varints.EncodeBytes(mk.comment) + u, Varints.EncodeBytes(mk'.comment) + u';
    var w, w' := Varints.Encode(reg.code(mk.codec)) + v, Varints.Encode(reg.code(mk'.codec)) + v';
    VarintPrefixFree(reg.code(MultikeySigil), reg.code(MultikeySigil), w, w');
    VarintPrefixFree(reg.code(mk.codec), reg.code(mk'.codec), v, v');
    assert reg.lookup(reg.code(mk.codec)) == Some(mk.codec) && reg.lookup(reg.code(mk'.codec)) == Some(mk'.codec);
    BytesPrefixFree(mk.comment, mk'.comment, u, u');
    VarintPrefixFree(n, n', x, x');
  }

  lemma EncodeParts(reg: Registry, mk: Multikey, x: Data)
    ensures Encode(reg, mk) + x ==
            EncodeHeader(reg, mk.codec, mk.comment, |mk.attributes|) + (EncodeRecords(Entries(mk.attributes)) + x)
  {
    hide EncodeHeader, EncodeRecords, Entries;
  }

  /** No encoding is a prefix of another: keys of any size, and whatever follows them, are
      determined by the bytes. */
  lemma PrefixFree(reg: Registry, mk: Multikey, mk': Multikey, x: Data, x': Data)
    requires Sound(reg) && Encode(reg, mk) + x == Encode(reg, mk') + x'
    ensures mk == mk' && x == x'
  {
    hide Encode, EncodeHeader, EncodeRecords, Entries, Insert;
    var n, n', rs, rs' := |mk.attributes|, |mk'.attributes|, Entries(mk.attributes), Entries(mk'.attributes);
    EncodeParts(reg, mk, x);
    EncodeParts(reg, mk', x');
    HeaderPrefixFree(reg, mk, mk', n, n', EncodeRecords(rs) + x, EncodeRecords(rs') + x');
    EntriesOfMap(mk.attributes);
    EntriesOfMap(mk'.attributes);
    RecordsPrefixFree(rs, rs', x, x');
  }

  /** Comparing encodings, as the constant-time comparison does. */
  predicate CtEq(reg: Registry, mk: Multikey, mk': Multikey) {
    Encode(reg, mk) == Encode(reg, mk')
  }

  lemma CtEqIsEquality(reg: Registry, mk: Multikey, mk': Multikey)
    requires Sound(reg)
    ensures CtEq(reg, mk, mk') <==> mk == mk'
  {
    if CtEq(reg, mk, mk') { PrefixFree(reg, mk, mk', [], []); }
  }

  function EncodeAll(reg: Registry, mks: seq<Multikey>): Data {
    if mks == [] then [] else Encode(reg, mks[0]) + EncodeAll(reg, mks[1..])
  }

  lemma EncodeNonEmpty(reg: Registry, mk: Multikey)
    ensures Encode(reg, mk) != []
  {}

  /** A concatenation of encoded keys splits into keys in one way only. */
  lemma {:induction false} StreamsUnique(reg: Registry, mks: seq<Multikey>, mks': seq<Multikey>)
    requires Sound(reg) && EncodeAll(reg, mks) == EncodeAll(reg, mks')
    ensures mks == mks'
    decreases |mks|
  {
    if mks != [] { EncodeNonEmpty(reg, mks[0]); }
    if mks' != [] { EncodeNonEmpty(reg, mks'[0]); }
    if mks != [] && mks' != [] {
      PrefixFree(reg, mks[0], mks'[0], EncodeAll(reg, mks[1..]), EncodeAll(reg, mks'[1..]));
      StreamsUnique(reg, mks[1..], mks'[1..]);
      assert mks == [mks[0]] + mks[1..] && mks' == [mks'[0]] + mks'[1..];
    }
  }
}
