/** The Multikey container and its wire format: the specification of the encoder and decoder. */
module Wire {
  import opened Wrappers
  import opened Bytes
  import opened Codecs
  import opened AttrIds
  import Varints

  type Attributes = map<AttrId, Data>

  datatype Multikey = Multikey(codec: Codec, comment: Data, attributes: Attributes)

  datatype Record = Record(id: AttrId, data: Data)

  /** Also the cap on the bytes a key with attributes may take up. */
  const MAX_DECODED_SIZE: nat := Varints.MAX_DECODED_SIZE
  const MAX_ATTRIBUTES: nat := 256

  // ---- encoding ----

  function EncodeRecord(r: Record): (b: Data)
    ensures b != []
  {
    Varints.Encode(Code(r.id)) + Varints.EncodeBytes(r.data)
  }

  function EncodeRecords(rs: seq<Record>): Data {
    if rs == [] then [] else EncodeRecord(rs[0]) + EncodeRecords(rs[1..])
  }

  function AtCode(c: nat): (id: AttrId)
    requires c < COUNT
    ensures Code(id) == c
  {
    CodeOfFromCode(c);
    FromCode(c).value
  }

  /** The attributes with codes from `c` on, in ascending order of code. */
  function EntriesFrom(m: Attributes, c: nat): seq<Record>
    requires c <= COUNT
    decreases COUNT - c
  {
    if c == COUNT then []
    else (if AtCode(c) in m then [Record(AtCode(c), m[AtCode(c)])] else []) + EntriesFrom(m, c + 1)
  }

  function Entries(m: Attributes): seq<Record> {
    EntriesFrom(m, 0)
  }

  function EncodeHeader(reg: Registry, codec: Codec, comment: Data, count: nat): Data {
    Varints.Encode(reg.code(MultikeySigil)) + Varints.Encode(reg.code(codec))
    + Varints.EncodeBytes(comment) + Varints.Encode(count)
  }

  function Encode(reg: Registry, mk: Multikey): Data {
    EncodeHeader(reg, mk.codec, mk.comment, |mk.attributes|) + EncodeRecords(Entries(mk.attributes))
  }

  // ---- decoding ----

  function DecodeCodec(reg: Registry, b: Data): Result<(Codec, Data)> {
    var (n, p) :- Varints.Decode(b, Varints.USIZE_MAX);
    match reg.lookup(n)
    case None => Err(UnknownCodec(n))
    case Some(c) => Ok((c, p))
  }

  function DecodeAttrId(b: Data): Result<(AttrId, Data)> {
    var (n, p) :- Varints.Decode(b, Varints.U8_MAX);
    var id :- FromCode(n);
    Ok((id, p))
  }

  /** `start` is the length of the whole input, `count` the number of attributes still to come. */
  function DecodeAttributes(start: int, count: nat, p: Data, attributes: Attributes): Result<(Attributes, Data)> {
    if count == 0 then Ok((attributes, p))
    else
      var (id, p1) :- DecodeAttrId(p);
      var (data, p2) :- Varints.DecodeBytes(p1);
      if id in attributes then Err(DuplicateAttribute(Code(id)))
      else if start - |p2| > MAX_DECODED_SIZE then Err(InputTooLarge(start - |p2|))
      else DecodeAttributes(start, count - 1, p2, attributes[id := data])
  }

  function DecodeHeader(reg: Registry, b: Data): Result<(Codec, Data, nat, Data)> {
    var (sigil, p) :- DecodeCodec(reg, b);
    if sigil != MultikeySigil then Err(MissingSigil)
    else
      var (codec, p) :- DecodeCodec(reg, p);
      var (comment, p) :- Varints.DecodeBytes(p);
      if !reg.utf8(comment) then Err(InvalidUtf8)
      else
        var (count, p) :- Varints.Decode(p, Varints.USIZE_MAX);
        if count > MAX_ATTRIBUTES then Err(TooManyAttributes(count))
        else Ok((codec, comment, count, p))
  }

  function Decode(reg: Registry, b: Data): Result<(Multikey, Data)> {
    var (codec, comment, count, p) :- DecodeHeader(reg, b);
    var (attributes, p) :- DecodeAttributes(|b|, count, p, map[]);
    Ok((Multikey(codec, comment, attributes), p))
  }

  // ---- attribute lists and maps ----

  predicate DistinctIds(rs: seq<Record>) {
    forall i, j :: 0 <= i < j < |rs| ==> rs[i].id != rs[j].id
  }

  /** The map after inserting the records one after the other. */
  function Insert(m: Attributes, rs: seq<Record>): Attributes
    decreases rs
  {
    if rs == [] then m else Insert(m[rs[0].id := rs[0].data], rs[1..])
  }

  ghost predicate Fresh(m: Attributes, rs: seq<Record>) {
    DistinctIds(rs) && forall i :: 0 <= i < |rs| ==> rs[i].id !in m
  }

  /** `n` has what `m` has and the records. */
  ghost predicate Extends(n: Attributes, m: Attributes, rs: seq<Record>) {
    forall id: AttrId, d: Data :: (id in n && n[id] == d) <==> ((id in m && m[id] == d) || Record(id, d) in rs)
  }

  lemma {:induction false} InsertContents(m: Attributes, rs: seq<Record>)
    requires Fresh(m, rs)
    ensures Extends(Insert(m, rs), m, rs)
    ensures |Insert(m, rs)| == |m| + |rs|
    decreases rs
  {
    if rs == [] {
      assert Insert(m, rs) == m;
    } else {
      var m' := m[rs[0].id := rs[0].data];
      InsertContents(m', rs[1..]);
      ExtendsCons(Insert(m', rs[1..]), m, rs);
    }
  }

  lemma ExtendsCons(n: Attributes, m: Attributes, rs: seq<Record>)
    requires rs != [] && rs[0].id !in m && Extends(n, m[rs[0].id := rs[0].data], rs[1..])
    ensures Extends(n, m, rs)
  {
    var r := rs[0];
    var m' := m[r.id := r.data];
    forall id: AttrId, d: Data
      ensures (id in n && n[id] == d) <==> ((id in m && m[id] == d) || Record(id, d) in rs)
    {
      assert Record(id, d) in rs <==> Record(id, d) == r || Record(id, d) in rs[1..] by {
        assert rs == [r] + rs[1..];
      }
      assert (id in m' && m'[id] == d) <==> ((id in m && m[id] == d) || Record(id, d) == r);
    }
  }

  /** Equal records make equal maps, in whatever order they are inserted. */
  lemma InsertOrder(rs: seq<Record>, rs': seq<Record>)
    requires DistinctIds(rs) && DistinctIds(rs')
    requires forall r: Record :: r in rs <==> r in rs'
    ensures Insert(map[], rs) == Insert(map[], rs')
  {
    InsertContents(map[], rs);
    InsertContents(map[], rs');
    var m, m' := Insert(map[], rs), Insert(map[], rs');
    forall id: AttrId
      ensures id in m <==> id in m'
      ensures id in m ==> m[id] == m'[id]
    {
      if id in m { assert Record(id, m[id]) in rs; }
      if id in m' { assert Record(id, m'[id]) in rs'; }
    }
  }

  lemma {:induction false} EntriesContents(m: Attributes, c: nat)
    requires c <= COUNT
    ensures DistinctIds(EntriesFrom(m, c))
    ensures forall r: Record :: r in EntriesFrom(m, c) <==> r.id in m && Code(r.id) >= c && m[r.id] == r.data
    decreases COUNT - c
  {
    hide Code, FromCode;
    if c == COUNT {
      forall r: Record ensures Code(r.id) < COUNT { FromCodeOfCode(r.id); }
    } else {
      EntriesContents(m, c + 1);
      var tail, id := EntriesFrom(m, c + 1), AtCode(c);
      var head := if id in m then [Record(id, m[id])] else [];
      assert EntriesFrom(m, c) == head + tail;
      forall r: Record
        ensures r in head <==> r.id in m && Code(r.id) == c && m[r.id] == r.data
      {
        CodesInverse(r.id, c);
      }
      forall i | 0 <= i < |tail| ensures Code(tail[i].id) > c { assert tail[i] in tail; }
    }
  }

  /** The ordered list of a map's attributes inserts back to the map. */
  lemma EntriesOfMap(m: Attributes)
    ensures DistinctIds(Entries(m)) && Insert(map[], Entries(m)) == m && |Entries(m)| == |m|
  {
    hide Code, FromCode, EntriesFrom, Insert;
    EntriesContents(m, 0);
    InsertContents(map[], Entries(m));
    var n := Insert(map[], Entries(m));
    forall id: AttrId
      ensures id in m <==> id in n
      ensures id in m ==> n[id] == m[id]
    {
      if id in m { assert Record(id, m[id]) in Entries(m); }
      if id in n { assert Record(id, n[id]) in Entries(m); }
    }
  }

  /** There are no more attributes than identifiers. */
  lemma AttributeCount(m: Attributes)
    ensures |m| <= COUNT
  {
    EntriesOfMap(m);
    EntriesCount(m, 0);
  }

  lemma {:induction false} EntriesCount(m: Attributes, c: nat)
    requires c <= COUNT
    ensures |EntriesFrom(m, c)| <= COUNT - c
    decreases COUNT - c
  {
    if c < COUNT { EntriesCount(m, c + 1); }
  }

  // ---- the size of an encoding ----

  function SizeFrom(m: Attributes, c: nat): nat
    requires c <= COUNT
    decreases COUNT - c
  {
    if c == COUNT then 0
    else (if AtCode(c) in m then |EncodeRecord(Record(AtCode(c), m[AtCode(c)]))| else 0) + SizeFrom(m, c + 1)
  }

  lemma {:induction false} SizeOfInsert(m: Attributes, r: Record, c: nat)
    requires c <= COUNT && r.id !in m
    ensures SizeFrom(m[r.id := r.data], c) == SizeFrom(m, c) + if Code(r.id) >= c then |EncodeRecord(r)| else 0
    decreases COUNT - c
  {
    hide Code, FromCode, EncodeRecord;
    FromCodeOfCode(r.id);
    if c < COUNT {
      SizeOfInsert(m, r, c + 1);
      CodesInverse(r.id, c);
    }
  }

  lemma {:induction false} SizeOfRecords(m: Attributes, rs: seq<Record>)
    requires Fresh(m, rs)
    ensures SizeFrom(Insert(m, rs), 0) == SizeFrom(m, 0) + |EncodeRecords(rs)|
    decreases rs
  {
    if rs != [] {
      SizeOfRecords(m[rs[0].id := rs[0].data], rs[1..]);
      SizeOfInsert(m, rs[0], 0);
    }
  }

  /** Every order of the same attributes takes the same number of bytes. */
  lemma SizeIsCanonical(rs: seq<Record>)
    requires DistinctIds(rs)
    ensures |EncodeRecords(rs)| == |EncodeRecords(Entries(Insert(map[], rs)))|
  {
    EntriesOfMap(Insert(map[], rs));
    SizeOfRecords(map[], rs);
    SizeOfRecords(map[], Entries(Insert(map[], rs)));
  }
}
