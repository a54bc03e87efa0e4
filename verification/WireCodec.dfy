/** The encoder, which appends to one buffer in place, and the decoder, which moves a cursor and
    inserts into a map, proved equal to the wire specification. */
module WireCodec {
  import opened Wrappers
  import opened Bytes
  import opened Codecs
  import opened AttrIds
  import opened Wire
  import Varints

  class Buffer {
    var bytes: Data

    constructor ()
      ensures bytes == []
    {
      bytes := [];
    }

    method AppendVarint(n: nat)
      modifies this
      ensures bytes == old(bytes) + Varints.Encode(n)
    {
      bytes := bytes + Varints.Encode(n);
    }

    /** A length prefix and the bytes, without an intermediate copy. */
    method AppendVarbytes(data: Data)
      modifies this
      ensures bytes == old(bytes) + Varints.EncodeBytes(data)
    {
      AppendVarint(|data|);
      bytes := bytes + data;
    }
  }

  lemma {:induction false} EncodeRecordsSnoc(rs: seq<Record>, r: Record)
    ensures EncodeRecords(rs + [r]) == EncodeRecords(rs) + EncodeRecord(r)
  {
    hide EncodeRecord;
    if rs == [] {
      assert [r][1..] == [];
    } else {
      EncodeRecordsSnoc(rs[1..], r);
      assert (rs + [r])[1..] == rs[1..] + [r];
    }
  }

  lemma NoRecords()
    ensures EncodeRecords([]) == []
  {}

  lemma AppendedRecord(v: Data, rs: seq<Record>, r: Record)
    ensures v + EncodeRecords(rs) + Varints.Encode(Code(r.id)) + Varints.EncodeBytes(r.data)
         == v + EncodeRecords(rs + [r])
  {
    EncodeRecordsSnoc(rs, r);
  }

  method EncodeInPlace(reg: Registry, mk: Multikey) returns (encoded: Data)
    ensures encoded == Encode(reg, mk)
  {
    hide Entries, Code, EncodeRecords, Varints.Encode, Varints.EncodeBytes;
    var v := new Buffer();
    v.AppendVarint(reg.code(MultikeySigil));
    v.AppendVarint(reg.code(mk.codec));
    v.AppendVarbytes(mk.comment);
    v.AppendVarint(|mk.attributes|);
    var entries := Entries(mk.attributes);
    ghost var header := v.bytes;
    assert header == EncodeHeader(reg, mk.codec, mk.comment, |mk.attributes|);
    assert EncodeRecords(entries[..0]) == [] by { NoRecords(); }
    for i := 0 to |entries|
      invariant v.bytes == header + EncodeRecords(entries[..i])
    {
      AppendedRecord(header, entries[..i], entries[i]);
      assert entries[..i + 1] == entries[..i] + [entries[i]];
      v.AppendVarint(Code(entries[i].id));
      v.AppendVarbytes(entries[i].data);
    }
    assert entries[..|entries|] == entries;
    encoded := v.bytes;
  }

  method TryDecode(reg: Registry, bytes: Data) returns (r: Result<(Multikey, Data)>)
    ensures r == Decode(reg, bytes)
  {
    hide Code, FromCode, Varints.Decode, Varints.DecodeBytes, DecodeCodec, DecodeAttrId;
    var startLength := |bytes|;
    var sigil :- DecodeCodec(reg, bytes);
    if sigil.0 != MultikeySigil { return Err(MissingSigil); }
    var codec :- DecodeCodec(reg, sigil.1);
    var comment :- Varints.DecodeBytes(codec.1);
    if !reg.utf8(comment.0) { return Err(InvalidUtf8); }
    var count :- Varints.Decode(comment.1, Varints.USIZE_MAX);
    if count.0 > MAX_ATTRIBUTES { return Err(TooManyAttributes(count.0)); }
    var attributes: Attributes := map[];
    var p := count.1;
    for i := 0 to count.0
      invariant DecodeAttributes(startLength, count.0 - i, p, attributes)
                == DecodeAttributes(startLength, count.0, count.1, map[])
    {
      var id :- DecodeAttrId(p);
      var data :- Varints.DecodeBytes(id.1);
      var present := id.0 in attributes;
      attributes := attributes[id.0 := data.0];
      if present { return Err(DuplicateAttribute(Code(id.0))); }
      var consumed := startLength - |data.1|;
      if consumed > MAX_DECODED_SIZE { return Err(InputTooLarge(consumed)); }
      p := data.1;
    }
    r := Ok((Multikey(codec.0, comment.0, attributes), p));
  }
}
