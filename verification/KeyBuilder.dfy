/** The builder of Multikeys, whose methods overwrite its fields and whose last step adds the shares
    it was given one by one. */
module KeyBuilder {
  import opened Wrappers
  import opened Bytes
  import opened Codecs
  import opened AttrIds
  import opened Wire
  import opened Sharing
  import opened BlsShares
  import opened BlsAccumulator

  function GetOr<T>(o: Option<T>, default: T): T {
    if o.Some? then o.value else default
  }

  class Builder {
    var codec: Codec
    var comment: Option<Data>
    var attributes: Option<Attributes>
    var shares: Option<seq<Multikey>>

    constructor (c: Codec)
      ensures codec == c && comment == None && attributes == None && shares == None
    {
      codec := c;
      comment, attributes, shares := None, None, None;
    }

    /** The key described by the fields, without the shares. */
    function Described(): Multikey
      reads this
    {
      Multikey(codec, GetOr(comment, []), GetOr(attributes, map[]))
    }

    method WithComment(c: Data)
      modifies this`comment
      ensures Described() == old(Described()).(comment := c)
    {
      comment := Some(c);
    }

    /** A second attribute with the same identifier replaces the first. */
    method WithAttribute(id: AttrId, data: Data)
      modifies this`attributes
      ensures Described() == old(Described()).(attributes := old(Described()).attributes[id := data])
    {
      var m: Attributes := GetOr(attributes, map[]);
      m := m[id := data];
      attributes := Some(m);
    }

    method AddShareKey(share: Multikey)
      modifies this`shares
      ensures GetOr(shares, []) == old(GetOr(shares, [])) + [share]
    {
      var list := GetOr(shares, []);
      shares := Some(list + [share]);
    }

    /** Building folds the shares into the described key. */
    method TryBuild(order: Positive) returns (r: Result<Multikey>)
      ensures r == FoldShares(order, Described(), GetOr(shares, []))
    {
      hide AddShareTo;
      var mk := Described();
      if shares.Some? {
        var list := shares.value;
        for i := 0 to |list|
          invariant FoldShares(order, mk, list[i..]) == FoldShares(order, Described(), list)
        {
          mk :- AddThroughView(order, mk, list[i]);
        }
      }
      r := Ok(mk);
    }
  }
}
