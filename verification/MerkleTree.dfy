/** Binary hash trees over 2^depth leaves, for any depth. */
module MerkleTree {
  import opened Bytes

  /** The hash of two child nodes. */
  type NodeHash = (Data, Data) -> Data

  function Pow2(d: nat): (r: nat)
    ensures r > 0
  {
    if d == 0 then 1 else 2 * Pow2(d - 1)
  }

  function Root(node: NodeHash, d: nat, leaves: seq<Data>): Data
    requires |leaves| == Pow2(d)
  {
    if d == 0 then leaves[0]
    else node(Root(node, d - 1, leaves[..Pow2(d - 1)]), Root(node, d - 1, leaves[Pow2(d - 1)..]))
  }

  /** The siblings on the way from the i-th leaf to the root, lowest first. */
  function Path(node: NodeHash, d: nat, leaves: seq<Data>, i: nat): (p: seq<Data>)
    requires |leaves| == Pow2(d) && i < Pow2(d)
    ensures |p| == d
  {
    if d == 0 then []
    else
      var half := Pow2(d - 1);
      if i < half then Path(node, d - 1, leaves[..half], i) + [Root(node, d - 1, leaves[half..])]
      else Path(node, d - 1, leaves[half..], i - half) + [Root(node, d - 1, leaves[..half])]
  }

  /** The root recomputed from a leaf, its position and a path. */
  function Climb(node: NodeHash, leaf: Data, i: nat, path: seq<Data>): Data
    requires i < Pow2(|path|)
  {
    if path == [] then leaf
    else
      var d := |path| - 1;
      if i < Pow2(d) then node(Climb(node, leaf, i, path[..d]), path[d])
      else node(path[d], Climb(node, leaf, i - Pow2(d), path[..d]))
  }

  lemma Halves(d: nat)
    ensures if d == 0 then Pow2(d) == 1 else Pow2(d) == 2 * Pow2(d - 1)
  {}

  /** The path of a leaf leads to the root. */
  lemma {:induction false} PathLeadsToRoot(node: NodeHash, d: nat, leaves: seq<Data>, i: nat)
    requires |leaves| == Pow2(d) && i < Pow2(d)
    ensures Climb(node, leaves[i], i, Path(node, d, leaves, i)) == Root(node, d, leaves)
  {
    hide Pow2;
    Halves(d);
    if d > 0 {
      var half, p := Pow2(d - 1), Path(node, d, leaves, i);
      if i < half {
        assert p[..d - 1] == Path(node, d - 1, leaves[..half], i);
        PathLeadsToRoot(node, d - 1, leaves[..half], i);
      } else {
        assert p[..d - 1] == Path(node, d - 1, leaves[half..], i - half);
        PathLeadsToRoot(node, d - 1, leaves[half..], i - half);
      }
    }
  }

  /** The two nodes that the way from a leaf hashes at a level, counted from the leaves. */
  function ClimbPair(node: NodeHash, leaf: Data, i: nat, path: seq<Data>, level: nat): (Data, Data)
    requires i < Pow2(|path|) && level < |path|
    decreases |path|
  {
    var d := |path| - 1;
    var half := Pow2(d);
    if level < d then ClimbPair(node, leaf, if i < half then i else i - half, path[..d], level)
    else if i < half then (Climb(node, leaf, i, path[..d]), path[d])
    else (path[d], Climb(node, leaf, i - half, path[..d]))
  }

  /** The two nodes that the tree itself hashes there, above its i-th leaf. */
  function TreePair(node: NodeHash, d: nat, leaves: seq<Data>, i: nat, level: nat): (Data, Data)
    requires |leaves| == Pow2(d) && i < Pow2(d) && level < d
  {
    var half := Pow2(d - 1);
    if level == d - 1 then (Root(node, d - 1, leaves[..half]), Root(node, d - 1, leaves[half..]))
    else if i < half then TreePair(node, d - 1, leaves[..half], i, level)
    else TreePair(node, d - 1, leaves[half..], i - half, level)
  }

  function HashPair(node: NodeHash, pair: (Data, Data)): Data {
    node(pair.0, pair.1)
  }

  /** At the given level the way from the leaf hashes another pair of nodes than the tree, with the
      same result; above that level it follows the tree's own path. */
  predicate CollidesAt(
    node: NodeHash, d: nat, leaves: seq<Data>, i: nat, leaf: Data, path: seq<Data>, level: nat)
    requires |leaves| == Pow2(d) && i < Pow2(d) && |path| == d && level < d
  {
    var climbed, own := ClimbPair(node, leaf, i, path, level), TreePair(node, d, leaves, i, level);
    && climbed != own && HashPair(node, climbed) == HashPair(node, own)
    && path[level + 1..] == Path(node, d, leaves, i)[level + 1..]
  }

  predicate IsOwn(node: NodeHash, d: nat, leaves: seq<Data>, i: nat, leaf: Data, path: seq<Data>)
    requires |leaves| == Pow2(d) && i < Pow2(d) && |path| == d
  {
    leaf == leaves[i] && path == Path(node, d, leaves, i)
  }

  /** One level of the statement below: the half of the tree that holds the leaf. */
  lemma CollidesBelow(
    node: NodeHash, d: nat, leaves: seq<Data>, i: nat, leaf: Data, path: seq<Data>, level: nat)
    requires d > 0 && |leaves| == Pow2(d) && i < Pow2(d) && |path| == d && level < d - 1
    ensures Pow2(d) == 2 * Pow2(d - 1)
    ensures var half := Pow2(d - 1);
            var (kept, j) := if i < half then (leaves[..half], i) else (leaves[half..], i - half);
            CollidesAt(node, d, leaves, i, leaf, path, level) <==>
            path[d - 1] == Path(node, d, leaves, i)[d - 1]
            && CollidesAt(node, d - 1, kept, j, leaf, path[..d - 1], level)
  {
    hide Pow2, Root, Climb;
    Halves(d);
    var half := Pow2(d - 1);
    var (kept, j) := if i < half then (leaves[..half], i) else (leaves[half..], i - half);
    var own := Path(node, d, leaves, i);
    assert own[..d - 1] == Path(node, d - 1, kept, j);
    assert own[level + 1..] == own[..d - 1][level + 1..] + [own[d - 1]];
    assert path[level + 1..] == path[..d - 1][level + 1..] + [path[d - 1]];
    assert ClimbPair(node, leaf, i, path, level) == ClimbPair(node, leaf, j, path[..d - 1], level);
    assert TreePair(node, d, leaves, i, level) == TreePair(node, d - 1, kept, j, level);
  }

  lemma OwnBelow(node: NodeHash, d: nat, leaves: seq<Data>, i: nat, leaf: Data, path: seq<Data>)
    requires d > 0 && |leaves| == Pow2(d) && i < Pow2(d) && |path| == d
    ensures Pow2(d) == 2 * Pow2(d - 1)
    ensures var half := Pow2(d - 1);
            var (kept, j) := if i < half then (leaves[..half], i) else (leaves[half..], i - half);
            IsOwn(node, d, leaves, i, leaf, path) <==>
            path[d - 1] == Path(node, d, leaves, i)[d - 1] && IsOwn(node, d - 1, kept, j, leaf, path[..d - 1])
  {
    hide Pow2, Root;
    Halves(d);
    var own := Path(node, d, leaves, i);
    assert own == own[..d - 1] + [own[d - 1]] && path == path[..d - 1] + [path[d - 1]];
  }

  /** A pair at the top level: equal pairs are an equal sibling and an equal root below. */
  lemma TopPairs(node: NodeHash, d: nat, leaves: seq<Data>, i: nat, leaf: Data, path: seq<Data>)
    requires d > 0 && |leaves| == Pow2(d) && i < Pow2(d) && |path| == d
    ensures Pow2(d) == 2 * Pow2(d - 1)
    ensures var half := Pow2(d - 1);
            var (kept, j) := if i < half then (leaves[..half], i) else (leaves[half..], i - half);
            ClimbPair(node, leaf, i, path, d - 1) == TreePair(node, d, leaves, i, d - 1) <==>
            path[d - 1] == Path(node, d, leaves, i)[d - 1]
            && Climb(node, leaf, j, path[..d - 1]) == Root(node, d - 1, kept)
    ensures HashPair(node, ClimbPair(node, leaf, i, path, d - 1)) == Climb(node, leaf, i, path)
    ensures HashPair(node, TreePair(node, d, leaves, i, d - 1)) == Root(node, d, leaves)
  {
    hide Pow2;
    Halves(d);
  }

  /** A leaf and a path lead to the root exactly if they are the tree's own at that position, or if
      at some level of the way they hash another pair of nodes than the tree to the same value. */
  lemma {:induction false} RootBinds(
    node: NodeHash, d: nat, leaves: seq<Data>, i: nat, leaf: Data, path: seq<Data>)
    requires |leaves| == Pow2(d) && i < Pow2(d) && |path| == d
    ensures Climb(node, leaf, i, path) == Root(node, d, leaves) <==>
            IsOwn(node, d, leaves, i, leaf, path)
            || exists level: nat :: level < d && CollidesAt(node, d, leaves, i, leaf, path, level)
    decreases d
  {
    hide Pow2, Path, ClimbPair, TreePair, CollidesAt, IsOwn;
    Halves(d);
    if d == 0 {
      ShortTree(node, leaves, leaf, path);
    } else {
      var half := Pow2(d - 1);
      var (kept, j) := if i < half then (leaves[..half], i) else (leaves[half..], i - half);
      var lower := path[..d - 1];
      RootBinds(node, d - 1, kept, j, leaf, lower);
      TopPairs(node, d, leaves, i, leaf, path);
      TopCollision(node, d, leaves, i, leaf, path);
      OwnBelow(node, d, leaves, i, leaf, path);
      if Climb(node, leaf, i, path) == Root(node, d, leaves) && !IsOwn(node, d, leaves, i, leaf, path) {
        if !CollidesAt(node, d, leaves, i, leaf, path, d - 1) {
          var level: nat :| level < d - 1 && CollidesAt(node, d - 1, kept, j, leaf, lower, level);
          CollidesBelow(node, d, leaves, i, leaf, path, level);
          assert CollidesAt(node, d, leaves, i, leaf, path, level);
        }
      }
      if level: nat :| level < d && CollidesAt(node, d, leaves, i, leaf, path, level) {
        if level < d - 1 { CollidesBelow(node, d, leaves, i, leaf, path, level); }
      }
    }
  }

  lemma ShortTree(node: NodeHash, leaves: seq<Data>, leaf: Data, path: seq<Data>)
    requires |leaves| == Pow2(0) && |path| == 0
    ensures Climb(node, leaf, 0, path) == Root(node, 0, leaves) <==> IsOwn(node, 0, leaves, 0, leaf, path)
  {}

  lemma TopCollision(node: NodeHash, d: nat, leaves: seq<Data>, i: nat, leaf: Data, path: seq<Data>)
    requires d > 0 && |leaves| == Pow2(d) && i < Pow2(d) && |path| == d
    ensures CollidesAt(node, d, leaves, i, leaf, path, d - 1) <==>
            Climb(node, leaf, i, path) == Root(node, d, leaves)
            && ClimbPair(node, leaf, i, path, d - 1) != TreePair(node, d, leaves, i, d - 1)
  {
    hide Pow2, Climb, Root, ClimbPair, TreePair, Path;
    TopPairs(node, d, leaves, i, leaf, path);
  }
}
