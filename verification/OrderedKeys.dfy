/** The ascending order in which an ordered map hands out its keys. */
module OrderedKeys {

  predicate Least(m: nat, s: set<nat>) {
    m in s && forall x :: x in s ==> m <= x
  }

  lemma {:induction false} LeastExists(s: set<nat>)
    requires s != {}
    ensures exists m :: Least(m, s)
  {
    var m :| m in s;
    if s == {m} {
      assert Least(m, s);
    } else {
      LeastExists(s - {m});
      var n :| Least(n, s - {m});
      assert s == (s - {m}) + {m};
      assert Least(if n < m then n else m, s);
    }
  }

  function Minimum(s: set<nat>): (m: nat)
    requires s != {}
    ensures Least(m, s)
  {
    LeastExists(s);
    var m :| m in s && Least(m, s);
    m
  }

  function Ascending(s: set<nat>): seq<nat> {
    if s == {} then []
    else
      var m := Minimum(s);
      [m] + Ascending(s - {m})
  }

  predicate Increasing(r: seq<nat>) {
    forall i, j :: 0 <= i < j < |r| ==> r[i] < r[j]
  }

  /** The list has exactly the keys of the set, each once, in increasing order. */
  lemma {:induction false} AscendingOrder(s: set<nat>)
    ensures |Ascending(s)| == |s| && Increasing(Ascending(s))
    ensures forall x: nat :: x in Ascending(s) <==> x in s
  {
    hide Minimum;
    if s != {} {
      var m := Minimum(s);
      var t := s - {m};
      assert s == t + {m};
      AscendingOrder(t);
      var tail := Ascending(t);
      assert Ascending(s) == [m] + tail;
      forall i | 0 <= i < |tail| ensures m < tail[i] { assert tail[i] in tail; }
    }
  }
}
