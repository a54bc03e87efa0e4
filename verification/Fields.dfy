/** Finite fields, as the sharing code uses them.

    The elements of a field of order `q` are the numbers `0 <= x < q`; 0 and 1 are the two units.
    The operations take any number and return an element, so the commutative, associative and
    distributive laws need no side condition. */
module Fields {

  datatype Field = Field(
    order: nat,
    add: (int, int) -> int,
    neg: int -> int,
    mul: (int, int) -> int,
    inv: int -> int)
  {
    predicate Has(a: int) {
      0 <= a < order
    }

    predicate HasAll(s: seq<int>) {
      forall i :: 0 <= i < |s| ==> Has(s[i])
    }

    function Sub(a: int, b: int): int {
      add(a, neg(b))
    }
  }

  /** Only a term `At(a, b, c)` instantiates the laws of a field, so that a proof picks its own. */
  predicate At(a: int, b: int, c: int) {
    true
  }

  ghost predicate Lawful(k: Field) {
    && k.order > 1
    && forall a: int, b: int, c: int {:trigger At(a, b, c)} :: At(a, b, c) ==> LawsAt(k, a, b, c)
  }

  ghost predicate LawsAt(k: Field, a: int, b: int, c: int) {
    && k.Has(k.add(a, b)) && k.Has(k.mul(a, b)) && k.Has(k.neg(a)) && k.Has(k.inv(a))
    && k.add(a, b) == k.add(b, a)
    && k.add(k.add(a, b), c) == k.add(a, k.add(b, c))
    && (k.Has(a) ==> k.add(a, 0) == a)
    && k.add(a, k.neg(a)) == 0
    && k.mul(a, b) == k.mul(b, a)
    && k.mul(k.mul(a, b), c) == k.mul(a, k.mul(b, c))
    && (k.Has(a) ==> k.mul(a, 1) == a)
    && k.mul(a, k.add(b, c)) == k.add(k.mul(a, b), k.mul(a, c))
    && (k.Has(a) && a != 0 ==> k.mul(a, k.inv(a)) == 1)
  }

  lemma Laws(k: Field, a: int, b: int, c: int)
    requires Lawful(k)
    ensures LawsAt(k, a, b, c)
  {
    assert At(a, b, c);
  }

  /** Cancelling a summand. */
  lemma AddCancel(k: Field, a: int, b: int, c: int)
    requires Lawful(k) && k.Has(a) && k.Has(b)
    requires k.add(a, c) == k.add(b, c)
    ensures a == b
  {
    Laws(k, a, c, k.neg(c));
    Laws(k, b, c, k.neg(c));
    Laws(k, c, 0, 0);
  }

  lemma MulZero(k: Field, a: int)
    requires Lawful(k)
    ensures k.mul(a, 0) == 0 && k.mul(0, a) == 0
  {
    Laws(k, 0, 0, 0);
    Laws(k, a, 0, 0);
    Laws(k, k.mul(a, 0), k.mul(a, 0), 0);
    Laws(k, 0, k.mul(a, 0), 0);
    AddCancel(k, k.mul(a, 0), 0, k.mul(a, 0));
  }

  lemma NoZeroDivisors(k: Field, a: int, b: int)
    requires Lawful(k) && k.Has(a) && k.Has(b)
    requires k.mul(a, b) == 0
    ensures a == 0 || b == 0
  {
    if a != 0 {
      Laws(k, a, k.inv(a), b);
      Laws(k, k.inv(a), a, b);
      Laws(k, b, 1, 0);
      MulZero(k, k.inv(a));
    }
  }

  lemma SubZero(k: Field, a: int, b: int)
    requires Lawful(k) && k.Has(a) && k.Has(b)
    ensures k.Has(k.Sub(a, b))
    ensures k.Sub(a, b) == 0 <==> a == b
    ensures k.add(b, k.Sub(a, b)) == a
  {
    Laws(k, a, k.neg(b), b);
    Laws(k, b, k.neg(b), 0);
    Laws(k, k.neg(b), b, 0);
    Laws(k, a, 0, 0);
    Laws(k, b, k.Sub(a, b), 0);
    Laws(k, b, 0, 0);
    Laws(k, 0, b, 0);
  }

  /** (a + b) + (c + d) regrouped as (a + c) + (b + d). */
  lemma AddSwap(k: Field, a: int, b: int, c: int, d: int)
    requires Lawful(k)
    ensures k.add(k.add(a, b), k.add(c, d)) == k.add(k.add(a, c), k.add(b, d))
  {
    Laws(k, a, b, k.add(c, d));
    Laws(k, b, c, d);
    Laws(k, c, b, d);
    Laws(k, a, c, k.add(b, d));
  }

  /** Multiplication distributes on the left factor as well. */
  lemma DistributeLeft(k: Field, a: int, b: int, c: int)
    requires Lawful(k)
    ensures k.mul(k.add(a, b), c) == k.add(k.mul(a, c), k.mul(b, c))
  {
    Laws(k, c, a, b);
    Laws(k, c, k.add(a, b), 0);
    Laws(k, a, c, 0);
    Laws(k, b, c, 0);
  }

  /** a(bc) == b(ac). */
  lemma MulSwap(k: Field, a: int, b: int, c: int)
    requires Lawful(k)
    ensures k.mul(a, k.mul(b, c)) == k.mul(b, k.mul(a, c))
  {
    Laws(k, a, b, c);
    Laws(k, b, a, c);
  }
}
