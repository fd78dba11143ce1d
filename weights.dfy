/**
 * Edge and path weights: non-negative integers extended with an explicit
 * infinity, standing for the Python value `float('inf')` that the routing
 * algorithms use for "no edge" and "not reached".
 */
module Weights {

  datatype Weight = Fin(n: nat) | Inf

  /** Python `a + b` on such values: `inf + x == inf`. */
  function Add(a: Weight, b: Weight): (r: Weight)
    ensures r.Inf? <==> (a.Inf? || b.Inf?)
    ensures r.Fin? ==> r.n == a.n + b.n
  {
    if a.Inf? || b.Inf? then Inf else Fin(a.n + b.n)
  }

  /** Python `a < b`: every finite value is below `inf`, and `inf < inf` is false. */
  predicate Less(a: Weight, b: Weight)
  {
    match (a, b)
    case (Fin(x), Fin(y)) => x < y
    case (Fin(_), Inf) => true
    case (Inf, _) => false
  }

  /** `a <= b`, that is `not (b < a)`. */
  predicate Leq(a: Weight, b: Weight)
  {
    !Less(b, a)
  }

  /** The smaller of two weights. */
  function Min(a: Weight, b: Weight): (r: Weight)
    ensures Leq(r, a) && Leq(r, b)
    ensures r == a || r == b
  {
    if Less(b, a) then b else a
  }

  lemma LeqTrans(a: Weight, b: Weight, c: Weight)
    requires Leq(a, b) && Leq(b, c)
    ensures Leq(a, c)
  {
  }

  lemma AddAssoc(a: Weight, b: Weight, c: Weight)
    ensures Add(Add(a, b), c) == Add(a, Add(b, c))
  {
  }

  /** Adding a non-negative weight never makes a value smaller. */
  lemma AddGrows(a: Weight, b: Weight)
    ensures Leq(a, Add(a, b)) && Leq(b, Add(a, b))
  {
  }

  /** Addition is monotonic in both arguments. */
  lemma AddMono(a: Weight, b: Weight, c: Weight, d: Weight)
    requires Leq(a, c) && Leq(b, d)
    ensures Leq(Add(a, b), Add(c, d))
  {
  }
}
