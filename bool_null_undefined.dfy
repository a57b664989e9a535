// The three small lattices of the base value: booleans, null and
// undefined.

module BoolDomain {

  //        TOP
  //       /   \
  //    TRUE   FALSE
  //       \   /
  //       BOTTOM
  datatype Bool = TOP | TRUE | FALSE | BOTTOM

  predicate Leq(a: Bool, b: Bool) {
    a == BOTTOM || b == TOP || a == b
  }

  /** Bool.join as written: both operands are read from the receiver, so
    * the result is always the receiver's element. */
  function JoinAsWritten(a: Bool, b: Bool): (r: Bool)
    ensures r == a
  {
    var l := a;
    var rr := a;
    if l == rr then l
    else if l == BOTTOM then rr
    else if rr == BOTTOM then l
    else TOP
  }

  /** As written, join is not an upper bound of its argument. */
  lemma JoinAsWrittenNotUpperBound()
    ensures JoinAsWritten(TRUE, FALSE) == TRUE && !Leq(FALSE, TRUE)
    ensures JoinAsWritten(BOTTOM, TRUE) == BOTTOM
  {
  }

  /** Bool.join reading the right operand from the argument: the least
    * upper bound. */
  function Join(a: Bool, b: Bool): (r: Bool)
    ensures Leq(a, r) && Leq(b, r)
    ensures forall c :: Leq(a, c) && Leq(b, c) ==> Leq(r, c)
  {
    if a == b then a
    else if a == BOTTOM then b
    else if b == BOTTOM then a
    else TOP
  }

  lemma JoinCommutative(a: Bool, b: Bool)
    ensures Join(a, b) == Join(b, a)
  {
  }

  /** Bool.notFalse: the value cannot be false, i.e. FALSE is not below
    * the element. */
  function NotFalse(b: Bool): (r: bool)
    ensures r <==> !Leq(FALSE, b)
  {
    b == BOTTOM || b == TRUE
  }

  /** Bool.top and Bool.bottom: the greatest and least elements. */
  function Top(): (t: Bool)
    ensures forall b :: Leq(b, t)
  {
    TOP
  }

  function Bottom(): (t: Bool)
    ensures forall b :: Leq(t, b)
  {
    BOTTOM
  }
}

module NullDomain {

  // Null and Undefined are two classes over two enums of the same shape.
  // Each keeps its own datatype and lattice members here, as in the code,
  // so that one cannot stand where the other is expected, although their
  // Top, Bottom and Join coincide.
  datatype Null = TOP | BOTTOM

  predicate Leq(a: Null, b: Null) {
    a == BOTTOM || b == TOP
  }

  /** Null.strongUpdate: the new element replaces the old one. */
  function StrongUpdate(n: Null, le: Null): (r: Null)
    ensures r == le
  {
    le
  }

  /** Null.weakUpdate: the old element joined with the new one. */
  function WeakUpdate(n: Null, le: Null): (r: Null)
    ensures Leq(n, r) && Leq(le, r)
    ensures forall c :: Leq(n, c) && Leq(le, c) ==> Leq(r, c)
  {
    if n == le then n else TOP
  }

  /** Null.join: a weak update with the other side's element. */
  function Join(a: Null, b: Null): (r: Null)
    ensures Leq(a, r) && Leq(b, r)
    ensures forall c :: Leq(a, c) && Leq(b, c) ==> Leq(r, c)
  {
    WeakUpdate(a, b)
  }

  lemma JoinCommutative(a: Null, b: Null)
    ensures Join(a, b) == Join(b, a)
  {
  }

  /** A weak update is never below the strong update with the same
    * element. */
  lemma StrongBelowWeak(n: Null, le: Null)
    ensures Leq(StrongUpdate(n, le), WeakUpdate(n, le))
  {
  }

  function Top(): (t: Null)
    ensures forall b :: Leq(b, t)
  {
    TOP
  }

  function Bottom(): (t: Null)
    ensures forall b :: Leq(t, b)
  {
    BOTTOM
  }
}

module UndefinedDomain {

  // The same two-element lattice as NullDomain, kept apart as the code
  // keeps Undefined apart from Null.
  datatype Undefined = TOP | BOTTOM

  predicate Leq(a: Undefined, b: Undefined) {
    a == BOTTOM || b == TOP
  }

  /** Undefined.join: equal elements are kept, different ones give TOP. */
  function Join(a: Undefined, b: Undefined): (r: Undefined)
    ensures Leq(a, r) && Leq(b, r)
    ensures forall c :: Leq(a, c) && Leq(b, c) ==> Leq(r, c)
  {
    if a == b then a else TOP
  }

  lemma JoinCommutative(a: Undefined, b: Undefined)
    ensures Join(a, b) == Join(b, a)
  {
  }

  lemma JoinIdempotent(a: Undefined)
    ensures Join(a, a) == a
  {
  }

  function Top(): (t: Undefined)
    ensures forall b :: Leq(b, t)
  {
    TOP
  }

  function Bottom(): (t: Undefined)
    ensures forall b :: Leq(t, b)
  {
    BOTTOM
  }
}
