// The change lattice: whether a value, variable or condition may have been
// affected by the commit.
//
//          TOP
//         /   \
//   CHANGED   UNCHANGED
//         \   /
//         BOTTOM

module ChangeDomain {

  datatype Change = TOP | CHANGED | UNCHANGED | BOTTOM

  /** How the AST differencer classified a node. */
  datatype ChangeType = Inserted | Removed | Updated | Moved | Unchanged | Unknown

  /** The lattice order. */
  predicate Leq(a: Change, b: Change) {
    a == BOTTOM || b == TOP || a == b
  }

  lemma LeqTransitive(a: Change, b: Change, c: Change)
    requires Leq(a, b) && Leq(b, c)
    ensures Leq(a, c)
  {
  }

  /** Change.join: the least upper bound. */
  function Join(a: Change, b: Change): (r: Change)
    ensures Leq(a, r) && Leq(b, r)
    ensures forall c :: Leq(a, c) && Leq(b, c) ==> Leq(r, c)
  {
    if a == b then a
    else if a == BOTTOM then b
    else if b == BOTTOM then a
    else TOP
  }

  lemma JoinCommutative(a: Change, b: Change)
    ensures Join(a, b) == Join(b, a)
  {
  }

  lemma JoinIdempotent(a: Change)
    ensures Join(a, a) == a
  {
  }

  lemma JoinBottomIdentity(a: Change)
    ensures Join(BOTTOM, a) == a && Join(a, BOTTOM) == a
  {
  }

  lemma JoinChangedUnchanged()
    ensures Join(CHANGED, UNCHANGED) == TOP
  {
  }

  /** Change.isChanged: the value may have changed. */
  function IsChanged(c: Change): (r: bool)
    ensures r <==> Leq(CHANGED, c)
  {
    c == TOP || c == CHANGED
  }

  /** Change.conv: inserted and removed nodes are changed; updated nodes
    * count as unchanged. */
  function Conv(ct: ChangeType): (r: Change)
    ensures r == CHANGED || r == UNCHANGED
    ensures r == CHANGED <==> ct == Inserted || ct == Removed
  {
    match ct
    case Inserted => CHANGED
    case Removed => CHANGED
    case _ => UNCHANGED
  }

  /** Change.convU: like Conv, but updated nodes count as changed. */
  function ConvU(ct: ChangeType): (r: Change)
    ensures r == CHANGED || r == UNCHANGED
    ensures r == CHANGED <==> ct == Inserted || ct == Removed || ct == Updated
  {
    match ct
    case Inserted => CHANGED
    case Removed => CHANGED
    case Updated => CHANGED
    case _ => UNCHANGED
  }

  /** ConvU is Conv widened by exactly the updated nodes. */
  lemma ConvUWidensConv(ct: ChangeType)
    ensures Conv(ct) == CHANGED ==> ConvU(ct) == CHANGED
    ensures ConvU(ct) != Conv(ct) <==> ct == Updated
  {
  }
}
