// The control-condition domain: the changed branch conditions the current
// path is under, and the conditions that no longer apply.

module ControlConditionDomain {
  import opened Wrappers
  import C = ChangeDomain
  import opened Text
  import opened SetFacts

  /** The shape of a condition node, as far as getAddress looks at it: a
    * `!( e )` negation (with the id of `e`), another unary expression, or
    * anything else. */
  datatype Shape = Plain | UnaryNot(innerId: Option<int>) | UnaryOther

  /** A condition node. `key` stands for the node's identity; `id` is its
    * (possibly null) node id. */
  datatype AstNode = AstNode(key: int, id: Option<int>, changeType: C.ChangeType, shape: Shape)

  /** A CFG edge, identified by `key`, with its (possibly null) branch
    * condition. */
  datatype Edge = Edge(key: int, condition: Option<AstNode>)

  datatype ControlCondition = ControlCondition(conditions: set<AstNode>, negConditions: set<AstNode>)

  function Empty(): ControlCondition { ControlCondition({}, {}) }

  /** The edge has a condition whose change, with updates counting, is
    * CHANGED. */
  predicate ChangedCondition(e: Edge) {
    e.condition.Some? && C.ConvU(e.condition.value.changeType) == C.CHANGED
  }

  /** The conditions of the outgoing edges other than `edge`. */
  function OtherConditions(edge: Edge, outgoing: seq<Edge>): set<AstNode> {
    set i | 0 <= i < |outgoing| && outgoing[i] != edge && outgoing[i].condition.Some? :: outgoing[i].condition.value
  }

  /** The changed conditions of the outgoing edges other than `edge`. */
  function ChangedOtherConditions(edge: Edge, outgoing: seq<Edge>): set<AstNode> {
    set i | 0 <= i < |outgoing| && outgoing[i] != edge && ChangedCondition(outgoing[i]) :: outgoing[i].condition.value
  }

  /** ControlCondition.update for the edge taken out of a node with the
    * given outgoing edges: a changed condition on the edge is added to the
    * conditions and makes every sibling condition negated; changed sibling
    * conditions are negated in any case. */
  method Update(cc: ControlCondition, edge: Edge, outgoing: seq<Edge>) returns (r: ControlCondition)
    ensures r.conditions == cc.conditions + (if ChangedCondition(edge) then {edge.condition.value} else {})
    ensures r.negConditions == cc.negConditions
      + (if ChangedCondition(edge) then OtherConditions(edge, outgoing) else {})
      + ChangedOtherConditions(edge, outgoing)
  {
    var conditions := cc.conditions;
    var negConditions := cc.negConditions;
    if ChangedCondition(edge) {
      conditions := conditions + {edge.condition.value};
      for i := 0 to |outgoing|
        invariant negConditions == cc.negConditions + OtherConditions(edge, outgoing[..i])
      {
        assert outgoing[..i + 1] == outgoing[..i] + [outgoing[i]];
        if outgoing[i] != edge && outgoing[i].condition.Some? {
          negConditions := negConditions + {outgoing[i].condition.value};
        }
      }
      assert outgoing[..|outgoing|] == outgoing;
    }
    ghost var afterFirst := negConditions;
    for i := 0 to |outgoing|
      invariant negConditions == afterFirst + ChangedOtherConditions(edge, outgoing[..i])
    {
      assert outgoing[..i + 1] == outgoing[..i] + [outgoing[i]];
      if outgoing[i] != edge && ChangedCondition(outgoing[i]) {
        negConditions := negConditions + {outgoing[i].condition.value};
      }
    }
    assert outgoing[..|outgoing|] == outgoing;
    r := ControlCondition(conditions, negConditions);
  }

  /** Update never removes a condition, adds the edge's own condition
    * exactly when it is changed, and negates only sibling conditions. */
  lemma UpdateMonotone(cc: ControlCondition, edge: Edge, outgoing: seq<Edge>, r: ControlCondition)
    requires r.conditions == cc.conditions + (if ChangedCondition(edge) then {edge.condition.value} else {})
    requires r.negConditions == cc.negConditions
      + (if ChangedCondition(edge) then OtherConditions(edge, outgoing) else {})
      + ChangedOtherConditions(edge, outgoing)
    ensures cc.conditions <= r.conditions && cc.negConditions <= r.negConditions
    ensures edge.condition.Some? && edge.condition.value !in cc.conditions ==>
      (edge.condition.value in r.conditions <==> ChangedCondition(edge))
    ensures forall n :: n in r.negConditions - cc.negConditions ==> n in OtherConditions(edge, outgoing)
  {
  }

  /** ControlCondition.join: both sets are united, and a condition negated
    * on either side is no longer a condition. */
  function Join(a: ControlCondition, b: ControlCondition): (r: ControlCondition)
    ensures r.negConditions == a.negConditions + b.negConditions
    ensures forall n :: n in r.conditions <==>
      (n in a.conditions || n in b.conditions) && n !in r.negConditions
    ensures r.conditions !! r.negConditions
  {
    var negConditions := a.negConditions + b.negConditions;
    ControlCondition((a.conditions + b.conditions) - negConditions, negConditions)
  }

  /** Join is commutative and associative, and idempotent on states whose
    * sets are disjoint. */
  lemma JoinLaws(a: ControlCondition, b: ControlCondition, c: ControlCondition)
    ensures Join(a, b) == Join(b, a)
    ensures Join(Join(a, b), c) == Join(a, Join(b, c))
    ensures a.conditions !! a.negConditions ==> Join(a, a) == a
  {
  }

  /** ControlCondition.isChanged. */
  function IsChanged(cc: ControlCondition): (r: bool)
    ensures r <==> cc.conditions != {}
  {
    |cc.conditions| != 0
  }

  /** A joined state is changed only if a side is. */
  lemma IsChangedJoin(a: ControlCondition, b: ControlCondition)
    ensures IsChanged(Join(a, b)) ==> IsChanged(a) || IsChanged(b)
  {
    if IsChanged(Join(a, b)) {
      var n :| n in Join(a, b).conditions;
    }
  }

  /** A possibly null id, as Java prints it in a string. */
  function IdText(id: Option<int>): (s: string)
    ensures ',' !in s && |s| > 0
  {
    if id.None? then "null" else IntToString(id.value)
  }

  /** What getAddress appends for one condition: the id of the condition
    * itself, or of the negated expression for a `!( e )` without an id; a
    * unary expression without an id that is not a negation contributes
    * nothing. */
  function Piece(n: AstNode): Option<string> {
    if n.id.None? && n.shape.UnaryNot? then Some(IdText(n.shape.innerId))
    else if n.id.None? && n.shape.UnaryOther? then None
    else Some(IdText(n.id))
  }

  /** The pieces for the conditions in `order`. */
  function Pieces(order: seq<AstNode>): (ps: seq<string>)
    ensures forall i :: 0 <= i < |ps| ==> ',' !in ps[i] && |ps[i]| > 0
    ensures |ps| <= |order|
    decreases |order|
  {
    if |order| == 0 then []
    else
      var p := Piece(order[|order| - 1]);
      Pieces(order[..|order| - 1]) + (if p.Some? then [p.value] else [])
  }

  /** When every condition has an id, there is one piece per condition. */
  lemma {:induction false} PiecesAllIds(order: seq<AstNode>)
    requires forall i :: 0 <= i < |order| ==> order[i].id.Some?
    ensures Pieces(order) == IdStrings(seq(|order|, i requires 0 <= i < |order| => order[i].id.value))
    decreases |order|
  {
    if |order| > 0 {
      var pre := order[..|order| - 1];
      PiecesAllIds(pre);
      var ids := seq(|order|, i requires 0 <= i < |order| => order[i].id.value);
      var preIds := seq(|pre|, i requires 0 <= i < |pre| => pre[i].id.value);
      assert IdStrings(ids) == IdStrings(preIds) + [IntToString(ids[|ids| - 1])];
    }
  }

  /** ControlCondition.getAddress: "" without conditions; otherwise the
    * pieces of the conditions, in the set's iteration order, each followed
    * by a comma, with the last comma cut off. If no condition contributed
    * a piece, cutting the last character off "" throws. */
  method GetAddress(cc: ControlCondition, order: seq<AstNode>) returns (r: Result<string>)
    requires Enumerates(order, cc.conditions)
    ensures cc.conditions == {} ==> r == Ok("")
    ensures cc.conditions != {} ==> (r.Err? <==> Pieces(order) == [])
    ensures r.Err? ==> r.error == IndexOutOfBounds
    ensures cc.conditions != {} && r.Ok? ==> r.value == JoinComma(Pieces(order))
  {
    if |cc.conditions| == 0 {
      return Ok("");
    }
    var id := "";
    for i := 0 to |order|
      invariant id == TrailingJoin(Pieces(order[..i]))
    {
      assert order[..i + 1][..i] == order[..i];
      var p := Piece(order[i]);
      assert Pieces(order[..i + 1]) == Pieces(order[..i]) + (if p.Some? then [p.value] else []);
      if p.Some? {
        TrailingJoinAppend(Pieces(order[..i]), p.value);
        id := id + p.value + ",";
      } else {
        assert Pieces(order[..i]) + [] == Pieces(order[..i]);
      }
    }
    assert order[..|order|] == order;
    if |id| == 0 {
      JoinCommaEmpty(Pieces(order));
      if |Pieces(order)| > 0 {
        TrailingJoinIsJoin(Pieces(order));
      }
      return Err(IndexOutOfBounds);
    }
    TrailingJoinIsJoin(Pieces(order));
    r := Ok(id[..|id| - 1]);
  }

  /** The address string splits back into the pieces it was built from. */
  lemma AddressSplits(order: seq<AstNode>)
    requires |Pieces(order)| > 0
    ensures Split(JoinComma(Pieces(order))) == Pieces(order)
  {
    SplitJoin(Pieces(order));
  }
}
