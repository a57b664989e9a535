// The two id-set metadata domains: the criteria a value depends on, and
// the AST nodes that defined it.

module DependenciesDomain {

  /** The ids of the slicing criteria a value depends on. */
  datatype Dependencies = Dependencies(ids: set<int>)

  /** Dependencies.join: every id of either side, and nothing else. */
  function Join(a: Dependencies, b: Dependencies): (r: Dependencies)
    ensures a.ids <= r.ids && b.ids <= r.ids
    ensures forall x :: x in r.ids ==> x in a.ids || x in b.ids
  {
    Dependencies(a.ids + b.ids)
  }

  /** Dependencies.bot: no dependencies. */
  function Bot(): (r: Dependencies)
    ensures IsEmpty(r)
  {
    Dependencies({})
  }

  lemma BotIsJoinIdentity(a: Dependencies)
    ensures Join(Bot(), a) == a && Join(a, Bot()) == a
  {
  }

  lemma JoinLaws(a: Dependencies, b: Dependencies, c: Dependencies)
    ensures Join(a, b) == Join(b, a)
    ensures Join(a, a) == a
    ensures Join(Join(a, b), c) == Join(a, Join(b, c))
  {
  }

  /** Dependencies.isEmpty. */
  function IsEmpty(d: Dependencies): (r: bool)
    ensures r <==> d.ids == {}
  {
    |d.ids| == 0
  }

  /** Dependencies.inject: a dependency on one criterion (the criterion
    * recorded on the AST node is not part of this model). */
  function Inject(nodeId: int): (r: Dependencies)
    ensures nodeId in r.ids
    ensures forall x :: x in r.ids ==> x == nodeId
  {
    Dependencies({nodeId})
  }

  /** Dependencies.equals: each side contains all of the other. */
  function Equals(a: Dependencies, b: Dependencies): (r: bool)
    ensures r <==> a.ids == b.ids
  {
    if (forall x :: x in b.ids ==> x in a.ids) && (forall x :: x in a.ids ==> x in b.ids) then
      assert a.ids == b.ids;
      true
    else false
  }
}

module DefinerIDsDomain {
  import opened SetFacts
  import opened Text

  /** The ids of the AST nodes that may have defined a value. */
  datatype DefinerIDs = DefinerIDs(ids: set<int>)

  function IsEmpty(d: DefinerIDs): (r: bool)
    ensures r <==> d.ids == {}
  {
    |d.ids| == 0
  }

  /** DefinerIDs.weakUpdate: a copy with one more id. */
  function WeakUpdate(d: DefinerIDs, id: int): (r: DefinerIDs)
    ensures forall x :: x in r.ids <==> x == id || x in d.ids
  {
    DefinerIDs(d.ids + {id})
  }

  /** DefinerIDs.strongUpdate: exactly the new id. */
  function StrongUpdate(d: DefinerIDs, id: int): (r: DefinerIDs)
    ensures forall x :: x in r.ids <==> x == id
  {
    DefinerIDs({id})
  }

  /** DefinerIDs.join: the union. */
  function Join(a: DefinerIDs, b: DefinerIDs): (r: DefinerIDs)
    ensures forall x :: x in r.ids <==> x in a.ids || x in b.ids
  {
    DefinerIDs(a.ids + b.ids)
  }

  function Bottom(): (r: DefinerIDs)
    ensures IsEmpty(r)
  {
    DefinerIDs({})
  }

  /** A weak update is a join with the strong update. */
  lemma WeakUpdateIsJoinWithStrong(d: DefinerIDs, id: int)
    ensures WeakUpdate(d, id) == Join(d, StrongUpdate(d, id))
  {
  }

  /** DefinerIDs.equals: equal sizes and every id of one in the other. */
  function Equals(a: DefinerIDs, b: DefinerIDs): (r: bool)
    ensures r <==> a == b
  {
    if |a.ids| == |b.ids| && forall x :: x in a.ids ==> x in b.ids then
      SubsetSameSizeEqual(a.ids, b.ids);
      true
    else false
  }

  /** DefinerIDs.toString: the ids in iteration order, each followed by a
    * comma, with the last comma dropped. */
  method ToString(d: DefinerIDs, order: seq<int>) returns (s: string)
    requires Enumerates(order, d.ids)
    ensures s == JoinComma(IdStrings(order))
    ensures s == "" <==> IsEmpty(d)
    ensures |s| > 0 ==> s[|s| - 1] != ','
  {
    s := "";
    var i := 0;
    while i < |order|
      invariant 0 <= i <= |order|
      invariant s == TrailingJoin(IdStrings(order[..i]))
    {
      assert IdStrings(order[..i + 1]) == IdStrings(order[..i]) + [IntToString(order[i])];
      TrailingJoinAppend(IdStrings(order[..i]), IntToString(order[i]));
      s := s + IntToString(order[i]) + ",";
      i := i + 1;
    }
    assert order[..i] == order;
    if |order| == 0 {
      assert forall x :: x !in d.ids;
      return s;
    }
    TrailingJoinIsJoin(IdStrings(order));
    var pieces := IdStrings(order);
    s := s[..|s| - 1];
    LastPieceNoComma(pieces);
  }

  /** The joined ids end in a digit, never in the separator. */
  lemma LastPieceNoComma(pieces: seq<string>)
    requires |pieces| > 0
    requires forall i :: 0 <= i < |pieces| ==> |pieces[i]| > 0 && ',' !in pieces[i]
    ensures |JoinComma(pieces)| > 0
    ensures JoinComma(pieces)[|JoinComma(pieces)| - 1] != ','
    decreases |pieces|
  {
    if |pieces| > 1 {
      LastPieceNoComma(pieces[1..]);
    } else {
      assert pieces[0][|pieces[0]| - 1] in pieces[0];
    }
  }
}
