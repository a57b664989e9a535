// The abstract store: one map from addresses to base values and one from
// addresses to objects. Every operation builds a new store.

module StoreDomain {
  import opened Wrappers
  import opened AddressDomain
  import A = AddressesDomain
  import C = ChangeDomain
  import BV = BValueDomain
  import O = ObjDomain
  import opened SetFacts

  datatype Store = Store(bValues: map<Address, BV.BValue>, objects: map<Address, O.Obj>)

  /** The value part of a store join: entries of one side are kept, entries
    * of both sides are joined. */
  function JoinValues(l: map<Address, BV.BValue>, r: map<Address, BV.BValue>): (m: map<Address, BV.BValue>)
    ensures m.Keys == l.Keys + r.Keys
    ensures forall a :: a in l && a !in r ==> m[a] == l[a]
    ensures forall a :: a in r && a !in l ==> m[a] == r[a]
    ensures forall a :: a in l && a in r ==> m[a] == BV.Join(l[a], r[a])
  {
    map a | a in l.Keys + r.Keys ::
      if a !in l then r[a] else if a !in r then l[a] else BV.Join(l[a], r[a])
  }

  /** The empty map is an identity of the value join, and on well-formed
    * values the join does not depend on the side. */
  lemma JoinValuesLaws(l: map<Address, BV.BValue>, r: map<Address, BV.BValue>)
    requires forall a :: a in l ==> BV.WellFormed(l[a])
    requires forall a :: a in r ==> BV.WellFormed(r[a])
    ensures JoinValues(l, map[]) == l
    ensures JoinValues(l, r) == JoinValues(r, l)
  {
    assert JoinValues(l, map[]) == l;
    forall a | a in l && a in r
      ensures BV.Join(l[a], r[a]) == BV.Join(r[a], l[a])
    {
      BV.JoinCommutative(l[a], r[a]);
    }
    assert JoinValues(l, r) == JoinValues(r, l);
  }

  /** The value maps agree with the value join pointwise. */
  lemma JoinValuesCharacterized(l: map<Address, BV.BValue>, r: map<Address, BV.BValue>, m: map<Address, BV.BValue>)
    requires m.Keys == l.Keys + r.Keys
    requires forall a :: a in m ==> m[a] == if a !in r then l[a] else if a !in l then r[a] else BV.Join(l[a], r[a])
    ensures m == JoinValues(l, r)
  {
  }

  /** Some object both stores hold at one address has a conflicting
    * property whose left address is `a`: Obj.join may write there. */
  ghost predicate WrittenByJoin(left: Store, right: Store, a: Address) {
    exists b, k :: b in left.objects && b in right.objects && O.Conflict(left.objects[b], right.objects[b], k)
      && left.objects[b].external[k].address == a
  }

  /** Some object both stores hold has a conflicting property with a value
    * missing from the joined value map: Store.join dereferences null. */
  ghost predicate JoinThrows(left: Store, right: Store) {
    exists b, k :: b in left.objects && b in right.objects
      && O.Missing(left.objects[b], right.objects[b], left.bValues.Keys + right.bValues.Keys, k)
  }

  /** Store.join. The value maps are joined entry by entry; then the object
    * maps, where an object at an address of both stores is joined with
    * Obj.join, which may write joined values into the new value map (the
    * objects and their properties are visited in hash-map order). */
  method Join(left: Store, right: Store) returns (r: Result<Store>)
    ensures r.Err? <==> JoinThrows(left, right)
    ensures r.Err? ==> r.error == NullPointer
    ensures r.Ok? ==> r.value.bValues.Keys == left.bValues.Keys + right.bValues.Keys
    ensures r.Ok? ==> forall a :: a in r.value.bValues && !WrittenByJoin(left, right, a) ==>
      r.value.bValues[a] == JoinValues(left.bValues, right.bValues)[a]
    ensures r.Ok? ==> forall a :: a in r.value.bValues ==>
      JoinValues(left.bValues, right.bValues)[a].deps.ids <= r.value.bValues[a].deps.ids
    ensures r.Ok? ==> r.value.objects.Keys == left.objects.Keys + right.objects.Keys
    ensures r.Ok? ==> forall a :: a in left.objects && a !in right.objects ==> r.value.objects[a] == left.objects[a]
    ensures r.Ok? ==> forall a :: a in right.objects && a !in left.objects ==> r.value.objects[a] == right.objects[a]
    ensures r.Ok? ==> forall a :: a in left.objects && a in right.objects ==>
      r.value.objects[a] == O.MergeProps(left.objects[a], right.objects[a])
  {
    var bv := JoinValueMaps(left.bValues, right.bValues);
    var res := JoinObjects(left, right, bv);
    if res.Err? {
      return Err(res.error);
    }
    r := Ok(Store(res.value.1, res.value.0));
  }

  /** The object half of Store.join, writing into the joined value map
    * `bv`. */
  method JoinObjects(left: Store, right: Store, initial: map<Address, BV.BValue>)
    returns (r: Result<(map<Address, O.Obj>, map<Address, BV.BValue>)>)
    requires initial == JoinValues(left.bValues, right.bValues)
    ensures r.Err? <==> JoinThrows(left, right)
    ensures r.Err? ==> r.error == NullPointer
    ensures r.Ok? ==> r.value.1.Keys == initial.Keys
    ensures r.Ok? ==> forall a :: a in r.value.1 && !WrittenByJoin(left, right, a) ==> r.value.1[a] == initial[a]
    ensures r.Ok? ==> forall a :: a in r.value.1 ==> initial[a].deps.ids <= r.value.1[a].deps.ids
    ensures r.Ok? ==> r.value.0.Keys == left.objects.Keys + right.objects.Keys
    ensures r.Ok? ==> forall a :: a in left.objects && a !in right.objects ==> r.value.0[a] == left.objects[a]
    ensures r.Ok? ==> forall a :: a in right.objects && a !in left.objects ==> r.value.0[a] == right.objects[a]
    ensures r.Ok? ==> forall a :: a in left.objects && a in right.objects ==>
      r.value.0[a] == O.MergeProps(left.objects[a], right.objects[a])
  {
    var bv := initial;
    ghost var dom := bv.Keys;
    var objs := left.objects;
    var rest := right.objects.Keys;
    while rest != {}
      invariant ObjectsSoFar(left, right, rest, objs, dom)
      invariant ValuesSoFar(left, right, bv, initial, dom)
      decreases rest
    {
      var b :| b in rest;
      if b !in objs {
        ObjectsAddRight(left, right, rest, objs, dom, b);
        objs := objs[b := right.objects[b]];
      } else {
        var props := Enumerate(right.objects[b].external.Keys);
        var res := O.Join(objs[b], right.objects[b], bv, props);
        O.ConflictJoinErrIff(objs[b], right.objects[b], bv, props);
        if res.Err? {
          ThrowsWitness(left, right, b, dom);
          return Err(NullPointer);
        }
        ValuesStep(left, right, b, props, bv, res.value.1, initial);
        ObjectsMerge(left, right, rest, objs, dom, b, res.value.0);
        objs := objs[b := res.value.0];
        bv := res.value.1;
      }
      rest := rest - {b};
    }
    r := Ok((objs, bv));
  }

  /** What JoinObjects has done with the object maps once only the right
    * addresses in `rest` are still to visit: the left objects are copied,
    * the visited right-only objects put in, and the visited shared objects
    * merged, none of them with a value missing from `dom`. */
  ghost predicate ObjectsSoFar(left: Store, right: Store, rest: set<Address>, objs: map<Address, O.Obj>,
                               dom: set<Address>) {
    rest <= right.objects.Keys
    && objs.Keys == left.objects.Keys + (right.objects.Keys - rest)
    && (forall a :: a in left.objects && (a !in right.objects || a in rest) ==> objs[a] == left.objects[a])
    && (forall a :: a in objs && a !in left.objects ==> objs[a] == right.objects[a])
    && (forall a :: a in left.objects && a in right.objects && a !in rest ==>
          objs[a] == O.MergeProps(left.objects[a], right.objects[a]))
    && (forall b, k :: b in left.objects && b in right.objects && b !in rest ==>
          !O.Missing(left.objects[b], right.objects[b], dom, k))
  }

  /** What JoinObjects has done with the value map: its addresses are
    * those of the joined value map, only addresses a join may write
    * differ from it, and dependencies only grow. */
  ghost predicate ValuesSoFar(left: Store, right: Store, bv: map<Address, BV.BValue>,
                              initial: map<Address, BV.BValue>, dom: set<Address>) {
    bv.Keys == dom && initial.Keys == dom
    && (forall a :: a in bv && !WrittenByJoin(left, right, a) ==> bv[a] == initial[a])
    && (forall a :: a in bv ==> initial[a].deps.ids <= bv[a].deps.ids)
  }

  /** A right object at an address the left store does not have is put in
    * as it is. */
  lemma ObjectsAddRight(left: Store, right: Store, rest: set<Address>, objs: map<Address, O.Obj>,
                        dom: set<Address>, b: Address)
    requires ObjectsSoFar(left, right, rest, objs, dom) && b in rest && b !in objs
    ensures ObjectsSoFar(left, right, rest - {b}, objs[b := right.objects[b]], dom)
  {
  }

  /** An object at an address both stores have is merged, when none of
    * its conflicting values is missing. */
  lemma ObjectsMerge(left: Store, right: Store, rest: set<Address>, objs: map<Address, O.Obj>,
                     dom: set<Address>, b: Address, merged: O.Obj)
    requires ObjectsSoFar(left, right, rest, objs, dom) && b in rest && b in objs
    requires merged == O.MergeProps(objs[b], right.objects[b])
    requires forall k :: !O.Missing(objs[b], right.objects[b], dom, k)
    ensures ObjectsSoFar(left, right, rest - {b}, objs[b := merged], dom)
  {
    assert b in left.objects;
  }

  /** The value half of Store.join: a copy of the left map, then every
    * entry of the right map put in, joined with the left entry if there
    * is one. */
  method JoinValueMaps(l: map<Address, BV.BValue>, r: map<Address, BV.BValue>) returns (m: map<Address, BV.BValue>)
    ensures m == JoinValues(l, r)
  {
    m := l;
    var rest := r.Keys;
    while rest != {}
      invariant rest <= r.Keys
      invariant m.Keys == l.Keys + (r.Keys - rest)
      invariant forall a :: a in m ==> m[a] == Visited(l, r, rest, a)
      decreases rest
    {
      var a :| a in rest;
      if a !in m {
        m := m[a := r[a]];
      } else {
        m := m[a := BV.Join(m[a], r[a])];
      }
      rest := rest - {a};
    }
    JoinValuesCharacterized(l, r, m);
  }

  /** The value JoinValueMaps holds at `a` while the right addresses in
    * `rest` are still to visit. */
  function Visited(l: map<Address, BV.BValue>, r: map<Address, BV.BValue>, rest: set<Address>, a: Address): BV.BValue
    requires a in l || (a in r && a !in rest)
  {
    if a !in r || a in rest then l[a] else if a !in l then r[a] else BV.Join(l[a], r[a])
  }

  lemma ThrowsWitness(left: Store, right: Store, b: Address, dom: set<Address>)
    requires dom == left.bValues.Keys + right.bValues.Keys
    requires b in left.objects && b in right.objects
    requires exists k :: O.Missing(left.objects[b], right.objects[b], dom, k)
    ensures JoinThrows(left, right)
  {
    var k :| O.Missing(left.objects[b], right.objects[b], dom, k);
    assert O.Missing(left.objects[b], right.objects[b], left.bValues.Keys + right.bValues.Keys, k);
  }

  /** One object join keeps the value map's frame: only addresses some
    * conflicting property writes change, and dependencies only grow. */
  lemma ValuesStep(left: Store, right: Store, b: Address, props: seq<string>,
                   bv: map<Address, BV.BValue>, bv': map<Address, BV.BValue>, joined: map<Address, BV.BValue>)
    requires b in left.objects && b in right.objects
    requires O.ConflictJoin(left.objects[b], right.objects[b], bv, props) == Ok(bv')
    requires joined.Keys == bv.Keys
    requires forall a :: a in bv && !WrittenByJoin(left, right, a) ==> bv[a] == joined[a]
    requires forall a :: a in bv ==> joined[a].deps.ids <= bv[a].deps.ids
    ensures bv'.Keys == bv.Keys
    ensures forall a :: a in bv' && !WrittenByJoin(left, right, a) ==> bv'[a] == joined[a]
    ensures forall a :: a in bv' ==> joined[a].deps.ids <= bv'[a].deps.ids
  {
    O.ConflictJoinFrame(left.objects[b], right.objects[b], bv, props);
    WriteIsWrittenByJoin(left, right, b, props);
  }

  lemma WriteIsWrittenByJoin(left: Store, right: Store, b: Address, props: seq<string>)
    requires b in left.objects && b in right.objects
    ensures forall a :: O.Written(left.objects[b], right.objects[b], props, a) ==> WrittenByJoin(left, right, a)
  {
    forall a | O.Written(left.objects[b], right.objects[b], props, a)
      ensures WrittenByJoin(left, right, a)
    {
      var i :| 0 <= i < |props| && O.Conflict(left.objects[b], right.objects[b], props[i])
        && left.objects[b].external[props[i]].address == a;
      var k := props[i];
      assert O.Conflict(left.objects[b], right.objects[b], k) && left.objects[b].external[k].address == a;
    }
  }

  /** Store.alloc for a base value: a fresh address gets the value, an
    * address already in use gets its old value joined with the new one
    * (a weak update). The objects are shared with the old store. */
  function Alloc(s: Store, a: Address, v: BV.BValue): (r: Store)
    ensures r.objects == s.objects
    ensures r.bValues.Keys == s.bValues.Keys + {a}
    ensures forall b :: b in s.bValues && b != a ==> r.bValues[b] == s.bValues[b]
    ensures a !in s.bValues ==> r.bValues[a] == v
    ensures a in s.bValues ==> r.bValues[a] == BV.Join(s.bValues[a], v)
  {
    var left := if a in s.bValues then Some(s.bValues[a]) else None;
    if left.None? then Store(s.bValues[a := v], s.objects)
    else Store(s.bValues[a := BV.Join(left.value, v)], s.objects)
  }

  /** Allocating is joining with the one-entry store. */
  lemma AllocIsJoin(s: Store, a: Address, v: BV.BValue)
    ensures Alloc(s, a, v).bValues == JoinValues(s.bValues, map[a := v])
  {
    JoinValuesCharacterized(s.bValues, map[a := v], Alloc(s, a, v).bValues);
  }

  /** Store.alloc for an object: a fresh address gets the object, an
    * address in use gets Obj.join of the old object and the new one. */
  method AllocObj(s: Store, a: Address, o: O.Obj) returns (r: Result<Store>)
    ensures r.Err? <==> a in s.objects && exists k :: O.Missing(s.objects[a], o, s.bValues.Keys, k)
    ensures r.Err? ==> r.error == NullPointer
    ensures r.Ok? ==> r.value.objects.Keys == s.objects.Keys + {a}
    ensures r.Ok? ==> forall b :: b in s.objects && b != a ==> r.value.objects[b] == s.objects[b]
    ensures r.Ok? && a !in s.objects ==> r.value == Store(s.bValues, s.objects[a := o])
    ensures r.Ok? && a in s.objects ==> r.value.objects[a] == O.MergeProps(s.objects[a], o)
    ensures r.Ok? ==> r.value.bValues.Keys == s.bValues.Keys
    ensures r.Ok? ==> forall b :: (b in s.bValues && !(a in s.objects && exists k ::
                                     O.Conflict(s.objects[a], o, k) && s.objects[a].external[k].address == b))
                                  ==> r.value.bValues[b] == s.bValues[b]
    ensures r.Ok? ==> forall b :: b in s.bValues ==> s.bValues[b].deps.ids <= r.value.bValues[b].deps.ids
  {
    if a !in s.objects {
      return Ok(Store(s.bValues, s.objects[a := o]));
    }
    var props := Enumerate(o.external.Keys);
    var res := O.Join(s.objects[a], o, s.bValues, props);
    O.ConflictJoinErrIff(s.objects[a], o, s.bValues, props);
    if res.Err? {
      return Err(NullPointer);
    }
    O.ConflictJoinFrame(s.objects[a], o, s.bValues, props);
    r := Ok(Store(res.value.1, s.objects[a := res.value.0]));
  }

  /** Store.strongUpdate for a base value: the value at the address is
    * replaced. */
  function StrongUpdate(s: Store, a: Address, v: BV.BValue): (r: Store)
    ensures r.objects == s.objects
    ensures r.bValues.Keys == s.bValues.Keys + {a}
    ensures r.bValues[a] == v
    ensures forall b :: b in s.bValues && b != a ==> r.bValues[b] == s.bValues[b]
  {
    Store(s.bValues[a := v], s.objects)
  }

  /** A strong update discards whatever was allocated at the address. */
  lemma StrongUpdateOverridesAlloc(s: Store, a: Address, v: BV.BValue, w: BV.BValue)
    ensures StrongUpdate(Alloc(s, a, v), a, w) == StrongUpdate(s, a, w)
    ensures Alloc(StrongUpdate(s, a, v), a, w).bValues[a] == BV.Join(v, w)
  {
  }

  /** Store.strongUpdate for an object. */
  function StrongUpdateObj(s: Store, a: Address, o: O.Obj): (r: Store)
    ensures r.bValues == s.bValues
    ensures GetObj(r, a) == Some(o)
    ensures forall b :: b != a ==> GetObj(r, b) == GetObj(s, b)
  {
    Store(s.bValues, s.objects[a := o])
  }

  /** Store.getObj: the object at the address, or null. */
  function GetObj(s: Store, a: Address): (r: Option<O.Obj>)
    ensures r.None? <==> a !in s.objects
    ensures r.Some? ==> r.value == s.objects[a]
  {
    if a in s.objects then Some(s.objects[a]) else None
  }

  /** The value Store.apply computes for the addresses in `keys` order:
    * the first stored value, joined with every later stored one; null if
    * none is stored. */
  function FoldJoin(m: map<Address, BV.BValue>, keys: seq<Address>): Option<BV.BValue>
    decreases |keys|
  {
    if |keys| == 0 then None
    else
      var a := keys[|keys| - 1];
      match FoldJoin(m, keys[..|keys| - 1])
      case None => if a in m then Some(m[a]) else None
      case Some(v) => if a in m then Some(BV.Join(v, m[a])) else Some(v)
  }

  /** The fold is null exactly when no address is stored; otherwise its
    * dependencies are those of the stored values, and its change is above
    * each of theirs. */
  lemma {:induction false} FoldJoinSpec(m: map<Address, BV.BValue>, keys: seq<Address>)
    ensures FoldJoin(m, keys).None? <==> forall i :: 0 <= i < |keys| ==> keys[i] !in m
    ensures FoldJoin(m, keys).Some? ==> forall x ::
      x in FoldJoin(m, keys).value.deps.ids <==> exists i :: 0 <= i < |keys| && keys[i] in m && x in m[keys[i]].deps.ids
    ensures FoldJoin(m, keys).Some? ==> forall i :: 0 <= i < |keys| && keys[i] in m ==>
      C.Leq(m[keys[i]].change, FoldJoin(m, keys).value.change)
    decreases |keys|
  {
    if |keys| > 0 {
      var pre := keys[..|keys| - 1];
      FoldJoinSpec(m, pre);
      assert forall i :: 0 <= i < |pre| ==> pre[i] == keys[i];
      var a := keys[|keys| - 1];
      if FoldJoin(m, pre).Some? && a in m {
        var v := FoldJoin(m, pre).value;
        forall i | 0 <= i < |keys| && keys[i] in m
          ensures C.Leq(m[keys[i]].change, BV.Join(v, m[a]).change)
        {
          if i < |pre| {
            C.LeqTransitive(m[keys[i]].change, v.change, BV.Join(v, m[a]).change);
          }
        }
      }
    }
  }

  /** Store.apply(Addresses): the join of the values stored at the
    * addresses, visited in the set's iteration order, or null when none of
    * them is stored (in particular for TOP and BOTTOM, whose address sets
    * are empty). */
  method Apply(s: Store, addrs: A.Addresses, order: seq<Address>) returns (r: Option<BV.BValue>)
    requires Enumerates(order, addrs.addresses)
    ensures r == FoldJoin(s.bValues, order)
    ensures r.None? <==> forall a :: a in addrs.addresses ==> a !in s.bValues
  {
    r := None;
    var i := 0;
    while i < |order|
      invariant 0 <= i <= |order|
      invariant r == FoldJoin(s.bValues, order[..i])
    {
      var a := order[i];
      assert order[..i + 1][..i] == order[..i];
      if r.None? {
        r := if a in s.bValues then Some(s.bValues[a]) else None;
      } else if a in s.bValues {
        r := Some(BV.Join(r.value, s.bValues[a]));
      }
      i := i + 1;
    }
    assert order[..i] == order;
    FoldJoinSpec(s.bValues, order);
  }
}
