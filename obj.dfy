// The abstract object: the programmer-visible properties, each naming the
// store address of its value, and the interpreter-only properties.

module ObjDomain {
  import opened Wrappers
  import opened AddressDomain
  import opened JSClasses
  import BV = BValueDomain
  import opened SetFacts
  import opened SeqFacts

  /** A property: the id of the node that defined it, its name and the
    * address of its value. */
  datatype Property = Property(definerID: int, name: string, address: Address)

  /** InternalObjectProperties: the prototype value and the class. */
  datatype InternalProps = InternalProps(prototype: BV.BValue, klass: JSClass)

  datatype Obj = Obj(external: map<string, Property>, internal: InternalProps)

  /** Obj.apply: the address of the named property, or null when the
    * object has no such property (the prototype chain is not followed). */
  function Apply(o: Obj, name: string): (r: Option<Address>)
    ensures r.None? <==> name !in o.external
    ensures r.Some? ==> r.value == o.external[name].address
  {
    if name in o.external then Some(o.external[name].address) else None
  }

  /** Obj.definitelyNotProperty as written: it answers whether the property
    * IS present. */
  function DefinitelyNotPropertyAsWritten(o: Obj, name: string): (r: bool)
    ensures r <==> Apply(o, name).Some?
  {
    name in o.external
  }

  /** Obj.definitelyNotProperty as its documentation states it. */
  function DefinitelyNotProperty(o: Obj, name: string): (r: bool)
    ensures r <==> Apply(o, name).None?
  {
    name !in o.external
  }

  /** The two versions disagree on every name: as written, an object
    * without properties "definitely" has none of them absent. */
  lemma DefinitelyNotPropertyInverted(o: Obj, name: string)
    ensures DefinitelyNotPropertyAsWritten(o, name) != DefinitelyNotProperty(o, name)
    ensures !DefinitelyNotPropertyAsWritten(Obj(map[], o.internal), name)
  {
  }

  /** The properties of a join: every property of the left object, and the
    * right object's properties whose names the left lacks; the left
    * object's internal properties. */
  function MergeProps(left: Obj, right: Obj): (r: Obj)
    ensures forall k :: k in r.external <==> k in left.external || k in right.external
    ensures forall k :: k in left.external ==> r.external[k] == left.external[k]
    ensures forall k :: k in right.external && k !in left.external ==> r.external[k] == right.external[k]
    ensures r.internal == left.internal
  {
    Obj(map k | k in left.external.Keys + right.external.Keys ::
          if k in left.external then left.external[k] else right.external[k],
        left.internal)
  }

  /** The three facts about MergeProps determine its properties. */
  lemma MergedCharacterized(left: Obj, right: Obj, ext: map<string, Property>)
    requires forall k :: k in ext <==> k in left.external || k in right.external
    requires forall k :: k in left.external ==> ext[k] == left.external[k]
    requires forall k :: k in ext && k !in left.external ==> ext[k] == right.external[k]
    ensures Obj(ext, left.internal) == MergeProps(left, right)
  {
    assert ext == MergeProps(left, right).external;
  }

  /** Looking a property up in the join finds it on the left first. */
  lemma {:induction false} ApplyMerged(left: Obj, right: Obj, name: string)
    ensures Apply(MergeProps(left, right), name) ==
      if name in left.external then Apply(left, name) else Apply(right, name)
  {
  }

  /** A property both objects have, at two different addresses. */
  predicate Conflict(left: Obj, right: Obj, k: string) {
    k in left.external && k in right.external
    && left.external[k].address != right.external[k].address
  }

  /** A conflicting property one of whose addresses has no value in a
    * store with domain `dom`: joining those values dereferences null. */
  predicate Missing(left: Obj, right: Obj, dom: set<Address>, k: string) {
    Conflict(left, right, k)
    && (left.external[k].address !in dom || right.external[k].address !in dom)
  }

  /** Some conflicting property among `keys` has its left address at `a`. */
  predicate Written(left: Obj, right: Obj, keys: seq<string>, a: Address) {
    exists i :: 0 <= i < |keys| && Conflict(left, right, keys[i]) && left.external[keys[i]].address == a
  }

  /** The writes Obj.join makes into the store's value map, for the right
    * object's property names in `keys` order: for a conflicting property,
    * the value at the left address becomes the join of the values at the
    * two addresses. */
  function ConflictJoin(left: Obj, right: Obj, m: map<Address, BV.BValue>, keys: seq<string>): Result<map<Address, BV.BValue>>
    decreases |keys|
  {
    if |keys| == 0 then Ok(m)
    else
      var k := keys[|keys| - 1];
      match ConflictJoin(left, right, m, keys[..|keys| - 1])
      case Err(e) => Err(e)
      case Ok(m') => if Conflict(left, right, k) then Step(left, right, m', k) else Ok(m')
  }

  /** The writes never add or remove an address, and throw exactly when
    * some conflicting property has a value missing. */
  lemma {:induction false} ConflictJoinDomain(left: Obj, right: Obj, m: map<Address, BV.BValue>, keys: seq<string>)
    ensures ConflictJoin(left, right, m, keys).Ok? ==> ConflictJoin(left, right, m, keys).value.Keys == m.Keys
    ensures ConflictJoin(left, right, m, keys).Err? <==> exists i :: 0 <= i < |keys| && Missing(left, right, m.Keys, keys[i])
    ensures ConflictJoin(left, right, m, keys).Err? ==> ConflictJoin(left, right, m, keys).error == NullPointer
    decreases |keys|
  {
    if |keys| > 0 {
      var pre := keys[..|keys| - 1];
      ConflictJoinDomain(left, right, m, pre);
      assert forall i :: 0 <= i < |pre| ==> pre[i] == keys[i];
    }
  }

  /** Only the left addresses of conflicting properties are written, and
    * every write only adds dependencies. */
  lemma {:induction false} ConflictJoinFrame(left: Obj, right: Obj, m: map<Address, BV.BValue>, keys: seq<string>)
    requires ConflictJoin(left, right, m, keys).Ok?
    ensures ConflictJoin(left, right, m, keys).value.Keys == m.Keys
    ensures forall a :: a in m && !Written(left, right, keys, a) ==> ConflictJoin(left, right, m, keys).value[a] == m[a]
    ensures forall a :: a in m ==> m[a].deps.ids <= ConflictJoin(left, right, m, keys).value[a].deps.ids
    decreases |keys|
  {
    ConflictJoinDomain(left, right, m, keys);
    if |keys| > 0 {
      var pre := keys[..|keys| - 1];
      var k := keys[|keys| - 1];
      ConflictJoinFrame(left, right, m, pre);
      ConflictJoinDomain(left, right, m, pre);
      assert forall i :: 0 <= i < |pre| ==> pre[i] == keys[i];
      if Conflict(left, right, k) {
        assert Written(left, right, keys, left.external[k].address);
      }
    }
  }

  /** One property of the right object: a conflicting one joins the two
    * values at the left address, or throws if one is missing. */
  function Step(left: Obj, right: Obj, m: map<Address, BV.BValue>, k: string): (r: Result<map<Address, BV.BValue>>)
    requires Conflict(left, right, k)
    ensures r.Err? <==> Missing(left, right, m.Keys, k)
    ensures r.Ok? ==> r.value == m[left.external[k].address := BV.Join(m[left.external[k].address], m[right.external[k].address])]
  {
    var l := left.external[k].address;
    var r := right.external[k].address;
    if l in m && r in m then Ok(m[l := BV.Join(m[l], m[r])])
    else Err(NullPointer)
  }

  lemma {:induction false} ConflictJoinSnoc(left: Obj, right: Obj, m: map<Address, BV.BValue>, keys: seq<string>, k: string)
    ensures ConflictJoin(left, right, m, keys + [k]) ==
      if ConflictJoin(left, right, m, keys).Err? then ConflictJoin(left, right, m, keys)
      else if Conflict(left, right, k) then Step(left, right, ConflictJoin(left, right, m, keys).value, k)
      else ConflictJoin(left, right, m, keys)
  {
    assert (keys + [k])[..|keys|] == keys;
  }

  /** Obj.join: the merged properties, and the store's value map with the
    * values of conflicting properties joined at the left address. The
    * right object's properties are visited in `order`; a conflicting
    * property whose value is missing from the map throws. */
  method Join(left: Obj, right: Obj, bValues: map<Address, BV.BValue>, order: seq<string>)
    returns (r: Result<(Obj, map<Address, BV.BValue>)>)
    requires Enumerates(order, right.external.Keys)
    ensures r.Err? <==> ConflictJoin(left, right, bValues, order).Err?
    ensures r.Err? ==> r.error == NullPointer
    ensures r.Ok? ==> r.value.0 == MergeProps(left, right)
    ensures r.Ok? ==> r.value.1 == ConflictJoin(left, right, bValues, order).value
  {
    var ext := left.external;
    var m := bValues;
    var i := 0;
    while i < |order|
      invariant 0 <= i <= |order|
      invariant MergedSoFar(left, right, order[..i], ext)
      invariant ConflictJoin(left, right, bValues, order[..i]) == Ok(m)
    {
      var k := order[i];
      var p := right.external[k];
      TakeSnoc(order, i);
      ConflictJoinSnoc(left, right, bValues, order[..i], k);
      MergedSnoc(left, right, order, i, ext);
      if k !in ext {
        ext := ext[k := p];
      } else {
        var lAddr := ext[k].address;
        var rAddr := p.address;
        if lAddr != rAddr {
          if lAddr !in m || rAddr !in m {
            MissingThrows(left, right, bValues, order, i, m);
            return Err(NullPointer);
          }
          m := m[lAddr := BV.Join(m[lAddr], m[rAddr])];
        }
      }
      i := i + 1;
    }
    TakeAll(order);
    assert forall k :: k in ext <==> k in left.external || k in right.external;
    MergedCharacterized(left, right, ext);
    r := Ok((Obj(ext, left.internal), m));
  }

  /** The properties Obj.join has built after visiting the right
    * object's properties in `keys`: the left ones, and the visited right
    * ones the left lacks. */
  ghost predicate MergedSoFar(left: Obj, right: Obj, keys: seq<string>, ext: map<string, Property>) {
    (forall j :: 0 <= j < |keys| ==> keys[j] in right.external)
    && (forall k :: k in ext <==> k in left.external || k in keys)
    && (forall k :: k in left.external ==> ext[k] == left.external[k])
    && (forall k :: k in ext && k !in left.external ==> ext[k] == right.external[k])
  }

  /** Visiting the right property order[i]: it is put in when the left
    * object lacks it, and otherwise the property found is the left one. */
  lemma MergedSnoc(left: Obj, right: Obj, order: seq<string>, i: nat, ext: map<string, Property>)
    requires Enumerates(order, right.external.Keys) && i < |order|
    requires MergedSoFar(left, right, order[..i], ext)
    ensures order[i] in ext ==> order[i] in left.external && ext[order[i]] == left.external[order[i]]
    ensures MergedSoFar(left, right, order[..i + 1],
                        if order[i] in ext then ext else ext[order[i] := right.external[order[i]]])
  {
    var k := order[i];
    TakeSnoc(order, i);
    assert k in right.external;
    forall j | 0 <= j < i
      ensures order[..i][j] != k
    {
      assert order[j] != order[i];
    }
  }

  /** A property whose value is missing when it is reached makes the whole
    * join throw. */
  lemma MissingThrows(left: Obj, right: Obj, bValues: map<Address, BV.BValue>, order: seq<string>, i: nat, m: map<Address, BV.BValue>)
    requires i < |order|
    requires ConflictJoin(left, right, bValues, order[..i]) == Ok(m)
    requires Missing(left, right, m.Keys, order[i])
    ensures ConflictJoin(left, right, bValues, order).Err?
  {
    ConflictJoinDomain(left, right, bValues, order[..i]);
    ConflictJoinDomain(left, right, bValues, order);
    assert Missing(left, right, bValues.Keys, order[i]);
  }

  /** Whether the join throws does not depend on the order the right
    * object's properties are visited in. */
  lemma {:induction false} ConflictJoinErrIff(left: Obj, right: Obj, m: map<Address, BV.BValue>, order: seq<string>)
    requires Enumerates(order, right.external.Keys)
    ensures ConflictJoin(left, right, m, order).Err? <==> exists k :: Missing(left, right, m.Keys, k)
  {
    ConflictJoinDomain(left, right, m, order);
    if exists k :: Missing(left, right, m.Keys, k) {
      var k :| Missing(left, right, m.Keys, k);
      assert k in order;
      var i :| 0 <= i < |order| && order[i] == k;
      assert Missing(left, right, m.Keys, order[i]);
    }
  }

  /** Obj.equals: the same property names, and for each name equal
    * properties, which Property.equals compares by name alone. */
  function Equals(a: Obj, b: Obj): (r: bool)
    ensures r <==> a.external.Keys == b.external.Keys
                   && forall k :: k in a.external ==> a.external[k].name == b.external[k].name
  {
    if |a.external.Keys| != |b.external.Keys| then false
    else if forall k :: k in a.external ==> k in b.external && a.external[k].name == b.external[k].name then
      SubsetSameSizeEqual(a.external.Keys, b.external.Keys);
      true
    else false
  }

  /** Objects whose properties differ only in their addresses and
    * definers, and whose prototypes differ, are equal. */
  lemma EqualsIgnoresAddresses(a: Address, b: Address, p: InternalProps, q: InternalProps)
    ensures Equals(Obj(map["x" := Property(1, "x", a)], p), Obj(map["x" := Property(2, "x", b)], q))
  {
    var o1 := Obj(map["x" := Property(1, "x", a)], p);
    var o2 := Obj(map["x" := Property(2, "x", b)], q);
    assert o1.external.Keys == {"x"} == o2.external.Keys;
  }
}
