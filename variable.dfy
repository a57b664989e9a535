// A variable of the environment: its name, the addresses it may hold, how
// it changed and what it depends on.

module VariableDomain {
  import A = AddressesDomain
  import opened AddressDomain
  import C = ChangeDomain
  import D = DependenciesDomain
  import Text
  import JavaInts

  datatype Variable = Variable(name: string, addresses: A.Addresses, change: C.Change, deps: D.Dependencies)

  /** Variable.join: the receiver's name, and the addresses, change and
    * dependencies of both sides joined. The argument's name is not
    * consulted. */
  function Join(a: Variable, b: Variable): (r: Variable)
    ensures r.name == a.name
    ensures forall x :: A.MayPointTo(a.addresses, x) || A.MayPointTo(b.addresses, x) ==> A.MayPointTo(r.addresses, x)
    ensures C.Leq(a.change, r.change) && C.Leq(b.change, r.change)
    ensures r.deps.ids == a.deps.ids + b.deps.ids
  {
    Variable(a.name, A.Join(a.addresses, b.addresses), C.Join(a.change, b.change), D.Join(a.deps, b.deps))
  }

  /** The joined variable is equal (by name) to the receiver, whatever the
    * name of the argument. */
  lemma JoinKeepsReceiverName(a: Variable, b: Variable)
    ensures Equals(Join(a, b), a)
    ensures a.name != b.name ==> !Equals(Join(a, b), b)
  {
  }

  /** Variable.inject: a variable holding exactly one address. */
  function Inject(name: string, x: Address, change: C.Change, deps: D.Dependencies): (r: Variable)
    ensures r.name == name && r.change == change && r.deps == deps
    ensures A.WellFormed(r.addresses)
    ensures forall y :: A.MayPointTo(r.addresses, y) <==> y == x
  {
    Variable(name, A.FromSet({x}), change, deps)
  }

  /** Variable.equals: two variables are equal when their names are. */
  function Equals(a: Variable, b: Variable): (r: bool)
    ensures r <==> a.name == b.name
  {
    a == b || a.name == b.name
  }

  /** Variable.hashCode: the Java hash of the name. */
  function HashCode(v: Variable): (h: int)
    ensures JavaInts.IsInt32(h)
  {
    Text.StringHash(v.name)
  }

  /** Equal variables hash equally, so hashCode agrees with equals. */
  lemma EqualVariablesHashEqually(a: Variable, b: Variable)
    requires Equals(a, b)
    ensures HashCode(a) == HashCode(b)
  {
  }
}
