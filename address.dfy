// Abstract addresses of the analysis and the JavaScript object classes
// that trace-sensitive addresses are refined by.

module JSClasses {
  /** The classes of objects the analysis allocates, with the numeric
    * value each one carries. */
  datatype JSClass =
    | CObject
    | CFunction
    | CArguments
    | CObject_Obj
    | CObject_prototype_Obj
    | CFunction_Obj
    | CFunction_prototype_Obj

  function ClassValue(c: JSClass): (v: nat)
    ensures v <= 5
    ensures v == 0 <==> c == CObject
  {
    match c
    case CObject => 0
    case CFunction => 1
    case CArguments => 3
    case CObject_Obj => 2
    case CObject_prototype_Obj => 3
    case CFunction_Obj => 4
    case CFunction_prototype_Obj => 5
  }
}

module AddressDomain {
  import opened JavaInts

  /** An abstract address: a (BigInteger) location and the variable or
    * property it was created for. */
  datatype Address = Address(addr: int, prop: string)

  /** Address.equals: same property name and same location. */
  function Equals(a: Address, b: Address): (r: bool)
    ensures r <==> a == b
  {
    a.prop == b.prop && a.addr == b.addr
  }

  /** Address.hashCode: the BigInteger hash of the location only. */
  function HashCode(a: Address): (h: int)
    ensures IsInt32(h)
  {
    BigIntegerHash(a.addr)
  }

  /** The hash ignores the property name, so equal addresses (and
    * addresses differing only in the property) hash equally. */
  lemma HashCodeOfLocation(a: Address, b: Address)
    requires a.addr == b.addr
    ensures HashCode(a) == HashCode(b)
  {
  }

  lemma EqualAddressesHashEqually(a: Address, b: Address)
    requires Equals(a, b)
    ensures HashCode(a) == HashCode(b)
  {
  }

  /** The hash of a small non-negative location is the location. */
  lemma {:induction false} HashCodeSmall(a: Address)
    requires 0 <= a.addr <= INT_MAX
    ensures HashCode(a) == a.addr
  {
    assert a.addr / TWO_32 == 0;
    assert MagnitudeHash(0) == 0;
    ToInt32OfInt32(a.addr);
  }

  /** The static counter that hands out negative addresses to builtins. */
  class BuiltinAddresses {
    var next: int

    predicate Valid()
      reads this
    {
      next < 0
    }

    constructor()
      ensures Valid() && next == -1
    {
      next := -1;
    }

    /** Address.createBuiltinAddr(prop): the current counter value, which
      * is then decremented. */
    method CreateBuiltinAddr(prop: string) returns (a: Address)
      requires Valid()
      modifies this
      ensures Valid()
      ensures a == Address(old(next), prop) && a.addr < 0
      ensures next == old(next) - 1
    {
      a := Address(next, prop);
      next := next - 1;
    }

    /** Address.createBuiltinAddr(): the same with an empty property. */
    method CreateAnonymousBuiltinAddr() returns (a: Address)
      requires Valid()
      modifies this
      ensures Valid()
      ensures a == Address(old(next), "") && a.addr < 0
      ensures next == old(next) - 1
    {
      a := CreateBuiltinAddr("");
    }
  }

  /** Two successive builtin addresses are negative and strictly
    * decreasing, hence distinct. */
  method SuccessiveBuiltinsDecrease(b: BuiltinAddresses, p: string, q: string)
      returns (first: Address, second: Address)
    requires b.Valid()
    modifies b
    ensures b.Valid()
    ensures second.addr < first.addr < 0
    ensures first != second
  {
    first := b.CreateBuiltinAddr(p);
    second := b.CreateBuiltinAddr(q);
  }
}

module AddressesDomain {
  import opened AddressDomain
  import opened SetFacts

  datatype AddrLE = TOP | SET | BOTTOM

  /** A points-to set: TOP (may point anywhere), a SET of addresses, or
    * BOTTOM (points nowhere). */
  datatype Addresses = Addresses(le: AddrLE, addresses: set<Address>)

  const MAX_SIZE: nat := 10

  /** The value may hold address a. */
  predicate MayPointTo(x: Addresses, a: Address) {
    x.le == TOP || (x.le == SET && a in x.addresses)
  }

  /** TOP and BOTTOM are built with an empty set. */
  predicate WellFormed(x: Addresses) {
    x.le != SET ==> x.addresses == {}
  }

  /** Addresses.top: may point to any address (TopBottomMeaning). */
  function Top(): (r: Addresses)
    ensures WellFormed(r)
  {
    Addresses(TOP, {})
  }

  /** Addresses.bottom: points to no address (TopBottomMeaning). */
  function Bottom(): (r: Addresses)
    ensures WellFormed(r)
  {
    Addresses(BOTTOM, {})
  }

  /** The constructor from a set of addresses. */
  function FromSet(s: set<Address>): (r: Addresses)
    ensures WellFormed(r)
    ensures forall x :: x in s <==> MayPointTo(r, x)
  {
    Addresses(SET, s)
  }

  /** Top may point to every address and bottom to none. */
  lemma TopBottomMeaning(a: Address)
    ensures MayPointTo(Top(), a) && !MayPointTo(Bottom(), a)
  {
  }

  /** Addresses.join. */
  function Join(x: Addresses, y: Addresses): (r: Addresses)
    ensures y.le == BOTTOM ==> r == x
    ensures x.le == BOTTOM && y.le != BOTTOM ==> r == y
    ensures x.le != BOTTOM && y.le != BOTTOM && (x.le == TOP || y.le == TOP) ==> r == Top()
    ensures x.le == SET && y.le == SET ==>
      (r == Top() <==> |x.addresses| + |y.addresses| > MAX_SIZE)
    ensures forall a :: MayPointTo(x, a) || MayPointTo(y, a) ==> MayPointTo(r, a)
    ensures r.le == SET ==> forall a :: MayPointTo(r, a) ==> MayPointTo(x, a) || MayPointTo(y, a)
    ensures x.le == SET && y.le == SET && |x.addresses| <= MAX_SIZE && |y.addresses| <= MAX_SIZE && r.le == SET
      ==> |r.addresses| <= MAX_SIZE
  {
    if y.le == BOTTOM then x
    else if x.le == BOTTOM then y
    else if x.le == TOP || y.le == TOP then Top()
    else if |x.addresses| + |y.addresses| > MAX_SIZE then Top()
    else
      assert |x.addresses + y.addresses| <= |x.addresses| + |y.addresses| by {
        UnionCardinality(x.addresses, y.addresses);
      }
      Addresses(SET, x.addresses + y.addresses)
  }

  lemma {:induction false} UnionCardinality<T>(a: set<T>, b: set<T>)
    ensures |a + b| <= |a| + |b|
  {
    assert a + b == a + (b - a);
    assert |b - a| <= |b| by { SubsetCardinality(b - a, b); }
  }

  lemma JoinCommutative(x: Addresses, y: Addresses)
    requires WellFormed(x) && WellFormed(y)
    ensures Join(x, y) == Join(y, x)
  {
  }

  /** The size cap counts both sides, so a set joined with itself can
    * become TOP: join is not idempotent. */
  lemma JoinNotIdempotent()
    ensures var s := FromSet({Address(0, ""), Address(1, ""), Address(2, ""),
                              Address(3, ""), Address(4, ""), Address(5, "")});
            Join(s, s) == Top()
  {
    var s := {Address(0, ""), Address(1, ""), Address(2, ""), Address(3, ""), Address(4, ""), Address(5, "")};
    assert |s| == 6;
  }

  /** Joining a small set with itself gives it back. */
  lemma JoinIdempotentSmall(x: Addresses)
    requires WellFormed(x)
    requires x.le == SET ==> 2 * |x.addresses| <= MAX_SIZE
    ensures Join(x, x) == x
  {
  }

  /** Addresses.weakUpdate: join with a SET of the new addresses. */
  function WeakUpdate(x: Addresses, s: set<Address>): (r: Addresses)
    ensures forall a :: a in s ==> MayPointTo(r, a)
    ensures forall a :: MayPointTo(x, a) ==> MayPointTo(r, a)
    ensures r == Top() <==> x.le == TOP || (x.le == SET && |x.addresses| + |s| > MAX_SIZE)
    ensures x.le == BOTTOM ==> r == FromSet(s)
  {
    Join(x, FromSet(s))
  }

  /** Addresses.strongUpdate: the new addresses replace the old ones,
    * unless there are more than MAX_SIZE of them. */
  function StrongUpdate(x: Addresses, s: set<Address>): (r: Addresses)
    ensures |s| > MAX_SIZE ==> r == Top()
    ensures |s| <= MAX_SIZE ==> r == FromSet(s)
    ensures forall a :: a in s ==> MayPointTo(r, a)
  {
    if |s| > MAX_SIZE then Top() else FromSet(s)
  }

  /** Addresses.equals: same size and every address of one is in the
    * other; the lattice element is not compared. */
  function Equals(x: Addresses, y: Addresses): (r: bool)
    ensures r <==> x.addresses == y.addresses
  {
    var same := |x.addresses| == |y.addresses| && forall a :: a in x.addresses ==> a in y.addresses;
    if same then
      SubsetSameSizeEqual(x.addresses, y.addresses);
      true
    else false
  }

  lemma EqualsIgnoresElement()
    ensures Equals(Top(), Bottom())
  {
  }
}
