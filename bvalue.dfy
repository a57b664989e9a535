// The base value: the product of the primitive lattices, the points-to
// set, the change lattice and the dependency ids.

module BValueDomain {
  import S = StrDomain
  import N = NumDomain
  import B = BoolDomain
  import Nl = NullDomain
  import U = UndefinedDomain
  import A = AddressesDomain
  import opened AddressDomain
  import C = ChangeDomain
  import D = DependenciesDomain
  import SetFacts

  datatype BValue = BValue(
    str: S.Str,
    num: N.Num,
    boolean: B.Bool,
    nul: Nl.Null,
    undef: U.Undefined,
    addrs: A.Addresses,
    change: C.Change,
    deps: D.Dependencies)

  /** The components are built the way the constructors build them: no
    * literal on a BOTTOM string or number, no addresses on a TOP or BOTTOM
    * points-to set. */
  predicate WellFormed(v: BValue) {
    (v.str.le == S.BOTTOM ==> v.str.val.None?)
    && (v.num.le == N.BOTTOM ==> v.num.val.None?)
    && A.WellFormed(v.addrs)
  }

  /** BValue.join: the component-wise join. */
  function Join(a: BValue, b: BValue): (r: BValue)
    ensures WellFormed(a) && WellFormed(b) ==> WellFormed(r)
    ensures C.Leq(a.change, r.change) && C.Leq(b.change, r.change)
    ensures B.Leq(a.boolean, r.boolean) && B.Leq(b.boolean, r.boolean)
    ensures forall x :: A.MayPointTo(a.addrs, x) || A.MayPointTo(b.addrs, x) ==> A.MayPointTo(r.addrs, x)
    ensures a.deps.ids + b.deps.ids == r.deps.ids
  {
    BValue(
      S.Join(a.str, b.str),
      N.Join(a.num, b.num),
      B.Join(a.boolean, b.boolean),
      Nl.Join(a.nul, b.nul),
      U.Join(a.undef, b.undef),
      A.Join(a.addrs, b.addrs),
      C.Join(a.change, b.change),
      D.Join(a.deps, b.deps))
  }

  /** BValue.bottom(): every component at its bottom. */
  function Bottom(): (r: BValue)
    ensures WellFormed(r)
  {
    BValue(S.Bottom(), N.Bottom(), B.BOTTOM, Nl.BOTTOM, U.BOTTOM, A.Bottom(), C.BOTTOM, D.Bot())
  }

  /** BValue.bottom(change, deps): no value, but with change and deps. */
  function BottomWith(change: C.Change, deps: D.Dependencies): (r: BValue)
    ensures WellFormed(r)
    ensures r.change == change && r.deps == deps
  {
    BValue(S.Bottom(), N.Bottom(), B.BOTTOM, Nl.BOTTOM, U.BOTTOM, A.Bottom(), change, deps)
  }

  /** BValue.top(change, deps), which BValue.primitive also builds: every
    * primitive component TOP, but no addresses, so that objects can be
    * created on demand. */
  function Top(change: C.Change, deps: D.Dependencies): (r: BValue)
    ensures WellFormed(r)
    ensures forall v: BValue :: B.Leq(v.boolean, r.boolean) && Nl.Leq(v.nul, r.nul) && U.Leq(v.undef, r.undef)
    ensures forall x :: !A.MayPointTo(r.addrs, x)
  {
    BValue(S.Top(), N.Top(), B.TOP, Nl.TOP, U.TOP, A.Bottom(), change, deps)
  }

  function Primitive(change: C.Change, deps: D.Dependencies): (r: BValue)
    ensures r == Top(change, deps)
  {
    BValue(S.Top(), N.Top(), B.TOP, Nl.TOP, U.TOP, A.Bottom(), change, deps)
  }

  lemma {:induction false} JoinBottomIdentity(v: BValue)
    requires WellFormed(v)
    ensures Join(Bottom(), v) == v
    ensures Join(v, Bottom()) == v
  {
    D.BotIsJoinIdentity(v.deps);
  }

  lemma {:induction false} JoinCommutative(a: BValue, b: BValue)
    requires WellFormed(a) && WellFormed(b)
    ensures Join(a, b) == Join(b, a)
  {
    S.JoinCommutative(a.str, b.str);
    N.JoinCommutative(a.num, b.num);
    B.JoinCommutative(a.boolean, b.boolean);
    Nl.JoinCommutative(a.nul, b.nul);
    U.JoinCommutative(a.undef, b.undef);
    A.JoinCommutative(a.addrs, b.addrs);
    C.JoinCommutative(a.change, b.change);
    D.JoinLaws(a.deps, b.deps, b.deps);
  }

  /** A value joined with itself is unchanged unless its points-to set is
    * large enough for the size cap to widen it. */
  lemma JoinIdempotentSmall(v: BValue)
    requires WellFormed(v)
    requires v.addrs.le == A.SET ==> 2 * |v.addrs.addresses| <= A.MAX_SIZE
    ensures Join(v, v) == v
  {
    A.JoinIdempotentSmall(v.addrs);
    D.JoinLaws(v.deps, v.deps, v.deps);
  }

  /** Joining with a primitive TOP makes every primitive component TOP and
    * keeps the addresses. */
  lemma JoinWithTop(v: BValue, change: C.Change, deps: D.Dependencies)
    ensures var r := Join(v, Top(change, deps));
      r.str.le == S.TOP && r.num.le == N.TOP && r.boolean == B.TOP
      && r.nul == Nl.TOP && r.undef == U.TOP && r.addrs == v.addrs
  {
  }

  /** Address.inject: a value that is exactly one address. */
  function InjectAddress(x: Address, change: C.Change, deps: D.Dependencies): (r: BValue)
    ensures WellFormed(r)
    ensures forall y :: A.MayPointTo(r.addrs, y) <==> y == x
    ensures r == BottomWith(change, deps).(addrs := A.FromSet({x}))
  {
    BValue(S.Bottom(), N.Bottom(), B.BOTTOM, Nl.BOTTOM, U.BOTTOM, A.FromSet({x}), change, deps)
  }

  /** The components other than one all at their bottoms. */
  predicate OnlyUndefined(v: BValue) {
    v.nul == Nl.BOTTOM && v.num.le == N.BOTTOM && v.str.le == S.BOTTOM
    && v.boolean == B.BOTTOM && v.addrs.le == A.BOTTOM
  }

  /** BValue.isUndefined: definitely undefined. */
  predicate IsUndefined(v: BValue) {
    v.undef == U.TOP && OnlyUndefined(v)
  }

  /** BValue.isNull: definitely null. */
  predicate IsNull(v: BValue) {
    v.undef == U.BOTTOM && v.nul == Nl.TOP && v.num.le == N.BOTTOM
    && v.str.le == S.BOTTOM && v.boolean == B.BOTTOM && v.addrs.le == A.BOTTOM
  }

  /** BValue.isBlank: definitely the empty string. */
  predicate IsBlank(v: BValue) {
    v.undef == U.BOTTOM && v.nul == Nl.BOTTOM && v.num.le == N.BOTTOM
    && v.str.le == S.SBLANK && v.boolean == B.BOTTOM && v.addrs.le == A.BOTTOM
  }

  lemma UndefinedNullExclusive(v: BValue)
    ensures !(IsUndefined(v) && IsNull(v))
    ensures !(IsUndefined(v) && IsBlank(v)) && !(IsNull(v) && IsBlank(v))
  {
  }

  /** BValue.isNaN, isZero, isFalse and isAddress as written: each
    * demands that the string component is NOT bottom, so a value that is
    * only a number, a boolean or an address never satisfies them. */
  predicate IsNaNAsWritten(v: BValue) {
    v.undef == U.BOTTOM && v.nul == Nl.BOTTOM && v.num.le == N.NAN
    && v.str.le != S.BOTTOM && v.boolean == B.BOTTOM && v.addrs.le == A.BOTTOM
  }

  predicate IsZeroAsWritten(v: BValue) {
    v.undef == U.BOTTOM && v.nul == Nl.BOTTOM && v.num.le == N.ZERO
    && v.str.le != S.BOTTOM && v.boolean == B.BOTTOM && v.addrs.le == A.BOTTOM
  }

  predicate IsFalseAsWritten(v: BValue) {
    v.undef == U.BOTTOM && v.nul == Nl.BOTTOM && v.num.le == N.BOTTOM
    && v.str.le != S.BOTTOM && v.boolean == B.FALSE && v.addrs.le == A.BOTTOM
  }

  predicate IsAddressAsWritten(v: BValue) {
    v.undef == U.BOTTOM && v.nul == Nl.BOTTOM && v.num.le == N.BOTTOM
    && v.str.le != S.BOTTOM && v.boolean == B.BOTTOM
    && v.addrs.le == A.SET && |v.addrs.addresses| == 1
  }

  /** As written, the value Address.inject builds is not an address, and a
    * value that may also be any string is. */
  lemma IsAddressAsWrittenRejectsInjected(x: Address, change: C.Change, deps: D.Dependencies)
    ensures !IsAddressAsWritten(InjectAddress(x, change, deps))
    ensures IsAddressAsWritten(InjectAddress(x, change, deps).(str := S.Top()))
  {
    var r := InjectAddress(x, change, deps).(str := S.Top());
    assert r.addrs.addresses == {x};
  }

  /** The four predicates with the string component required to be
    * BOTTOM, like every other component. */
  predicate IsNaN(v: BValue) {
    v.undef == U.BOTTOM && v.nul == Nl.BOTTOM && v.num.le == N.NAN
    && v.str.le == S.BOTTOM && v.boolean == B.BOTTOM && v.addrs.le == A.BOTTOM
  }

  predicate IsZero(v: BValue) {
    v.undef == U.BOTTOM && v.nul == Nl.BOTTOM && v.num.le == N.ZERO
    && v.str.le == S.BOTTOM && v.boolean == B.BOTTOM && v.addrs.le == A.BOTTOM
  }

  predicate IsFalse(v: BValue) {
    v.undef == U.BOTTOM && v.nul == Nl.BOTTOM && v.num.le == N.BOTTOM
    && v.str.le == S.BOTTOM && v.boolean == B.FALSE && v.addrs.le == A.BOTTOM
  }

  predicate IsAddress(v: BValue) {
    v.undef == U.BOTTOM && v.nul == Nl.BOTTOM && v.num.le == N.BOTTOM
    && v.str.le == S.BOTTOM && v.boolean == B.BOTTOM
    && v.addrs.le == A.SET && |v.addrs.addresses| == 1
  }

  /** A value satisfies IsAddress exactly when it is an injected address. */
  lemma {:induction false} IsAddressIffInjected(v: BValue)
    requires WellFormed(v)
    ensures IsAddress(v) <==> exists x :: v == InjectAddress(x, v.change, v.deps)
  {
    if IsAddress(v) {
      var x :| x in v.addrs.addresses;
      assert v.addrs.addresses == {x} by {
        forall y | y in v.addrs.addresses ensures y == x {
          if y != x {
            assert {x, y} <= v.addrs.addresses;
            assert |{x, y}| == 2;
            SetFacts.SubsetCardinality({x, y}, v.addrs.addresses);
          }
        }
      }
      assert v == InjectAddress(x, v.change, v.deps);
    }
    if exists x :: v == InjectAddress(x, v.change, v.deps) {
      var x :| v == InjectAddress(x, v.change, v.deps);
      assert v.addrs.addresses == {x};
    }
  }

  /** The "definitely" predicates describe disjoint sets of values. */
  lemma PredicatesExclusive(v: BValue)
    ensures IsNaN(v) ==> !IsZero(v) && !IsFalse(v) && !IsAddress(v) && !IsUndefined(v) && !IsNull(v)
    ensures IsZero(v) ==> !IsFalse(v) && !IsAddress(v) && !IsUndefined(v) && !IsNull(v) && !IsBlank(v)
    ensures IsFalse(v) ==> !IsAddress(v) && !IsUndefined(v) && !IsNull(v) && !IsBlank(v)
    ensures IsAddress(v) ==> !IsUndefined(v) && !IsNull(v) && !IsBlank(v)
  {
  }

  /** BValue.equals: all eight components, each with its own equals (the
    * points-to sets compared by their addresses only). */
  function Equals(a: BValue, b: BValue): (r: bool)
    ensures r <==> (a.str == b.str && a.num == b.num && a.boolean == b.boolean && a.nul == b.nul
                    && a.undef == b.undef && a.addrs.addresses == b.addrs.addresses
                    && a.change == b.change && a.deps == b.deps)
  {
    if !S.Equals(a.str, b.str) then false
    else if !N.Equals(a.num, b.num) then false
    else if a.boolean != b.boolean then false
    else if a.nul != b.nul then false
    else if a.undef != b.undef then false
    else if !A.Equals(a.addrs, b.addrs) then false
    else if a.change != b.change then false
    else if !D.Equals(a.deps, b.deps) then false
    else
      assert a.deps.ids == b.deps.ids;
      true
  }

  /** Because the points-to sets are compared by their addresses only, a
    * value that may point anywhere equals one that points nowhere. */
  lemma EqualsIgnoresPointsToElement(change: C.Change, deps: D.Dependencies)
    ensures Equals(BottomWith(change, deps), BottomWith(change, deps).(addrs := A.Top()))
    ensures BottomWith(change, deps) != BottomWith(change, deps).(addrs := A.Top())
  {
    A.EqualsIgnoresElement();
  }
}
