// The number lattice: what is known about a JavaScript number (zero, NaN,
// a real value, a specific literal ...), with an optional literal value.

module NumDomain {
  import opened Wrappers

  datatype NumLE =
    TOP | ZERO | NAN | NAN_ZERO | NI | PI | VAL | REAL | NOT_NAN | NOT_ZERO | NOT_ZERO_NOR_NAN | BOTTOM

  /** A Num: a lattice element and, for VAL, the literal (a Java String
    * that may be null). */
  datatype Num = Num(le: NumLE, val: Option<string>)

  /** The one-argument constructor Num(le): VAL needs a value, so it
    * throws; every other element is built without a value. */
  function MakeNum(le: NumLE): (r: Result<Num>)
    ensures r.Err? <==> le == VAL
    ensures r.Ok? ==> r.value.le == le && r.value.val.None?
  {
    if le == VAL then Err(Thrown("A value must be provided with the NVAL lattice element."))
    else Ok(Num(le, None))
  }

  /** Num.top: built by the one-argument constructor; nothing is known
    * about the number. */
  function Top(): (t: Num)
    ensures MakeNum(TOP) == Ok(t)
    ensures !IsReal(t.le) && !IsFalsey(t.le) && !NotNaN(t.le) && !NotZero(t.le)
  {
    Num(TOP, None)
  }

  /** Num.bottom: built by the one-argument constructor; it stands for no
    * number, so it is neither zero nor NaN. */
  function Bottom(): (t: Num)
    ensures MakeNum(BOTTOM) == Ok(t)
    ensures !IsReal(t.le) && !IsFalsey(t.le) && NotZeroNorNaN(t.le)
  {
    Num(BOTTOM, None)
  }

  predicate IsReal(le: NumLE) {
    le == VAL || le == REAL
  }

  predicate IsFalsey(le: NumLE) {
    le == NAN || le == ZERO || le == NAN_ZERO
  }

  /** The number is definitely not NaN. */
  predicate NotNaN(le: NumLE) {
    !(le == NAN || le == NOT_ZERO || le == NAN_ZERO || le == TOP)
  }

  /** The number is definitely not zero. */
  predicate NotZero(le: NumLE) {
    !(le == ZERO || le == NOT_NAN || le == NAN_ZERO || le == TOP)
  }

  /** The number is definitely neither zero nor NaN. */
  predicate NotZeroNorNaN(le: NumLE) {
    !(le == ZERO || le == NAN || le == NOT_NAN || le == NOT_ZERO || le == NAN_ZERO || le == TOP)
  }

  /** The combined predicate is exactly the conjunction of the other two. */
  lemma NotZeroNorNaNIsBoth(le: NumLE)
    ensures NotZeroNorNaN(le) <==> NotZero(le) && NotNaN(le)
  {
  }

  /** A real-family element is neither zero nor NaN. */
  lemma RealIsNotZeroNorNaN(le: NumLE)
    ensures IsReal(le) ==> NotZeroNorNaN(le)
    ensures IsFalsey(le) ==> !NotZeroNorNaN(le)
  {
  }

  /** Num.join as written. The NOT_ZERO_NOR_NAN case is checked after
    * NOT_NAN, so two distinct elements that are neither zero nor NaN join
    * to NOT_NAN and the last specific case is never reached. */
  function JoinAsWritten(a: Num, b: Num): (r: Num)
    ensures a.le == b.le && a.val == b.val ==> r == a
    ensures a.le == BOTTOM ==> r == b
    ensures b.le == BOTTOM && a.le != BOTTOM ==> r == a
    ensures IsReal(a.le) && IsReal(b.le) && a != b ==> r == Num(REAL, None)
    ensures NotNaN(r.le) ==> NotNaN(a.le) && NotNaN(b.le)
    ensures NotZero(r.le) ==> NotZero(a.le) && NotZero(b.le)
    ensures r.le == NOT_ZERO_NOR_NAN ==> r == a || r == b
  {
    if a.le == b.le && a.val == b.val then a
    else if a.le == BOTTOM then b
    else if b.le == BOTTOM then a
    else if IsReal(a.le) && IsReal(b.le) then Num(REAL, None)
    else if NotNaN(a.le) && NotNaN(b.le) then Num(NOT_NAN, None)
    else if NotZero(a.le) && NotZero(b.le) then Num(NOT_ZERO, None)
    else if IsFalsey(a.le) && IsFalsey(b.le) then Num(NAN_ZERO, None)
    else if NotZeroNorNaN(a.le) && NotZeroNorNaN(b.le) then Num(NOT_ZERO_NOR_NAN, None)
    else Top()
  }

  /** Joining a positive and a negative integer as written forgets that
    * neither is zero. */
  lemma JoinAsWrittenForgetsNotZero()
    ensures NotZero(PI) && NotZero(NI)
    ensures JoinAsWritten(Num(PI, None), Num(NI, None)) == Num(NOT_NAN, None)
    ensures !NotZero(NOT_NAN)
  {
  }

  /** Num.join with the cases checked from the most precise one down
    * (real, neither zero nor NaN, not NaN, not zero, falsey). */
  function Join(a: Num, b: Num): (r: Num)
    ensures a.le == b.le && a.val == b.val ==> r == a
    ensures a.le == BOTTOM ==> r == b
    ensures b.le == BOTTOM && a.le != BOTTOM ==> r == a
    ensures IsReal(a.le) && IsReal(b.le) && a != b ==> r == Num(REAL, None)
    ensures NotNaN(r.le) <==> NotNaN(a.le) && NotNaN(b.le)
    ensures NotZero(r.le) <==> NotZero(a.le) && NotZero(b.le)
    ensures NotZeroNorNaN(r.le) <==> NotZeroNorNaN(a.le) && NotZeroNorNaN(b.le)
  {
    if a.le == b.le && a.val == b.val then a
    else if a.le == BOTTOM then b
    else if b.le == BOTTOM then a
    else if IsReal(a.le) && IsReal(b.le) then Num(REAL, None)
    else if NotZeroNorNaN(a.le) && NotZeroNorNaN(b.le) then Num(NOT_ZERO_NOR_NAN, None)
    else if NotNaN(a.le) && NotNaN(b.le) then Num(NOT_NAN, None)
    else if NotZero(a.le) && NotZero(b.le) then Num(NOT_ZERO, None)
    else if IsFalsey(a.le) && IsFalsey(b.le) then Num(NAN_ZERO, None)
    else Top()
  }

  lemma JoinZeroNaN()
    ensures Join(Num(ZERO, None), Num(NAN, None)) == Num(NAN_ZERO, None)
    ensures JoinAsWritten(Num(ZERO, None), Num(NAN, None)) == Num(NAN_ZERO, None)
  {
  }

  /** The two versions differ only where the written one reaches NOT_NAN
    * for two elements that are neither zero nor NaN. */
  lemma JoinAgreesWithWritten(a: Num, b: Num)
    ensures JoinAsWritten(a, b) != Join(a, b) ==>
      JoinAsWritten(a, b) == Num(NOT_NAN, None) && Join(a, b) == Num(NOT_ZERO_NOR_NAN, None)
  {
  }

  /** Join is symmetric unless both sides are BOTTOM with different
    * literals. */
  lemma JoinCommutative(a: Num, b: Num)
    requires !(a.le == BOTTOM && b.le == BOTTOM && a.val != b.val)
    ensures Join(a, b) == Join(b, a)
  {
  }

  /** Num.equals as written: the null test compares this.val with itself,
    * so a receiver without a value equals any Num with the same element. */
  function EqualsAsWritten(a: Num, b: Num): (r: bool)
    ensures r <==> a.le == b.le && (a.val.None? || a.val == b.val)
  {
    if a.le != b.le then false
    else if a.val.None? != a.val.None? then false
    else if a.val.Some? && a.val != b.val then false
    else true
  }

  lemma EqualsAsWrittenAsymmetric()
    ensures EqualsAsWritten(Num(VAL, None), Num(VAL, Some("1")))
    ensures !EqualsAsWritten(Num(VAL, Some("1")), Num(VAL, None))
  {
  }

  /** Num.equals with the null test comparing both values. */
  function Equals(a: Num, b: Num): (r: bool)
    ensures r <==> a == b
  {
    if a.le != b.le then false
    else if a.val.None? != b.val.None? then false
    else if a.val.Some? && a.val != b.val then false
    else true
  }
}
