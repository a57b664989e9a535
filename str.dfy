// The string lattice: what is known about a JavaScript string (blank,
// numeric, special, a specific literal ...), with an optional literal.

module StrDomain {
  import opened Wrappers

  datatype StrLE =
    TOP | SBLANK | SNOTBLANK | SNOTSPL | SNOTNUM | SNUM | SNOTNUMNORSPL | SSPL
    | SNUMVAL | SNOTNUMNORSPLVAL | SSPLVAL | BOTTOM

  /** A Str: a lattice element and, for the *VAL elements, the literal
    * (a Java String that may be null). */
  datatype Str = Str(le: StrLE, val: Option<string>)

  /** The elements that stand for one specific literal. */
  predicate IsValElement(le: StrLE) {
    le == SNUMVAL || le == SNOTNUMNORSPLVAL || le == SSPLVAL
  }

  /** The one-argument constructor Str(le) as written: its guard reads the
    * field before it is assigned (still null), so it never throws, even
    * for an element that needs a literal. */
  function MakeStrAsWritten(le: StrLE): (r: Result<Str>)
    ensures r == Ok(Str(le, None))
  {
    var field: Option<StrLE> := None;
    if field == Some(SNUMVAL) || field == Some(SNOTNUMNORSPLVAL) || field == Some(SSPLVAL) then
      Err(Thrown("A value must be provided with a VAL lattice element."))
    else Ok(Str(le, None))
  }

  lemma MakeStrAsWrittenAcceptsValElement()
    ensures IsValElement(SNUMVAL) && MakeStrAsWritten(SNUMVAL).Ok?
  {
  }

  /** The one-argument constructor with the guard testing its argument. */
  function MakeStr(le: StrLE): (r: Result<Str>)
    ensures r.Err? <==> IsValElement(le)
    ensures r.Ok? ==> r.value == Str(le, None)
  {
    if le == SNUMVAL || le == SNOTNUMNORSPLVAL || le == SSPLVAL then
      Err(Thrown("A value must be provided with a VAL lattice element."))
    else Ok(Str(le, None))
  }

  /** Str.top: built by the one-argument constructor; nothing is known
    * about the string. */
  function Top(): (t: Str)
    ensures MakeStr(TOP) == Ok(t)
    ensures !NotBlankLE(t.le) && !NotSpl(t.le) && !NotNum(t.le)
  {
    Str(TOP, None)
  }

  /** Str.bottom: built by the one-argument constructor. */
  function Bottom(): (t: Str)
    ensures MakeStr(BOTTOM) == Ok(t)
    ensures !IsNum(t.le) && !IsStr(t.le) && !IsSpl(t.le)
  {
    Str(BOTTOM, None)
  }

  predicate IsNum(le: StrLE) { le == SNUMVAL || le == SNUM }
  predicate IsStr(le: StrLE) { le == SNOTNUMNORSPLVAL || le == SNOTNUMNORSPL }
  predicate IsSpl(le: StrLE) { le == SSPLVAL || le == SSPL }
  predicate NotSpl(le: StrLE) { !(le == SSPLVAL || le == SSPL || le == SNOTNUM || le == TOP) }
  predicate NotNum(le: StrLE) { !(le == SNUMVAL || le == SNUM || le == SNOTSPL || le == TOP) }
  predicate NotBlankLE(le: StrLE) { !(le == SBLANK || le == TOP) }

  /** The case analysis shared by both versions of join once neither side
    * is BOTTOM and the two are not the same element. */
  function JoinDistinct(l: StrLE, r: StrLE): (j: StrLE)
    ensures NotBlankLE(l) && NotBlankLE(r) ==> NotBlankLE(j)
    ensures !IsValElement(j)
  {
    if IsNum(l) && IsNum(r) then SNUM
    else if IsStr(l) && IsStr(r) then SNOTNUMNORSPL
    else if IsSpl(l) && IsSpl(r) then SSPL
    else if NotSpl(l) && NotSpl(r) then SNOTSPL
    else if NotNum(l) && NotNum(r) then SNOTNUM
    else if NotBlankLE(l) && NotBlankLE(r) then SNOTBLANK
    else TOP
  }

  /** Str.join as written: with a BOTTOM right side it keeps the left
    * element but takes the right side's literal. */
  function JoinAsWritten(a: Str, b: Str): (r: Str)
    ensures a.le == BOTTOM ==> r == b
    ensures b.le == BOTTOM && a.le != BOTTOM ==> r == Str(a.le, b.val)
  {
    if a.le == b.le && a.val == b.val then a
    else if a.le == BOTTOM then b
    else if b.le == BOTTOM then Str(a.le, b.val)
    else Str(JoinDistinct(a.le, b.le), None)
  }

  /** Joining a literal with BOTTOM as written loses the literal. */
  lemma JoinAsWrittenDropsLiteral()
    ensures JoinAsWritten(Str(SNUMVAL, Some("5")), Bottom()) == Str(SNUMVAL, None)
  {
  }

  /** Str.join with the BOTTOM right side returning the left side. */
  function Join(a: Str, b: Str): (r: Str)
    ensures a.le == b.le && a.val == b.val ==> r == a
    ensures a.le == BOTTOM ==> r == b
    ensures b.le == BOTTOM && a.le != BOTTOM ==> r == a
    ensures IsNum(a.le) && IsNum(b.le) && a != b ==> r == Str(SNUM, None)
    ensures IsStr(a.le) && IsStr(b.le) && a != b ==> r == Str(SNOTNUMNORSPL, None)
    ensures IsSpl(a.le) && IsSpl(b.le) && a != b ==> r == Str(SSPL, None)
    ensures NotBlankLE(a.le) && NotBlankLE(b.le) ==> NotBlankLE(r.le)
    ensures IsValElement(r.le) ==> r == a || r == b
  {
    if a.le == b.le && a.val == b.val then a
    else if a.le == BOTTOM then b
    else if b.le == BOTTOM then a
    else Str(JoinDistinct(a.le, b.le), None)
  }

  lemma JoinCommutative(a: Str, b: Str)
    requires !(a.le == BOTTOM && b.le == BOTTOM && a.val != b.val)
    ensures Join(a, b) == Join(b, a)
  {
  }

  /** The two versions differ only for a BOTTOM right side. */
  lemma JoinAgreesWithWritten(a: Str, b: Str)
    ensures JoinAsWritten(a, b) != Join(a, b) ==> b.le == BOTTOM && a.le != BOTTOM
  {
  }

  /** Str.notBlank(Str): the string is definitely not empty. The literal of
    * an SNOTNUMNORSPLVAL is dereferenced, so a missing one throws. */
  function NotBlank(s: Str): (r: Result<bool>)
    ensures r.Err? <==> s.le == SNOTNUMNORSPLVAL && s.val.None?
    ensures r == Ok(true) <==>
      IsNum(s.le) || IsSpl(s.le) || s.le == BOTTOM || (s.le == SNOTNUMNORSPLVAL && s.val.Some? && s.val.value != "")
  {
    if IsNum(s.le) || IsSpl(s.le) || s.le == BOTTOM then Ok(true)
    else if s.le == SNOTNUMNORSPLVAL then
      if s.val.None? then Err(NullPointer) else Ok(s.val.value != "")
    else Ok(false)
  }

  /** A string known not to be blank has a not-blank element. */
  lemma NotBlankSound(s: Str)
    ensures NotBlank(s) == Ok(true) ==> NotBlankLE(s.le)
    ensures s.le == SBLANK || s.le == TOP ==> NotBlank(s) == Ok(false)
  {
  }

  /** Str.equals as written: the null test compares this.val with itself. */
  function EqualsAsWritten(a: Str, b: Str): (r: bool)
    ensures r <==> a.le == b.le && (a.val.None? || a.val == b.val)
  {
    if a.le != b.le then false
    else if a.val.None? != a.val.None? then false
    else if a.val.Some? && a.val != b.val then false
    else true
  }

  lemma EqualsAsWrittenAsymmetric()
    ensures EqualsAsWritten(Str(SNUMVAL, None), Str(SNUMVAL, Some("1")))
    ensures !EqualsAsWritten(Str(SNUMVAL, Some("1")), Str(SNUMVAL, None))
  {
  }

  /** Str.equals with the null test comparing both literals. */
  function Equals(a: Str, b: Str): (r: bool)
    ensures r <==> a == b
  {
    if a.le != b.le then false
    else if a.val.None? != b.val.None? then false
    else if a.val.Some? && a.val != b.val then false
    else true
  }
}
