// Traces: the flow-sensitive, context-insensitive trace that names the
// addresses allocated at a program point.

module Traces {
  import opened Wrappers
  import opened JavaInts
  import opened AddressDomain
  import opened JSClasses

  /** A flow-sensitive, context-insensitive trace: just the current
    * program point (a Java int). */
  datatype FSCI = FSCI(pp: int)

  /** The classes whose addresses are refined by the class value. */
  function TraceTypes(): (s: set<JSClass>)
    ensures forall c :: c in s <==> c == CObject
  {
    {CObject}
  }

  /** FSCI.update(pp): a new trace at the given program point. */
  function Update(t: FSCI, pp: int): (r: FSCI)
    ensures r.pp == pp
  {
    FSCI(pp)
  }

  /** FSCI.update(env, store, selfAddr, call): a new trace at the call
    * node's id; a call node without an id cannot be unboxed. */
  function UpdateCall(t: FSCI, callId: Option<int>): (r: Result<FSCI>)
    ensures r.Err? <==> callId.None?
    ensures r.Err? ==> r.error == NullPointer
    ensures r.Ok? ==> r.value == Update(t, callId.value)
  {
    if callId.None? then Err(NullPointer) else Ok(FSCI(callId.value))
  }

  /** FSCI.makeAddr: the program point shifted into the high words, plus
    * the variable id. */
  function MakeAddr(t: FSCI, varId: int, prop: string): Address {
    Address(t.pp * TWO_32 + varId, prop)
  }

  /** FSCI.toAddr: the program point shifted into the high words. */
  function ToAddr(t: FSCI, prop: string): Address {
    Address(t.pp * TWO_32, prop)
  }

  /** toAddr is makeAddr with variable id 0. */
  lemma ToAddrIsMakeAddrZero(t: FSCI, prop: string)
    ensures ToAddr(t, prop) == MakeAddr(t, 0, prop)
  {
  }

  /** Trace.getBase: the low 32 bits of the location, as a Java int. */
  function GetBase(a: Address): (b: int)
    ensures IsInt32(b)
  {
    ToInt32(a.addr)
  }

  /** The base of an address made for variable id v is v, whatever the
    * program point. */
  lemma {:induction false} GetBaseMakeAddr(t: FSCI, v: int, prop: string)
    requires IsInt32(v)
    ensures GetBase(MakeAddr(t, v, prop)) == v
  {
    var x := t.pp * TWO_32 + v;
    assert MakeAddr(t, v, prop).addr == x;
    ModShift(0, t.pp);
    assert x - v == 0 + t.pp * TWO_32;
    ToInt32Congruent(x, v);
    ToInt32OfInt32(v);
  }

  /** Two int32 values that agree modulo 2^32 are equal. */
  lemma {:induction false} Int32Residue(x: int, y: int)
    requires IsInt32(x) && IsInt32(y)
    requires (x - y) % TWO_32 == 0
    ensures x == y
  {
    ToInt32Congruent(x, y);
    ToInt32OfInt32(x);
    ToInt32OfInt32(y);
  }

  /** Addresses made at program points and variable ids that are Java ints
    * coincide only when both the program point and the variable id do. */
  lemma {:induction false} MakeAddrInjective(t: FSCI, u: FSCI, v: int, w: int, prop: string)
    requires IsInt32(v) && IsInt32(w)
    requires MakeAddr(t, v, prop) == MakeAddr(u, w, prop)
    ensures t == u && v == w
  {
    assert v - w == (u.pp - t.pp) * TWO_32;
    ModShift(0, u.pp - t.pp);
    Int32Residue(v, w);
  }

  /** Trace.modAddr: the class value is added to the location for classes
    * in traceTypes; other addresses are returned unchanged. */
  function ModAddr(a: Address, c: JSClass): (r: Address)
    ensures r.prop == a.prop
    ensures c !in TraceTypes() ==> r == a
  {
    if c in TraceTypes() then Address(a.addr + ClassValue(c), a.prop) else a
  }

  /** The only class in traceTypes has value 0, so modAddr never changes
    * an address. */
  lemma ModAddrIdentity(a: Address, c: JSClass)
    ensures ModAddr(a, c) == a
  {
  }

  /** Trace.intsToBigInteger as written: the loop computes a value for each
    * call and discards it, so the id stays 0 and the result is the
    * program point. */
  method IntsToBigIntegerAsWritten(tr: seq<int>, pp: int) returns (r: int)
    ensures r == pp
  {
    var id := 0;
    for i := 0 to |tr|
      invariant id == 0
    {
      var discarded := (id + tr[i]) * TWO_32;
    }
    r := id * TWO_32 + pp;
  }

  /** Two different traces at the same program point get the same id from
    * the code as written. */
  method TracesCollideAsWritten() returns (a: int, b: int)
    ensures a == b
  {
    a := IntsToBigIntegerAsWritten([1], 7);
    b := IntsToBigIntegerAsWritten([], 7);
  }

  /** The trace words folded as evidently intended: each call is added and
    * the accumulator shifted by 32 bits. */
  function TraceWord(tr: seq<int>): (w: int)
    ensures w % TWO_32 == 0
    decreases |tr|
  {
    if |tr| == 0 then 0
    else
      var w := (TraceWord(tr[..|tr| - 1]) + tr[|tr| - 1]) * TWO_32;
      ModShift(0, TraceWord(tr[..|tr| - 1]) + tr[|tr| - 1]);
      w
  }

  /** The corrected intsToBigInteger: the folded trace, shifted, plus the
    * program point, whose base is the program point. */
  function IntsToBigInteger(tr: seq<int>, pp: int): (r: int)
    ensures IsInt32(pp) ==> ToInt32(r) == pp
  {
    var r := TraceWord(tr) * TWO_32 + pp;
    if IsInt32(pp) then
      ModShift(pp, TraceWord(tr));
      ToInt32Congruent(r, pp);
      ToInt32OfInt32(pp);
      r
    else r
  }

  /** The corrected id tells equally long traces of Java ints apart. */
  lemma {:induction false} TraceWordInjective(tr: seq<int>, ts: seq<int>)
    requires |tr| == |ts|
    requires forall i :: 0 <= i < |tr| ==> IsInt32(tr[i])
    requires forall i :: 0 <= i < |ts| ==> IsInt32(ts[i])
    requires TraceWord(tr) == TraceWord(ts)
    ensures tr == ts
    decreases |tr|
  {
    if |tr| > 0 {
      var n := |tr| - 1;
      var a := TraceWord(tr[..n]);
      var b := TraceWord(ts[..n]);
      assert (a + tr[n]) * TWO_32 == (b + ts[n]) * TWO_32;
      assert a + tr[n] == b + ts[n];
      assert a % TWO_32 == 0 && b % TWO_32 == 0;
      assert tr[n] - ts[n] == b - a;
      ModShift(0, (b - a) / TWO_32);
      Int32Residue(tr[n], ts[n]);
      TraceWordInjective(tr[..n], ts[..n]);
      assert tr == tr[..n] + [tr[n]];
      assert ts == ts[..n] + [ts[n]];
    }
  }

  /** The corrected id keeps the traces apart that the code as written
    * merges. */
  lemma CorrectedTracesDiffer()
    ensures IntsToBigInteger([1], 7) != IntsToBigInteger([], 7)
  {
    assert [1][..0] == [];
  }
}
