// The scratchpad: the return value and the argument values of the call
// being analysed.

module ScratchpadDomain {
  import opened Wrappers
  import BV = BValueDomain
  import A = AddressesDomain

  datatype Scratchpad = Scratchpad(returnValue: BV.BValue, args: seq<BV.BValue>)

  /** Scratchpad(returnValue, args): a null return value becomes BOTTOM
    * and null arguments an empty array. */
  function Make(returnValue: Option<BV.BValue>, args: Option<seq<BV.BValue>>): (r: Scratchpad)
    ensures returnValue.None? ==> r.returnValue == BV.Bottom()
    ensures returnValue.Some? ==> r.returnValue == returnValue.value
    ensures args.None? ==> r.args == []
    ensures args.Some? ==> r.args == args.value
  {
    Scratchpad(if returnValue.None? then BV.Bottom() else returnValue.value,
               if args.None? then [] else args.value)
  }

  /** Scratchpad(): no return value and no arguments. */
  function Empty(): (r: Scratchpad)
    ensures r == Make(None, None)
    ensures r.args == [] && BV.WellFormed(r.returnValue)
  {
    Scratchpad(BV.Bottom(), [])
  }

  /** Scratchpad.strongUpdate: the new scratchpad is built from the
    * arguments alone, whatever the receiver held. */
  function StrongUpdate(s: Scratchpad, returnValue: Option<BV.BValue>, args: Option<seq<BV.BValue>>): (r: Scratchpad)
    ensures r == Make(returnValue, args)
  {
    Make(returnValue, args)
  }

  lemma StrongUpdateForgetsReceiver(s: Scratchpad, t: Scratchpad, returnValue: Option<BV.BValue>, args: Option<seq<BV.BValue>>)
    ensures StrongUpdate(s, returnValue, args) == StrongUpdate(t, returnValue, args)
  {
  }

  /** An argument whose self-join the address cap does not widen. */
  predicate SmallArg(v: BV.BValue) {
    BV.WellFormed(v) && (v.addrs.le == A.SET ==> 2 * |v.addrs.addresses| <= A.MAX_SIZE)
  }

  /** The arguments of a join: as long as the longer side; positions both
    * sides have are joined, the others copied from the side that has
    * them. */
  function JoinArgs(a: seq<BV.BValue>, b: seq<BV.BValue>): (r: seq<BV.BValue>)
    ensures |r| == if |a| > |b| then |a| else |b|
    ensures forall i :: 0 <= i < |r| && i >= |a| ==> r[i] == b[i]
    ensures forall i :: 0 <= i < |r| && i < |a| && i >= |b| ==> r[i] == a[i]
    ensures forall i :: 0 <= i < |a| && i < |b| ==> r[i] == BV.Join(a[i], b[i])
  {
    var n := if |a| > |b| then |a| else |b|;
    seq(n, i requires 0 <= i < n => if i >= |a| then b[i] else if i >= |b| then a[i] else BV.Join(a[i], b[i]))
  }

  /** Joining with no arguments keeps the arguments; joining small,
    * well-formed arguments with themselves keeps them too. */
  lemma JoinArgsLaws(a: seq<BV.BValue>)
    ensures JoinArgs(a, []) == a && JoinArgs([], a) == a
    ensures (forall i :: 0 <= i < |a| ==> SmallArg(a[i])) ==> JoinArgs(a, a) == a
  {
    if forall i :: 0 <= i < |a| ==> SmallArg(a[i]) {
      forall i | 0 <= i < |a|
        ensures JoinArgs(a, a)[i] == a[i]
      {
        BV.JoinIdempotentSmall(a[i]);
      }
    }
  }

  /** One position of the joined arguments. */
  method JoinArg(a: seq<BV.BValue>, b: seq<BV.BValue>, i: nat) returns (v: BV.BValue)
    requires i < |a| || i < |b|
    ensures v == JoinArgs(a, b)[i]
  {
    if i >= |a| {
      v := b[i];
    } else if i >= |b| {
      v := a[i];
    } else {
      v := BV.Join(a[i], b[i]);
    }
  }

  /** The argument array of Scratchpad.join, filled position by
    * position. */
  method JoinArgsArray(a: seq<BV.BValue>, b: seq<BV.BValue>) returns (args: array<BV.BValue>)
    ensures args[..] == JoinArgs(a, b)
  {
    var arglen := if |a| > |b| then |a| else |b|;
    args := new BV.BValue[arglen](_ => BV.Bottom());
    ghost var joined := JoinArgs(a, b);
    for i := 0 to args.Length
      invariant forall j :: 0 <= j < i ==> args[j] == joined[j]
    {
      args[i] := JoinArg(a, b, i);
    }
    assert args[..] == joined;
  }

  /** Scratchpad.join: the return values joined, and the arguments joined
    * position by position into a new array. */
  method Join(s: Scratchpad, pad: Scratchpad) returns (r: Scratchpad)
    ensures r.returnValue == BV.Join(s.returnValue, pad.returnValue)
    ensures r.args == JoinArgs(s.args, pad.args)
  {
    var retVal := BV.Join(s.returnValue, pad.returnValue);
    var args := JoinArgsArray(s.args, pad.args);
    r := Scratchpad(retVal, args[..]);
  }

  /** Scratchpad.weakUpdate: the receiver joined with a scratchpad holding
    * the new return value and the receiver's own arguments. */
  method WeakUpdate(s: Scratchpad, returnValue: Option<BV.BValue>) returns (r: Scratchpad)
    ensures r.returnValue == BV.Join(s.returnValue, Make(returnValue, None).returnValue)
    ensures r.args == JoinArgs(s.args, s.args)
  {
    r := Join(s, Make(returnValue, Some(s.args)));
  }

  /** The arguments survive a weak update only while the points-to sets
    * are small: a six-address argument is widened to TOP. */
  lemma WeakUpdateWidensLargeArgs(v: BV.BValue)
    requires v.addrs.le == A.SET && |v.addrs.addresses| == 6
    ensures JoinArgs([v], [v])[0].addrs == A.Top()
  {
  }
}
