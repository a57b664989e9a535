// Shared vocabulary: Java's null and exceptions as values, Java int
// arithmetic, and the string helpers (decimal printing, comma joining,
// JavaScript's split, String.compareTo, String.hashCode) the rest of the
// model is stated with.

module Wrappers {
  datatype Option<T> = None | Some(value: T)

  /** The Java exceptions the modelled code can raise. */
  datatype JavaError =
    | NullPointer
    | NoSuchElement
    | IndexOutOfBounds
    | Thrown(message: string)

  /** A computation that either returns a value or throws. */
  datatype Result<T> = Ok(value: T) | Err(error: JavaError)
}

module JavaInts {
  const TWO_32: int := 0x1_0000_0000
  const INT_MIN: int := -0x8000_0000
  const INT_MAX: int := 0x7fff_ffff

  predicate IsInt32(x: int) {
    INT_MIN <= x <= INT_MAX
  }

  /** The 32-bit two's complement value Java keeps of x: `(int) x` on a
    * long, `intValue()` on a BigInteger, or an `int` operation that
    * overflows. */
  function ToInt32(x: int): (r: int)
    ensures IsInt32(r)
    ensures (r - x) % TWO_32 == 0
  {
    var m := x % TWO_32;
    if m > INT_MAX then m - TWO_32 else m
  }

  lemma ToInt32OfInt32(x: int)
    requires IsInt32(x)
    ensures ToInt32(x) == x
  {
  }

  /** Wrapping is compatible with addition and multiplication: only the
    * residues modulo 2^32 matter. */
  lemma {:induction false} ToInt32Congruent(x: int, y: int)
    requires (x - y) % TWO_32 == 0
    ensures ToInt32(x) == ToInt32(y)
  {
    var q := (x - y) / TWO_32;
    assert x == y + q * TWO_32;
    ModShift(y, q);
  }

  /** The hash of a BigInteger's magnitude: its 32-bit words, most
    * significant first, folded with h = 31 * h + word in int arithmetic. */
  function MagnitudeHash(m: nat): (h: int)
    ensures IsInt32(h)
    decreases m
  {
    if m == 0 then 0 else ToInt32(31 * MagnitudeHash(m / TWO_32) + m % TWO_32)
  }

  /** Java's BigInteger.hashCode: the magnitude's hash times the sign. */
  function BigIntegerHash(n: int): (h: int)
    ensures IsInt32(h)
  {
    if n < 0 then ToInt32(-MagnitudeHash(-n)) else MagnitudeHash(n)
  }

  lemma ModShift(y: int, q: int)
    ensures (y + q * TWO_32) % TWO_32 == y % TWO_32
  {
  }
}

module Text {
  import opened JavaInts

  function DigitChar(d: nat): char
    requires d < 10
  {
    "0123456789"[d]
  }

  /** The decimal digits of n, most significant first. */
  function NatToString(n: nat): (s: string)
    ensures |s| >= 1
    ensures forall i :: 0 <= i < |s| ==> '0' <= s[i] <= '9'
    decreases n
  {
    if n < 10 then [DigitChar(n)] else NatToString(n / 10) + [DigitChar(n % 10)]
  }

  /** Java's Integer.toString / string concatenation of an int. */
  function IntToString(i: int): (s: string)
    ensures |s| >= 1
    ensures ',' !in s
  {
    if i < 0 then "-" + NatToString(-i) else NatToString(i)
  }

  /** Each element of a sequence of ids, printed. */
  function IdStrings(ids: seq<int>): (ss: seq<string>)
    ensures |ss| == |ids|
    ensures forall i :: 0 <= i < |ss| ==> ',' !in ss[i]
  {
    seq(|ids|, i requires 0 <= i < |ids| => IntToString(ids[i]))
  }

  /** The elements separated by ',' (no trailing separator). */
  function JoinComma(xs: seq<string>): string
    decreases |xs|
  {
    if |xs| == 0 then ""
    else if |xs| == 1 then xs[0]
    else xs[0] + "," + JoinComma(xs[1..])
  }

  /** What a loop that appends `x + ","` for every element builds. */
  function TrailingJoin(xs: seq<string>): string
    decreases |xs|
  {
    if |xs| == 0 then "" else xs[0] + "," + TrailingJoin(xs[1..])
  }

  lemma {:induction false} TrailingJoinAppend(xs: seq<string>, x: string)
    ensures TrailingJoin(xs + [x]) == TrailingJoin(xs) + x + ","
    decreases |xs|
  {
    if |xs| == 0 {
      assert xs + [x] == [x];
      assert [x][1..] == [];
    } else {
      assert (xs + [x])[1..] == xs[1..] + [x];
      TrailingJoinAppend(xs[1..], x);
    }
  }

  /** Dropping the last character of the trailing-separator form gives
    * the joined form. */
  lemma {:induction false} TrailingJoinIsJoin(xs: seq<string>)
    requires |xs| > 0
    ensures TrailingJoin(xs) == JoinComma(xs) + ","
    decreases |xs|
  {
    if |xs| > 1 {
      TrailingJoinIsJoin(xs[1..]);
    } else {
      assert xs[1..] == [];
    }
  }

  lemma JoinCommaEmpty(xs: seq<string>)
    requires forall i :: 0 <= i < |xs| ==> |xs[i]| > 0
    ensures JoinComma(xs) == "" <==> |xs| == 0
  {
    if |xs| > 0 {
      assert |xs[0]| > 0;
    }
  }

  /** The position of the first c in s. */
  function IndexOf(s: string, c: char): (k: nat)
    requires c in s
    ensures k < |s| && s[k] == c && c !in s[..k]
  {
    if s[0] == c then 0
    else
      assert c in s[1..] by { assert s == [s[0]] + s[1..]; }
      var k := IndexOf(s[1..], c);
      assert s[..k + 1] == [s[0]] + s[1..][..k];
      k + 1
  }

  /** JavaScript's `s.split(',')`: the pieces between commas; the empty
    * string splits into one empty piece. */
  function Split(s: string): (parts: seq<string>)
    ensures |parts| >= 1
    ensures forall i :: 0 <= i < |parts| ==> ',' !in parts[i]
    decreases |s|
  {
    if ',' in s then
      var k := IndexOf(s, ',');
      [s[..k]] + Split(s[k + 1..])
    else [s]
  }

  /** A comma-free first piece is split off at the first comma. */
  lemma SplitCons(a: string, b: string)
    requires ',' !in a
    ensures Split(a + "," + b) == [a] + Split(b)
  {
    var s := a + "," + b;
    assert s[|a|] == ',';
    var k := IndexOf(s, ',');
    assert k == |a|;
    assert s[..k] == a;
    assert s[k + 1..] == b;
  }

  /** Splitting what was joined gives back the comma-free pieces. */
  lemma {:induction false} SplitJoin(xs: seq<string>)
    requires |xs| >= 1
    requires forall i :: 0 <= i < |xs| ==> ',' !in xs[i]
    ensures Split(JoinComma(xs)) == xs
    decreases |xs|
  {
    if |xs| > 1 {
      assert JoinComma(xs) == xs[0] + "," + JoinComma(xs[1..]);
      SplitCons(xs[0], JoinComma(xs[1..]));
      SplitJoin(xs[1..]);
      assert xs == [xs[0]] + xs[1..];
    }
  }

  /** Joining what was split gives back the string. */
  lemma {:induction false} JoinSplit(s: string)
    ensures JoinComma(Split(s)) == s
    decreases |s|
  {
    if ',' in s {
      var k := IndexOf(s, ',');
      JoinSplit(s[k + 1..]);
      var rest := Split(s[k + 1..]);
      assert Split(s) == [s[..k]] + rest;
      assert (Split(s))[1..] == rest;
      assert s == s[..k] + "," + s[k + 1..];
    }
  }

  /** Java's String.compareTo: the difference of the first differing
    * characters, else the difference of the lengths. */
  function CompareStrings(s: string, t: string): int
    decreases |s|
  {
    if |s| == 0 || |t| == 0 then |s| - |t|
    else if s[0] != t[0] then s[0] as int - t[0] as int
    else CompareStrings(s[1..], t[1..])
  }

  lemma {:induction false} CompareStringsZero(s: string, t: string)
    ensures CompareStrings(s, t) == 0 <==> s == t
    decreases |s|
  {
    if |s| > 0 && |t| > 0 && s[0] == t[0] {
      CompareStringsZero(s[1..], t[1..]);
      assert s == [s[0]] + s[1..];
      assert t == [t[0]] + t[1..];
    }
  }

  lemma {:induction false} CompareStringsAntisymmetric(s: string, t: string)
    ensures CompareStrings(t, s) == -CompareStrings(s, t)
    decreases |s|
  {
    if |s| > 0 && |t| > 0 && s[0] == t[0] {
      CompareStringsAntisymmetric(s[1..], t[1..]);
    }
  }

  lemma {:induction false} CompareStringsTransitive(s: string, t: string, u: string)
    requires CompareStrings(s, t) < 0 && CompareStrings(t, u) < 0
    ensures CompareStrings(s, u) < 0
    decreases |s|
  {
    if |s| > 0 && |t| > 0 && |u| > 0 && s[0] == t[0] && t[0] == u[0] {
      CompareStringsTransitive(s[1..], t[1..], u[1..]);
    }
  }

  /** Java's String.hashCode: h = 31 * h + c over the characters, in
    * 32-bit arithmetic. */
  function StringHash(s: string): (h: int)
    ensures IsInt32(h)
    decreases |s|
  {
    if |s| == 0 then 0
    else ToInt32(31 * StringHash(s[..|s| - 1]) + s[|s| - 1] as int)
  }
}

module SetFacts {
  lemma {:induction false} SubsetCardinality<T>(a: set<T>, b: set<T>)
    requires a <= b
    ensures |a| <= |b|
    decreases |b|
  {
    if b != {} {
      var x :| x in b;
      SubsetCardinality(a - {x}, b - {x});
    }
  }

  /** Java's "same size and every element contained" equality tests:
    * containment one way plus equal sizes is set equality. */
  lemma {:induction false} SubsetSameSizeEqual<T>(a: set<T>, b: set<T>)
    requires a <= b && |a| == |b|
    ensures a == b
  {
    if a != b {
      var x :| x in b && x !in a;
      SubsetCardinality(a, b - {x});
    }
  }

  /** `order` lists the set's elements once each: a Java iteration order
    * over a hash set or the key set of a hash map, which the model does
    * not fix. */
  predicate Enumerates<T>(order: seq<T>, s: set<T>) {
    (forall i :: 0 <= i < |order| ==> order[i] in s)
    && (forall x :: x in s ==> x in order)
    && (forall i, j :: 0 <= i < j < |order| ==> order[i] != order[j])
  }

  /** Some iteration order of a set. */
  method Enumerate<T>(s: set<T>) returns (order: seq<T>)
    ensures Enumerates(order, s)
  {
    order := [];
    var rest := s;
    while rest != {}
      invariant rest <= s
      invariant forall i :: 0 <= i < |order| ==> order[i] in s && order[i] !in rest
      invariant forall x :: x in s ==> x in order || x in rest
      invariant forall i, j :: 0 <= i < j < |order| ==> order[i] != order[j]
      decreases rest
    {
      var x :| x in rest;
      order := order + [x];
      rest := rest - {x};
    }
  }
}

/** Facts about slices and concatenation, stated apart from any recursive
  * function so that using them costs the solver nothing. */
module SeqFacts {
  lemma TakeDrop<T>(s: seq<T>, i: nat)
    requires i <= |s|
    ensures s[..i] + s[i..] == s
  {
  }

  lemma TakeAll<T>(s: seq<T>)
    ensures s[..|s|] == s && s[|s|..] == []
  {
  }

  lemma DropCons<T>(s: seq<T>, j: nat)
    requires j < |s|
    ensures s[j..] == [s[j]] + s[j + 1..]
  {
  }

  lemma TakeSnoc<T>(s: seq<T>, i: nat)
    requires i < |s|
    ensures s[..i + 1] == s[..i] + [s[i]]
  {
  }

  lemma DropDrop<T>(s: seq<T>, n: nat)
    requires n < |s|
    ensures s[n..][1..] == s[n + 1..]
  {
  }

  lemma TakeTake<T>(s: seq<T>, n: nat)
    requires 0 < n <= |s|
    ensures s[..n][..n - 1] == s[..n - 1]
  {
  }

  lemma Assoc<T>(a: seq<T>, b: seq<T>, c: T, d: seq<T>)
    ensures a + b + [c] + [] + d == a + b + ([c] + d)
  {
  }

  lemma InSnoc<T>(s: seq<T>, x: T)
    requires |s| > 0
    ensures x in s <==> x in s[..|s| - 1] || x == s[|s| - 1]
  {
    if x in s && x != s[|s| - 1] {
      var i :| 0 <= i < |s| && s[i] == x;
      assert s[..|s| - 1][i] == x;
    }
  }

  lemma AppendNil<T>(a: seq<T>)
    ensures a + [] == a && [] + a == a
  {
  }
}
