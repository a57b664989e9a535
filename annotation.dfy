// Source-file annotations: a label over a range of the file, with the ids of
// the dependencies it links, and the order the fact bases keep them in.

module Annotations {
  import opened JavaInts
  import opened Text

  /** An annotation: its label text (what it means), the dependency ids it links (in the
    * collection's iteration order), the line it starts on, and the range
    * of characters it covers. */
  datatype Annotation = Annotation(text: string, ids: seq<int>, line: int, absolutePosition: int, length: int)

  /** The ids, printed and separated by commas. */
  function DependencyLabel(ids: seq<int>): string {
    JoinComma(IdStrings(ids))
  }

  /** The label is empty exactly when there are no ids, and otherwise it
    * splits back into the printed ids. */
  lemma DependencyLabelSplits(ids: seq<int>)
    ensures DependencyLabel(ids) == "" <==> |ids| == 0
    ensures |ids| > 0 ==> Split(DependencyLabel(ids)) == IdStrings(ids)
  {
    JoinCommaEmpty(IdStrings(ids));
    if |ids| > 0 {
      SplitJoin(IdStrings(ids));
    }
  }

  /** Annotation.getDependencyLabel: each id followed by a comma, with the
    * last comma cut off; "" without ids. */
  method GetDependencyLabel(a: Annotation) returns (r: string)
    ensures r == DependencyLabel(a.ids)
  {
    if |a.ids| == 0 {
      return "";
    }
    var s := AppendIds("", a.ids);
    LabelTail(IdStrings(a.ids));
    r := s[..|s| - 1];
  }

  /** What getDependencyLabel's loop leaves when there are ids: the joined
    * ids and one comma more. */
  lemma LabelTail(printed: seq<string>)
    requires |printed| > 0
    ensures var s := "" + TrailingJoin(printed);
            |s| > 0 && s[..|s| - 1] == JoinComma(printed)
  {
    TrailingJoinIsJoin(printed);
    var s := "" + TrailingJoin(printed);
    assert s == JoinComma(printed) + ",";
  }

  /** The fixed part of toString, up to and including the opening brace. */
  function Header(a: Annotation): string {
    "Annotation: <" + a.text + "|" + IntToString(a.line) + "," + IntToString(a.absolutePosition)
      + "," + IntToString(a.length) + ",{"
  }

  /** Annotation.toString: the header, the dependency label and "}>". */
  method ToString(a: Annotation) returns (r: string)
    ensures r == Header(a) + DependencyLabel(a.ids) + "}>"
  {
    var str := AppendIds(Header(a), a.ids);
    HeaderEndsWithBrace(a);
    TrailingTail(Header(a), IdStrings(a.ids));
    if str[|str| - 1] == '{' {
      return str + "}>";
    }
    r := str[..|str| - 1] + "}>";
  }

  /** toString's loop: each id and a comma appended to the text so far. */
  method AppendIds(h: string, ids: seq<int>) returns (str: string)
    ensures str == h + TrailingJoin(IdStrings(ids))
  {
    str := h;
    ghost var printed := IdStrings(ids);
    for i := 0 to |ids|
      invariant str == h + TrailingJoin(printed[..i])
    {
      var piece := IntToString(ids[i]);
      assert piece == printed[i];
      AppendStep(h, printed, i);
      str := str + piece + ",";
    }
    assert printed[..|ids|] == printed;
  }

  lemma AppendStep(h: string, xs: seq<string>, i: nat)
    requires i < |xs|
    ensures h + TrailingJoin(xs[..i + 1]) == h + TrailingJoin(xs[..i]) + xs[i] + ","
  {
    assert xs[..i + 1] == xs[..i] + [xs[i]];
    TrailingJoinAppend(xs[..i], xs[i]);
  }

  lemma HeaderEndsWithBrace(a: Annotation)
    ensures |Header(a)| > 0 && Header(a)[|Header(a)| - 1] == '{'
  {
  }

  /** What toString's loop leaves after the header h: nothing more when
    * there are no ids, and otherwise the joined ids and a comma. */
  lemma TrailingTail(h: string, printed: seq<string>)
    requires |h| > 0 && h[|h| - 1] == '{'
    ensures var str := h + TrailingJoin(printed);
            (|printed| == 0 ==> str == h + JoinComma(printed))
            && (|printed| > 0 ==> str[|str| - 1] == ',' && str[..|str| - 1] == h + JoinComma(printed))
  {
    if |printed| > 0 {
      TrailingJoinIsJoin(printed);
      var str := h + TrailingJoin(printed);
      assert str == (h + JoinComma(printed)) + ",";
    }
  }

  /** `==` on two distinct boxed Integers: Java shares the boxes of
    * -128..127, so only values in that range compare equal. */
  predicate BoxedSame(x: int, y: int) {
    x == y && -128 <= x <= 127
  }

  /** Annotation.equals as written, for two separately built annotations:
    * the label by value, the position and length by reference. */
  predicate EqualsAsWritten(a: Annotation, b: Annotation) {
    a.text == b.text && BoxedSame(a.absolutePosition, b.absolutePosition) && BoxedSame(a.length, b.length)
  }

  /** Two annotations with the same label and range that the code as
    * written calls different. */
  lemma EqualsAsWrittenMissesLargePositions()
    ensures var a := Annotation("CRITERION", [], 1, 200, 3);
            var b := Annotation("CRITERION", [7], 2, 200, 3);
            !EqualsAsWritten(a, b) && Equals(a, b)
  {
  }

  /** Annotation.equals as intended: the same label, position and length;
    * the line and the ids are not compared. */
  function Equals(a: Annotation, b: Annotation): (r: bool)
    ensures r <==> Compare(a, b) == 0
  {
    CompareStringsZero(a.text, b.text);
    a.text == b.text && a.absolutePosition == b.absolutePosition && a.length == b.length
  }

  /** Where the two agree: the code as written is right on small
    * positions and lengths. */
  lemma EqualsAsWrittenSmall(a: Annotation, b: Annotation)
    requires -128 <= a.absolutePosition <= 127 && -128 <= a.length <= 127
    ensures EqualsAsWritten(a, b) <==> Equals(a, b)
  {
  }

  /** The fact bases' comparator: by position ascending, then by length
    * descending (longer annotations first), then by label. */
  function Compare(a1: Annotation, a2: Annotation): int {
    if a1.absolutePosition < a2.absolutePosition then -1
    else if a1.absolutePosition > a2.absolutePosition then 1
    else if a1.length > a2.length then -1
    else if a1.length < a2.length then 1
    else CompareStrings(a1.text, a2.text)
  }

  predicate Less(a1: Annotation, a2: Annotation) {
    Compare(a1, a2) < 0
  }

  /** The comparator treats as one exactly the annotations with the same
    * position, length and label. */
  lemma CompareZero(a1: Annotation, a2: Annotation)
    ensures Compare(a1, a2) == 0 <==>
      a1.absolutePosition == a2.absolutePosition && a1.length == a2.length && a1.text == a2.text
  {
    CompareStringsZero(a1.text, a2.text);
  }

  /** The comparator is antisymmetric ... */
  lemma CompareAntisymmetric(a1: Annotation, a2: Annotation)
    ensures Compare(a2, a1) == -Compare(a1, a2)
  {
    CompareStringsAntisymmetric(a1.text, a2.text);
  }

  /** ... and transitive, so it is a total order on the classes it
    * identifies. */
  lemma LessTransitive(a1: Annotation, a2: Annotation, a3: Annotation)
    requires Less(a1, a2) && Less(a2, a3)
    ensures Less(a1, a3)
  {
    if a1.absolutePosition == a2.absolutePosition == a3.absolutePosition && a1.length == a2.length == a3.length {
      CompareStringsTransitive(a1.text, a2.text, a3.text);
    }
  }

  lemma LessIrreflexive(a: Annotation)
    ensures !Less(a, a)
  {
    CompareZero(a, a);
  }

  /** A sequence in strictly increasing comparator order: how a TreeSet
    * with that comparator holds its elements. */
  predicate Sorted(s: seq<Annotation>) {
    forall i, j :: 0 <= i < j < |s| ==> Less(s[i], s[j])
  }

  /** An annotation the comparator identifies with a is in s. */
  predicate Represented(s: seq<Annotation>, a: Annotation) {
    exists i :: 0 <= i < |s| && Compare(s[i], a) == 0
  }

  /** A sorted sequence is determined by its elements: whatever order
    * annotations were added in, the fact base holds them in one order. */
  lemma {:induction false} SortedUnique(s: seq<Annotation>, t: seq<Annotation>)
    requires Sorted(s) && Sorted(t)
    requires forall x :: x in s <==> x in t
    ensures s == t
    decreases |s|
  {
    assert |t| > 0 ==> t[0] in s;
    if |s| > 0 {
      assert s[0] in t;
      assert |t| > 0;
      assert t[0] in s;
      if s[0] != t[0] {
        var i :| 0 <= i < |t| && t[i] == s[0];
        var j :| 0 <= j < |s| && s[j] == t[0];
        assert Less(t[0], s[0]);
        assert Less(s[0], t[0]);
        CompareAntisymmetric(s[0], t[0]);
        assert false;
      }
      forall x
        ensures x in s[1..] <==> x in t[1..]
      {
        if x in s[1..] {
          var k :| 0 <= k < |s[1..]| && s[1..][k] == x;
          assert Less(s[0], x);
          LessIrreflexive(x);
          assert x in t;
        }
        if x in t[1..] {
          var k :| 0 <= k < |t[1..]| && t[1..][k] == x;
          assert Less(t[0], x);
          LessIrreflexive(x);
          assert x in s;
        }
      }
      SortedUnique(s[1..], t[1..]);
      assert s == [s[0]] + s[1..];
      assert t == [t[0]] + t[1..];
    }
  }

  /** Inserting a at a position between the smaller and the greater
    * elements keeps the sequence sorted. */
  lemma {:induction false} InsertKeepsSorted(s: seq<Annotation>, i: nat, a: Annotation)
    requires Sorted(s) && i <= |s|
    requires forall j :: 0 <= j < i ==> Less(s[j], a)
    requires i < |s| ==> Less(a, s[i])
    ensures Sorted(s[..i] + [a] + s[i..])
  {
    var t := s[..i] + [a] + s[i..];
    forall p, q | 0 <= p < q < |t|
      ensures Less(t[p], t[q])
    {
      if p < i && q > i {
        assert t[q] == s[q - 1];
        LessTransitive(s[p], a, s[i]);
        if q - 1 > i {
          LessTransitive(s[p], s[i], s[q - 1]);
        }
      } else if p == i {
        if q - 1 > i {
          LessTransitive(a, s[i], s[q - 1]);
        }
      }
    }
  }

  /** When every element before i is smaller than a and the element at i
    * is greater, nothing in s is identified with a. */
  lemma {:induction false} NotRepresentedBetween(s: seq<Annotation>, i: nat, a: Annotation)
    requires Sorted(s) && i <= |s|
    requires forall j :: 0 <= j < i ==> Less(s[j], a)
    requires i < |s| ==> Less(a, s[i])
    ensures !Represented(s, a)
  {
    forall j | 0 <= j < |s|
      ensures Compare(s[j], a) != 0
    {
      if j >= i {
        if j > i {
          LessTransitive(a, s[i], s[j]);
        }
        CompareAntisymmetric(a, s[j]);
      }
    }
  }
}
