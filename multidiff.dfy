// The diff viewer's highlighting and slicing engine: the rows of the diff
// table, each shown or hidden, holding nested spans whose classes carry
// their dependency roles and highlight marks, and the commands that mark
// spans and narrow the table to the rows around them.

module MultiDiff {
  import opened Wrappers
  import opened Text
  import opened SeqFacts

  /** The highlight marks. */
  const CRITERION: string := "criterion"
  const DEFINITION: string := "definition"
  const USE: string := "use"
  const DEPENDENCY: string := "dependency"

  /** A span of annotated code: its classes (a role such as ENV-DEF, and
    * the marks it carries), its data-address attribute, and the index of
    * the span it is nested in within the same row (None when its parent is
    * the table cell). A parent precedes its children. */
  datatype Span = Span(classes: set<string>, address: string, parent: Option<nat>)

  /** A table row: a line of code with its spans and whether it has an
    * inserted or a deleted cell, or a placeholder marking hidden rows. */
  datatype Row = Code(spans: seq<Span>, insert: bool, delete: bool) | Placeholder

  // ---------------------------------------------------------------------
  // erase

  /** The classes erase removes, each from the spans with the given role. */
  const ERASED: seq<(string, string)> := [
    ("ENV-DEF", CRITERION), ("DENV-DEF", DEFINITION), ("DENV-USE", USE), ("ENV-USE", DEPENDENCY),
    ("VAL-DEF", CRITERION), ("DVAL-DEF", DEFINITION), ("DVAL-USE", USE), ("VAL-USE", DEPENDENCY),
    ("CALL-DEF", CRITERION), ("CALL-USE", DEPENDENCY), ("CON-DEF", CRITERION), ("CON-USE", DEPENDENCY),
    ("CONDEP-DEF", CRITERION), ("CONDEP-USE", DEPENDENCY), ("DATDEP-XDEF", CRITERION), ("DATDEP-USE", DEPENDENCY)]

  /** One class list after the removals, made one after the other. */
  function Strip(cs: set<string>, pairs: seq<(string, string)>): set<string>
    decreases |pairs|
  {
    if |pairs| == 0 then cs
    else Strip(if pairs[0].0 in cs then cs - {pairs[0].1} else cs, pairs[1..])
  }

  /** No role that selects spans is itself a class that is removed. */
  predicate RolesAreNotMarks(pairs: seq<(string, string)>) {
    forall i, j :: 0 <= i < |pairs| && 0 <= j < |pairs| ==> pairs[i].0 != pairs[j].1
  }

  /** The removals do not interfere: a class is gone exactly when it is the
    * mark of a role the span has, and every other class stays. */
  lemma {:induction false} StripRemovesMarksOfRoles(cs: set<string>, pairs: seq<(string, string)>)
    requires RolesAreNotMarks(pairs)
    ensures forall x :: x in Strip(cs, pairs) <==>
      x in cs && forall i :: 0 <= i < |pairs| && pairs[i].0 in cs ==> pairs[i].1 != x
    decreases |pairs|
  {
    if |pairs| > 0 {
      var cs' := if pairs[0].0 in cs then cs - {pairs[0].1} else cs;
      var rest := pairs[1..];
      assert RolesAreNotMarks(rest) by {
        forall i, j | 0 <= i < |rest| && 0 <= j < |rest|
          ensures rest[i].0 != rest[j].1
        {
          assert rest[i] == pairs[i + 1] && rest[j] == pairs[j + 1];
        }
      }
      StripRemovesMarksOfRoles(cs', rest);
      forall i | 0 <= i < |rest|
        ensures rest[i].0 in cs' <==> rest[i].0 in cs
      {
        assert rest[i] == pairs[i + 1];
        assert pairs[i + 1].0 != pairs[0].1;
      }
      forall x
        ensures x in Strip(cs, pairs) <==>
          x in cs && forall i :: 0 <= i < |pairs| && pairs[i].0 in cs ==> pairs[i].1 != x
      {
        if x in Strip(cs, pairs) {
          forall i | 0 <= i < |pairs| && pairs[i].0 in cs
            ensures pairs[i].1 != x
          {
            if i > 0 {
              assert rest[i - 1] == pairs[i];
            }
          }
        } else if x in cs {
          if x in cs' {
            var i :| 0 <= i < |rest| && rest[i].0 in cs' && rest[i].1 == x;
            assert pairs[i + 1] == rest[i];
          }
        }
      }
    }
  }

  function EraseSpan(s: Span): Span {
    s.(classes := Strip(s.classes, ERASED))
  }

  function EraseRow(r: Row): Row {
    if r.Placeholder? then r
    else r.(spans := seq(|r.spans|, k requires 0 <= k < |r.spans| => EraseSpan(r.spans[k])))
  }

  /** The rows after erase: the highlight marks of each role removed. */
  function Erased(rows: seq<Row>): seq<Row> {
    seq(|rows|, k requires 0 <= k < |rows| => EraseRow(rows[k]))
  }

  /** The roles erase selects by are not among the marks it removes. */
  lemma ErasedRolesAreNotMarks()
    ensures RolesAreNotMarks(ERASED)
  {
    var marks := {CRITERION, DEFINITION, USE, DEPENDENCY};
    assert forall i :: 0 <= i < |ERASED| ==> ERASED[i].1 in marks;
    assert forall i :: 0 <= i < |ERASED| ==> ERASED[i].0 !in marks;
  }

  /** What erase does to one span: the marks of its roles are gone, its
    * other classes, its address and its nesting stay; erasing twice is
    * erasing once. */
  lemma EraseSpanFacts(s: Span)
    ensures forall i :: 0 <= i < |ERASED| && ERASED[i].0 in s.classes ==> ERASED[i].1 !in EraseSpan(s).classes
    ensures forall x :: x in s.classes && (forall i :: 0 <= i < |ERASED| && ERASED[i].0 in s.classes ==> ERASED[i].1 != x)
                        ==> x in EraseSpan(s).classes
    ensures EraseSpan(s).classes <= s.classes
    ensures EraseSpan(s).address == s.address && EraseSpan(s).parent == s.parent
    ensures EraseSpan(EraseSpan(s)) == EraseSpan(s)
  {
    ErasedRolesAreNotMarks();
    StripRemovesMarksOfRoles(s.classes, ERASED);
    var t := EraseSpan(s).classes;
    StripRemovesMarksOfRoles(t, ERASED);
    forall i | 0 <= i < |ERASED|
      ensures ERASED[i].0 in t <==> ERASED[i].0 in s.classes
    {
      assert forall j :: 0 <= j < |ERASED| ==> ERASED[i].0 != ERASED[j].1;
    }
    assert Strip(t, ERASED) == t;
  }

  /** Erase keeps the table's rows and their spans in place, changing only
    * classes, and is idempotent. */
  lemma EraseKeepsRows(rows: seq<Row>)
    ensures |Erased(rows)| == |rows|
    ensures forall k :: 0 <= k < |rows| ==> Erased(rows)[k].Code? == rows[k].Code?
    ensures forall k :: 0 <= k < |rows| && rows[k].Code? ==>
      Erased(rows)[k].insert == rows[k].insert && Erased(rows)[k].delete == rows[k].delete
      && |Erased(rows)[k].spans| == |rows[k].spans|
      && forall j :: 0 <= j < |rows[k].spans| ==> Erased(rows)[k].spans[j] == EraseSpan(rows[k].spans[j])
    ensures Erased(Erased(rows)) == Erased(rows)
  {
    forall k, j | 0 <= k < |rows| && rows[k].Code? && 0 <= j < |rows[k].spans|
      ensures EraseSpan(EraseSpan(rows[k].spans[j])) == EraseSpan(rows[k].spans[j])
    {
      EraseSpanFacts(rows[k].spans[j]);
    }
    assert forall k :: 0 <= k < |rows| ==> EraseRow(EraseRow(rows[k])) == EraseRow(rows[k]);
  }

  // ---------------------------------------------------------------------
  // unslice, hideRows, showContext

  /** The code rows, in order: the table without its placeholders. */
  function Lines(rows: seq<Row>): seq<Row>
    decreases |rows|
  {
    if |rows| == 0 then []
    else Lines(rows[..|rows| - 1]) + (if rows[|rows| - 1].Code? then [rows[|rows| - 1]] else [])
  }

  /** Removing the placeholders leaves only code rows, and no more rows
    * than there were. */
  lemma {:induction false} LinesAreCode(rows: seq<Row>)
    ensures NoPlaceholders(Lines(rows)) && |Lines(rows)| <= |rows|
    decreases |rows|
  {
    if |rows| > 0 {
      LinesAreCode(rows[..|rows| - 1]);
    }
  }

  predicate NoPlaceholders(rows: seq<Row>) {
    forall k :: 0 <= k < |rows| ==> rows[k].Code?
  }

  /** A table without placeholders is its own code rows, so removing the
    * placeholders twice is removing them once. */
  lemma {:induction false} LinesOfLines(rows: seq<Row>)
    requires NoPlaceholders(rows)
    ensures Lines(rows) == rows
    decreases |rows|
  {
    if |rows| > 0 {
      LinesOfLines(rows[..|rows| - 1]);
    }
  }

  /** A code row survives the removal of the placeholders in its place
    * among the code rows. */
  lemma {:induction false} LinesAppend(a: seq<Row>, b: seq<Row>)
    ensures Lines(a + b) == Lines(a) + Lines(b)
    decreases |b|
  {
    if |b| == 0 {
      assert a + b == a;
    } else {
      LinesAppend(a, b[..|b| - 1]);
      assert (a + b)[..|a + b| - 1] == a + b[..|b| - 1];
    }
  }

  /** Where row k lands once the placeholders are removed: after the code
    * rows before it. */
  function LineOf(rows: seq<Row>, k: nat): nat
    requires k <= |rows|
  {
    |Lines(rows[..k])|
  }

  /** unslice keeps every code row, at LineOf. */
  lemma LineOfCode(rows: seq<Row>, k: nat)
    requires k < |rows| && rows[k].Code?
    ensures LineOf(rows, k) < |Lines(rows)| && Lines(rows)[LineOf(rows, k)] == rows[k]
  {
    TakeDrop(rows, k);
    LinesAppend(rows[..k], rows[k..]);
    DropCons(rows, k);
    LinesAppend([rows[k]], rows[k + 1..]);
    LinesSnoc([rows[k]]);
    assert [rows[k]][..0] == [];
  }

  /** unslice leaves no placeholder, so unslicing twice is unslicing
    * once. */
  lemma UnsliceTwice(rows: seq<Row>)
    ensures NoPlaceholders(Lines(rows)) && Lines(Lines(rows)) == Lines(rows)
  {
    LinesAreCode(rows);
    LinesOfLines(Lines(rows));
  }

  /** Rows p - 2 to p + 2 shown as well: showContext's window. */
  function Shown(shown: seq<bool>, p: int): (r: seq<bool>)
    ensures |r| == |shown|
  {
    seq(|shown|, k requires 0 <= k < |shown| => shown[k] || (p - 2 <= k <= p + 2))
  }

  /** showContext applied around each of the rows ps, in order. */
  function ShownAll(shown: seq<bool>, ps: seq<int>): (r: seq<bool>)
    ensures |r| == |shown|
    decreases |ps|
  {
    if |ps| == 0 then shown else Shown(ShownAll(shown, ps[..|ps| - 1]), ps[|ps| - 1])
  }

  /** Row k lies within two rows of one of ps. */
  predicate Near(k: int, ps: seq<int>) {
    exists j :: 0 <= j < |ps| && ps[j] - 2 <= k <= ps[j] + 2
  }

  /** After showing the context of each of ps, a row is shown exactly when
    * it was, or it lies within two rows of one of them. */
  lemma {:induction false} ShownAllNear(shown: seq<bool>, ps: seq<int>)
    ensures forall k :: 0 <= k < |shown| ==> (ShownAll(shown, ps)[k] <==> shown[k] || Near(k, ps))
    decreases |ps|
  {
    if |ps| > 0 {
      var pre := ps[..|ps| - 1];
      ShownAllNear(shown, pre);
      forall k | 0 <= k < |shown|
        ensures ShownAll(shown, ps)[k] <==> shown[k] || Near(k, ps)
      {
        if Near(k, ps) {
          var j :| 0 <= j < |ps| && ps[j] - 2 <= k <= ps[j] + 2;
          if j < |ps| - 1 {
            assert pre[j] == ps[j];
          }
        }
        if Near(k, pre) {
          var j :| 0 <= j < |pre| && pre[j] - 2 <= k <= pre[j] + 2;
          assert ps[j] == pre[j];
        }
      }
    }
  }

  // ---------------------------------------------------------------------
  // Selecting rows

  /** What `$(selector).each(showContext)` picks out of a row: a span with
    * a class, an inserted cell, or a deleted cell. */
  datatype Selector = WithClass(c: string) | InsertCell | DeleteCell

  predicate Selects(r: Row, sel: Selector) {
    r.Code? &&
    match sel
    case WithClass(c) => exists k :: 0 <= k < |r.spans| && c in r.spans[k].classes
    case InsertCell => r.insert
    case DeleteCell => r.delete
  }

  /** The positions of the rows the selector picks, in order. */
  function RowsWith(rows: seq<Row>, sel: Selector): seq<int>
    decreases |rows|
  {
    if |rows| == 0 then []
    else
      var pre := RowsWith(rows[..|rows| - 1], sel);
      pre + (if Selects(rows[|rows| - 1], sel) then [|rows| - 1] else [])
  }

  /** The rows picked are exactly the rows the selector selects, each
    * once, in increasing order. */
  lemma {:induction false} RowsWithSelects(rows: seq<Row>, sel: Selector)
    ensures forall j :: 0 <= j < |RowsWith(rows, sel)| ==>
      0 <= RowsWith(rows, sel)[j] < |rows| && Selects(rows[RowsWith(rows, sel)[j]], sel)
    ensures forall p :: 0 <= p < |rows| && Selects(rows[p], sel) ==> p in RowsWith(rows, sel)
    ensures forall i, j :: 0 <= i < j < |RowsWith(rows, sel)| ==> RowsWith(rows, sel)[i] < RowsWith(rows, sel)[j]
    decreases |rows|
  {
    if |rows| > 0 {
      var n := |rows| - 1;
      RowsWithSelects(rows[..n], sel);
      var pre := RowsWith(rows[..n], sel);
      var ps := RowsWith(rows, sel);
      assert ps == pre + (if Selects(rows[n], sel) then [n] else []);
      forall j | 0 <= j < |pre|
        ensures ps[j] == pre[j] && pre[j] < n && Selects(rows[pre[j]], sel)
      {
        assert rows[..n][pre[j]] == rows[pre[j]];
      }
      forall p | 0 <= p < |rows| && Selects(rows[p], sel)
        ensures p in ps
      {
        if p < n {
          assert rows[..n][p] == rows[p];
          assert p in pre;
        } else {
          assert ps[|ps| - 1] == n;
        }
      }
    }
  }

  /** Looking at one more row picks it after the others, if it is
    * selected. */
  lemma RowsWithSnoc(rows: seq<Row>, sel: Selector, p: nat)
    requires p < |rows|
    ensures RowsWith(rows[..p + 1], sel) == RowsWith(rows[..p], sel) + (if Selects(rows[p], sel) then [p] else [])
  {
    assert rows[..p + 1][..p] == rows[..p];
  }

  /** Showing the context of one more row. */
  lemma ShownAllSnoc(shown: seq<bool>, ps: seq<int>, p: int)
    ensures ShownAll(shown, ps + [p]) == Shown(ShownAll(shown, ps), p)
  {
    assert (ps + [p])[..|ps|] == ps;
  }

  /** Adds a mark to every span with the given class: `$('.' + c).addClass(mark)`. */
  function MarkAll(rows: seq<Row>, c: string, mark: string): (r: seq<Row>)
    ensures |r| == |rows|
  {
    seq(|rows|, k requires 0 <= k < |rows| =>
      if rows[k].Placeholder? then rows[k]
      else rows[k].(spans := seq(|rows[k].spans|, j requires 0 <= j < |rows[k].spans| =>
        var s := rows[k].spans[j]; if c in s.classes then s.(classes := s.classes + {mark}) else s)))
  }

  /** Marking adds the mark to exactly the spans with the class, keeps
    * every other class, and leaves the rows and which of them a selector
    * picks (for selectors other than the mark itself, and for the class
    * itself) as they were. */
  lemma MarkAllFacts(rows: seq<Row>, c: string, mark: string)
    ensures NoPlaceholders(rows) ==> NoPlaceholders(MarkAll(rows, c, mark))
    ensures forall k :: 0 <= k < |rows| && rows[k].Code? ==>
      |MarkAll(rows, c, mark)[k].spans| == |rows[k].spans|
      && forall j :: 0 <= j < |rows[k].spans| ==>
        MarkAll(rows, c, mark)[k].spans[j].classes ==
          rows[k].spans[j].classes + (if c in rows[k].spans[j].classes then {mark} else {})
    ensures forall k, sel :: 0 <= k < |rows| && (sel != WithClass(mark) || sel == WithClass(c)) ==>
      (Selects(MarkAll(rows, c, mark)[k], sel) <==> Selects(rows[k], sel))
  {
    forall k, sel | 0 <= k < |rows| && (sel != WithClass(mark) || sel == WithClass(c))
      ensures Selects(MarkAll(rows, c, mark)[k], sel) <==> Selects(rows[k], sel)
    {
      if sel.WithClass? && rows[k].Code? {
        var m := MarkAll(rows, c, mark)[k];
        if Selects(m, sel) {
          var j :| 0 <= j < |m.spans| && sel.c in m.spans[j].classes;
          assert sel.c in rows[k].spans[j].classes;
        }
        if Selects(rows[k], sel) {
          var j :| 0 <= j < |rows[k].spans| && sel.c in rows[k].spans[j].classes;
          assert sel.c in m.spans[j].classes;
        }
      }
    }
  }

  // ---------------------------------------------------------------------
  // addPlaceholders

  /** Row j begins a run of hidden rows. */
  predicate RunStart(shown: seq<bool>, j: int)
    requires 0 <= j < |shown|
  {
    !shown[j] && (j == 0 || shown[j - 1])
  }

  /** The table after addPlaceholders: a shown placeholder inserted before
    * the first row of every run of hidden rows. */
  function Placed(rows: seq<Row>, shown: seq<bool>): (t: (seq<Row>, seq<bool>))
    requires |rows| == |shown|
    ensures |t.0| == |t.1| >= |rows|
    ensures |rows| > 0 ==> t.0[|t.0| - 1] == rows[|rows| - 1] && t.1[|t.1| - 1] == shown[|shown| - 1]
    decreases |rows|
  {
    if |rows| == 0 then ([], [])
    else
      var n := |rows| - 1;
      var pre := Placed(rows[..n], shown[..n]);
      var start := RunStart(shown, n);
      (pre.0 + (if start then [Placeholder] else []) + [rows[n]],
       pre.1 + (if start then [true] else []) + [shown[n]])
  }

  /** Placing the placeholders in one more row. */
  lemma PlacedSnoc(rows: seq<Row>, shown: seq<bool>, j: int)
    requires |rows| == |shown| && 0 <= j < |rows|
    ensures var pre := Placed(rows[..j], shown[..j]);
            var start := RunStart(shown, j);
            Placed(rows[..j + 1], shown[..j + 1])
              == (pre.0 + (if start then [Placeholder] else []) + [rows[j]],
                  pre.1 + (if start then [true] else []) + [shown[j]])
  {
    assert rows[..j + 1][..j] == rows[..j];
    assert shown[..j + 1][..j] == shown[..j];
  }

  /** Where every row is shown, no placeholder is added. */
  lemma {:induction false} PlacedAllShown(rows: seq<Row>, shown: seq<bool>)
    requires |rows| == |shown| && forall k :: 0 <= k < |shown| ==> shown[k]
    ensures Placed(rows, shown) == (rows, shown)
    decreases |rows|
  {
    if |rows| > 0 {
      var n := |rows| - 1;
      PlacedAllShown(rows[..n], shown[..n]);
      assert !RunStart(shown, n);
      var t := Placed(rows, shown);
      assert t.0 == rows[..n] + [] + [rows[n]];
      assert t.0 == rows;
      assert t.1 == shown[..n] + [] + [shown[n]];
      assert t.1 == shown;
    }
  }

  /** Placeholders between two stretches of the table leave no code row. */
  lemma LinesSkip(a: seq<Row>, ins: seq<Row>, b: seq<Row>)
    requires ins == [] || ins == [Placeholder]
    ensures Lines(a + ins + b) == Lines(a) + Lines(b)
  {
    LinesAppend(a + ins, b);
    LinesAppend(a, ins);
    if ins != [] {
      assert ins[..0] == [];
    } else {
      assert a + ins == a;
    }
  }

  /** The placed table ends with the placed prefix, a placeholder where
    * the last row starts a hidden run, and the last row. */
  lemma PlacedLast(rows: seq<Row>, shown: seq<bool>)
    requires |rows| == |shown| > 0
    ensures RunStart(shown, |rows| - 1) ==>
      Placed(rows, shown).0 == Placed(rows[..|rows| - 1], shown[..|rows| - 1]).0 + [Placeholder] + [rows[|rows| - 1]]
    ensures !RunStart(shown, |rows| - 1) ==>
      Placed(rows, shown).0 == Placed(rows[..|rows| - 1], shown[..|rows| - 1]).0 + [] + [rows[|rows| - 1]]
  {
  }

  /** The code rows of a table are those before its last row and then
    * the last row, if it is code. */
  lemma LinesSnoc(rows: seq<Row>)
    requires |rows| > 0
    ensures Lines(rows) == Lines(rows[..|rows| - 1]) + Lines([rows[|rows| - 1]])
  {
    assert [rows[|rows| - 1]][..0] == [];
  }

  /** The code rows of the placed table are those of the placed prefix and
    * then the last row, if it is code. */
  lemma PlacedLinesLast(rows: seq<Row>, shown: seq<bool>)
    requires |rows| == |shown| > 0
    ensures Lines(Placed(rows, shown).0)
      == Lines(Placed(rows[..|rows| - 1], shown[..|rows| - 1]).0) + Lines([rows[|rows| - 1]])
  {
    var n := |rows| - 1;
    PlacedLast(rows, shown);
    if RunStart(shown, n) {
      LinesSkip(Placed(rows[..n], shown[..n]).0, [Placeholder], [rows[n]]);
    } else {
      LinesSkip(Placed(rows[..n], shown[..n]).0, [], [rows[n]]);
    }
  }

  /** addPlaceholders never drops or reorders a code row. */
  lemma {:induction false} PlacedLines(rows: seq<Row>, shown: seq<bool>)
    requires |rows| == |shown|
    ensures Lines(Placed(rows, shown).0) == Lines(rows)
    decreases |rows|
  {
    if |rows| > 0 {
      var n := |rows| - 1;
      PlacedLines(rows[..n], shown[..n]);
      PlacedLinesLast(rows, shown);
      LinesSnoc(rows);
    }
  }

  /** Every placeholder is shown and sits directly before a hidden code row
    * whose predecessor is shown, or which comes first. */
  predicate PlaceholdersStartRuns(t: seq<Row>, v: seq<bool>)
    requires |t| == |v|
  {
    forall k :: 0 <= k < |t| && t[k].Placeholder? ==>
      v[k] && k + 1 < |t| && t[k + 1].Code? && !v[k + 1] && (k == 0 || v[k - 1])
  }

  /** Every hidden row directly follows a placeholder or another hidden
    * row. */
  predicate RunsFollowPlaceholders(t: seq<Row>, v: seq<bool>)
    requires |t| == |v|
  {
    forall k :: 0 <= k < |t| && !v[k] ==> k > 0 && (t[k - 1].Placeholder? || !v[k - 1])
  }

  /** On a table without placeholders, addPlaceholders puts a placeholder
    * right before each maximal run of hidden rows and nowhere else: each
    * placeholder starts a run, and each run starts right after one. */
  lemma {:induction false} PlacedRuns(rows: seq<Row>, shown: seq<bool>)
    requires |rows| == |shown| && NoPlaceholders(rows)
    ensures PlaceholdersStartRuns(Placed(rows, shown).0, Placed(rows, shown).1)
    ensures RunsFollowPlaceholders(Placed(rows, shown).0, Placed(rows, shown).1)
    decreases |rows|
  {
    if |rows| > 0 {
      var n := |rows| - 1;
      assert NoPlaceholders(rows[..n]) by {
        forall k | 0 <= k < n ensures rows[..n][k].Code? {
          assert rows[..n][k] == rows[k];
        }
      }
      PlacedRuns(rows[..n], shown[..n]);
      var pre := Placed(rows[..n], shown[..n]);
      assert n > 0 ==> pre.1[|pre.1| - 1] == shown[n - 1] by {
        if n > 0 {
          assert shown[..n][n - 1] == shown[n - 1];
        }
      }
      PlacedSnoc(rows, shown, n);
      TakeAll(rows);
      TakeAll(shown);
      RunsSnoc(pre.0, pre.1, RunStart(shown, n), rows[n], shown[n]);
    }
  }

  /** Appending one code row, after a placeholder exactly when it starts
    * a hidden run, keeps every placeholder at the start of a run and every
    * run after a placeholder. */
  lemma RunsSnoc(t: seq<Row>, v: seq<bool>, start: bool, r: Row, b: bool)
    requires |t| == |v| && PlaceholdersStartRuns(t, v) && RunsFollowPlaceholders(t, v) && r.Code?
    requires start <==> !b && (|v| == 0 || v[|v| - 1])
    ensures var t' := t + (if start then [Placeholder] else []) + [r];
            var v' := v + (if start then [true] else []) + [b];
            |t'| == |v'| && PlaceholdersStartRuns(t', v') && RunsFollowPlaceholders(t', v')
  {
    var t' := t + (if start then [Placeholder] else []) + [r];
    var v' := v + (if start then [true] else []) + [b];
    var m := |t|;
    assert forall k :: 0 <= k < m ==> t'[k] == t[k] && v'[k] == v[k];
    forall k | 0 <= k < |t'| && t'[k].Placeholder?
      ensures v'[k] && k + 1 < |t'| && t'[k + 1].Code? && !v'[k + 1] && (k == 0 || v'[k - 1])
    {
      if k < m {
        assert t[k].Placeholder?;
      } else {
        assert start && k == m;
      }
    }
    forall k | 0 <= k < |t'| && !v'[k]
      ensures k > 0 && (t'[k - 1].Placeholder? || !v'[k - 1])
    {
      if k < m {
        assert !v[k];
      }
    }
  }

  /** The table part-way through addPlaceholders: the first j rows placed,
    * a placeholder about to precede row j when pending, and the rest of
    * the table as it was. */
  ghost function Partial(r0: seq<Row>, s0: seq<bool>, j: nat, pending: bool): (seq<Row>, seq<bool>)
    requires |r0| == |s0| && j <= |r0|
  {
    var t := Placed(r0[..j], s0[..j]);
    (t.0 + (if pending then [Placeholder] else []) + r0[j..],
     t.1 + (if pending then [true] else []) + s0[j..])
  }

  /** Where row j of the original table sits in the partial table. */
  ghost function At(r0: seq<Row>, s0: seq<bool>, j: nat, pending: bool): nat
    requires |r0| == |s0| && j <= |r0|
  {
    |Placed(r0[..j], s0[..j]).0| + (if pending then 1 else 0)
  }

  /** The partial table is as long as the placed rows and the rest, and row
    * j of the original table is found at At. */
  lemma PartialShape(r0: seq<Row>, s0: seq<bool>, j: nat, pending: bool)
    requires |r0| == |s0| && j <= |r0|
    ensures var p := Partial(r0, s0, j, pending);
            var m := At(r0, s0, j, pending);
            |p.0| == |p.1| == m + |r0| - j
            && (j < |r0| ==> p.0[m] == r0[j] && p.1[m] == s0[j])
  {
  }

  /** Before the first hidden row, addPlaceholders has nothing to place. */
  lemma PartialStart(r0: seq<Row>, s0: seq<bool>, i: nat)
    requires |r0| == |s0| && i <= |r0|
    requires forall k :: 0 <= k < i ==> s0[k]
    ensures Partial(r0, s0, i, false) == (r0, s0) && At(r0, s0, i, false) == i
  {
    PlacedAllShown(r0[..i], s0[..i]);
    TakeDrop(r0, i);
    TakeDrop(s0, i);
    AppendNil(r0[..i]);
    AppendNil(s0[..i]);
  }

  /** Inserting the placeholder before row j makes it pending. */
  lemma PartialInsert(r0: seq<Row>, s0: seq<bool>, j: nat)
    requires |r0| == |s0| && j < |r0|
    ensures var p := Partial(r0, s0, j, false);
            var m := At(r0, s0, j, false);
            m <= |p.0| && |p.0| == |p.1|
            && Partial(r0, s0, j, true) == (p.0[..m] + [Placeholder] + p.0[m..], p.1[..m] + [true] + p.1[m..])
            && At(r0, s0, j, true) == m + 1
  {
    var t := Placed(r0[..j], s0[..j]);
    var m := |t.0|;
    var p := Partial(r0, s0, j, false);
    assert p.0[..m] == t.0 && p.0[m..] == r0[j..];
    assert p.1[..m] == t.1 && p.1[m..] == s0[j..];
  }

  /** Moving past row j: the pending placeholder (there is one exactly
    * where row j starts a hidden run) becomes part of the placed rows. */
  lemma PartialAdvance(r0: seq<Row>, s0: seq<bool>, j: nat, pending: bool)
    requires |r0| == |s0| && j < |r0|
    requires pending <==> RunStart(s0, j)
    ensures Partial(r0, s0, j + 1, false) == Partial(r0, s0, j, pending)
    ensures At(r0, s0, j + 1, false) == At(r0, s0, j, pending) + 1
  {
    PlacedSnoc(r0, s0, j);
    var t := Placed(r0[..j], s0[..j]);
    DropCons(r0, j);
    DropCons(s0, j);
    Assoc(t.0, if pending then [Placeholder] else [], r0[j], r0[j + 1..]);
    Assoc(t.1, if pending then [true] else [], s0[j], s0[j + 1..]);
  }

  /** One step of SkipHidden: the hidden row at i is row j' of the
    * original table, and moving past it places it. */
  lemma HiddenStep(r0: seq<Row>, s0: seq<bool>, j: nat, j': nat, pending: bool,
                   rows: seq<Row>, shown: seq<bool>, i: nat)
    requires |r0| == |s0| && j <= j' <= |r0|
    requires (rows, shown) == Partial(r0, s0, j', pending) && i == At(r0, s0, j', pending)
    requires pending ==> j' == j < |r0| && RunStart(s0, j')
    requires !pending ==> j' > j && !s0[j' - 1]
    requires i < |shown| && !shown[i]
    ensures j' < |r0| && !s0[j']
    ensures (rows, shown) == Partial(r0, s0, j' + 1, false) && i + 1 == At(r0, s0, j' + 1, false)
  {
    PartialShape(r0, s0, j', pending);
    PartialAdvance(r0, s0, j', pending);
  }

  /** SkipHidden stops on a shown row or past the end, after at least
    * one hidden row. */
  lemma HiddenExit(r0: seq<Row>, s0: seq<bool>, j: nat, j': nat, pending: bool,
                   rows: seq<Row>, shown: seq<bool>, i: nat)
    requires |r0| == |s0| && j <= j' <= |r0|
    requires (rows, shown) == Partial(r0, s0, j', pending) && i == At(r0, s0, j', pending)
    requires pending ==> j' == j < |r0| && RunStart(s0, j')
    requires !pending ==> j' > j && !s0[j' - 1]
    requires i >= |shown| || shown[i]
    ensures j < j' && !s0[j' - 1] && (j' < |r0| ==> s0[j'])
  {
    PartialShape(r0, s0, j', pending);
  }

  /** One step of SkipShown: the shown row at i is row j' of the original
    * table, and moving past it places it. */
  lemma ShownStep(r0: seq<Row>, s0: seq<bool>, j': nat, rows: seq<Row>, shown: seq<bool>, i: nat)
    requires |r0| == |s0| && j' <= |r0|
    requires (rows, shown) == Partial(r0, s0, j', false) && i == At(r0, s0, j', false)
    requires i < |shown| && shown[i]
    ensures j' < |r0| && s0[j']
    ensures (rows, shown) == Partial(r0, s0, j' + 1, false) && i + 1 == At(r0, s0, j' + 1, false)
  {
    PartialShape(r0, s0, j', false);
    PartialAdvance(r0, s0, j', false);
  }

  /** SkipShown stops on a hidden row or past the end. */
  lemma ShownExit(r0: seq<Row>, s0: seq<bool>, j': nat, rows: seq<Row>, shown: seq<bool>, i: nat)
    requires |r0| == |s0| && j' <= |r0|
    requires (rows, shown) == Partial(r0, s0, j', false) && i == At(r0, s0, j', false)
    requires i >= |shown| || !shown[i]
    ensures j' < |r0| ==> !s0[j']
  {
    PartialShape(r0, s0, j', false);
  }

  /** When the partial table's cursor has run past its end, every row is
    * placed. */
  lemma PartialEnd(r0: seq<Row>, s0: seq<bool>, j: nat, rows: seq<Row>, shown: seq<bool>, i: nat)
    requires |r0| == |s0| && j <= |r0|
    requires (rows, shown) == Partial(r0, s0, j, false) && i == At(r0, s0, j, false) && i >= |rows|
    ensures (rows, shown) == Placed(r0, s0)
  {
    PartialShape(r0, s0, j, false);
    assert j == |r0|;
    PartialDone(r0, s0);
  }

  /** At the end of the table, everything is placed. */
  lemma PartialDone(r0: seq<Row>, s0: seq<bool>)
    requires |r0| == |s0|
    ensures Partial(r0, s0, |r0|, false) == Placed(r0, s0)
  {
    TakeAll(r0);
    TakeAll(s0);
    var t := Placed(r0, s0);
    AppendNil(t.0);
    AppendNil(t.1);
    AppendNil(t.0 + []);
    AppendNil(t.1 + []);
  }

  // ---------------------------------------------------------------------
  // Spans and their nesting

  /** A span in the table: its row and its place among the row's spans. */
  datatype SpanRef = SpanRef(row: nat, index: nat)

  predicate ValidRef(rows: seq<Row>, r: SpanRef) {
    r.row < |rows| && rows[r.row].Code? && r.index < |rows[r.row].spans|
  }

  function SpanAt(rows: seq<Row>, r: SpanRef): Span
    requires ValidRef(rows, r)
  {
    rows[r.row].spans[r.index]
  }

  /** `current.parent()` while it is a span: the enclosing span, when the
    * span has one in its row. */
  function Up(spans: seq<Span>, k: nat): (p: Option<nat>)
    requires k < |spans|
    ensures p.Some? ==> p.value < k
  {
    if spans[k].parent.Some? && spans[k].parent.value < k then spans[k].parent else None
  }

  /** The span k and the spans enclosing it, innermost first. */
  function Chain(spans: seq<Span>, k: nat): (c: seq<nat>)
    requires k < |spans|
    ensures |c| >= 1 && c[0] == k
    ensures forall i :: 0 <= i < |c| ==> c[i] < |spans|
    decreases k
  {
    match Up(spans, k)
    case None => [k]
    case Some(p) => [k] + Chain(spans, p)
  }

  predicate HasRole(s: Span, def: string, use: string) {
    def in s.classes || use in s.classes
  }

  /** `closest("span." + def + ", span." + use)`: the innermost span, from
    * k outwards, with one of the two roles. */
  function Nearest(spans: seq<Span>, k: nat, def: string, use: string): (n: Option<nat>)
    requires k < |spans|
    ensures n.Some? ==> n.value <= k && HasRole(spans[n.value], def, use)
    decreases k
  {
    if HasRole(spans[k], def, use) then Some(k)
    else
      match Up(spans, k)
      case None => None
      case Some(p) => Nearest(spans, p, def, use)
  }

  /** The nearest span with a role is the first span of the chain that has
    * one, and there is none exactly when no span of the chain has one. */
  lemma {:induction false} NearestIsFirstInChain(spans: seq<Span>, k: nat, def: string, use: string)
    requires k < |spans|
    ensures Nearest(spans, k, def, use).None? ==>
      forall i :: 0 <= i < |Chain(spans, k)| ==> !HasRole(spans[Chain(spans, k)[i]], def, use)
    ensures Nearest(spans, k, def, use).Some? ==>
      exists i :: 0 <= i < |Chain(spans, k)| && Chain(spans, k)[i] == Nearest(spans, k, def, use).value
        && forall i' :: 0 <= i' < i ==> !HasRole(spans[Chain(spans, k)[i']], def, use)
    decreases k
  {
    var c := Chain(spans, k);
    if HasRole(spans[k], def, use) {
      assert c[0] == k;
    } else if Up(spans, k).Some? {
      var p := Up(spans, k).value;
      NearestIsFirstInChain(spans, p, def, use);
      var c' := Chain(spans, p);
      assert c == [k] + c';
      if Nearest(spans, p, def, use).None? {
        forall i | 0 <= i < |c|
          ensures !HasRole(spans[c[i]], def, use)
        {
          if i > 0 {
            assert c[i] == c'[i - 1];
          }
        }
      } else {
        var n := Nearest(spans, p, def, use).value;
        var i :| 0 <= i < |c'| && c'[i] == n
                 && forall i' :: 0 <= i' < i ==> !HasRole(spans[c'[i']], def, use);
        assert c[i + 1] == n;
        forall i' | 0 <= i' < i + 1
          ensures !HasRole(spans[c[i']], def, use)
        {
          if i' > 0 {
            assert c[i'] == c'[i' - 1];
          }
        }
      }
    }
  }

  /** What getSpanElement finds from a click: the nearest span with a role
    * around the clicked span; nothing when the click was not on a span. */
  function ElementAt(rows: seq<Row>, t: Option<SpanRef>, def: string, use: string): (e: Option<SpanRef>)
    requires t.Some? ==> ValidRef(rows, t.value)
    ensures e.Some? ==> t.Some? && ValidRef(rows, e.value) && e.value.row == t.value.row
                        && HasRole(SpanAt(rows, e.value), def, use)
  {
    match t
    case None => None
    case Some(r) =>
      match Nearest(rows[r.row].spans, r.index, def, use)
      case None => None
      case Some(n) => Some(SpanRef(r.row, n))
  }

  /** What getIDs reads from a click: the split data-address of that same
    * span. */
  function IdsAt(rows: seq<Row>, t: Option<SpanRef>, def: string, use: string): Option<seq<string>>
    requires t.Some? ==> ValidRef(rows, t.value)
  {
    match t
    case None => None
    case Some(r) =>
      match Nearest(rows[r.row].spans, r.index, def, use)
      case None => None
      case Some(n) => Some(Split(rows[r.row].spans[n].address))
  }

  /** getIDs and getSpanElement agree: ids are found exactly when an
    * element is, and they are that element's address, split at commas. */
  lemma IdsAreElementAddress(rows: seq<Row>, t: Option<SpanRef>, def: string, use: string)
    requires t.Some? ==> ValidRef(rows, t.value)
    ensures IdsAt(rows, t, def, use).Some? <==> ElementAt(rows, t, def, use).Some?
    ensures ElementAt(rows, t, def, use).Some? ==>
      IdsAt(rows, t, def, use).value == Split(SpanAt(rows, ElementAt(rows, t, def, use).value).address)
  {
  }

  // ---------------------------------------------------------------------
  // checkIDs

  /** checkIDs' verdict: no list, at most one element, or every element's
    * address has the same pieces as the first one's, in the same order. */
  predicate SameIds(elements: Option<seq<string>>) {
    elements.None? || |elements.value| <= 1
    || forall i :: 1 <= i < |elements.value| ==> Split(elements.value[i]) == Split(elements.value[0])
  }

  /** checkIDs, over the elements' data-address attributes. */
  method CheckIDs(elements: Option<seq<string>>) returns (same: bool)
    ensures same <==> SameIds(elements)
  {
    if elements.None? || |elements.value| <= 1 {
      return true;
    }
    var e := elements.value;
    var l := Split(e[0]);
    for i := 1 to |e|
      invariant forall i' :: 1 <= i' < i ==> Split(e[i']) == l
    {
      var r := Split(e[i]);
      if |l| != |r| {
        return false;
      }
      for j := 0 to |r|
        invariant r[..j] == l[..j]
      {
        if l[j] != r[j] {
          return false;
        }
        assert r[..j + 1] == r[..j] + [r[j]];
        assert l[..j + 1] == l[..j] + [l[j]];
      }
      assert r == r[..|r|] && l == l[..|l|];
    }
    return true;
  }

  /** The comparison is by position: two addresses with the same ids in
    * another order are not the same. */
  lemma CheckIDsIsPositional()
    ensures !SameIds(Some(["1,2", "2,1"]))
  {
    assert "1,2"[1] == ',' && "1,2"[..1] == "1";
    assert IndexOf("1,2", ',') == 1;
    assert Split("1,2")[0] == "1";
    assert "2,1"[1] == ',' && "2,1"[..1] == "2";
    assert IndexOf("2,1", ',') == 1;
    assert Split("2,1")[0] == "2";
    var e := ["1,2", "2,1"];
    assert Split(e[1]) != Split(e[0]);
  }

  // ---------------------------------------------------------------------
  // Matching addresses

  /** The spans of one row with class c, in order. */
  function InRow(spans: seq<Span>, k: nat, c: string): seq<SpanRef>
    decreases |spans|
  {
    if |spans| == 0 then []
    else
      var m := |spans| - 1;
      InRow(spans[..m], k, c) + (if c in spans[m].classes then [SpanRef(k, m)] else [])
  }

  lemma {:induction false} InRowFacts(spans: seq<Span>, k: nat, c: string)
    ensures forall x :: x in InRow(spans, k, c) <==> x.row == k && x.index < |spans| && c in spans[x.index].classes
    ensures forall i, j :: 0 <= i < j < |InRow(spans, k, c)| ==> InRow(spans, k, c)[i].index < InRow(spans, k, c)[j].index
    decreases |spans|
  {
    if |spans| > 0 {
      var m := |spans| - 1;
      InRowFacts(spans[..m], k, c);
      assert forall j :: 0 <= j < m ==> spans[..m][j] == spans[j];
    }
  }

  /** `$("span." + c)`: the spans with class c, in document order. */
  function Select(rows: seq<Row>, c: string): seq<SpanRef>
    decreases |rows|
  {
    if |rows| == 0 then []
    else
      var n := |rows| - 1;
      Select(rows[..n], c) + (if rows[n].Code? then InRow(rows[n].spans, n, c) else [])
  }

  /** x comes before y in the document. */
  predicate Before(x: SpanRef, y: SpanRef) {
    x.row < y.row || (x.row == y.row && x.index < y.index)
  }

  /** The selection holds exactly the spans with the class, in document
    * order, each once. */
  lemma {:induction false} SelectFacts(rows: seq<Row>, c: string)
    ensures forall x :: x in Select(rows, c) <==> ValidRef(rows, x) && c in SpanAt(rows, x).classes
    ensures forall i, j :: 0 <= i < j < |Select(rows, c)| ==> Before(Select(rows, c)[i], Select(rows, c)[j])
    decreases |rows|
  {
    if |rows| > 0 {
      var n := |rows| - 1;
      SelectFacts(rows[..n], c);
      var pre := Select(rows[..n], c);
      var last: seq<SpanRef> := if rows[n].Code? then InRow(rows[n].spans, n, c) else [];
      if rows[n].Code? {
        InRowFacts(rows[n].spans, n, c);
      }
      assert Select(rows, c) == pre + last;
      assert forall x :: ValidRef(rows[..n], x) ==> ValidRef(rows, x) && SpanAt(rows[..n], x) == SpanAt(rows, x);
      forall x | ValidRef(rows, x) && x.row < n
        ensures ValidRef(rows[..n], x) && SpanAt(rows[..n], x) == SpanAt(rows, x)
      {
        assert rows[..n][x.row] == rows[x.row];
      }
      forall i | 0 <= i < |pre|
        ensures pre[i].row < n
      {
        assert pre[i] in pre;
      }
      assert forall i :: 0 <= i < |last| ==> last[i] in last;
    }
  }

  /** How many of the ids are among the pieces of an address: how often the
    * loop over the ids finds one. */
  function Count(ids: seq<string>, parts: seq<string>): (n: nat)
    ensures n <= |ids|
    decreases |ids|
  {
    if |ids| == 0 then 0
    else Count(ids[..|ids| - 1], parts) + (if ids[|ids| - 1] in parts then 1 else 0)
  }

  /** An address is found at least once exactly when it shares an id. */
  lemma {:induction false} CountPositive(ids: seq<string>, parts: seq<string>)
    ensures Count(ids, parts) > 0 <==> exists i :: 0 <= i < |ids| && ids[i] in parts
    decreases |ids|
  {
    if |ids| > 0 {
      var m := |ids| - 1;
      CountPositive(ids[..m], parts);
      if exists i :: 0 <= i < |ids| && ids[i] in parts {
        var i :| 0 <= i < |ids| && ids[i] in parts;
        if i < m {
          assert ids[..m][i] == ids[i];
        }
      }
    }
  }

  lemma CountSnoc(ids: seq<string>, parts: seq<string>, i: nat)
    requires i < |ids|
    ensures Count(ids[..i + 1], parts) == Count(ids[..i], parts) + (if ids[i] in parts then 1 else 0)
  {
    assert ids[..i + 1][..i] == ids[..i];
  }

  function Copies(x: SpanRef, n: nat): (r: seq<SpanRef>)
    ensures |r| == n && forall i :: 0 <= i < n ==> r[i] == x
    decreases n
  {
    if n == 0 then [] else Copies(x, n - 1) + [x]
  }

  /** The address pieces of the span at x. */
  function Parts(rows: seq<Row>, x: SpanRef): seq<string>
    requires ValidRef(rows, x)
  {
    Split(SpanAt(rows, x).address)
  }

  /** The elements gotoDef collects: each selected span once for every id
    * its address holds, in document order. */
  function Hits(rows: seq<Row>, sel: seq<SpanRef>, ids: seq<string>): seq<SpanRef>
    requires forall i :: 0 <= i < |sel| ==> ValidRef(rows, sel[i])
    decreases |sel|
  {
    if |sel| == 0 then []
    else
      var n := |sel| - 1;
      Hits(rows, sel[..n], ids) + Copies(sel[n], Count(ids, Parts(rows, sel[n])))
  }

  lemma HitsSnoc(rows: seq<Row>, sel: seq<SpanRef>, ids: seq<string>, x: nat)
    requires forall i :: 0 <= i < |sel| ==> ValidRef(rows, sel[i])
    requires x < |sel|
    ensures Hits(rows, sel[..x + 1], ids) == Hits(rows, sel[..x], ids) + Copies(sel[x], Count(ids, Parts(rows, sel[x])))
  {
    assert sel[..x + 1][..x] == sel[..x];
  }

  /** How often x should be collected from the selection sel. */
  function Expected(rows: seq<Row>, sel: seq<SpanRef>, ids: seq<string>, x: SpanRef): nat {
    if x in sel && ValidRef(rows, x) then Count(ids, Parts(rows, x)) else 0
  }

  /** A span is collected as often as its address holds one of the ids (so
    * more than once when it holds several), and nothing else is collected. */
  lemma {:induction false} HitsCount(rows: seq<Row>, sel: seq<SpanRef>, ids: seq<string>)
    requires forall i :: 0 <= i < |sel| ==> ValidRef(rows, sel[i])
    requires forall i, j :: 0 <= i < j < |sel| ==> sel[i] != sel[j]
    ensures forall x :: multiset(Hits(rows, sel, ids))[x] == Expected(rows, sel, ids, x)
    decreases |sel|
  {
    if |sel| > 0 {
      HitsCount(rows, sel[..|sel| - 1], ids);
      HitsCountStep(rows, sel, sel[..|sel| - 1], ids);
    }
  }

  lemma HitsCountStep(rows: seq<Row>, sel: seq<SpanRef>, pre: seq<SpanRef>, ids: seq<string>)
    requires |sel| > 0 && forall i :: 0 <= i < |sel| ==> ValidRef(rows, sel[i])
    requires pre == sel[..|sel| - 1] && sel[|sel| - 1] !in pre
    requires forall x :: multiset(Hits(rows, pre, ids))[x] == Expected(rows, pre, ids, x)
    ensures forall x :: multiset(Hits(rows, sel, ids))[x] == Expected(rows, sel, ids, x)
  {
    var n := |sel| - 1;
    var c := Copies(sel[n], Count(ids, Parts(rows, sel[n])));
    CopiesMultiset(sel[n], Count(ids, Parts(rows, sel[n])));
    var m := multiset(Hits(rows, sel, ids));
    var mp := multiset(Hits(rows, pre, ids));
    assert m == mp + multiset(c);
    forall x
      ensures m[x] == Expected(rows, sel, ids, x)
    {
      InSnoc(sel, x);
      assert m[x] == mp[x] + multiset(c)[x];
      assert mp[x] == Expected(rows, pre, ids, x);
    }
  }

  lemma {:induction false} CopiesMultiset(x: SpanRef, n: nat)
    ensures multiset(Copies(x, n))[x] == n
    ensures forall y :: y != x ==> multiset(Copies(x, n))[y] == 0
    decreases n
  {
    if n > 0 {
      CopiesMultiset(x, n - 1);
      assert multiset(Copies(x, n)) == multiset(Copies(x, n - 1)) + multiset{x};
    }
  }

  /** The first element collected is the first span in the selection that
    * shares an id; none is collected when no span does. */
  lemma {:induction false} HitsFirst(rows: seq<Row>, sel: seq<SpanRef>, ids: seq<string>)
    requires forall i :: 0 <= i < |sel| ==> ValidRef(rows, sel[i])
    ensures FirstHit(rows, sel, ids)
    decreases |sel|
  {
    if |sel| > 0 {
      var n := |sel| - 1;
      HitsFirst(rows, sel[..n], ids);
      HitsFirstStep(rows, sel, ids, sel[..n]);
    }
  }

  /** No span is hit exactly when none holds an id, and the first hit is
    * the first span that holds one. */
  ghost predicate FirstHit(rows: seq<Row>, sel: seq<SpanRef>, ids: seq<string>)
    requires forall i :: 0 <= i < |sel| ==> ValidRef(rows, sel[i])
  {
    (|Hits(rows, sel, ids)| == 0 <==> forall i :: 0 <= i < |sel| ==> Count(ids, Parts(rows, sel[i])) == 0)
    && (|Hits(rows, sel, ids)| > 0 ==>
          exists i :: 0 <= i < |sel| && Hits(rows, sel, ids)[0] == sel[i] && Count(ids, Parts(rows, sel[i])) > 0
            && forall i' :: 0 <= i' < i ==> Count(ids, Parts(rows, sel[i'])) == 0)
  }

  lemma HitsFirstStep(rows: seq<Row>, sel: seq<SpanRef>, ids: seq<string>, pre: seq<SpanRef>)
    requires forall i :: 0 <= i < |sel| ==> ValidRef(rows, sel[i])
    requires |sel| > 0 && pre == sel[..|sel| - 1]
    requires FirstHit(rows, pre, ids)
    ensures FirstHit(rows, sel, ids)
  {
    var n := |sel| - 1;
    assert forall i :: 0 <= i < n ==> pre[i] == sel[i];
    var h := Hits(rows, sel, ids);
    var hp := Hits(rows, pre, ids);
    var c := Count(ids, Parts(rows, sel[n]));
    assert h == hp + Copies(sel[n], c);
    if |hp| > 0 {
      var i :| 0 <= i < n && hp[0] == pre[i] && Count(ids, Parts(rows, pre[i])) > 0
        && forall i' :: 0 <= i' < i ==> Count(ids, Parts(rows, pre[i'])) == 0;
      assert h[0] == sel[i];
    } else if c > 0 {
      assert h[0] == sel[n];
    }
  }

  /** A span matched by removeClass(remove) and addClass(add). */
  function Retag(s: Span, remove: set<string>, add: string): Span {
    s.(classes := s.classes - remove + {add})
  }

  /** The table with the spans at refs retagged. */
  function Retagged(rows: seq<Row>, refs: set<SpanRef>, remove: set<string>, add: string): (r: seq<Row>)
    ensures |r| == |rows|
  {
    seq(|rows|, k requires 0 <= k < |rows| =>
      if rows[k].Placeholder? then rows[k]
      else rows[k].(spans := seq(|rows[k].spans|, j requires 0 <= j < |rows[k].spans| =>
        if SpanRef(k, j) in refs then Retag(rows[k].spans[j], remove, add) else rows[k].spans[j])))
  }

  /** Retagging changes the classes of the spans at refs and nothing else. */
  lemma RetaggedFacts(rows: seq<Row>, refs: set<SpanRef>, remove: set<string>, add: string)
    ensures forall x :: ValidRef(Retagged(rows, refs, remove, add), x) <==> ValidRef(rows, x)
    ensures forall x :: ValidRef(rows, x) ==>
      SpanAt(Retagged(rows, refs, remove, add), x)
        == if x in refs then Retag(SpanAt(rows, x), remove, add) else SpanAt(rows, x)
    ensures forall k :: 0 <= k < |rows| && rows[k].Code? ==>
      Retagged(rows, refs, remove, add)[k].insert == rows[k].insert
      && Retagged(rows, refs, remove, add)[k].delete == rows[k].delete
    ensures NoPlaceholders(rows) ==> NoPlaceholders(Retagged(rows, refs, remove, add))
  {
  }

  /** One span retagged in place: `$(this).removeClass(..).addClass(..)`. */
  function RetagOne(rows: seq<Row>, x: SpanRef, remove: set<string>, add: string): seq<Row>
    requires ValidRef(rows, x)
  {
    rows[x.row := rows[x.row].(spans := rows[x.row].spans[x.index := Retag(rows[x.row].spans[x.index], remove, add)])]
  }

  /** Retagging a span again changes nothing, so retagging one more span
    * of the partly retagged table is retagging one more ref. */
  lemma RetagStep(rows: seq<Row>, refs: set<SpanRef>, x: SpanRef, remove: set<string>, add: string)
    requires ValidRef(rows, x) && add !in remove
    ensures ValidRef(Retagged(rows, refs, remove, add), x)
    ensures RetagOne(Retagged(rows, refs, remove, add), x, remove, add) == Retagged(rows, refs + {x}, remove, add)
  {
    var a := RetagOne(Retagged(rows, refs, remove, add), x, remove, add);
    var b := Retagged(rows, refs + {x}, remove, add);
    forall k | 0 <= k < |rows|
      ensures a[k] == b[k]
    {
      if k == x.row {
        forall j | 0 <= j < |a[k].spans|
          ensures a[k].spans[j] == b[k].spans[j]
        {
        }
        assert a[k].spans == b[k].spans;
      }
    }
  }

  /** The spans of the selection that share an id. */
  function Matched(rows: seq<Row>, sel: seq<SpanRef>, ids: seq<string>): set<SpanRef> {
    set x | x in sel && ValidRef(rows, x) && Count(ids, Parts(rows, x)) > 0
  }

  lemma MatchedSnoc(rows: seq<Row>, sel: seq<SpanRef>, ids: seq<string>, x: nat)
    requires x < |sel| && ValidRef(rows, sel[x])
    ensures Matched(rows, sel[..x + 1], ids)
      == Matched(rows, sel[..x], ids) + (if Count(ids, Parts(rows, sel[x])) > 0 then {sel[x]} else {})
  {
    assert sel[..x + 1] == sel[..x] + [sel[x]];
  }

  lemma RetaggedNone(rows: seq<Row>, remove: set<string>, add: string)
    ensures Retagged(rows, {}, remove, add) == rows
  {
    var r := Retagged(rows, {}, remove, add);
    forall k | 0 <= k < |rows|
      ensures r[k] == rows[k]
    {
      if rows[k].Code? {
        assert r[k].spans == rows[k].spans;
      }
    }
  }

  lemma CopiesSnoc(x: SpanRef, n: nat)
    ensures Copies(x, n + 1) == Copies(x, n) + [x]
  {
  }

  /** The rows of the spans ps, in order. */
  function RowsOf(ps: seq<SpanRef>): (r: seq<int>)
    ensures |r| == |ps| && forall i :: 0 <= i < |ps| ==> r[i] == ps[i].row
  {
    seq(|ps|, i requires 0 <= i < |ps| => ps[i].row)
  }

  lemma RowsOfSnoc(ps: seq<SpanRef>, i: nat)
    requires i < |ps|
    ensures RowsOf(ps[..i + 1]) == RowsOf(ps[..i]) + [ps[i].row]
  {
  }

  /** The data-address attributes of the spans ps. */
  function Addresses(rows: seq<Row>, ps: seq<SpanRef>): (r: seq<string>)
    requires forall i :: 0 <= i < |ps| ==> ValidRef(rows, ps[i])
    ensures |r| == |ps| && forall i :: 0 <= i < |ps| ==> r[i] == SpanAt(rows, ps[i]).address
  {
    seq(|ps|, i requires 0 <= i < |ps| => SpanAt(rows, ps[i]).address)
  }

  // ---------------------------------------------------------------------
  // The commands, as functions of the table

  /** How a command ends, apart from the table it leaves: normally, by
    * scrolling to a span, or with the table sliced. */
  datatype Outcome = Done | ScrollTo(target: SpanRef) | Sliced

  function AllShown(n: nat): (v: seq<bool>)
    ensures |v| == n && forall k :: 0 <= k < n ==> v[k]
  {
    seq(n, _ => true)
  }

  function AllHidden(n: nat): (v: seq<bool>)
    ensures |v| == n && forall k :: 0 <= k < n ==> !v[k]
  {
    seq(n, _ => false)
  }

  /** erase and then unslice: no role marks and no placeholders. */
  function Cleared(rows: seq<Row>): seq<Row> {
    Lines(Erased(rows))
  }

  /** The clicked span once unslice has removed the placeholders: the same
    * span, in its row's new place. */
  function Moved(rows: seq<Row>, t: Option<SpanRef>): (m: Option<SpanRef>)
    requires t.Some? ==> ValidRef(rows, t.value)
    ensures m.Some? <==> t.Some?
    ensures m.Some? ==> ValidRef(Lines(rows), m.value) && SpanAt(Lines(rows), m.value) == SpanAt(rows, t.value)
  {
    match t
    case None => None
    case Some(r) =>
      LineOfCode(rows, r.row);
      Some(SpanRef(LineOf(rows, r.row), r.index))
  }

  /** Erasing keeps every span where it is. */
  lemma ErasedRef(rows: seq<Row>, x: SpanRef)
    requires ValidRef(rows, x)
    ensures ValidRef(Erased(rows), x) && SpanAt(Erased(rows), x) == EraseSpan(SpanAt(rows, x))
  {
  }

  /** The spans with a class are spans of the table. */
  lemma SelectValid(rows: seq<Row>, c: string)
    ensures forall i :: 0 <= i < |Select(rows, c)| ==> ValidRef(rows, Select(rows, c)[i])
  {
    SelectFacts(rows, c);
    forall i | 0 <= i < |Select(rows, c)|
      ensures ValidRef(rows, Select(rows, c)[i])
    {
      assert Select(rows, c)[i] in Select(rows, c);
    }
  }

  /** Everything collected is a span of the selection. */
  lemma {:induction false} HitsFromSelection(rows: seq<Row>, sel: seq<SpanRef>, ids: seq<string>)
    requires forall i :: 0 <= i < |sel| ==> ValidRef(rows, sel[i])
    ensures forall i :: 0 <= i < |Hits(rows, sel, ids)| ==> Hits(rows, sel, ids)[i] in sel
    decreases |sel|
  {
    if |sel| > 0 {
      var n := |sel| - 1;
      HitsFromSelection(rows, sel[..n], ids);
      var h := Hits(rows, sel, ids);
      var pre := Hits(rows, sel[..n], ids);
      assert h == pre + Copies(sel[n], Count(ids, Parts(rows, sel[n])));
      forall i | 0 <= i < |h|
        ensures h[i] in sel
      {
        if i < |pre| {
          assert pre[i] in sel[..n];
          InSnoc(sel, h[i]);
        }
      }
    }
  }

  /** What gotoDef and defUse find for ids: the spans of the table with
    * the role whose address shares an id, in document order, each once per
    * shared id. */
  function Found(m: seq<Row>, role: string, ids: seq<string>): (h: seq<SpanRef>)
    ensures forall i :: 0 <= i < |h| ==> ValidRef(m, h[i])
  {
    SelectValid(m, role);
    HitsFromSelection(m, Select(m, role), ids);
    Hits(m, Select(m, role), ids)
  }

  /** The table after the matching spans of role lose `remove` and gain
    * `add`. */
  function Tagged(m: seq<Row>, role: string, ids: seq<string>, remove: set<string>, add: string): (r: seq<Row>)
    ensures |r| == |m|
  {
    Retagged(m, Matched(m, Select(m, role), ids), remove, add)
  }

  /** Where gotoDef leaves things: its outcome, the rows and which are
    * shown. */
  datatype GotoState = GotoState(outcome: Result<Outcome>, rows: seq<Row>, shown: seq<bool>)

  /** The span gotoDef starts from: the clicked span, found again in the
    * erased and unsliced table, or the nearest span around it with one of
    * the two roles. */
  function Clicked(r0: seq<Row>, t: Option<SpanRef>, def: string, use: string): (e: Option<SpanRef>)
    requires t.Some? ==> ValidRef(r0, t.value)
    ensures e.Some? ==> ValidRef(Cleared(r0), e.value) && HasRole(SpanAt(Cleared(r0), e.value), def, use)
  {
    if t.Some? then
      ErasedRef(r0, t.value);
      ElementAt(Cleared(r0), Moved(Erased(r0), t), def, use)
    else None
  }

  /** Which rows the slice of gotoDef shows: with every row of an n-row
    * table hidden, the context of the clicked row and then of each span
    * collected. */
  function Context(n: nat, row: nat, hits: seq<SpanRef>): (s: seq<bool>)
    ensures |s| == n
  {
    ShownAll(Shown(AllHidden(n), row), RowsOf(hits))
  }

  /** The slice shows exactly the rows within two rows of the clicked row or
    * of a collected span. */
  lemma ContextShown(n: nat, row: nat, hits: seq<SpanRef>)
    ensures forall k :: 0 <= k < n ==> (Context(n, row, hits)[k] <==> (row - 2 <= k <= row + 2 || Near(k, RowsOf(hits))))
  {
    ShownAllNear(Shown(AllHidden(n), row), RowsOf(hits));
  }

  /** The end of gotoDef, once the definitions are marked and collected in
    * hits: scroll to the first when checkIDs passes (which fails when
    * there is none), and otherwise show only the rows around them and
    * around the clicked span's row. */
  function Concluded(m: seq<Row>, hits: seq<SpanRef>, row: nat): GotoState
    requires forall i :: 0 <= i < |hits| ==> ValidRef(m, hits[i])
  {
    if SameIds(Some(Addresses(m, hits))) then
      if |hits| == 0 then GotoState(Err(Thrown("TypeError")), m, AllShown(|m|))
      else GotoState(Ok(ScrollTo(hits[0])), m, AllShown(|m|))
    else
      var p := Placed(m, Context(|m|, row, hits));
      GotoState(Ok(Sliced), p.0, p.1)
  }

  /** gotoDef from the span e of the cleared table c: e marked as a use,
    * then every definition sharing one of e's ids marked as a definition
    * instead. */
  function GotoDefFrom(c: seq<Row>, e: SpanRef, def: string): GotoState
    requires ValidRef(c, e)
  {
    var ids := Split(SpanAt(c, e).address);
    var m := RetagOne(c, e, {}, USE);
    RetaggedFacts(m, Matched(m, Select(m, def), ids), {USE}, DEFINITION);
    Concluded(Tagged(m, def, ids, {USE}, DEFINITION), Found(m, def, ids), e.row)
  }

  /** gotoDef as a function of the table, the click and the two roles. */
  function GotoDefResult(r0: seq<Row>, t: Option<SpanRef>, def: string, use: string): GotoState
    requires t.Some? ==> ValidRef(r0, t.value)
  {
    match Clicked(r0, t, def, use)
    case None => GotoState(Ok(Done), Cleared(r0), AllShown(|Cleared(r0)|))
    case Some(e) => GotoDefFrom(Cleared(r0), e, def)
  }

  /** The span at x has one of the ids among its address pieces:
    * `split(',').indexOf(id) >= 0` for some id. */
  predicate Shares(rows: seq<Row>, x: SpanRef, ids: seq<string>)
    requires ValidRef(rows, x)
  {
    exists i :: 0 <= i < |ids| && ids[i] in Parts(rows, x)
  }

  /** The spans gotoDef and defUse mark: those with the role that share an
    * id. */
  lemma MatchedSpans(rows: seq<Row>, role: string, ids: seq<string>)
    ensures forall x :: x in Matched(rows, Select(rows, role), ids) <==>
      ValidRef(rows, x) && role in SpanAt(rows, x).classes && Shares(rows, x, ids)
  {
    SelectFacts(rows, role);
    forall x | ValidRef(rows, x)
      ensures Count(ids, Parts(rows, x)) > 0 <==> Shares(rows, x, ids)
    {
      CountPositive(ids, Parts(rows, x));
    }
  }

  /** A span is collected (once or more) exactly when it is marked. */
  lemma {:induction false} HitsAreMatched(rows: seq<Row>, sel: seq<SpanRef>, ids: seq<string>)
    requires forall i :: 0 <= i < |sel| ==> ValidRef(rows, sel[i])
    ensures forall x :: x in Hits(rows, sel, ids) <==> x in Matched(rows, sel, ids)
    decreases |sel|
  {
    if |sel| > 0 {
      var n := |sel| - 1;
      HitsAreMatched(rows, sel[..n], ids);
      HitsSnoc(rows, sel, ids, n);
      MatchedSnoc(rows, sel, ids, n);
      assert sel[..n + 1] == sel;
      var c := Count(ids, Parts(rows, sel[n]));
      forall x
        ensures x in Hits(rows, sel, ids) <==> x in Matched(rows, sel, ids)
      {
        assert x in Copies(sel[n], c) <==> c > 0 && x == sel[n];
      }
    }
  }

  /** No span with the def role shares one of the ids. */
  ghost predicate NoDefinition(m: seq<Row>, def: string, ids: seq<string>) {
    forall x :: ValidRef(m, x) && def in SpanAt(m, x).classes ==> !Shares(m, x, ids)
  }

  /** Without a span clicked in a role, gotoDef only erases and unslices;
    * with one, it always scrolls, slices or fails. */
  lemma GotoDefDone(r0: seq<Row>, t: Option<SpanRef>, def: string, use: string)
    requires t.Some? ==> ValidRef(r0, t.value)
    ensures GotoDefResult(r0, t, def, use).outcome == Ok(Done) <==> Clicked(r0, t, def, use).None?
    ensures Clicked(r0, t, def, use).None? ==>
      GotoDefResult(r0, t, def, use).rows == Cleared(r0)
      && forall k :: 0 <= k < |Cleared(r0)| ==> GotoDefResult(r0, t, def, use).shown[k]
  {
    if Clicked(r0, t, def, use).Some? {
      var c := Cleared(r0);
      var e := Clicked(r0, t, def, use).value;
      var ids := Split(SpanAt(c, e).address);
      var m := RetagOne(c, e, {}, USE);
      RetaggedFacts(m, Matched(m, Select(m, def), ids), {USE}, DEFINITION);
      assert GotoDefResult(r0, t, def, use)
        == Concluded(Tagged(m, def, ids, {USE}, DEFINITION), Found(m, def, ids), e.row);
    }
  }

  /** No definition is collected exactly when none shares an id, and then
    * nothing is retagged. */
  lemma FoundEmpty(m: seq<Row>, def: string, ids: seq<string>)
    ensures |Found(m, def, ids)| == 0 <==> NoDefinition(m, def, ids)
    ensures |Found(m, def, ids)| == 0 ==> Tagged(m, def, ids, {USE}, DEFINITION) == m
  {
    var sel := Select(m, def);
    SelectValid(m, def);
    HitsAreMatched(m, sel, ids);
    MatchedSpans(m, def, ids);
    var h := Hits(m, sel, ids);
    assert Found(m, def, ids) == h;
    if !NoDefinition(m, def, ids) {
      var x :| ValidRef(m, x) && def in SpanAt(m, x).classes && Shares(m, x, ids);
      assert x in h;
    }
    if |h| > 0 {
      assert h[0] in h;
      assert h[0] in Matched(m, sel, ids);
    }
    if |Found(m, def, ids)| == 0 {
      assert Matched(m, sel, ids) == {};
      RetaggedNone(m, {USE}, DEFINITION);
    }
  }

  /** A span with the class that comes before the i-th selected span is
    * selected before it. */
  lemma SelectEarlier(rows: seq<Row>, c: string, i: nat, y: SpanRef) returns (j: nat)
    requires i < |Select(rows, c)| && ValidRef(rows, y) && c in SpanAt(rows, y).classes
    requires Before(y, Select(rows, c)[i])
    ensures j < i && Select(rows, c)[j] == y
  {
    SelectFacts(rows, c);
    var sel := Select(rows, c);
    j :| 0 <= j < |sel| && sel[j] == y;
    assert j < i;
  }

  /** The first definition collected is the first in document order that
    * shares an id. */
  lemma FoundFirst(m: seq<Row>, def: string, ids: seq<string>)
    ensures |Found(m, def, ids)| > 0 ==>
      var x := Found(m, def, ids)[0];
      ValidRef(m, x) && def in SpanAt(m, x).classes && Shares(m, x, ids)
      && forall y :: ValidRef(m, y) && def in SpanAt(m, y).classes && Before(y, x) ==> !Shares(m, y, ids)
  {
    var sel := Select(m, def);
    var hits := Found(m, def, ids);
    if |hits| > 0 {
      SelectValid(m, def);
      HitsFirst(m, sel, ids);
      SelectFacts(m, def);
      var i :| 0 <= i < |sel| && hits[0] == sel[i] && Count(ids, Parts(m, sel[i])) > 0
               && forall i' :: 0 <= i' < i ==> Count(ids, Parts(m, sel[i'])) == 0;
      assert sel[i] in sel;
      CountPositive(ids, Parts(m, sel[i]));
      forall y | ValidRef(m, y) && def in SpanAt(m, y).classes && Before(y, sel[i])
        ensures !Shares(m, y, ids)
      {
        var j := SelectEarlier(m, def, i, y);
        CountPositive(ids, Parts(m, y));
      }
    }
  }

  /** Row k lies within two rows of one of the spans xs. */
  ghost predicate NearAny(k: int, xs: set<SpanRef>) {
    exists x :: x in xs && x.row - 2 <= k <= x.row + 2
  }

  /** The rows of the collected definitions are the rows of the marked
    * ones. */
  lemma FoundRows(m: seq<Row>, def: string, ids: seq<string>, k: int)
    ensures Near(k, RowsOf(Found(m, def, ids))) <==> NearAny(k, Matched(m, Select(m, def), ids))
  {
    var sel := Select(m, def);
    var hits := Found(m, def, ids);
    SelectValid(m, def);
    HitsAreMatched(m, sel, ids);
    if Near(k, RowsOf(hits)) {
      var j :| 0 <= j < |hits| && RowsOf(hits)[j] - 2 <= k <= RowsOf(hits)[j] + 2;
      assert hits[j] in hits;
    }
    if NearAny(k, Matched(m, sel, ids)) {
      var x :| x in Matched(m, sel, ids) && x.row - 2 <= k <= x.row + 2;
      var j :| 0 <= j < |hits| && hits[j] == x;
      assert RowsOf(hits)[j] == x.row;
    }
  }

  /** checkIDs fails only on two or more collected spans; the table is
    * then sliced to their context, and unslicing gives it back. */
  lemma ConcludedSlices(m: seq<Row>, hits: seq<SpanRef>, row: nat)
    requires NoPlaceholders(m) && forall i :: 0 <= i < |hits| ==> ValidRef(m, hits[i])
    ensures var g := Concluded(m, hits, row);
            g.outcome == Ok(Sliced) ==>
              |hits| > 1 && (g.rows, g.shown) == Placed(m, Context(|m|, row, hits)) && Lines(g.rows) == m
  {
    var g := Concluded(m, hits, row);
    if g.outcome == Ok(Sliced) {
      var s := Context(|m|, row, hits);
      assert (g.rows, g.shown) == Placed(m, s);
      UnsliceSlice(m, s);
    }
  }

  /** Removing the placeholders addPlaceholders put into a table without
    * any gives the table back. */
  lemma UnsliceSlice(m: seq<Row>, s: seq<bool>)
    requires NoPlaceholders(m) && |s| == |m|
    ensures Lines(Placed(m, s).0) == m
  {
    PlacedLines(m, s);
    LinesOfLines(m);
  }

  /** gotoDef from span e throws (elements[0] is undefined) exactly when no
    * definition shares one of e's ids, and it has then marked e as a use
    * and left every row shown. */
  lemma GotoDefFails(c: seq<Row>, e: SpanRef, def: string)
    requires ValidRef(c, e)
    ensures var ids := Split(SpanAt(c, e).address);
            var m := RetagOne(c, e, {}, USE);
            var g := GotoDefFrom(c, e, def);
            (g.outcome.Err? <==> NoDefinition(m, def, ids))
            && (g.outcome.Err? ==> g.outcome.error == Thrown("TypeError") && g.rows == m
                                   && forall k :: 0 <= k < |g.shown| ==> g.shown[k])
  {
    var ids := Split(SpanAt(c, e).address);
    var m := RetagOne(c, e, {}, USE);
    var hits := Found(m, def, ids);
    RetaggedFacts(m, Matched(m, Select(m, def), ids), {USE}, DEFINITION);
    assert GotoDefFrom(c, e, def) == Concluded(Tagged(m, def, ids, {USE}, DEFINITION), hits, e.row);
    FoundEmpty(m, def, ids);
  }

  /** gotoDef scrolls only to the first definition, in document order, that
    * shares one of the clicked span's ids. */
  lemma GotoDefScrollsToFirst(c: seq<Row>, e: SpanRef, def: string)
    requires ValidRef(c, e)
    ensures var ids := Split(SpanAt(c, e).address);
            var m := RetagOne(c, e, {}, USE);
            var g := GotoDefFrom(c, e, def);
            g.outcome.Ok? && g.outcome.value.ScrollTo? ==>
              var x := g.outcome.value.target;
              ValidRef(m, x) && def in SpanAt(m, x).classes && Shares(m, x, ids)
              && (forall y :: ValidRef(m, y) && def in SpanAt(m, y).classes && Before(y, x) ==> !Shares(m, y, ids))
              && forall k :: 0 <= k < |g.shown| ==> g.shown[k]
  {
    var ids := Split(SpanAt(c, e).address);
    var m := RetagOne(c, e, {}, USE);
    var hits := Found(m, def, ids);
    RetaggedFacts(m, Matched(m, Select(m, def), ids), {USE}, DEFINITION);
    assert GotoDefFrom(c, e, def) == Concluded(Tagged(m, def, ids, {USE}, DEFINITION), hits, e.row);
    FoundFirst(m, def, ids);
  }

  /** The clicked span shares its own first id, so gotoDef leaves it marked
    * as a definition (and not a use) when it has the def role, and as a
    * use otherwise. */
  lemma GotoDefMarksClicked(c: seq<Row>, e: SpanRef, def: string)
    requires ValidRef(c, e) && def != USE
    ensures var ids := Split(SpanAt(c, e).address);
            var t := Tagged(RetagOne(c, e, {}, USE), def, ids, {USE}, DEFINITION);
            ValidRef(t, e)
            && SpanAt(t, e).classes == if def in SpanAt(c, e).classes then SpanAt(c, e).classes - {USE} + {DEFINITION}
                                       else SpanAt(c, e).classes + {USE}
  {
    var ids := Split(SpanAt(c, e).address);
    var m := RetagOne(c, e, {}, USE);
    RetaggedFacts(m, Marked(m, def, ids), {USE}, DEFINITION);
    MatchedSpans(m, def, ids);
    assert SpanAt(m, e) == Retag(SpanAt(c, e), {}, USE);
    assert Parts(m, e) == ids;
    assert Shares(m, e, ids) by {
      assert ids[0] in Parts(m, e);
    }
    assert SpanAt(c, e).classes + {USE} - {USE} + {DEFINITION} == SpanAt(c, e).classes - {USE} + {DEFINITION};
  }

  /** When the definitions do not all have the same ids, gotoDef slices:
    * unslicing gives back the marked table, more than one definition was
    * collected, and the rows shown before the placeholders went in are
    * exactly those within two rows of the clicked span or of a marked
    * definition. */
  lemma GotoDefSlices(c: seq<Row>, e: SpanRef, def: string)
    requires ValidRef(c, e) && NoPlaceholders(c)
    ensures var ids := Split(SpanAt(c, e).address);
            var m := RetagOne(c, e, {}, USE);
            var t := Tagged(m, def, ids, {USE}, DEFINITION);
            var g := GotoDefFrom(c, e, def);
            g.outcome == Ok(Sliced) ==>
              Lines(g.rows) == t && |Found(m, def, ids)| > 1
              && exists s :: |s| == |t| && Placed(t, s) == (g.rows, g.shown)
                   && forall k :: 0 <= k < |t| ==>
                     (s[k] <==> (e.row - 2 <= k <= e.row + 2 || NearAny(k, Matched(m, Select(m, def), ids))))
  {
    var ids := Split(SpanAt(c, e).address);
    var m := RetagOne(c, e, {}, USE);
    var t := Tagged(m, def, ids, {USE}, DEFINITION);
    var hits := Found(m, def, ids);
    RetaggedFacts(m, Matched(m, Select(m, def), ids), {USE}, DEFINITION);
    assert NoPlaceholders(m);
    assert GotoDefFrom(c, e, def) == Concluded(t, hits, e.row);
    ConcludedSlices(t, hits, e.row);
    var s := Context(|t|, e.row, hits);
    ContextShown(|t|, e.row, hits);
    forall k | 0 <= k < |t|
      ensures s[k] <==> (e.row - 2 <= k <= e.row + 2 || NearAny(k, Matched(m, Select(m, def), ids)))
    {
      FoundRows(m, def, ids, k);
    }
  }

  // ---------------------------------------------------------------------
  // defUse and findUses

  /** The spans with the role that share one of the ids. */
  function Marked(m: seq<Row>, role: string, ids: seq<string>): set<SpanRef> {
    Matched(m, Select(m, role), ids)
  }

  /** defUse's two passes over table a with visibility v: the definitions
    * sharing an id gain `definition`, then the uses sharing an id gain
    * `use`; when slicing, the context of each is shown as it is found and
    * the placeholders go in at the end. */
  function DefUseMarks(a: seq<Row>, v: seq<bool>, ids: seq<string>, def: string, use: string, slice: bool): (seq<Row>, seq<bool>)
    requires |a| == |v|
  {
    var d := Tagged(a, def, ids, {}, DEFINITION);
    var u := Tagged(d, use, ids, {}, USE);
    if slice then Placed(u, ShownAll(ShownAll(v, RowsOf(Found(a, def, ids))), RowsOf(Found(d, use, ids))))
    else (u, v)
  }

  /** defUse as a function of the table: nothing happens without an
    * element; otherwise erase, and when slicing also unslice and hide
    * every row; stop there when the element has an empty address. */
  function DefUseResult(r0: seq<Row>, s0: seq<bool>, element: Option<SpanRef>, def: string, use: string, slice: bool): (seq<Row>, seq<bool>)
    requires |r0| == |s0| && (element.Some? ==> ValidRef(r0, element.value))
  {
    if element.None? then (r0, s0)
    else
      var address := SpanAt(r0, element.value).address;
      var a := if slice then Cleared(r0) else Erased(r0);
      var v := if slice then AllHidden(|a|) else s0;
      if address == "" then (a, v) else DefUseMarks(a, v, Split(address), def, use, slice)
  }

  /** Marking one role leaves the spans another role marks as they were. */
  lemma MarkedAfterTag(a: seq<Row>, def: string, use: string, ids: seq<string>, add: string)
    requires use != add
    ensures Marked(Tagged(a, def, ids, {}, add), use, ids) == Marked(a, use, ids)
  {
    var d := Tagged(a, def, ids, {}, add);
    RetaggedFacts(a, Marked(a, def, ids), {}, add);
    MatchedSpans(a, use, ids);
    MatchedSpans(d, use, ids);
    forall x
      ensures x in Marked(d, use, ids) <==> x in Marked(a, use, ids)
    {
      if ValidRef(a, x) {
        assert Parts(d, x) == Parts(a, x);
      }
    }
  }

  /** defUse marks exactly the definitions and the uses that share an id:
    * each gains `definition` or `use`, and keeps its other classes. */
  lemma DefUseMarksSpans(a: seq<Row>, ids: seq<string>, def: string, use: string)
    requires use != DEFINITION
    ensures var u := Tagged(Tagged(a, def, ids, {}, DEFINITION), use, ids, {}, USE);
            forall x :: ValidRef(a, x) ==>
              (ValidRef(u, x) && SpanAt(u, x).address == SpanAt(a, x).address
               && SpanAt(u, x).classes == SpanAt(a, x).classes
                    + (if def in SpanAt(a, x).classes && Shares(a, x, ids) then {DEFINITION} else {})
                    + (if use in SpanAt(a, x).classes && Shares(a, x, ids) then {USE} else {}))
  {
    var d := Tagged(a, def, ids, {}, DEFINITION);
    var u := Tagged(d, use, ids, {}, USE);
    RetaggedFacts(a, Marked(a, def, ids), {}, DEFINITION);
    RetaggedFacts(d, Marked(d, use, ids), {}, USE);
    MarkedAfterTag(a, def, use, ids, DEFINITION);
    MatchedSpans(a, def, ids);
    MatchedSpans(a, use, ids);
  }

  /** With a slice, the rows left shown are exactly those within two rows
    * of a marked definition or use, and unslicing gives back the marked
    * table. */
  lemma DefUseSlices(a: seq<Row>, v: seq<bool>, ids: seq<string>, def: string, use: string)
    requires NoPlaceholders(a) && |v| == |a| && use != DEFINITION
    ensures var u := Tagged(Tagged(a, def, ids, {}, DEFINITION), use, ids, {}, USE);
            var p := DefUseMarks(a, v, ids, def, use, true);
            Lines(p.0) == u
            && exists s :: |s| == |u| && Placed(u, s) == p
                 && forall k :: 0 <= k < |u| ==>
                   (s[k] <==> (v[k] || NearAny(k, Marked(a, def, ids)) || NearAny(k, Marked(a, use, ids))))
  {
    var d := Tagged(a, def, ids, {}, DEFINITION);
    var u := Tagged(d, use, ids, {}, USE);
    RetaggedFacts(a, Marked(a, def, ids), {}, DEFINITION);
    RetaggedFacts(d, Marked(d, use, ids), {}, USE);
    assert NoPlaceholders(d);
    var dh := Found(a, def, ids);
    var uh := Found(d, use, ids);
    var s := ShownAll(ShownAll(v, RowsOf(dh)), RowsOf(uh));
    UnsliceSlice(u, s);
    ShownAllNear(v, RowsOf(dh));
    ShownAllNear(ShownAll(v, RowsOf(dh)), RowsOf(uh));
    MarkedAfterTag(a, def, use, ids, DEFINITION);
    forall k | 0 <= k < |u|
      ensures s[k] <==> (v[k] || NearAny(k, Marked(a, def, ids)) || NearAny(k, Marked(a, use, ids)))
    {
      FoundRows(a, def, ids, k);
      FoundRows(d, use, ids, k);
    }
  }

  /** On an element whose address is empty, defUse stops after erasing:
    * when slicing, every row is left hidden and no placeholder is put in. */
  lemma DefUseEmptyAddress(r0: seq<Row>, s0: seq<bool>, element: SpanRef, def: string, use: string, slice: bool)
    requires |r0| == |s0| && ValidRef(r0, element) && SpanAt(r0, element).address == ""
    ensures var p := DefUseResult(r0, s0, Some(element), def, use, slice);
            (slice ==> p.0 == Cleared(r0) && NoPlaceholders(p.0) && forall k :: 0 <= k < |p.1| ==> !p.1[k])
            && (!slice ==> p == (Erased(r0), s0))
  {
    LinesAreCode(Erased(r0));
  }

  /** Without a slice, defUse changes no row's visibility and adds or
    * removes no row. */
  lemma DefUseKeepsRows(r0: seq<Row>, s0: seq<bool>, element: Option<SpanRef>, def: string, use: string)
    requires |r0| == |s0| && (element.Some? ==> ValidRef(r0, element.value))
    ensures var p := DefUseResult(r0, s0, element, def, use, false);
            p.1 == s0 && |p.0| == |r0|
            && forall k :: 0 <= k < |r0| ==> (p.0[k].Placeholder? <==> r0[k].Placeholder?)
  {
    EraseKeepsRows(r0);
    if element.Some? && SpanAt(r0, element.value).address != "" {
      var a := Erased(r0);
      var ids := Split(SpanAt(r0, element.value).address);
      var d := Tagged(a, def, ids, {}, DEFINITION);
      RetaggedFacts(a, Marked(a, def, ids), {}, DEFINITION);
      RetaggedFacts(d, Marked(d, use, ids), {}, USE);
    }
  }

  // ---------------------------------------------------------------------
  // all and sliLine

  /** all(def, use) as a function of the table: erase, unslice and hide
    * every row; mark the def spans `criterion` and show their context;
    * mark the use spans `dependency` and show theirs; put in the
    * placeholders. */
  function AllResult(r0: seq<Row>, def: string, use: string): (seq<Row>, seq<bool>) {
    var c := Cleared(r0);
    var m1 := MarkAll(c, def, CRITERION);
    var v1 := ShownAll(AllHidden(|c|), RowsWith(m1, WithClass(def)));
    var m2 := MarkAll(m1, use, DEPENDENCY);
    Placed(m2, ShownAll(v1, RowsWith(m2, WithClass(use))))
  }

  /** Row k lies within two rows of a row the selector picks. */
  ghost predicate NearSelected(rows: seq<Row>, k: int, sel: Selector) {
    exists p :: 0 <= p < |rows| && p - 2 <= k <= p + 2 && Selects(rows[p], sel)
  }

  /** The rows that selector picks are those within two rows of a row it
    * selects. */
  lemma NearRowsWith(rows: seq<Row>, k: int, sel: Selector)
    ensures Near(k, RowsWith(rows, sel)) <==> NearSelected(rows, k, sel)
  {
    RowsWithSelects(rows, sel);
    if NearSelected(rows, k, sel) {
      var p :| 0 <= p < |rows| && p - 2 <= k <= p + 2 && Selects(rows[p], sel);
      var j :| 0 <= j < |RowsWith(rows, sel)| && RowsWith(rows, sel)[j] == p;
    }
  }

  /** Two selections that pick the same rows. */
  lemma RowsWithSame(a: seq<Row>, b: seq<Row>, sel: Selector)
    requires |a| == |b| && forall k :: 0 <= k < |a| ==> (Selects(a[k], sel) <==> Selects(b[k], sel))
    ensures RowsWith(a, sel) == RowsWith(b, sel)
    decreases |a|
  {
    if |a| > 0 {
      var n := |a| - 1;
      RowsWithSame(a[..n], b[..n], sel);
    }
  }

  /** all marks every def span `criterion` and every use span
    * `dependency`, and keeps their other classes and addresses (when the
    * use role is not `criterion` itself). */
  lemma AllMarks(c: seq<Row>, def: string, use: string)
    requires use != CRITERION
    ensures var m2 := MarkAll(MarkAll(c, def, CRITERION), use, DEPENDENCY);
            forall x :: ValidRef(c, x) ==>
              (ValidRef(m2, x) && SpanAt(m2, x).address == SpanAt(c, x).address
               && SpanAt(m2, x).classes == SpanAt(c, x).classes
                    + (if def in SpanAt(c, x).classes then {CRITERION} else {})
                    + (if use in SpanAt(c, x).classes then {DEPENDENCY} else {}))
  {
    var m1 := MarkAll(c, def, CRITERION);
    var m2 := MarkAll(m1, use, DEPENDENCY);
    MarkAllFacts(c, def, CRITERION);
    MarkAllFacts(m1, use, DEPENDENCY);
    forall x | ValidRef(c, x)
      ensures ValidRef(m2, x) && SpanAt(m2, x).address == SpanAt(c, x).address
    {
      assert SpanAt(m1, x).address == SpanAt(c, x).address;
    }
  }

  /** all, when the use role is not `criterion` itself, shows exactly the
    * rows within two rows of a row with a def or a use span, and
    * unslicing gives the marked table back. */
  lemma AllShowsNear(r0: seq<Row>, def: string, use: string)
    requires use != CRITERION
    ensures var c := Cleared(r0);
            var m2 := MarkAll(MarkAll(c, def, CRITERION), use, DEPENDENCY);
            var p := AllResult(r0, def, use);
            Lines(p.0) == m2
            && exists s :: |s| == |c| && Placed(m2, s) == p
                 && forall k :: 0 <= k < |c| ==>
                   (s[k] <==> (NearSelected(c, k, WithClass(def)) || NearSelected(c, k, WithClass(use))))
  {
    var c := Cleared(r0);
    LinesAreCode(Erased(r0));
    var m1 := MarkAll(c, def, CRITERION);
    var m2 := MarkAll(m1, use, DEPENDENCY);
    AllSelects(c, def, use);
    var v1 := ShownAll(AllHidden(|c|), RowsWith(c, WithClass(def)));
    var s := ShownAll(v1, RowsWith(c, WithClass(use)));
    assert AllResult(r0, def, use) == Placed(m2, s);
    UnsliceSlice(m2, s);
    AllVisible(c, def, use);
  }

  /** The marks all adds change neither the rows nor which rows the two
    * roles select. */
  lemma AllSelects(c: seq<Row>, def: string, use: string)
    requires use != CRITERION && NoPlaceholders(c)
    ensures var m1 := MarkAll(c, def, CRITERION);
            var m2 := MarkAll(m1, use, DEPENDENCY);
            NoPlaceholders(m2) && RowsWith(m1, WithClass(def)) == RowsWith(c, WithClass(def))
            && RowsWith(m2, WithClass(use)) == RowsWith(c, WithClass(use))
  {
    var m1 := MarkAll(c, def, CRITERION);
    var m2 := MarkAll(m1, use, DEPENDENCY);
    MarkAllFacts(c, def, CRITERION);
    MarkAllFacts(m1, use, DEPENDENCY);
    RowsWithSame(m1, c, WithClass(def));
    RowsWithSame(m2, c, WithClass(use));
  }

  /** Showing the context of the def rows and then of the use rows. */
  lemma AllVisible(c: seq<Row>, def: string, use: string)
    ensures var v1 := ShownAll(AllHidden(|c|), RowsWith(c, WithClass(def)));
            var s := ShownAll(v1, RowsWith(c, WithClass(use)));
            forall k :: 0 <= k < |c| ==>
              (s[k] <==> (NearSelected(c, k, WithClass(def)) || NearSelected(c, k, WithClass(use))))
  {
    var v1 := ShownAll(AllHidden(|c|), RowsWith(c, WithClass(def)));
    var s := ShownAll(v1, RowsWith(c, WithClass(use)));
    ShownAllNear(AllHidden(|c|), RowsWith(c, WithClass(def)));
    ShownAllNear(v1, RowsWith(c, WithClass(use)));
    forall k | 0 <= k < |c|
      ensures s[k] <==> (NearSelected(c, k, WithClass(def)) || NearSelected(c, k, WithClass(use)))
    {
      NearRowsWith(c, k, WithClass(def));
      NearRowsWith(c, k, WithClass(use));
    }
  }

  /** sliLine as a function of the table: erase, unslice and hide every
    * row; show the context of every row with an inserted cell, then of
    * every row with a deleted cell; put in the placeholders. */
  function SliLineResult(r0: seq<Row>): (seq<Row>, seq<bool>) {
    var c := Cleared(r0);
    Placed(c, ShownAll(ShownAll(AllHidden(|c|), RowsWith(c, InsertCell)), RowsWith(c, DeleteCell)))
  }

  /** sliLine shows exactly the rows within two rows of an inserted or a
    * deleted line, and unslicing gives the cleared table back. */
  lemma SliLineShowsChanges(r0: seq<Row>)
    ensures var c := Cleared(r0);
            var p := SliLineResult(r0);
            Lines(p.0) == c
            && exists s :: |s| == |c| && Placed(c, s) == p
                 && forall k :: 0 <= k < |c| ==> (s[k] <==> (NearSelected(c, k, InsertCell) || NearSelected(c, k, DeleteCell)))
  {
    var c := Cleared(r0);
    LinesAreCode(Erased(r0));
    var v1 := ShownAll(AllHidden(|c|), RowsWith(c, InsertCell));
    var s := ShownAll(v1, RowsWith(c, DeleteCell));
    UnsliceSlice(c, s);
    ShownAllNear(AllHidden(|c|), RowsWith(c, InsertCell));
    ShownAllNear(v1, RowsWith(c, DeleteCell));
    forall k | 0 <= k < |c|
      ensures s[k] <==> (NearSelected(c, k, InsertCell) || NearSelected(c, k, DeleteCell))
    {
      NearRowsWith(c, k, InsertCell);
      NearRowsWith(c, k, DeleteCell);
    }
  }

  // ---------------------------------------------------------------------
  // The context menu

  /** What a menu entry runs: all, gotoDef or findUses with a pair of
    * roles, sliLine, erase, or unslice. */
  datatype Command = AllRoles(def: string, use: string) | GotoDefinition(def: string, use: string)
                   | FindUsesOf(def: string, use: string) | SliceLines | EraseMarks | UnsliceRows

  /** switchMenuSelection's cases, with the wrappers (allVar, gotoVal, ...)
    * that fix the roles; any other key is ignored. */
  function KeyCommand(key: string): Option<Command> {
    match key
    case "all-var" => Some(AllRoles("ENV-DEF", "ENV-USE"))
    case "all-val" => Some(AllRoles("VAL-DEF", "VAL-USE"))
    case "all-call" => Some(AllRoles("CALL-DEF", "CALL-USE"))
    case "all-con" => Some(AllRoles("CON-DEF", "CON-USE"))
    case "all-condep" => Some(AllRoles("CONDEP-DEF", "CONDEP-USE"))
    case "all-datdep" => Some(AllRoles("DATDEP-XDEF", "DATDEP-USE"))
    case "goto-var" => Some(GotoDefinition("DENV-DEF", "DENV-USE"))
    case "goto-val" => Some(GotoDefinition("DVAL-DEF", "DVAL-USE"))
    case "find-var" => Some(FindUsesOf("DENV-DEF", "DENV-USE"))
    case "find-val" => Some(FindUsesOf("DVAL-DEF", "DVAL-USE"))
    case "sli-line" => Some(SliceLines)
    case "erase" => Some(EraseMarks)
    case "unslice" => Some(UnsliceRows)
    case _ => None
  }

  /** The thirteen keys of the menu. */
  const KEYS: seq<string> := ["all-var", "all-val", "all-call", "all-con", "all-condep", "all-datdep",
    "goto-var", "goto-val", "find-var", "find-val", "sli-line", "erase", "unslice"]

  /** A key runs a command exactly when it is one of the menu's keys. */
  lemma KeyCommandKnown(key: string)
    ensures KeyCommand(key).Some? <==> key in KEYS
  {
  }

  /** Every mark a command adds is one erase takes away again: the
    * criterion and dependency marks of all, and the definition and use
    * marks of gotoDef and findUses, each on its role. */
  lemma CommandMarksAreErased(key: string)
    ensures match KeyCommand(key)
            case Some(AllRoles(d, u)) => (d, CRITERION) in ERASED && (u, DEPENDENCY) in ERASED
            case Some(GotoDefinition(d, u)) => (d, DEFINITION) in ERASED && (u, USE) in ERASED
            case Some(FindUsesOf(d, u)) => (d, DEFINITION) in ERASED && (u, USE) in ERASED
            case _ => true
  {
    if key in KEYS {
      assert ERASED[0] == ("ENV-DEF", CRITERION) && ERASED[1] == ("DENV-DEF", DEFINITION);
      assert ERASED[2] == ("DENV-USE", USE) && ERASED[3] == ("ENV-USE", DEPENDENCY);
      assert ERASED[4] == ("VAL-DEF", CRITERION) && ERASED[5] == ("DVAL-DEF", DEFINITION);
      assert ERASED[6] == ("DVAL-USE", USE) && ERASED[7] == ("VAL-USE", DEPENDENCY);
      assert ERASED[8] == ("CALL-DEF", CRITERION) && ERASED[9] == ("CALL-USE", DEPENDENCY);
      assert ERASED[10] == ("CON-DEF", CRITERION) && ERASED[11] == ("CON-USE", DEPENDENCY);
      assert ERASED[12] == ("CONDEP-DEF", CRITERION) && ERASED[13] == ("CONDEP-USE", DEPENDENCY);
      assert ERASED[14] == ("DATDEP-XDEF", CRITERION) && ERASED[15] == ("DATDEP-USE", DEPENDENCY);
    }
  }

  // ---------------------------------------------------------------------
  // The table

  class Document {
    /** The rows of the diff table, and whether each is shown. */
    var rows: seq<Row>
    var shown: seq<bool>

    predicate Valid()
      reads this
    {
      |shown| == |rows|
    }

    constructor(rows: seq<Row>)
      ensures Valid() && this.rows == rows && forall k :: 0 <= k < |shown| ==> shown[k]
    {
      this.rows := rows;
      shown := seq(|rows|, _ => true);
    }

    /** erase: removes the def-use highlight marks; which rows are shown is
      * not touched. */
    method Erase()
      requires Valid()
      modifies this
      ensures Valid() && rows == Erased(old(rows)) && shown == old(shown)
    {
      rows := Erased(rows);
    }

    /** unslice: removes the placeholders and shows every row. */
    method Unslice()
      requires Valid()
      modifies this
      ensures Valid() && rows == Lines(old(rows))
      ensures forall k :: 0 <= k < |shown| ==> shown[k]
    {
      rows := Lines(rows);
      shown := seq(|rows|, _ => true);
    }

    /** hideRows: hides every row. */
    method HideRows()
      requires Valid()
      modifies this
      ensures Valid() && rows == old(rows)
      ensures forall k :: 0 <= k < |shown| ==> !shown[k]
    {
      shown := seq(|rows|, _ => false);
    }

    /** showContext on the row at p: it and the two rows before and after it
      * are shown, where they exist. */
    method ShowContext(p: nat)
      requires Valid() && p < |rows|
      modifies this
      ensures Valid() && rows == old(rows)
      ensures shown == Shown(old(shown), p)
    {
      if p >= 2 {
        shown := shown[p - 2 := true];
      }
      if p >= 1 {
        shown := shown[p - 1 := true];
      }
      shown := shown[p := true];
      if p + 1 < |shown| {
        shown := shown[p + 1 := true];
      }
      if p + 2 < |shown| {
        shown := shown[p + 2 := true];
      }
    }

    /** getIDs: from the clicked span outwards, the first span with one of
      * the two roles gives the ids, its data-address split at commas. */
    method GetIDs(t: Option<SpanRef>, def: string, use: string) returns (ids: Option<seq<string>>)
      requires Valid() && (t.Some? ==> ValidRef(rows, t.value))
      ensures ids == IdsAt(rows, t, def, use)
    {
      ids := None;
      if t.None? {
        return;
      }
      var spans := rows[t.value.row].spans;
      ghost var goal := Nearest(spans, t.value.index, def, use);
      var current: Option<nat> := Some(t.value.index);
      while ids.None? && current.Some?
        invariant current.Some? ==> current.value < |spans|
        invariant ids.None? && current.Some? ==> Nearest(spans, current.value, def, use) == goal
        invariant ids.None? && current.None? ==> goal.None?
        invariant ids.Some? ==> goal.Some? && ids.value == Split(spans[goal.value].address)
        decreases if current.Some? then current.value + 1 else 0
      {
        var k := current.value;
        if def in spans[k].classes || use in spans[k].classes {
          ids := Some(Split(spans[k].address));
        }
        current := Up(spans, k);
      }
    }

    /** getSpanElement: the same walk, returning the span itself. */
    method GetSpanElement(t: Option<SpanRef>, def: string, use: string) returns (e: Option<SpanRef>)
      requires Valid() && (t.Some? ==> ValidRef(rows, t.value))
      ensures e == ElementAt(rows, t, def, use)
    {
      if t.None? {
        return None;
      }
      var spans := rows[t.value.row].spans;
      ghost var goal := Nearest(spans, t.value.index, def, use);
      var current: Option<nat> := Some(t.value.index);
      while current.Some?
        invariant current.Some? ==> current.value < |spans| && Nearest(spans, current.value, def, use) == goal
        invariant current.None? ==> goal.None?
        decreases if current.Some? then current.value + 1 else 0
      {
        var k := current.value;
        if def in spans[k].classes || use in spans[k].classes {
          return Some(SpanRef(t.value.row, k));
        }
        current := Up(spans, k);
      }
      return None;
    }

    /** `$(selector).each(showContext)`: the context of every row the
      * selector picks is shown. (Several spans of one row show the same
      * context again, which changes nothing.) */
    method Reveal(sel: Selector)
      requires Valid()
      modifies this
      ensures Valid() && rows == old(rows)
      ensures shown == ShownAll(old(shown), RowsWith(rows, sel))
    {
      ghost var start := shown;
      for p := 0 to |rows|
        invariant Valid() && rows == old(rows)
        invariant shown == ShownAll(start, RowsWith(rows[..p], sel))
      {
        RowsWithSnoc(rows, sel, p);
        if Selects(rows[p], sel) {
          ShownAllSnoc(start, RowsWith(rows[..p], sel), p);
          ShowContext(p);
        } else {
          assert RowsWith(rows[..p], sel) + [] == RowsWith(rows[..p], sel);
        }
      }
      assert rows[..|rows|] == rows;
    }

    /** The body of `$("span." + role).each(...)` in gotoDef and defUse:
      * each selected span whose address holds one of the ids loses the
      * classes remove and gains add, and is collected once per id it holds. */
    method MarkMatches(sel: seq<SpanRef>, ids: seq<string>, remove: set<string>, add: string) returns (hits: seq<SpanRef>)
      requires Valid() && add !in remove
      requires forall i :: 0 <= i < |sel| ==> ValidRef(rows, sel[i])
      modifies this
      ensures Valid() && shown == old(shown)
      ensures rows == Retagged(old(rows), Matched(old(rows), sel, ids), remove, add)
      ensures hits == Hits(old(rows), sel, ids)
    {
      ghost var r0 := rows;
      hits := [];
      RetaggedNone(r0, remove, add);
      assert Matched(r0, sel[..0], ids) == {};
      for x := 0 to |sel|
        invariant Valid() && shown == old(shown)
        invariant rows == Retagged(r0, Matched(r0, sel[..x], ids), remove, add)
        invariant hits == Hits(r0, sel[..x], ids)
      {
        var ref := sel[x];
        ghost var done := Matched(r0, sel[..x], ids);
        RetaggedFacts(r0, done, remove, add);
        var parts := Split(rows[ref.row].spans[ref.index].address);
        assert parts == Parts(r0, ref);
        hits := MarkOne(ref, ids, parts, remove, add, r0, done, hits);
        HitsSnoc(r0, sel, ids, x);
        MatchedSnoc(r0, sel, ids, x);
        if Count(ids, parts) > 0 {
          assert Matched(r0, sel[..x + 1], ids) == done + {ref};
        } else {
          assert Matched(r0, sel[..x + 1], ids) == done;
        }
      }
      assert sel[..|sel|] == sel;
    }

    /** The loop over the ids for one selected span. */
    method MarkOne(ref: SpanRef, ids: seq<string>, parts: seq<string>, remove: set<string>, add: string,
                   ghost r0: seq<Row>, ghost done: set<SpanRef>, before: seq<SpanRef>) returns (hits: seq<SpanRef>)
      requires Valid() && add !in remove && ValidRef(r0, ref)
      requires rows == Retagged(r0, done, remove, add)
      modifies this
      ensures Valid() && shown == old(shown)
      ensures Count(ids, parts) > 0 ==> rows == Retagged(r0, done + {ref}, remove, add)
      ensures Count(ids, parts) == 0 ==> rows == old(rows)
      ensures hits == before + Copies(ref, Count(ids, parts))
    {
      hits := before;
      RetagStep(r0, done, ref, remove, add);
      RetagStep(r0, done + {ref}, ref, remove, add);
      assert done + {ref} + {ref} == done + {ref};
      for i := 0 to |ids|
        invariant Valid() && shown == old(shown)
        invariant Count(ids[..i], parts) > 0 ==> rows == Retagged(r0, done + {ref}, remove, add)
        invariant Count(ids[..i], parts) == 0 ==> rows == old(rows)
        invariant hits == before + Copies(ref, Count(ids[..i], parts))
      {
        CountSnoc(ids, parts, i);
        CopiesSnoc(ref, Count(ids[..i], parts));
        if ids[i] in parts {
          rows := RetagOne(rows, ref, remove, add);
          hits := hits + [ref];
        }
      }
      assert ids[..|ids|] == ids;
    }

    /** `closest('tr').each(showContext)` for each of the spans ps. */
    method ShowAround(ps: seq<SpanRef>)
      requires Valid() && forall i :: 0 <= i < |ps| ==> ps[i].row < |rows|
      modifies this
      ensures Valid() && rows == old(rows)
      ensures shown == ShownAll(old(shown), RowsOf(ps))
    {
      ghost var start := shown;
      for i := 0 to |ps|
        invariant Valid() && rows == old(rows)
        invariant shown == ShownAll(start, RowsOf(ps[..i]))
      {
        RowsOfSnoc(ps, i);
        ShownAllSnoc(start, RowsOf(ps[..i]), ps[i].row);
        ShowContext(ps[i].row);
      }
      assert ps[..|ps|] == ps;
    }

    /** `$('.' + c).addClass(mark)`. */
    method Mark(c: string, mark: string)
      requires Valid()
      modifies this
      ensures Valid() && rows == MarkAll(old(rows), c, mark) && shown == old(shown)
    {
      rows := MarkAll(rows, c, mark);
    }

    /** `$("tr:hidden").first()`: the first hidden row, or none. */
    method FirstHidden() returns (i: nat)
      requires Valid()
      ensures i <= |shown| && (i < |shown| ==> !shown[i])
      ensures forall k :: 0 <= k < i ==> shown[k]
    {
      i := 0;
      while i < |shown| && shown[i]
        invariant i <= |shown| && forall k :: 0 <= k < i ==> shown[k]
      {
        i := i + 1;
      }
    }

    /** addPlaceholders: from the first hidden row, a placeholder is put
      * before it, the hidden rows and then the shown rows after it are
      * skipped, and so on to the end of the table. */
    method AddPlaceholders()
      requires Valid()
      modifies this
      ensures Valid()
      ensures (rows, shown) == Placed(old(rows), old(shown))
    {
      ghost var r0, s0 := rows, shown;
      var i := FirstHidden();
      ghost var j := i;
      PartialStart(r0, s0, i);
      while i < |rows|
        invariant j <= |r0| && (rows, shown) == Partial(r0, s0, j, false)
        invariant i == At(r0, s0, j, false)
        invariant j < |r0| ==> RunStart(s0, j)
        decreases |r0| - j
      {
        PartialShape(r0, s0, j, false);
        InsertPlaceholder(i, r0, s0, j);
        i, j := SkipHidden(i + 1, r0, s0, j);
        i, j := SkipShown(i, r0, s0, j);
      }
      PartialEnd(r0, s0, j, rows, shown, i);
    }

    /** `current.before(placeholder)`: a shown placeholder before row i,
      * the first of a hidden run. */
    method InsertPlaceholder(i: nat, ghost r0: seq<Row>, ghost s0: seq<bool>, ghost j: nat)
      requires |r0| == |s0| && j < |r0|
      requires (rows, shown) == Partial(r0, s0, j, false) && i == At(r0, s0, j, false)
      modifies this
      ensures (rows, shown) == Partial(r0, s0, j, true)
    {
      PartialInsert(r0, s0, j);
      rows := rows[..i] + [Placeholder] + rows[i..];
      shown := shown[..i] + [true] + shown[i..];
    }

    /** `while (current.is(":hidden")) current = current.next()`, from the
      * first row of a hidden run, just after its placeholder. */
    method SkipHidden(i: nat, ghost r0: seq<Row>, ghost s0: seq<bool>, ghost j: nat) returns (i': nat, ghost j': nat)
      requires |r0| == |s0| && j < |r0| && RunStart(s0, j)
      requires (rows, shown) == Partial(r0, s0, j, true) && i == At(r0, s0, j, true)
      ensures j < j' <= |r0| && !s0[j' - 1] && (j' < |r0| ==> s0[j'])
      ensures (rows, shown) == Partial(r0, s0, j', false) && i' == At(r0, s0, j', false)
    {
      i', j' := i, j;
      while i' < |rows| && !shown[i']
        invariant j <= j' <= |r0| && (rows, shown) == Partial(r0, s0, j', j' == j)
        invariant i' == At(r0, s0, j', j' == j)
        invariant j' > j ==> !s0[j' - 1]
        decreases |r0| - j'
      {
        HiddenStep(r0, s0, j, j', j' == j, rows, shown, i');
        i', j' := i' + 1, j' + 1;
      }
      HiddenExit(r0, s0, j, j', j' == j, rows, shown, i');
    }

    /** `while (current.is(":visible")) current = current.next()`: to the
      * first row of the next hidden run, or past the end. */
    method SkipShown(i: nat, ghost r0: seq<Row>, ghost s0: seq<bool>, ghost j: nat) returns (i': nat, ghost j': nat)
      requires |r0| == |s0| && 0 < j <= |r0| && !s0[j - 1] && (j < |r0| ==> s0[j])
      requires (rows, shown) == Partial(r0, s0, j, false) && i == At(r0, s0, j, false)
      ensures j <= j' <= |r0| && (j' < |r0| ==> RunStart(s0, j'))
      ensures (rows, shown) == Partial(r0, s0, j', false) && i' == At(r0, s0, j', false)
    {
      i', j' := i, j;
      while i' < |rows| && shown[i']
        invariant j <= j' <= |r0| && (rows, shown) == Partial(r0, s0, j', false)
        invariant i' == At(r0, s0, j', false)
        invariant j' < |r0| && !s0[j'] ==> s0[j' - 1]
        decreases |r0| - j'
      {
        ShownStep(r0, s0, j', rows, shown, i');
        i', j' := i' + 1, j' + 1;
      }
      ShownExit(r0, s0, j', rows, shown, i');
    }

    /** gotoDef: erase and unslice; find the clicked span's ids and mark the
      * span as a use; mark the definitions that share an id; then scroll
      * to the first of them when they all have the same ids, or slice the
      * table to them and the clicked span. */
    method GotoDef(t: Option<SpanRef>, def: string, use: string) returns (r: Result<Outcome>)
      requires Valid() && (t.Some? ==> ValidRef(rows, t.value))
      modifies this
      ensures Valid()
      ensures GotoState(r, rows, shown) == GotoDefResult(old(rows), t, def, use)
    {
      ghost var r0 := rows;
      Erase();
      if t.Some? {
        ErasedRef(r0, t.value);
      }
      var target := Moved(rows, t);
      Unslice();
      var ids := GetIDs(target, def, use);
      IdsAreElementAddress(rows, target, def, use);
      if ids.None? {
        return Ok(Done);
      }
      var e := GetSpanElement(target, def, use);
      r := GotoDefAt(e.value, ids.value, def);
    }

    /** gotoDef once the span e and its ids are found. */
    method GotoDefAt(e: SpanRef, ids: seq<string>, def: string) returns (r: Result<Outcome>)
      requires Valid() && ValidRef(rows, e) && ids == Split(SpanAt(rows, e).address)
      requires forall k :: 0 <= k < |shown| ==> shown[k]
      modifies this
      ensures Valid()
      ensures GotoState(r, rows, shown) == GotoDefFrom(old(rows), e, def)
    {
      rows := RetagOne(rows, e, {}, USE);
      ghost var m := rows;
      SelectValid(rows, def);
      var hits := MarkMatches(Select(rows, def), ids, {USE}, DEFINITION);
      RetaggedFacts(m, Matched(m, Select(m, def), ids), {USE}, DEFINITION);
      assert hits == Found(m, def, ids);
      r := Conclude(hits, e.row);
    }

    /** checkIDs over the collected definitions, then the scroll or the
      * slice. */
    method Conclude(hits: seq<SpanRef>, row: nat) returns (r: Result<Outcome>)
      requires Valid() && row < |rows| && forall i :: 0 <= i < |hits| ==> ValidRef(rows, hits[i])
      requires forall k :: 0 <= k < |shown| ==> shown[k]
      modifies this
      ensures Valid()
      ensures GotoState(r, rows, shown) == Concluded(old(rows), hits, row)
    {
      var same := CheckIDs(Some(Addresses(rows, hits)));
      if same {
        assert shown == AllShown(|rows|);
        if |hits| == 0 {
          return Err(Thrown("TypeError"));
        }
        return Ok(ScrollTo(hits[0]));
      }
      HideRows();
      assert shown == AllHidden(|rows|);
      ShowContext(row);
      ShowAround(hits);
      AddPlaceholders();
      r := Ok(Sliced);
    }

    /** defUse: see DefUseResult. */
    method DefUse(element: Option<SpanRef>, def: string, use: string, slice: bool)
      requires Valid() && (element.Some? ==> ValidRef(rows, element.value))
      modifies this
      ensures Valid() && (rows, shown) == DefUseResult(old(rows), old(shown), element, def, use, slice)
    {
      if element.None? {
        return;
      }
      // the data-address attribute, which erase and unslice leave as it is
      var address := rows[element.value.row].spans[element.value.index].address;
      Erase();
      if slice {
        Unslice();
        HideRows();
        assert shown == AllHidden(|rows|);
      }
      if address == "" {
        return;
      }
      DefUseMark(Split(address), def, use, slice);
    }

    /** The two marking passes of defUse and, when slicing, the
      * placeholders. */
    method DefUseMark(ids: seq<string>, def: string, use: string, slice: bool)
      requires Valid()
      modifies this
      ensures Valid() && (rows, shown) == DefUseMarks(old(rows), old(shown), ids, def, use, slice)
    {
      MarkAndShow(def, ids, DEFINITION, slice);
      MarkAndShow(use, ids, USE, slice);
      if slice {
        AddPlaceholders();
      }
    }

    /** `$("span." + role).each(...)` in defUse: every span with the role
      * sharing an id gains the class add and, when slicing, has its
      * context shown. */
    method MarkAndShow(role: string, ids: seq<string>, add: string, slice: bool)
      requires Valid()
      modifies this
      ensures Valid() && rows == Tagged(old(rows), role, ids, {}, add)
      ensures shown == if slice then ShownAll(old(shown), RowsOf(Found(old(rows), role, ids))) else old(shown)
    {
      ghost var a := rows;
      SelectValid(rows, role);
      var hits := MarkMatches(Select(rows, role), ids, {}, add);
      assert hits == Found(a, role, ids);
      if slice {
        ShowAround(hits);
      }
    }

    /** findUses: defUse, slicing, from the nearest span around the click
      * with one of the two roles. */
    method FindUses(t: Option<SpanRef>, def: string, use: string)
      requires Valid() && (t.Some? ==> ValidRef(rows, t.value))
      modifies this
      ensures Valid() && (rows, shown) == DefUseResult(old(rows), old(shown), ElementAt(old(rows), t, def, use), def, use, true)
    {
      var element := GetSpanElement(t, def, use);
      DefUse(element, def, use, true);
    }

    /** all: see AllResult. */
    method All(def: string, use: string)
      requires Valid()
      modifies this
      ensures Valid() && (rows, shown) == AllResult(old(rows), def, use)
    {
      Erase();
      Unslice();
      HideRows();
      assert shown == AllHidden(|rows|);
      Mark(def, CRITERION);
      Reveal(WithClass(def));
      Mark(use, DEPENDENCY);
      Reveal(WithClass(use));
      AddPlaceholders();
    }

    /** sliLine: see SliLineResult. */
    method SliLine()
      requires Valid()
      modifies this
      ensures Valid() && (rows, shown) == SliLineResult(old(rows))
    {
      Erase();
      Unslice();
      HideRows();
      assert shown == AllHidden(|rows|);
      Reveal(InsertCell);
      Reveal(DeleteCell);
      AddPlaceholders();
    }

    /** switchMenuSelection: runs the command of the key on the clicked
      * span t (used by gotoDef and findUses); an unknown key changes
      * nothing. */
    method SwitchMenuSelection(key: string, t: Option<SpanRef>) returns (r: Result<Outcome>)
      requires Valid() && (t.Some? ==> ValidRef(rows, t.value))
      modifies this
      ensures Valid()
      ensures KeyCommand(key).None? ==> r == Ok(Done) && rows == old(rows) && shown == old(shown)
      ensures KeyCommand(key).Some? && KeyCommand(key).value.GotoDefinition? ==>
        GotoState(r, rows, shown) == GotoDefResult(old(rows), t, KeyCommand(key).value.def, KeyCommand(key).value.use)
      ensures KeyCommand(key).Some? && !KeyCommand(key).value.GotoDefinition? ==>
        (r == Ok(Done) &&
         (rows, shown) == match KeyCommand(key).value
           case AllRoles(d, u) => AllResult(old(rows), d, u)
           case FindUsesOf(d, u) => DefUseResult(old(rows), old(shown), ElementAt(old(rows), t, d, u), d, u, true)
           case SliceLines => SliLineResult(old(rows))
           case EraseMarks => (Erased(old(rows)), old(shown))
           case UnsliceRows => (Lines(old(rows)), AllShown(|Lines(old(rows))|))
           case GotoDefinition(_, _) => (old(rows), old(shown)))
    {
      r := Ok(Done);
      var command := KeyCommand(key);
      if command.None? {
        return;
      }
      match command.value
      case AllRoles(d, u) =>
        All(d, u);
      case GotoDefinition(d, u) =>
        r := GotoDef(t, d, u);
      case FindUsesOf(d, u) =>
        FindUses(t, d, u);
      case SliceLines =>
        SliLine();
      case EraseMarks =>
        Erase();
      case UnsliceRows =>
        Unslice();
        assert shown == AllShown(|rows|);
    }
  }
}
