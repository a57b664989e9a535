// The fact bases that collect annotations for one changed source file, each
// keeping its annotations in a set sorted by the annotation comparator.

module FactBases {
  import opened Wrappers
  import opened JavaInts
  import opened Annotations

  /** A TreeSet of annotations ordered by the annotation comparator:
    * annotations the comparator identifies are stored once, and the first
    * one added is the one kept. */
  class SortedAnnotations {
    var items: seq<Annotation>

    predicate Valid()
      reads this
    {
      Sorted(items)
    }

    constructor()
      ensures Valid() && items == []
    {
      items := [];
    }

    /** TreeSet.add: a new annotation goes to its place in the order; one
      * the comparator identifies with a stored annotation is dropped. */
    method Add(a: Annotation)
      requires Valid()
      modifies this
      ensures Valid()
      ensures Represented(old(items), a) ==> items == old(items)
      ensures !Represented(old(items), a) ==> forall x :: x in items <==> x in old(items) || x == a
      ensures |items| == |old(items)| + (if Represented(old(items), a) then 0 else 1)
    {
      var i := 0;
      while i < |items| && Less(items[i], a)
        invariant 0 <= i <= |items|
        invariant forall j :: 0 <= j < i ==> Less(items[j], a)
      {
        i := i + 1;
      }
      if i < |items| && Compare(items[i], a) == 0 {
        return;
      }
      if i < |items| {
        CompareAntisymmetric(items[i], a);
      }
      NotRepresentedBetween(items, i, a);
      InsertKeepsSorted(items, i, a);
      assert items == items[..i] + items[i..];
      items := items[..i] + [a] + items[i..];
    }

    /** TreeSet.addAll: every annotation of the set is added. */
    method AddAll(s: set<Annotation>)
      requires Valid()
      modifies this
      ensures Valid()
      ensures forall a :: a in s ==> Represented(items, a)
      ensures forall x :: x in old(items) ==> x in items
      ensures forall x :: x in items ==> x in old(items) || x in s
    {
      var rest := s;
      ghost var before := items;
      while rest != {}
        invariant Valid()
        invariant rest <= s
        invariant forall a :: a in s - rest ==> Represented(items, a)
        invariant forall x :: x in before ==> x in items
        invariant forall x :: x in items ==> x in before || x in s
        decreases rest
      {
        var a :| a in rest;
        ghost var prev := items;
        Add(a);
        forall b | b in s - (rest - {a})
          ensures Represented(items, b)
        {
          if b != a || Represented(prev, a) {
            assert b != a ==> b in s - rest;
            assert Represented(prev, b);
            var k :| 0 <= k < |prev| && Compare(prev[k], b) == 0;
            assert prev[k] in items;
            var m :| 0 <= m < |items| && items[m] == prev[k];
          } else {
            assert a in items;
            var m :| 0 <= m < |items| && items[m] == a;
            CompareZero(a, a);
          }
        }
        rest := rest - {a};
      }
    }

    function IsEmpty(): (r: bool)
      reads this
      ensures r <==> |items| == 0
    {
      items == []
    }

    /** first() followed by remove(): the least annotation is taken out;
      * an empty set has no first element. */
    method Pop() returns (r: Result<Annotation>)
      requires Valid()
      modifies this
      ensures Valid()
      ensures r.Err? <==> old(items) == []
      ensures r.Err? ==> r.error == NoSuchElement && items == old(items)
      ensures r.Ok? ==> r.value == old(items)[0] && items == old(items)[1..]
      ensures r.Ok? ==> forall x :: x in items ==> Less(r.value, x)
    {
      if items == [] {
        return Err(NoSuchElement);
      }
      r := Ok(items[0]);
      items := items[1..];
    }
  }

  /** The id that tells changed source files apart (their equals compares
    * only this id). */
  type FileChangeId = int

  /** An annotation fact base: the sorted annotations of one changed
    * file. */
  class AnnotationFactBase {
    const fileChange: FileChangeId
    const annotations: SortedAnnotations

    predicate Valid()
      reads this, annotations
    {
      annotations.Valid()
    }

    constructor(fileChange: FileChangeId)
      ensures Valid() && fresh(annotations)
      ensures this.fileChange == fileChange && annotations.items == []
    {
      this.fileChange := fileChange;
      annotations := new SortedAnnotations();
    }

    /** AnnotationFactBase.registerAnnotationFact. */
    method Register(a: Annotation)
      requires Valid()
      modifies annotations
      ensures Valid()
      ensures Represented(old(annotations.items), a) ==> annotations.items == old(annotations.items)
      ensures !Represented(old(annotations.items), a) ==>
        forall x :: x in annotations.items <==> x in old(annotations.items) || x == a
    {
      annotations.Add(a);
    }

    /** AnnotationFactBase.registerAnnotationFacts. */
    method RegisterAll(s: set<Annotation>)
      requires Valid()
      modifies annotations
      ensures Valid()
      ensures forall a :: a in s ==> Represented(annotations.items, a)
      ensures forall x :: x in old(annotations.items) ==> x in annotations.items
      ensures forall x :: x in annotations.items ==> x in old(annotations.items) || x in s
    {
      annotations.AddAll(s);
    }

    /** AnnotationFactBase.isEmpty. */
    function IsEmpty(): (r: bool)
      reads this, annotations
      ensures r <==> annotations.items == []
    {
      annotations.IsEmpty()
    }

    /** AnnotationFactBase.pop: the annotation that comes first in the
      * file, removed from the fact base. */
    method Pop() returns (r: Result<Annotation>)
      requires Valid()
      modifies annotations
      ensures Valid()
      ensures r.Err? <==> old(annotations.items) == []
      ensures r.Err? ==> r.error == NoSuchElement
      ensures r.Ok? ==> r.value == old(annotations.items)[0] && annotations.items == old(annotations.items)[1..]
      ensures r.Ok? ==> forall x :: x in annotations.items ==> Less(r.value, x)
    {
      r := annotations.Pop();
    }
  }

  /** The static map from changed files to their annotation fact bases. */
  class AnnotationFactBases {
    var instances: map<FileChangeId, AnnotationFactBase>

    /** Every registered fact base belongs to the file it is registered
      * under and keeps its annotations sorted. */
    predicate Valid()
      reads this, set k | k in instances :: instances[k],
        set k | k in instances :: instances[k].annotations
    {
      forall k :: k in instances ==> instances[k].fileChange == k && instances[k].Valid()
    }

    constructor()
      ensures Valid() && instances == map[]
    {
      instances := map[];
    }

    /** AnnotationFactBase.getInstance: the fact base registered for the
      * file, or a new empty one, which is registered. */
    method GetInstance(fc: FileChangeId) returns (fb: AnnotationFactBase)
      requires Valid()
      modifies this
      ensures Valid() && fb.Valid() && fb.fileChange == fc
      ensures fc in old(instances) ==> fb == old(instances)[fc] && instances == old(instances)
      ensures fc !in old(instances) ==>
        fresh(fb) && fresh(fb.annotations) && fb.annotations.items == []
        && instances == old(instances)[fc := fb]
    {
      if fc in instances {
        return instances[fc];
      }
      fb := new AnnotationFactBase(fc);
      instances := instances[fc := fb];
    }

    /** AnnotationFactBase.removeInstance. */
    method RemoveInstance(fc: FileChangeId)
      requires Valid()
      modifies this
      ensures Valid()
      ensures instances == old(instances) - {fc}
    {
      instances := instances - {fc};
    }
  }

  /** Asking twice for the same file gives the same fact base. */
  method SameInstanceTwice(bases: AnnotationFactBases, fc: FileChangeId)
      returns (first: AnnotationFactBase, second: AnnotationFactBase)
    requires bases.Valid()
    modifies bases
    ensures bases.Valid()
    ensures first == second && first.fileChange == fc
    ensures fc in bases.instances && bases.instances[fc] == first
  {
    first := bases.GetInstance(fc);
    second := bases.GetInstance(fc);
  }

  /** A Java Integer incremented with ++: it wraps at 2^31 - 1. */
  function Increment(x: int): (r: int)
    requires IsInt32(x)
    ensures IsInt32(r)
    ensures x < INT_MAX ==> r == x + 1
    ensures x == INT_MAX ==> r == INT_MIN
  {
    ToInt32(x + 1)
  }

  /** A mining fact base: counters of modified statements and the sorted
    * annotations of one changed file. */
  class MiningFactBase {
    const fileChange: FileChangeId
    var insertedStatements: int
    var removedStatements: int
    var updatedStatements: int
    const annotations: SortedAnnotations

    predicate Valid()
      reads this, annotations
    {
      annotations.Valid() && IsInt32(insertedStatements) && IsInt32(removedStatements) && IsInt32(updatedStatements)
    }

    /** The counters start at zero, with no annotations. */
    constructor(fileChange: FileChangeId)
      ensures Valid() && fresh(annotations) && this.fileChange == fileChange
      ensures insertedStatements == 0 && removedStatements == 0 && updatedStatements == 0
      ensures annotations.items == []
    {
      this.fileChange := fileChange;
      insertedStatements := 0;
      removedStatements := 0;
      updatedStatements := 0;
      annotations := new SortedAnnotations();
    }

    method IncrementInsertedStatements()
      requires Valid()
      modifies this
      ensures Valid()
      ensures insertedStatements == Increment(old(insertedStatements))
      ensures removedStatements == old(removedStatements) && updatedStatements == old(updatedStatements)
    {
      insertedStatements := Increment(insertedStatements);
    }

    method IncrementRemovedStatements()
      requires Valid()
      modifies this
      ensures Valid()
      ensures removedStatements == Increment(old(removedStatements))
      ensures insertedStatements == old(insertedStatements) && updatedStatements == old(updatedStatements)
    {
      removedStatements := Increment(removedStatements);
    }

    method IncrementUpdatedStatements()
      requires Valid()
      modifies this
      ensures Valid()
      ensures updatedStatements == Increment(old(updatedStatements))
      ensures insertedStatements == old(insertedStatements) && removedStatements == old(removedStatements)
    {
      updatedStatements := Increment(updatedStatements);
    }

    function GetInsertedStatements(): (n: int)
      reads this
      ensures n == insertedStatements
    {
      insertedStatements
    }

    function GetRemovedStatements(): (n: int)
      reads this
      ensures n == removedStatements
    {
      removedStatements
    }

    /** getUpdatedStatements as written: it returns the inserted count. */
    function GetUpdatedStatementsAsWritten(): (n: int)
      reads this
      ensures n == insertedStatements
    {
      insertedStatements
    }

    /** getUpdatedStatements as evidently intended: the updated count. */
    function GetUpdatedStatements(): (n: int)
      reads this
      ensures n == updatedStatements
    {
      updatedStatements
    }

    /** MiningFactBase.registerAnnotationFact. */
    method Register(a: Annotation)
      requires Valid()
      modifies annotations
      ensures Valid()
      ensures Represented(old(annotations.items), a) ==> annotations.items == old(annotations.items)
      ensures !Represented(old(annotations.items), a) ==>
        forall x :: x in annotations.items <==> x in old(annotations.items) || x == a
    {
      annotations.Add(a);
    }

    /** MiningFactBase.registerAnnotationFacts. */
    method RegisterAll(s: set<Annotation>)
      requires Valid()
      modifies annotations
      ensures Valid()
      ensures forall a :: a in s ==> Represented(annotations.items, a)
      ensures forall x :: x in old(annotations.items) ==> x in annotations.items
      ensures forall x :: x in annotations.items ==> x in old(annotations.items) || x in s
    {
      annotations.AddAll(s);
    }

    function IsEmpty(): (r: bool)
      reads this, annotations
      ensures r <==> annotations.items == []
    {
      annotations.IsEmpty()
    }
  }

  /** One updated statement and none inserted: the getter as written
    * reports 0 updated statements, the corrected one 1. */
  method UpdatedCountAsWritten() returns (asWritten: int, corrected: int)
    ensures asWritten == 0 && corrected == 1
  {
    var fb := new MiningFactBase(0);
    fb.IncrementUpdatedStatements();
    asWritten := fb.GetUpdatedStatementsAsWritten();
    corrected := fb.GetUpdatedStatements();
  }

  /** The static map from changed files to their mining fact bases. */
  class MiningFactBases {
    var instances: map<FileChangeId, MiningFactBase>

    /** Every registered fact base belongs to the file it is registered
      * under, keeps its annotations sorted and its counters within the
      * Java Integer range. */
    predicate Valid()
      reads this, set k | k in instances :: instances[k],
        set k | k in instances :: instances[k].annotations
    {
      forall k :: k in instances ==> instances[k].fileChange == k && instances[k].Valid()
    }

    constructor()
      ensures Valid() && instances == map[]
    {
      instances := map[];
    }

    /** MiningFactBase.getInstance. */
    method GetInstance(fc: FileChangeId) returns (fb: MiningFactBase)
      requires Valid()
      modifies this
      ensures Valid() && fb.Valid() && fb.fileChange == fc
      ensures fc in old(instances) ==> fb == old(instances)[fc] && instances == old(instances)
      ensures fc !in old(instances) ==>
        fresh(fb) && fresh(fb.annotations) && fb.annotations.items == []
        && fb.insertedStatements == 0 && fb.removedStatements == 0 && fb.updatedStatements == 0
        && instances == old(instances)[fc := fb]
    {
      if fc in instances {
        return instances[fc];
      }
      fb := new MiningFactBase(fc);
      instances := instances[fc := fb];
    }

    /** MiningFactBase.removeInstance. */
    method RemoveInstance(fc: FileChangeId)
      requires Valid()
      modifies this
      ensures Valid()
      ensures instances == old(instances) - {fc}
    {
      instances := instances - {fc};
    }
  }
}
