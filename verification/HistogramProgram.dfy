/**
  The aggregate EHSimpleCount as a program over its two tables, statement by statement.

  Each SQL statement of the generated code is a method whose loops scan the table as the
  cursors do; rows inserted by a query are collected first and appended afterwards.
 */
module HistogramProgram {
  import opened Buckets
  import opened Histogram
  import opened HistogramBound
  import opened HistogramOrder

  /** No row occurs twice. */
  ghost predicate RowsDiffer(eh: seq<Bucket>) {
    forall i, j {:trigger eh[i], eh[j]} | 0 <= i < j < |eh| :: eh[i] != eh[j]
  }

  ghost function RowsOf(eh: seq<Bucket>): set<Bucket> {
    set b | b in eh
  }

  lemma {:induction false} RowsOfPrefix(eh: seq<Bucket>, i: nat)
    requires RowsDiffer(eh) && i < |eh|
    ensures eh[i] !in RowsOf(eh[..i])
    ensures RowsOf(eh[..i + 1]) == RowsOf(eh[..i]) + {eh[i]}
  {
    assert eh[..i + 1] == eh[..i] + [eh[i]];
  }

  lemma {:induction false} RowsOfRemove(eh: seq<Bucket>, i: nat)
    requires RowsDiffer(eh) && i < |eh|
    ensures RowsOf(eh[..i] + eh[i + 1..]) == RowsOf(eh) - {eh[i]}
    ensures RowsDiffer(eh[..i] + eh[i + 1..])
  {
    var r := eh[..i] + eh[i + 1..];
    forall x | x in RowsOf(eh) - {eh[i]} ensures x in r {
      var j :| 0 <= j < |eh| && eh[j] == x;
      assert x == if j < i then r[j] else r[j - 1];
    }
    forall x | x in r ensures x in eh && x != eh[i] {
      var j :| 0 <= j < |r| && r[j] == x;
      assert x == if j < i then eh[j] else eh[j + 1];
    }
  }

  /** Condition of the DELETE after a merge: a larger row shares an end with this one. */
  predicate Subsumes(y: Bucket, x: Bucket) {
    x.ones < y.ones && (x.tsFirst == y.tsFirst || x.tsLast == y.tsLast)
  }

  /** The subsumed rows are those in `gone`, each because of a row that stays. */
  ghost predicate Deletes(rows: set<Bucket>, gone: set<Bucket>) {
    && (forall x, y | x in rows && y in rows && Subsumes(y, x) :: x in gone)
    && (forall x | x in gone :: exists y :: y in rows && y !in gone && Subsumes(y, x))
  }

  /** What one ITERATE call returns: a value, or the exit taken when the scalar subquery finds no row. */
  datatype Emission = Value(estimate: int) | NoTuple

  class EHSimpleCount {
    const k: int
    const w: int
    var eh: seq<Bucket>
    var maxID: int

    ghost function Rows(): set<Bucket>
      reads this
    {
      RowsOf(eh)
    }

    ghost function Meaning(): State
      reads this
    {
      State(Rows(), maxID)
    }

    ghost predicate Valid()
      reads this
    {
      RowsDiffer(eh) && Good(Meaning())
    }

    constructor (k: int, w: int, next: int)
      ensures this.k == k && this.w == w
      ensures Valid() && Meaning() == Initial(next)
    {
      this.k, this.w := k, w;
      maxID := 0;
      eh := if next == 1 then [Fresh(0)] else [];
    }

    method CountSize(size: int) returns (n: int)
      requires RowsDiffer(eh)
      ensures n == Count(Rows(), size)
    {
      n := 0;
      for i := 0 to |eh|
        invariant n == Count(RowsOf(eh[..i]), size)
      {
        RowsOfPrefix(eh, i);
        SumAdd(RowsOf(eh[..i]), eh[i], SizeIs(size));
        if eh[i].ones == size {
          n := n + 1;
        }
      }
      assert eh[..|eh|] == eh;
    }

    method NoneOlder(b: Bucket) returns (none: bool)
      ensures none <==> forall c {:trigger c in Rows()} | c in Rows() :: !(c.tsFirst <= b.tsLast && c.ones == b.ones)
    {
      for i := 0 to |eh|
        invariant forall j | 0 <= j < i :: !(eh[j].tsFirst <= b.tsLast && eh[j].ones == b.ones)
      {
        if eh[i].tsFirst <= b.tsLast && eh[i].ones == b.ones {
          assert eh[i] in Rows();
          return false;
        }
      }
      none := true;
    }

    /** The WHERE clause of the merge query for the rows under the two cursors. */
    method Qualifies(i: nat, j: nat, size: int, threshold: int) returns (ok: bool)
      requires RowsDiffer(eh) && i < |eh| && j < |eh|
      ensures ok <==> Mergeable(Rows(), size, threshold, eh[i], eh[j])
    {
      var count := CountSize(size);
      var none := NoneOlder(eh[j]);
      ok := count > threshold && eh[i].tsLast == eh[j].tsFirst && eh[i].ones == eh[j].ones && eh[i].ones == size && none;
    }

    /** The merge query: the rows it would insert, at most one. */
    method SelectMerges(size: int, threshold: int) returns (temp: seq<Bucket>)
      requires RowsDiffer(eh) && Shape(Rows())
      ensures temp == [] <==> !CanMerge(Rows(), size, threshold)
      ensures temp != [] ==> exists a, b :: Mergeable(Rows(), size, threshold, a, b) && temp == [Joined(a, b)]
    {
      temp := [];
      ghost var p, q := 0, 0;
      for i := 0 to |eh|
        invariant temp == [] ==> forall i', j' | 0 <= i' < i && 0 <= j' < |eh| :: !Mergeable(Rows(), size, threshold, eh[i'], eh[j'])
        invariant temp != [] ==>
                    && 0 <= p < i && 0 <= q < |eh|
                    && Mergeable(Rows(), size, threshold, eh[p], eh[q]) && temp == [Joined(eh[p], eh[q])]
      {
        for j := 0 to |eh|
          invariant temp == [] ==> forall i', j' | 0 <= i' < i && 0 <= j' < |eh| :: !Mergeable(Rows(), size, threshold, eh[i'], eh[j'])
          invariant temp == [] ==> forall j' | 0 <= j' < j :: !Mergeable(Rows(), size, threshold, eh[i], eh[j'])
          invariant temp != [] ==>
                      && 0 <= p <= i && 0 <= q < |eh| && (p < i || q < j)
                      && Mergeable(Rows(), size, threshold, eh[p], eh[q]) && temp == [Joined(eh[p], eh[q])]
        {
          var ok := Qualifies(i, j, size, threshold);
          if ok {
            OnlyOnePair(eh, size, threshold, i, j, p, q);
            temp := temp + [Joined(eh[i], eh[j])];
            p, q := i, j;
          }
        }
      }
      if temp == [] {
        NoPairNoMerge(eh, size, threshold);
      }
    }

    method Subsumed(x: Bucket) returns (found: bool)
      ensures found <==> exists y :: y in Rows() && Subsumes(y, x)
    {
      for i := 0 to |eh|
        invariant forall j | 0 <= j < i :: !Subsumes(eh[j], x)
      {
        if Subsumes(eh[i], x) {
          assert eh[i] in Rows();
          return true;
        }
      }
      found := false;
    }

    /** DELETE of the subsumed rows, in place: the condition is evaluated on the table as it shrinks. */
    method DeleteSubsumed(ghost gone: set<Bucket>)
      requires RowsDiffer(eh) && Deletes(Rows(), gone)
      modifies this`eh
      ensures RowsDiffer(eh) && Rows() == old(Rows()) - gone
    {
      var i := 0;
      while i < |eh|
        invariant 0 <= i <= |eh| && RowsDiffer(eh)
        invariant old(Rows()) - gone <= Rows() <= old(Rows())
        invariant forall j | 0 <= j < i :: eh[j] !in gone
        decreases |eh| - i
      {
        var found := Subsumed(eh[i]);
        if found {
          RowsOfRemove(eh, i);
          eh := eh[..i] + eh[i + 1..];
        } else {
          i := i + 1;
        }
      }
    }

    /** A merge query for one size, mvTemp and the DELETE. */
    method MergeSize(size: int, threshold: int)
      requires RowsDiffer(eh) && Shape(Rows())
      modifies this`eh
      ensures RowsDiffer(eh) && Rows() == Merge(old(Rows()), size, threshold)
    {
      var temp := SelectMerges(size, threshold);
      ghost var gone := MergePlan(eh, size, threshold, temp);
      eh := eh + temp;
      DeleteSubsumed(gone);
    }

    /** mergeAggr: one merge at this size, then the same at twice the size if there is a pair to merge. */
    method MergeAggr(size: int)
      requires RowsDiffer(eh) && Shape(Rows()) && size >= 1
      modifies this`eh
      ensures RowsDiffer(eh) && Rows() == Cascade(old(Rows()), size, k)
      decreases if Total(Rows()) > size then Total(Rows()) - size else 0
    {
      MergeKeeps(Rows(), size, Half(k) + 1);
      MergeSize(size, Half(k) + 1);
      var temp := SelectMerges(2 * size, Half(k) + 1);
      if temp != [] {
        MergeableBoundsTotal(Rows(), 2 * size, Half(k) + 1);
        MergeAggr(2 * size);
      }
    }

    /** DELETE FROM EH WHERE TSFirst + W < maxID, in place. */
    method DeleteExpired()
      requires RowsDiffer(eh)
      modifies this`eh
      ensures RowsDiffer(eh) && Rows() == Expire(old(Rows()), w, maxID)
    {
      var i := 0;
      while i < |eh|
        invariant 0 <= i <= |eh| && RowsDiffer(eh)
        invariant Expire(old(Rows()), w, maxID) <= Rows() <= old(Rows())
        invariant forall j | 0 <= j < i :: !(eh[j].tsFirst + w < maxID)
        decreases |eh| - i
      {
        if eh[i].tsFirst + w < maxID {
          RowsOfRemove(eh, i);
          eh := eh[..i] + eh[i + 1..];
        } else {
          i := i + 1;
        }
      }
    }

    /** The emitted value; an empty table makes the scalar subquery fail and the program exit. */
    method Emit() returns (r: Emission)
      requires RowsDiffer(eh) && Shape(Rows())
      ensures r.NoTuple? <==> eh == []
      ensures forall o | IsOldest(Rows(), o) :: r == Value(Estimate(Rows(), o))
    {
      var sum := 0;
      for i := 0 to |eh|
        invariant sum == Total(RowsOf(eh[..i]))
      {
        RowsOfPrefix(eh, i);
        SumAdd(RowsOf(eh[..i]), eh[i], Ones);
        sum := sum + eh[i].ones;
      }
      assert eh[..|eh|] == eh;
      if eh == [] {
        return NoTuple;
      }
      var oldest := eh[0];
      for i := 0 to |eh|
        invariant oldest in eh
        invariant forall j | 0 <= j < i :: oldest.tsFirst <= eh[j].tsFirst
      {
        if eh[i].tsFirst < oldest.tsFirst {
          oldest := eh[i];
        }
      }
      forall o | IsOldest(Rows(), o) ensures o == oldest {
        assert IsOldest(Rows(), oldest);
        OldestUnique(Rows(), o, oldest);
      }
      r := Value(sum - Half(oldest.ones));
    }

    /** One ITERATE call. */
    method Iterate(next: int) returns (r: Emission)
      requires Valid()
      modifies this
      ensures Valid() && Meaning() == Step(old(Meaning()), k, w, next)
      ensures r.NoTuple? <==> Rows() == {}
      ensures forall o | IsOldest(Rows(), o) :: r == Value(Estimate(Rows(), o))
    {
      ghost var before := Rows();
      maxID := maxID + 1;
      if next == 1 {
        InsertKeeps(before, maxID);
        eh := eh + [Fresh(maxID)];
        assert Rows() == before + {Fresh(maxID)};
        MergeKeeps(Rows(), 1, k + 1);
        MergeSize(1, k + 1);
        MergeAggr(2);
      }
      UpdatedKeeps(old(Meaning()), k, next);
      DeleteExpired();
      assert Meaning() == Step(old(Meaning()), k, w, next);
      r := Emit();
      assert eh != [] ==> eh[0] in Rows();
    }
  }

  lemma {:induction false} NoPairNoMerge(eh: seq<Bucket>, size: int, threshold: int)
    requires forall i, j | 0 <= i < |eh| && 0 <= j < |eh| :: !Mergeable(RowsOf(eh), size, threshold, eh[i], eh[j])
    ensures !CanMerge(RowsOf(eh), size, threshold)
  {
    forall a, b ensures !Mergeable(RowsOf(eh), size, threshold, a, b) {
      if a in eh && b in eh {
        var i, j :| 0 <= i < |eh| && 0 <= j < |eh| && eh[i] == a && eh[j] == b;
      }
    }
  }

  lemma {:induction false} OnlyOnePair(eh: seq<Bucket>, size: int, threshold: int, i: nat, j: nat, p: int, q: int)
    requires RowsDiffer(eh) && Shape(RowsOf(eh)) && i < |eh| && j < |eh|
    requires Mergeable(RowsOf(eh), size, threshold, eh[i], eh[j])
    ensures 0 <= p < |eh| && 0 <= q < |eh| && Mergeable(RowsOf(eh), size, threshold, eh[p], eh[q]) ==> p == i && q == j
  {
    if 0 <= p < |eh| && 0 <= q < |eh| && Mergeable(RowsOf(eh), size, threshold, eh[p], eh[q]) {
      MergeableUnique(RowsOf(eh), size, threshold, eh[i], eh[j], eh[p], eh[q]);
    }
  }

  lemma {:induction false} RowsOfAppend(eh: seq<Bucket>, m: Bucket)
    requires RowsDiffer(eh) && m !in eh
    ensures RowsDiffer(eh + [m]) && RowsOf(eh + [m]) == RowsOf(eh) + {m}
  {
  }

  lemma {:induction false} NoneSubsumed(rows: set<Bucket>)
    requires Shape(rows)
    ensures Deletes(rows, {})
  {
    forall x, y | x in rows && y in rows ensures !Subsumes(y, x) {
      assert x == y || Apart(x, y);
    }
  }

  lemma {:induction false} OnlyMergedSubsumed(rows: set<Bucket>, a: Bucket, b: Bucket)
    requires Shape(rows) && a in rows && b in rows && a.tsLast == b.tsFirst
    ensures Deletes(rows + {Joined(a, b)}, {a, b})
  {
    var m := Joined(a, b);
    assert m != a && m != b && m in rows + {m} && Subsumes(m, a) && Subsumes(m, b);
    NoneSubsumed(rows);
    forall x, y | x in rows + {m} && y in rows + {m} ensures Subsumes(y, x) ==> x in {a, b} {
      assert x == m || x == a || Apart(x, a);
      assert x == m || x == b || Apart(x, b);
      assert y == m || y == a || Apart(y, a);
      assert y == m || y == b || Apart(y, b);
    }
  }

  /** What the DELETE after the merge query removes: the two merged rows, or nothing. */
  lemma {:induction false} MergePlan(eh: seq<Bucket>, size: int, threshold: int, temp: seq<Bucket>) returns (gone: set<Bucket>)
    requires RowsDiffer(eh) && Shape(RowsOf(eh))
    requires temp == [] <==> !CanMerge(RowsOf(eh), size, threshold)
    requires temp != [] ==> exists a, b :: Mergeable(RowsOf(eh), size, threshold, a, b) && temp == [Joined(a, b)]
    ensures RowsDiffer(eh + temp) && Deletes(RowsOf(eh + temp), gone)
    ensures RowsOf(eh + temp) - gone == Merge(RowsOf(eh), size, threshold)
  {
    var rows := RowsOf(eh);
    if temp == [] {
      gone := {};
      NoneSubsumed(rows);
      assert eh + temp == eh;
    } else {
      var a, b :| Mergeable(rows, size, threshold, a, b) && temp == [Joined(a, b)];
      gone := {a, b};
      MergePairKeeps(rows, a, b);
      MergeIsPair(rows, size, threshold, a, b);
      OnlyMergedSubsumed(rows, a, b);
      RowsOfAppend(eh, Joined(a, b));
    }
  }

  /** The emitted value is the sum of OnesCount minus half of the oldest bucket, rounded down. */
  ghost predicate Emitted(k: int, w: int, stream: seq<int>, estimate: int)
    requires stream != []
  {
    var eh := Run(k, w, stream).eh;
    eh != {} && forall o | IsOldest(eh, o) :: estimate == Total(eh) - o.ones / 2
  }

  /** The emitted value is within half of the oldest bucket of the number of 1s in the window, and within
      the relative error that k stands for. */
  ghost predicate Accurate(k: int, w: int, stream: seq<int>, estimate: int)
    requires stream != []
  {
    var truth := OnesFrom(stream, WindowEdge(w, |stream| - 1));
    && (exists o :: IsOldest(Run(k, w, stream).eh, o) && -(o.ones / 2) <= estimate - truth <= o.ones / 2)
    && (k >= 0 ==> Close(k, estimate, truth))
  }

  lemma {:induction false} EstimateIsAccurate(k: int, w: int, stream: seq<int>, estimate: int)
    requires |stream| >= 2 && Run(k, w, stream).eh != {}
    requires forall o | IsOldest(Run(k, w, stream).eh, o) :: estimate == Estimate(Run(k, w, stream).eh, o)
    ensures Accurate(k, w, stream, estimate)
  {
    var o := OldestExists(Run(k, w, stream).eh);
    EstimateErrorBound(k, w, stream, o);
    if k >= 0 {
      RelativeErrorBound(k, w, stream, o);
    }
  }

  lemma {:induction false} EstimateIsEmitted(k: int, w: int, stream: seq<int>, estimate: int)
    requires stream != [] && Run(k, w, stream).eh != {}
    requires forall o | IsOldest(Run(k, w, stream).eh, o) :: estimate == Estimate(Run(k, w, stream).eh, o)
    ensures Emitted(k, w, stream, estimate)
  {
    var eh := Run(k, w, stream).eh;
    forall o | IsOldest(eh, o) ensures estimate == Total(eh) - o.ones / 2 {
      assert o in eh && o.ones >= 1;
    }
  }

  /** Every value emitted is the estimate for the tuples seen by then, and accurate for them. */
  ghost predicate AllAccurate(k: int, w: int, stream: seq<int>, out: seq<int>)
    requires |out| < |stream|
  {
    forall i | 0 <= i < |out| :: Emitted(k, w, stream[..i + 2], out[i]) && Accurate(k, w, stream[..i + 2], out[i])
  }

  lemma {:induction false} OneMoreAccurate(k: int, w: int, stream: seq<int>, out: seq<int>, estimate: int)
    requires |out| + 1 < |stream| && AllAccurate(k, w, stream, out)
    requires Emitted(k, w, stream[..|out| + 2], estimate) && Accurate(k, w, stream[..|out| + 2], estimate)
    ensures AllAccurate(k, w, stream, out + [estimate])
  {
    var all := out + [estimate];
    forall i | 0 <= i < |all| ensures Emitted(k, w, stream[..i + 2], all[i]) && Accurate(k, w, stream[..i + 2], all[i]) {
      if i < |out| {
        assert Accurate(k, w, stream[..i + 2], out[i]);
      }
    }
  }

  /** The whole query over a stream: every value emitted is accurate for the tuples seen by then, and the run
      stops early only at an empty table. */
  method CountOnes(k: int, w: int, stream: seq<int>) returns (out: seq<int>, exited: bool)
    requires stream != []
    ensures |out| < |stream| && AllAccurate(k, w, stream, out)
    ensures if exited then |out| + 1 < |stream| && Run(k, w, stream[..|out| + 2]).eh == {} else |out| + 1 == |stream|
  {
    out := [];
    var counter := new EHSimpleCount(k, w, stream[0]);
    ghost var seen := [stream[0]];
    for n := 1 to |stream|
      invariant fresh(counter) && counter.k == k && counter.w == w && counter.Valid()
      invariant seen == stream[..n] && counter.Meaning() == Run(k, w, seen)
      invariant |out| == n - 1 && AllAccurate(k, w, stream, out)
    {
      var r := Feed(counter, seen, stream[n]);
      seen := seen + [stream[n]];
      assert seen == stream[..n + 1];
      if r.NoTuple? {
        return out, true;
      }
      OneMoreAccurate(k, w, stream, out, r.estimate);
      out := out + [r.estimate];
    }
    exited := false;
  }

  /** One more tuple after the stream `front`. */
  method Feed(counter: EHSimpleCount, ghost front: seq<int>, next: int) returns (r: Emission)
    requires front != [] && counter.Valid() && counter.Meaning() == Run(counter.k, counter.w, front)
    modifies counter
    ensures counter.Valid() && counter.Meaning() == Run(counter.k, counter.w, front + [next])
    ensures r.NoTuple? ==> Run(counter.k, counter.w, front + [next]).eh == {}
    ensures r.Value? ==> Emitted(counter.k, counter.w, front + [next], r.estimate)
    ensures r.Value? ==> Accurate(counter.k, counter.w, front + [next], r.estimate)
  {
    r := counter.Iterate(next);
    if r.Value? {
      EstimateIsAccurate(counter.k, counter.w, front + [next], r.estimate);
      EstimateIsEmitted(counter.k, counter.w, front + [next], r.estimate);
    }
  }
}
