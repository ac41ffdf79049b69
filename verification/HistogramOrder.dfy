/**
  What holds of the histogram after every stream: sizes do not decrease with age, and below the size of
  any bucket present each power of two has its share of buckets.  So the buckets newer than the oldest
  hold many times its OnesCount, and the estimate is within the relative error that k stands for.
 */
module HistogramOrder {
  import opened Buckets
  import opened Histogram
  import opened HistogramBound

  /** Sizes do not decrease with age. */
  ghost predicate Monotone(eh: set<Bucket>) {
    forall x, y {:trigger x in eh, y in eh} | x in eh && y in eh && x.tsFirst > y.tsFirst :: x.ones <= y.ones
  }

  function Cap(k: int, size: int): int {
    if size == 1 then k + 1 else Half(k) + 1
  }

  /** Below the size of any bucket present, each power of two has at least k (size 1) or k/2 buckets. */
  ghost predicate Floored(eh: set<Bucket>, k: int) {
    forall b, s | b in eh && IsPow2(s) && s < b.ones :: Count(eh, s) >= Cap(k, s) - 1
  }

  ghost predicate Ordered(eh: set<Bucket>, k: int) {
    Shape(eh) && Pow2Sizes(eh) && Monotone(eh) && Floored(eh, k)
  }

  // ---------- one merge ----------

  lemma {:induction false} MergeCounts(eh: set<Bucket>, a: Bucket, b: Bucket, s: int)
    requires Shape(eh) && a in eh && b in eh && a.tsLast == b.tsFirst && a.ones == b.ones
    ensures Count(MergePair(eh, a, b), s) ==
              Count(eh, s) - (if s == a.ones then 2 else 0) + (if s == 2 * a.ones then 1 else 0)
  {
    MergePairKeeps(eh, a, b);
    SumRemoveTwo(eh, a, b, SizeIs(s));
    SumAdd(eh - {a, b}, Joined(a, b), SizeIs(s));
  }

  lemma {:induction false} MergeMonotone(eh: set<Bucket>, size: int, threshold: int, a: Bucket, b: Bucket)
    requires Shape(eh) && Pow2Sizes(eh) && Monotone(eh) && Mergeable(eh, size, threshold, a, b)
    ensures Monotone(MergePair(eh, a, b))
  {
    var m := Joined(a, b);
    var r := MergePair(eh, a, b);
    forall x, y | x in r && y in r && x.tsFirst > y.tsFirst ensures x.ones <= y.ones {
      if x == m && y != m {
        assert Apart(y, b) && Apart(y, a);
        assert y.ones != size && y.ones >= size;
        NextPow2(size, y.ones);
      } else if y == m && x != m {
        assert Apart(x, a);
      }
    }
  }

  lemma {:induction false} MergeFloored(eh: set<Bucket>, k: int, size: int, a: Bucket, b: Bucket)
    requires Shape(eh) && Pow2Sizes(eh) && Floored(eh, k) && Mergeable(eh, size, Cap(k, size), a, b)
    ensures Floored(MergePair(eh, a, b), k)
  {
    var r := MergePair(eh, a, b);
    forall x, s | x in r && IsPow2(s) && s < x.ones ensures Count(r, s) >= Cap(k, s) - 1 {
      MergeFloor(eh, k, size, a, b, x, s);
    }
  }

  lemma {:induction false} MergeFloor(eh: set<Bucket>, k: int, size: int, a: Bucket, b: Bucket, x: Bucket, s: int)
    requires Shape(eh) && Pow2Sizes(eh) && Floored(eh, k) && Mergeable(eh, size, Cap(k, size), a, b)
    requires x in MergePair(eh, a, b) && IsPow2(s) && s < x.ones
    ensures Count(MergePair(eh, a, b), s) >= Cap(k, s) - 1
  {
    MergeCounts(eh, a, b, s);
    if s != size {
      if x == Joined(a, b) {
        assert IsPow2(size);
        assert s < size by {
          if s > size { NextPow2(size, s); }
        }
        assert a in eh && s < a.ones;
      }
      assert Count(eh, s) >= Cap(k, s) - 1;
    }
  }

  lemma {:induction false} MergeOrdered(eh: set<Bucket>, k: int, size: int)
    requires Ordered(eh, k)
    ensures Ordered(Merge(eh, size, Cap(k, size)), k)
  {
    var threshold := Cap(k, size);
    MergeKeeps(eh, size, threshold);
    MergePow2(eh, size, threshold);
    if CanMerge(eh, size, threshold) {
      var a, b :| Mergeable(eh, size, threshold, a, b);
      MergeIsPair(eh, size, threshold, a, b);
      MergeMonotone(eh, size, threshold, a, b);
      MergeFloored(eh, k, size, a, b);
    }
  }

  lemma {:induction false} CascadeOrdered(eh: set<Bucket>, k: int, size: int)
    requires size >= 2 && Ordered(eh, k)
    ensures Ordered(Cascade(eh, size, k), k)
    decreases if Total(eh) > size then Total(eh) - size else 0
  {
    var threshold := Half(k) + 1;
    MergeOrdered(eh, k, size);
    MergeKeeps(eh, size, threshold);
    var merged := Merge(eh, size, threshold);
    if CanMerge(merged, 2 * size, threshold) {
      MergeableBoundsTotal(merged, 2 * size, threshold);
      CascadeOrdered(merged, k, 2 * size);
    }
  }

  // ---------- a whole step ----------

  lemma {:induction false} InsertCounts(eh: set<Bucket>, id: int, s: int)
    requires Fresh(id) !in eh
    ensures Count(eh + {Fresh(id)}, s) == Count(eh, s) + (if s == 1 then 1 else 0)
  {
    SumAdd(eh, Fresh(id), SizeIs(s));
  }

  lemma {:induction false} InsertOrdered(eh: set<Bucket>, k: int, id: int)
    requires Ordered(eh, k) && EndsBy(eh, id)
    ensures Ordered(eh + {Fresh(id)}, k)
  {
    InsertKeeps(eh, id);
    var r := eh + {Fresh(id)};
    forall b, s | b in r && IsPow2(s) && s < b.ones ensures Count(r, s) >= Cap(k, s) - 1 {
      InsertCounts(eh, id, s);
      assert b in eh;
    }
  }

  lemma {:induction false} RecordOrdered(eh: set<Bucket>, k: int, id: int)
    requires Ordered(eh, k) && EndsBy(eh, id)
    ensures Ordered(Record(eh, id, k), k)
  {
    InsertOrdered(eh, k, id);
    MergeOrdered(eh + {Fresh(id)}, k, 1);
    CascadeOrdered(Merge(eh + {Fresh(id)}, 1, k + 1), k, 2);
  }

  lemma {:induction false} SubsetCount(r: set<Bucket>, eh: set<Bucket>, s: int)
    requires r <= eh
    ensures Count(r, s) <= Count(eh, s)
    ensures (forall b {:trigger b in eh} | b in eh && b.ones == s :: b in r) ==> Count(r, s) == Count(eh, s)
    decreases eh - r
  {
    if x :| x in eh && x !in r {
      SumAdd(r, x, SizeIs(s));
      SubsetCount(r + {x}, eh, s);
    } else {
      assert r == eh;
    }
  }

  lemma {:induction false} ExpireOrdered(eh: set<Bucket>, k: int, w: int, maxID: int)
    requires Ordered(eh, k)
    ensures Ordered(Expire(eh, w, maxID), k)
  {
    var r := Expire(eh, w, maxID);
    forall b, s | b in r && IsPow2(s) && s < b.ones ensures Count(r, s) >= Cap(k, s) - 1 {
      forall x | x in eh && x.ones == s ensures x in r {
        assert Apart(x, b);
      }
      SubsetCount(r, eh, s);
    }
  }

  lemma {:induction false} UpdatedOrdered(st: State, k: int, next: int)
    requires Good(st) && Ordered(st.eh, k)
    ensures Ordered(Updated(st, k, next), k)
  {
    if next == 1 {
      RecordOrdered(st.eh, k, st.maxID + 1);
      assert Updated(st, k, next) == Record(st.eh, st.maxID + 1, k);
    } else {
      assert Updated(st, k, next) == st.eh;
    }
  }

  lemma {:induction false} StepOrdered(st: State, k: int, w: int, next: int)
    requires Good(st) && Ordered(st.eh, k)
    ensures Ordered(Step(st, k, w, next).eh, k)
  {
    UpdatedOrdered(st, k, next);
    ExpireOrdered(Updated(st, k, next), k, w, st.maxID + 1);
  }

  /** After every stream the table is in order. */
  lemma {:induction false} RunOrdered(k: int, w: int, stream: seq<int>)
    requires stream != []
    ensures Ordered(Run(k, w, stream).eh, k)
    decreases |stream|
  {
    if |stream| > 1 {
      var front, last := stream[..|stream| - 1], stream[|stream| - 1];
      RunOrdered(k, w, front);
      StepOrdered(Run(k, w, front), k, w, last);
    }
  }

  // ---------- relative error ----------

  lemma {:induction false} SumSizeTimes(eh: set<Bucket>, s: int)
    ensures Sum(eh, SizeTimes(s)) == s * Count(eh, s)
    decreases eh
  {
    if eh != {} {
      var x :| x in eh;
      SumRemove(eh, x, SizeTimes(s));
      SumRemove(eh, x, SizeIs(s));
      SumSizeTimes(eh - {x}, s);
      assert s * Count(eh, s) == s * SizeIs(s).Of(x) + s * Count(eh - {x}, s);
    }
  }

  /** The buckets of size s add s * Count(s) to the OnesCount of the smaller ones. */
  lemma {:induction false} LayerAdds(eh: set<Bucket>, s: int)
    requires Shape(eh) && IsPow2(s)
    ensures Sum(eh, UpTo(s)) >= Sum(eh, UpTo(s / 2)) + s * Count(eh, s)
  {
    SumSizeTimes(eh, s);
    forall b | b in eh ensures UpTo(s / 2).Of(b) + SizeTimes(s).Of(b) <= UpTo(s).Of(b) {
      assert b.ones >= 1;
    }
    SumBelow(eh, UpTo(s / 2), SizeTimes(s), UpTo(s));
  }

  /** If every power of two up to s has its share of buckets, those buckets hold at least 2(k/2)s ones. */
  lemma {:induction false} SmallBucketsHoldMany(eh: set<Bucket>, k: int, s: int)
    requires k >= 0 && Shape(eh) && IsPow2(s)
    requires forall t | IsPow2(t) && t <= s :: Count(eh, t) >= Cap(k, t) - 1
    ensures Sum(eh, UpTo(s)) >= Half(k) * (2 * s)
    decreases s
  {
    LayerAdds(eh, s);
    assert Count(eh, s) >= Cap(k, s) - 1;
    if s == 1 {
      SumNonNegative(eh, UpTo(0));
    } else {
      SmallBucketsHoldMany(eh, k, s / 2);
      AddLayer(Half(k), s, Count(eh, s));
    }
  }

  lemma {:induction false} AddLayer(h: int, s: int, count: int)
    requires count >= h && s >= 0 && s % 2 == 0
    ensures h * (2 * (s / 2)) + s * count >= h * (2 * s)
  {
    assert s * count >= s * h;
    assert 2 * (s / 2) == s;
  }

  /** The rows newer than the oldest bucket hold at least k/2 times its OnesCount. */
  lemma {:induction false} NewerHoldMany(eh: set<Bucket>, k: int, o: Bucket)
    requires k >= 0 && Ordered(eh, k) && IsOldest(eh, o) && o.ones > 1
    ensures Total(eh) - o.ones >= Half(k) * o.ones
  {
    var s := o.ones / 2;
    forall t | IsPow2(t) && t <= s ensures Count(eh, t) >= Cap(k, t) - 1 {
      assert o in eh && t < o.ones;
    }
    SmallBucketsHoldMany(eh, k, s);
    assert 2 * s == o.ones;
    forall b | b in eh ensures Itself(o).Of(b) + UpTo(s).Of(b) <= Ones.Of(b) {
    }
    SumBelow(eh, Itself(o), UpTo(s), Ones);
    SumOfOne(eh, o, Itself(o));
  }

  /** The estimate is within truth / (2 (k/2)) of the truth. */
  predicate Close(k: int, estimate: int, truth: int) {
    -truth <= (2 * Half(k)) * (estimate - truth) <= truth
  }

  lemma {:induction false} CloseByNewer(k: int, total: int, ones: int, inside: int, truth: int)
    requires k >= 0 && ones % 2 == 0 && total == truth + ones - inside && 1 <= inside <= ones
    requires total - ones >= Half(k) * ones
    ensures Close(k, total - Half(ones), truth)
  {
    Scaled(Half(k), ones / 2, total - ones / 2 - truth);
    assert (2 * Half(k)) * (ones / 2) == Half(k) * ones by {
      assert ones == 2 * (ones / 2);
      Regroup(Half(k), ones / 2);
    }
  }

  lemma {:induction false} Regroup(h: int, c: int)
    ensures (2 * h) * c == h * (2 * c)
  {
  }

  lemma {:induction false} Scaled(h: int, c: int, error: int)
    requires h >= 0 && -c <= error <= c
    ensures -((2 * h) * c) <= (2 * h) * error <= (2 * h) * c
  {
    assert (2 * h) * (c - error) >= 0;
    assert (2 * h) * (c + error) >= 0;
  }

  lemma {:induction false} OrderedErrorBound(eh: set<Bucket>, k: int, o: Bucket, truth: int, inside: int)
    requires k >= 0 && Ordered(eh, k) && IsOldest(eh, o)
    requires Total(eh) == truth + o.ones - inside && 1 <= inside <= o.ones
    ensures Close(k, Estimate(eh, o), truth)
  {
    assert IsPow2(o.ones);
    if o.ones == 1 {
      SumRemove(eh, o, Ones);
      SumNonNegative(eh - {o}, Ones);
      assert Estimate(eh, o) == truth;
    } else {
      NewerHoldMany(eh, k, o);
      CloseByNewer(k, Total(eh), o.ones, inside, truth);
    }
  }

  lemma {:induction false} RelativeErrorOfState(st: State, stream: seq<int>, k: int, w: int, o: Bucket)
    requires k >= 0 && Represents(st, stream, w) && Unexpired(st, w) && Ordered(st.eh, k)
    requires IsOldest(st.eh, o)
    ensures Close(k, Estimate(st.eh, o), OnesFrom(stream, WindowEdge(w, st.maxID)))
  {
    var edge := WindowEdge(w, st.maxID);
    TotalIsWindowPlusOutside(st, stream, w, o);
    OrderedErrorBound(st.eh, k, o, OnesFrom(stream, edge), Overlap(edge).Of(o));
  }

  /** For every stream the estimate is within the relative error 1/k (k even) that k stands for. */
  lemma {:induction false} RelativeErrorBound(k: int, w: int, stream: seq<int>, o: Bucket)
    requires k >= 0 && |stream| >= 2 && IsOldest(Run(k, w, stream).eh, o)
    ensures Close(k, Estimate(Run(k, w, stream).eh, o), OnesFrom(stream, WindowEdge(w, |stream| - 1)))
  {
    RunOrdered(k, w, stream);
    RunRepresents(k, w, stream);
    RelativeErrorOfState(Run(k, w, stream), stream, k, w, o);
  }
}
