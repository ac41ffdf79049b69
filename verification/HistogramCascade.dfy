/**
  How a new 1 runs through the sizes.  The table should keep at most k + 1 buckets of size 1 and k/2 + 1 of
  each larger size, but only adjacent buckets merge: recording a 1 keeps these caps if and only if the
  oldest bucket of every size that is full, together with all smaller sizes, is followed immediately by
  another bucket.
 */
module HistogramCascade {
  import opened Buckets
  import opened Histogram
  import opened HistogramBound
  import opened HistogramOrder

  /** At most k + 1 buckets of size 1 and k/2 + 1 of any other size; one more of size `extra`. */
  ghost predicate Capped(eh: set<Bucket>, k: int, extra: int) {
    forall s :: Count(eh, s) <= Cap(k, s) + (if s == extra && s > 0 then 1 else 0)
  }

  // ---------- the oldest bucket of a size ----------

  ghost predicate OldestOf(eh: set<Bucket>, size: int, b: Bucket) {
    b in eh && b.ones == size && forall x {:trigger x in eh} | x in eh && x.ones == size :: b.tsFirst <= x.tsFirst
  }

  /** A bucket of the table starts where b ends. */
  ghost predicate Followed(eh: set<Bucket>, b: Bucket) {
    exists y :: y in eh && y.tsLast == b.tsFirst
  }

  lemma {:induction false} OldestOfSize(eh: set<Bucket>, size: int) returns (b: Bucket)
    requires Count(eh, size) >= 1
    ensures OldestOf(eh, size, b)
    decreases eh
  {
    var y :| y in eh;
    SumRemove(eh, y, SizeIs(size));
    assert forall x {:trigger x in eh} | x in eh :: x == y || x in eh - {y};
    if Count(eh - {y}, size) >= 1 {
      var c := OldestOfSize(eh - {y}, size);
      b := if y.ones != size || c.tsFirst < y.tsFirst then c else y;
    } else {
      NoneOfSize(eh - {y}, size);
      b := y;
    }
  }

  lemma {:induction false} NoneOfSize(eh: set<Bucket>, size: int)
    requires Count(eh, size) <= 0
    ensures forall x {:trigger x in eh} | x in eh :: x.ones != size
  {
    forall x | x in eh ensures x.ones != size {
      SumRemove(eh, x, SizeIs(size));
      SumNonNegative(eh - {x}, SizeIs(size));
    }
  }

  /** Merging does not change which buckets are followed: that depends on the covered positions alone. */
  lemma {:induction false} FollowedIsCovered(eh: set<Bucket>, b: Bucket)
    requires Shape(eh) && b in eh
    ensures Followed(eh, b) <==> CoversPos(eh, b.tsFirst)
  {
    if Followed(eh, b) {
      var y :| y in eh && y.tsLast == b.tsFirst;
      assert Covers(y, b.tsFirst);
    }
    if CoversPos(eh, b.tsFirst) {
      var y :| y in eh && Covers(y, b.tsFirst);
      assert Apart(y, b);
      assert y.tsLast == b.tsFirst;
    }
  }

  /** In a crowded size there is a pair to merge exactly when the oldest bucket of the size is followed. */
  lemma {:induction false} CrowdedMerges(eh: set<Bucket>, size: int, threshold: int, b: Bucket)
    requires Shape(eh) && Monotone(eh) && Count(eh, size) > threshold >= 1 && OldestOf(eh, size, b)
    ensures CanMerge(eh, size, threshold) <==> Followed(eh, b)
    ensures forall x, y | Mergeable(eh, size, threshold, x, y) :: y == b
  {
    forall x, y | Mergeable(eh, size, threshold, x, y) ensures y == b && Followed(eh, b) {
      assert y == b || Apart(y, b);
    }
    if Followed(eh, b) {
      var a :| a in eh && a.tsLast == b.tsFirst;
      SumRemove(eh, b, SizeIs(size));
      var c := OldestOfSize(eh - {b}, size);
      assert a.tsFirst <= c.tsFirst by {
        assert a == c || Apart(a, c);
        assert Apart(b, c);
      }
      assert a.ones == size;
      assert Mergeable(eh, size, threshold, a, b);
    }
  }

  // ---------- the course of a cascade ----------

  /** Every size up to s is full. */
  ghost predicate Full(eh: set<Bucket>, k: int, s: int) {
    forall t | IsPow2(t) && t <= s :: Count(eh, t) == Cap(k, t)
  }

  /** The oldest bucket of size s is followed, in the table that has the new 1. */
  ghost predicate Joint(eh: set<Bucket>, id: int, s: int) {
    forall b | OldestOf(eh, s, b) :: Followed(eh + {Fresh(id)}, b)
  }

  /** The new 1 finds its way: no full size is blocked. */
  ghost predicate Open(eh: set<Bucket>, k: int, id: int) {
    forall s | IsPow2(s) && Full(eh, k, s) :: Joint(eh, id, s)
  }

  ghost predicate Ready(eh: set<Bucket>, k: int, id: int) {
    Shape(eh) && Pow2Sizes(eh) && Monotone(eh) && Capped(eh, k, 0) && EndsBy(eh, id)
  }

  /** Table t before a merge of size s: the sizes from s on are those of eh and one new bucket m of size s. */
  ghost predicate Reached(eh: set<Bucket>, t: set<Bucket>, m: Bucket, s: int) {
    && m in t && m !in eh && m.ones == s
    && (forall x: Bucket {:trigger x in t} {:trigger x in eh} | x.ones >= s :: x in t <==> x in eh || x == m)
    && (forall x {:trigger x in eh} | x in eh && x.ones >= s :: x.tsFirst < m.tsFirst)
  }

  ghost predicate Counted(eh: set<Bucket>, t: set<Bucket>, k: int, s: int) {
    && Capped(t, k, s)
    && Count(t, s) == Count(eh, s) + 1
    && forall u | u > s :: Count(t, u) == Count(eh, u)
  }

  /** All smaller sizes were full, and their oldest buckets followed. */
  ghost predicate Passed(eh: set<Bucket>, k: int, id: int, s: int) {
    forall t | IsPow2(t) && t < s :: Count(eh, t) == Cap(k, t) && Joint(eh, id, t)
  }

  ghost predicate Stage(eh: set<Bucket>, t: set<Bucket>, m: Bucket, k: int, id: int, s: int) {
    && IsPow2(s)
    && Shape(t) && Pow2Sizes(t) && Monotone(t)
    && SamePositions(t, eh + {Fresh(id)})
    && Reached(eh, t, m, s)
    && Counted(eh, t, k, s)
    && Passed(eh, k, id, s)
  }

  /** How recording a 1 can end: with the caps kept (0), or with one bucket too many of the first size that
      is full and blocked. */
  ghost predicate Outcome(eh: set<Bucket>, k: int, id: int, r: set<Bucket>, s: int) {
    if s == 0 then Open(eh, k, id) && Capped(r, k, 0)
    else
      && IsPow2(s) && Full(eh, k, s) && !Joint(eh, id, s) && Passed(eh, k, id, s)
      && Capped(r, k, s) && Count(r, s) == Cap(k, s) + 1
      && forall b :: OldestOf(r, s, b) <==> OldestOf(eh, s, b)
  }

  /** While a size still has its old oldest bucket, that is the oldest one of the size. */
  lemma {:induction false} ReachedOldest(eh: set<Bucket>, t: set<Bucket>, m: Bucket, s: int, b: Bucket)
    requires Reached(eh, t, m, s) && Count(eh, s) >= 1
    ensures OldestOf(t, s, b) <==> OldestOf(eh, s, b)
  {
    var o := OldestOfSize(eh, s);
    assert o in t && o.tsFirst < m.tsFirst;
  }

  /** A bucket of eh is followed in t if and only if it is followed right after the insertion. */
  lemma {:induction false} StageFollowed(eh: set<Bucket>, t: set<Bucket>, id: int, b: Bucket)
    requires Shape(eh + {Fresh(id)}) && Shape(t) && SamePositions(t, eh + {Fresh(id)}) && b in eh && b in t
    ensures Followed(t, b) <==> Followed(eh + {Fresh(id)}, b)
  {
    FollowedIsCovered(t, b);
    FollowedIsCovered(eh + {Fresh(id)}, b);
  }

  /** A stage without a merge is the end. */
  lemma {:induction false} StageEnd(eh: set<Bucket>, t: set<Bucket>, m: Bucket, k: int, id: int, s: int) returns (o: int)
    requires k >= 0 && Ready(eh, k, id) && Stage(eh, t, m, k, id, s) && !CanMerge(t, s, Cap(k, s))
    ensures Outcome(eh, k, id, t, o)
  {
    InsertKeeps(eh, id);
    if Count(eh, s) < Cap(k, s) {
      o := 0;
      forall u | IsPow2(u) && Full(eh, k, u) ensures Joint(eh, id, u) {
        assert u < s;
      }
    } else {
      o := s;
      assert Count(eh, s) <= Cap(k, s);
      var b := OldestOfSize(eh, s);
      ReachedOldest(eh, t, m, s, b);
      CrowdedMerges(t, s, Cap(k, s), b);
      StageFollowed(eh, t, id, b);
      forall x ensures OldestOf(t, s, x) <==> OldestOf(eh, s, x) {
        ReachedOldest(eh, t, m, s, x);
      }
      assert !Joint(eh, id, s);
    }
  }

  // ---------- from one stage to the next ----------

  lemma {:induction false} NextReached(eh: set<Bucket>, t: set<Bucket>, m: Bucket, s: int, a: Bucket, b: Bucket)
    requires Shape(t) && Monotone(t) && Reached(eh, t, m, s) && s >= 1
    requires a in t && b in t && a.tsLast == b.tsFirst && a.ones == b.ones == s
    ensures Reached(eh, MergePair(t, a, b), Joined(a, b), 2 * s)
  {
    MergePairKeeps(t, a, b);
    var r, j := MergePair(t, a, b), Joined(a, b);
    forall x | x in eh && x.ones >= 2 * s ensures x.tsFirst < j.tsFirst {
      assert x in t;
      assert Apart(x, b);
    }
  }

  lemma {:induction false} NextCounted(eh: set<Bucket>, t: set<Bucket>, k: int, s: int, a: Bucket, b: Bucket)
    requires Shape(t) && Counted(eh, t, k, s) && Capped(eh, k, 0) && s >= 1
    requires a in t && b in t && a.tsLast == b.tsFirst && a.ones == b.ones == s
    ensures Counted(eh, MergePair(t, a, b), k, 2 * s)
  {
    var r := MergePair(t, a, b);
    forall u ensures Count(r, u) == Count(t, u) - (if u == s then 2 else 0) + (if u == 2 * s then 1 else 0) {
      MergeCounts(t, a, b, u);
    }
    forall u ensures Count(r, u) <= Cap(k, u) + (if u == 2 * s && u > 0 then 1 else 0) {
      assert Count(t, u) <= Cap(k, u) + (if u == s && u > 0 then 1 else 0);
      assert Count(eh, u) <= Cap(k, u) + (if u == 0 && u > 0 then 1 else 0);
    }
  }

  lemma {:induction false} NextPassed(eh: set<Bucket>, t: set<Bucket>, m: Bucket, k: int, id: int, s: int)
    requires k >= 0 && Ready(eh, k, id) && Stage(eh, t, m, k, id, s) && CanMerge(t, s, Cap(k, s))
    ensures Passed(eh, k, id, 2 * s)
  {
    InsertKeeps(eh, id);
    assert Count(eh, s) == Cap(k, s) by {
      assert Count(eh, s) <= Cap(k, s) + (if s == 0 && s > 0 then 1 else 0);
    }
    forall b | OldestOf(eh, s, b) ensures Followed(eh + {Fresh(id)}, b) {
      ReachedOldest(eh, t, m, s, b);
      CrowdedMerges(t, s, Cap(k, s), b);
      StageFollowed(eh, t, id, b);
    }
    forall u | IsPow2(u) && u < 2 * s ensures Count(eh, u) == Cap(k, u) && Joint(eh, id, u) {
      if u > s {
        NextPow2(s, u);
      }
    }
  }

  lemma {:induction false} NextPositions(t: set<Bucket>, all: set<Bucket>, a: Bucket, b: Bucket)
    requires Shape(t) && SamePositions(t, all) && a in t && b in t && a.tsLast == b.tsFirst
    ensures SamePositions(MergePair(t, a, b), all)
  {
    forall p ensures CoversPos(MergePair(t, a, b), p) <==> CoversPos(all, p) {
      MergePairCovers(t, a, b, p);
      assert CoversPos(t, p) <==> CoversPos(all, p);
    }
  }

  lemma {:induction false} StageNext(eh: set<Bucket>, t: set<Bucket>, m: Bucket, k: int, id: int, s: int, a: Bucket, b: Bucket)
    requires k >= 0 && Ready(eh, k, id) && Stage(eh, t, m, k, id, s) && Mergeable(t, s, Cap(k, s), a, b)
    ensures Stage(eh, MergePair(t, a, b), Joined(a, b), k, id, 2 * s)
  {
    assert IsPow2(2 * s) by {
      assert (2 * s) / 2 == s;
    }
    MergePairKeeps(t, a, b);
    MergeMonotone(t, s, Cap(k, s), a, b);
    NextPositions(t, eh + {Fresh(id)}, a, b);
    NextReached(eh, t, m, s, a, b);
    NextCounted(eh, t, k, s, a, b);
    NextPassed(eh, t, m, k, id, s);
  }

  lemma {:induction false} StageStart(eh: set<Bucket>, k: int, id: int)
    requires Ready(eh, k, id)
    ensures Stage(eh, eh + {Fresh(id)}, Fresh(id), k, id, 1)
  {
    InsertKeeps(eh, id);
    var t := eh + {Fresh(id)};
    forall u ensures Count(t, u) == Count(eh, u) + (if u == 1 then 1 else 0) {
      InsertCounts(eh, id, u);
    }
    forall u ensures Count(t, u) <= Cap(k, u) + (if u == 1 && u > 0 then 1 else 0) {
      assert Count(eh, u) <= Cap(k, u) + (if u == 0 && u > 0 then 1 else 0);
    }
  }

  // ---------- the whole cascade ----------

  lemma {:induction false} CascadeMoves(t: set<Bucket>, k: int, s: int, a: Bucket, b: Bucket)
    requires Shape(t) && s >= 2 && Mergeable(t, s, Half(k) + 1, a, b)
    ensures var r := MergePair(t, a, b);
            && Shape(r) && Total(r) == Total(t)
            && (CanMerge(r, 2 * s, Half(k) + 1) ==> Cascade(t, s, k) == Cascade(r, 2 * s, k) && Total(r) >= 4 * s)
            && (!CanMerge(r, 2 * s, Half(k) + 1) ==> Cascade(t, s, k) == r)
  {
    MergeIsPair(t, s, Half(k) + 1, a, b);
    MergePairKeeps(t, a, b);
    var r := MergePair(t, a, b);
    if CanMerge(r, 2 * s, Half(k) + 1) {
      MergeableBoundsTotal(r, 2 * s, Half(k) + 1);
    }
  }

  lemma {:induction false} CascadeOutcome(eh: set<Bucket>, t: set<Bucket>, m: Bucket, k: int, id: int, s: int) returns (o: int)
    requires k >= 0 && Ready(eh, k, id) && s >= 2 && Stage(eh, t, m, k, id, s)
    ensures Outcome(eh, k, id, Cascade(t, s, k), o)
    decreases if Total(t) > s then Total(t) - s else 0
  {
    if CanMerge(t, s, Cap(k, s)) {
      var a, b :| Mergeable(t, s, Cap(k, s), a, b);
      CascadeMoves(t, k, s, a, b);
      StageNext(eh, t, m, k, id, s, a, b);
      var r := MergePair(t, a, b);
      if CanMerge(r, 2 * s, Half(k) + 1) {
        o := CascadeOutcome(eh, r, Joined(a, b), k, id, 2 * s);
      } else {
        o := StageEnd(eh, r, Joined(a, b), k, id, 2 * s);
      }
    } else {
      o := StageEnd(eh, t, m, k, id, s);
    }
  }

  lemma {:induction false} RecordOutcome(eh: set<Bucket>, k: int, id: int) returns (o: int)
    requires k >= 0 && Ready(eh, k, id)
    ensures Outcome(eh, k, id, Record(eh, id, k), o)
  {
    var t, m := eh + {Fresh(id)}, Fresh(id);
    StageStart(eh, k, id);
    if CanMerge(t, 1, Cap(k, 1)) {
      var a, b :| Mergeable(t, 1, Cap(k, 1), a, b);
      MergeIsPair(t, 1, Cap(k, 1), a, b);
      StageNext(eh, t, m, k, id, 1, a, b);
      o := CascadeOutcome(eh, MergePair(t, a, b), Joined(a, b), k, id, 2);
    } else {
      o := StageEnd(eh, t, m, k, id, 1);
    }
  }

  /** The caps survive recording a 1 if and only if no full size is blocked. */
  lemma {:induction false} RecordCapped(eh: set<Bucket>, k: int, id: int)
    requires k >= 0 && Ready(eh, k, id)
    ensures Capped(Record(eh, id, k), k, 0) <==> Open(eh, k, id)
  {
    var o := RecordOutcome(eh, k, id);
    if o != 0 {
      assert Count(Record(eh, id, k), o) > Cap(k, o) + (if o == 0 && o > 0 then 1 else 0);
    }
  }
}
