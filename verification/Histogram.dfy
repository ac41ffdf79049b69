/**
  What one tuple does to the exponential histogram, as functions of the table.

  `Step` is the meaning of one ITERATE call; the class in HistogramProgram.dfy computes it
  with the loops of the generated code.
 */
module Histogram {
  import opened Buckets

  datatype State = State(eh: set<Bucket>, maxID: int)

  // ---------- one statement at a time ----------

  /** The WHERE clause of the merge query: two consecutive buckets of the given size,
      the older one the oldest of that size, in a table with too many of them. */
  ghost predicate Mergeable(eh: set<Bucket>, size: int, threshold: int, a: Bucket, b: Bucket) {
    && a in eh && b in eh
    && Count(eh, size) > threshold
    && a.tsLast == b.tsFirst
    && a.ones == b.ones == size
    && forall c {:trigger c in eh} | c in eh :: !(c.tsFirst <= b.tsLast && c.ones == b.ones)
  }

  ghost predicate CanMerge(eh: set<Bucket>, size: int, threshold: int) {
    exists a, b :: Mergeable(eh, size, threshold, a, b)
  }

  ghost function MergePair(eh: set<Bucket>, a: Bucket, b: Bucket): set<Bucket> {
    eh - {a, b} + {Joined(a, b)}
  }

  /** Effect of the merge query and the DELETE after it: the two rows become one. */
  ghost function Merge(eh: set<Bucket>, size: int, threshold: int): set<Bucket> {
    if CanMerge(eh, size, threshold) then
      var a, b :| Mergeable(eh, size, threshold, a, b);
      MergePair(eh, a, b)
    else eh
  }

  /** The recursion of mergeAggr. */
  ghost function Cascade(eh: set<Bucket>, size: int, k: int): (r: set<Bucket>)
    requires Shape(eh) && size >= 1
    ensures Shape(r)
    ensures Total(r) == Total(eh)
    ensures SamePositions(r, eh)
    decreases if Total(eh) > size then Total(eh) - size else 0
  {
    MergeKeeps(eh, size, Half(k) + 1);
    var merged := Merge(eh, size, Half(k) + 1);
    if CanMerge(merged, 2 * size, Half(k) + 1) then
      MergeableBoundsTotal(merged, 2 * size, Half(k) + 1);
      Cascade(merged, 2 * size, k)
    else merged
  }

  /** DELETE FROM EH WHERE TSFirst + W < maxID. */
  function Expire(eh: set<Bucket>, w: int, maxID: int): set<Bucket> {
    set b | b in eh && !(b.tsFirst + w < maxID)
  }

  /** A bucket for the 1 at position `id`. */
  function Fresh(id: int): Bucket {
    Bucket(id + 1, id, 1)
  }

  function Initial(next: int): State {
    State(if next == 1 then {Fresh(0)} else {}, 0)
  }

  /** The table after a 1 at position `id` has been recorded and the merges are done. */
  ghost function Record(eh: set<Bucket>, id: int, k: int): (r: set<Bucket>)
    requires Shape(eh) && EndsBy(eh, id)
    ensures Shape(r)
  {
    InsertKeeps(eh, id);
    MergeKeeps(eh + {Fresh(id)}, 1, k + 1);
    Cascade(Merge(eh + {Fresh(id)}, 1, k + 1), 2, k)
  }

  ghost predicate Good(st: State) {
    Shape(st.eh) && EndsBy(st.eh, st.maxID + 1)
  }

  ghost function Updated(st: State, k: int, next: int): set<Bucket>
    requires Good(st)
  {
    if next == 1 then Record(st.eh, st.maxID + 1, k) else st.eh
  }

  ghost function Step(st: State, k: int, w: int, next: int): (r: State)
    requires Good(st)
    ensures Good(r) && r.maxID == st.maxID + 1
  {
    UpdatedKeeps(st, k, next);
    State(Expire(Updated(st, k, next), w, st.maxID + 1), st.maxID + 1)
  }

  /** The state after the whole stream: INITIALIZE for the first tuple, ITERATE for the others. */
  ghost function Run(k: int, w: int, stream: seq<int>): (r: State)
    requires stream != []
    ensures Good(r) && r.maxID == |stream| - 1
  {
    if |stream| == 1 then Initial(stream[0])
    else Step(Run(k, w, stream[..|stream| - 1]), k, w, stream[|stream| - 1])
  }

  /** The first stream position inside the window, as the expiry test fixes it. */
  function WindowEdge(w: int, maxID: int): int {
    maxID - w - 1
  }

  // ---------- shape of the table ----------

  ghost predicate Shape(eh: set<Bucket>) {
    && (forall b {:trigger b in eh} | b in eh :: b.ones >= 1 && b.tsFirst - b.tsLast == b.ones)
    && (forall x, y {:trigger x in eh, y in eh} | x in eh && y in eh && x != y :: Apart(x, y))
  }

  /** No bucket reaches past position t - 1. */
  ghost predicate EndsBy(eh: set<Bucket>, t: int) {
    forall b {:trigger b in eh} | b in eh :: b.tsFirst <= t
  }

  ghost predicate CoversPos(eh: set<Bucket>, p: int) {
    exists b :: b in eh && Covers(b, p)
  }

  ghost predicate SamePositions(s: set<Bucket>, t: set<Bucket>) {
    forall p :: CoversPos(s, p) <==> CoversPos(t, p)
  }

  /** At most one pair of rows can satisfy the merge query. */
  lemma {:induction false} MergeableUnique(eh: set<Bucket>, size: int, threshold: int, a: Bucket, b: Bucket, a': Bucket, b': Bucket)
    requires Shape(eh)
    requires Mergeable(eh, size, threshold, a, b) && Mergeable(eh, size, threshold, a', b')
    ensures a == a' && b == b'
  {
    assert b == b' || Apart(b, b');
    assert a == a' || Apart(a, a');
  }

  lemma {:induction false} MergeIsPair(eh: set<Bucket>, size: int, threshold: int, a: Bucket, b: Bucket)
    requires Shape(eh) && Mergeable(eh, size, threshold, a, b)
    ensures Merge(eh, size, threshold) == MergePair(eh, a, b)
  {
    var a', b' :| Mergeable(eh, size, threshold, a', b') && Merge(eh, size, threshold) == MergePair(eh, a', b');
    MergeableUnique(eh, size, threshold, a, b, a', b');
  }

  lemma {:induction false} MergePairKeeps(eh: set<Bucket>, a: Bucket, b: Bucket)
    requires Shape(eh) && a in eh && b in eh && a.tsLast == b.tsFirst
    ensures a != b && Joined(a, b) !in eh
    ensures Shape(MergePair(eh, a, b))
    ensures Total(MergePair(eh, a, b)) == Total(eh)
  {
    assert a != b;
    assert Joined(a, b) !in eh;
    SumRemoveTwo(eh, a, b, Ones);
    SumAdd(eh - {a, b}, Joined(a, b), Ones);
    forall x | x in eh - {a, b} ensures Apart(x, Joined(a, b)) {
      assert Apart(x, a) && Apart(x, b);
    }
  }

  lemma {:induction false} MergePairCovers(eh: set<Bucket>, a: Bucket, b: Bucket, p: int)
    requires Shape(eh) && a in eh && b in eh && a.tsLast == b.tsFirst
    ensures CoversPos(MergePair(eh, a, b), p) <==> CoversPos(eh, p)
  {
    var r, m := MergePair(eh, a, b), Joined(a, b);
    if CoversPos(eh, p) {
      var x :| x in eh && Covers(x, p);
      if x == a || x == b {
        assert m in r && Covers(m, p);
      } else {
        assert x in r && Covers(x, p);
      }
    }
    if CoversPos(r, p) {
      var x :| x in r && Covers(x, p);
      if x == m {
        assert Covers(a, p) || Covers(b, p);
      } else {
        assert x in eh;
      }
    }
  }

  /** A merge keeps the shape, the positions covered and the total of OnesCount. */
  lemma {:induction false} MergeKeeps(eh: set<Bucket>, size: int, threshold: int)
    requires Shape(eh)
    ensures Shape(Merge(eh, size, threshold))
    ensures Total(Merge(eh, size, threshold)) == Total(eh)
    ensures SamePositions(Merge(eh, size, threshold), eh)
  {
    if CanMerge(eh, size, threshold) {
      var a, b :| Mergeable(eh, size, threshold, a, b);
      MergeIsPair(eh, size, threshold, a, b);
      MergePairKeeps(eh, a, b);
      forall p ensures CoversPos(Merge(eh, size, threshold), p) <==> CoversPos(eh, p) {
        MergePairCovers(eh, a, b, p);
      }
    }
  }

  /** Two buckets of a size exist only while twice that size is at most the total: the cascade stops. */
  lemma {:induction false} MergeableBoundsTotal(eh: set<Bucket>, size: int, threshold: int)
    requires Shape(eh) && CanMerge(eh, size, threshold)
    ensures Total(eh) >= 2 * size
  {
    var a, b :| Mergeable(eh, size, threshold, a, b);
    assert a != b;
    SumAtLeastTwo(eh, a, b, Ones);
  }

  lemma {:induction false} InsertKeeps(eh: set<Bucket>, id: int)
    requires Shape(eh) && EndsBy(eh, id)
    ensures Fresh(id) !in eh && Shape(eh + {Fresh(id)})
    ensures Total(eh + {Fresh(id)}) == Total(eh) + 1
  {
    assert Fresh(id) !in eh;
    SumAdd(eh, Fresh(id), Ones);
  }

  lemma {:induction false} RecordPositions(eh: set<Bucket>, id: int, k: int)
    requires Shape(eh) && EndsBy(eh, id)
    ensures Total(Record(eh, id, k)) == Total(eh) + 1
    ensures forall p :: CoversPos(Record(eh, id, k), p) <==> CoversPos(eh, p) || p == id
  {
    InsertKeeps(eh, id);
    var inserted := eh + {Fresh(id)};
    MergeKeeps(inserted, 1, k + 1);
    var r := Record(eh, id, k);
    forall p ensures CoversPos(r, p) <==> CoversPos(eh, p) || p == id {
      assert CoversPos(r, p) <==> CoversPos(Merge(inserted, 1, k + 1), p);
    }
  }

  lemma {:induction false} RecordEnds(eh: set<Bucket>, id: int, k: int)
    requires Shape(eh) && EndsBy(eh, id)
    ensures EndsBy(Record(eh, id, k), id + 1)
  {
    RecordPositions(eh, id, k);
    var r := Record(eh, id, k);
    forall b | b in r ensures b.tsFirst <= id + 1 {
      assert Covers(b, b.tsFirst - 1);
      assert CoversPos(r, b.tsFirst - 1);
      if CoversPos(eh, b.tsFirst - 1) {
        var x :| x in eh && Covers(x, b.tsFirst - 1);
      }
    }
  }

  lemma {:induction false} UpdatedKeeps(st: State, k: int, next: int)
    requires Good(st)
    ensures Shape(Updated(st, k, next)) && EndsBy(Updated(st, k, next), st.maxID + 2)
  {
    if next == 1 {
      RecordEnds(st.eh, st.maxID + 1, k);
      assert Updated(st, k, next) == Record(st.eh, st.maxID + 1, k);
    } else {
      assert Updated(st, k, next) == st.eh;
    }
  }

  // ---------- sizes are powers of two ----------

  ghost predicate Pow2Sizes(eh: set<Bucket>) {
    forall b {:trigger b in eh} | b in eh :: IsPow2(b.ones)
  }

  lemma {:induction false} MergePow2(eh: set<Bucket>, size: int, threshold: int)
    requires Pow2Sizes(eh)
    ensures Pow2Sizes(Merge(eh, size, threshold))
  {
    if CanMerge(eh, size, threshold) {
      var a, b :| Mergeable(eh, size, threshold, a, b) && Merge(eh, size, threshold) == MergePair(eh, a, b);
      assert Joined(a, b).ones / 2 == a.ones;
    }
  }

  lemma {:induction false} CascadePow2(eh: set<Bucket>, size: int, k: int)
    requires Shape(eh) && Pow2Sizes(eh) && size >= 1
    ensures Pow2Sizes(Cascade(eh, size, k))
    decreases if Total(eh) > size then Total(eh) - size else 0
  {
    MergeKeeps(eh, size, Half(k) + 1);
    MergePow2(eh, size, Half(k) + 1);
    var merged := Merge(eh, size, Half(k) + 1);
    if CanMerge(merged, 2 * size, Half(k) + 1) {
      MergeableBoundsTotal(merged, 2 * size, Half(k) + 1);
      CascadePow2(merged, 2 * size, k);
    }
  }

  lemma {:induction false} RecordPow2(eh: set<Bucket>, id: int, k: int)
    requires Shape(eh) && EndsBy(eh, id) && Pow2Sizes(eh)
    ensures Pow2Sizes(Record(eh, id, k))
  {
    InsertKeeps(eh, id);
    MergeKeeps(eh + {Fresh(id)}, 1, k + 1);
    MergePow2(eh + {Fresh(id)}, 1, k + 1);
    CascadePow2(Merge(eh + {Fresh(id)}, 1, k + 1), 2, k);
  }

  lemma {:induction false} StepPow2(st: State, k: int, w: int, next: int)
    requires Good(st) && Pow2Sizes(st.eh)
    ensures Pow2Sizes(Step(st, k, w, next).eh)
  {
    if next == 1 {
      RecordPow2(st.eh, st.maxID + 1, k);
    }
  }

  /** In every run all bucket sizes are powers of two. */
  lemma {:induction false} RunPow2(k: int, w: int, stream: seq<int>)
    requires stream != []
    ensures Pow2Sizes(Run(k, w, stream).eh)
    decreases |stream|
  {
    if |stream| > 1 {
      var front, last := stream[..|stream| - 1], stream[|stream| - 1];
      RunPow2(k, w, front);
      StepPow2(Run(k, w, front), k, w, last);
    }
  }
}
