/**
  Every run keeps the representation, and the emitted estimate is off by at most half of the oldest bucket.
 */
module HistogramBound {
  import opened Buckets
  import opened Histogram

  /** The table describes the stream: buckets cover only 1s, and every 1 inside the window is covered. */
  ghost predicate Represents(st: State, stream: seq<int>, w: int) {
    && Good(st)
    && st.maxID == |stream| - 1
    && (forall p :: CoversPos(st.eh, p) ==> 0 <= p < |stream| && stream[p] == 1)
    && (forall p | 0 <= p < |stream| && WindowEdge(w, st.maxID) <= p && stream[p] == 1 :: CoversPos(st.eh, p))
  }

  /** No bucket lies wholly before the window. */
  ghost predicate Unexpired(st: State, w: int) {
    forall b {:trigger b in st.eh} | b in st.eh :: b.tsFirst - 1 >= WindowEdge(w, st.maxID)
  }

  /** Before the expiry: the new table covers the old positions and the new one if it holds a 1. */
  lemma {:induction false} UpdatedPositions(st: State, k: int, next: int, p: int)
    requires Good(st)
    ensures CoversPos(Updated(st, k, next), p) <==> CoversPos(st.eh, p) || (next == 1 && p == st.maxID + 1)
  {
    if next == 1 {
      RecordPositions(st.eh, st.maxID + 1, k);
      assert Updated(st, k, next) == Record(st.eh, st.maxID + 1, k);
    } else {
      assert Updated(st, k, next) == st.eh;
    }
  }

  lemma {:induction false} StepCoversOnes(st: State, stream: seq<int>, k: int, w: int, next: int, p: int)
    requires Represents(st, stream, w) && CoversPos(Step(st, k, w, next).eh, p)
    ensures 0 <= p < |stream| + 1 && (stream + [next])[p] == 1
  {
    var b :| b in Step(st, k, w, next).eh && Covers(b, p);
    assert CoversPos(Updated(st, k, next), p);
    UpdatedPositions(st, k, next, p);
  }

  lemma {:induction false} StepCoversWindow(st: State, stream: seq<int>, k: int, w: int, next: int, p: int)
    requires Represents(st, stream, w)
    requires 0 <= p < |stream| + 1 && WindowEdge(w, st.maxID + 1) <= p && (stream + [next])[p] == 1
    ensures CoversPos(Step(st, k, w, next).eh, p)
  {
    UpdatedPositions(st, k, next, p);
    var b :| b in Updated(st, k, next) && Covers(b, p);
    assert b in Step(st, k, w, next).eh;
  }

  lemma {:induction false} StepRepresents(st: State, stream: seq<int>, k: int, w: int, next: int)
    requires Represents(st, stream, w)
    ensures Represents(Step(st, k, w, next), stream + [next], w)
    ensures Unexpired(Step(st, k, w, next), w)
  {
    var r := Step(st, k, w, next);
    forall p | CoversPos(r.eh, p) ensures 0 <= p < |stream| + 1 && (stream + [next])[p] == 1 {
      StepCoversOnes(st, stream, k, w, next, p);
    }
    forall p | 0 <= p < |stream| + 1 && WindowEdge(w, r.maxID) <= p && (stream + [next])[p] == 1
      ensures CoversPos(r.eh, p)
    {
      StepCoversWindow(st, stream, k, w, next, p);
    }
  }

  /** Safety over whole runs: the state after any stream represents that stream. */
  lemma {:induction false} RunRepresents(k: int, w: int, stream: seq<int>)
    requires stream != []
    ensures Represents(Run(k, w, stream), stream, w)
    ensures |stream| >= 2 ==> Unexpired(Run(k, w, stream), w)
    decreases |stream|
  {
    if |stream| == 1 {
      assert [stream[0]] == stream;
    } else {
      var front, last := stream[..|stream| - 1], stream[|stream| - 1];
      assert front + [last] == stream;
      RunRepresents(k, w, front);
      StepRepresents(Run(k, w, front), front, k, w, last);
    }
  }

  /** An unexpired 1 lies in exactly one bucket. */
  lemma {:induction false} OneBucketPerOne(k: int, w: int, stream: seq<int>, p: nat)
    requires stream != [] && p < |stream| && stream[p] == 1 && WindowEdge(w, |stream| - 1) <= p
    ensures var eh := Run(k, w, stream).eh;
            exists b :: b in eh && Covers(b, p) && (forall c | c in eh && Covers(c, p) :: c == b)
  {
    RunRepresents(k, w, stream);
    var eh := Run(k, w, stream).eh;
    assert CoversPos(eh, p);
    var b :| b in eh && Covers(b, p);
    forall c | c in eh && Covers(c, p) ensures c == b {
      assert c != b ==> Apart(b, c);
    }
  }

  /** A bucket is a run of 1s whose length is its OnesCount. */
  lemma {:induction false} BucketIsRun(st: State, stream: seq<int>, w: int, b: Bucket)
    requires Represents(st, stream, w) && b in st.eh
    ensures 0 <= b.tsLast < b.tsFirst <= |stream|
    ensures b.tsFirst - b.tsLast == b.ones
    ensures forall p | b.tsLast <= p < b.tsFirst :: stream[p] == 1
  {
    forall p | b.tsLast <= p < b.tsFirst ensures CoversPos(st.eh, p) {
      assert Covers(b, p);
    }
    assert CoversPos(st.eh, b.tsLast) && CoversPos(st.eh, b.tsFirst - 1);
  }

  // ---------- counting ----------

  /** Number of 1s at positions lo and above. */
  function OnesFrom(stream: seq<int>, lo: int): int
    decreases |stream| - lo
  {
    if lo >= |stream| then 0
    else (if lo >= 0 && stream[lo] == 1 then 1 else 0) + OnesFrom(stream, lo + 1)
  }

  /** The 1s of the window are counted by the buckets, each cut at the window's edge. */
  lemma {:induction false} OnesAreOverlaps(st: State, stream: seq<int>, w: int, lo: int)
    requires Represents(st, stream, w) && lo >= WindowEdge(w, st.maxID)
    ensures OnesFrom(stream, lo) == Sum(st.eh, Overlap(lo))
    decreases |stream| - lo
  {
    if lo >= |stream| {
      SumOfNone(st.eh, Overlap(lo));
    } else {
      OnesAreOverlaps(st, stream, w, lo + 1);
      forall b | b in st.eh ensures Overlap(lo).Of(b) == CoversOne(lo).Of(b) + Overlap(lo + 1).Of(b) {
        assert b.tsFirst > b.tsLast;
      }
      SumSplit(st.eh, CoversOne(lo), Overlap(lo + 1), Overlap(lo));
      if CoversPos(st.eh, lo) {
        var o :| o in st.eh && Covers(o, lo);
        forall b | b in st.eh && b != o ensures CoversOne(lo).Of(b) == 0 {
          assert Apart(b, o);
        }
        SumOfOne(st.eh, o, CoversOne(lo));
      } else {
        forall b | b in st.eh ensures CoversOne(lo).Of(b) == 0 {
        }
        SumOfNone(st.eh, CoversOne(lo));
      }
    }
  }

  /** The row whose TSFirst is the minimum. */
  ghost predicate IsOldest(eh: set<Bucket>, o: Bucket) {
    o in eh && forall b {:trigger b in eh} | b in eh :: o.tsFirst <= b.tsFirst
  }

  /** What the last INSERT emits: the sum of OnesCount minus half the oldest bucket. */
  ghost function Estimate(eh: set<Bucket>, oldest: Bucket): int {
    Total(eh) - Half(oldest.ones)
  }

  /** Only the oldest bucket can straddle the window's edge. */
  lemma {:induction false} TotalIsWindowPlusOutside(st: State, stream: seq<int>, w: int, o: Bucket)
    requires Represents(st, stream, w) && Unexpired(st, w) && IsOldest(st.eh, o)
    ensures var edge := WindowEdge(w, st.maxID);
            && Total(st.eh) == OnesFrom(stream, edge) + o.ones - Overlap(edge).Of(o)
            && 1 <= Overlap(edge).Of(o) <= o.ones
  {
    var edge := WindowEdge(w, st.maxID);
    OnesAreOverlaps(st, stream, w, edge);
    forall b | b in st.eh ensures Ones.Of(b) == Overlap(edge).Of(b) + Outside(o, edge).Of(b) {
      assert b == o || Apart(b, o);
    }
    SumSplit(st.eh, Overlap(edge), Outside(o, edge), Ones);
    SumOfOne(st.eh, o, Outside(o, edge));
  }

  /** The error bound, for every stream, every k and every W. */
  lemma {:induction false} EstimateErrorBound(k: int, w: int, stream: seq<int>, o: Bucket)
    requires |stream| >= 2 && IsOldest(Run(k, w, stream).eh, o)
    ensures var error := Estimate(Run(k, w, stream).eh, o) - OnesFrom(stream, WindowEdge(w, |stream| - 1));
            -(o.ones / 2) <= error <= o.ones / 2
  {
    RunRepresents(k, w, stream);
    var st := Run(k, w, stream);
    TotalIsWindowPlusOutside(st, stream, w, o);
    assert o.ones == 1 || o.ones % 2 == 0 by {
      RunPow2(k, w, stream);
      assert IsPow2(o.ones);
    }
  }

  /** A non-empty table has exactly one row with the minimal TSFirst, so the scalar subquery of the
      estimate never sees two. */
  lemma {:induction false} OldestUnique(eh: set<Bucket>, o: Bucket, o': Bucket)
    requires Shape(eh) && IsOldest(eh, o) && IsOldest(eh, o')
    ensures o == o'
  {
    assert o != o' ==> Apart(o, o');
  }

  lemma {:induction false} OldestExists(eh: set<Bucket>) returns (o: Bucket)
    requires eh != {}
    ensures IsOldest(eh, o)
    decreases eh
  {
    var x :| x in eh;
    if eh == {x} {
      o := x;
    } else {
      var rest := OldestExists(eh - {x});
      o := if rest.tsFirst < x.tsFirst then rest else x;
      assert forall b {:trigger b in eh} | b in eh :: b == x || b in eh - {x};
    }
  }

  // ---------- which window the estimate is about ----------

  /** The number of 1s that the expiry test keeps beyond the last W positions. */
  function Extra(stream: seq<int>, edge: int): int {
    (if 0 <= edge < |stream| && stream[edge] == 1 then 1 else 0)
    + (if 0 <= edge + 1 < |stream| && stream[edge + 1] == 1 then 1 else 0)
  }

  /** The declared window holds the last W positions; the expiry test keeps two more, and the estimate
      counts their 1s as well. */
  lemma {:induction false} DeclaredWindow(w: int, stream: seq<int>, maxID: int)
    requires maxID == |stream| - 1 && w >= 0
    ensures OnesFrom(stream, WindowEdge(w, maxID)) == OnesFrom(stream, maxID - w + 1) + Extra(stream, WindowEdge(w, maxID))
    ensures OnesFrom(stream, WindowEdge(w, maxID)) == OnesFrom(stream, maxID - w + 1)
       <==> forall p | maxID - w - 1 <= p <= maxID - w && 0 <= p < |stream| :: stream[p] != 1
  {
    var edge := WindowEdge(w, maxID);
    assert OnesFrom(stream, edge + 1) == (if edge + 1 >= 0 && stream[edge + 1] == 1 then 1 else 0) + OnesFrom(stream, edge + 2);
  }

  /** Read as a count of the last W positions, the estimate keeps its bound if and only if the oldest bucket
      reaches far enough into the window: a single 1 makes up for no extra 1, a larger bucket for as many
      as it has positions inside. */
  lemma {:induction false} DeclaredErrorBound(k: int, w: int, stream: seq<int>, o: Bucket)
    requires w >= 0 && |stream| >= 2 && IsOldest(Run(k, w, stream).eh, o)
    ensures var maxID := |stream| - 1;
            var edge, error := WindowEdge(w, maxID), Estimate(Run(k, w, stream).eh, o) - OnesFrom(stream, maxID - w + 1);
            -(o.ones / 2) <= error <= o.ones / 2 <==> Extra(stream, edge) <= if o.ones == 1 then 0 else Overlap(edge).Of(o)
  {
    RunRepresents(k, w, stream);
    var st := Run(k, w, stream);
    TotalIsWindowPlusOutside(st, stream, w, o);
    DeclaredWindow(w, stream, |stream| - 1);
    assert o.ones == 1 || o.ones % 2 == 0 by {
      RunPow2(k, w, stream);
      assert IsPow2(o.ones);
    }
    HalfBucket(o.ones, Overlap(WindowEdge(w, |stream| - 1)).Of(o), Extra(stream, WindowEdge(w, |stream| - 1)));
  }

  lemma {:induction false} HalfBucket(ones: int, inside: int, extra: int)
    requires (ones == 1 || ones % 2 == 0) && 1 <= inside <= ones && extra >= 0
    ensures var error := ones - inside - Half(ones) + extra;
            -(ones / 2) <= error <= ones / 2 <==> extra <= if ones == 1 then 0 else inside
  {
  }

  /** So that reading can miss by more than half a bucket: with W = 1 and the stream 1, 1, 0 the estimate
      is 2 while the last position holds no 1. */
  lemma {:induction false} DeclaredWindowMissed()
    ensures var stream := [1, 1, 0];
            var st := Run(2, 1, stream);
            && st.eh == {Fresh(0), Fresh(1)}
            && IsOldest(st.eh, Fresh(0))
            && Estimate(st.eh, Fresh(0)) == 2
            && OnesFrom(stream, st.maxID) == 0
  {
    MissedSteps();
    TwoRowSums({Fresh(0), Fresh(1)});
    assert [1, 1, 0] == [1] + [1] + [0];
    assert OnesFrom([1, 1, 0], 3) == 0;
  }

  lemma {:induction false} MissedSteps()
    ensures Good(State({Fresh(0)}, 0)) && Good(State({Fresh(0), Fresh(1)}, 1))
    ensures Step(State({Fresh(0)}, 0), 2, 1, 1) == State({Fresh(0), Fresh(1)}, 1)
    ensures Step(State({Fresh(0), Fresh(1)}, 1), 2, 1, 0) == State({Fresh(0), Fresh(1)}, 2)
  {
    var eh1, eh2 := {Fresh(0)}, {Fresh(0), Fresh(1)};
    InsertKeeps(eh1, 1);
    assert eh1 + {Fresh(1)} == eh2;
    MissedMerges(eh2);
    assert Record(eh1, 1, 2) == eh2;
    assert Expire(eh2, 1, 1) == eh2 && Expire(eh2, 1, 2) == eh2;
  }

  /** Two buckets of size 1 are too few for any merge when k = 2. */
  lemma {:induction false} MissedMerges(eh: set<Bucket>)
    requires eh == {Fresh(0), Fresh(1)} && Shape(eh)
    ensures Merge(eh, 1, 3) == eh && Cascade(eh, 2, 2) == eh
  {
    TwoRowSums(eh);
    assert !CanMerge(eh, 1, 3) && !CanMerge(eh, 2, 2) && !CanMerge(eh, 4, 2);
  }

  lemma {:induction false} TwoRowSums(eh: set<Bucket>)
    requires eh == {Fresh(0), Fresh(1)}
    ensures Count(eh, 1) == 2 && Total(eh) == 2
  {
    forall w: Weight ensures Sum(eh, w) == w.Of(Fresh(0)) + w.Of(Fresh(1)) {
      SumRemoveTwo(eh, Fresh(0), Fresh(1), w);
      assert eh - {Fresh(0), Fresh(1)} == {};
    }
  }
}
