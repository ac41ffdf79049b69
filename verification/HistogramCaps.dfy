/**
  When the table keeps its caps over whole steps and runs: if and only if every 1 finds, up to the first
  size that is not full, the oldest bucket of each size followed immediately by another bucket or about to
  expire.  Consecutive 1s are a case where that always holds, an isolated 1 one where it never does.
 */
module HistogramCaps {
  import opened Buckets
  import opened Histogram
  import opened HistogramBound
  import opened HistogramOrder
  import opened HistogramCascade

  // ---------- whole steps ----------

  /** The oldest bucket of size s is about to leave the window. */
  ghost predicate Leaving(eh: set<Bucket>, w: int, id: int, s: int) {
    forall b | OldestOf(eh, s, b) :: b.tsFirst + w < id
  }

  /** Every full size gets rid of a bucket, by a merge or by expiry. */
  ghost predicate Clear(eh: set<Bucket>, k: int, w: int, id: int) {
    forall s | IsPow2(s) && Full(eh, k, s) :: Joint(eh, id, s) || Leaving(eh, w, id, s)
  }

  lemma {:induction false} CappedSubset(r: set<Bucket>, eh: set<Bucket>, k: int)
    requires r <= eh && Capped(eh, k, 0)
    ensures Capped(r, k, 0)
  {
    forall u ensures Count(r, u) <= Cap(k, u) {
      SubsetCount(r, eh, u);
      assert Count(eh, u) <= Cap(k, u) + (if u == 0 && u > 0 then 1 else 0);
    }
  }

  /** A surplus bucket is gone after the expiry if and only if the oldest one of its size expires. */
  lemma {:induction false} ExpireSurplus(r: set<Bucket>, k: int, w: int, id: int, s: int, b: Bucket)
    requires s > 0 && Capped(r, k, s) && Count(r, s) == Cap(k, s) + 1 && OldestOf(r, s, b)
    ensures Capped(Expire(r, w, id), k, 0) <==> b.tsFirst + w < id
  {
    var e := Expire(r, w, id);
    if b.tsFirst + w < id {
      SumRemove(r, b, SizeIs(s));
      forall u ensures Count(e, u) <= Cap(k, u) {
        SubsetCount(e, r, u);
        SubsetCount(e, r - {b}, u);
        assert Count(r, u) <= Cap(k, u) + (if u == s && u > 0 then 1 else 0);
      }
    } else {
      SubsetCount(e, r, s);
      assert Count(e, s) > Cap(k, s) + (if s == 0 && s > 0 then 1 else 0);
    }
  }

  lemma {:induction false} ClearAfter(eh: set<Bucket>, k: int, w: int, id: int, o: int, b: Bucket)
    requires Shape(eh) && Monotone(eh) && OldestOf(eh, o, b) && IsPow2(o)
    requires Full(eh, k, o) && !Joint(eh, id, o) && Passed(eh, k, id, o)
    ensures Clear(eh, k, w, id) <==> b.tsFirst + w < id
  {
    if b.tsFirst + w < id {
      forall s | IsPow2(s) && Full(eh, k, s) ensures Joint(eh, id, s) || Leaving(eh, w, id, s) {
        if s == o {
        } else if s > o {
          assert Leaving(eh, w, id, s);
        }
      }
    } else {
      assert !Leaving(eh, w, id, o);
    }
  }

  lemma {:induction false} RecordExpired(eh: set<Bucket>, k: int, w: int, id: int)
    requires k >= 0 && Ready(eh, k, id)
    ensures Capped(Expire(Record(eh, id, k), w, id), k, 0) <==> Clear(eh, k, w, id)
  {
    var r := Record(eh, id, k);
    var o := RecordOutcome(eh, k, id);
    if o == 0 {
      CappedSubset(Expire(r, w, id), r, k);
    } else {
      var b := OldestOfSize(eh, o);
      assert OldestOf(r, o, b);
      ExpireSurplus(r, k, w, id, o, b);
      ClearAfter(eh, k, w, id, o, b);
    }
  }

  /** The caps survive a step if and only if every full size is cleared, for a 1; always, for another value. */
  lemma {:induction false} StepCapped(st: State, k: int, w: int, next: int)
    requires k >= 0 && Good(st) && Pow2Sizes(st.eh) && Monotone(st.eh) && Capped(st.eh, k, 0)
    ensures Capped(Step(st, k, w, next).eh, k, 0) <==> (next == 1 ==> Clear(st.eh, k, w, st.maxID + 1))
  {
    var id := st.maxID + 1;
    if next == 1 {
      RecordExpired(st.eh, k, w, id);
      assert Step(st, k, w, next).eh == Expire(Record(st.eh, id, k), w, id);
    } else {
      assert Step(st, k, w, next).eh == Expire(st.eh, w, id);
      CappedSubset(Expire(st.eh, w, id), st.eh, k);
    }
  }

  // ---------- whole runs ----------

  /** The caps hold after the first n tuples. */
  ghost predicate CappedAt(k: int, w: int, stream: seq<int>, n: int)
    requires 1 <= n <= |stream|
  {
    Capped(Run(k, w, stream[..n]).eh, k, 0)
  }

  /** If the tuple after the first n is a 1, every full size is cleared. */
  ghost predicate ClearAt(k: int, w: int, stream: seq<int>, n: int)
    requires 1 <= n < |stream|
  {
    stream[n] == 1 ==> Clear(Run(k, w, stream[..n]).eh, k, w, n)
  }

  lemma {:induction false} FirstCapped(k: int, w: int, stream: seq<int>)
    requires k >= 0 && |stream| >= 1
    ensures CappedAt(k, w, stream, 1)
  {
    var eh := Run(k, w, stream[..1]).eh;
    forall s ensures Count(eh, s) <= Cap(k, s) {
      if eh != {} {
        SumOfOne(eh, Fresh(0), SizeIs(s));
      }
    }
  }

  lemma {:induction false} NextCapped(k: int, w: int, stream: seq<int>, n: int)
    requires k >= 0 && 1 <= n < |stream| && CappedAt(k, w, stream, n)
    ensures CappedAt(k, w, stream, n + 1) <==> ClearAt(k, w, stream, n)
  {
    var front := stream[..n];
    assert stream[..n + 1] == front + [stream[n]];
    RunOrdered(k, w, front);
    StepCapped(Run(k, w, front), k, w, stream[n]);
  }

  /** The caps hold after each of the first m tuples. */
  ghost predicate CappedUpTo(k: int, w: int, stream: seq<int>, m: nat)
    requires m <= |stream|
  {
    m == 0 || (CappedUpTo(k, w, stream, m - 1) && CappedAt(k, w, stream, m))
  }

  /** Each 1 among the first m tuples, after the first one, finds every full size cleared. */
  ghost predicate ClearUpTo(k: int, w: int, stream: seq<int>, m: nat)
    requires m <= |stream|
  {
    m <= 1 || (ClearUpTo(k, w, stream, m - 1) && ClearAt(k, w, stream, m - 1))
  }

  lemma {:induction false} CappedNeedsClear(k: int, w: int, stream: seq<int>, m: nat)
    requires k >= 0 && 1 <= m <= |stream| && CappedUpTo(k, w, stream, m)
    ensures ClearUpTo(k, w, stream, m)
    decreases m
  {
    if m > 1 {
      CappedNeedsClear(k, w, stream, m - 1);
      NextCapped(k, w, stream, m - 1);
    }
  }

  lemma {:induction false} ClearKeepsCapped(k: int, w: int, stream: seq<int>, m: nat)
    requires k >= 0 && 1 <= m <= |stream| && ClearUpTo(k, w, stream, m)
    ensures CappedUpTo(k, w, stream, m)
    decreases m
  {
    if m == 1 {
      FirstCapped(k, w, stream);
    } else {
      ClearKeepsCapped(k, w, stream, m - 1);
      NextCapped(k, w, stream, m - 1);
    }
  }

  /** The caps hold all along a run if and only if every 1 finds its way. */
  lemma {:induction false} RunCapped(k: int, w: int, stream: seq<int>, m: nat)
    requires k >= 0 && 1 <= m <= |stream|
    ensures CappedUpTo(k, w, stream, m) <==> ClearUpTo(k, w, stream, m)
  {
    if CappedUpTo(k, w, stream, m) {
      CappedNeedsClear(k, w, stream, m);
    } else if ClearUpTo(k, w, stream, m) {
      ClearKeepsCapped(k, w, stream, m);
    }
  }

  // ---------- consecutive 1s ----------

  /** All 1s of the stream are adjacent. */
  ghost predicate Consecutive(stream: seq<int>) {
    forall p, q, r | 0 <= p < q < r < |stream| && stream[p] == 1 && stream[r] == 1 :: stream[q] == 1
  }

  /** While the 1s are adjacent, a new 1 leaves no bucket without a follower. */
  lemma {:induction false} ConsecutiveFollowed(k: int, w: int, stream: seq<int>, n: int, b: Bucket)
    requires Consecutive(stream) && 1 <= n < |stream| && stream[n] == 1 && b in Run(k, w, stream[..n]).eh
    ensures Followed(Run(k, w, stream[..n]).eh + {Fresh(n)}, b)
  {
    var front := stream[..n];
    var st, p := Run(k, w, front), b.tsFirst;
    RunRepresents(k, w, front);
    BucketIsRun(st, front, w, b);
    assert front[p - 1] == 1;
    if p == n {
      assert Fresh(n) in st.eh + {Fresh(n)} && Fresh(n).tsLast == p;
    } else {
      assert stream[p - 1] == 1 && stream[p] == 1;
      assert front[p] == 1;
      assert CoversPos(st.eh, p);
      FollowedIsCovered(st.eh, b);
      var y :| y in st.eh && y.tsLast == p;
      assert y in st.eh + {Fresh(n)};
    }
  }

  lemma {:induction false} ConsecutiveClear(k: int, w: int, stream: seq<int>, m: nat)
    requires Consecutive(stream) && m <= |stream|
    ensures ClearUpTo(k, w, stream, m)
    decreases m
  {
    if m > 1 {
      ConsecutiveClear(k, w, stream, m - 1);
      if stream[m - 1] == 1 {
        var eh := Run(k, w, stream[..m - 1]).eh;
        forall b | b in eh ensures Followed(eh + {Fresh(m - 1)}, b) {
          ConsecutiveFollowed(k, w, stream, m - 1, b);
        }
      }
    }
  }

  /** For consecutive 1s: at most k + 1 buckets of size 1 and k/2 + 1 of each larger size, after every tuple. */
  lemma {:induction false} ConsecutiveCapped(k: int, w: int, stream: seq<int>)
    requires k >= 0 && stream != [] && Consecutive(stream)
    ensures Capped(Run(k, w, stream).eh, k, 0)
  {
    ConsecutiveClear(k, w, stream, |stream|);
    RunCapped(k, w, stream, |stream|);
    assert stream[..|stream|] == stream;
    assert CappedAt(k, w, stream, |stream|);
  }

  // ---------- a family of failures ----------

  /** The stream 1, 0 and n further 1s. */
  function Blocked(n: nat): (stream: seq<int>)
    ensures |stream| == n + 2
  {
    if n == 0 then [1, 0] else Blocked(n - 1) + [1]
  }

  function Singles(n: nat): set<Bucket> {
    if n == 0 then {Fresh(0)} else Singles(n - 1) + {Fresh(n + 1)}
  }

  /** Single buckets, the oldest at position 0, none at position 1. */
  ghost predicate Isolated(eh: set<Bucket>, id: int) {
    && Fresh(0) in eh
    && forall b {:trigger b in eh} | b in eh ::
         b.ones == 1 && b.tsFirst == b.tsLast + 1 && (b.tsLast == 0 || 2 <= b.tsLast <= id)
  }

  lemma {:induction false} BlockedStart(k: int, w: int)
    requires w >= 0
    ensures Run(k, w, Blocked(0)) == State({Fresh(0)}, 1)
  {
    var st := State({Fresh(0)}, 0);
    assert Run(k, w, [1]) == st;
    assert [1] + [0] == Blocked(0);
    assert Expire(st.eh, w, 1) == st.eh;
  }

  ghost predicate Reaches(k: int, w: int, stream: seq<int>, st: State) {
    stream != [] && Run(k, w, stream) == st
  }

  lemma {:induction false} BlockedRun(k: int, w: int, n: nat)
    requires w >= n
    ensures Reaches(k, w, Blocked(n), State(Singles(n), n + 1))
    decreases n
  {
    if n == 0 {
      BlockedStart(k, w);
    } else {
      BlockedRun(k, w, n - 1);
      SinglesIsolated(n - 1);
      BlockedMore(k, w, n, Blocked(n - 1), Singles(n - 1), Blocked(n), Singles(n));
    }
  }

  lemma {:induction false} BlockedMore(k: int, w: int, n: nat, front: seq<int>, eh: set<Bucket>, stream: seq<int>, eh': set<Bucket>)
    requires Reaches(k, w, front, State(eh, n))
    requires stream == front + [1] && eh' == eh + {Fresh(n + 1)} && Isolated(eh, n) && n >= 1 && w >= n
    ensures Reaches(k, w, stream, State(eh', n + 1))
  {
    BlockedNext(k, w, front, eh, n + 1);
  }

  lemma {:induction false} BlockedNext(k: int, w: int, front: seq<int>, eh: set<Bucket>, id: int)
    requires Reaches(k, w, front, State(eh, id - 1))
    requires Isolated(eh, id - 1) && id >= 2 && w + 1 >= id
    ensures Reaches(k, w, front + [1], State(eh + {Fresh(id)}, id))
  {
    BlockedStep(eh, k, w, id);
  }

  lemma {:induction false} SinglesIsolated(n: nat)
    ensures Isolated(Singles(n), n + 1)
  {
    if n > 0 {
      SinglesIsolated(n - 1);
    }
  }

  lemma {:induction false} BlockedStep(eh: set<Bucket>, k: int, w: int, id: int)
    requires Good(State(eh, id - 1)) && Isolated(eh, id - 1) && id >= 2 && w + 1 >= id
    ensures Step(State(eh, id - 1), k, w, 1) == State(eh + {Fresh(id)}, id)
  {
    var all := eh + {Fresh(id)};
    assert Expire(all, w, id) == all;
    assert Updated(State(eh, id - 1), k, 1) == all;
  }

  lemma {:induction false} SinglesCount(n: nat)
    ensures Count(Singles(n), 1) == n + 1
  {
    if n == 0 {
      SumOfOne({Fresh(0)}, Fresh(0), SizeIs(1));
    } else {
      SinglesCount(n - 1);
      SinglesIsolated(n - 1);
      SumAdd(Singles(n - 1), Fresh(n + 1), SizeIs(1));
    }
  }

  /** An isolated 1 at the start blocks every later merge of size-1 buckets: after 1, 0 and n further 1s
      the table holds n + 1 buckets of size 1, whatever k is. */
  lemma {:induction false} IsolatedOneBlocksMerging(k: int, w: int, n: nat)
    requires w >= n
    ensures Count(Run(k, w, Blocked(n)).eh, 1) == n + 1
  {
    BlockedRun(k, w, n);
    SinglesCount(n);
  }
}
