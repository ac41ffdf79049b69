/**
  * The candidate table myWin of the windowed top-k aggregate
  * (Samples/aggr/top-k-win.cc): a tuple leaves the table once K later tuples
  * are at least as large, or once it slides out of the window.
  */
module TopK {

  const K: nat := 30
  const WIDTH: nat := 10000

  datatype Row = Row(id: int, val: int, cnt: int)

  /** How many of the values from position i on are at least v. */
  ghost function CountFrom(xs: seq<int>, i: nat, v: int): nat
    decreases |xs| - i
  {
    if i >= |xs| then 0 else (if xs[i] >= v then 1 else 0) + CountFrom(xs, i + 1, v)
  }

  /** How many values arrived after position i and are at least as large. */
  ghost function Beaten(xs: seq<int>, i: nat): nat
    requires i < |xs|
  {
    CountFrom(xs, i + 1, xs[i])
  }

  /** The oldest position of the current window: ids max-9999..max. */
  ghost function Oldest(xs: seq<int>): nat {
    if |xs| < WIDTH then 0 else |xs| - WIDTH
  }

  ghost function Cell(xs: seq<int>, i: nat): seq<Row>
    requires i < |xs|
  {
    if Beaten(xs, i) < K then [Row(i + 1, xs[i], Beaten(xs, i))] else []
  }

  /** The rows of the positions lo..hi beaten fewer than K times, in order. */
  ghost function Rows(xs: seq<int>, lo: nat, hi: nat): seq<Row>
    requires lo <= hi <= |xs|
  {
    if lo == hi then [] else Rows(xs, lo, hi - 1) + Cell(xs, hi - 1)
  }

  /** What the table must hold after the stream xs. */
  ghost function Candidates(xs: seq<int>): seq<Row> {
    Rows(xs, Oldest(xs), |xs|)
  }

  // ---------- the statements that change the table ----------

  /** DELETE of the expired rows among the first n. */
  ghost function Unexpired(rows: seq<Row>, n: nat, max: int): seq<Row>
    requires n <= |rows|
  {
    if n == 0 then [] else
      Unexpired(rows, n - 1, max) + if rows[n - 1].id + WIDTH == max then [] else [rows[n - 1]]
  }

  /** UPDATE of one row. */
  function Counted(r: Row, next: int, max: int): Row {
    if r.val <= next && r.id != max then r.(cnt := r.cnt + 1) else r
  }

  ghost predicate Bumped(rows: seq<Row>, rows': seq<Row>, next: int, max: int) {
    && |rows'| == |rows|
    && forall i | 0 <= i < |rows| :: rows'[i] == Counted(rows[i], next, max)
  }

  /** DELETE of the rows counted K times among the first n. */
  ghost function Pruned(rows: seq<Row>, n: nat): seq<Row>
    requires n <= |rows|
  {
    if n == 0 then [] else
      Pruned(rows, n - 1) + if rows[n - 1].cnt >= K then [] else [rows[n - 1]]
  }

  /** UPDATE and the second DELETE together. */
  ghost function Passed(rows: seq<Row>, n: nat, next: int, max: int): seq<Row>
    requires n <= |rows|
  {
    if n == 0 then [] else
      var r := Counted(rows[n - 1], next, max);
      Passed(rows, n - 1, next, max) + if r.cnt >= K then [] else [r]
  }

  lemma {:induction false} PrunedIsPassed(rows: seq<Row>, rows': seq<Row>, n: nat, next: int, max: int)
    requires n <= |rows| && Bumped(rows, rows', next, max)
    ensures Pruned(rows', n) == Passed(rows, n, next, max)
  {
    if n > 0 {
      PrunedIsPassed(rows, rows', n - 1, next, max);
    }
  }

  lemma {:induction false} UnexpiredFrame(a: seq<Row>, b: seq<Row>, n: nat, max: int)
    requires n <= |a|
    ensures Unexpired(a + b, n, max) == Unexpired(a, n, max)
  {
    if n > 0 {
      UnexpiredFrame(a, b, n - 1, max);
    }
  }

  lemma {:induction false} PassedFrame(a: seq<Row>, b: seq<Row>, n: nat, next: int, max: int)
    requires n <= |a|
    ensures Passed(a + b, n, next, max) == Passed(a, n, next, max)
  {
    if n > 0 {
      PassedFrame(a, b, n - 1, next, max);
    }
  }

  lemma {:induction false} UnexpiredSnoc(rows: seq<Row>, r: Row, max: int)
    ensures Unexpired(rows + [r], |rows| + 1, max)
         == Unexpired(rows, |rows|, max) + if r.id + WIDTH == max then [] else [r]
  {
    UnexpiredFrame(rows, [r], |rows|, max);
  }

  lemma {:induction false} PassedSnoc(rows: seq<Row>, r: Row, next: int, max: int)
    ensures Passed(rows + [r], |rows| + 1, next, max)
         == Passed(rows, |rows|, next, max)
            + if Counted(r, next, max).cnt >= K then [] else [Counted(r, next, max)]
  {
    PassedFrame(rows, [r], |rows|, next, max);
  }

  // ---------- one tuple more ----------

  lemma {:induction false} CountSnoc(xs: seq<int>, x: int, i: nat, v: int)
    requires i <= |xs|
    ensures CountFrom(xs + [x], i, v) == CountFrom(xs, i, v) + if x >= v then 1 else 0
    decreases |xs| - i
  {
    if i < |xs| {
      CountSnoc(xs, x, i + 1, v);
    } else {
      assert CountFrom(xs + [x], i + 1, v) == 0;
    }
  }

  lemma {:induction false} ExpireCell(xs: seq<int>, rows: seq<Row>, i: nat)
    requires i < |xs|
    ensures var rows' := rows + Cell(xs, i);
            Unexpired(rows', |rows'|, |xs| + 1)
              == Unexpired(rows, |rows|, |xs| + 1) + if i + WIDTH == |xs| then [] else Cell(xs, i)
  {
    if Beaten(xs, i) < K {
      UnexpiredSnoc(rows, Row(i + 1, xs[i], Beaten(xs, i)), |xs| + 1);
    } else {
      assert rows + Cell(xs, i) == rows;
    }
  }

  /** The expiry statement keeps every position but |xs| - WIDTH. */
  lemma {:induction false} ExpireNone(xs: seq<int>, lo: nat, hi: nat)
    requires lo <= hi <= |xs| && |xs| - WIDTH < lo
    ensures var rows := Rows(xs, lo, hi); Unexpired(rows, |rows|, |xs| + 1) == rows
  {
    if lo < hi {
      ExpireNone(xs, lo, hi - 1);
      ExpireCell(xs, Rows(xs, lo, hi - 1), hi - 1);
    }
  }

  lemma {:induction false} ExpireFirst(xs: seq<int>, lo: nat, hi: nat)
    requires lo < hi <= |xs| && |xs| - WIDTH == lo
    ensures var rows := Rows(xs, lo, hi); Unexpired(rows, |rows|, |xs| + 1) == Rows(xs, lo + 1, hi)
  {
    ExpireCell(xs, Rows(xs, lo, hi - 1), hi - 1);
    if lo + 1 < hi {
      ExpireFirst(xs, lo, hi - 1);
    } else {
      assert Rows(xs, lo, lo) == [];
    }
  }

  /** Before the new tuple arrives the table is cut to its window. */
  lemma {:induction false} ExpireCandidates(xs: seq<int>)
    ensures var rows := Candidates(xs);
            Unexpired(rows, |rows|, |xs| + 1) == Rows(xs, if |xs| < WIDTH then 0 else |xs| - WIDTH + 1, |xs|)
  {
    if |xs| < WIDTH {
      ExpireNone(xs, 0, |xs|);
    } else {
      ExpireFirst(xs, |xs| - WIDTH, |xs|);
    }
  }

  /** Counting the new value against one more position, then pruning it. */
  lemma {:induction false} PassCell(xs: seq<int>, x: int, rows: seq<Row>, i: nat)
    requires i < |xs|
    ensures var rows' := rows + Cell(xs, i);
            Passed(rows', |rows'|, x, |xs| + 1) == Passed(rows, |rows|, x, |xs| + 1) + Cell(xs + [x], i)
  {
    CountSnoc(xs, x, i + 1, xs[i]);
    if Beaten(xs, i) < K {
      PassedSnoc(rows, Row(i + 1, xs[i], Beaten(xs, i)), x, |xs| + 1);
    } else {
      assert rows + Cell(xs, i) == rows;
    }
  }

  /** Counting the new value and pruning turns the old rows into the new. */
  lemma {:induction false} PassRows(xs: seq<int>, x: int, lo: nat, hi: nat)
    requires lo <= hi <= |xs|
    ensures var rows := Rows(xs, lo, hi);
            Passed(rows, |rows|, x, |xs| + 1) == Rows(xs + [x], lo, hi)
  {
    if lo < hi {
      PassRows(xs, x, lo, hi - 1);
      PassCell(xs, x, Rows(xs, lo, hi - 1), hi - 1);
    }
  }

  /** One iteration of the aggregate on the table. */
  ghost function Step(rows: seq<Row>, max: int, next: int): seq<Row> {
    var grown := Unexpired(rows, |rows|, max) + [Row(max, next, 0)];
    Passed(grown, |grown|, next, max)
  }

  /** The table stays equal to its definition over the whole stream. */
  lemma {:induction false} StepCandidates(xs: seq<int>, x: int)
    ensures Step(Candidates(xs), |xs| + 1, x) == Candidates(xs + [x])
  {
    var lo := if |xs| < WIDTH then 0 else |xs| - WIDTH + 1;
    assert Oldest(xs + [x]) == lo;
    ExpireCandidates(xs);
    PassedSnoc(Rows(xs, lo, |xs|), Row(|xs| + 1, x, 0), x, |xs| + 1);
    PassRows(xs, x, lo, |xs|);
    assert CountFrom(xs + [x], |xs| + 1, x) == 0;
  }

  // ---------- what the table is good for ----------

  /** How many of the first n rows have a value of at least v. */
  ghost function AtLeast(rows: seq<Row>, n: nat, v: int): nat
    requires n <= |rows|
  {
    if n == 0 then 0 else AtLeast(rows, n - 1, v) + if rows[n - 1].val >= v then 1 else 0
  }

  lemma {:induction false} AtLeastFrame(a: seq<Row>, b: seq<Row>, n: nat, v: int)
    requires n <= |a|
    ensures AtLeast(a + b, n, v) == AtLeast(a, n, v)
  {
    if n > 0 {
      AtLeastFrame(a, b, n - 1, v);
    }
  }

  /** The threshold query on the table. */
  ghost function TableCount(xs: seq<int>, v: int): nat {
    AtLeast(Candidates(xs), |Candidates(xs)|, v)
  }

  /** The same query on the whole window. */
  ghost function WindowCount(xs: seq<int>, v: int): nat {
    CountFrom(xs, Oldest(xs), v)
  }

  ghost function Least(a: nat, b: nat): nat {
    if a < b then a else b
  }

  /** Positions from i on that are at least v and still in the table. */
  ghost function KeptFrom(xs: seq<int>, i: nat, v: int): nat
    decreases |xs| - i
  {
    if i >= |xs| then 0
    else (if xs[i] >= v && Beaten(xs, i) < K then 1 else 0) + KeptFrom(xs, i + 1, v)
  }

  lemma {:induction false} CountAntitone(xs: seq<int>, i: nat, v: int, w: int)
    requires v <= w
    ensures CountFrom(xs, i, w) <= CountFrom(xs, i, v)
    decreases |xs| - i
  {
    if i < |xs| {
      CountAntitone(xs, i + 1, v, w);
    }
  }

  /** A pruned tuple has K unpruned witnesses behind it, whatever the threshold. */
  lemma {:induction false} KeptEnough(xs: seq<int>, i: nat, v: int)
    ensures Least(K, KeptFrom(xs, i, v)) == Least(K, CountFrom(xs, i, v))
    ensures KeptFrom(xs, i, v) <= CountFrom(xs, i, v)
    decreases |xs| - i
  {
    if i < |xs| {
      KeptEnough(xs, i + 1, v);
      if xs[i] >= v && Beaten(xs, i) >= K {
        CountAntitone(xs, i + 1, v, xs[i]);
      }
    }
  }

  lemma {:induction false} RowsCount(xs: seq<int>, lo: nat, hi: nat, v: int)
    requires lo <= hi <= |xs|
    ensures var rows := Rows(xs, lo, hi);
            KeptFrom(xs, lo, v) == AtLeast(rows, |rows|, v) + KeptFrom(xs, hi, v)
  {
    if lo < hi {
      RowsCount(xs, lo, hi - 1, v);
      var front := Rows(xs, lo, hi - 1);
      AtLeastFrame(front, Cell(xs, hi - 1), |front|, v);
    }
  }

  /** Every threshold query capped at K agrees on the table and the window. */
  lemma {:induction false} ThresholdAgrees(xs: seq<int>, v: int)
    ensures Least(K, TableCount(xs, v)) == Least(K, WindowCount(xs, v))
  {
    RowsCount(xs, Oldest(xs), |xs|, v);
    KeptEnough(xs, Oldest(xs), v);
  }

  /** The r-th largest value is the same in the table and in the window: r values reach it, fewer exceed it. */
  lemma {:induction false} TopKAgrees(xs: seq<int>, v: int, r: nat)
    requires 1 <= r <= 30
    ensures TableCount(xs, v + 1) < r <= TableCount(xs, v) <==> WindowCount(xs, v + 1) < r <= WindowCount(xs, v)
  {
    ThresholdAgrees(xs, v);
    ThresholdAgrees(xs, v + 1);
  }

  // ---------- the counts and the table, position by position ----------

  lemma {:induction false} CountIs(xs: seq<int>, i: nat, v: int)
    ensures CountFrom(xs, i, v) == |set j: nat | i <= j < |xs| && xs[j] >= v|
    decreases |xs| - i
  {
    var s := set j: nat | i <= j < |xs| && xs[j] >= v;
    if i < |xs| {
      CountIs(xs, i + 1, v);
      var s' := set j: nat | i + 1 <= j < |xs| && xs[j] >= v;
      assert s == if xs[i] >= v then s' + {i} else s';
    } else {
      assert s == {};
    }
  }

  lemma {:induction false} AtLeastIs(rows: seq<Row>, n: nat, v: int)
    requires n <= |rows|
    ensures AtLeast(rows, n, v) == |set j: nat | j < n && rows[j].val >= v|
  {
    var s := set j: nat | j < n && rows[j].val >= v;
    if n > 0 {
      AtLeastIs(rows, n - 1, v);
      var s' := set j: nat | j < n - 1 && rows[j].val >= v;
      assert s == if rows[n - 1].val >= v then s' + {n - 1} else s';
    } else {
      assert s == {};
    }
  }

  /** The threshold queries count the last 10000 values, and the rows. */
  lemma {:induction false} QueriesAre(xs: seq<int>, v: int)
    ensures WindowCount(xs, v) == |set j: nat | |xs| - 10000 <= j < |xs| && xs[j] >= v|
    ensures TableCount(xs, v) == |set j: nat | j < |Candidates(xs)| && Candidates(xs)[j].val >= v|
  {
    CountIs(xs, Oldest(xs), v);
    assert (set j: nat | Oldest(xs) <= j < |xs| && xs[j] >= v) == set j: nat | |xs| - 10000 <= j < |xs| && xs[j] >= v;
    AtLeastIs(Candidates(xs), |Candidates(xs)|, v);
  }

  lemma {:induction false} RowsAre(xs: seq<int>, lo: nat, hi: nat, r: Row)
    requires lo <= hi <= |xs|
    ensures r in Rows(xs, lo, hi)
       <==> lo < r.id <= hi && r.val == xs[r.id - 1] && r.cnt == Beaten(xs, r.id - 1) < K
  {
    if lo < hi {
      RowsAre(xs, lo, hi - 1, r);
    }
  }

  ghost predicate Ascending(rows: seq<Row>) {
    forall p, q | 0 <= p < q < |rows| :: rows[p].id < rows[q].id
  }

  lemma {:induction false} RowsAscend(xs: seq<int>, lo: nat, hi: nat)
    requires lo <= hi <= |xs|
    ensures Ascending(Rows(xs, lo, hi))
  {
    if lo < hi {
      RowsAscend(xs, lo, hi - 1);
      var rows := Rows(xs, lo, hi - 1);
      forall p | 0 <= p < |rows| ensures rows[p].id < hi {
        assert rows[p] in rows;
        RowsAre(xs, lo, hi - 1, rows[p]);
      }
    }
  }

  /** The table holds, by ascending id, the last 10000 values with fewer than 30 later ones as large. */
  lemma {:induction false} CandidatesAre(xs: seq<int>, r: Row)
    ensures r in Candidates(xs)
       <==> && 1 <= r.id <= |xs| && |xs| - 10000 < r.id && r.val == xs[r.id - 1]
            && r.cnt == |set j: nat | r.id <= j < |xs| && xs[j] >= r.val| < 30
    ensures Ascending(Candidates(xs))
  {
    RowsAre(xs, Oldest(xs), |xs|, r);
    RowsAscend(xs, Oldest(xs), |xs|);
    if 1 <= r.id <= |xs| && r.val == xs[r.id - 1] {
      CountIs(xs, r.id, r.val);
    }
  }

  // ---------- nothing is kept in vain ----------

  ghost function Repeat(v: int, m: nat): seq<int> {
    seq(m, _ => v)
  }

  lemma {:induction false} CountLow(xs: seq<int>, m: nat, i: nat, v: int)
    requires i <= |xs|
    ensures CountFrom(xs + Repeat(v - 1, m), i, v) == CountFrom(xs, i, v)
    decreases m
  {
    if m == 0 {
      assert xs + Repeat(v - 1, m) == xs;
    } else {
      CountLow(xs, m - 1, i, v);
      assert xs + Repeat(v - 1, m) == (xs + Repeat(v - 1, m - 1)) + [v - 1];
      CountSnoc(xs + Repeat(v - 1, m - 1), v - 1, i, v);
    }
  }

  /**
    * Every kept tuple can become one of the K largest: when only smaller
    * values follow until it is the oldest of the window, the window without it
    * answers the threshold query of its own value differently.
    */
  lemma {:induction false} NothingKeptInVain(xs: seq<int>, i: nat)
    requires Oldest(xs) <= i < |xs| && Beaten(xs, i) < K
    ensures var ys := xs + Repeat(xs[i] - 1, i + 10000 - |xs|);
            Oldest(ys) == i && ys[i] == xs[i]
            && Least(30, CountFrom(ys, i + 1, xs[i])) < Least(30, WindowCount(ys, xs[i]))
  {
    var m := i + WIDTH - |xs|;
    CountLow(xs, m, i, xs[i]);
  }

  /** A scan stands at w[i], which came from rows[j]: what follows agrees. */
  ghost predicate Scanning(w: seq<Row>, i: nat, rows: seq<Row>, j: nat) {
    i <= |w| && j <= |rows| && w[i..] == rows[j..]
  }

  lemma {:induction false} ScanOn(w: seq<Row>, i: nat, rows: seq<Row>, j: nat)
    requires i < |w| && Scanning(w, i, rows, j)
    ensures j < |rows| && w[i] == rows[j] && w[..i + 1] == w[..i] + [w[i]]
    ensures Scanning(w, i + 1, rows, j + 1)
  {
    assert w[i..][0] == rows[j..][0];
    assert w[i + 1..] == w[i..][1..] && rows[j + 1..] == rows[j..][1..];
  }

  // ---------- the aggregate itself ----------

  /** The state and myWin tables of the aggregate. */
  class TopkNoOrder {
    var max: int
    var myWin: seq<Row>
    ghost var seen: seq<int>

    ghost predicate Valid()
      reads this
    {
      max == |seen| && myWin == Candidates(seen)
    }

    /** INITIALIZE. */
    constructor (next: int)
      ensures Valid() && seen == [next]
    {
      max := 1;
      myWin := [Row(1, next, 0)];
      seen := [next];
      new;
      assert CountFrom(seen, 1, next) == 0;
      assert Rows(seen, 0, 0) == [];
      assert Cell(seen, 0) == [Row(1, next, 0)];
      assert Rows(seen, 0, 1) == [Row(1, next, 0)];
    }

    /** ITERATE. */
    method Iterate(next: int)
      requires Valid()
      modifies this
      ensures Valid() && seen == old(seen) + [next]
    {
      StepCandidates(seen, next);
      max := max + 1;
      DeleteExpired();
      myWin := myWin + [Row(max, next, 0)];
      ghost var grown := myWin;
      CountNext(next);
      PrunedIsPassed(grown, myWin, |grown|, next, max);
      Prune();
      seen := seen + [next];
    }

    method DeleteExpired()
      modifies this`myWin
      ensures myWin == Unexpired(old(myWin), |old(myWin)|, max)
    {
      ghost var rows, j := myWin, 0;
      var i := 0;
      while i < |myWin|
        invariant 0 <= i <= |myWin| && Scanning(myWin, i, rows, j) && myWin[..i] == Unexpired(rows, j, max)
        decreases |rows| - j
      {
        ScanOn(myWin, i, rows, j);
        if myWin[i].id + WIDTH == max {
          myWin := myWin[..i] + myWin[i + 1..];
        } else {
          i := i + 1;
        }
        j := j + 1;
      }
    }

    method CountNext(next: int)
      modifies this`myWin
      ensures Bumped(old(myWin), myWin, next, max)
    {
      ghost var rows := myWin;
      var i := 0;
      while i < |myWin|
        invariant 0 <= i <= |myWin| == |rows|
        invariant forall j | 0 <= j < i :: myWin[j] == Counted(rows[j], next, max)
        invariant forall j | i <= j < |rows| :: myWin[j] == rows[j]
      {
        if myWin[i].val <= next && myWin[i].id != max {
          myWin := myWin[i := myWin[i].(cnt := myWin[i].cnt + 1)];
        }
        i := i + 1;
      }
    }

    method Prune()
      modifies this`myWin
      ensures myWin == Pruned(old(myWin), |old(myWin)|)
    {
      ghost var rows, j := myWin, 0;
      var i := 0;
      while i < |myWin|
        invariant 0 <= i <= |myWin| && Scanning(myWin, i, rows, j) && myWin[..i] == Pruned(rows, j)
        decreases |rows| - j
      {
        ScanOn(myWin, i, rows, j);
        if myWin[i].cnt >= K {
          myWin := myWin[..i] + myWin[i + 1..];
        } else {
          i := i + 1;
        }
        j := j + 1;
      }
    }
  }
}
