/**
  * The totals of the report of adl/dbug/analyze.c: a sum taken in order of
  * name is the sum over the modules, and 64-bit sums are exact modulo 2^64.
  */
module ProfileReport {

  import opened ProfileLedger
  import opened SearchTree

  /** What an unsigned long keeps of x. */
  function Wrap(x: int): (r: Unsigned) {
    x % WORD
  }

  /** What an unsigned int keeps of x. */
  function Narrow(x: nat): (r: nat)
    ensures r <= x
  {
    x % 0x1_0000_0000
  }

  lemma {:induction false} NarrowWraps(x: nat)
    ensures Narrow(Wrap(x)) == x % 0x1_0000_0000
  {
  }

  /** A count survives the unsigned int if and only if it fits. */
  lemma {:induction false} NarrowExact(x: nat)
    ensures Narrow(Wrap(x)) == x <==> x < 0x1_0000_0000
  {
  }

  lemma {:induction false} WrapAdd(x: int, y: int)
    ensures Wrap(Wrap(x) + y) == Wrap(x + y)
  {
    var k := x / WORD;
    assert x == k * WORD + x % WORD;
    WrapShift(Wrap(x) + y, k);
  }

  lemma {:induction false} WrapSubtract(x: int, y: int)
    ensures Wrap(x - Wrap(y)) == Wrap(x - y)
  {
    var k := y / WORD;
    assert y == k * WORD + y % WORD;
    WrapShift(x - Wrap(y), -k);
  }

  lemma {:induction false} WrapShift(x: int, k: int)
    ensures Wrap(x + k * WORD) == Wrap(x)
    decreases if k < 0 then -k else k
  {
    if k > 0 {
      WrapShift(x, k - 1);
      WrapTurn(x + (k - 1) * WORD);
    } else if k < 0 {
      WrapShift(x, k + 1);
      WrapTurn(x + k * WORD);
    }
  }

  lemma {:induction false} WrapTurn(x: int)
    ensures Wrap(x + WORD) == Wrap(x)
  {
  }

  /** The sum of v along the first n entries of order. */
  ghost function Along(order: seq<nat>, v: seq<int>, n: nat): int
    requires n <= |order| && InRange(order, |v|)
  {
    if n == 0 then 0 else Along(order, v, n - 1) + v[order[n - 1]]
  }

  lemma {:induction false} AlongPrefix(order: seq<nat>, order': seq<nat>, v: seq<int>, n: nat)
    requires n <= |order| && n <= |order'| && InRange(order, |v|) && InRange(order', |v|)
    requires forall p | 0 <= p < n :: order[p] == order'[p]
    ensures Along(order, v, n) == Along(order', v, n)
  {
    if n > 0 {
      AlongPrefix(order, order', v, n - 1);
    }
  }

  lemma {:induction false} AlongAppend(a: seq<nat>, b: seq<nat>, v: seq<int>, n: nat)
    requires InRange(a + b, |v|) && InRange(a, |v|) && InRange(b, |v|) && n <= |b|
    ensures Along(a + b, v, |a| + n) == Along(a, v, |a|) + Along(b, v, n)
  {
    if n == 0 {
      AlongPrefix(a, a + b, v, |a|);
    } else {
      AlongAppend(a, b, v, n - 1);
    }
  }

  /** Adding a whole listing, entry by entry, in a word. */
  lemma {:induction false} AlongWraps(s: int, a: seq<nat>, b: seq<nat>, v: seq<int>)
    requires InRange(a + b, |v|) && InRange(a, |v|) && InRange(b, |v|)
    ensures Wrap(Wrap(s + Along(a, v, |a|)) + Along(b, v, |b|)) == Wrap(s + Along(a + b, v, |a + b|))
  {
    AlongAppend(a, b, v, |b|);
    WrapAdd(s + Along(a, v, |a|), Along(b, v, |b|));
  }

  lemma {:induction false} AlongSnoc(a: seq<nat>, x: nat, v: seq<int>)
    requires InRange(a, |v|) && x < |v|
    ensures InRange(a + [x], |v|) && Along(a + [x], v, |a| + 1) == Along(a, v, |a|) + v[x]
  {
    assert forall p | 0 <= p < |a| :: (a + [x])[p] == a[p];
    AlongPrefix(a, a + [x], v, |a|);
  }

  /** r is the running total s after the values along order, in a word. */
  ghost predicate Totals(s: int, order: seq<nat>, v: seq<int>, r: int) {
    InRange(order, |v|) && r == Wrap(s + Along(order, v, |order|))
  }

  /** The running total after a left subtree and its parent. */
  lemma {:induction false} TotalOn(s: int, a: seq<nat>, left: seq<nat>, x: nat, v: seq<int>, r: int, r': int)
    requires Totals(s, a, v, r) && Totals(r, left, v, r') && x < |v|
    ensures Totals(s, a + left + [x], v, Wrap(r' + v[x]))
  {
    assert InRange(a + left, |v|);
    AlongWraps(s, a, left, v);
    AlongSnoc(a + left, x, v);
    var t := Along(a + left, v, |a + left|);
    WrapAdd(s + t, v[x]);
    assert s + (t + v[x]) == (s + t) + v[x];
  }

  /** Dropping one entry takes exactly its value away. */
  lemma {:induction false} AlongWithout(order: seq<nat>, k: nat, v: seq<int>, n: nat)
    requires k < n <= |order| && InRange(order, |v|) && InRange(order[..k] + order[k + 1..], |v|)
    ensures Along(order[..k] + order[k + 1..], v, n - 1) + v[order[k]] == Along(order, v, n)
  {
    var cut := order[..k] + order[k + 1..];
    if n == k + 1 {
      AlongPrefix(order, cut, v, k);
    } else {
      AlongWithout(order, k, v, n - 1);
    }
  }

  lemma {:induction false} AlongFrame(order: seq<nat>, v: seq<int>, v': seq<int>, n: nat)
    requires n <= |order| && InRange(order, |v|) && InRange(order, |v'|)
    requires forall x | 0 <= x < |v| && x < |v'| :: v[x] == v'[x]
    ensures Along(order, v, n) == Along(order, v', n)
  {
    if n > 0 {
      AlongFrame(order, v, v', n - 1);
    }
  }

  /** order lists 0..n, each once. */
  ghost predicate Permutes(order: seq<nat>, n: nat) {
    && InRange(order, n)
    && (forall p, q | 0 <= p < q < |order| :: order[p] != order[q])
    && forall i | 0 <= i < n :: i in order
  }

  lemma {:induction false} HasElement(s: seq<nat>)
    requires s != []
    ensures s[0] in s
  {
  }

  lemma {:induction false} PermutesNothing(order: seq<nat>)
    requires Permutes(order, 0)
    ensures order == []
  {
    if order != [] {
      HasElement(order);
      assert false;
    }
  }

  lemma {:induction false} PermutesWithout(order: seq<nat>, n: nat, k: nat)
    requires n > 0 && Permutes(order, n) && k < |order| && order[k] == n - 1
    ensures Permutes(order[..k] + order[k + 1..], n - 1)
  {
    var cut := order[..k] + order[k + 1..];
    forall p | 0 <= p < |cut| ensures cut[p] < n - 1 {
      assert cut[p] == order[if p < k then p else p + 1];
    }
    forall p, q | 0 <= p < q < |cut| ensures cut[p] != cut[q] {
      assert cut[p] == order[if p < k then p else p + 1];
      assert cut[q] == order[if q < k then q else q + 1];
    }
    forall i | 0 <= i < n - 1 ensures i in cut {
      assert i in order;
      var p :| 0 <= p < |order| && order[p] == i;
      assert i == if p < k then cut[p] else cut[p - 1];
    }
  }

  /** Every order of the modules gives the same total. */
  lemma {:induction false} AlongPermutation(order: seq<nat>, v: seq<int>)
    requires Permutes(order, |v|)
    ensures Along(order, v, |order|) == Sum(v, |v|)
    decreases |v|
  {
    var n := |v|;
    if n == 0 {
      PermutesNothing(order);
    } else {
      assert n - 1 in order;
      var k :| 0 <= k < |order| && order[k] == n - 1;
      PermutesWithout(order, n, k);
      var cut := order[..k] + order[k + 1..];
      AlongWithout(order, k, v, |order|);
      AlongPermutation(cut, v[..n - 1]);
      AlongFrame(cut, v, v[..n - 1], |cut|);
      SumPrefix(v, v[..n - 1], n - 1);
    }
  }

  /** v' holds v word by word. */
  ghost predicate Wraps(v: seq<int>, v': seq<int>) {
    |v'| == |v| && forall i | 0 <= i < |v| :: v'[i] == Wrap(v[i])
  }

  lemma {:induction false} SumWraps(v: seq<int>, v': seq<int>, n: nat)
    requires n <= |v| && Wraps(v, v')
    ensures Wrap(Sum(v', n)) == Wrap(Sum(v, n))
  {
    if n > 0 {
      SumWraps(v, v', n - 1);
      WrapAdd(Sum(v', n - 1), Wrap(v[n - 1]));
      WrapAdd(Sum(v, n - 1), Wrap(v[n - 1]));
      WrapAdd(v[n - 1], Sum(v, n - 1));
    }
  }

  ghost predicate Narrows(v: seq<int>, v': seq<int>) {
    |v'| == |v| && forall i | 0 <= i < |v| :: v[i] >= 0 && v'[i] == Narrow(v[i])
  }

  ghost predicate Small(v: seq<int>, n: nat)
    requires n <= |v|
  {
    forall i | 0 <= i < n :: v[i] < 0x1_0000_0000
  }

  lemma {:induction false} SumNarrows(v: seq<int>, v': seq<int>, n: nat)
    requires n <= |v| && Narrows(v, v')
    ensures 0 <= Sum(v', n) <= Sum(v, n)
    ensures Sum(v', n) == Sum(v, n) <==> Small(v, n)
  {
    if n > 0 {
      SumNarrows(v, v', n - 1);
    }
  }

  /**
    * out_item squeezes a call count into an unsigned int: below 2^64 calls the
    * reported total is right exactly when every count fits.
    */
  lemma {:induction false} CallsReported(v: seq<int>, v': seq<int>)
    requires Narrows(v, v') && Sum(v, |v|) < WORD
    ensures Wrap(Sum(v', |v|)) == Wrap(Sum(v, |v|)) <==> Small(v, |v|)
  {
    SumNarrows(v, v', |v|);
  }

  /** The time column of the report adds up to the program's total. */
  lemma {:induction false} TimeReported(t: seq<Node>, names: seq<string>, exact: seq<int>, v: seq<int>)
    requires Tree(t, names) && |v| == |t| && Wraps(exact, v)
    ensures var order := InOrder(t, 0);
            InRange(order, |v|) && Wrap(Along(order, v, |order|)) == Wrap(Sum(exact, |exact|))
  {
    AlongPermutation(InOrder(t, 0), v);
    SumWraps(exact, v, |v|);
  }

  /** v' keeps the low half of the word that v[i] takes. */
  ghost predicate Halves(v: seq<int>, v': seq<int>) {
    |v'| == |v| && forall i | 0 <= i < |v| :: v'[i] == Narrow(Wrap(v[i]))
  }

  ghost predicate Counts(v: seq<int>, n: nat)
    requires n <= |v|
  {
    forall i | 0 <= i < n :: v[i] >= 0
  }

  lemma {:induction false} SumCounts(v: seq<int>, n: nat, i: nat)
    requires n <= |v| && Counts(v, n)
    ensures 0 <= Sum(v, n) && (i < n ==> v[i] <= Sum(v, n))
  {
    if n > 0 {
      SumCounts(v, n - 1, i);
    }
  }

  lemma {:induction false} HalvesNarrow(exact: seq<int>, v: seq<int>)
    requires Halves(exact, v) && Counts(exact, |exact|) && Sum(exact, |exact|) < WORD
    ensures Narrows(exact, v)
  {
    forall i | 0 <= i < |exact| ensures exact[i] >= 0 && v[i] == Narrow(exact[i]) {
      SumCounts(exact, |exact|, i);
    }
  }

  /** The call column does so, short of 2^64 calls, exactly when every count fits its field. */
  lemma {:induction false} CallColumn(t: seq<Node>, names: seq<string>, exact: seq<int>, v: seq<int>)
    requires Tree(t, names) && |v| == |t| && Halves(exact, v)
    requires Counts(exact, |exact|) && Sum(exact, |exact|) < WORD
    ensures var order := InOrder(t, 0);
            InRange(order, |v|)
            && (Wrap(Along(order, v, |order|)) == Wrap(Sum(exact, |exact|)) <==> Small(exact, |exact|))
  {
    AlongPermutation(InOrder(t, 0), v);
    HalvesNarrow(exact, v);
    CallsReported(exact, v);
  }

  ghost function Words(v: seq<int>): (r: seq<int>)
    ensures Wraps(v, r)
  {
    seq(|v|, i requires 0 <= i < |v| => Wrap(v[i]))
  }

  ghost function HalfWords(v: seq<int>): (r: seq<int>)
    ensures Halves(v, r)
  {
    seq(|v|, i requires 0 <= i < |v| => Narrow(Wrap(v[i])))
  }

  /** Both totals of the report, from the books it is printed from. */
  lemma {:induction false} ReportTotals(t: seq<Node>, names: seq<string>, b: Books, calls: int, time: int)
    requires Tree(t, names) && Balanced(b) && |b.times| == |t|
    requires Totals(0, InOrder(t, 0), Words(b.times), time) && Totals(0, InOrder(t, 0), HalfWords(b.calls), calls)
    ensures time == Wrap(b.totTime)
    ensures b.totCalls < WORD ==> (calls == b.totCalls <==> Small(b.calls, |b.calls|))
  {
    TimeReported(t, names, b.times, Words(b.times));
    if b.totCalls < WORD {
      SumCounts(b.calls, |b.calls|, 0);
      CallColumn(t, names, b.calls, HalfWords(b.calls));
    }
  }
}
