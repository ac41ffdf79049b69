/**
  Rows of the EH table and sums over them.

  A bucket stands for a run of consecutive 1s: the positions `tsLast .. tsFirst - 1`
  of the stream.  No two rows of the table are ever equal and their order never matters, so the
  meaning of the table is a set of buckets.
 */
module Buckets {

  datatype Bucket = Bucket(tsFirst: int, tsLast: int, ones: int)

  predicate Covers(b: Bucket, p: int) {
    b.tsLast <= p < b.tsFirst
  }

  predicate Apart(x: Bucket, y: Bucket) {
    x.tsFirst <= y.tsLast || y.tsFirst <= x.tsLast
  }

  /** The row that a merge of the newer bucket `a` with the older bucket `b` inserts. */
  function Joined(a: Bucket, b: Bucket): Bucket {
    Bucket(a.tsFirst, b.tsLast, a.ones + b.ones)
  }

  /** Integer division by two of C: rounds toward zero. */
  function Half(k: int): int {
    if k >= 0 then k / 2 else -((-k) / 2)
  }

  predicate IsPow2(n: int) {
    n == 1 || (n > 1 && n % 2 == 0 && IsPow2(n / 2))
  }

  lemma {:induction false} NextPow2(s: int, t: int)
    requires IsPow2(s) && IsPow2(t) && s < t
    ensures 2 * s <= t
  {
    if s != 1 {
      NextPow2(s / 2, t / 2);
    }
  }

  // ---------- weighted sums over the table ----------

  /** Number of positions from `lo` on that a bucket covers. */
  function From(b: Bucket, lo: int): int {
    if lo >= b.tsFirst then 0 else if lo >= b.tsLast then b.tsFirst - lo else b.tsFirst - b.tsLast
  }

  /** What a row adds to a sum over the table. */
  datatype Weight =
    | Ones                              // its OnesCount
    | SizeIs(size: int)                 // 1 if its OnesCount is `size`
    | SizeTimes(size: int)              // its OnesCount if that is `size`
    | UpTo(size: int)                   // its OnesCount if that is at most `size`
    | CoversOne(p: int)                 // 1 if it covers position p
    | Overlap(lo: int)                  // the positions from lo on that it covers
    | Itself(row: Bucket)               // its OnesCount if it is `row`
    | Outside(row: Bucket, lo: int)     // the positions of `row` before lo
  {
    function Of(b: Bucket): int {
      match this
      case Ones => b.ones
      case SizeIs(size) => if b.ones == size then 1 else 0
      case SizeTimes(size) => if b.ones == size then size else 0
      case UpTo(size) => if b.ones <= size then b.ones else 0
      case CoversOne(p) => if Covers(b, p) then 1 else 0
      case Overlap(lo) => From(b, lo)
      case Itself(row) => if b == row then b.ones else 0
      case Outside(row, lo) => if b == row then b.ones - From(b, lo) else 0
    }
  }

  ghost function Sum(eh: set<Bucket>, w: Weight): int {
    if eh == {} then 0
    else var x :| x in eh; w.Of(x) + Sum(eh - {x}, w)
  }

  /** Number of rows with OnesCount equal to `size`. */
  ghost function Count(eh: set<Bucket>, size: int): int {
    Sum(eh, SizeIs(size))
  }

  /** Sum of OnesCount over the table. */
  ghost function Total(eh: set<Bucket>): int {
    Sum(eh, Ones)
  }

  /** The order of summation does not matter. */
  lemma {:induction false} SumRemove(eh: set<Bucket>, y: Bucket, w: Weight)
    requires y in eh
    ensures Sum(eh, w) == w.Of(y) + Sum(eh - {y}, w)
    decreases eh
  {
    var x :| x in eh && Sum(eh, w) == w.Of(x) + Sum(eh - {x}, w);
    if x != y {
      SumRemove(eh - {x}, y, w);
      SumRemove(eh - {y}, x, w);
      assert eh - {x} - {y} == eh - {y} - {x};
    }
  }

  lemma {:induction false} SumAdd(eh: set<Bucket>, y: Bucket, w: Weight)
    requires y !in eh
    ensures Sum(eh + {y}, w) == Sum(eh, w) + w.Of(y)
  {
    SumRemove(eh + {y}, y, w);
    assert eh + {y} - {y} == eh;
  }

  lemma {:induction false} SumRemoveTwo(eh: set<Bucket>, a: Bucket, b: Bucket, w: Weight)
    requires a in eh && b in eh && a != b
    ensures Sum(eh - {a, b}, w) == Sum(eh, w) - w.Of(a) - w.Of(b)
  {
    SumRemove(eh, a, w);
    SumRemove(eh - {a}, b, w);
    assert eh - {a} - {b} == eh - {a, b};
  }

  /** Sums compare pointwise. */
  lemma {:induction false} SumBelow(eh: set<Bucket>, f: Weight, g: Weight, h: Weight)
    requires forall b | b in eh :: f.Of(b) + g.Of(b) <= h.Of(b)
    ensures Sum(eh, f) + Sum(eh, g) <= Sum(eh, h)
    decreases eh
  {
    if eh != {} {
      var x :| x in eh;
      SumRemove(eh, x, f);
      SumRemove(eh, x, g);
      SumRemove(eh, x, h);
      SumBelow(eh - {x}, f, g, h);
    }
  }

  lemma {:induction false} SumSplit(eh: set<Bucket>, f: Weight, g: Weight, h: Weight)
    requires forall b | b in eh :: h.Of(b) == f.Of(b) + g.Of(b)
    ensures Sum(eh, h) == Sum(eh, f) + Sum(eh, g)
    decreases eh
  {
    if eh != {} {
      var x :| x in eh;
      SumRemove(eh, x, f);
      SumRemove(eh, x, g);
      SumRemove(eh, x, h);
      SumSplit(eh - {x}, f, g, h);
    }
  }

  lemma {:induction false} SumOfNone(eh: set<Bucket>, f: Weight)
    requires forall b | b in eh :: f.Of(b) == 0
    ensures Sum(eh, f) == 0
    decreases eh
  {
    if eh != {} {
      var x :| x in eh;
      SumRemove(eh, x, f);
      SumOfNone(eh - {x}, f);
    }
  }

  /** A sum of a weight that is zero on all rows but one. */
  lemma {:induction false} SumOfOne(eh: set<Bucket>, o: Bucket, f: Weight)
    requires o in eh
    requires forall b | b in eh && b != o :: f.Of(b) == 0
    ensures Sum(eh, f) == f.Of(o)
  {
    SumRemove(eh, o, f);
    SumOfNone(eh - {o}, f);
  }

  lemma {:induction false} SumNonNegative(eh: set<Bucket>, f: Weight)
    requires forall b | b in eh :: f.Of(b) >= 0
    ensures Sum(eh, f) >= 0
    decreases eh
  {
    if eh != {} {
      var x :| x in eh;
      SumRemove(eh, x, f);
      SumNonNegative(eh - {x}, f);
    }
  }

  lemma {:induction false} SumAtLeastTwo(eh: set<Bucket>, a: Bucket, b: Bucket, f: Weight)
    requires a in eh && b in eh && a != b
    requires forall x | x in eh :: f.Of(x) >= 0
    ensures Sum(eh, f) >= f.Of(a) + f.Of(b)
  {
    SumRemoveTwo(eh, a, b, f);
    SumNonNegative(eh - {a, b}, f);
  }
}
