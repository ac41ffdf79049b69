/**
  * The stack extent that adl/dbug/analyze.c reports: highstack and lowstack
  * over the stack bottoms of the S records, and the largest frame per name.
  */
module ProfileExtent {

  import opened ProfileLedger

  /** The bottoms of the S records among the first n, in order. */
  ghost function Bottoms(rs: seq<Record>, n: nat): seq<Unsigned>
    requires n <= |rs|
  {
    if n == 0 then [] else Bottoms(rs, n - 1) + if rs[n - 1].StackUse? then [rs[n - 1].bottom] else []
  }

  /** The largest frame that the first n records report for f. */
  ghost function Largest(rs: seq<Record>, n: nat, f: string): nat
    requires n <= |rs|
  {
    if n == 0 then 0
    else
      var m, r := Largest(rs, n - 1, f), rs[n - 1];
      if r.StackUse? && r.name == f && r.size > m then r.size else m
  }

  /** m is the largest frame of f in the trace, or zero when there is none. */
  ghost predicate LargestFrame(rs: seq<Record>, f: string, m: nat) {
    && (forall i | 0 <= i < |rs| && rs[i].StackUse? && rs[i].name == f :: rs[i].size <= m)
    && (m == 0 || exists i :: 0 <= i < |rs| && rs[i].StackUse? && rs[i].name == f && rs[i].size == m)
  }

  lemma {:induction false} LargestIs(rs: seq<Record>, n: nat, f: string)
    requires n <= |rs|
    ensures LargestFrame(rs[..n], f, Largest(rs, n, f))
  {
    if n > 0 {
      LargestIs(rs, n - 1, f);
      assert rs[..n] == rs[..n - 1] + [rs[n - 1]];
      var m := Largest(rs, n - 1, f);
      if m != 0 {
        var i :| 0 <= i < n - 1 && rs[..n - 1][i].StackUse? && rs[..n - 1][i].name == f && rs[..n - 1][i].size == m;
        assert rs[..n][i] == rs[..n - 1][i];
      }
      assert rs[..n][n - 1] == rs[n - 1];
    }
  }

  /** Highest and lowest stack as the program tracks them. */
  datatype Extent = Extent(high: Unsigned, low: Unsigned)

  function Widen(e: Extent, bottom: Unsigned): Extent {
    if bottom > e.high then e.(high := bottom)
    else if bottom < e.low then e.(low := bottom)
    else e
  }

  ghost function ExtentOf(bs: seq<Unsigned>, n: nat): Extent
    requires n <= |bs|
  {
    if n == 0 then Extent(0, WORD - 1) else Widen(ExtentOf(bs, n - 1), bs[n - 1])
  }

  lemma {:induction false} ExtentPrefix(bs: seq<Unsigned>, b: Unsigned, n: nat)
    requires n <= |bs|
    ensures ExtentOf(bs + [b], n) == ExtentOf(bs, n)
  {
    if n > 0 {
      ExtentPrefix(bs, b, n - 1);
    }
  }

  /** One S record more. */
  lemma {:induction false} ExtentStep(rs: seq<Record>, n: nat)
    requires n < |rs|
    ensures var bs, bs' := Bottoms(rs, n), Bottoms(rs, n + 1);
            ExtentOf(bs', |bs'|) == if rs[n].StackUse? then Widen(ExtentOf(bs, |bs|), rs[n].bottom) else ExtentOf(bs, |bs|)
  {
    var bs := Bottoms(rs, n);
    if rs[n].StackUse? {
      ExtentPrefix(bs, rs[n].bottom, |bs|);
    } else {
      assert Bottoms(rs, n + 1) == bs;
    }
  }

  /** highstack is the largest bottom. */
  lemma {:induction false} HighIsMaximum(bs: seq<Unsigned>, n: nat)
    requires n <= |bs|
    ensures forall i | 0 <= i < n :: bs[i] <= ExtentOf(bs, n).high
    ensures ExtentOf(bs, n).high == 0 || exists i :: 0 <= i < n && bs[i] == ExtentOf(bs, n).high
  {
    if n > 0 {
      HighIsMaximum(bs, n - 1);
    }
  }

  /** lowstack only looks at the bottoms that did not raise highstack. */
  ghost predicate Lowers(bs: seq<Unsigned>, i: nat)
    requires i < |bs|
  {
    bs[i] <= ExtentOf(bs, i).high
  }

  lemma {:induction false} LowAtMost(bs: seq<Unsigned>, n: nat, i: nat)
    requires i < n <= |bs| && Lowers(bs, i)
    ensures ExtentOf(bs, n).low <= bs[i]
  {
    if i < n - 1 {
      LowAtMost(bs, n - 1, i);
    }
  }

  lemma {:induction false} LowAttained(bs: seq<Unsigned>, n: nat) returns (i: nat)
    requires n <= |bs| && ExtentOf(bs, n).low != WORD - 1
    ensures i < n && Lowers(bs, i) && bs[i] == ExtentOf(bs, n).low
  {
    if ExtentOf(bs, n).low == ExtentOf(bs, n - 1).low {
      i := LowAttained(bs, n - 1);
    } else {
      i := n - 1;
    }
  }

  ghost predicate Minimum(bs: seq<Unsigned>, m: nat) {
    (forall i | 0 <= i < |bs| :: m <= bs[i]) && exists i :: 0 <= i < |bs| && bs[i] == m
  }

  /** A later bottom at or below the first one, or a first one at either end. */
  ghost predicate FirstRecurs(bs: seq<Unsigned>)
    requires |bs| > 0
  {
    bs[0] == 0 || bs[0] == WORD - 1 || exists j :: 1 <= j < |bs| && bs[j] <= bs[0]
  }

  lemma {:induction false} LowReached(bs: seq<Unsigned>, j: nat)
    requires 1 <= j < |bs| && bs[j] <= bs[0]
    ensures ExtentOf(bs, |bs|).low <= bs[j]
  {
    HighIsMaximum(bs, j);
    LowAtMost(bs, |bs|, j);
  }

  lemma {:induction false} LowFound(bs: seq<Unsigned>)
    requires |bs| > 0 && FirstRecurs(bs)
    ensures Minimum(bs, ExtentOf(bs, |bs|).low)
  {
    var n, low := |bs|, ExtentOf(bs, |bs|).low;
    if bs[0] == 0 {
      LowAtMost(bs, n, 0);
    } else if bs[0] != WORD - 1 {
      var j :| 1 <= j < n && bs[j] <= bs[0];
      LowReached(bs, j);
    }
    forall i | 0 <= i < n ensures low <= bs[i] {
      if i > 0 && bs[i] <= bs[0] {
        LowReached(bs, i);
      }
    }
    if low != WORD - 1 {
      var i := LowAttained(bs, n);
    } else {
      assert bs[0] == low;
    }
  }

  lemma {:induction false} LowLost(bs: seq<Unsigned>)
    requires |bs| > 0 && !FirstRecurs(bs)
    ensures !Minimum(bs, ExtentOf(bs, |bs|).low)
  {
    if ExtentOf(bs, |bs|).low != WORD - 1 {
      var i := LowAttained(bs, |bs|);
      assert bs[0] < bs[i];
    }
  }

  /** lowstack is the smallest bottom exactly when the first one recurs. */
  lemma {:induction false} LowIsMinimum(bs: seq<Unsigned>)
    requires |bs| > 0
    ensures Minimum(bs, ExtentOf(bs, |bs|).low) <==> FirstRecurs(bs)
  {
    if FirstRecurs(bs) {
      LowFound(bs);
    } else {
      LowLost(bs);
    }
  }

  /** A stack that only ever grows upward: the report starts at ~0. */
  lemma {:induction false} LowMissed()
    ensures ExtentOf([1, 2], 2) == Extent(2, WORD - 1)
    ensures !Minimum([1, 2], ExtentOf([1, 2], 2).low)
  {
    var bs: seq<Unsigned> := [1, 2];
    assert ExtentOf(bs, 1) == Widen(ExtentOf(bs, 0), 1);
    assert ExtentOf(bs, 2) == Widen(ExtentOf(bs, 1), 2);
  }
}
