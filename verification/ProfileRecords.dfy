/**
  * What a trace says on its own.  Everything here is defined on the records,
  * by position, and the ledger of ProfileLedger is proved to agree with it:
  * which calls are open, how often a function is called, how long it runs
  * itself, and which record, if any, is refused.
  */
module ProfileRecords {

  import opened ProfileLedger

  /** The calls left open when f returns: those below its last opening, or none. */
  ghost function Below(open: seq<string>, f: string): seq<string> {
    if open == [] then []
    else
      var n := |open| - 1;
      if open[n] == f then open[..n] else Below(open[..n], f)
  }

  /** The calls open after the first n records, outermost first. */
  ghost function OpenAfter(rs: seq<Record>, n: nat): seq<string>
    requires n <= |rs|
  {
    if n == 0 then []
    else match rs[n - 1]
      case Enter(_, f) => OpenAfter(rs, n - 1) + [f]
      case Exit(_, f) => Below(OpenAfter(rs, n - 1), f)
      case _ => OpenAfter(rs, n - 1)
  }

  lemma {:induction false} BelowIs(open: seq<string>, f: string, k: nat)
    requires f in open ==> LastOpen(open, f, k)
    ensures Below(open, f) == if f in open then open[..k] else []
  {
    if open != [] && open[|open| - 1] != f {
      var n := |open| - 1;
      assert open == open[..n] + [open[n]];
      BelowIs(open[..n], f, k);
    }
  }

  /** Record i is the exit of a function with no open call. */
  ghost predicate Unmatched(rs: seq<Record>, i: nat)
    requires i < |rs|
  {
    rs[i].Exit? && rs[i].name !in OpenAfter(rs, i)
  }

  ghost predicate UnmatchedOf(rs: seq<Record>, i: nat, f: string)
    requires i < |rs|
  {
    Unmatched(rs, i) && rs[i].name == f
  }

  /** Function f runs when record i arrives: its call was opened last. */
  ghost predicate Runs(rs: seq<Record>, i: nat, f: string)
    requires i < |rs|
  {
    var open := OpenAfter(rs, i);
    open != [] && open[|open| - 1] == f
  }

  // ---------- time ----------

  /** The time of the last timed record among the first n, or zero. */
  ghost function Clock(rs: seq<Record>, n: nat): int
    requires n <= |rs|
  {
    if n == 0 then 0 else if Timed(rs[n - 1]) then rs[n - 1].time else Clock(rs, n - 1)
  }

  /** The time that passes until record i. */
  ghost function Elapsed(rs: seq<Record>, i: nat): int
    requires i < |rs|
  {
    if Timed(rs[i]) then rs[i].time - Clock(rs, i) else 0
  }

  /** Time with nothing open, record i included, that no unmatched exit before it has taken. */
  ghost function Idle(rs: seq<Record>, i: nat): int
    requires i < |rs|
    decreases i, 1
  {
    Pool(rs, i) + if OpenAfter(rs, i) == [] then Elapsed(rs, i) else 0
  }

  ghost function Pool(rs: seq<Record>, n: nat): int
    requires n <= |rs|
    decreases n, 0
  {
    if n == 0 || Unmatched(rs, n - 1) then 0 else Idle(rs, n - 1)
  }

  /** What record i adds to the time of f. */
  ghost function Share(rs: seq<Record>, i: nat, f: string): int
    requires i < |rs|
  {
    (if Runs(rs, i, f) then Elapsed(rs, i) else 0) + if UnmatchedOf(rs, i, f) then Idle(rs, i) else 0
  }

  ghost function SelfTime(rs: seq<Record>, n: nat, f: string): int
    requires n <= |rs|
  {
    if n == 0 then 0 else SelfTime(rs, n - 1, f) + Share(rs, n - 1, f)
  }

  // ---------- calls and names ----------

  ghost function Entered(rs: seq<Record>, n: nat, f: string): set<nat>
    requires n <= |rs|
  {
    set i: nat | i < n && rs[i].Enter? && rs[i].name == f
  }

  ghost function Missed(rs: seq<Record>, n: nat, f: string): set<nat>
    requires n <= |rs|
  {
    set i: nat | i < n && UnmatchedOf(rs, i, f)
  }

  /** The calls of f that the first n records begin. */
  ghost function CallsBy(rs: seq<Record>, n: nat, f: string): nat
    requires n <= |rs|
  {
    |Entered(rs, n, f)| + |Missed(rs, n, f)|
  }

  ghost function AllEntered(rs: seq<Record>, n: nat): set<nat>
    requires n <= |rs|
  {
    set i: nat | i < n && rs[i].Enter?
  }

  ghost function AllMissed(rs: seq<Record>, n: nat): set<nat>
    requires n <= |rs|
  {
    set i: nat | i < n && Unmatched(rs, i)
  }

  ghost function AllCalls(rs: seq<Record>): nat {
    |AllEntered(rs, |rs|)| + |AllMissed(rs, |rs|)|
  }

  /** The functions that the first n records mention. */
  ghost function Mentioned(rs: seq<Record>, n: nat): set<string>
    requires n <= |rs|
  {
    set i: nat | i < n && !rs[i].Unknown? :: rs[i].name
  }

  // ---------- the ledger agrees ----------

  /** Counted calls and open calls together. */
  ghost function Known(g: Ledger, f: string): int {
    Get(g.count, f) + multiset(g.open)[f]
  }

  lemma {:induction false} CloseKnown(g: Ledger, f: string)
    requires g.open != []
    ensures Known(Close(g), f) == Known(g, f)
  {
    var n := |g.open| - 1;
    assert g.open == g.open[..n] + [g.open[n]];
  }

  /** A return counts every call it closes, each for its own function, and an unmatched one for f. */
  lemma {:induction false} ReturnKnown(g: Ledger, f: string, h: string)
    ensures Return(g, f).open == Below(g.open, f)
    ensures Known(Return(g, f), h) == Known(g, h) + if f !in g.open && h == f then 1 else 0
    decreases |g.open|
  {
    if g.open != [] {
      CloseKnown(g, h);
      var n := |g.open| - 1;
      assert g.open == g.open[..n] + [g.open[n]];
      if g.open[n] != f {
        ReturnKnown(Close(g), f, h);
      }
    }
  }

  /** A return moves no time and no clock, but for the pool that an unmatched one takes. */
  lemma {:induction false} ReturnTimes(g: Ledger, f: string)
    ensures var g' := Return(g, f);
            && g'.now == g.now && g'.names == g.names && g'.entries == g.entries
            && (f in g.open ==> g'.self == g.self && g'.pool == g.pool && g'.unmatched == g.unmatched)
            && (f !in g.open ==> g'.self == Add(g.self, f, g.pool) && g'.pool == 0 && g'.unmatched == g.unmatched + 1)
    decreases |g.open|
  {
    if g.open != [] && g.open[|g.open| - 1] != f {
      var n := |g.open| - 1;
      assert g.open == g.open[..n] + [g.open[n]];
      ReturnTimes(Close(g), f);
    }
  }

  /** What one record does to the stack, the clock and the names. */
  lemma {:induction false} StepOpen(g: Ledger, r: Record)
    requires Step(g, r).Ok?
    ensures var g' := Step(g, r).value;
            && g'.open == (if r.Enter? then g.open + [r.name] else if r.Exit? then Below(g.open, r.name) else g.open)
            && g'.now == (if Timed(r) then r.time else g.now)
            && g'.names == (if r.Unknown? then g.names else Know(g, r.name).names)
  {
    if r.Exit? {
      var a := Advance(Know(g, r.name), r.time);
      ReturnKnown(a, r.name, r.name);
      ReturnTimes(a, r.name);
    }
  }

  lemma {:induction false} StepKnown(g: Ledger, r: Record, f: string)
    requires Step(g, r).Ok?
    ensures Known(Step(g, r).value, f)
         == Known(g, f) + if (r.Enter? || (r.Exit? && r.name !in g.open)) && r.name == f then 1 else 0
  {
    if Timed(r) {
      var a := Advance(Know(g, r.name), r.time);
      assert Known(a, f) == Known(g, f);
      if r.Exit? {
        ReturnKnown(a, r.name, f);
      }
    }
  }

  lemma {:induction false} StepTotals(g: Ledger, r: Record)
    requires Step(g, r).Ok?
    ensures var g' := Step(g, r).value;
            && g'.entries == g.entries + (if r.Enter? then 1 else 0)
            && g'.unmatched == g.unmatched + if r.Exit? && r.name !in g.open then 1 else 0
  {
    if r.Exit? {
      ReturnTimes(Advance(Know(g, r.name), r.time), r.name);
    }
  }

  lemma {:induction false} StepTimes(g: Ledger, r: Record, f: string)
    requires Step(g, r).Ok?
    ensures var g' := Step(g, r).value;
            var d := if Timed(r) then r.time - g.now else 0;
            var idle := g.pool + if g.open == [] then d else 0;
            var miss := r.Exit? && r.name !in g.open;
            && g'.pool == (if miss then 0 else idle)
            && Get(g'.self, f) == Get(g.self, f) + (if g.open != [] && g.open[|g.open| - 1] == f then d else 0)
                                  + if miss && r.name == f then idle else 0
  {
    if r.Exit? {
      ReturnTimes(Advance(Know(g, r.name), r.time), r.name);
    }
  }

  lemma {:induction false} RunOpen(rs: seq<Record>, n: nat)
    requires n <= |rs| && Run(rs, n).Ok?
    ensures Run(rs, n).value.open == OpenAfter(rs, n) && Run(rs, n).value.now == Clock(rs, n)
  {
    if n > 0 {
      RunOpen(rs, n - 1);
      StepOpen(Run(rs, n - 1).value, rs[n - 1]);
    }
  }

  /** The time of every function, and the pool, from the records alone. */
  lemma {:induction false} RunTimes(rs: seq<Record>, n: nat, f: string)
    requires n <= |rs| && Run(rs, n).Ok?
    ensures Get(Run(rs, n).value.self, f) == SelfTime(rs, n, f) && Run(rs, n).value.pool == Pool(rs, n)
  {
    if n > 0 {
      RunTimes(rs, n - 1, f);
      RunOpen(rs, n - 1);
      StepTimes(Run(rs, n - 1).value, rs[n - 1], f);
    }
  }

  lemma {:induction false} OneMore(s: set<nat>, s': set<nat>, n: nat, more: bool)
    requires n !in s && forall i :: i in s' <==> i in s || (more && i == n)
    ensures |s'| == |s| + if more then 1 else 0
  {
    assert s' == if more then s + {n} else s;
  }

  lemma {:induction false} EnteredMore(rs: seq<Record>, n: nat, f: string)
    requires n < |rs|
    ensures |Entered(rs, n + 1, f)| == |Entered(rs, n, f)| + if rs[n].Enter? && rs[n].name == f then 1 else 0
  {
    OneMore(Entered(rs, n, f), Entered(rs, n + 1, f), n, rs[n].Enter? && rs[n].name == f);
  }

  lemma {:induction false} MissedMore(rs: seq<Record>, n: nat, f: string)
    requires n < |rs|
    ensures |Missed(rs, n + 1, f)| == |Missed(rs, n, f)| + if UnmatchedOf(rs, n, f) then 1 else 0
  {
    OneMore(Missed(rs, n, f), Missed(rs, n + 1, f), n, UnmatchedOf(rs, n, f));
  }

  lemma {:induction false} CallsMore(rs: seq<Record>, n: nat, f: string)
    requires n < |rs|
    ensures CallsBy(rs, n + 1, f)
         == CallsBy(rs, n, f) + if (rs[n].Enter? || Unmatched(rs, n)) && rs[n].name == f then 1 else 0
  {
    EnteredMore(rs, n, f);
    MissedMore(rs, n, f);
  }

  /** Every call is counted once, or still open, and for the function it is a call of. */
  lemma {:induction false} RunCalls(rs: seq<Record>, n: nat, f: string)
    requires n <= |rs| && Run(rs, n).Ok?
    ensures Known(Run(rs, n).value, f) == CallsBy(rs, n, f)
  {
    if n > 0 {
      RunCalls(rs, n - 1, f);
      RunOpen(rs, n - 1);
      CallsMore(rs, n - 1, f);
      StepKnown(Run(rs, n - 1).value, rs[n - 1], f);
    } else {
      assert Entered(rs, 0, f) == {} && Missed(rs, 0, f) == {};
    }
  }

  lemma {:induction false} AllCallsMore(rs: seq<Record>, n: nat)
    requires n < |rs|
    ensures |AllEntered(rs, n + 1)| == |AllEntered(rs, n)| + if rs[n].Enter? then 1 else 0
    ensures |AllMissed(rs, n + 1)| == |AllMissed(rs, n)| + if Unmatched(rs, n) then 1 else 0
  {
    assert AllEntered(rs, n + 1) == AllEntered(rs, n) + if rs[n].Enter? then {n} else {};
    assert AllMissed(rs, n + 1) == AllMissed(rs, n) + if Unmatched(rs, n) then {n} else {};
  }

  lemma {:induction false} RunTotals(rs: seq<Record>, n: nat)
    requires n <= |rs| && Run(rs, n).Ok?
    ensures Run(rs, n).value.entries == |AllEntered(rs, n)| && Run(rs, n).value.unmatched == |AllMissed(rs, n)|
  {
    if n > 0 {
      RunTotals(rs, n - 1);
      RunOpen(rs, n - 1);
      AllCallsMore(rs, n - 1);
      StepTotals(Run(rs, n - 1).value, rs[n - 1]);
    } else {
      assert AllEntered(rs, 0) == {} && AllMissed(rs, 0) == {};
    }
  }

  lemma {:induction false} MentionedMore(rs: seq<Record>, n: nat)
    requires n < |rs|
    ensures Mentioned(rs, n + 1) == Mentioned(rs, n) + if rs[n].Unknown? then {} else {rs[n].name}
  {
    if !rs[n].Unknown? {
      assert rs[n].name in Mentioned(rs, n + 1);
    }
    forall f | f in Mentioned(rs, n) ensures f in Mentioned(rs, n + 1) {
      var i: nat :| i < n && !rs[i].Unknown? && rs[i].name == f;
    }
  }

  /** The names listed are those of a set, each once. */
  ghost predicate Lists(names: seq<string>, s: set<string>) {
    |names| == |s| && forall f :: f in names <==> f in s
  }

  lemma {:induction false} ListsMore(g: Ledger, s: set<string>, f: string)
    requires Lists(g.names, s)
    ensures Lists(Know(g, f).names, s + {f})
  {
    if f in g.names {
      assert s + {f} == s;
    } else {
      assert |s + {f}| == |s| + 1;
    }
  }

  /** The table lists every function mentioned, once. */
  lemma {:induction false} RunNames(rs: seq<Record>, n: nat)
    requires n <= |rs| && Run(rs, n).Ok?
    ensures Lists(Run(rs, n).value.names, Mentioned(rs, n))
  {
    if n > 0 {
      RunNames(rs, n - 1);
      MentionedMore(rs, n - 1);
      StepOpen(Run(rs, n - 1).value, rs[n - 1]);
      if !rs[n - 1].Unknown? {
        ListsMore(Run(rs, n - 1).value, Mentioned(rs, n - 1), rs[n - 1].name);
      }
    } else {
      assert Mentioned(rs, 0) == {};
    }
  }

  // ---------- the limits ----------

  /** Record i names a function that is new, and the table holds 1000. */
  ghost predicate OneTooMany(rs: seq<Record>, i: nat)
    requires i < |rs|
  {
    !rs[i].Unknown? && rs[i].name !in Mentioned(rs, i) && |Mentioned(rs, i)| >= 1000
  }

  /** Record i opens a call while 100 are open. */
  ghost predicate TooDeep(rs: seq<Record>, i: nat)
    requires i < |rs|
  {
    rs[i].Enter? && |OpenAfter(rs, i)| >= 100
  }

  ghost predicate Accepted(rs: seq<Record>, n: nat)
    requires n <= |rs|
  {
    forall i | 0 <= i < n :: !OneTooMany(rs, i) && !TooDeep(rs, i)
  }

  /** Record i is the first refused, and e is why: a full table is noticed before a full stack. */
  ghost predicate Refused(rs: seq<Record>, i: nat, e: Failure)
    requires i < |rs|
  {
    && Accepted(rs, i)
    && (OneTooMany(rs, i) || TooDeep(rs, i))
    && e == if OneTooMany(rs, i) then TooManyFunctions else StackOverflow
  }

  lemma {:induction false} StepAccepts(rs: seq<Record>, i: nat)
    requires i < |rs| && Run(rs, i).Ok?
    ensures Run(rs, i + 1).Ok? <==> !OneTooMany(rs, i) && !TooDeep(rs, i)
    ensures Run(rs, i + 1).Failed? ==> Run(rs, i + 1).error == if OneTooMany(rs, i) then TooManyFunctions else StackOverflow
  {
    RunOpen(rs, i);
    RunNames(rs, i);
  }

  /** The run succeeds if and only if no record is refused; otherwise it fails for the first that is. */
  lemma {:induction false} RunAccepts(rs: seq<Record>, n: nat)
    requires n <= |rs|
    ensures Run(rs, n).Ok? <==> Accepted(rs, n)
    ensures Run(rs, n).Failed? ==> exists i :: 0 <= i < n && Refused(rs, i, Run(rs, n).error)
  {
    if n > 0 {
      RunAccepts(rs, n - 1);
      if Run(rs, n - 1).Ok? {
        StepAccepts(rs, n - 1);
        if Run(rs, n).Failed? {
          assert Refused(rs, n - 1, Run(rs, n).error);
        }
      }
    }
  }

  // ---------- the end of the file ----------

  /** A ledger with nothing open says what the records say. */
  ghost predicate Tells(g: Ledger, rs: seq<Record>) {
    && g.open == []
    && Lists(g.names, Mentioned(rs, |rs|))
    && (forall f :: Get(g.count, f) == CallsBy(rs, |rs|, f))
    && (forall f :: Get(g.self, f) == SelfTime(rs, |rs|, f))
    && g.now == Clock(rs, |rs|) && g.pool == Pool(rs, |rs|)
    && g.entries + g.unmatched == AllCalls(rs)
  }

  lemma {:induction false} CloseAllKeeps(g: Ledger)
    ensures var g' := CloseAll(g);
            && g'.open == [] && g'.self == g.self && g'.now == g.now && g'.pool == g.pool
            && g'.names == g.names && g'.entries == g.entries && g'.unmatched == g.unmatched
    decreases |g.open|
  {
    if g.open != [] {
      CloseAllKeeps(Close(g));
    }
  }

  lemma {:induction false} CloseAllKnown(g: Ledger, f: string)
    ensures Get(CloseAll(g).count, f) == Known(g, f)
    decreases |g.open|
  {
    if g.open != [] {
      CloseKnown(g, f);
      CloseAllKnown(Close(g), f);
    }
  }

  /** What the program's figures must be, from the records alone. */
  lemma {:induction false} RunTells(rs: seq<Record>)
    requires Run(rs, |rs|).Ok?
    ensures Tells(CloseAll(Run(rs, |rs|).value), rs)
  {
    var g := Run(rs, |rs|).value;
    CloseAllKeeps(g);
    RunOpen(rs, |rs|);
    RunNames(rs, |rs|);
    RunTotals(rs, |rs|);
    RunTimes(rs, |rs|, "");
    forall f ensures Get(CloseAll(g).count, f) == CallsBy(rs, |rs|, f) {
      CloseAllKnown(g, f);
      RunCalls(rs, |rs|, f);
    }
    forall f ensures Get(CloseAll(g).self, f) == SelfTime(rs, |rs|, f) {
      RunTimes(rs, |rs|, f);
    }
  }

  ghost function Nested(a: string, b: string, s: int, t: int, u: int, v: int): seq<Record> {
    [Enter(s, a), Enter(t, b), Exit(u, b), Exit(v, a)]
  }

  lemma {:induction false} NestedOpen(a: string, b: string, s: int, t: int, u: int, v: int)
    requires a != b
    ensures var rs := Nested(a, b, s, t, u, v);
            && OpenAfter(rs, 0) == [] && OpenAfter(rs, 1) == [a] && OpenAfter(rs, 2) == [a, b] && OpenAfter(rs, 3) == [a]
            && Clock(rs, 0) == 0 && Clock(rs, 1) == s && Clock(rs, 2) == t && Clock(rs, 3) == u && Clock(rs, 4) == v
            && forall i | 0 <= i < 4 :: !Unmatched(rs, i)
  {
    var rs := Nested(a, b, s, t, u, v);
    assert OpenAfter(rs, 1) == OpenAfter(rs, 0) + [a];
    assert OpenAfter(rs, 2) == OpenAfter(rs, 1) + [b];
    assert OpenAfter(rs, 3) == Below(OpenAfter(rs, 2), b) == [a, b][..1];
  }

  lemma {:induction false} NestedTimes(a: string, b: string, s: int, t: int, u: int, v: int, f: string)
    requires a != b
    ensures var rs := Nested(a, b, s, t, u, v);
            && SelfTime(rs, 4, f) == (if f == a then (t - s) + (v - u) else 0) + (if f == b then u - t else 0)
            && Pool(rs, 4) == s
  {
    NestedOpen(a, b, s, t, u, v);
    var rs := Nested(a, b, s, t, u, v);
    assert Pool(rs, 1) == s && SelfTime(rs, 1, f) == 0;
    assert Pool(rs, 2) == s && SelfTime(rs, 2, f) == if f == a then t - s else 0;
    assert Pool(rs, 3) == s && SelfTime(rs, 3, f) == (if f == a then t - s else 0) + if f == b then u - t else 0;
  }

  /** A call of b inside a call of a: the time inside is b's, the time around it a's. */
  lemma {:induction false} CallInsideCall(a: string, b: string, s: int, t: int, u: int, v: int)
    requires a != b
    ensures var rs := [Enter(s, a), Enter(t, b), Exit(u, b), Exit(v, a)];
            && CallsBy(rs, 4, a) == 1 && CallsBy(rs, 4, b) == 1
            && SelfTime(rs, 4, a) == (t - s) + (v - u) && SelfTime(rs, 4, b) == u - t
            && Clock(rs, 4) == v && Pool(rs, 4) == s
  {
    var rs := Nested(a, b, s, t, u, v);
    NestedOpen(a, b, s, t, u, v);
    NestedTimes(a, b, s, t, u, v, a);
    NestedTimes(a, b, s, t, u, v, b);
    assert Entered(rs, 4, a) == {0} && Missed(rs, 4, a) == {};
    assert Entered(rs, 4, b) == {1} && Missed(rs, 4, b) == {};
  }

  /** An exit of f that no entry announced: f is called once and gets the time since the start. */
  lemma {:induction false} ExitAlone(f: string, t: int)
    ensures var rs := [Exit(t, f)];
            CallsBy(rs, 1, f) == 1 && SelfTime(rs, 1, f) == t && Clock(rs, 1) == t && Pool(rs, 1) == 0
  {
    var rs := [Exit(t, f)];
    assert Entered(rs, 1, f) == {} && Missed(rs, 1, f) == {0};
    assert SelfTime(rs, 0, f) == 0 && Idle(rs, 0) == t;
  }
}
