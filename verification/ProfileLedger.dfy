/**
  * What a profile of adl/dbug/analyze.c means.  The Ledger charges every tick
  * between two timed records to the function that is open innermost, or to a
  * pool while nothing is open; the Books are the stack of entry times and
  * child times that the program keeps instead, over unbounded integers.
  */
module ProfileLedger {

  import SearchTree

  const STACK_SIZE: nat := 100

  /** Values of an unsigned long. */
  const WORD: nat := 0x1_0000_0000_0000_0000

  type Unsigned = x: nat | x < WORD

  datatype Record =
    | Enter(time: int, name: string)
    | Exit(time: int, name: string)
    | StackUse(bottom: Unsigned, size: Unsigned, name: string)
    | Unknown

  datatype Failure = StackOverflow | TooManyFunctions | NoFunctions

  datatype Result<T> = Ok(value: T) | Failed(error: Failure)

  // ---------- the ledger: one charge per tick ----------

  datatype Ledger = Ledger(
    names: seq<string>,
    open: seq<string>,
    now: int,
    pool: int,
    self: map<string, int>,
    count: map<string, int>,
    entries: nat,
    unmatched: nat)

  const START: Ledger := Ledger([], [], 0, 0, map[], map[], 0, 0)

  ghost function Get(m: map<string, int>, f: string): int {
    if f in m then m[f] else 0
  }

  ghost function Add(m: map<string, int>, f: string, d: int): map<string, int> {
    m[f := Get(m, f) + d]
  }

  ghost function Know(g: Ledger, f: string): Ledger {
    if f in g.names then g else g.(names := g.names + [f])
  }

  /** Time passes until t: charge it to whoever is running. */
  ghost function Advance(g: Ledger, t: int): Ledger {
    if g.open == [] then g.(pool := g.pool + t - g.now, now := t)
    else g.(self := Add(g.self, g.open[|g.open| - 1], t - g.now), now := t)
  }

  ghost function Begin(g: Ledger, f: string): Ledger {
    g.(open := g.open + [f], entries := g.entries + 1)
  }

  /** The innermost function returns. */
  ghost function Close(g: Ledger): Ledger
    requires g.open != []
  {
    var n := |g.open| - 1;
    g.(open := g.open[..n], count := Add(g.count, g.open[n], 1))
  }

  /** A function that was never entered returns: it gets the pool. */
  ghost function Miss(g: Ledger, f: string): Ledger {
    g.(pool := 0, self := Add(g.self, f, g.pool), count := Add(g.count, f, 1), unmatched := g.unmatched + 1)
  }

  /** f returns, and so does everything opened inside it. */
  ghost function Return(g: Ledger, f: string): Ledger
    decreases |g.open|
  {
    if g.open == [] then Miss(g, f)
    else if g.open[|g.open| - 1] == f then Close(g)
    else Return(Close(g), f)
  }

  ghost function CloseAll(g: Ledger): Ledger
    decreases |g.open|
  {
    if g.open == [] then g else CloseAll(Close(g))
  }

  ghost predicate Full(g: Ledger, f: string) {
    f !in g.names && |g.names| >= SearchTree.MAX_PROCS
  }

  ghost function Step(g: Ledger, r: Record): Result<Ledger> {
    match r
    case Enter(t, f) =>
      if Full(g, f) then Failed(TooManyFunctions)
      else if |g.open| >= STACK_SIZE then Failed(StackOverflow)
      else Ok(Begin(Advance(Know(g, f), t), f))
    case Exit(t, f) =>
      if Full(g, f) then Failed(TooManyFunctions)
      else Ok(Return(Advance(Know(g, f), t), f))
    case StackUse(_, _, f) =>
      if Full(g, f) then Failed(TooManyFunctions) else Ok(Know(g, f))
    case Unknown => Ok(g)
  }

  /** The ledger after the first n records. */
  ghost function Run(rs: seq<Record>, n: nat): Result<Ledger>
    requires n <= |rs|
  {
    if n == 0 then Ok(START)
    else match Run(rs, n - 1)
      case Failed(e) => Failed(e)
      case Ok(g) => Step(g, rs[n - 1])
  }

  /** k is where f was opened last. */
  ghost predicate LastOpen(open: seq<string>, f: string, k: nat) {
    k < |open| && open[k] == f && forall j | k < j < |open| :: open[j] != f
  }

  /** A return closes exactly down to the last opening, or is unmatched. */
  lemma {:induction false} ReturnMeaning(g: Ledger, f: string, k: nat)
    requires f in g.open ==> LastOpen(g.open, f, k)
    ensures f in g.open ==> Return(g, f).open == g.open[..k] && Return(g, f).unmatched == g.unmatched
                            && Return(g, f).self == g.self && Return(g, f).pool == g.pool
    ensures f !in g.open ==> Return(g, f).open == [] && Return(g, f).unmatched == g.unmatched + 1
                             && Return(g, f).self == Add(g.self, f, g.pool) && Return(g, f).pool == 0
    decreases |g.open|
  {
    if g.open != [] && g.open[|g.open| - 1] != f {
      var n := |g.open| - 1;
      assert g.open == g.open[..n] + [g.open[n]];
      ReturnMeaning(Close(g), f, k);
    }
  }

  // ---------- no tick is negative or lost when time moves forward ----------

  ghost predicate Sane(g: Ledger) {
    0 <= g.pool && g.pool <= g.now && forall f :: 0 <= Get(g.self, f) <= g.now - g.pool
  }

  lemma {:induction false} ReturnSane(g: Ledger, f: string)
    requires Sane(g)
    ensures Sane(Return(g, f)) && Return(g, f).now == g.now
    decreases |g.open|
  {
    if g.open == [] {
      var m := Miss(g, f);
      forall h ensures 0 <= Get(m.self, h) <= m.now - m.pool {
        assert 0 <= Get(g.self, h) <= g.now - g.pool;
      }
    } else if g.open[|g.open| - 1] != f {
      ReturnSane(Close(g), f);
    }
  }

  lemma {:induction false} AdvanceSane(g: Ledger, t: int)
    requires Sane(g) && g.now <= t
    ensures Sane(Advance(g, t))
  {
    var m := Advance(g, t);
    forall h ensures 0 <= Get(m.self, h) <= m.now - m.pool {
      assert 0 <= Get(g.self, h) <= g.now - g.pool;
    }
  }

  ghost predicate Timed(r: Record) {
    r.Enter? || r.Exit?
  }

  /** Among the first n records time starts at or after zero and never goes back. */
  ghost predicate Forward(rs: seq<Record>, n: nat)
    requires n <= |rs|
  {
    forall i | 0 <= i < n && Timed(rs[i]) ::
      0 <= rs[i].time && forall j | 0 <= j < i && Timed(rs[j]) :: rs[j].time <= rs[i].time
  }

  /** The ledger's clock is zero or the time of an earlier record. */
  lemma {:induction false} ForwardRun(rs: seq<Record>, n: nat)
    requires n <= |rs| && Forward(rs, n) && Run(rs, n).Ok?
    ensures Sane(Run(rs, n).value)
    ensures Run(rs, n).value.now == 0 || exists j :: 0 <= j < n && Timed(rs[j]) && rs[j].time == Run(rs, n).value.now
  {
    if n > 0 {
      ForwardRun(rs, n - 1);
      var g, r := Run(rs, n - 1).value, rs[n - 1];
      if Timed(r) {
        assert g.now <= r.time;
        var k := Know(g, r.name);
        assert Sane(k);
        AdvanceSane(k, r.time);
        if r.Exit? {
          ReturnSane(Advance(k, r.time), r.name);
        }
      }
    }
  }

  // ---------- the books: a stack of entry times and child times ----------

  datatype Frame = Frame(pos: nat, time: int, children: int)

  datatype Books = Books(frames: seq<Frame>, times: seq<int>, calls: seq<int>, totTime: int, totCalls: int)

  const OPENING: Books := Books([Frame(0, 0, 0)], [], [], 0, 0)

  ghost predicate Usable(b: Books) {
    && |b.frames| >= 1
    && |b.times| == |b.calls|
    && forall j | 1 <= j < |b.frames| :: b.frames[j].pos < |b.times|
  }

  ghost function Register(b: Books): Books {
    b.(times := b.times + [0], calls := b.calls + [0])
  }

  ghost function Push(b: Books, pos: nat, t: int): Books {
    b.(frames := b.frames + [Frame(pos, t, 0)])
  }

  ghost function Book(b: Books, pos: nat, d: int): Books
    requires pos < |b.times| == |b.calls|
  {
    b.(times := b.times[pos := b.times[pos] + d], calls := b.calls[pos := b.calls[pos] + 1],
       totTime := b.totTime + d, totCalls := b.totCalls + 1)
  }

  ghost function Pop(b: Books, t: int): Books
    requires Usable(b) && |b.frames| >= 2
  {
    var n := |b.frames| - 2;
    var below, top := b.frames[n], b.frames[n + 1];
    var d := t - top.time;
    Book(b, top.pos, d - top.children)
      .(frames := b.frames[..n] + [below.(children := below.children + d)])
  }

  ghost function Reset(b: Books, pos: nat, t: int): Books
    requires Usable(b) && |b.frames| == 1 && pos < |b.times|
  {
    var f := b.frames[0];
    Book(b, pos, t - f.time - f.children).(frames := [Frame(f.pos, t, 0)])
  }

  ghost function Leave(b: Books, pos: nat, t: int): Books
    requires Usable(b) && pos < |b.times|
    decreases |b.frames|
  {
    if |b.frames| == 1 then Reset(b, pos, t)
    else
      var b' := Pop(b, t);
      if b.frames[|b.frames| - 1].pos == pos then b' else Leave(b', pos, t)
  }

  ghost function Drain(b: Books, t: int): Books
    requires Usable(b)
    decreases |b.frames|
  {
    if |b.frames| == 1 then b else Drain(Pop(b, t), t)
  }

  // ---------- conservation ----------

  ghost function Sum(s: seq<int>, n: nat): int
    requires n <= |s|
  {
    if n == 0 then 0 else Sum(s, n - 1) + s[n - 1]
  }

  ghost function Children(s: seq<Frame>, n: nat): int
    requires n <= |s|
  {
    if n == 0 then 0 else Children(s, n - 1) + s[n - 1].children
  }

  lemma {:induction false} SumUpdate(s: seq<int>, i: nat, v: int, n: nat)
    requires i < |s| && n <= |s|
    ensures Sum(s[i := v], n) == Sum(s, n) + if i < n then v - s[i] else 0
  {
    if n > 0 {
      SumUpdate(s, i, v, n - 1);
    }
  }

  lemma {:induction false} SumPrefix(s: seq<int>, s': seq<int>, n: nat)
    requires n <= |s| && n <= |s'| && forall i | 0 <= i < n :: s[i] == s'[i]
    ensures Sum(s, n) == Sum(s', n)
  {
    if n > 0 {
      SumPrefix(s, s', n - 1);
    }
  }

  lemma {:induction false} ChildrenPrefix(s: seq<Frame>, s': seq<Frame>, n: nat)
    requires n <= |s| && n <= |s'| && forall i | 0 <= i < n :: s[i] == s'[i]
    ensures Children(s, n) == Children(s', n)
  {
    if n > 0 {
      ChildrenPrefix(s, s', n - 1);
    }
  }

  /** The law of the stack: charged time is what the frames account for. */
  ghost predicate Balanced(b: Books) {
    && Usable(b)
    && b.totTime == b.frames[0].time + Children(b.frames, |b.frames|)
    && b.totTime == Sum(b.times, |b.times|)
    && b.totCalls == Sum(b.calls, |b.calls|)
    && forall i | 0 <= i < |b.calls| :: b.calls[i] >= 0
  }

  lemma {:induction false} RegisterBalanced(b: Books)
    requires Balanced(b)
    ensures Balanced(Register(b))
  {
    SumPrefix(b.times, b.times + [0], |b.times|);
    SumPrefix(b.calls, b.calls + [0], |b.calls|);
  }

  lemma {:induction false} PushBalanced(b: Books, pos: nat, t: int)
    requires Balanced(b) && pos < |b.times|
    ensures Balanced(Push(b, pos, t))
  {
    ChildrenPrefix(b.frames, Push(b, pos, t).frames, |b.frames|);
  }

  lemma {:induction false} PopBalanced(b: Books, t: int)
    requires Balanced(b) && |b.frames| >= 2
    ensures Balanced(Pop(b, t)) && |Pop(b, t).frames| == |b.frames| - 1 && |Pop(b, t).times| == |b.times|
  {
    var b', n := Pop(b, t), |b.frames| - 2;
    var pos := b.frames[n + 1].pos;
    ChildrenPrefix(b.frames, b'.frames, n);
    assert Children(b.frames, n + 1) == Children(b.frames, n) + b.frames[n].children;
    SumUpdate(b.times, pos, b'.times[pos], |b.times|);
    SumUpdate(b.calls, pos, b'.calls[pos], |b.calls|);
  }

  lemma {:induction false} ResetBalanced(b: Books, pos: nat, t: int)
    requires Balanced(b) && |b.frames| == 1 && pos < |b.times|
    ensures Balanced(Reset(b, pos, t))
  {
    var b' := Reset(b, pos, t);
    assert Children(b.frames, 1) == Children(b.frames, 0) + b.frames[0].children;
    assert Children(b'.frames, 1) == Children(b'.frames, 0) + 0;
    SumUpdate(b.times, pos, b'.times[pos], |b.times|);
    SumUpdate(b.calls, pos, b'.calls[pos], |b.calls|);
  }

  lemma {:induction false} LeaveBalanced(b: Books, pos: nat, t: int)
    requires Balanced(b) && pos < |b.times|
    ensures Balanced(Leave(b, pos, t)) && |Leave(b, pos, t).times| == |b.times|
    decreases |b.frames|
  {
    if |b.frames| == 1 {
      ResetBalanced(b, pos, t);
    } else {
      PopBalanced(b, t);
      if b.frames[|b.frames| - 1].pos != pos {
        LeaveBalanced(Pop(b, t), pos, t);
      }
    }
  }

  lemma {:induction false} DrainBalanced(b: Books, t: int)
    requires Balanced(b)
    ensures Balanced(Drain(b, t)) && |Drain(b, t).times| == |b.times| && |Drain(b, t).frames| == 1
    decreases |b.frames|
  {
    if |b.frames| > 1 {
      PopBalanced(b, t);
      DrainBalanced(Pop(b, t), t);
    }
  }
}
