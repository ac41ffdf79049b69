/**
  * The books of the call stack and the ledger of ticks tell the same story:
  * what a module has been charged plus what its open calls still carry is the
  * time the ledger gave it.
  */
module ProfileBooks {

  import opened ProfileLedger

  /** Self time that the open calls of module i among frames 1..j still carry. */
  ghost function Pending(s: seq<Frame>, j: nat, end: int, i: nat): int
    requires j < |s|
  {
    if j == 0 then 0
    else (if s[j].pos == i then end - s[j].time - s[j].children else 0) + Pending(s, j - 1, s[j].time, i)
  }

  /** Time with nothing open that no function was charged for yet. */
  ghost function Idle(s: seq<Frame>, now: int): int
    requires |s| >= 1
  {
    (if |s| == 1 then now else s[1].time) - s[0].time - s[0].children
  }

  /** Module i is the only one of its name. */
  ghost predicate Only(names: seq<string>, i: nat)
    requires i < |names|
  {
    forall j | 0 <= j < |names| && names[j] == names[i] :: j == i
  }

  ghost predicate Distinct(names: seq<string>) {
    forall i {:trigger Only(names, i)} | 0 <= i < |names| :: Only(names, i)
  }

  ghost predicate Charged(b: Books, g: Ledger, i: nat)
    requires |b.frames| >= 1 && i < |b.times| == |b.calls| && i < |g.names|
  {
    && b.times[i] + Pending(b.frames, |b.frames| - 1, g.now, i) == Get(g.self, g.names[i])
    && b.calls[i] == Get(g.count, g.names[i])
  }

  ghost predicate Stacked(b: Books, g: Ledger)
    requires Usable(b) && |b.times| == |g.names|
  {
    && |b.frames| == |g.open| + 1
    && forall j | 1 <= j < |b.frames| :: g.names[b.frames[j].pos] == g.open[j - 1]
  }

  ghost predicate Unseen(g: Ledger) {
    forall f | f !in g.names :: Get(g.self, f) == 0 && Get(g.count, f) == 0
  }

  ghost predicate Matches(b: Books, g: Ledger) {
    && Usable(b)
    && |b.times| == |g.names|
    && Distinct(g.names)
    && Stacked(b, g)
    && g.pool == Idle(b.frames, g.now)
    && (forall i | 0 <= i < |g.names| :: Charged(b, g, i))
    && Unseen(g)
    && b.totCalls + |g.open| == g.entries + g.unmatched
  }

  lemma {:induction false} PendingPrefix(s: seq<Frame>, s': seq<Frame>, j: nat, end: int, i: nat)
    requires j < |s| && j < |s'| && forall k | 0 <= k <= j :: s[k] == s'[k]
    ensures Pending(s, j, end, i) == Pending(s', j, end, i)
  {
    if j > 0 {
      PendingPrefix(s, s', j - 1, s[j].time, i);
    }
  }

  lemma {:induction false} PendingNew(s: seq<Frame>, j: nat, end: int, i: nat)
    requires j < |s| && forall k | 1 <= k < |s| :: s[k].pos != i
    ensures Pending(s, j, end, i) == 0
  {
    if j > 0 {
      PendingNew(s, j - 1, s[j].time, i);
    }
  }

  lemma {:induction false} RegisterMatches(b: Books, g: Ledger, f: string)
    requires Matches(b, g) && f !in g.names
    ensures Matches(Register(b), Know(g, f))
  {
    var b', g', n := Register(b), Know(g, f), |g.names|;
    forall i {:trigger Only(g'.names, i)} | 0 <= i < |g'.names| ensures Only(g'.names, i) {
      assert i < n ==> Only(g.names, i);
    }
    forall i | 0 <= i < |g'.names| ensures Charged(b', g', i) {
      if i < n {
        assert Charged(b, g, i);
      } else {
        PendingNew(b.frames, |b.frames| - 1, g.now, i);
      }
    }
  }

  lemma {:induction false} AdvanceMatches(b: Books, g: Ledger, t: int)
    requires Matches(b, g)
    ensures Matches(b, Advance(g, t))
  {
    var g', n := Advance(g, t), |b.frames| - 1;
    assert n > 0 ==> Only(g.names, b.frames[n].pos);
    forall i | 0 <= i < |g'.names| ensures Charged(b, g', i) {
      assert Charged(b, g, i);
    }
    if n > 0 {
      assert g.names[b.frames[n].pos] == g.open[n - 1];
    }
  }

  lemma {:induction false} PushMatches(b: Books, g: Ledger, pos: nat)
    requires Matches(b, g) && pos < |g.names|
    ensures Matches(Push(b, pos, g.now), Begin(g, g.names[pos]))
  {
    var b', g', n := Push(b, pos, g.now), Begin(g, g.names[pos]), |b.frames| - 1;
    forall i | 0 <= i < |g'.names| ensures Charged(b', g', i) {
      assert Charged(b, g, i);
      PendingPrefix(b.frames, b'.frames, n, g.now, i);
    }
  }

  lemma {:induction false} PopPending(b: Books, t: int, i: nat)
    requires Usable(b) && |b.frames| >= 2 && i < |b.times|
    ensures var b', n := Pop(b, t), |b.frames| - 1;
            b'.times[i] + Pending(b'.frames, n - 1, t, i) == b.times[i] + Pending(b.frames, n, t, i)
    ensures Idle(Pop(b, t).frames, t) == Idle(b.frames, t)
  {
    var b', n := Pop(b, t), |b.frames| - 2;
    if n > 0 {
      PendingPrefix(b.frames, b'.frames, n - 1, b.frames[n].time, i);
      assert b'.frames[n].time == b.frames[n].time;
    }
  }

  lemma {:induction false} PopMatches(b: Books, g: Ledger)
    requires Matches(b, g) && |b.frames| >= 2
    ensures Matches(Pop(b, g.now), Close(g))
  {
    var b', g', n := Pop(b, g.now), Close(g), |b.frames| - 1;
    assert Only(g.names, b.frames[n].pos);
    assert g.names[b.frames[n].pos] == g.open[n - 1];
    PopPending(b, g.now, b.frames[n].pos);
    forall i | 0 <= i < |g'.names| ensures Charged(b', g', i) {
      assert Charged(b, g, i);
      PopPending(b, g.now, i);
    }
    forall j | 1 <= j < |b'.frames| ensures g'.names[b'.frames[j].pos] == g'.open[j - 1] {
      assert g.names[b.frames[j].pos] == g.open[j - 1];
    }
  }

  lemma {:induction false} ResetMatches(b: Books, g: Ledger, pos: nat)
    requires Matches(b, g) && |b.frames| == 1 && pos < |g.names|
    ensures Matches(Reset(b, pos, g.now), Miss(g, g.names[pos]))
  {
    var b', g' := Reset(b, pos, g.now), Miss(g, g.names[pos]);
    forall i | 0 <= i < |g'.names| ensures Charged(b', g', i) {
      assert Charged(b, g, i);
      assert Only(g.names, pos);
    }
  }

  lemma {:induction false} LeaveMatches(b: Books, g: Ledger, pos: nat)
    requires Matches(b, g) && pos < |g.names|
    ensures Matches(Leave(b, pos, g.now), Return(g, g.names[pos]))
    decreases |b.frames|
  {
    if |b.frames| == 1 {
      ResetMatches(b, g, pos);
    } else {
      var n := |b.frames| - 1;
      assert Only(g.names, pos);
      assert g.names[b.frames[n].pos] == g.open[n - 1];
      PopMatches(b, g);
      if b.frames[n].pos != pos {
        LeaveMatches(Pop(b, g.now), Close(g), pos);
      }
    }
  }

  lemma {:induction false} DrainMatches(b: Books, g: Ledger)
    requires Matches(b, g)
    ensures Matches(Drain(b, g.now), CloseAll(g)) && |Drain(b, g.now).frames| == 1
    decreases |b.frames|
  {
    if |b.frames| > 1 {
      PopMatches(b, g);
      DrainMatches(Pop(b, g.now), Close(g));
    }
  }

  /** Once nothing is open, the books hold the ledger's times and calls. */
  lemma {:induction false} Settled(b: Books, g: Ledger)
    requires Matches(b, g) && Balanced(b) && g.open == []
    ensures forall i | 0 <= i < |g.names| ::
              b.times[i] == Get(g.self, g.names[i]) && b.calls[i] == Get(g.count, g.names[i])
    ensures b.totTime == g.now - g.pool == Sum(b.times, |b.times|)
    ensures b.totCalls == g.entries + g.unmatched == Sum(b.calls, |b.calls|)
  {
    forall i | 0 <= i < |g.names|
      ensures b.times[i] == Get(g.self, g.names[i]) && b.calls[i] == Get(g.count, g.names[i])
    {
      assert Charged(b, g, i);
    }
    assert Children(b.frames, 1) == Children(b.frames, 0) + b.frames[0].children;
  }
}
