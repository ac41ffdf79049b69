/**
  The tuples of a relation: a circular doubly linked ring in memory, and the chains of tuples
  with equal keys that the hash index points into.  Memory keeps the record of a freed tuple until
  its slot is handed out again.
 */
module RingSpec {
  import opened Distinct
  import opened HashSpec

  datatype Data = Data(bytes: seq<int>)

  datatype Row = Row(key: Key, data: Data)

  /** A tuple record (TLL). */
  datatype Tuple = Tuple(key: Key, data: Data, tombstone: bool, prev: nat, next: nat, hchain: nat)

  type Memory = map<nat, Tuple>

  function Succ(i: int, n: int): int {
    if i + 1 == n then 0 else i + 1
  }

  /** x and y are neighbours in the ring. */
  ghost predicate Link(mem: Memory, x: nat, y: nat) {
    x in mem && y in mem && mem[x].next == y && mem[y].prev == x
  }

  ghost predicate LinkedAt(mem: Memory, ring: seq<nat>, i: int)
    requires 0 <= i < |ring|
  {
    Link(mem, ring[i], ring[Succ(i, |ring|)])
  }

  ghost predicate AllIn(mem: Memory, ring: seq<nat>) {
    forall i {:trigger ring[i]} | 0 <= i < |ring| :: ring[i] in mem
  }

  ghost predicate Ring(mem: Memory, ring: seq<nat>) {
    && NoDup(ring)
    && 0 !in ring
    && AllIn(mem, ring)
    && forall i {:trigger LinkedAt(mem, ring, i)} | 0 <= i < |ring| :: LinkedAt(mem, ring, i)
  }

  /** The head pointer of a ring, NULL (0) if it is empty. */
  function Head(ring: seq<nat>): nat {
    if ring == [] then 0 else ring[0]
  }

  // ---------- linking and unlinking ----------

  /** Memory after a new tuple has been put between the last tuple and the head. */
  function Appended(mem: Memory, head: nat, a: nat, t: Tuple): Memory
    requires head in mem && mem[head].prev in mem && a != head && a != mem[head].prev
  {
    var last := mem[head].prev;
    var m1 := mem[a := t.(prev := last, next := head)];
    var m2 := m1[last := m1[last].(next := a)];
    m2[head := m2[head].(prev := a)]
  }

  lemma {:induction false} AppendedRing(mem: Memory, ring: seq<nat>, a: nat, t: Tuple)
    requires Ring(mem, ring) && ring != [] && a !in ring && a != 0
    ensures mem[ring[0]].prev == ring[|ring| - 1]
    ensures Ring(Appended(mem, ring[0], a, t), ring + [a])
  {
    var n := |ring|;
    assert LinkedAt(mem, ring, n - 1);
    var m, r := Appended(mem, ring[0], a, t), ring + [a];
    NoDupSnoc(ring, a);
    forall i | 0 <= i < n + 1 ensures LinkedAt(m, r, i) {
      if i < n - 1 {
        assert LinkedAt(mem, ring, i);
        Different(ring, i, n - 1);
        Different(ring, i + 1, 0);
      }
    }
  }

  /** Memory after the neighbours of a tuple have been linked to each other. */
  function Unlinked(mem: Memory, a: nat): Memory
    requires a in mem && mem[a].prev in mem && mem[a].next in mem
  {
    var prev, next := mem[a].prev, mem[a].next;
    var m := mem[prev := mem[prev].(next := next)];
    m[next := m[next].(prev := prev)]
  }

  lemma {:induction false} UnlinkedNeighbours(mem: Memory, ring: seq<nat>, i: nat)
    requires Ring(mem, ring) && i < |ring|
    ensures mem[ring[i]].next == ring[Succ(i, |ring|)] && ring[Succ(i, |ring|)] in mem
    ensures mem[ring[i]].prev == ring[if i == 0 then |ring| - 1 else i - 1] && mem[ring[i]].prev in mem
  {
    assert LinkedAt(mem, ring, i) && LinkedAt(mem, ring, if i == 0 then |ring| - 1 else i - 1);
  }

  /** A link between two other tuples survives, and the neighbours are linked. */
  lemma {:induction false} UnlinkedLink(mem: Memory, ring: seq<nat>, i: nat, j: nat)
    requires Ring(mem, ring) && |ring| >= 2 && i < |ring| && j < |ring| && i != j
    ensures mem[ring[i]].prev in mem && mem[ring[i]].next in mem
    ensures var k := Succ(j, |ring|);
            Link(Unlinked(mem, ring[i]), ring[j], ring[if k == i then Succ(i, |ring|) else k])
  {
    UnlinkedNeighbours(mem, ring, i);
    var n := |ring|;
    var k := Succ(j, n);
    assert LinkedAt(mem, ring, j);
    if k != i {
      var p := if i == 0 then n - 1 else i - 1;
      assert j != p && k != Succ(i, n);
      Different(ring, j, p);
      Different(ring, k, Succ(i, n));
    }
  }

  lemma {:induction false} UnlinkedRing(mem: Memory, ring: seq<nat>, i: nat)
    requires Ring(mem, ring) && i < |ring| && |ring| >= 2
    ensures mem[ring[i]].prev in mem && mem[ring[i]].next in mem
    ensures Ring(Unlinked(mem, ring[i]), ring[..i] + ring[i + 1..])
  {
    UnlinkedNeighbours(mem, ring, i);
    NoDupCut(ring, i, i + 1);
    var m, r, n := Unlinked(mem, ring[i]), ring[..i] + ring[i + 1..], |ring|;
    forall j | 0 <= j < n - 1 ensures LinkedAt(m, r, j) {
      var j0 := if j < i then j else j + 1;
      UnlinkedLink(mem, ring, i, j0);
      var k := Succ(j0, n);
      assert r[Succ(j, n - 1)] == ring[if k == i then Succ(i, n) else k];
    }
  }

  // ---------- rows ----------

  ghost predicate SameKeys(mem: Memory, mem': Memory, s: seq<nat>) {
    forall i {:trigger s[i]} | 0 <= i < |s| :: s[i] in mem && s[i] in mem' && mem[s[i]].key == mem'[s[i]].key
  }

  /** The tuples with the given key, newest first. */
  ghost function Chain(mem: Memory, ring: seq<nat>, k: Key): (c: seq<nat>)
    requires AllIn(mem, ring)
    ensures forall a {:trigger a in c} :: a in c <==> a in ring && mem[a].key == k
    ensures AllIn(mem, c)
  {
    if ring == [] then []
    else
      var n := |ring| - 1;
      var rest := Chain(mem, ring[..n], k);
      assert ring == ring[..n] + [ring[n]];
      if mem[ring[n]].key == k then [ring[n]] + rest else rest
  }

  lemma {:induction false} ChainFrame(mem: Memory, mem': Memory, ring: seq<nat>, k: Key)
    requires SameKeys(mem, mem', ring)
    ensures Chain(mem, ring, k) == Chain(mem', ring, k)
  {
    if ring != [] {
      ChainFrame(mem, mem', ring[..|ring| - 1], k);
    }
  }

  /** A new tuple heads the chain of its key and joins no other. */
  lemma {:induction false} ChainAppend(mem: Memory, ring: seq<nat>, a: nat, k: Key)
    requires a in mem && AllIn(mem, ring)
    ensures AllIn(mem, ring + [a])
    ensures Chain(mem, ring + [a], k) == (if mem[a].key == k then [a] else []) + Chain(mem, ring, k)
  {
    assert (ring + [a])[..|ring|] == ring;
  }

  /** Earlier in the chain means later in the ring. */
  lemma {:induction false} ChainNewestFirst(mem: Memory, ring: seq<nat>, k: Key, i: nat, j: nat, p: nat, q: nat)
    requires NoDup(ring) && AllIn(mem, ring) && i < j < |Chain(mem, ring, k)| && p < |ring| && q < |ring|
    requires ring[p] == Chain(mem, ring, k)[i] && ring[q] == Chain(mem, ring, k)[j]
    ensures q < p
  {
    var n := |ring| - 1;
    var front, c := ring[..n], Chain(mem, ring, k);
    var rest := Chain(mem, front, k);
    NoDupFront(ring);
    assert p < n ==> front[p] == ring[p] && front[p] in front;
    var d := if mem[ring[n]].key == k then 1 else 0;
    assert c[j] == rest[j - d] && rest[j - d] in rest;
    assert q < n;
    if i >= d {
      assert c[i] == rest[i - d] && rest[i - d] in rest;
      ChainNewestFirst(mem, front, k, i - d, j - d, p, q);
    }
  }

  lemma {:induction false} ChainNoDup(mem: Memory, ring: seq<nat>, k: Key)
    requires NoDup(ring) && AllIn(mem, ring)
    ensures NoDup(Chain(mem, ring, k))
  {
    if ring != [] {
      var n := |ring| - 1;
      NoDupFront(ring);
      ChainNoDup(mem, ring[..n], k);
      var rest := Chain(mem, ring[..n], k);
      if mem[ring[n]].key == k {
        NoDupCons(ring[n], rest);
      }
    }
  }

  /** Removing a tuple from the ring removes it from its chain and changes no other chain. */
  lemma {:induction false} ChainRemove(mem: Memory, ring: seq<nat>, a: nat, k: Key)
    requires AllIn(mem, ring)
    ensures AllIn(mem, Remove(ring, a))
    ensures Chain(mem, Remove(ring, a), k) == Remove(Chain(mem, ring, k), a)
  {
    assert forall i | 0 <= i < |Remove(ring, a)| :: Remove(ring, a)[i] in Remove(ring, a);
    if ring != [] {
      var front, last := ring[..|ring| - 1], ring[|ring| - 1];
      var rest := Chain(mem, front, k);
      assert ring == front + [last];
      ChainRemove(mem, front, a, k);
      RemoveConcat(front, [last], a);
      RemoveCons(last, [], a);
      RemoveCons(last, rest, a);
      assert [last] + [] == [last];
      if last == a {
        assert Remove(ring, a) == Remove(front, a);
      } else {
        assert Remove(ring, a) == Remove(front, a) + [last];
      }
    }
  }
}
