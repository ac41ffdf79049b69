/**
  The hash index of a relation: for every key the table holds the newest tuple of the key's chain, both as
  the value and as the storage of the key, and the chain runs through `hchain` from new to old.
 */
module IndexSpec {
  import opened Distinct
  import opened HashSpec
  import opened RingSpec

  /** The chain pointer of the i-th tuple of a chain. */
  ghost predicate ChainedAt(mem: Memory, c: seq<nat>, i: int)
    requires 0 <= i < |c|
  {
    c[i] in mem && mem[c[i]].hchain == if i + 1 < |c| then c[i + 1] else 0
  }

  ghost predicate Chained(mem: Memory, c: seq<nat>) {
    forall i {:trigger ChainedAt(mem, c, i)} | 0 <= i < |c| :: ChainedAt(mem, c, i)
  }

  ghost predicate IndexedKey(mem: Memory, ring: seq<nat>, idx: map<Key, Item>, k: Key)
    requires AllIn(mem, ring)
  {
    var c := Chain(mem, ring, k);
    && (k in idx <==> c != [])
    && (k in idx ==> idx[k] == Item(c[0], c[0]))
    && Chained(mem, c)
  }

  ghost predicate Indexed(mem: Memory, ring: seq<nat>, idx: map<Key, Item>) {
    && AllIn(mem, ring)
    && forall k {:trigger IndexedKey(mem, ring, idx, k)} :: IndexedKey(mem, ring, idx, k)
  }

  /** Same keys and chain pointers. */
  ghost predicate SameChains(mem: Memory, mem': Memory, s: seq<nat>) {
    forall i {:trigger s[i]} | 0 <= i < |s| ::
      s[i] in mem && s[i] in mem' && mem[s[i]].key == mem'[s[i]].key && mem[s[i]].hchain == mem'[s[i]].hchain
  }

  lemma {:induction false} IndexedFrame(mem: Memory, mem': Memory, ring: seq<nat>, idx: map<Key, Item>)
    requires Indexed(mem, ring, idx) && SameChains(mem, mem', ring)
    ensures Indexed(mem', ring, idx)
  {
    forall k ensures IndexedKey(mem', ring, idx, k) {
      assert IndexedKey(mem, ring, idx, k);
      ChainFrame(mem, mem', ring, k);
      ChainedFrame(mem, mem', Chain(mem, ring, k), ring);
    }
  }

  lemma {:induction false} ChainedFrame(mem: Memory, mem': Memory, c: seq<nat>, ring: seq<nat>)
    requires Chained(mem, c) && SameChains(mem, mem', ring) && forall a | a in c :: a in ring
    ensures Chained(mem', c)
  {
    forall i | 0 <= i < |c| ensures ChainedAt(mem', c, i) {
      assert ChainedAt(mem, c, i) && c[i] in ring;
    }
  }

  /** The stored key pointer is the storage of a tuple of the ring with that key. */
  lemma {:induction false} StoredKey(mem: Memory, ring: seq<nat>, idx: map<Key, Item>, k: Key)
    requires Indexed(mem, ring, idx) && k in idx
    ensures idx[k].ref == idx[k].value && idx[k].ref in ring && mem[idx[k].ref].key == k
  {
    assert IndexedKey(mem, ring, idx, k);
    assert Chain(mem, ring, k)[0] in Chain(mem, ring, k);
  }

  /** A pointer outside the ring, or to a tuple with the same key, is safe to look up with. */
  lemma {:induction false} PointerOk(mem: Memory, ring: seq<nat>, idx: map<Key, Item>, ref: int, k: Key)
    requires Indexed(mem, ring, idx)
    requires ref < 0 || ref !in ring || mem[ref].key == k
    ensures RefOk(idx, ref, k)
  {
    forall q | q in idx && idx[q].ref == ref ensures q == k {
      StoredKey(mem, ring, idx, q);
    }
  }

  lemma {:induction false} AppendedKey(mem: Memory, mem': Memory, ring: seq<nat>, idx: map<Key, Item>, a: nat, k: Key)
    requires AllIn(mem, ring) && IndexedKey(mem, ring, idx, k) && SameChains(mem, mem', ring)
    requires a in mem'
    requires mem'[a].hchain == if mem'[a].key in idx then idx[mem'[a].key].value else 0
    ensures AllIn(mem', ring + [a]) && IndexedKey(mem', ring + [a], idx[mem'[a].key := Item(a, a)], k)
  {
    ChainFrame(mem, mem', ring, k);
    var c := Chain(mem, ring, k);
    ChainedFrame(mem, mem', c, ring);
    if k == mem'[a].key {
      ChainedCons(mem', a, c);
    } else {
      assert [] + c == c;
    }
  }

  lemma {:induction false} ChainedCons(mem: Memory, a: nat, c: seq<nat>)
    requires Chained(mem, c) && a in mem && mem[a].hchain == if c == [] then 0 else c[0]
    ensures Chained(mem, [a] + c)
  {
    var d := [a] + c;
    forall i | 0 <= i < |d| ensures ChainedAt(mem, d, i) {
      if i > 0 {
        assert ChainedAt(mem, c, i - 1);
      }
    }
  }

  /** A new tuple becomes the head of its chain. */
  lemma {:induction false} IndexedAppend(mem: Memory, mem': Memory, ring: seq<nat>, idx: map<Key, Item>, a: nat)
    requires Indexed(mem, ring, idx) && SameChains(mem, mem', ring)
    requires a in mem'
    requires mem'[a].hchain == if mem'[a].key in idx then idx[mem'[a].key].value else 0
    ensures Indexed(mem', ring + [a], idx[mem'[a].key := Item(a, a)])
  {
    var ring', idx' := ring + [a], idx[mem'[a].key := Item(a, a)];
    forall k ensures IndexedKey(mem', ring', idx', k) {
      assert IndexedKey(mem, ring, idx, k);
      AppendedKey(mem, mem', ring, idx, a, k);
    }
  }

  /** The index after the removal of a tuple that heads its chain. */
  ghost function IndexWithoutHead(idx: map<Key, Item>, k: Key, next: nat): map<Key, Item> {
    if next == 0 then idx - {k} else idx[k := Item(next, next)]
  }

  lemma {:induction false} RemovedHead(mem: Memory, ring: seq<nat>, idx: map<Key, Item>, a: nat)
    requires NoDup(ring) && 0 !in ring && AllIn(mem, ring) && a in ring && IndexedKey(mem, ring, idx, mem[a].key)
    requires mem[a].key in idx && idx[mem[a].key].value == a
    ensures AllIn(mem, Remove(ring, a))
    ensures IndexedKey(mem, Remove(ring, a), IndexWithoutHead(idx, mem[a].key, mem[a].hchain), mem[a].key)
    ensures mem[a].hchain != 0 ==> mem[a].hchain in ring && mem[a].hchain != a && mem[mem[a].hchain].key == mem[a].key
  {
    var key := mem[a].key;
    var c := Chain(mem, ring, key);
    ChainNoDup(mem, ring, key);
    ChainRemove(mem, ring, a, key);
    RemoveAt(c, 0);
    assert c[..0] + c[1..] == c[1..];
    assert ChainedAt(mem, c, 0);
    ChainedTail(mem, c);
    if |c| > 1 {
      Different(c, 0, 1);
      assert c[1] in c && c[1] in ring;
    }
  }

  lemma {:induction false} ChainedTail(mem: Memory, c: seq<nat>)
    requires Chained(mem, c) && c != []
    ensures Chained(mem, c[1..])
  {
    forall i | 0 <= i < |c[1..]| ensures ChainedAt(mem, c[1..], i) {
      assert ChainedAt(mem, c, i + 1);
    }
  }

  lemma {:induction false} RemovedOtherKey(mem: Memory, ring: seq<nat>, idx: map<Key, Item>, idx': map<Key, Item>, a: nat, k: Key)
    requires AllIn(mem, ring) && a in ring && mem[a].key != k && IndexedKey(mem, ring, idx, k)
    requires (k in idx <==> k in idx') && (k in idx ==> idx[k] == idx'[k])
    ensures AllIn(mem, Remove(ring, a)) && IndexedKey(mem, Remove(ring, a), idx', k)
  {
    ChainRemove(mem, ring, a, k);
    RemoveAbsent(Chain(mem, ring, k), a);
  }

  lemma {:induction false} IndexedRemoveHead(mem: Memory, ring: seq<nat>, idx: map<Key, Item>, a: nat)
    requires NoDup(ring) && 0 !in ring && Indexed(mem, ring, idx) && a in ring
    requires mem[a].key in idx && idx[mem[a].key].value == a
    ensures Indexed(mem, Remove(ring, a), IndexWithoutHead(idx, mem[a].key, mem[a].hchain))
    ensures mem[a].hchain != 0 ==> mem[a].hchain in ring && mem[a].hchain != a && mem[mem[a].hchain].key == mem[a].key
  {
    var ring', idx' := Remove(ring, a), IndexWithoutHead(idx, mem[a].key, mem[a].hchain);
    assert IndexedKey(mem, ring, idx, mem[a].key);
    RemovedHead(mem, ring, idx, a);
    forall k ensures IndexedKey(mem, ring', idx', k) {
      assert IndexedKey(mem, ring, idx, k);
      if k != mem[a].key {
        RemovedOtherKey(mem, ring, idx, idx', a, k);
      }
    }
  }

  /** Memory after a chain pointer has been made to skip a tuple. */
  function Skipped(mem: Memory, p: nat, a: nat): Memory
    requires p in mem && a in mem
  {
    mem[p := mem[p].(hchain := mem[a].hchain)]
  }

  lemma {:induction false} SkippedChain(mem: Memory, c: seq<nat>, j: nat)
    requires NoDup(c) && Chained(mem, c) && 0 < j < |c|
    ensures c[j - 1] in mem && c[j] in mem
    ensures Chained(Skipped(mem, c[j - 1], c[j]), c[..j] + c[j + 1..])
  {
    assert ChainedAt(mem, c, j - 1) && ChainedAt(mem, c, j);
    var m, d := Skipped(mem, c[j - 1], c[j]), c[..j] + c[j + 1..];
    forall i | 0 <= i < |d| ensures ChainedAt(m, d, i) {
      var i0 := if i < j then i else i + 1;
      assert ChainedAt(mem, c, i0) && d[i] == c[i0];
      if i0 != j - 1 {
        Different(c, i0, j - 1);
      }
    }
  }

  lemma {:induction false} RemovedLater(mem: Memory, ring: seq<nat>, idx: map<Key, Item>, a: nat, j: nat, k: Key)
    requires NoDup(ring) && AllIn(mem, ring) && a in ring && IndexedKey(mem, ring, idx, k) && IndexedKey(mem, ring, idx, mem[a].key)
    requires 0 < j < |Chain(mem, ring, mem[a].key)| && Chain(mem, ring, mem[a].key)[j] == a
    ensures var p := Chain(mem, ring, mem[a].key)[j - 1];
            && p in mem
            && AllIn(Skipped(mem, p, a), Remove(ring, a))
            && IndexedKey(Skipped(mem, p, a), Remove(ring, a), idx, k)
  {
    var c := Chain(mem, ring, mem[a].key);
    var p := c[j - 1];
    assert p in c && p in ring;
    var m := Skipped(mem, p, a);
    ChainRemove(mem, ring, a, k);
    ChainFrame(mem, m, Remove(ring, a), k);
    if k == mem[a].key {
      ChainNoDup(mem, ring, k);
      RemoveAt(c, j);
      SkippedChain(mem, c, j);
    } else {
      RemoveAbsent(Chain(mem, ring, k), a);
      SkippedElsewhere(mem, Chain(mem, ring, k), p, a);
    }
  }

  lemma {:induction false} IndexedRemoveLater(mem: Memory, ring: seq<nat>, idx: map<Key, Item>, a: nat, j: nat)
    requires NoDup(ring) && Indexed(mem, ring, idx) && a in ring
    requires 0 < j < |Chain(mem, ring, mem[a].key)| && Chain(mem, ring, mem[a].key)[j] == a
    ensures Chain(mem, ring, mem[a].key)[j - 1] in mem
    ensures Indexed(Skipped(mem, Chain(mem, ring, mem[a].key)[j - 1], a), Remove(ring, a), idx)
  {
    var p := Chain(mem, ring, mem[a].key)[j - 1];
    assert p in Chain(mem, ring, mem[a].key);
    var m, ring' := Skipped(mem, p, a), Remove(ring, a);
    assert IndexedKey(mem, ring, idx, mem[a].key);
    RemovedLater(mem, ring, idx, a, j, mem[a].key);
    forall k ensures IndexedKey(m, ring', idx, k) {
      assert IndexedKey(mem, ring, idx, k);
      RemovedLater(mem, ring, idx, a, j, k);
    }
  }

  lemma {:induction false} SkippedElsewhere(mem: Memory, c: seq<nat>, p: nat, a: nat)
    requires p in mem && a in mem && p !in c && Chained(mem, c)
    ensures Chained(Skipped(mem, p, a), c)
  {
    forall i | 0 <= i < |c| ensures ChainedAt(Skipped(mem, p, a), c, i) {
      assert ChainedAt(mem, c, i) && c[i] in c;
    }
  }
}
