/**
  The loops that client code runs over a relation with tombstones: DB_FIRST and DB_NEXT, or DB_SET and
  DB_NEXT_DUP, until not found.  They return exactly the readable tuples, in order, whatever the tombstones
  are, also while tuples are deleted through the cursor.
 */
module RelationScans {
  import opened Distinct
  import opened HashSpec
  import opened RingSpec
  import opened IndexSpec
  import opened Relations

  /** The rows of those of the first n tuples that may be read, in order. */
  ghost function Readable(mem: Memory, s: seq<nat>, oid: bool, n: nat): seq<Row>
    requires AllIn(mem, s) && n <= |s|
  {
    if n == 0 then []
    else Readable(mem, s, oid, n - 1) + if oid && mem[s[n - 1]].tombstone then [] else [RowOf(mem, s[n - 1])]
  }

  /** The tuples that a read must not return. */
  ghost function Hidden(mem: Memory, s: seq<nat>, oid: bool): set<nat>
    requires AllIn(mem, s)
  {
    set a | a in s && oid && mem[a].tombstone
  }

  /** The readable rows are those of the sequence without the tombstoned tuples, tuple by tuple. */
  lemma {:induction false} ReadableIs(mem: Memory, s: seq<nat>, oid: bool, n: nat)
    requires AllIn(mem, s) && n <= |s|
    ensures var kept := Minus(s[..n], Hidden(mem, s, oid));
            && |Readable(mem, s, oid, n)| == |kept|
            && forall i | 0 <= i < |kept| ::
                 kept[i] in mem && Readable(mem, s, oid, n)[i] == Row(mem[kept[i]].key, mem[kept[i]].data)
  {
    if n > 0 {
      ReadableIs(mem, s, oid, n - 1);
      assert s[..n] == s[..n - 1] + [s[n - 1]];
      assert s[n - 1] in s;
      MinusParts(s[..n - 1], [s[n - 1]], Hidden(mem, s, oid));
      MinusOne(s[n - 1], Hidden(mem, s, oid));
    }
  }

  /** Nothing readable is skipped on the way to the next visible tuple. */
  lemma {:induction false} ReadableSkip(mem: Memory, s: seq<nat>, oid: bool, i: nat)
    requires AllIn(mem, s) && i <= |s|
    ensures Readable(mem, s, oid, Visible(mem, s, oid, i)) == Readable(mem, s, oid, i)
    decreases |s| - i
  {
    if i < |s| && oid && mem[s[i]].tombstone {
      ReadableSkip(mem, s, oid, i + 1);
    }
  }

  /** Returning a visible tuple and going to the next one adds exactly its row. */
  lemma {:induction false} ReadableNext(mem: Memory, s: seq<nat>, oid: bool, j: nat)
    requires AllIn(mem, s) && j < |s| && !(oid && mem[s[j]].tombstone)
    ensures Readable(mem, s, oid, Visible(mem, s, oid, j + 1)) == Readable(mem, s, oid, j) + [RowOf(mem, s[j])]
  {
    ReadableSkip(mem, s, oid, j + 1);
  }

  // ---------- reading ----------

  /** DB_FIRST, then DB_NEXT until not found: the readable tuples of the ring, oldest first. */
  method ReadAll(rel: Relation, c: Cursor) returns (rows: seq<Row>)
    requires rel.Valid()
    modifies c
    ensures rows == Readable(rel.mem, rel.ring, rel.oid, |rel.ring|)
  {
    rows := [];
    ghost var j := Visible(rel.mem, rel.ring, rel.oid, 0);
    ReadableSkip(rel.mem, rel.ring, rel.oid, 0);
    var found := rel.First(c);
    while found
      invariant j <= |rel.ring| && (found <==> j < |rel.ring|)
      invariant found ==> c.cur == rel.ring[j] && NextAt(rel.mem, rel.ring, c.cur, j + 1)
      invariant found ==> !(rel.oid && rel.mem[rel.ring[j]].tombstone)
      invariant rows == Readable(rel.mem, rel.ring, rel.oid, j)
      decreases |rel.ring| - j
    {
      rows := rows + [Row(rel.mem[c.cur].key, rel.mem[c.cur].data)];
      ReadableNext(rel.mem, rel.ring, rel.oid, j);
      found := rel.Next(c, j + 1);
      j := Visible(rel.mem, rel.ring, rel.oid, j + 1);
    }
  }

  /** DB_SET, then DB_NEXT_DUP until not found: the readable tuples of the key, newest first. */
  method ReadMatches(rel: Relation, c: Cursor, key: Key) returns (rows: seq<Row>)
    requires rel.Valid() && rel.indexed
    modifies c, rel.hidx.slots
    ensures rel.Valid()
    ensures var ch := Chain(rel.mem, rel.ring, key); NoDup(ch) && rows == Readable(rel.mem, ch, rel.oid, |ch|)
  {
    ChainNoDup(rel.mem, rel.ring, key);
    var found := rel.Set(c, key);
    rows := ReadDups(rel, c, key, found);
  }

  method ReadDups(rel: Relation, c: Cursor, key: Key, hit: bool) returns (rows: seq<Row>)
    requires rel.Valid() && rel.indexed
    requires var ch := Chain(rel.mem, rel.ring, key);
             var j := Visible(rel.mem, ch, rel.oid, 0);
             (hit <==> j < |ch|) && (hit ==> c.cur == ch[j] && c.nextaccess == At(ch, j + 1))
    modifies c
    ensures var ch := Chain(rel.mem, rel.ring, key); rows == Readable(rel.mem, ch, rel.oid, |ch|)
  {
    rows := [];
    ghost var ch := Chain(rel.mem, rel.ring, key);
    ghost var j := Visible(rel.mem, ch, rel.oid, 0);
    ReadableSkip(rel.mem, ch, rel.oid, 0);
    var found := hit;
    while found
      invariant j <= |ch| && (found <==> j < |ch|)
      invariant found ==> c.cur == ch[j] && c.nextaccess == At(ch, j + 1) && !(rel.oid && rel.mem[ch[j]].tombstone)
      invariant rows == Readable(rel.mem, ch, rel.oid, j)
      decreases |ch| - j
    {
      rows := rows + [Row(rel.mem[c.cur].key, rel.mem[c.cur].data)];
      ReadableNext(rel.mem, ch, rel.oid, j);
      found := rel.NextDup(c, key, j + 1);
      j := Visible(rel.mem, ch, rel.oid, j + 1);
    }
  }

  // ---------- deleting while reading an object-referenced relation ----------

  /** The memory after the doomed ones of the first n tuples have got their tombstones. */
  ghost function Buried(mem: Memory, s: seq<nat>, n: nat, doomed: set<nat>): (r: Memory)
    requires AllIn(mem, s) && n <= |s|
    ensures r.Keys == mem.Keys
  {
    if n == 0 then mem
    else
      var m := Buried(mem, s, n - 1, doomed);
      if s[n - 1] in doomed then m[s[n - 1] := m[s[n - 1]].(tombstone := true)] else m
  }

  /** Exactly the doomed ones of the first n tuples get a tombstone; nothing else changes. */
  lemma {:induction false} BuriedAt(mem: Memory, s: seq<nat>, n: nat, doomed: set<nat>, a: nat)
    requires AllIn(mem, s) && n <= |s| && a in mem
    ensures Buried(mem, s, n, doomed)[a]
         == mem[a].(tombstone := mem[a].tombstone || (a in s[..n] && a in doomed))
  {
    if n > 0 {
      BuriedAt(mem, s, n - 1, doomed, a);
      assert s[..n] == s[..n - 1] + [s[n - 1]];
    }
  }

  /** Tuples from n on look as before: the next visible one and its contents are the same. */
  lemma {:induction false} BuriedVisible(mem: Memory, s: seq<nat>, n: nat, doomed: set<nat>, i: nat)
    requires AllIn(mem, s) && NoDup(s) && n <= i <= |s|
    ensures AllIn(Buried(mem, s, n, doomed), s)
    ensures Visible(Buried(mem, s, n, doomed), s, true, i) == Visible(mem, s, true, i)
    decreases |s| - i
  {
    var m := Buried(mem, s, n, doomed);
    assert AllIn(m, s) by {
      forall j {:trigger s[j]} | 0 <= j < |s| ensures s[j] in m {
      }
    }
    if i < |s| {
      BuriedElsewhere(mem, s, n, doomed, i);
      BuriedVisible(mem, s, n, doomed, i + 1);
    }
  }

  lemma {:induction false} BuriedElsewhere(mem: Memory, s: seq<nat>, n: nat, doomed: set<nat>, i: nat)
    requires AllIn(mem, s) && NoDup(s) && n <= i < |s|
    ensures Buried(mem, s, n, doomed)[s[i]] == mem[s[i]]
  {
    assert s[i] !in s[..n] by {
      if s[i] in s[..n] {
        var j :| 0 <= j < n && s[..n][j] == s[i];
        Different(s, i, j);
        assert false;
      }
    }
    BuriedAt(mem, s, n, doomed, s[i]);
  }

  /** Tombstoned tuples on the way to the next visible one are not touched. */
  lemma {:induction false} BuriedSkip(mem: Memory, s: seq<nat>, i: nat, doomed: set<nat>)
    requires AllIn(mem, s) && i <= |s|
    ensures Buried(mem, s, Visible(mem, s, true, i), doomed) == Buried(mem, s, i, doomed)
    decreases |s| - i
  {
    if i < |s| && mem[s[i]].tombstone {
      BuriedSkip(mem, s, i + 1, doomed);
      var m := Buried(mem, s, i, doomed);
      BuriedAt(mem, s, i, doomed, s[i]);
      assert m[s[i] := m[s[i]].(tombstone := true)] == m;
    }
  }

  lemma {:induction false} BuriedChain(mem: Memory, ring: seq<nat>, key: Key, s: seq<nat>, n: nat, doomed: set<nat>)
    requires AllIn(mem, ring) && AllIn(mem, s) && n <= |s|
    ensures AllIn(Buried(mem, s, n, doomed), ring)
    ensures Chain(Buried(mem, s, n, doomed), ring, key) == Chain(mem, ring, key)
  {
    var m := Buried(mem, s, n, doomed);
    forall i {:trigger ring[i]} | 0 <= i < |ring| ensures ring[i] in m && m[ring[i]].key == mem[ring[i]].key {
      BuriedAt(mem, s, n, doomed, ring[i]);
    }
    ChainFrame(mem, m, ring, key);
  }

  /** The doomed ones of the first j tuples of the chain are buried; the cursor is on the j-th, if there is one. */
  ghost predicate Burying(rel: Relation, c: Cursor, key: Key, before: Memory, ch: seq<nat>, doomed: set<nat>, j: nat)
    reads rel, c, rel.buffer, rel.hidx, rel.hidx.slots
  {
    && rel.Valid() && rel.oid && rel.indexed
    && AllIn(before, rel.ring) && ch == Chain(before, rel.ring, key) && NoDup(ch)
    && j <= |ch| && rel.mem == Buried(before, ch, j, doomed)
    && (j < |ch| ==> c.cur == ch[j] && c.nextaccess == At(ch, j + 1) && !before[ch[j]].tombstone)
  }

  lemma {:induction false} BuryingRow(before: Memory, ring: seq<nat>, key: Key, ch: seq<nat>, doomed: set<nat>, j: nat)
    requires AllIn(before, ring) && ch == Chain(before, ring, key) && NoDup(ch) && j < |ch|
    ensures ch[j] in ring && Buried(before, ch, j, doomed)[ch[j]] == before[ch[j]]
  {
    BuriedElsewhere(before, ch, j, doomed, j);
    assert ch[j] in ch;
  }

  /** c_del on the current tuple if it is doomed. */
  method BuryCurrent(rel: Relation, c: Cursor, key: Key, doomed: set<nat>, ghost before: Memory, ghost ch: seq<nat>, ghost j: nat)
    returns (row: Row)
    requires j < |ch| && Burying(rel, c, key, before, ch, doomed, j)
    modifies rel`mem, c`cur
    ensures rel.Valid() && rel.mem == Buried(before, ch, j + 1, doomed)
    ensures row == RowOf(before, ch[j])
  {
    BuryingRow(before, rel.ring, key, ch, doomed, j);
    row := Row(rel.mem[c.cur].key, rel.mem[c.cur].data);
    if c.cur in doomed {
      var found := rel.Bury(c);
    }
  }

  /** What DB_NEXT_DUP finds after the j-th tuple has been handled. */
  lemma {:induction false} BuryPlan(before: Memory, ring: seq<nat>, key: Key, ch: seq<nat>, doomed: set<nat>, j: nat)
    requires AllIn(before, ring) && ch == Chain(before, ring, key) && NoDup(ch) && j < |ch|
    ensures var m, i := Buried(before, ch, j + 1, doomed), Visible(before, ch, true, j + 1);
            && AllIn(m, ring) && Chain(m, ring, key) == ch && AllIn(m, ch)
            && Visible(m, ch, true, j + 1) == i && Buried(before, ch, i, doomed) == m
  {
    BuriedChain(before, ring, key, ch, j + 1, doomed);
    BuriedVisible(before, ch, j + 1, doomed, j + 1);
    BuriedSkip(before, ch, j + 1, doomed);
  }

  /** One round: the current tuple is returned and deleted if it is doomed, then DB_NEXT_DUP. */
  method BuryOne(rel: Relation, c: Cursor, key: Key, doomed: set<nat>, ghost before: Memory, ghost ch: seq<nat>, ghost j: nat)
    returns (row: Row, found: bool)
    requires j < |ch| && Burying(rel, c, key, before, ch, doomed, j)
    modifies rel`mem, c
    ensures Burying(rel, c, key, before, ch, doomed, Visible(before, ch, true, j + 1))
    ensures row == RowOf(before, ch[j]) && (found <==> Visible(before, ch, true, j + 1) < |ch|)
  {
    row := BuryCurrent(rel, c, key, doomed, before, ch, j);
    BuryPlan(before, rel.ring, key, ch, doomed, j);
    found := rel.NextDup(c, key, j + 1);
  }

  /** DB_SET, then DB_NEXT_DUP until not found, with c_del on the doomed tuples: returns the readable tuples
      of the key, newest first, and gives exactly the doomed ones among them a tombstone. */
  method BuryMatches(rel: Relation, c: Cursor, key: Key, doomed: set<nat>) returns (rows: seq<Row>)
    requires rel.Valid() && rel.oid && rel.indexed
    modifies rel`mem, c, rel.hidx.slots
    ensures rel.Valid()
    ensures var ch := Chain(old(rel.mem), rel.ring, key);
            rows == Readable(old(rel.mem), ch, true, |ch|) && rel.mem == Buried(old(rel.mem), ch, |ch|, doomed)
  {
    ghost var before, ch := rel.mem, Chain(rel.mem, rel.ring, key);
    ChainNoDup(before, rel.ring, key);
    BuriedSkip(before, ch, 0, doomed);
    var found := rel.Set(c, key);
    rows := BuryRest(rel, c, key, doomed, before, ch, found);
  }

  method BuryRest(rel: Relation, c: Cursor, key: Key, doomed: set<nat>, ghost before: Memory, ghost ch: seq<nat>, hit: bool)
    returns (rows: seq<Row>)
    requires AllIn(before, ch)
    requires Burying(rel, c, key, before, ch, doomed, Visible(before, ch, true, 0)) && (hit <==> Visible(before, ch, true, 0) < |ch|)
    modifies rel`mem, c
    ensures rel.Valid() && rows == Readable(before, ch, true, |ch|) && rel.mem == Buried(before, ch, |ch|, doomed)
  {
    rows := [];
    ghost var j := Visible(before, ch, true, 0);
    ReadableSkip(before, ch, true, 0);
    var found := hit;
    while found
      invariant Burying(rel, c, key, before, ch, doomed, j) && (found <==> j < |ch|)
      invariant rows == Readable(before, ch, true, j)
      decreases |ch| - j
    {
      ReadableNext(before, ch, true, j);
      var row;
      row, found := BuryOne(rel, c, key, doomed, before, ch, j);
      rows := rows + [row];
      j := Visible(before, ch, true, j + 1);
    }
  }

  // ---------- what one operation means for the next ----------

  /** A tuple just put is the one that get returns through the index. */
  method PutThenGet(rel: Relation, key: Key, data: Data, page: nat) returns (r: Option<Data>)
    requires rel.Valid() && rel.indexed && rel.buffer.Unused(page)
    modifies rel`head, rel`mem, rel`ring, rel.hidx, rel.hidx.slots, rel.buffer
    ensures rel.Valid() && r == Some(data)
  {
    ghost var before := rel.ring;
    var a := rel.Put(key, data, page);
    NewestHit(rel, before, a, key, data);
    ghost var i;
    r, i := rel.Get(key);
    assert rel.Hit(a, key, None);
    assert Chain(rel.mem, rel.ring, key)[0] == a;
  }

  /** The newest tuple is the first hit of its chain. */
  lemma {:induction false} NewestHit(rel: Relation, before: seq<nat>, a: nat, key: Key, data: Data)
    requires rel.Valid() && rel.ring == before + [a] && a in rel.mem
    requires rel.mem[a].key == key && rel.mem[a].data == data && !rel.mem[a].tombstone
    ensures var ch := Chain(rel.mem, rel.ring, key); ch != [] && ch[0] == a && rel.Hit(a, key, None) && rel.Hit(a, key, Some(data))
  {
    assert rel.ring[|before|] == a;
    assert AllIn(rel.mem, before) by {
      forall i {:trigger before[i]} | 0 <= i < |before| ensures before[i] in rel.mem {
        assert before[i] == rel.ring[i];
      }
    }
    ChainAppend(rel.mem, before, a, key);
  }

  /** A tuple just put is found by key and data, with an index or without. */
  method PutThenGetBoth(rel: Relation, key: Key, data: Data, page: nat) returns (found: bool)
    requires rel.Valid() && rel.buffer.Unused(page)
    modifies rel`head, rel`mem, rel`ring, rel.hidx, rel.hidx.slots, rel.buffer
    ensures rel.Valid() && found
  {
    ghost var before := rel.ring;
    var a := rel.Put(key, data, page);
    NewestHit(rel, before, a, key, data);
    found := rel.GetBoth(key, data);
    assert rel.Hit(a, key, Some(data));
  }

  /** After a delete by key on an OID relation no get finds the key. */
  method DelThenGet(rel: Relation, key: Key) returns (r: Option<Data>)
    requires rel.Valid() && rel.oid
    modifies rel`mem, rel.hidx.slots
    ensures rel.Valid() && r == None
  {
    var deleted := rel.Del(key);
    ghost var i;
    r, i := rel.Get(key);
  }
}
