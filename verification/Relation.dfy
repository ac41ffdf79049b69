/**
  An in-memory relation: tuples in slab memory, linked in a ring, optionally indexed by key, read and
  deleted through cursors.
 */
module Relations {
  import opened Distinct
  import opened HashSpec
  import opened RingSpec
  import opened IndexSpec
  import opened HashTables
  import opened Slab

  /** The caller's own key buffer: an address that is never a tuple. */
  const CALLER_BUFFER := -1

  /** The tuples keep their contents and chain pointers; only ring links may differ. */
  ghost predicate SameButLinks(mem: Memory, mem': Memory, s: seq<nat>) {
    forall i {:trigger s[i]} | 0 <= i < |s| ::
      && s[i] in mem && s[i] in mem'
      && mem[s[i]].(prev := 0, next := 0) == mem'[s[i]].(prev := 0, next := 0)
  }

  /** The tuples keep key, data and status. */
  ghost predicate Kept(mem: Memory, mem': Memory, s: seq<nat>) {
    forall i {:trigger s[i]} | 0 <= i < |s| ::
      && s[i] in mem && s[i] in mem'
      && mem[s[i]].(prev := 0, next := 0, hchain := 0) == mem'[s[i]].(prev := 0, next := 0, hchain := 0)
  }

  class Cursor {
    var cur: nat
    var nextaccess: nat

    constructor ()
      ensures cur == 0 && nextaccess == 0
    {
      cur, nextaccess := 0, 0;
    }
  }

  class Relation {
    const oid: bool
    const indexed: bool
    const hidx: HashTable
    const buffer: Buffer
    var head: nat
    var mem: Memory
    ghost var ring: seq<nat>

    /** The ring is linked, and every tuple in it is live memory of the slab.  (The validity of a part is
        written as an equivalence so that it is carried along as one fact.) */
    ghost predicate Linked()
      reads this, buffer
    {
      && (buffer.Valid() <==> true)
      && head == Head(ring)
      && Ring(mem, ring)
      && forall a {:trigger a in buffer.live} | a in ring :: a in buffer.live
    }

    ghost predicate Valid()
      reads this, buffer, hidx, hidx.slots
    {
      Linked() && (hidx.Valid() <==> true) && (indexed ==> (Indexed(mem, ring, hidx.Map()) <==> true))
    }

    constructor (oid: bool, indexed: bool, itemSize: nat, page: nat)
      requires itemSize > 0 && page > 0
      ensures Valid() && fresh(hidx) && fresh(hidx.slots) && fresh(buffer)
      ensures this.oid == oid && this.indexed == indexed && ring == []
    {
      this.oid, this.indexed := oid, indexed;
      hidx := new HashTable();
      buffer := new Buffer(itemSize, page);
      head, mem, ring := 0, map[], [];
    }

    // ---------- append ----------

    /** The double linkage of im_rel_put. */
    method Link(a: nat, t: Tuple)
      requires head == Head(ring) && Ring(mem, ring) && a !in ring && a != 0
      modifies this`head, this`mem, this`ring
      ensures head == Head(ring) && Ring(mem, ring) && ring == old(ring) + [a]
      ensures SameButLinks(old(mem), mem, old(ring))
      ensures a in mem && mem[a].(prev := 0, next := 0) == t.(prev := 0, next := 0)
    {
      if head == 0 {
        mem := mem[a := t.(prev := a, next := a)];
        head := a;
      } else {
        AppendedRing(mem, ring, a, t);
        var hprev := mem[head].prev;
        if hprev == head {
          mem := mem[a := t.(prev := head, next := head)];
          mem := mem[head := mem[head].(next := a, prev := a)];
        } else {
          mem := mem[a := t.(prev := hprev, next := head)];
          mem := mem[hprev := mem[hprev].(next := a)];
          mem := mem[head := mem[head].(prev := a)];
        }
        assert mem == Appended(old(mem), head, a, t);
      }
      ring := ring + [a];
    }

    /** The index maintenance of im_rel_put: the new tuple heads the chain of its key. */
    method Index(a: nat, ghost rest: seq<nat>)
      requires indexed && hidx.Valid() && Ring(mem, ring) && ring == rest + [a]
      requires Indexed(mem, rest, hidx.Map()) && a in mem && mem[a].hchain == 0
      modifies this`mem, hidx, hidx.slots
      ensures hidx.Valid() && (hidx.slots == old(hidx.slots) || fresh(hidx.slots))
      ensures Indexed(mem, ring, hidx.Map()) && Ring(mem, ring)
      ensures Kept(old(mem), mem, ring)
    {
      IndexPlan(mem, rest, hidx.Map(), a);
      var key := mem[a].key;
      var entry := hidx.Find(CALLER_BUFFER, key);
      if entry != 0 {
        var was := hidx.Replace(a, key, a);
        mem := mem[a := mem[a].(hchain := entry)];
      } else {
        var found := hidx.Insert(a, key, a);
        assert mem == mem[a := mem[a].(hchain := entry)];
      }
    }

    /** im_rel_put, DB_APPEND; page is where malloc puts a new slab page if one is needed. */
    method Put(key: Key, data: Data, page: nat) returns (a: nat)
      requires Valid() && buffer.Unused(page)
      modifies this`head, this`mem, this`ring, hidx, hidx.slots, buffer
      ensures Valid() && (hidx.slots == old(hidx.slots) || fresh(hidx.slots))
      ensures a != 0 && a !in old(ring) && ring == old(ring) + [a]
      ensures Kept(old(mem), mem, old(ring))
      ensures a in mem && mem[a].key == key && mem[a].data == data && !mem[a].tombstone
    {
      a := buffer.Allocate(page);
      Link(a, Tuple(key, data, false, 0, 0, 0));
      if indexed {
        IndexedFrame(old(mem), mem, old(ring), hidx.Map());
        Index(a, old(ring));
      }
      assert ring[|old(ring)|] == a;
      assert forall i | 0 <= i < |old(ring)| :: ring[i] == old(ring)[i];
    }

    // ---------- delete through a cursor ----------

    /** The ring part of im_rel_cursor_del for value-referenced relations.  The record of the tuple stays
        readable; the slot of the only tuple of a relation is not returned to the slab. */
    method Unlink(c: Cursor)
      requires Linked() && c.cur in ring
      modifies this`head, this`mem, this`ring, buffer, c`cur
      ensures Linked() && ring == Remove(old(ring), old(c.cur))
      ensures SameButLinks(old(mem), mem, old(ring)) && mem[old(c.cur)] == old(mem[c.cur])
      ensures c.cur == if |old(ring)| >= 2 && old(c.cur) == old(head) then 0 else old(c.cur)
      ensures buffer.live == if |old(ring)| >= 2 then old(buffer.live) - {old(c.cur)} else old(buffer.live)
    {
      var cur := c.cur;
      UnlinkPlan(mem, ring, cur);
      var next, prev := mem[cur].next, mem[cur].prev;
      if cur == head {
        if next == head {
          head := 0;
        } else {
          head := next;
          mem := mem[prev := mem[prev].(next := next)];
          mem := mem[next := mem[next].(prev := prev)];
          buffer.Free(cur);
          c.cur := 0;
        }
      } else {
        mem := mem[prev := mem[prev].(next := next)];
        mem := mem[next := mem[next].(prev := prev)];
        buffer.Free(cur);
      }
      ring := Remove(ring, cur);
    }

    /** The tuple before `cur` in its chain. */
    method ChainPredecessor(entry: nat, cur: nat, ghost c: seq<nat>, ghost j: nat) returns (p: nat)
      requires Chained(mem, c) && NoDup(c) && 0 !in c && 0 < j < |c| && c[j] == cur && c[0] == entry
      ensures p == c[j - 1]
    {
      p := entry;
      ghost var i := 0;
      assert ChainedAt(mem, c, 0);
      while mem[p].hchain != 0 && mem[p].hchain != cur
        invariant 0 <= i < j && p == c[i] && ChainedAt(mem, c, i)
        decreases j - i
      {
        p := mem[p].hchain;
        i := i + 1;
        assert ChainedAt(mem, c, i);
      }
      assert c[i + 1] in c;
      if i + 1 != j {
        Different(c, i + 1, j);
      }
    }

    /** The tuple heads its chain: the next one takes over the entry, or the key goes. */
    method UnindexHead(cur: nat, ghost full: seq<nat>)
      requires hidx.Valid() && ring == Remove(full, cur)
      requires NoDup(full) && 0 !in full && cur in full && Indexed(mem, full, hidx.Map())
      requires mem[cur].key in hidx.Map() && hidx.Map()[mem[cur].key].value == cur
      modifies hidx`used, hidx.slots
      ensures hidx.Valid() && Indexed(mem, ring, hidx.Map())
    {
      ghost var idx := hidx.Map();
      var key := mem[cur].key;
      PointerOk(mem, full, idx, cur, key);
      IndexedRemoveHead(mem, full, idx, cur);
      if mem[cur].hchain != 0 {
        PointerOk(mem, full, idx, mem[cur].hchain, key);
        var was := hidx.Replace(mem[cur].hchain, key, mem[cur].hchain);
      } else {
        var was := hidx.Delete(cur, key);
      }
    }

    /** The tuple comes later in its chain: its predecessor skips it. */
    method UnindexLater(cur: nat, entry: nat, ghost full: seq<nat>)
      requires Ring(mem, ring) && ring == Remove(full, cur)
      requires NoDup(full) && 0 !in full && cur in full && Indexed(mem, full, hidx.Map())
      requires var c := Chain(mem, full, mem[cur].key); c != [] && c[0] == entry != cur && Chained(mem, c)
      modifies this`mem
      ensures Indexed(mem, ring, hidx.Map()) && Ring(mem, ring)
      ensures Kept(old(mem), mem, full) && cur in mem && mem[cur] == old(mem)[cur]
    {
      ghost var c := Chain(mem, full, mem[cur].key);
      assert cur in c;
      ChainNoDup(mem, full, mem[cur].key);
      ghost var j :| 0 <= j < |c| && c[j] == cur;
      var p := ChainPredecessor(entry, cur, c, j);
      IndexedRemoveLater(mem, full, hidx.Map(), cur, j);
      assert c[j - 1] in c;
      mem := mem[p := mem[p].(hchain := mem[cur].hchain)];
      RingFrame(old(mem), mem, ring);
    }

    /** The index part of im_rel_cursor_del, for a tuple already unlinked from the ring `full`. */
    method Unindex(cur: nat, ghost full: seq<nat>)
      requires hidx.Valid() && Ring(mem, ring) && ring == Remove(full, cur)
      requires NoDup(full) && 0 !in full && cur in full && Indexed(mem, full, hidx.Map())
      modifies this`mem, hidx`used, hidx.slots
      ensures hidx.Valid() && Indexed(mem, ring, hidx.Map()) && Ring(mem, ring)
      ensures Kept(old(mem), mem, full) && cur in mem && mem[cur] == old(mem)[cur]
    {
      var key := mem[cur].key;
      assert IndexedKey(mem, full, hidx.Map(), key);
      assert cur in Chain(mem, full, key);
      PointerOk(mem, full, hidx.Map(), cur, key);
      var entry := hidx.Find(cur, key);
      if entry == cur {
        UnindexHead(cur, full);
      } else {
        UnindexLater(cur, entry, full);
      }
    }

    /** im_rel_cursor_del on a value-referenced relation. */
    method Delete(c: Cursor) returns (found: bool)
      requires Valid() && !oid && (c.cur == 0 || c.cur in ring)
      modifies this`head, this`mem, this`ring, hidx`used, hidx.slots, buffer, c`cur
      ensures Valid()
      ensures found <==> old(c.cur) != 0
      ensures ring == Remove(old(ring), old(c.cur)) && Kept(old(mem), mem, old(ring))
      ensures c.cur == if |old(ring)| >= 2 && old(c.cur) == old(head) then 0 else old(c.cur)
      ensures found ==> old(c.cur) in mem && mem[old(c.cur)].next == old(mem[c.cur].next)
      ensures found && |old(ring)| >= 2 ==> buffer.live == old(buffer.live) - {old(c.cur)}
    {
      var cur := c.cur;
      if cur == 0 {
        RemoveAbsent(ring, 0);
        return false;
      }
      Unlink(c);
      if indexed {
        IndexedFrame(old(mem), mem, old(ring), hidx.Map());
        Unindex(cur, old(ring));
      }
      found := true;
    }

    // ---------- scanning the ring ----------

    /** The loop of DB_FIRST and DB_NEXT over tombstones, and the update of nextaccess. */
    method SkipTombstones(c: Cursor, ghost i: nat)
      requires Linked() && ring != [] && i <= |ring| && c.cur == At(ring, i)
      modifies c
      ensures c.cur == At(ring, Visible(mem, ring, oid, i))
      ensures c.cur != 0 ==> NextAt(mem, ring, c.cur, Visible(mem, ring, oid, i) + 1)
    {
      ghost var j := i;
      while c.cur != 0 && oid && mem[c.cur].tombstone
        invariant i <= j <= |ring| && c.cur == At(ring, j)
        invariant Visible(mem, ring, oid, i) == Visible(mem, ring, oid, j)
        decreases |ring| - j
      {
        assert LinkedAt(mem, ring, j);
        if j + 1 < |ring| {
          Different(ring, 0, j + 1);
        }
        c.cur := mem[c.cur].next;
        if c.cur == head {
          c.cur := 0;
        }
        j := j + 1;
      }
      if j < |ring| {
        assert LinkedAt(mem, ring, j);
      }
      c.nextaccess := if c.cur != 0 && mem[c.cur].next != head then mem[c.cur].next else 0;
    }

    /** c_get with DB_FIRST. */
    method First(c: Cursor) returns (found: bool)
      requires Linked()
      modifies c
      ensures found <==> Visible(mem, ring, oid, 0) < |ring|
      ensures found ==> c.cur == ring[Visible(mem, ring, oid, 0)] && NextAt(mem, ring, c.cur, Visible(mem, ring, oid, 0) + 1)
    {
      if head == 0 {
        return false;
      }
      c.cur := head;
      SkipTombstones(c, 0);
      found := c.cur != 0;
    }

    /** c_get with DB_NEXT, for a cursor that is before tuple i. */
    method Next(c: Cursor, ghost i: nat) returns (found: bool)
      requires Linked() && NextAt(mem, ring, c.cur, i)
      modifies c
      ensures found <==> Visible(mem, ring, oid, i) < |ring|
      ensures found ==> c.cur == ring[Visible(mem, ring, oid, i)] && NextAt(mem, ring, c.cur, Visible(mem, ring, oid, i) + 1)
    {
      if head == 0 {
        return false;
      }
      if 0 < i < |ring| {
        Different(ring, 0, i);
      }
      if c.cur == 0 {
        c.cur := head;
      } else if mem[c.cur].next == head {
        c.cur := 0;
      } else {
        c.cur := mem[c.cur].next;
      }
      SkipTombstones(c, i);
      found := c.cur != 0;
    }

    /** i tuples of the ring `all` have been handled; the cursor is on the next one, if there is one. */
    ghost predicate Scanning(c: Cursor, before: Memory, all: seq<nat>, doomed: set<nat>, i: nat)
      reads this, buffer, hidx, hidx.slots, c
    {
      && Valid()
      && ScanAt(mem, ring, before, all, doomed, i)
      && (i < |all| ==> c.cur == all[i] && NextAt(mem, ring, c.cur, ScanIndex(all, doomed, i) + 1))
    }

    /** One round of a scan: the tuple under the cursor is deleted if it is doomed, then DB_NEXT. */
    method ScanOne(c: Cursor, doomed: set<nat>, ghost before: Memory, ghost all: seq<nat>, ghost i: nat)
      returns (row: Row, found: bool)
      requires !oid && i < |all| && Scanning(c, before, all, doomed, i)
      modifies this`head, this`mem, this`ring, hidx`used, hidx.slots, buffer, c
      ensures Scanning(c, before, all, doomed, i + 1)
      ensures row == RowOf(before, all[i])
      ensures found <==> i + 1 < |all|
    {
      row := Row(mem[c.cur].key, mem[c.cur].data);
      ghost var j := ScanIndex(all, doomed, i);
      if c.cur in doomed {
        ghost var mem0, ring0 := mem, ring;
        found := Delete(c);
        ScanDeleted(mem0, ring0, mem, c.cur, before, all, doomed, i);
        found := Next(c, j);
      } else {
        ScanKept(mem, ring, before, all, doomed, i);
        found := Next(c, j + 1);
      }
    }

    method ScanFirst(c: Cursor, ghost doomed: set<nat>) returns (found: bool)
      requires Valid() && !oid
      modifies c
      ensures Scanning(c, mem, ring, doomed, 0) && (found <==> ring != [])
    {
      found := First(c);
    }

    /** DELETE FROM as the generated code runs it: DB_FIRST, then DB_NEXT, with c_del on the tuples that
        match.  Every tuple is visited once, in order; those that do not match stay, in order.  `doomed` is
        any set of tuples: whatever the WHERE clause decides on each tuple when the cursor reaches it. */
    method DeleteWhere(c: Cursor, doomed: set<nat>) returns (visited: seq<Row>)
      requires Valid() && !oid
      modifies this`head, this`mem, this`ring, hidx`used, hidx.slots, buffer, c
      ensures Valid()
      ensures |visited| == |old(ring)|
      ensures forall i | 0 <= i < |visited| :: visited[i] == Row(old(mem)[old(ring)[i]].key, old(mem)[old(ring)[i]].data)
      ensures ring == Minus(old(ring), doomed) && ring == Survivors(old(ring), |old(ring)|, doomed) && Kept(old(mem), mem, ring)
    {
      var found := ScanFirst(c, doomed);
      visited := ScanRest(c, doomed, old(mem), old(ring), found);
      ScanDone(mem, ring, old(mem), old(ring), doomed);
      RowsAtIs(old(mem), old(ring), |old(ring)|);
      SurvivorsAre(old(ring), |old(ring)|, doomed);
    }

    method ScanRest(c: Cursor, doomed: set<nat>, ghost before: Memory, ghost all: seq<nat>, hit: bool) returns (visited: seq<Row>)
      requires !oid && Scanning(c, before, all, doomed, 0) && (hit <==> all != [])
      modifies this`head, this`mem, this`ring, hidx`used, hidx.slots, buffer, c
      ensures Scanning(c, before, all, doomed, |all|) && visited == RowsAt(before, all, |all|)
    {
      visited := [];
      var found := hit;
      ghost var i := 0;
      while found
        invariant i <= |all| && (Scanning(c, before, all, doomed, i) <==> true)  // as one fact
        invariant visited == RowsAt(before, all, i) && (found <==> i < |all|)
        decreases |all| - i
      {
        var row;
        row, found := ScanOne(c, doomed, before, all, i);
        visited := visited + [row];
        i := i + 1;
      }
    }

    // ---------- walking a chain ----------

    /** The loop of DB_SET and DB_NEXT_DUP over tombstones, and the update of nextaccess. */
    method SkipChain(c: Cursor, ghost ch: seq<nat>, ghost i: nat)
      requires AllIn(mem, ch) && Chained(mem, ch) && 0 !in ch && i <= |ch| && c.cur == At(ch, i)
      modifies c
      ensures c.cur == At(ch, Visible(mem, ch, oid, i))
      ensures c.cur != 0 ==> c.nextaccess == At(ch, Visible(mem, ch, oid, i) + 1)
    {
      ghost var j := i;
      while c.cur != 0 && oid && mem[c.cur].tombstone
        invariant i <= j <= |ch| && c.cur == At(ch, j)
        invariant Visible(mem, ch, oid, i) == Visible(mem, ch, oid, j)
        decreases |ch| - j
      {
        assert ChainedAt(mem, ch, j);
        c.cur := mem[c.cur].hchain;
        j := j + 1;
      }
      if j < |ch| {
        assert ChainedAt(mem, ch, j) && ch[j] in ch;
      }
      c.nextaccess := if c.cur != 0 then mem[c.cur].hchain else 0;
    }

    /** c_get with DB_SET on an indexed relation: the newest readable tuple with the key. */
    method Set(c: Cursor, key: Key) returns (found: bool)
      requires Valid() && indexed
      modifies c, hidx.slots
      ensures Valid()
      ensures var ch := Chain(mem, ring, key);
              && (found <==> Visible(mem, ch, oid, 0) < |ch|)
              && (found ==> c.cur == ch[Visible(mem, ch, oid, 0)] && c.nextaccess == At(ch, Visible(mem, ch, oid, 0) + 1))
    {
      if head == 0 {
        return false;
      }
      PointerOk(mem, ring, hidx.Map(), CALLER_BUFFER, key);
      ChainReady(mem, ring, hidx.Map(), key);
      c.cur := hidx.Find(CALLER_BUFFER, key);
      SkipChain(c, Chain(mem, ring, key), 0);
      found := c.cur != 0;
    }

    /** c_get with DB_NEXT_DUP on an indexed relation: the next readable tuple of the chain. */
    method NextDup(c: Cursor, key: Key, ghost i: nat) returns (found: bool)
      requires Valid() && indexed && i <= |Chain(mem, ring, key)| && c.nextaccess == At(Chain(mem, ring, key), i)
      modifies c
      ensures var ch := Chain(mem, ring, key);
              && (found <==> Visible(mem, ch, oid, i) < |ch|)
              && (found ==> c.cur == ch[Visible(mem, ch, oid, i)] && c.nextaccess == At(ch, Visible(mem, ch, oid, i) + 1))
    {
      if head == 0 {
        return false;
      }
      ChainReady(mem, ring, hidx.Map(), key);
      c.cur := c.nextaccess;
      SkipChain(c, Chain(mem, ring, key), i);
      found := c.cur != 0;
    }

    /** i tuples of the chain `all` have been returned; the cursor is on the next one, if there is one. */
    ghost predicate Matching(c: Cursor, key: Key, before: Memory, ring0: seq<nat>, all: seq<nat>, doomed: set<nat>, i: nat)
      reads this, buffer, hidx, hidx.slots, c
    {
      && Valid()
      && MatchAt(mem, ring, key, before, ring0, all, doomed, i)
      && (i < |all| ==> c.cur == all[i] && c.nextaccess == At(all, i + 1))
    }

    /** The tuple under the cursor is deleted if it is doomed. */
    method MatchDelete(c: Cursor, key: Key, doomed: set<nat>,
                       ghost before: Memory, ghost ring0: seq<nat>, ghost all: seq<nat>, ghost i: nat) returns (row: Row)
      requires !oid && indexed && i < |all| && Matching(c, key, before, ring0, all, doomed, i)
      modifies this`head, this`mem, this`ring, hidx`used, hidx.slots, buffer, c`cur
      ensures Valid() && MatchAt(mem, ring, key, before, ring0, all, doomed, i + 1)
      ensures row == RowOf(before, all[i])
    {
      MatchRow(mem, ring, key, before, ring0, all, doomed, i);
      row := Row(mem[c.cur].key, mem[c.cur].data);
      if c.cur in doomed {
        ghost var mem0, rest := mem, ring;
        var found := Delete(c);
        MatchDeleted(mem0, rest, mem, key, before, ring0, all, doomed, i);
      } else {
        MatchKept(mem, ring, key, before, ring0, all, doomed, i);
      }
    }

    /** One round of a loop over the tuples with a key: delete or keep, then DB_NEXT_DUP. */
    method MatchOne(c: Cursor, key: Key, doomed: set<nat>,
                    ghost before: Memory, ghost ring0: seq<nat>, ghost all: seq<nat>, ghost i: nat)
      returns (row: Row, found: bool)
      requires !oid && indexed && i < |all| && Matching(c, key, before, ring0, all, doomed, i)
      modifies this`head, this`mem, this`ring, hidx`used, hidx.slots, buffer, c
      ensures Matching(c, key, before, ring0, all, doomed, i + 1)
      ensures row == RowOf(before, all[i]) && (found <==> i + 1 < |all|)
    {
      row := MatchDelete(c, key, doomed, before, ring0, all, i);
      found := NextDup(c, key, ScanIndex(all, doomed, i + 1));
    }

    method MatchFirst(c: Cursor, key: Key, ghost doomed: set<nat>) returns (found: bool)
      requires Valid() && !oid && indexed
      modifies c, hidx.slots
      ensures Matching(c, key, mem, ring, Chain(mem, ring, key), doomed, 0) && (found <==> Chain(mem, ring, key) != [])
    {
      MatchStart(mem, ring, key, doomed);
      found := Set(c, key);
    }

    /** DB_SET, then DB_NEXT_DUP until not found, deleting the doomed tuples on the way: returns exactly the
        tuples with the key, newest first, and removes exactly the doomed ones among them. */
    method DeleteMatches(c: Cursor, key: Key, doomed: set<nat>) returns (returned: seq<Row>)
      requires Valid() && !oid && indexed
      modifies this`head, this`mem, this`ring, hidx`used, hidx.slots, buffer, c
      ensures Valid()
      ensures var all := Chain(old(mem), old(ring), key);
              && |returned| == |all|
              && (forall i | 0 <= i < |all| :: returned[i] == Row(old(mem)[all[i]].key, old(mem)[all[i]].data))
              && Chain(mem, ring, key) == Minus(all, doomed)
              && ring == Minus(old(ring), Among(all, doomed))
    {
      ghost var all := Chain(mem, ring, key);
      var found := MatchFirst(c, key, doomed);
      returned := MatchRest(c, key, doomed, old(mem), old(ring), all, found);
      MatchedAll(mem, ring, key, old(mem), old(ring), all, doomed);
      RowsAtIs(old(mem), all, |all|);
    }

    method MatchRest(c: Cursor, key: Key, doomed: set<nat>,
                     ghost before: Memory, ghost ring0: seq<nat>, ghost all: seq<nat>, hit: bool)
      returns (returned: seq<Row>)
      requires !oid && indexed && Matching(c, key, before, ring0, all, doomed, 0) && (hit <==> all != [])
      modifies this`head, this`mem, this`ring, hidx`used, hidx.slots, buffer, c
      ensures Matching(c, key, before, ring0, all, doomed, |all|) && returned == RowsAt(before, all, |all|)
    {
      returned := [];
      var found := hit;
      ghost var i := 0;
      while found
        invariant i <= |all| && (Matching(c, key, before, ring0, all, doomed, i) <==> true)  // as one fact
        invariant returned == RowsAt(before, all, i) && (found <==> i < |all|)
        decreases |all| - i
      {
        var row;
        row, found := MatchOne(c, key, doomed, before, ring0, all, i);
        returned := returned + [row];
        i := i + 1;
      }
    }

    // ---------- object-referenced relations ----------

    /** Overwriting the status of a tuple changes neither ring nor index. */
    method SetTombstone(a: nat)
      requires Valid() && a in ring
      modifies this`mem
      ensures Valid() && mem == old(mem)[a := old(mem)[a].(tombstone := true)]
    {
      mem := mem[a := mem[a].(tombstone := true)];
      RingFrame(old(mem), mem, ring);
      if indexed {
        IndexedFrame(old(mem), mem, ring, hidx.Map());
      }
    }

    /** im_rel_cursor_put: the data of the current tuple is overwritten, its key ignored. */
    method PutCurrent(c: Cursor, data: Data) returns (found: bool)
      requires Valid() && (c.cur == 0 || c.cur in ring)
      modifies this`mem
      ensures Valid()
      ensures found <==> c.cur != 0
      ensures mem == if found then old(mem)[c.cur := old(mem)[c.cur].(data := data)] else old(mem)
    {
      if c.cur == 0 {
        return false;
      }
      mem := mem[c.cur := mem[c.cur].(data := data)];
      RingFrame(old(mem), mem, ring);
      if indexed {
        IndexedFrame(old(mem), mem, ring, hidx.Map());
      }
      found := true;
    }

    /** im_rel_del on an object-referenced relation: every tuple with the key gets a tombstone. */
    method Del(key: Key) returns (found: bool)
      requires Valid() && oid
      modifies this`mem
      ensures Valid()
      ensures found <==> exists a :: a in ring && old(mem)[a].key == key
      ensures forall a | a in ring :: a in mem && mem[a] == old(mem)[a].(tombstone := old(mem)[a].tombstone || old(mem)[a].key == key)
    {
      found := false;
      if head == 0 {
        return;
      }
      var cur := head;
      ghost var i := 0;
      while true
        invariant Valid() && 0 <= i < |ring| && cur == ring[i]
        invariant found <==> exists j :: 0 <= j < i && old(mem)[ring[j]].key == key
        invariant mem == Marked(old(mem), ring, i, key)
        decreases |ring| - i
      {
        var hit;
        hit, cur := DelOne(cur, key, old(mem), i);
        found := found || hit;
        i := i + 1;
        if cur == head {
          break;
        }
      }
      MarkedAll(old(mem), ring, key);
    }

    /** One turn of im_rel_del: a tombstone if the key matches, then the next tuple. */
    method DelOne(a: nat, key: Key, ghost before: Memory, ghost i: nat) returns (hit: bool, next: nat)
      requires Valid() && AllIn(before, ring) && i < |ring| && a == ring[i] && mem == Marked(before, ring, i, key)
      modifies this`mem
      ensures Valid() && mem == Marked(before, ring, i + 1, key)
      ensures hit <==> before[ring[i]].key == key
      ensures next == (if i + 1 < |ring| then ring[i + 1] else head) && (i + 1 < |ring| ==> next != head)
    {
      RingWrap(mem, ring, i);
      MarkedAt(before, ring, i, key, a);
      hit := mem[a].key == key;
      if hit {
        SetTombstone(a);
      }
      next := mem[a].next;
    }

    // ---------- lookups ----------

    /** A readable tuple of the ring with the key and, if given, the data. */
    ghost predicate Hit(a: nat, key: Key, data: Option<Data>)
      reads this
      requires AllIn(mem, ring)
    {
      a in ring && mem[a].key == key && !(oid && mem[a].tombstone) && (data.Some? ==> mem[a].data == data.value)
    }

    /** The i-th tuple of s is the first hit in s. */
    ghost predicate FirstHit(s: seq<nat>, i: nat, key: Key, data: Option<Data>)
      reads this
      requires AllIn(mem, ring)
    {
      i < |s| && Hit(s[i], key, data) && forall j | 0 <= j < i :: !Hit(s[j], key, data)
    }

    /** The walk along a chain of im_rel_get. */
    method FindInChain(key: Key, data: Option<Data>) returns (a: nat, ghost i: nat)
      requires Valid() && indexed
      modifies hidx.slots
      ensures Valid()
      ensures a != 0 ==> Hit(a, key, data)
      ensures a == 0 ==> forall b :: !Hit(b, key, data)
      ensures a != 0 ==> FirstHit(Chain(mem, ring, key), i, key, data) && Chain(mem, ring, key)[i] == a
    {
      PointerOk(mem, ring, hidx.Map(), CALLER_BUFFER, key);
      ChainReady(mem, ring, hidx.Map(), key);
      ghost var ch := Chain(mem, ring, key);
      a := hidx.Find(CALLER_BUFFER, key);
      i := 0;
      while a != 0 && !(!(oid && mem[a].tombstone) && (data.Some? ==> mem[a].data == data.value))
        invariant 0 <= i <= |ch| && a == At(ch, i)
        invariant forall j | 0 <= j < i :: !Hit(ch[j], key, data)
        decreases |ch| - i
      {
        assert ChainedAt(mem, ch, i);
        a := mem[a].hchain;
        i := i + 1;
      }
      if a == 0 {
        NoHitInChain(key, data, ch);
      } else {
        assert ch[i] in ch;
      }
    }

    lemma {:induction false} NoHitInChain(key: Key, data: Option<Data>, ch: seq<nat>)
      requires AllIn(mem, ring) && ch == Chain(mem, ring, key)
      requires forall j | 0 <= j < |ch| :: !Hit(ch[j], key, data)
      ensures forall b :: !Hit(b, key, data)
    {
      forall b ensures !Hit(b, key, data) {
        assert b in ch <==> b in ring && mem[b].key == key;
      }
    }

    /** The walk around the ring of im_rel_get. */
    method FindInRing(key: Key, data: Option<Data>) returns (a: nat, ghost i: nat)
      requires Valid()
      ensures a != 0 ==> Hit(a, key, data)
      ensures a == 0 ==> forall b :: !Hit(b, key, data)
      ensures a != 0 ==> FirstHit(ring, i, key, data) && ring[i] == a
    {
      i := 0;
      if head == 0 {
        return 0, 0;
      }
      a := head;
      while true
        invariant 0 <= i < |ring| && a == ring[i]
        invariant forall j | 0 <= j < i :: !Hit(ring[j], key, data)
        decreases |ring| - i
      {
        if !(oid && mem[a].tombstone) && mem[a].key == key && (data.Some? ==> mem[a].data == data.value) {
          assert ring[i] in ring;
          return;
        }
        assert LinkedAt(mem, ring, i);
        if i + 1 < |ring| {
          Different(ring, 0, i + 1);
        }
        a := mem[a].next;
        i := i + 1;
        if a == head {
          return 0, 0;
        }
      }
    }

    /** im_rel_get: the data of the newest readable tuple with the key if there is an index, of the oldest
        if there is none; both exist under the same condition. */
    method Get(key: Key) returns (r: Option<Data>, ghost i: nat)
      requires Valid()
      modifies hidx.slots
      ensures Valid()
      ensures r.Some? <==> exists a :: Hit(a, key, None)
      ensures r.Some? ==> var s := if indexed then Chain(mem, ring, key) else ring;
                          FirstHit(s, i, key, None) && mem[s[i]].data == r.value
    {
      if head == 0 {
        return None, 0;
      }
      var a;
      if indexed {
        a, i := FindInChain(key, None);
      } else {
        a, i := FindInRing(key, None);
      }
      r := if a == 0 then None else Some(mem[a].data);
    }

    /** im_rel_get with DB_GET_BOTH: the answer does not depend on whether there is an index. */
    method GetBoth(key: Key, data: Data) returns (found: bool)
      requires Valid()
      modifies hidx.slots
      ensures Valid()
      ensures found <==> exists a :: Hit(a, key, Some(data))
    {
      if head == 0 {
        return false;
      }
      var a;
      ghost var i;
      if indexed {
        a, i := FindInChain(key, Some(data));
      } else {
        a, i := FindInRing(key, Some(data));
      }
      found := a != 0;
    }

    /** c_get with DB_GET_BOTH: the cursor goes to the first tuple with key and data, in chain or ring order. */
    method SetBoth(c: Cursor, key: Key, data: Data) returns (found: bool, ghost i: nat)
      requires Valid()
      modifies c, hidx.slots
      ensures Valid()
      ensures found <==> exists a :: Hit(a, key, Some(data))
      ensures found ==> var s := if indexed then Chain(mem, ring, key) else ring;
                        FirstHit(s, i, key, Some(data)) && c.cur == s[i] && c.nextaccess == At(s, i + 1)
    {
      if head == 0 {
        return false, 0;
      }
      var a;
      if indexed {
        ChainReady(mem, ring, hidx.Map(), key);
        a, i := FindInChain(key, Some(data));
        assert a != 0 ==> ChainedAt(mem, Chain(mem, ring, key), i);
        c.nextaccess := if a != 0 then mem[a].hchain else 0;
      } else {
        a, i := FindInRing(key, Some(data));
        if a != 0 {
          RingWrap(mem, ring, i);
        }
        c.nextaccess := if a != 0 && mem[a].next != head then mem[a].next else 0;
      }
      c.cur := a;
      found := a != 0;
      assert found ==> Hit(a, key, Some(data));
    }

    /** The first tuple after the i-th without a tombstone, NULL if there is none before the head. */
    method NextUnburied(ghost i: nat, a: nat) returns (cur: nat)
      requires Linked() && i < |ring| && a == ring[i]
      ensures cur == At(ring, Visible(mem, ring, true, i + 1))
    {
      RingWrap(mem, ring, i);
      cur := mem[a].next;
      ghost var j := i + 1;
      while cur != head && mem[cur].tombstone
        invariant i + 1 <= j <= |ring| && cur == (if j < |ring| then ring[j] else head) && (j < |ring| ==> cur != head)
        invariant Visible(mem, ring, true, i + 1) == Visible(mem, ring, true, j)
        decreases |ring| - j
      {
        RingWrap(mem, ring, j);
        cur := mem[cur].next;
        j := j + 1;
      }
      if cur == head {
        cur := 0;
      }
    }

    /** im_rel_cursor_del on an object-referenced relation: a tombstone, and the cursor moves on. */
    method Bury(c: Cursor) returns (found: bool)
      requires Valid() && oid && (c.cur == 0 || c.cur in ring)
      modifies this`mem, c`cur
      ensures Valid() && (found <==> old(c.cur) != 0)
      ensures !found ==> mem == old(mem) && c.cur == old(c.cur)
      ensures found ==> mem == old(mem)[old(c.cur) := old(mem)[old(c.cur)].(tombstone := true)]
      ensures found ==> exists i :: 0 <= i < |ring| && ring[i] == old(c.cur) && c.cur == At(ring, Visible(mem, ring, true, i + 1))
    {
      var cur := c.cur;
      if cur == 0 {
        return false;
      }
      SetTombstone(cur);
      ghost var i :| 0 <= i < |ring| && ring[i] == cur;
      c.cur := NextUnburied(i, cur);
      found := true;
    }
  }

  datatype Option<T> = None | Some(value: T)

  /** The link from the i-th tuple leads to the next one, or from the last one back to the head. */
  lemma {:induction false} RingWrap(mem: Memory, ring: seq<nat>, i: nat)
    requires Ring(mem, ring) && i < |ring|
    ensures ring[i] in mem && mem[ring[i]].next == if i + 1 < |ring| then ring[i + 1] else Head(ring)
    ensures i + 1 < |ring| ==> ring[i + 1] != Head(ring)
  {
    assert LinkedAt(mem, ring, i);
    if i + 1 < |ring| {
      Different(ring, 0, i + 1);
    }
  }

  /** The i-th tuple, NULL (0) after the last one. */
  function At(s: seq<nat>, i: nat): nat {
    if i < |s| then s[i] else 0
  }

  /** The first position from i on whose tuple may be read; |s| if there is none. */
  ghost function Visible(mem: Memory, s: seq<nat>, oid: bool, i: nat): (j: nat)
    requires i <= |s| && AllIn(mem, s)
    ensures i <= j <= |s| && (j < |s| ==> !(oid && mem[s[j]].tombstone))
    ensures forall l | i <= l < j :: oid && mem[s[l]].tombstone
    decreases |s| - i
  {
    if i == |s| || !(oid && mem[s[i]].tombstone) then i else Visible(mem, s, oid, i + 1)
  }

  /** DB_NEXT goes to the i-th tuple of the ring.  A cursor on a deleted tuple still holds the link to the
      tuple that came after it; one whose tuple was the head is NULL. */
  ghost predicate NextAt(mem: Memory, ring: seq<nat>, cur: nat, i: int) {
    && 0 <= i <= |ring|
    && (ring != [] ==> if cur == 0 then i == 0 else
          cur in mem && (if i == |ring| then mem[cur].next == ring[0] else 0 < i && mem[cur].next == ring[i]))
  }

  function RowOf(mem: Memory, a: nat): Row
    requires a in mem
  {
    Row(mem[a].key, mem[a].data)
  }

  /** The rows of the first n tuples. */
  ghost function RowsAt(mem: Memory, s: seq<nat>, n: nat): seq<Row>
    requires AllIn(mem, s) && n <= |s|
  {
    if n == 0 then [] else RowsAt(mem, s, n - 1) + [RowOf(mem, s[n - 1])]
  }

  /** Tuple by tuple, in order. */
  lemma {:induction false} RowsAtIs(mem: Memory, s: seq<nat>, n: nat)
    requires AllIn(mem, s) && n <= |s|
    ensures |RowsAt(mem, s, n)| == n
    ensures forall i | 0 <= i < n :: RowsAt(mem, s, n)[i] == Row(mem[s[i]].key, mem[s[i]].data)
  {
    if n > 0 {
      RowsAtIs(mem, s, n - 1);
    }
  }

  /** Those of the first n tuples that are not doomed, in order. */
  ghost function Survivors(s: seq<nat>, n: nat, doomed: set<nat>): (r: seq<nat>)
    requires n <= |s|
  {
    if n == 0 then []
    else if s[n - 1] in doomed then Survivors(s, n - 1, doomed)
    else Survivors(s, n - 1, doomed) + [s[n - 1]]
  }

  lemma {:induction false} SurvivorsAre(s: seq<nat>, n: nat, doomed: set<nat>)
    requires n <= |s|
    ensures Survivors(s, n, doomed) == Minus(s[..n], doomed)
    ensures n == |s| ==> Survivors(s, n, doomed) == Minus(s, doomed)
  {
    if n > 0 {
      SurvivorsAre(s, n - 1, doomed);
      assert s[..n] == s[..n - 1] + [s[n - 1]];
      MinusParts(s[..n - 1], [s[n - 1]], doomed);
      MinusOne(s[n - 1], doomed);
    }
    assert n == |s| ==> s[..n] == s;
  }

  /** One tuple further in a scan that deletes the doomed tuples. */
  lemma {:induction false} ScanStep(all: seq<nat>, i: nat, doomed: set<nat>, ring: seq<nat>)
    requires NoDup(ring) && i < |all|
    requires ring == Survivors(all, i, doomed) + all[i..]
    ensures var j := |Survivors(all, i, doomed)|;
            && j < |ring| && ring[j] == all[i]
            && (if all[i] in doomed then Remove(ring, all[i]) else ring)
               == Survivors(all, i + 1, doomed) + all[i + 1..]
  {
    var kept := Survivors(all, i, doomed);
    var j := |kept|;
    assert ring[j] == all[i];
    assert ring[..j] == kept && ring[j + 1..] == all[i + 1..];
    RemoveAt(ring, j);
    assert kept + all[i..] == kept + [all[i]] + all[i + 1..];
  }

  /** After a delete, DB_NEXT goes to the tuple that followed the deleted one. */
  lemma {:induction false} DeletedNextAt(mem: Memory, ring: seq<nat>, mem': Memory, cur: nat, j: nat)
    requires Ring(mem, ring) && j < |ring|
    requires ring[j] in mem' && mem'[ring[j]].next == mem[ring[j]].next
    requires cur == if |ring| >= 2 && j == 0 then 0 else ring[j]
    ensures NextAt(mem', Remove(ring, ring[j]), cur, j)
  {
    RemoveAt(ring, j);
    assert LinkedAt(mem, ring, j);
  }

  /** A scan of the ring `all` (with the contents `before`) has handled i tuples and deleted the doomed
      ones among them. */
  ghost predicate ScanAt(mem: Memory, ring: seq<nat>, before: Memory, all: seq<nat>, doomed: set<nat>, i: nat) {
    && AllIn(before, all) && i <= |all|
    && Kept(before, mem, ring)
    && ring == Survivors(all, i, doomed) + all[i..]
  }

  /** Where the next tuple of the scan is in the ring. */
  ghost function ScanIndex(all: seq<nat>, doomed: set<nat>, i: nat): nat
    requires i <= |all|
  {
    |Survivors(all, i, doomed)|
  }

  lemma {:induction false} ScanDone(mem: Memory, ring: seq<nat>, before: Memory, all: seq<nat>, doomed: set<nat>)
    requires ScanAt(mem, ring, before, all, doomed, |all|)
    ensures ring == Survivors(all, |all|, doomed) && Kept(before, mem, ring)
  {
  }

  lemma {:induction false} ScanKept(mem: Memory, ring: seq<nat>, before: Memory, all: seq<nat>, doomed: set<nat>, i: nat)
    requires ScanAt(mem, ring, before, all, doomed, i) && i < |all| && NoDup(ring)
    requires all[i] !in doomed
    ensures ScanAt(mem, ring, before, all, doomed, i + 1)
    ensures ScanIndex(all, doomed, i + 1) == ScanIndex(all, doomed, i) + 1
    ensures i + 1 < |all| ==> ring[ScanIndex(all, doomed, i + 1)] == all[i + 1]
  {
    ScanStep(all, i, doomed, ring);
  }

  lemma {:induction false} ScanDeleted(mem: Memory, ring: seq<nat>, mem': Memory, cur: nat,
                    before: Memory, all: seq<nat>, doomed: set<nat>, i: nat)
    requires ScanAt(mem, ring, before, all, doomed, i) && i < |all| && Ring(mem, ring)
    requires all[i] in doomed
    requires Kept(mem, mem', ring) && all[i] in mem' && all[i] in mem && mem'[all[i]].next == mem[all[i]].next
    requires cur == if |ring| >= 2 && all[i] == Head(ring) then 0 else all[i]
    ensures var ring', j := Remove(ring, all[i]), ScanIndex(all, doomed, i);
            && ScanAt(mem', ring', before, all, doomed, i + 1)
            && ScanIndex(all, doomed, i + 1) == j
            && NextAt(mem', ring', cur, j)
            && (i + 1 < |all| ==> ring'[j] == all[i + 1])
  {
    ScanStep(all, i, doomed, ring);
    var j := ScanIndex(all, doomed, i);
    if j > 0 {
      Different(ring, 0, j);
    }
    DeletedNextAt(mem, ring, mem', cur, j);
    KeptPart(before, mem, mem', ring, ring, Remove(ring, all[i]));
  }

  /** The chain of a key is linked and found through the index. */
  lemma {:induction false} ChainReady(mem: Memory, ring: seq<nat>, idx: map<Key, Item>, k: Key)
    requires Ring(mem, ring) && Indexed(mem, ring, idx)
    ensures var ch := Chain(mem, ring, k);
            && AllIn(mem, ch) && Chained(mem, ch) && 0 !in ch
            && At(ch, 0) == (if k in idx then idx[k].value else 0)
  {
    assert IndexedKey(mem, ring, idx, k);
    var ch := Chain(mem, ring, k);
  }

  /** i tuples of the chain `all` have been handled and the doomed ones among them deleted: what is left
      of the chain and of the ring. */
  ghost predicate MatchAt(mem: Memory, ring: seq<nat>, key: Key,
                          before: Memory, ring0: seq<nat>, all: seq<nat>, doomed: set<nat>, i: nat) {
    && AllIn(mem, ring)
    && ScanAt(mem, Chain(mem, ring, key), before, all, doomed, i)
    && ring == Minus(ring0, Doomed(all, i, doomed))
  }

  lemma {:induction false} MatchStart(mem: Memory, ring: seq<nat>, key: Key, doomed: set<nat>)
    requires AllIn(mem, ring)
    ensures MatchAt(mem, ring, key, mem, ring, Chain(mem, ring, key), doomed, 0)
  {
    MinusNothing(ring);
  }

  lemma {:induction false} MatchRow(mem: Memory, ring: seq<nat>, key: Key, before: Memory, ring0: seq<nat>, all: seq<nat>, doomed: set<nat>, i: nat)
    requires MatchAt(mem, ring, key, before, ring0, all, doomed, i) && i < |all|
    ensures all[i] in mem && all[i] in ring && RowOf(mem, all[i]) == RowOf(before, all[i])
  {
    var ch := Chain(mem, ring, key);
    assert ch[ScanIndex(all, doomed, i)] in ch;
  }

  lemma {:induction false} MatchKept(mem: Memory, ring: seq<nat>, key: Key, before: Memory, ring0: seq<nat>, all: seq<nat>, doomed: set<nat>, i: nat)
    requires NoDup(ring) && MatchAt(mem, ring, key, before, ring0, all, doomed, i) && i < |all|
    requires all[i] !in doomed
    ensures MatchAt(mem, ring, key, before, ring0, all, doomed, i + 1)
  {
    ChainNoDup(mem, ring, key);
    ScanKept(mem, Chain(mem, ring, key), before, all, doomed, i);
  }

  lemma {:induction false} MatchDeleted(mem: Memory, ring: seq<nat>, mem': Memory, key: Key,
                     before: Memory, ring0: seq<nat>, all: seq<nat>, doomed: set<nat>, i: nat)
    requires NoDup(ring) && MatchAt(mem, ring, key, before, ring0, all, doomed, i) && i < |all|
    requires all[i] in doomed && Kept(mem, mem', ring)
    ensures MatchAt(mem', Remove(ring, all[i]), key, before, ring0, all, doomed, i + 1)
  {
    var ch, ring' := Chain(mem, ring, key), Remove(ring, all[i]);
    ChainNoDup(mem, ring, key);
    ScanStep(all, i, doomed, ch);
    ChainRemove(mem, ring, all[i], key);
    MinusRemove(ring0, Doomed(all, i, doomed), all[i]);
    KeptPart(mem, mem, mem', ring, ring, ring');
    ChainFrame(mem, mem', ring', key);
    KeptPart(before, mem, mem', ch, ring, Chain(mem', ring', key));
  }

  lemma {:induction false} KeptPart(before: Memory, mem: Memory, mem': Memory, ch: seq<nat>, ring: seq<nat>, part: seq<nat>)
    requires Kept(before, mem, ch) && Kept(mem, mem', ring) && forall a | a in part :: a in ch && a in ring
    ensures Kept(before, mem', part)
  {
    forall l | 0 <= l < |part|
      ensures part[l] in before && part[l] in mem' && before[part[l]].(prev := 0, next := 0, hchain := 0) == mem'[part[l]].(prev := 0, next := 0, hchain := 0)
    {
      assert part[l] in part;
      var m, q :| 0 <= m < |ch| && ch[m] == part[l] && 0 <= q < |ring| && ring[q] == part[l];
    }
  }

  /** The doomed ones among the first n tuples. */
  ghost function Doomed(s: seq<nat>, n: nat, doomed: set<nat>): set<nat>
    requires n <= |s|
  {
    if n == 0 then {}
    else if s[n - 1] in doomed then Doomed(s, n - 1, doomed) + {s[n - 1]}
    else Doomed(s, n - 1, doomed)
  }

  lemma {:induction false} DoomedAre(s: seq<nat>, n: nat, doomed: set<nat>)
    requires n <= |s|
    ensures Doomed(s, n, doomed) == Among(s[..n], doomed)
    ensures n == |s| ==> Doomed(s, n, doomed) == Among(s, doomed)
  {
    if n > 0 {
      DoomedAre(s, n - 1, doomed);
      assert s[..n] == s[..n - 1] + [s[n - 1]];
    }
    assert n == |s| ==> s[..n] == s;
  }

  /** When all tuples of the chain have been returned, exactly the doomed ones among them are gone. */
  lemma {:induction false} MatchedAll(mem: Memory, ring: seq<nat>, key: Key,
                                      before: Memory, ring0: seq<nat>, all: seq<nat>, doomed: set<nat>)
    requires MatchAt(mem, ring, key, before, ring0, all, doomed, |all|)
    ensures AllIn(mem, ring) && Chain(mem, ring, key) == Minus(all, doomed) && ring == Minus(ring0, Among(all, doomed))
  {
    SurvivorsAre(all, |all|, doomed);
    DoomedAre(all, |all|, doomed);
    assert all[|all|..] == [];
  }

  /** The memory after those of the first n tuples that have the key have got their tombstones. */
  ghost function Marked(mem: Memory, ring: seq<nat>, n: nat, key: Key): (r: Memory)
    requires AllIn(mem, ring) && n <= |ring|
    ensures r.Keys == mem.Keys
  {
    if n == 0 then mem
    else
      var m := Marked(mem, ring, n - 1, key);
      if mem[ring[n - 1]].key == key then m[ring[n - 1] := m[ring[n - 1]].(tombstone := true)] else m
  }

  lemma {:induction false} MarkedAt(mem: Memory, ring: seq<nat>, n: nat, key: Key, a: nat)
    requires AllIn(mem, ring) && n <= |ring| && a in mem
    ensures Marked(mem, ring, n, key)[a]
         == mem[a].(tombstone := mem[a].tombstone || (a in ring[..n] && mem[a].key == key))
  {
    if n > 0 {
      MarkedAt(mem, ring, n - 1, key, a);
      assert ring[..n] == ring[..n - 1] + [ring[n - 1]];
    }
  }

  lemma {:induction false} MarkedAll(mem: Memory, ring: seq<nat>, key: Key)
    requires AllIn(mem, ring)
    ensures forall a | a in ring ::
              a in mem && Marked(mem, ring, |ring|, key)[a] == mem[a].(tombstone := mem[a].tombstone || mem[a].key == key)
  {
    forall a | a in ring
      ensures a in mem && Marked(mem, ring, |ring|, key)[a] == mem[a].(tombstone := mem[a].tombstone || mem[a].key == key)
    {
      MarkedAt(mem, ring, |ring|, key, a);
      assert ring[..|ring|] == ring;
    }
  }

  /** What the index maintenance of a put works with and leaves behind. */
  lemma {:induction false} IndexPlan(mem: Memory, rest: seq<nat>, idx: map<Key, Item>, a: nat)
    requires Ring(mem, rest + [a]) && Indexed(mem, rest, idx) && a in mem && mem[a].hchain == 0
    ensures RefOk(idx, CALLER_BUFFER, mem[a].key) && RefOk(idx, a, mem[a].key)
    ensures mem[a].key in idx ==> idx[mem[a].key].value != 0
    ensures var entry := if mem[a].key in idx then idx[mem[a].key].value else 0;
            var mem' := mem[a := mem[a].(hchain := entry)];
            && Ring(mem', rest + [a])
            && Indexed(mem', rest + [a], idx[mem[a].key := Item(a, a)])
            && Kept(mem, mem', rest + [a])
  {
    var ring, key := rest + [a], mem[a].key;
    NoDupFront(ring);
    assert ring[..|rest|] == rest;
    assert ring[|rest|] == a && forall i | 0 <= i < |rest| :: ring[i] == rest[i];
    PointerOk(mem, rest, idx, CALLER_BUFFER, key);
    PointerOk(mem, rest, idx, a, key);
    if key in idx {
      StoredKey(mem, rest, idx, key);
    }
    var entry := if key in idx then idx[key].value else 0;
    var mem' := mem[a := mem[a].(hchain := entry)];
    RingFrame(mem, mem', ring);
    IndexedAppend(mem, mem', rest, idx, a);
  }

  /** What unlinking a tuple works with and leaves behind. */
  lemma {:induction false} UnlinkPlan(mem: Memory, ring: seq<nat>, cur: nat)
    requires Ring(mem, ring) && cur in ring
    ensures cur in mem && mem[cur].next in mem && mem[cur].prev in mem
    ensures cur == ring[0] ==> (mem[cur].next == ring[0] <==> |ring| == 1)
    ensures if |ring| == 1 then Remove(ring, cur) == [] && cur == ring[0] else
              && Ring(Unlinked(mem, cur), Remove(ring, cur))
              && Head(Remove(ring, cur)) == (if cur == ring[0] then mem[cur].next else ring[0])
              && SameButLinks(mem, Unlinked(mem, cur), ring)
              && Unlinked(mem, cur)[cur] == mem[cur]
  {
    var i :| 0 <= i < |ring| && ring[i] == cur;
    UnlinkedNeighbours(mem, ring, i);
    RemoveAt(ring, i);
    if |ring| >= 2 {
      UnlinkedRing(mem, ring, i);
      Different(ring, i, if i == 0 then |ring| - 1 else i - 1);
      Different(ring, i, Succ(i, |ring|));
      if i > 0 {
        Different(ring, 0, i);
      }
    }
  }

  /** Chain pointers play no part in the ring. */
  lemma {:induction false} RingFrame(mem: Memory, mem': Memory, ring: seq<nat>)
    requires Ring(mem, ring)
    requires forall i {:trigger ring[i]} | 0 <= i < |ring| :: ring[i] in mem' && mem[ring[i]].prev == mem'[ring[i]].prev && mem[ring[i]].next == mem'[ring[i]].next
    ensures Ring(mem', ring)
  {
    forall i | 0 <= i < |ring| ensures LinkedAt(mem', ring, i) {
      assert LinkedAt(mem, ring, i);
    }
  }
}
