/**
  The hash table of hash-arbitrary.c: a slot array probed linearly, updated in place, doubled and
  re-hashed when more than half of it is live.
 */
module HashTables {
  import opened HashSpec

  const START_POWER := 10

  class HashTable {
    var slots: array<Entry>
    var sizelog: nat
    var full: nat        // when `used` exceeds this, grow
    var used: nat        // STAT_USED

    ghost predicate Valid()
      reads this, slots
    {
      && slots.Length == Pow2(sizelog) >= 4
      && slots.Length == 2 * full
      && Table(slots[..], sizelog)
      && used == CountLive(slots[..])
      && used <= full + 1
    }

    ghost function Map(): map<Key, Item>
      reads this, slots
    {
      Contents(slots[..])
    }

    /** hash_new */
    constructor ()
      ensures Valid() && fresh(slots) && Map() == map[]
    {
      slots := new Entry[1024](_ => Entry(Null, 0, 0));
      sizelog, full, used := START_POWER, 512, 0;
      new;
      assert Pow2(10) == 1024 by {
        assert Pow2(5) == 32;
        assert Pow2(8) == 256;
      }
      NoLive(slots[..]);
    }

    /** The probe loop of hash_ask: the slot where the key is, or where it ought to live.  It ends with
        a usable slot even when no empty slot is left. */
    method Probe(ref: int, key: Key) returns (ought: int, found: bool)
      requires Valid() && RefOk(Map(), ref, key)
      ensures 0 <= ought < slots.Length
      ensures found <==> key in Map()
      ensures found ==> Holds(slots[..], ought, key)
      ensures !found ==> !Live(slots[ought]) && Reachable(slots[..], Home(sizelog, key, slots.Length), ought)
    {
      ghost var s := slots[..];
      var hcode := Code(sizelog, key);
      var home := hcode % slots.Length;
      var slot := home;
      ought, found := -1, false;
      ghost var steps := 0;
      while true
        invariant 0 <= steps < slots.Length
        invariant 0 <= slot < slots.Length && (slot == home + steps || slot == home + steps - slots.Length)
        invariant Searched(s, home, slot, key, ought)
        decreases slots.Length - steps
      {
        var e := slots[slot];
        if e.mark == Null {
          ought := if ought == -1 then slot else ought;
          NullEndsProbe(s, sizelog, key, slot);
          return;
        } else if e.mark == Deleted {
          ought := if ought == -1 then slot else ought;
        } else {
          MatchIsKey(s, sizelog, ref, key, slot);
          if ref == e.mark.ref || (e.h == hcode && key == e.mark.key) {
            HeldIn(s, slot);
            return slot, true;
          }
        }
        ghost var last := slot;
        steps := steps + 1;
        slot := slot + 1;
        if slot == slots.Length {
          slot := 0;
        }
        if slot == home {
          FullTurn(s, home, last, key, ought);
          return;
        }
      }
    }

    /** hash_ask: as Probe; a slot that does not hold the key gets its hash code. */
    method Ask(ref: int, key: Key) returns (slot: nat, found: bool)
      requires Valid() && RefOk(Map(), ref, key)
      modifies slots
      ensures Valid() && Map() == old(Map())
      ensures slot < slots.Length
      ensures found <==> key in Map()
      ensures if found then Holds(slots[..], slot, key) else !Live(slots[slot])
      ensures slots[slot].h == Code(sizelog, key) && Reachable(slots[..], Home(sizelog, key, slots.Length), slot)
    {
      slot, found := Probe(ref, key);
      if !found {
        var e := slots[slot].(h := Code(sizelog, key));
        DropEffect(slots[..], sizelog, slot, e);
        slots[slot] := e;
        assert slots[..] == old(slots[..])[slot := e];
      }
    }

    /** hash_find: the value of the key, NULL (0) if absent. */
    method Find(ref: int, key: Key) returns (value: nat)
      requires Valid() && RefOk(Map(), ref, key)
      modifies slots
      ensures Valid() && Map() == old(Map())
      ensures value == if key in Map() then Map()[key].value else 0
    {
      var slot, found := Ask(ref, key);
      if found {
        HeldIn(slots[..], slot);
        value := slots[slot].value;
      } else {
        value := 0;
      }
    }

    /** A live slot becomes a tombstone. */
    method Drop(slot: nat)
      requires Valid() && slot < slots.Length && Live(slots[slot])
      modifies this`used, slots
      ensures Valid() && Map() == old(Map()) - {old(slots[slot].mark.key)}
    {
      var e := slots[slot].(mark := Deleted);
      ghost var s := slots[..];
      DropEffect(s, sizelog, slot, e);
      slots[slot] := e;
      used := used - 1;
      assert slots[..] == s[slot := e];
    }

    /** hash_delete: afterwards the key is absent; the value it had, NULL if none. */
    method Delete(ref: int, key: Key) returns (value: nat)
      requires Valid() && RefOk(Map(), ref, key)
      modifies this`used, slots
      ensures Valid() && Map() == old(Map()) - {key}
      ensures value == if key in old(Map()) then old(Map())[key].value else 0
    {
      var slot, found := Ask(ref, key);
      if found {
        HeldIn(slots[..], slot);
        value := slots[slot].value;
        Drop(slot);
      } else {
        value := 0;
      }
    }

    /** hash_replace: a present key gets the new value and the new key pointer; an absent one nothing. */
    method Replace(ref: int, key: Key, value: nat) returns (was: nat)
      requires Valid() && RefOk(Map(), ref, key)
      modifies slots
      ensures Valid()
      ensures Map() == if key in old(Map()) then old(Map())[key := Item(ref, value)] else old(Map())
      ensures was == if key in old(Map()) then old(Map())[key].value else 0
    {
      var slot, found := Ask(ref, key);
      if found {
        HeldIn(slots[..], slot);
        was := slots[slot].value;
        var e := slots[slot].(mark := Held(ref, key), value := value);
        ghost var s := slots[..];
        PutEffect(s, sizelog, slot, e);
        slots[slot] := e;
        assert slots[..] == s[slot := e];
      } else {
        was := 0;
      }
    }

    /** hash_insert: an absent key is added, a present one is an error and changes nothing. */
    method Insert(ref: int, key: Key, value: nat) returns (exists_: bool)
      requires Valid() && RefOk(Map(), ref, key)
      modifies this, slots
      ensures Valid() && (slots == old(slots) || fresh(slots))
      ensures exists_ <==> key in old(Map())
      ensures Map() == if exists_ then old(Map()) else old(Map())[key := Item(ref, value)]
    {
      if used > full {
        Grow();
      }
      var slot, found := Ask(ref, key);
      exists_ := found;
      if !found {
        var e := Entry(Held(ref, key), value, slots[slot].h);
        ghost var s := slots[..];
        PutEffect(s, sizelog, slot, e);
        slots[slot] := e;
        used := used + 1;
        assert slots[..] == s[slot := e];
      }
    }

    /** hash_jam: afterwards the key has the value; a key already present keeps its key pointer. */
    method Jam(ref: int, key: Key, value: nat)
      requires Valid() && RefOk(Map(), ref, key)
      modifies this, slots
      ensures Valid() && (slots == old(slots) || fresh(slots))
      ensures Map() == old(Map())[key := Item(if key in old(Map()) then old(Map())[key].ref else ref, value)]
      ensures used == old(used) + if key in old(Map()) then 0 else 1
      ensures old(used) <= old(full) ==> slots == old(slots) && sizelog == old(sizelog) && full == old(full)
      decreases if used > full then 2 else 0
    {
      if used > full {
        Grow();
      }
      var slot, found := Ask(ref, key);
      var e := if found then slots[slot].(value := value) else Entry(Held(ref, key), value, slots[slot].h);
      ghost var s := slots[..];
      if found {
        HeldIn(s, slot);
        SameRefOk(s, slot);
      }
      PutEffect(s, sizelog, slot, e);
      slots[slot] := e;
      assert slots[..] == s[slot := e];
      if !found {
        used := used + 1;
      }
    }

    /** hash_grow: twice the slots, every key re-hashed under the new hash function, the same map.  The
        calls of Jam made here find a table that is not full, so they never come back here. */
    method Grow()
      requires Valid()
      modifies this
      ensures Valid() && fresh(slots) && Map() == old(Map())
      ensures used == old(used) <= full && sizelog == old(sizelog) + 1 && full == 2 * old(full)
      decreases 1
    {
      var where := slots;
      ghost var o := slots[..];
      slots := new Entry[2 * where.Length](_ => Entry(Null, 0, 0));
      sizelog, full, used := sizelog + 1, 2 * full, 0;
      NoLive(slots[..]);
      assert Map() == Contents(o[..0]);
      for i := 0 to where.Length
        invariant Valid() && fresh(slots) && where[..] == o
        invariant sizelog == old(sizelog) + 1 && full == 2 * old(full)
        invariant Map() == Contents(o[..i]) && used == CountLive(o[..i])
      {
        PrefixStep(o, i);
        var e := where[i];
        if e.mark != Null && e.mark != Deleted {
          Jam(e.mark.ref, e.mark.key, e.value);
        }
      }
      assert o[..where.Length] == o;
    }
  }

  /** Effect of one write to the table, its meaning and its number of live slots. */
  lemma {:induction false} PutEffect(s: seq<Entry>, sizelog: nat, i: nat, e: Entry)
    requires Table(s, sizelog) && i < |s| && Live(e)
    requires e.h == Code(sizelog, e.mark.key) && Reachable(s, Home(sizelog, e.mark.key, |s|), i)
    requires if Live(s[i]) then s[i].mark.key == e.mark.key else e.mark.key !in Contents(s)
    requires RefOk(Contents(s), e.mark.ref, e.mark.key)
    ensures Table(s[i := e], sizelog)
    ensures Contents(s[i := e]) == Contents(s)[e.mark.key := Item(e.mark.ref, e.value)]
    ensures CountLive(s[i := e]) == CountLive(s) + (if Live(s[i]) then 0 else 1)
  {
    PutKeepsTable(s, sizelog, i, e);
    ContentsPut(s, i, e);
    CountLiveUpdate(s, i, e);
  }

  lemma {:induction false} DropEffect(s: seq<Entry>, sizelog: nat, i: nat, e: Entry)
    requires Table(s, sizelog) && i < |s| && !Live(e)
    requires e.mark == Deleted || s[i].mark == e.mark
    ensures Table(s[i := e], sizelog)
    ensures Contents(s[i := e]) == Contents(s) - (if Live(s[i]) then {s[i].mark.key} else {})
    ensures CountLive(s[i := e]) == CountLive(s) - (if Live(s[i]) then 1 else 0)
    ensures forall home :: Reachable(s, home, i) ==> Reachable(s[i := e], home, i)
  {
    ContentsDrop(s, i, e);
    CountLiveUpdate(s, i, e);
  }

  lemma {:induction false} SameRefOk(s: seq<Entry>, i: nat)
    requires Unique(s) && i < |s| && Live(s[i])
    ensures RefOk(Contents(s), s[i].mark.ref, s[i].mark.key)
  {
    forall q | q in Contents(s) && Contents(s)[q].ref == s[i].mark.ref ensures q == s[i].mark.key {
      assert s[Slot(s, q)].mark.ref == s[i].mark.ref;
    }
  }

  lemma {:induction false} PrefixKeys(o: seq<Entry>, i: nat)
    requires i < |o|
    ensures CountLive(o[..i + 1]) == CountLive(o[..i]) + (if Live(o[i]) then 1 else 0)
    ensures Keys(o[..i + 1]) == Keys(o[..i]) + (if Live(o[i]) then {o[i].mark.key} else {})
  {
    var s, t := o[..i], o[..i + 1];
    assert t[..i] == s && t[i] == o[i];
    forall k | k in Keys(t) ensures k in Keys(s) || (Live(o[i]) && k == o[i].mark.key) {
      var j := Slot(t, k);
      assert j == i || s[j] == t[j];
    }
    forall k | k in Keys(s) ensures k in Keys(t) {
      assert t[Slot(s, k)] == s[Slot(s, k)];
    }
  }

  lemma {:induction false} PrefixItem(o: seq<Entry>, i: nat, k: Key)
    requires Unique(o) && i < |o| && k in Keys(o[..i])
    ensures k in Contents(o[..i + 1]) && Contents(o[..i + 1])[k] == Contents(o[..i])[k]
    ensures Live(o[i]) ==> k != o[i].mark.key && Contents(o[..i])[k].ref != o[i].mark.ref
  {
    var s, t := o[..i], o[..i + 1];
    var j := Slot(s, k);
    assert t[j] == s[j] == o[j];
    HeldIn(s, j);
    HeldIn(t, j);
  }

  /** Re-hashing adds the old slots one by one; the keys and key pointers are new each time. */
  lemma {:induction false} PrefixStep(o: seq<Entry>, i: nat)
    requires Unique(o) && i < |o|
    ensures CountLive(o[..i + 1]) == CountLive(o[..i]) + (if Live(o[i]) then 1 else 0)
    ensures !Live(o[i]) ==> Contents(o[..i + 1]) == Contents(o[..i])
    ensures Live(o[i]) ==>
              && o[i].mark.key !in Contents(o[..i])
              && RefOk(Contents(o[..i]), o[i].mark.ref, o[i].mark.key)
              && Contents(o[..i + 1]) == Contents(o[..i])[o[i].mark.key := Item(o[i].mark.ref, o[i].value)]
  {
    PrefixKeys(o, i);
    forall k | k in Keys(o[..i])
      ensures k in Contents(o[..i + 1]) && Contents(o[..i + 1])[k] == Contents(o[..i])[k]
      ensures Live(o[i]) ==> k != o[i].mark.key && Contents(o[..i])[k].ref != o[i].mark.ref
    {
      PrefixItem(o, i, k);
    }
    if Live(o[i]) {
      assert o[..i + 1][i] == o[i];
      HeldIn(o[..i + 1], i);
    }
  }

  ghost predicate Unseen(s: seq<Entry>, home: int, slot: int, key: Key) {
    forall j {:trigger Holds(s, j, key)} | 0 <= j < |s| && Between(home, j, slot) :: !Holds(s, j, key)
  }

  ghost predicate LivePath(s: seq<Entry>, home: int, slot: int) {
    forall j {:trigger s[j]} | 0 <= j < |s| && Between(home, j, slot) :: Live(s[j])
  }

  /** The slots from `home` up to `slot` have been searched for the key: none is empty, none holds it, and
      `ought` is the first tombstone among them, -1 if there is none. */
  ghost predicate Searched(s: seq<Entry>, home: int, slot: int, key: Key, ought: int) {
    && Reachable(s, home, slot)
    && Unseen(s, home, slot, key)
    && (if ought == -1 then LivePath(s, home, slot)
        else 0 <= ought < |s| && s[ought].mark == Deleted && Reachable(s, home, ought))
  }

  /** An empty slot ends the search: a key not seen before it is not in the table. */
  lemma {:induction false} NullEndsProbe(s: seq<Entry>, sizelog: nat, key: Key, slot: nat)
    requires Table(s, sizelog) && slot < |s| && s[slot].mark == Null
    requires Unseen(s, Home(sizelog, key, |s|), slot, key)
    ensures key !in Contents(s)
  {
    forall i | 0 <= i < |s| ensures !Holds(s, i, key) {
      if Live(s[i]) && s[i].mark.key == key {
        assert Reachable(s, Home(sizelog, key, |s|), i) && !Between(Home(sizelog, key, |s|), slot, i);
      }
    }
  }

  /** The comparison in the probe loop succeeds exactly on the slot of the key. */
  lemma {:induction false} MatchIsKey(s: seq<Entry>, sizelog: nat, ref: int, key: Key, slot: nat)
    requires Table(s, sizelog) && slot < |s| && Live(s[slot]) && RefOk(Contents(s), ref, key)
    ensures s[slot].mark.key == key <==>
              ref == s[slot].mark.ref || (s[slot].h == Code(sizelog, key) && key == s[slot].mark.key)
  {
    if ref == s[slot].mark.ref {
      RefOkUnique(s, ref, key, slot);
    }
  }

  /** After a full turn without a match the key is absent, and some slot was not live. */
  lemma {:induction false} FullTurn(s: seq<Entry>, home: int, last: int, key: Key, ought: int)
    requires 0 <= home < |s| && last == (if home == 0 then |s| - 1 else home - 1)
    requires Unseen(s, home, last, key) && !Holds(s, last, key)
    requires ought == -1 ==> LivePath(s, home, last) && Live(s[last])
    ensures key !in Contents(s)
    ensures ought == -1 ==> CountLive(s) == |s|
  {
    forall i | 0 <= i < |s| ensures !Holds(s, i, key) && (ought == -1 ==> Live(s[i])) {
      assert i == last || Between(home, i, last);
    }
    if ought == -1 {
      AllLive(s);
    }
  }
}
