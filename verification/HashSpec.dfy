/**
  Open addressing with linear probing and tombstones: what a slot array means and how
  single-slot changes act on that meaning.
 */
module HashSpec {

  /** A key is the bytes that its pointer points to; all keys of a table have the same size. */
  datatype Key = Key(bytes: seq<int>)

  /** hash_key: NULL, the address DELETED, or a pointer `ref` to the bytes of `key`. */
  datatype Mark = Null | Deleted | Held(ref: int, key: Key)

  datatype Entry = Entry(mark: Mark, value: nat, h: int)

  /** What a table associates with a key: the stored key pointer and the value. */
  datatype Item = Item(ref: int, value: nat)

  // ---------- hash codes ----------

  const TWO_63 := 0x8000_0000_0000_0000
  const TWO_32 := 0x1_0000_0000

  function Pow2(n: nat): (r: nat)
    ensures r >= 1
  {
    if n == 0 then 1 else 2 * Pow2(n - 1)
  }

  /** Arithmetic on `long` wraps around. */
  function Long(x: int): int {
    (x + TWO_63) % (2 * TWO_63) - TWO_63
  }

  /** The loop of hash_code from a given h on; the shift right is arithmetic. */
  function CodeFrom(bytes: seq<int>, shift: nat, h: int): int
    decreases bytes
  {
    if bytes == [] then h
    else
      var g := Long(h + bytes[0]);
      CodeFrom(bytes[1..], shift, Long(8 * g + g / Pow2(shift) + bytes[0]))
  }

  /** hash_code: depends on the size of the table, so growing changes it. */
  function Code(sizelog: nat, k: Key): int {
    (CodeFrom(k.bytes, if sizelog >= 3 then sizelog - 3 else 0, 0) + TWO_32 / 2) % TWO_32 - TWO_32 / 2
  }

  /** The first slot probed. */
  function Home(sizelog: nat, k: Key, size: nat): (r: nat)
    requires size > 0
    ensures r < size
  {
    Code(sizelog, k) % size
  }

  // ---------- meaning of a slot array ----------

  predicate Live(e: Entry) {
    e.mark.Held?
  }

  ghost predicate Holds(s: seq<Entry>, i: int, k: Key) {
    0 <= i < |s| && Live(s[i]) && s[i].mark.key == k
  }

  /** j lies on the cyclic path from `home` up to but not including i. */
  predicate Between(home: int, j: int, i: int) {
    if home <= i then home <= j < i else j >= home || j < i
  }

  /** The probe sequence from `home` reaches slot i before any empty slot. */
  ghost predicate Reachable(s: seq<Entry>, home: int, i: int) {
    forall j {:trigger s[j]} | 0 <= j < |s| && Between(home, j, i) :: s[j].mark != Null
  }

  /** Live slots are reachable and cache their hash code. */
  ghost predicate Probed(s: seq<Entry>, sizelog: nat) {
    forall i {:trigger s[i]} | 0 <= i < |s| && Live(s[i]) ::
      && s[i].h == Code(sizelog, s[i].mark.key)
      && Reachable(s, Home(sizelog, s[i].mark.key, |s|), i)
  }

  /** No key and no key pointer is live twice. */
  ghost predicate Unique(s: seq<Entry>) {
    forall i, j {:trigger s[i], s[j]} | 0 <= i < j < |s| && Live(s[i]) && Live(s[j]) ::
      s[i].mark.key != s[j].mark.key && s[i].mark.ref != s[j].mark.ref
  }

  ghost predicate Table(s: seq<Entry>, sizelog: nat) {
    |s| > 0 && Probed(s, sizelog) && Unique(s)
  }

  ghost function Keys(s: seq<Entry>): set<Key> {
    set i | 0 <= i < |s| && Live(s[i]) :: s[i].mark.key
  }

  /** A slot that holds the key. */
  ghost function Slot(s: seq<Entry>, k: Key): (i: int)
    requires k in Keys(s)
    ensures Holds(s, i, k)
  {
    var i :| 0 <= i < |s| && Live(s[i]) && s[i].mark.key == k;
    i
  }

  ghost function Contents(s: seq<Entry>): map<Key, Item> {
    map k | k in Keys(s) :: Item(s[Slot(s, k)].mark.ref, s[Slot(s, k)].value)
  }

  lemma {:induction false} HeldIn(s: seq<Entry>, i: nat)
    requires Unique(s) && i < |s| && Live(s[i])
    ensures s[i].mark.key in Contents(s) && Contents(s)[s[i].mark.key] == Item(s[i].mark.ref, s[i].value)
  {
    var k := s[i].mark.key;
    assert k in Keys(s);
    assert Slot(s, k) == i;
  }

  /** The caller's pointer never equals a stored key pointer unless the bytes are the same. */
  ghost predicate RefOk(c: map<Key, Item>, ref: int, k: Key) {
    forall q {:trigger q in c} | q in c && c[q].ref == ref :: q == k
  }

  // ---------- single-slot changes ----------

  lemma {:induction false} KeysUpdate(s: seq<Entry>, i: nat, e: Entry)
    requires i < |s| && Unique(s)
    ensures Keys(s[i := e]) ==
              (if Live(s[i]) then Keys(s) - {s[i].mark.key} else Keys(s)) + (if Live(e) then {e.mark.key} else {})
  {
    var t := s[i := e];
    forall k | k in Keys(s) && !(Live(s[i]) && s[i].mark.key == k) ensures k in Keys(t) {
      var j :| 0 <= j < |s| && Live(s[j]) && s[j].mark.key == k;
      assert t[j] == s[j];
    }
    forall k | k in Keys(t) && !(Live(e) && e.mark.key == k) ensures k in Keys(s) && !(Live(s[i]) && s[i].mark.key == k) {
      var j :| 0 <= j < |t| && Live(t[j]) && t[j].mark.key == k;
      assert t[j] == s[j];
    }
    if Live(e) {
      assert t[i] == e;
    }
  }

  /** A key that slot i holds neither before nor after keeps its item. */
  lemma {:induction false} ContentsKept(s: seq<Entry>, i: nat, e: Entry, k: Key)
    requires i < |s| && Unique(s) && Unique(s[i := e]) && k in Keys(s[i := e])
    requires Live(e) ==> e.mark.key != k
    ensures k in Keys(s) && Contents(s[i := e])[k] == Contents(s)[k]
  {
    var t := s[i := e];
    var j := Slot(t, k);
    assert t[j] == s[j];
    HeldIn(t, j);
    HeldIn(s, j);
  }

  lemma {:induction false} ContentsPutAt(s: seq<Entry>, i: nat, e: Entry, k: Key)
    requires i < |s| && Unique(s) && Unique(s[i := e]) && Live(e) && k in Keys(s[i := e])
    ensures k != e.mark.key ==> k in Keys(s)
    ensures Contents(s[i := e])[k] == if k == e.mark.key then Item(e.mark.ref, e.value) else Contents(s)[k]
  {
    if k == e.mark.key {
      HeldIn(s[i := e], i);
    } else {
      ContentsKept(s, i, e, k);
    }
  }

  /** Writing a live entry for a key that no other slot holds. */
  lemma {:induction false} ContentsPut(s: seq<Entry>, i: nat, e: Entry)
    requires i < |s| && Unique(s) && Unique(s[i := e]) && Live(e)
    requires Live(s[i]) ==> s[i].mark.key == e.mark.key
    ensures Contents(s[i := e]) == Contents(s)[e.mark.key := Item(e.mark.ref, e.value)]
  {
    KeysUpdate(s, i, e);
    var after, want := Contents(s[i := e]), Contents(s)[e.mark.key := Item(e.mark.ref, e.value)];
    forall k | k in after ensures after[k] == want[k] {
      ContentsPutAt(s, i, e, k);
    }
  }

  /** Clearing or keeping a slot without a live entry in it. */
  lemma {:induction false} ContentsDrop(s: seq<Entry>, i: nat, e: Entry)
    requires i < |s| && Unique(s) && Unique(s[i := e]) && !Live(e)
    ensures Contents(s[i := e]) == Contents(s) - (if Live(s[i]) then {s[i].mark.key} else {})
  {
    var t := s[i := e];
    KeysUpdate(s, i, e);
    forall k | k in Keys(t) ensures Contents(t)[k] == Contents(s)[k] {
      ContentsKept(s, i, e, k);
    }
  }

  lemma {:induction false} RefOkUnique(s: seq<Entry>, ref: int, k: Key, j: nat)
    requires Unique(s) && RefOk(Contents(s), ref, k) && j < |s| && Live(s[j]) && s[j].mark.ref == ref
    ensures s[j].mark.key == k
  {
    HeldIn(s, j);
  }

  /** Filling a reachable slot with an absent key, or rewriting the entry of a present one. */
  lemma {:induction false} PutKeepsTable(s: seq<Entry>, sizelog: nat, i: nat, e: Entry)
    requires Table(s, sizelog) && i < |s| && Live(e)
    requires e.h == Code(sizelog, e.mark.key) && Reachable(s, Home(sizelog, e.mark.key, |s|), i)
    requires if Live(s[i]) then s[i].mark.key == e.mark.key else e.mark.key !in Contents(s)
    requires RefOk(Contents(s), e.mark.ref, e.mark.key)
    ensures Table(s[i := e], sizelog)
  {
    var t := s[i := e];
    assert forall j {:trigger t[j]} | 0 <= j < |t| && j != i :: t[j] == s[j];
    forall j, l | 0 <= j < l < |t| && Live(t[j]) && Live(t[l]) ensures t[j].mark.key != t[l].mark.key && t[j].mark.ref != t[l].mark.ref {
      var other := if j == i then l else j;
      if j == i || l == i {
        HeldIn(s, other);
        if s[other].mark.ref == e.mark.ref {
          RefOkUnique(s, e.mark.ref, e.mark.key, other);
        }
        assert Live(s[i]) ==> s[i].mark.key != s[other].mark.key;
      }
    }
    forall j | 0 <= j < |t| && Live(t[j]) ensures Reachable(t, Home(sizelog, t[j].mark.key, |t|), j) {
      assert Reachable(s, Home(sizelog, t[j].mark.key, |s|), j);
    }
  }

  // ---------- counting live slots ----------

  function CountLive(s: seq<Entry>): (n: nat)
    ensures n <= |s|
  {
    if s == [] then 0 else CountLive(s[..|s| - 1]) + (if Live(s[|s| - 1]) then 1 else 0)
  }

  lemma {:induction false} CountLiveUpdate(s: seq<Entry>, i: nat, e: Entry)
    requires i < |s|
    ensures CountLive(s[i := e]) == CountLive(s) - (if Live(s[i]) then 1 else 0) + (if Live(e) then 1 else 0)
    decreases |s|
  {
    var n := |s| - 1;
    if i < n {
      CountLiveUpdate(s[..n], i, e);
      assert s[i := e][..n] == s[..n][i := e];
    } else {
      assert s[i := e][..n] == s[..n];
    }
  }

  lemma {:induction false} NoLive(s: seq<Entry>)
    requires forall i | 0 <= i < |s| :: !Live(s[i])
    ensures CountLive(s) == 0
  {
    if s != [] {
      NoLive(s[..|s| - 1]);
    }
  }

  lemma {:induction false} AllLive(s: seq<Entry>)
    requires forall i | 0 <= i < |s| :: Live(s[i])
    ensures CountLive(s) == |s|
  {
    if s != [] {
      AllLive(s[..|s| - 1]);
    }
  }
}
