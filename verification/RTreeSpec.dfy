/**
  * The index file of the R-tree (adl/rtree/block.cc, adl/rtree/rtree.cc): a
  * map from block numbers to blocks, with a doubly linked chain of leaves, a
  * singly linked list of free blocks, and trees of blocks.  A pointer of the
  * file is a block number; 0 is the null pointer and 1 the root.
  */
module RTreeSpec {

  import opened Distinct

  datatype Block =
    | Leaf(prev: nat, next: nat, items: seq<int>)
    | Inner(children: seq<nat>)
    | Free(link: nat)

  type File = map<nat, Block>

  // ---------- the chain of leaves ----------

  ghost function Before(chain: seq<nat>, i: nat): nat
    requires i < |chain|
  {
    if i == 0 then 0 else chain[i - 1]
  }

  ghost function After(chain: seq<nat>, i: nat): nat
    requires i < |chain|
  {
    if i + 1 == |chain| then 0 else chain[i + 1]
  }

  ghost predicate LeafAt(m: File, chain: seq<nat>, i: nat)
    requires i < |chain|
  {
    var b := chain[i];
    b in m && m[b].Leaf? && m[b].prev == Before(chain, i) && m[b].next == After(chain, i)
  }

  /** The leaves of chain point at their neighbours, both ways. */
  ghost predicate Chained(m: File, chain: seq<nat>) {
    && NoDup(chain) && 0 !in chain
    && forall i {:trigger LeafAt(m, chain, i)} | 0 <= i < |chain| :: LeafAt(m, chain, i)
  }

  /** The start of the chain; an empty chain starts at the root. */
  ghost function First(chain: seq<nat>): nat {
    if chain == [] then 1 else chain[0]
  }

  /** Equal but for the links of a leaf. */
  ghost predicate Same(b: Block, b': Block) {
    b' == b || (b.Leaf? && b'.Leaf? && b'.items == b.items)
  }

  ghost predicate SameBut(m: File, m': File, gone: set<nat>) {
    m'.Keys == m.Keys && forall x {:trigger x in m} | x in m && x !in gone :: Same(m[x], m'[x])
  }

  function Relinked(m: File, prev: nat, next: nat): File
    requires prev != 0 ==> prev in m && m[prev].Leaf?
    requires next != 0 ==> next in m && m[next].Leaf?
    requires prev != next || prev == 0
  {
    var m1 := if prev != 0 then m[prev := m[prev].(next := next)] else m;
    if next != 0 then m1[next := m1[next].(prev := prev)] else m1
  }

  lemma {:induction false} Neighbours(m: File, chain: seq<nat>, p: nat)
    requires Chained(m, chain) && p < |chain|
    ensures var prev, next := Before(chain, p), After(chain, p);
            && (prev != 0 ==> prev in m && m[prev].Leaf?)
            && (next != 0 ==> next in m && m[next].Leaf?)
            && (prev != next || prev == 0)
            && prev != chain[p] && next != chain[p]
            && (prev == 0 <==> p == 0) && (next == 0 <==> p + 1 == |chain|)
  {
    if p > 0 {
      assert LeafAt(m, chain, p - 1);
      Different(chain, p - 1, p);
      assert chain[p - 1] in chain;
    }
    if p + 1 < |chain| {
      assert LeafAt(m, chain, p + 1);
      Different(chain, p, p + 1);
      assert chain[p + 1] in chain;
    }
    if p > 0 && p + 1 < |chain| {
      Different(chain, p - 1, p + 1);
    }
    assert chain[p] in chain;
  }

  /** Linking the neighbours of leaf p takes it out of the chain. */
  lemma {:induction false} RelinkedChain(m: File, chain: seq<nat>, p: nat, f: nat)
    requires Chained(m, chain) && p < |chain|
    requires var prev, next := Before(chain, p), After(chain, p);
             && (prev != 0 ==> prev in m && m[prev].Leaf?)
             && (next != 0 ==> next in m && m[next].Leaf?)
             && (prev != next || prev == 0)
    ensures var m' := Relinked(m, Before(chain, p), After(chain, p));
            && Chained(m'[chain[p] := Free(f)], chain[..p] + chain[p + 1..])
            && SameBut(m, m', {})
  {
    Neighbours(m, chain, p);
    var m' := Relinked(m, Before(chain, p), After(chain, p))[chain[p] := Free(f)];
    var cut := chain[..p] + chain[p + 1..];
    NoDupCut(chain, p, p + 1);
    forall i | 0 <= i < |cut| ensures LeafAt(m', cut, i) {
      RelinkedLeaf(m, chain, p, f, i);
    }
  }

  lemma {:induction false} RelinkedLeaf(m: File, chain: seq<nat>, p: nat, f: nat, i: nat)
    requires Chained(m, chain) && p < |chain| && i < |chain| - 1
    requires var prev, next := Before(chain, p), After(chain, p);
             && (prev != 0 ==> prev in m && m[prev].Leaf?)
             && (next != 0 ==> next in m && m[next].Leaf?)
             && (prev != next || prev == 0)
    ensures var m' := Relinked(m, Before(chain, p), After(chain, p))[chain[p] := Free(f)];
            LeafAt(m', chain[..p] + chain[p + 1..], i)
  {
    Neighbours(m, chain, p);
    var k := if i < p then i else i + 1;
    assert LeafAt(m, chain, k);
    Different(chain, k, p);
    if p > 0 && k != p - 1 {
      Different(chain, k, p - 1);
    }
    if p + 1 < |chain| && k != p + 1 {
      Different(chain, k, p + 1);
    }
    assert chain[k] in chain;
  }

  // ---------- the list of free blocks ----------

  ghost predicate FreeAt(m: File, free: seq<nat>, tb: nat, i: nat)
    requires i < |free|
  {
    free[i] in m && m[free[i]] == Free(if i + 1 == |free| then tb else free[i + 1])
  }

  /** The free list starts at fb and ends at tb, the first block past the file. */
  ghost predicate Listed(m: File, free: seq<nat>, fb: nat, tb: nat) {
    && NoDup(free)
    && (forall i | 0 <= i < |free| :: 1 < free[i] < tb)
    && fb == (if free == [] then tb else free[0])
    && forall i {:trigger FreeAt(m, free, tb, i)} | 0 <= i < |free| :: FreeAt(m, free, tb, i)
  }

  /** A block that was in use goes to the front of the free list. */
  lemma {:induction false} ListedMore(m: File, m': File, free: seq<nat>, fb: nat, tb: nat, b: nat)
    requires Listed(m, free, fb, tb) && b !in free && 1 < b < tb
    requires SameBut(m, m', {b}) && b in m' && m'[b] == Free(fb)
    ensures Listed(m', [b] + free, b, tb)
  {
    NoDupCons(b, free);
    forall i | 0 <= i < |free| + 1 ensures FreeAt(m', [b] + free, tb, i) {
      if i > 0 {
        assert FreeAt(m, free, tb, i - 1);
        assert free[i - 1] in free;
      }
    }
  }

  // ---------- trees of blocks ----------

  /** A subtree of the file; Stray is a child number outside the file. */
  datatype Tree =
    | Page(num: nat, items: seq<int>)
    | Branch(num: nat, kids: Forest)
    | Stray(num: nat)

  datatype Forest = Nothing | More(head: Tree, rest: Forest)

  ghost predicate Represents(m: File, tb: nat, t: Tree) {
    match t
    case Page(b, items) => 1 <= b < tb && b in m && m[b].Leaf? && m[b].items == items
    case Branch(b, kids) => 1 <= b < tb && b in m && m[b].Inner? && Pictures(m, tb, kids, m[b].children)
    case Stray(b) => !(1 <= b < tb)
  }

  ghost predicate Pictures(m: File, tb: nat, f: Forest, nums: seq<nat>) {
    match f
    case Nothing => nums == []
    case More(t, rest) => nums != [] && nums[0] == t.num && Represents(m, tb, t) && Pictures(m, tb, rest, nums[1..])
  }

  ghost predicate Whole(t: Tree) {
    match t
    case Page(_, _) => true
    case Branch(_, kids) => AllWhole(kids)
    case Stray(_) => false
  }

  ghost predicate AllWhole(f: Forest) {
    f.More? ==> Whole(f.head) && AllWhole(f.rest)
  }

  ghost function Blocks(t: Tree): set<nat> {
    match t
    case Page(b, _) => {b}
    case Branch(b, kids) => {b} + AllBlocks(kids)
    case Stray(b) => {b}
  }

  ghost function AllBlocks(f: Forest): set<nat> {
    if f.Nothing? then {} else Blocks(f.head) + AllBlocks(f.rest)
  }

  ghost function Leaves(t: Tree): set<nat> {
    match t
    case Page(b, _) => {b}
    case Branch(_, kids) => AllLeaves(kids)
    case Stray(_) => {}
  }

  ghost function AllLeaves(f: Forest): set<nat> {
    if f.Nothing? then {} else Leaves(f.head) + AllLeaves(f.rest)
  }

  /** No block occurs twice. */
  ghost predicate Separate(t: Tree) {
    t.Branch? ==> t.num !in AllBlocks(t.kids) && AllSeparate(t.kids)
  }

  ghost predicate AllSeparate(f: Forest) {
    f.More? ==> Separate(f.head) && AllSeparate(f.rest) && Blocks(f.head) !! AllBlocks(f.rest)
  }

  /** The entries of the leaves, left to right. */
  ghost function Entries(t: Tree): seq<int> {
    match t
    case Page(_, items) => items
    case Branch(_, kids) => AllEntries(kids)
    case Stray(_) => []
  }

  ghost function AllEntries(f: Forest): seq<int> {
    if f.Nothing? then [] else Entries(f.head) + AllEntries(f.rest)
  }

  /** The blocks in postorder, backwards: the order of the free list. */
  ghost function Freed(t: Tree): seq<nat> {
    match t
    case Page(b, _) => [b]
    case Branch(b, kids) => [b] + AllFreed(kids)
    case Stray(_) => []
  }

  ghost function AllFreed(f: Forest): seq<nat> {
    if f.Nothing? then [] else AllFreed(f.rest) + Freed(f.head)
  }

  /** Every block of a whole tree is freed exactly once. */
  lemma {:induction false} FreedOnce(t: Tree)
    requires Whole(t) && Separate(t)
    ensures NoDup(Freed(t)) && forall x :: x in Freed(t) <==> x in Blocks(t)
    decreases t
  {
    if t.Branch? {
      AllFreedOnce(t.kids);
      NoDupCons(t.num, AllFreed(t.kids));
    }
  }

  lemma {:induction false} AllFreedOnce(f: Forest)
    requires AllWhole(f) && AllSeparate(f)
    ensures NoDup(AllFreed(f)) && forall x :: x in AllFreed(f) <==> x in AllBlocks(f)
    decreases f
  {
    if f.More? {
      FreedOnce(f.head);
      AllFreedOnce(f.rest);
      NoDupConcat(AllFreed(f.rest), Freed(f.head));
    }
  }

  lemma {:induction false} NoDupConcat(s: seq<nat>, s': seq<nat>)
    requires NoDup(s) && NoDup(s') && forall x | x in s :: x !in s'
    ensures NoDup(s + s')
  {
    if s == [] {
      assert s + s' == s';
    } else {
      NoDupTail(s);
      NoDupConcat(s[1..], s');
      assert s + s' == [s[0]] + (s[1..] + s');
      NoDupCons(s[0], s[1..] + s');
    }
  }

  lemma {:induction false} LeavesAreBlocks(t: Tree)
    ensures Leaves(t) <= Blocks(t)
    decreases t
  {
    if t.Branch? {
      AllLeavesAreBlocks(t.kids);
    }
  }

  lemma {:induction false} AllLeavesAreBlocks(f: Forest)
    ensures AllLeaves(f) <= AllBlocks(f)
    decreases f
  {
    if f.More? {
      LeavesAreBlocks(f.head);
      AllLeavesAreBlocks(f.rest);
    }
  }

  lemma {:induction false} RepresentsFrame(m: File, m': File, tb: nat, t: Tree, gone: set<nat>)
    requires Represents(m, tb, t) && SameBut(m, m', gone) && Blocks(t) !! gone
    ensures Represents(m', tb, t)
    decreases t
  {
    match t {
      case Page(b, _) => assert b in Blocks(t);
      case Branch(b, kids) =>
        assert b in Blocks(t);
        assert m'[b] == m[b];
        PicturesFrame(m, m', tb, kids, m[b].children, gone);
      case Stray(_) =>
    }
  }

  lemma {:induction false} PicturesFrame(m: File, m': File, tb: nat, f: Forest, nums: seq<nat>, gone: set<nat>)
    requires Pictures(m, tb, f, nums) && SameBut(m, m', gone) && AllBlocks(f) !! gone
    ensures Pictures(m', tb, f, nums)
    decreases f
  {
    if f.More? {
      RepresentsFrame(m, m', tb, f.head, gone);
      PicturesFrame(m, m', tb, f.rest, nums[1..], gone);
    }
  }

  // ---------- what the entries of a subtree are, said of the file ----------

  /** The leaf blocks, in the order of the walk. */
  ghost function LeafOrder(t: Tree): seq<nat> {
    match t
    case Page(b, _) => [b]
    case Branch(_, kids) => AllLeafOrder(kids)
    case Stray(_) => []
  }

  ghost function AllLeafOrder(f: Forest): seq<nat> {
    if f.Nothing? then [] else LeafOrder(f.head) + AllLeafOrder(f.rest)
  }

  /** The items that the file holds in some leaves, one leaf after the other. */
  ghost function ItemsOf(m: File, ls: seq<nat>): seq<int> {
    if ls == [] then []
    else (if ls[0] in m && m[ls[0]].Leaf? then m[ls[0]].items else []) + ItemsOf(m, ls[1..])
  }

  lemma {:induction false} ItemsOfOne(m: File, l: nat)
    requires l in m && m[l].Leaf?
    ensures ItemsOf(m, [l]) == m[l].items
  {
    assert ItemsOf(m, [l][1..]) == [];
  }

  lemma {:induction false} ItemsOfParts(m: File, ls: seq<nat>, ls': seq<nat>)
    ensures ItemsOf(m, ls + ls') == ItemsOf(m, ls) + ItemsOf(m, ls')
  {
    if ls == [] {
      assert ls + ls' == ls';
    } else {
      ItemsOfParts(m, ls[1..], ls');
      assert (ls + ls')[1..] == ls[1..] + ls' && (ls + ls')[0] == ls[0];
      var x := if ls[0] in m && m[ls[0]].Leaf? then m[ls[0]].items else [];
      assert x + (ItemsOf(m, ls[1..]) + ItemsOf(m, ls')) == x + ItemsOf(m, ls[1..]) + ItemsOf(m, ls');
    }
  }

  /** The entries of a tree are the items in its leaf blocks. */
  lemma {:induction false} EntriesAre(m: File, tb: nat, t: Tree)
    requires Represents(m, tb, t) && Whole(t)
    ensures Entries(t) == ItemsOf(m, LeafOrder(t))
    ensures m[t.num].Leaf? ==> Entries(t) == m[t.num].items
    decreases t
  {
    match t {
      case Page(b, _) => ItemsOfOne(m, b);
      case Branch(b, kids) => AllEntriesAre(m, tb, kids, m[b].children);
    }
  }

  lemma {:induction false} AllEntriesAre(m: File, tb: nat, f: Forest, nums: seq<nat>)
    requires Pictures(m, tb, f, nums) && AllWhole(f)
    ensures AllEntries(f) == ItemsOf(m, AllLeafOrder(f))
    decreases f
  {
    if f.More? {
      EntriesAre(m, tb, f.head);
      AllEntriesAre(m, tb, f.rest, nums[1..]);
      ItemsOfParts(m, LeafOrder(f.head), AllLeafOrder(f.rest));
    }
  }

  /** Every block of the tree that is a leaf in the file comes once in the walk, and no other. */
  lemma {:induction false} LeafOrderIs(m: File, tb: nat, t: Tree)
    requires Represents(m, tb, t) && Whole(t) && Separate(t)
    ensures NoDup(LeafOrder(t))
    ensures forall l :: l in LeafOrder(t) <==> l in Leaves(t)
    ensures forall l :: l in Leaves(t) <==> l in Blocks(t) && l in m && m[l].Leaf?
    decreases t
  {
    if t.Branch? {
      AllLeafOrderIs(m, tb, t.kids, m[t.num].children);
    }
  }

  lemma {:induction false} AllLeafOrderIs(m: File, tb: nat, f: Forest, nums: seq<nat>)
    requires Pictures(m, tb, f, nums) && AllWhole(f) && AllSeparate(f)
    ensures NoDup(AllLeafOrder(f))
    ensures forall l :: l in AllLeafOrder(f) <==> l in AllLeaves(f)
    ensures forall l :: l in AllLeaves(f) <==> l in AllBlocks(f) && l in m && m[l].Leaf?
    decreases f
  {
    if f.More? {
      LeafOrderIs(m, tb, f.head);
      AllLeafOrderIs(m, tb, f.rest, nums[1..]);
      NoDupConcat(LeafOrder(f.head), AllLeafOrder(f.rest));
    }
  }

  // ---------- children by position ----------

  ghost function Size(f: Forest): nat {
    if f.Nothing? then 0 else 1 + Size(f.rest)
  }

  ghost function KidAt(f: Forest, i: nat): Tree
    requires i < Size(f)
  {
    if i == 0 then f.head else KidAt(f.rest, i - 1)
  }

  /** The i-th subtree is the one of the i-th child number. */
  lemma {:induction false} PicturesAt(m: File, tb: nat, f: Forest, nums: seq<nat>, i: nat)
    requires Pictures(m, tb, f, nums) && i < |nums|
    ensures Size(f) == |nums| && KidAt(f, i).num == nums[i] && Represents(m, tb, KidAt(f, i))
    decreases f
  {
    if i > 0 {
      PicturesAt(m, tb, f.rest, nums[1..], i - 1);
    } else if f.rest.More? {
      PicturesAt(m, tb, f.rest, nums[1..], 0);
    }
  }

  /** A block is below a node if and only if it is in the subtree of one of the children. */
  lemma {:induction false} BlocksAre(f: Forest, x: nat)
    ensures x in AllBlocks(f) <==> exists i: nat :: i < Size(f) && x in Blocks(KidAt(f, i))
  {
    if x in AllBlocks(f) {
      var _ := KidOf(f, x);
    }
    forall i: nat | i < Size(f) && x in Blocks(KidAt(f, i)) ensures x in AllBlocks(f) {
      KidBelow(f, i);
    }
  }

  lemma {:induction false} KidOf(f: Forest, x: nat) returns (i: nat)
    requires x in AllBlocks(f)
    ensures i < Size(f) && x in Blocks(KidAt(f, i))
    decreases f
  {
    if x in Blocks(f.head) {
      i := 0;
    } else {
      i := KidOf(f.rest, x);
      i := i + 1;
    }
  }

  lemma {:induction false} KidBelow(f: Forest, i: nat)
    requires i < Size(f)
    ensures Blocks(KidAt(f, i)) <= AllBlocks(f)
    decreases f
  {
    if i > 0 {
      KidBelow(f.rest, i - 1);
    }
  }

  /** The leaves of an earlier child come before those of a later one. */
  lemma {:induction false} LeftToRight(f: Forest, i: nat, j: nat) returns (a: seq<nat>, b: seq<nat>, c: seq<nat>)
    requires i < j < Size(f)
    ensures AllLeafOrder(f) == a + LeafOrder(KidAt(f, i)) + b + LeafOrder(KidAt(f, j)) + c
    decreases f
  {
    if i > 0 {
      a, b, c := LeftToRight(f.rest, i - 1, j - 1);
      a := LeafOrder(f.head) + a;
    } else {
      b, c := FromTheLeft(f.rest, j - 1);
      a := [];
    }
  }

  lemma {:induction false} FromTheLeft(f: Forest, j: nat) returns (b: seq<nat>, c: seq<nat>)
    requires j < Size(f)
    ensures AllLeafOrder(f) == b + LeafOrder(KidAt(f, j)) + c
    decreases f
  {
    if j == 0 {
      b, c := [], AllLeafOrder(f.rest);
    } else {
      b, c := FromTheLeft(f.rest, j - 1);
      b := LeafOrder(f.head) + b;
    }
  }

  /** On the free list a node stands before its subtrees, and a later child before an earlier one. */
  lemma {:induction false} RightToLeft(f: Forest, i: nat, j: nat) returns (a: seq<nat>, b: seq<nat>, c: seq<nat>)
    requires i < j < Size(f)
    ensures AllFreed(f) == a + Freed(KidAt(f, j)) + b + Freed(KidAt(f, i)) + c
    ensures forall n :: Freed(Branch(n, f)) == [n] + AllFreed(f)
    decreases f
  {
    if i > 0 {
      a, b, c := RightToLeft(f.rest, i - 1, j - 1);
      c := c + Freed(f.head);
    } else {
      a, b := FromTheRight(f.rest, j - 1);
      c := [];
    }
  }

  lemma {:induction false} FromTheRight(f: Forest, j: nat) returns (a: seq<nat>, b: seq<nat>)
    requires j < Size(f)
    ensures AllFreed(f) == a + Freed(KidAt(f, j)) + b
    decreases f
  {
    if j == 0 {
      a, b := AllFreed(f.rest), [];
    } else {
      a, b := FromTheRight(f.rest, j - 1);
      b := b + Freed(f.head);
    }
  }
}
