/**
  * Block maintenance of the R-tree: freeing a block, dissolving a subtree into
  * the re-insertion buffer, allocating a block, and finding a block's parent.
  */
module RTrees {

  import opened Distinct
  import opened RTreeParent
  import opened RTreeSpec

  /** What the operations change, seen from outside. */
  datatype Store = Store(index: File, chain: seq<nat>, free: seq<nat>, tb: nat, q: seq<int>)

  /** Entries e are queued, blocks f freed, leaves l unchained; only the blocks b change beyond links. */
  ghost predicate Effect(s: Store, s': Store, e: seq<int>, f: seq<nat>, l: set<nat>, b: set<nat>) {
    && s'.q == s.q + e
    && s'.free == f + s.free
    && s'.chain == Minus(s.chain, l)
    && s'.tb == s.tb
    && SameBut(s.index, s'.index, b)
  }

  lemma {:induction false} NoEffect(s: Store)
    ensures Effect(s, s, [], [], {}, {})
  {
    MinusNothing(s.chain);
  }

  lemma {:induction false} EffectCompose(s: Store, s': Store, s'': Store,
                                         e: seq<int>, f: seq<nat>, l: set<nat>, b: set<nat>,
                                         e': seq<int>, f': seq<nat>, l': set<nat>, b': set<nat>)
    requires Effect(s, s', e, f, l, b) && Effect(s', s'', e', f', l', b')
    ensures Effect(s, s'', e + e', f' + f, l + l', b + b')
  {
    assert s.q + e + e' == s.q + (e + e');
    assert f' + (f + s.free) == f' + f + s.free;
    MinusMinus(s.chain, l, l');
  }

  // ---------- subtrees that can be dissolved ----------

  /** No block is free already or the root, and the leaves are the chained ones. */
  ghost predicate Detachable(s: Store, blocks: set<nat>, leaves: set<nat>) {
    && (forall x {:trigger x in s.free} | x in blocks :: x !in s.free)
    && (forall x {:trigger x in s.chain} | x in blocks :: x in s.chain <==> x in leaves)
    && 1 !in blocks
  }

  ghost predicate Dissolvable(s: Store, t: Tree) {
    Represents(s.index, s.tb, t) && Whole(t) && Separate(t) && Detachable(s, Blocks(t), Leaves(t))
  }

  ghost predicate AllDissolvable(s: Store, f: Forest, nums: seq<nat>) {
    Pictures(s.index, s.tb, f, nums) && AllWhole(f) && AllSeparate(f) && Detachable(s, AllBlocks(f), AllLeaves(f))
  }

  /** What happens to other blocks leaves a set of blocks as it was. */
  lemma {:induction false} DetachableLater(s: Store, s': Store, e: seq<int>, f: seq<nat>, l: set<nat>, b: set<nat>,
                                           blocks: set<nat>, leaves: set<nat>)
    requires Effect(s, s', e, f, l, b) && Detachable(s, blocks, leaves) && blocks !! b
    requires l <= b && forall x | x in f :: x in b
    ensures Detachable(s', blocks, leaves)
  {
    forall x {:trigger x in s'.free} | x in blocks ensures x !in s'.free {
      assert x !in f && x !in s.free;
    }
    forall x {:trigger x in s'.chain} | x in blocks ensures x in s'.chain <==> x in leaves {
      MinusMember(s.chain, l, x);
      assert x in s.chain <==> x in leaves;
    }
  }

  lemma {:induction false} AllDissolvableLater(s: Store, s': Store, e: seq<int>, f: seq<nat>, l: set<nat>, b: set<nat>,
                                               kids: Forest, nums: seq<nat>)
    requires Effect(s, s', e, f, l, b) && AllDissolvable(s, kids, nums) && AllBlocks(kids) !! b
    requires l <= b && forall x | x in f :: x in b
    ensures AllDissolvable(s', kids, nums)
  {
    DetachableLater(s, s', e, f, l, b, AllBlocks(kids), AllLeaves(kids));
    PicturesFrame(s.index, s'.index, s.tb, kids, nums, b);
  }

  lemma {:induction false} HeadDissolvable(s: Store, f: Forest, nums: seq<nat>)
    requires AllDissolvable(s, f, nums) && f.More?
    ensures nums != [] && nums[0] == f.head.num && Dissolvable(s, f.head)
    ensures AllDissolvable(s, f.rest, nums[1..])
  {
    LeavesAreBlocks(f.head);
    AllLeavesAreBlocks(f.rest);
    forall x {:trigger x in s.chain} | x in Blocks(f.head) ensures x in s.chain <==> x in Leaves(f.head) {
      assert x in AllBlocks(f) && (x in s.chain <==> x in AllLeaves(f));
    }
    forall x {:trigger x in s.chain} | x in AllBlocks(f.rest) ensures x in s.chain <==> x in AllLeaves(f.rest) {
      assert x in AllBlocks(f) && (x in s.chain <==> x in AllLeaves(f));
    }
  }

  lemma {:induction false} BranchDissolvable(s: Store, t: Tree)
    requires Dissolvable(s, t) && t.Branch?
    ensures AllDissolvable(s, t.kids, s.index[t.num].children)
    ensures Detachable(s, {t.num}, {}) && {t.num} !! AllBlocks(t.kids)
  {
    AllLeavesAreBlocks(t.kids);
    forall x {:trigger x in s.chain} | x in AllBlocks(t.kids) ensures x in s.chain <==> x in AllLeaves(t.kids) {
      assert x in Blocks(t);
    }
  }

  /** Of the forest kids, all but rest has been dissolved. */
  ghost predicate Progress(s: Store, s': Store, e: seq<int>, f: seq<nat>, l: set<nat>, b: set<nat>, rest: Forest, kids: Forest) {
    && Effect(s, s', e, f, l, b)
    && e + AllEntries(rest) == AllEntries(kids) && AllFreed(rest) + f == AllFreed(kids)
    && l + AllLeaves(rest) == AllLeaves(kids) && b + AllBlocks(rest) == AllBlocks(kids)
  }

  lemma {:induction false} ProgressStart(s: Store, kids: Forest)
    ensures Progress(s, s, [], [], {}, {}, kids, kids)
  {
    NoEffect(s);
  }

  lemma {:induction false} ProgressEnd(s: Store, s': Store, e: seq<int>, f: seq<nat>, l: set<nat>, b: set<nat>, kids: Forest)
    requires Progress(s, s', e, f, l, b, Nothing, kids)
    ensures Effect(s, s', AllEntries(kids), AllFreed(kids), AllLeaves(kids), AllBlocks(kids))
  {
    assert e + [] == e && [] + f == f && l + {} == l && b + {} == b;
  }

  lemma {:induction false} ProgressOn(s: Store, s': Store, s'': Store, e: seq<int>, f: seq<nat>, l: set<nat>, b: set<nat>,
                                      rest: Forest, kids: Forest, nums: seq<nat>)
    requires Progress(s, s', e, f, l, b, rest, kids) && rest.More? && AllDissolvable(s', rest, nums)
    requires var t := rest.head; Effect(s', s'', Entries(t), Freed(t), Leaves(t), Blocks(t))
    ensures var t := rest.head; Progress(s, s'', e + Entries(t), Freed(t) + f, l + Leaves(t), b + Blocks(t), rest.rest, kids)
    ensures nums != [] && AllDissolvable(s'', rest.rest, nums[1..])
  {
    var t := rest.head;
    EffectCompose(s, s', s'', e, f, l, b, Entries(t), Freed(t), Leaves(t), Blocks(t));
    assert e + (Entries(t) + AllEntries(rest.rest)) == e + Entries(t) + AllEntries(rest.rest);
    assert AllFreed(rest.rest) + Freed(t) + f == AllFreed(rest.rest) + (Freed(t) + f);
    RestDissolvable(s', s'', rest, nums);
  }

  /** Dissolving the first tree leaves the others ready. */
  lemma {:induction false} RestDissolvable(s: Store, s': Store, f: Forest, nums: seq<nat>)
    requires f.More? && AllDissolvable(s, f, nums)
    requires var t := f.head; Effect(s, s', Entries(t), Freed(t), Leaves(t), Blocks(t))
    ensures nums != [] && AllDissolvable(s', f.rest, nums[1..])
  {
    var t := f.head;
    HeadDissolvable(s, f, nums);
    LeavesAreBlocks(t);
    FreedOnce(t);
    AllDissolvableLater(s, s', Entries(t), Freed(t), Leaves(t), Blocks(t), f.rest, nums[1..]);
  }

  /** What a dissolved forest adds to the queue, said of the file before. */
  lemma {:induction false} AllQueued(s: Store, s': Store, kids: Forest, nums: seq<nat>)
    requires AllDissolvable(s, kids, nums)
    requires Effect(s, s', AllEntries(kids), AllFreed(kids), AllLeaves(kids), AllBlocks(kids))
    ensures s'.q == s.q + ItemsOf(s.index, AllLeafOrder(kids))
  {
    AllEntriesAre(s.index, s.tb, kids, nums);
  }

  class RTree {
    var index: File
    var lptr: nat
    var fb_ind: nat
    var tb_ind: nat
    var qbuf: seq<int>
    ghost var chain: seq<nat>
    ghost var free: seq<nat>

    ghost predicate Valid()
      reads this
    {
      Chained(index, chain) && Listed(index, free, fb_ind, tb_ind) && lptr == First(chain)
    }

    ghost function State(): Store
      reads this
    {
      Store(index, chain, free, tb_ind, qbuf)
    }

    /** free_block: the root resets the tree, any other block joins the free list. */
    method FreeBlock(b: nat, flag: bool)
      requires b != 1 ==> Valid() && 1 < b < tb_ind && b in index && b !in free
      requires b != 1 ==> (b in chain <==> flag && index[b].Leaf?)
      modifies this
      ensures Valid()
      ensures b == 1 ==> chain == [] && free == [] && fb_ind == tb_ind == 1 && qbuf == old(qbuf)
      ensures b != 1 ==> Effect(old(State()), State(), [], [b], if old(flag && index[b].Leaf?) then {b} else {}, {b})
    {
      if b == 1 {
        fb_ind, tb_ind, lptr := 1, 1, 1;
        chain, free := [], [];
      } else {
        FreeOther(b, flag);
      }
    }

    method FreeOther(b: nat, flag: bool)
      requires Valid() && 1 < b < tb_ind && b in index && b !in free
      requires b in chain <==> flag && index[b].Leaf?
      modifies this
      ensures Valid() && b !in chain
      ensures Effect(old(State()), State(), [], [b], if old(flag && index[b].Leaf?) then {b} else {}, {b})
    {
      if flag && index[b].Leaf? {
        Unchain(b);
      } else {
        MinusNothing(chain);
        NotChained(index, chain, b, fb_ind);
        index := index[b := Free(fb_ind)];
      }
      ListedMore(old(index), index, free, fb_ind, tb_ind, b);
      fb_ind, free := b, [b] + free;
    }

    /** The leaf chain of free_block, and the link that the free list needs. */
    method Unchain(b: nat)
      requires Valid() && b in index && index[b].Leaf? && b in chain && b !in free
      modifies this`index, this`lptr, this`chain
      ensures Chained(index, chain) && lptr == First(chain) && chain == Minus(old(chain), {b}) && b !in chain
      ensures SameBut(old(index), index, {b}) && index[b] == Free(fb_ind)
    {
      ghost var p :| 0 <= p < |chain| && chain[p] == b;
      assert LeafAt(index, chain, p);
      Neighbours(index, chain, p);
      RelinkedChain(index, chain, p, fb_ind);
      CutIsMinus(chain, p);
      var prev, next := index[b].prev, index[b].next;
      if prev == 0 {
        lptr := if next == 0 then 1 else next;
      }
      index := Relinked(index, prev, next);
      index := index[b := Free(fb_ind)];
      chain := chain[..p] + chain[p + 1..];
    }

    /** get_newblock: the block freed last, or a new one past the end of the file. */
    method GetNewBlock() returns (b: nat)
      requires Valid()
      modifies this`fb_ind, this`tb_ind, this`free
      ensures Valid()
      ensures old(free) == [] ==> b == old(tb_ind) && tb_ind == b + 1 && free == []
      ensures old(free) != [] ==> [b] + free == old(free) && tb_ind == old(tb_ind)
    {
      if fb_ind == tb_ind {
        assert free == [];
        b := fb_ind;
        tb_ind, fb_ind := b + 1, b + 1;
      } else {
        assert FreeAt(index, free, tb_ind, 0);
        ListedTail(index, free, fb_ind, tb_ind);
        b := fb_ind;
        fb_ind := index[fb_ind].link;
        free := free[1..];
      }
    }

    /** fillin_q on a subtree t other than the whole tree. */
    method FillIn(b: nat, ghost t: Tree)
      requires Valid() && t.num == b && Dissolvable(State(), t)
      modifies this
      ensures Valid()
      ensures Effect(old(State()), State(), Entries(t), Freed(t), Leaves(t), Blocks(t))
      ensures old(b in index && index[b].Leaf?) ==> qbuf == old(qbuf) + old(index)[b].items
      ensures qbuf == old(qbuf) + ItemsOf(old(index), LeafOrder(t))
      decreases t
    {
      EntriesAre(index, tb_ind, t);
      var node := index[b];
      assert b in Blocks(t);
      if node.Leaf? {
        qbuf := qbuf + node.items;
        FreeBlock(b, true);
      } else {
        BranchDissolvable(State(), t);
        FillInAll(node.children, t.kids);
        ghost var s := State();
        AfterKids(old(State()), s, t);
        FreeBlock(b, true);
        EffectCompose(old(State()), s, State(), Entries(t), AllFreed(t.kids), Leaves(t), AllBlocks(t.kids), [], [b], {}, {b});
        assert Entries(t) + [] == Entries(t) && Leaves(t) + {} == Leaves(t);
        assert AllBlocks(t.kids) + {b} == Blocks(t);
      }
    }

    /** The loop of fillin_q over the children of a node. */
    method FillInAll(nums: seq<nat>, ghost kids: Forest)
      requires Valid() && AllDissolvable(State(), kids, nums)
      modifies this
      ensures Valid()
      ensures Effect(old(State()), State(), AllEntries(kids), AllFreed(kids), AllLeaves(kids), AllBlocks(kids))
      ensures qbuf == old(qbuf) + ItemsOf(old(index), AllLeafOrder(kids))
      decreases kids
    {
      ghost var rest, before := kids, State();
      ghost var e: seq<int>, f: seq<nat>, l: set<nat>, b: set<nat> := [], [], {}, {};
      ProgressStart(before, kids);
      assert nums[0..] == nums;
      var i := 0;
      while i < |nums|
        invariant 0 <= i <= |nums| && Valid() && AllDissolvable(State(), rest, nums[i..])
        invariant Progress(before, State(), e, f, l, b, rest, kids)
        invariant rest == kids || rest < kids
      {
        HeadDissolvable(State(), rest, nums[i..]);
        ghost var s, t := State(), rest.head;
        FillIn(nums[i], t);
        ProgressOn(before, s, State(), e, f, l, b, rest, kids, nums[i..]);
        e, f, l, b, rest := e + Entries(t), Freed(t) + f, l + Leaves(t), b + Blocks(t), rest.rest;
        assert nums[i..][1..] == nums[i + 1..];
        i := i + 1;
      }
      ProgressEnd(before, State(), e, f, l, b, kids);
      AllQueued(before, State(), kids, nums);
    }

    /** get_parent_block: depth first, stopping at the first child that decides. */
    method GetParent(b: nat, cur: nat, ghost t: Tree) returns (r: nat)
      requires Represents(index, tb_ind, t) && t.num == cur && !t.Stray?
      ensures b == 1 ==> r == 1
      ensures b != 1 ==> r == Decide(Edges(t), b, tb_ind)
      decreases t
    {
      if b == 1 {
        return 1;
      }
      if index[cur].Leaf? {
        return 0;
      }
      var children := index[cur].children;
      ghost var rest := t.kids;
      var i := 0;
      while i < |children|
        invariant 0 <= i <= |children| && Pictures(index, tb_ind, rest, children[i..])
        invariant Decide(AllEdges(cur, rest), b, tb_ind) == Decide(Edges(t), b, tb_ind)
        invariant rest == t.kids || rest < t.kids
      {
        var child := children[i];
        assert children[i..][1..] == children[i + 1..];
        DecideFirst(index, cur, rest, children[i..], b, tb_ind);
        if child < 1 || child >= tb_ind {
          return UINT_MAX;
        }
        if child == b {
          return cur;
        }
        r := GetParent(b, child, rest.head);
        if r != 0 {
          return;
        }
        rest := rest.rest;
        i := i + 1;
      }
      r := 0;
    }
  }

  lemma {:induction false} CutIsMinus(chain: seq<nat>, p: nat)
    requires NoDup(chain) && p < |chain|
    ensures var cut := chain[..p] + chain[p + 1..];
            cut == Minus(chain, {chain[p]}) && chain[p] !in cut
  {
    RemoveAt(chain, p);
    MinusNothing(chain);
    MinusRemove(chain, {}, chain[p]);
    assert {} + {chain[p]} == {chain[p]};
    MinusMember(chain, {chain[p]}, chain[p]);
  }

  lemma {:induction false} NotChained(m: File, chain: seq<nat>, b: nat, f: nat)
    requires Chained(m, chain) && b !in chain && b in m
    ensures Chained(m[b := Free(f)], chain) && SameBut(m, m[b := Free(f)], {b})
  {
    var m' := m[b := Free(f)];
    forall i | 0 <= i < |chain| ensures LeafAt(m', chain, i) {
      assert LeafAt(m, chain, i);
      assert chain[i] in chain;
    }
  }

  lemma {:induction false} ListedTail(m: File, free: seq<nat>, fb: nat, tb: nat)
    requires Listed(m, free, fb, tb) && free != []
    ensures Listed(m, free[1..], if |free| == 1 then tb else free[1], tb)
  {
    NoDupTail(free);
    var rest := free[1..];
    forall i | 0 <= i < |rest| ensures FreeAt(m, rest, tb, i) {
      assert FreeAt(m, free, tb, i + 1);
    }
  }

  /** A node whose children are gone is itself still there, unchained and not free. */
  lemma {:induction false} AfterKids(s: Store, s': Store, t: Tree)
    requires Dissolvable(s, t) && t.Branch?
    requires Effect(s, s', AllEntries(t.kids), AllFreed(t.kids), AllLeaves(t.kids), AllBlocks(t.kids))
    ensures t.num in s'.index && s'.index[t.num] == s.index[t.num] && t.num !in s'.free && t.num !in s'.chain
  {
    BranchDissolvable(s, t);
    AllFreedOnce(t.kids);
    AllLeavesAreBlocks(t.kids);
    DetachableLater(s, s', AllEntries(t.kids), AllFreed(t.kids), AllLeaves(t.kids), AllBlocks(t.kids), {t.num}, {});
    assert t.num in {t.num} && t.num in s.index;
  }
}
