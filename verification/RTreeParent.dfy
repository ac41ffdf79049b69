/**
  * Who the parent of a block is (adl/rtree/block.cc, get_parent_block): the
  * first link of a depth-first walk that leads to the block, unless a link out
  * of the file comes before it.
  */
module RTreeParent {

  import opened RTreeSpec

  const UINT_MAX: nat := 0xFFFF_FFFF

  datatype Edge = Edge(parent: nat, child: nat)

  /** The links of a tree in the order of a depth-first walk. */
  ghost function Edges(t: Tree): seq<Edge>
    decreases t
  {
    if t.Branch? then AllEdges(t.num, t.kids) else []
  }

  ghost function AllEdges(p: nat, f: Forest): seq<Edge>
    decreases f
  {
    if f.Nothing? then [] else [Edge(p, f.head.num)] + Edges(f.head) + AllEdges(p, f.rest)
  }

  /** The first link that leads to b or out of the file decides. */
  ghost function Decide(es: seq<Edge>, b: nat, tb: nat): nat {
    if es == [] then 0
    else if !(1 <= es[0].child < tb) then UINT_MAX
    else if es[0].child == b then es[0].parent
    else Decide(es[1..], b, tb)
  }

  lemma {:induction false} DecideConcat(es: seq<Edge>, es': seq<Edge>, b: nat, tb: nat)
    requires forall i | 0 <= i < |es| :: es[i].parent != 0
    ensures Decide(es + es', b, tb) == if Decide(es, b, tb) != 0 then Decide(es, b, tb) else Decide(es', b, tb)
  {
    if es == [] {
      assert es + es' == es';
    } else {
      DecideConcat(es[1..], es', b, tb);
      assert (es + es')[1..] == es[1..] + es';
    }
  }

  ghost predicate FromBlocks(es: seq<Edge>) {
    forall i | 0 <= i < |es| :: es[i].parent != 0
  }

  lemma {:induction false} EdgesFromBlocks(m: File, tb: nat, t: Tree)
    requires Represents(m, tb, t)
    ensures FromBlocks(Edges(t))
    decreases t
  {
    if t.Branch? {
      AllEdgesFromBlocks(m, tb, t.num, t.kids, m[t.num].children);
    }
  }

  lemma {:induction false} AllEdgesFromBlocks(m: File, tb: nat, p: nat, f: Forest, nums: seq<nat>)
    requires Pictures(m, tb, f, nums) && p != 0
    ensures FromBlocks(AllEdges(p, f))
    decreases f
  {
    if f.More? {
      EdgesFromBlocks(m, tb, f.head);
      AllEdgesFromBlocks(m, tb, p, f.rest, nums[1..]);
    }
  }

  /** The walk decides child by child. */
  lemma {:induction false} DecideFirst(m: File, p: nat, f: Forest, nums: seq<nat>, b: nat, tb: nat)
    requires f.More? && p != 0 && Pictures(m, tb, f, nums)
    ensures var c, d := f.head.num, Decide(AllEdges(p, f), b, tb);
            d == if !(1 <= c < tb) then UINT_MAX
                 else if c == b then p
                 else if Decide(Edges(f.head), b, tb) != 0 then Decide(Edges(f.head), b, tb)
                 else Decide(AllEdges(p, f.rest), b, tb)
  {
    var es, es' := Edges(f.head), AllEdges(p, f.rest);
    EdgesFromBlocks(m, tb, f.head);
    DecideConcat(es, es', b, tb);
    assert AllEdges(p, f) == [Edge(p, f.head.num)] + (es + es');
    assert ([Edge(p, f.head.num)] + (es + es'))[1..] == es + es';
  }

  // ---------- in a sound tree the walk finds the one parent ----------

  ghost predicate InFile(es: seq<Edge>, tb: nat) {
    forall i | 0 <= i < |es| :: 1 <= es[i].child < tb
  }

  lemma {:induction false} DecideFinds(es: seq<Edge>, b: nat, tb: nat)
    requires InFile(es, tb) && FromBlocks(es)
    ensures Decide(es, b, tb) != 0 ==> Edge(Decide(es, b, tb), b) in es
    ensures Decide(es, b, tb) == 0 ==> forall e | e in es :: e.child != b
  {
    if es != [] {
      DecideFinds(es[1..], b, tb);
      assert es == [es[0]] + es[1..];
    }
  }

  lemma {:induction false} WholeInFile(m: File, tb: nat, t: Tree)
    requires Represents(m, tb, t) && Whole(t)
    ensures InFile(Edges(t), tb)
    decreases t
  {
    if t.Branch? {
      AllWholeInFile(m, tb, t.num, t.kids, m[t.num].children);
    }
  }

  lemma {:induction false} AllWholeInFile(m: File, tb: nat, p: nat, f: Forest, nums: seq<nat>)
    requires Pictures(m, tb, f, nums) && AllWhole(f)
    ensures InFile(AllEdges(p, f), tb)
    decreases f
  {
    if f.More? {
      WholeInFile(m, tb, f.head);
      AllWholeInFile(m, tb, p, f.rest, nums[1..]);
    }
  }

  ghost predicate Reaches(es: seq<Edge>, b: nat) {
    exists e :: e in es && e.child == b
  }

  /** The children in the walk are the blocks below the root. */
  lemma {:induction false} EdgesReach(t: Tree, b: nat)
    requires t.Branch?
    ensures Reaches(Edges(t), b) <==> b in AllBlocks(t.kids)
    decreases t
  {
    AllEdgesReach(t.num, t.kids, b);
  }

  lemma {:induction false} AllEdgesReach(p: nat, f: Forest, b: nat)
    ensures Reaches(AllEdges(p, f), b) <==> b in AllBlocks(f)
    decreases f
  {
    if f.More? {
      var e := Edge(p, f.head.num);
      AllEdgesReach(p, f.rest, b);
      assert Reaches([e], b) <==> b == f.head.num by {
        assert e in [e];
      }
      if f.head.Branch? {
        EdgesReach(f.head, b);
      }
    }
  }

  /** No block has two parents. */
  lemma {:induction false} OneParent(p: nat, f: Forest, e: Edge, e': Edge)
    requires AllSeparate(f) && e in AllEdges(p, f) && e' in AllEdges(p, f) && e.child == e'.child
    ensures e == e'
    decreases f
  {
    var first, es, es' := Edge(p, f.head.num), Edges(f.head), AllEdges(p, f.rest);
    AllEdgesReach(p, f.rest, e.child);
    if f.head.Branch? {
      EdgesReach(f.head, e.child);
    }
    assert e in es ==> Reaches(es, e.child);
    assert e' in es ==> Reaches(es, e.child);
    assert e in es' ==> Reaches(es', e.child);
    assert e' in es' ==> Reaches(es', e.child);
    if e in es && e' in es {
      OneParent(f.head.num, f.head.kids, e, e');
    } else if e in es' && e' in es' {
      OneParent(p, f.rest, e, e');
    }
  }

  /** In a tree without stray links the answer is the one parent, or 0 for a block not below the root. */
  lemma {:induction false} ParentFound(m: File, tb: nat, t: Tree, b: nat)
    requires Represents(m, tb, t) && Whole(t) && Separate(t) && t.Branch?
    ensures var r := Decide(Edges(t), b, tb);
            && (r == 0 <==> b !in AllBlocks(t.kids))
            && (r != 0 ==> forall e | e in Edges(t) && e.child == b :: e.parent == r)
  {
    var r := Decide(Edges(t), b, tb);
    WholeInFile(m, tb, t);
    EdgesFromBlocks(m, tb, t);
    DecideFinds(Edges(t), b, tb);
    EdgesReach(t, b);
    if r != 0 {
      assert Reaches(Edges(t), b);
      forall e | e in Edges(t) && e.child == b ensures e.parent == r {
        OneParent(t.num, t.kids, e, Edge(r, b));
      }
    }
  }

  // ---------- the links and the decision, said of the file ----------

  /** Position i is the first link that leads out of the file or to b; i == |es| when there is none. */
  ghost predicate Deciding(es: seq<Edge>, b: nat, tb: nat, i: nat) {
    && i <= |es|
    && (forall j | 0 <= j < i :: 1 <= es[j].child < tb && es[j].child != b)
    && (i < |es| ==> es[i].child < 1 || es[i].child >= tb || es[i].child == b)
  }

  lemma {:induction false} DecideIs(es: seq<Edge>, b: nat, tb: nat, i: nat)
    requires Deciding(es, b, tb, i)
    ensures Decide(es, b, tb) == if i == |es| then 0
                                 else if es[i].child < 1 || es[i].child >= tb then 0xFFFF_FFFF
                                 else es[i].parent
  {
    if i > 0 {
      DecideIs(es[1..], b, tb, i - 1);
    }
  }

  lemma {:induction false} SomeDecides(es: seq<Edge>, b: nat, tb: nat) returns (i: nat)
    ensures Deciding(es, b, tb, i)
  {
    if es == [] || es[0].child < 1 || es[0].child >= tb || es[0].child == b {
      i := 0;
    } else {
      i := SomeDecides(es[1..], b, tb);
      i := i + 1;
    }
  }

  /** The links of a whole tree are those from its inner blocks to their children in the file. */
  ghost predicate Linked(m: File, blocks: set<nat>, e: Edge) {
    e.parent in blocks && e.parent in m && m[e.parent].Inner? && e.child in m[e.parent].children
  }

  lemma {:induction false} EdgesAre(m: File, tb: nat, t: Tree, e: Edge)
    requires Represents(m, tb, t) && Whole(t)
    ensures e in Edges(t) <==> Linked(m, Blocks(t), e)
    decreases t
  {
    if t.Branch? {
      AllEdgesAre(m, tb, t.num, t.kids, m[t.num].children, e);
    }
  }

  lemma {:induction false} AllEdgesAre(m: File, tb: nat, p: nat, f: Forest, nums: seq<nat>, e: Edge)
    requires Pictures(m, tb, f, nums) && AllWhole(f)
    ensures e in AllEdges(p, f) <==> (e.parent == p && e.child in nums) || Linked(m, AllBlocks(f), e)
    decreases f
  {
    if f.More? {
      EdgesAre(m, tb, f.head, e);
      AllEdgesAre(m, tb, p, f.rest, nums[1..], e);
      assert e.child in nums <==> e.child == nums[0] || e.child in nums[1..] by {
        assert nums == [nums[0]] + nums[1..];
      }
      assert e == Edge(p, f.head.num) <==> e.parent == p && e.child == nums[0];
    }
  }

  /** In a tree without stray links the answer is the block that lists b among its children in the file. */
  lemma {:induction false} ParentIs(m: File, tb: nat, t: Tree, b: nat)
    requires Represents(m, tb, t) && Whole(t) && Separate(t) && t.Branch?
    ensures var r := Decide(Edges(t), b, tb);
            && (r != 0 ==> forall p :: Linked(m, Blocks(t), Edge(p, b)) <==> p == r)
            && (r == 0 ==> forall p :: !Linked(m, Blocks(t), Edge(p, b)))
  {
    var r := Decide(Edges(t), b, tb);
    ParentFound(m, tb, t, b);
    WholeInFile(m, tb, t);
    EdgesFromBlocks(m, tb, t);
    DecideFinds(Edges(t), b, tb);
    forall p ensures Linked(m, Blocks(t), Edge(p, b)) <==> r != 0 && p == r {
      EdgesAre(m, tb, t, Edge(p, b));
    }
  }
}
