/**
  * The binary search tree of adl/dbug/analyze.c: nodes live in an array, a
  * child is an index, MAX_PROCS is the null index, and node i describes the
  * i-th function name that was ever seen.
  */
module SearchTree {

  const MAX_PROCS: nat := 1000

  datatype Node = Node(lchild: nat, rchild: nat, pos: nat)

  // ---------- strcmp ----------

  function Compare(a: string, b: string): (c: int)
    ensures c == 0 <==> a == b
  {
    if a == [] then (if b == [] then 0 else -1)
    else if b == [] then 1
    else if a[0] < b[0] then -1
    else if a[0] > b[0] then 1
    else
      assert a == [a[0]] + a[1..] && b == [b[0]] + b[1..];
      Compare(a[1..], b[1..])
  }

  ghost predicate Less(a: string, b: string) {
    Compare(a, b) < 0
  }

  /** a comes before b in a dictionary: it is a proper prefix, or smaller at the first difference. */
  ghost predicate Before(a: string, b: string) {
    || a < b
    || exists k :: 0 <= k < |a| && k < |b| && a[..k] == b[..k] && a[k] < b[k]
  }

  /** strcmp orders names as a dictionary does. */
  lemma {:induction false} LessMeans(a: string, b: string)
    ensures Less(a, b) <==> a < b || exists k :: 0 <= k < |a| && k < |b| && a[..k] == b[..k] && a[k] < b[k]
  {
    if a != [] && b != [] && a[0] == b[0] {
      LessMeans(a[1..], b[1..]);
      BeforeCons(a, b);
    } else if a != [] && b != [] {
      if a[0] < b[0] {
        assert a[..0] == b[..0];
      }
    }
  }

  lemma {:induction false} BeforeCons(a: string, b: string)
    requires a != [] && b != [] && a[0] == b[0]
    ensures Before(a, b) <==> Before(a[1..], b[1..])
  {
    var s, t := a[1..], b[1..];
    if s < t {
      assert t == s + t[|s|..];
      assert b == a + t[|s|..];
    }
    if a < b {
      assert b[|a|..] == t[|s|..];
      assert t == s + t[|s|..];
    }
    if k :| 0 <= k < |s| && k < |t| && s[..k] == t[..k] && s[k] < t[k] {
      assert a[..k + 1] == [a[0]] + s[..k] == b[..k + 1];
      assert a[k + 1] < b[k + 1];
    }
    if k :| 0 <= k < |a| && k < |b| && a[..k] == b[..k] && a[k] < b[k] {
      assert k > 0;
      assert s[..k - 1] == a[..k][1..] == b[..k][1..] == t[..k - 1];
      assert s[k - 1] < t[k - 1];
    }
  }

  lemma {:induction false} CompareSwap(a: string, b: string)
    ensures Compare(a, b) > 0 <==> Less(b, a)
  {
    if a != [] && b != [] && a[0] == b[0] {
      CompareSwap(a[1..], b[1..]);
    }
  }

  lemma {:induction false} LessTransitive(a: string, b: string, c: string)
    requires Less(a, b) && Less(b, c)
    ensures Less(a, c)
  {
    if a != [] && b != [] && c != [] && a[0] == b[0] == c[0] {
      LessTransitive(a[1..], b[1..], c[1..]);
    }
  }

  // ---------- the tree ----------

  ghost predicate Child(c: nat, i: nat, n: nat) {
    i < c < n || c == MAX_PROCS
  }

  /** Children sit above their parents and node i names module i. */
  ghost predicate Shaped(t: seq<Node>) {
    && |t| <= MAX_PROCS
    && forall i {:trigger t[i]} | 0 <= i < |t| ::
         t[i].pos == i && Child(t[i].lchild, i, |t|) && Child(t[i].rchild, i, |t|)
  }

  /** The modules of the subtree at root, left to right. */
  ghost function InOrder(t: seq<Node>, root: nat): seq<nat>
    requires Shaped(t)
    decreases |t| - root
  {
    if root >= |t| then []
    else InOrder(t, t[root].lchild) + [root] + InOrder(t, t[root].rchild)
  }

  ghost predicate InRange(s: seq<nat>, n: nat) {
    forall p | 0 <= p < |s| :: s[p] < n
  }

  /** The names along s increase strictly. */
  ghost predicate Sorted(names: seq<string>, s: seq<nat>)
    requires InRange(s, |names|)
  {
    forall p, q | 0 <= p < q < |s| :: Less(names[s[p]], names[s[q]])
  }

  /** A search tree over the modules: in order of name, every module once. */
  ghost predicate Tree(t: seq<Node>, names: seq<string>) {
    && Shaped(t)
    && |t| == |names|
    && InRange(InOrder(t, 0), |t|)
    && Sorted(names, InOrder(t, 0))
    && forall i | 0 <= i < |t| :: i in InOrder(t, 0)
  }

  lemma {:induction false} SortedAround(names: seq<string>, a: seq<nat>, x: nat, b: seq<nat>)
    requires InRange(a + [x] + b, |names|) && Sorted(names, a + [x] + b)
    ensures x in a + [x] + b
    ensures forall y | y in a :: y < |names| && Less(names[y], names[x])
    ensures forall y | y in b :: y < |names| && Less(names[x], names[y])
  {
    var s := a + [x] + b;
    assert s[|a|] == x;
    forall y | y in a ensures y < |names| && Less(names[y], names[x]) {
      var p :| 0 <= p < |a| && a[p] == y;
      assert s[p] == y;
    }
    forall y | y in b ensures y < |names| && Less(names[x], names[y]) {
      var p :| 0 <= p < |b| && b[p] == y;
      assert s[|a| + 1 + p] == y;
    }
  }

  /** Different modules have different names. */
  lemma {:induction false} NamesDiffer(t: seq<Node>, names: seq<string>, i: nat, j: nat)
    requires Tree(t, names) && i < |t| && j < |t| && names[i] == names[j]
    ensures i == j
  {
    var s := InOrder(t, 0);
    assert i in s && j in s;
    var p :| 0 <= p < |s| && s[p] == i;
    var q :| 0 <= q < |s| && s[q] == j;
    assert Compare(names[i], names[j]) == 0 == Compare(names[j], names[i]);
  }

  /** Where the search for a name stands: left of it, its subtree, right of it. */
  ghost predicate Searching(t: seq<Node>, names: seq<string>, name: string, l: seq<nat>, ind: nat, r: seq<nat>) {
    && Tree(t, names)
    && ind < |t|
    && InOrder(t, 0) == l + InOrder(t, ind) + r
    && (forall x | x in l :: x < |names| && Less(names[x], name))
    && (forall x | x in r :: x < |names| && Less(name, names[x]))
  }

  lemma {:induction false} Regroup(l: seq<nat>, a: seq<nat>, x: nat, b: seq<nat>, r: seq<nat>)
    ensures l + (a + [x] + b) + r == (l + a) + [x] + (b + r)
    ensures l + (a + [x] + b) + r == l + a + ([x] + b + r)
    ensures l + (a + [x] + b) + r == (l + a + [x]) + b + r
  {
  }

  lemma {:induction false} SearchLeft(t: seq<Node>, names: seq<string>, name: string, l: seq<nat>, ind: nat, r: seq<nat>)
    requires Searching(t, names, name, l, ind, r) && Less(name, names[ind])
    ensures var r' := [ind] + InOrder(t, t[ind].rchild) + r;
            && InOrder(t, 0) == l + InOrder(t, t[ind].lchild) + r'
            && forall x | x in r' :: x < |names| && Less(name, names[x])
  {
    var a, right := InOrder(t, t[ind].lchild), InOrder(t, t[ind].rchild);
    Regroup(l, a, ind, right, r);
    SortedAround(names, l + a, ind, right + r);
    forall x | x in right ensures x < |names| && Less(name, names[x]) {
      assert x in right + r;
      LessTransitive(name, names[ind], names[x]);
    }
  }

  lemma {:induction false} SearchRight(t: seq<Node>, names: seq<string>, name: string, l: seq<nat>, ind: nat, r: seq<nat>)
    requires Searching(t, names, name, l, ind, r) && Less(names[ind], name)
    ensures var l' := l + InOrder(t, t[ind].lchild) + [ind];
            && InOrder(t, 0) == l' + InOrder(t, t[ind].rchild) + r
            && forall x | x in l' :: x < |names| && Less(names[x], name)
  {
    var left, b := InOrder(t, t[ind].lchild), InOrder(t, t[ind].rchild);
    Regroup(l, left, ind, b, r);
    SortedAround(names, l + left, ind, b + r);
    forall x | x in left ensures x < |names| && Less(names[x], name) {
      assert x in l + left;
      LessTransitive(names[x], names[ind], name);
    }
  }

  // ---------- attaching a new leaf ----------

  ghost function Leaf(n: nat): Node {
    Node(MAX_PROCS, MAX_PROCS, n)
  }

  /** t' is t with a new leaf hung below ind, on its free left or right. */
  ghost predicate Attached(t: seq<Node>, t': seq<Node>, ind: nat, left: bool) {
    && Shaped(t) && |t| < MAX_PROCS && ind < |t| && |t'| == |t| + 1
    && (if left then t[ind].lchild else t[ind].rchild) == MAX_PROCS
    && t'[ind] == (if left then t[ind].(lchild := |t|) else t[ind].(rchild := |t|))
    && t'[|t|] == Leaf(|t|)
    && forall i {:trigger t[i]} {:trigger t'[i]} | 0 <= i < |t| && i != ind :: t'[i] == t[i]
  }

  lemma {:induction false} AttachedShaped(t: seq<Node>, t': seq<Node>, ind: nat, left: bool)
    requires Attached(t, t', ind, left)
    ensures Shaped(t') && InOrder(t', |t|) == [|t|]
  {
    forall i {:trigger t'[i]} | 0 <= i < |t'|
      ensures t'[i].pos == i && Child(t'[i].lchild, i, |t'|) && Child(t'[i].rchild, i, |t'|)
    {
      assert i < |t| ==> t[i].pos == i && Child(t[i].lchild, i, |t|) && Child(t[i].rchild, i, |t|);
    }
    assert InOrder(t', MAX_PROCS) == [];
  }

  lemma {:induction false} AttachedElsewhere(t: seq<Node>, t': seq<Node>, ind: nat, left: bool, root: nat)
    requires Attached(t, t', ind, left) && Shaped(t')
    requires root < |t| || root == MAX_PROCS
    requires ind !in InOrder(t, root)
    ensures InOrder(t', root) == InOrder(t, root)
    decreases |t| - root
  {
    if root < |t| {
      var a, b := InOrder(t, t[root].lchild), InOrder(t, t[root].rchild);
      assert root in a + [root] + b;
      AttachedElsewhere(t, t', ind, left, t[root].lchild);
      AttachedElsewhere(t, t', ind, left, t[root].rchild);
    }
  }

  ghost function Grafted(n: nat, ind: nat, left: bool): seq<nat> {
    if left then [n, ind] else [ind, n]
  }

  lemma {:induction false} AttachedParent(t: seq<Node>, t': seq<Node>, ind: nat, left: bool)
    requires Attached(t, t', ind, left) && Shaped(t')
    requires ind !in InOrder(t, t[ind].lchild) && ind !in InOrder(t, t[ind].rchild)
    ensures InOrder(t', ind) == InOrder(t, t[ind].lchild) + Grafted(|t|, ind, left) + InOrder(t, t[ind].rchild)
  {
    var a, b := InOrder(t, t[ind].lchild), InOrder(t, t[ind].rchild);
    AttachedShaped(t, t', ind, left);
    if left {
      AttachedElsewhere(t, t', ind, left, t[ind].rchild);
      assert a == [];
      assert InOrder(t', ind) == [|t|] + [ind] + b;
    } else {
      AttachedElsewhere(t, t', ind, left, t[ind].lchild);
      assert b == [];
      assert InOrder(t', ind) == a + [ind] + [|t|];
    }
  }

  /** The parent is in the left subtree of root. */
  lemma {:induction false} AttachedInLeft(t: seq<Node>, t': seq<Node>, ind: nat, left: bool, root: nat, l: seq<nat>, rest: seq<nat>)
    requires Attached(t, t', ind, left) && Shaped(t') && root < |t| && root != ind
    requires ind !in InOrder(t, t[root].rchild)
    requires InOrder(t', t[root].lchild) == l + Grafted(|t|, ind, left) + rest
    ensures InOrder(t', root) == l + Grafted(|t|, ind, left) + (rest + [root] + InOrder(t, t[root].rchild))
  {
    AttachedElsewhere(t, t', ind, left, t[root].rchild);
  }

  /** The parent is in the right subtree of root. */
  lemma {:induction false} AttachedInRight(t: seq<Node>, t': seq<Node>, ind: nat, left: bool, root: nat, front: seq<nat>, r: seq<nat>)
    requires Attached(t, t', ind, left) && Shaped(t') && root < |t| && root != ind
    requires ind !in InOrder(t, t[root].lchild)
    requires InOrder(t', t[root].rchild) == front + Grafted(|t|, ind, left) + r
    ensures InOrder(t', root) == (InOrder(t, t[root].lchild) + [root] + front) + Grafted(|t|, ind, left) + r
  {
    AttachedElsewhere(t, t', ind, left, t[root].lchild);
  }

  /** Seen in order, the new leaf stands right before or right after its parent. */
  lemma {:induction false} AttachedInOrder(t: seq<Node>, t': seq<Node>, ind: nat, left: bool, root: nat, l: seq<nat>, r: seq<nat>)
    requires Attached(t, t', ind, left) && Shaped(t')
    requires root < |t|
    requires InOrder(t, root) == l + [ind] + r && ind !in l && ind !in r
    ensures InOrder(t', root) == l + Grafted(|t|, ind, left) + r
    decreases |t| - root
  {
    var a, b, n := InOrder(t, t[root].lchild), InOrder(t, t[root].rchild), |l|;
    Located(a, root, b, l, ind, r);
    if n < |a| {
      AttachedInOrder(t, t', ind, left, t[root].lchild, l, a[n + 1..]);
      AttachedInLeft(t, t', ind, left, root, l, a[n + 1..]);
    } else if n == |a| {
      AttachedParent(t, t', ind, left);
    } else {
      var front := b[..n - |a| - 1];
      AttachedInOrder(t, t', ind, left, t[root].rchild, front, r);
      AttachedInRight(t, t', ind, left, root, front, r);
    }
  }

  /** One element of a + [m] + b, seen from either decomposition. */
  lemma {:induction false} Located(a: seq<nat>, m: nat, b: seq<nat>, l: seq<nat>, x: nat, r: seq<nat>)
    requires a + [m] + b == l + [x] + r && x !in l && x !in r
    ensures var n := |l|;
      if n < |a| then
        m != x && x !in b && a == l + [x] + a[n + 1..] && x !in a[n + 1..] && r == a[n + 1..] + [m] + b
      else if n == |a| then
        m == x && l == a && r == b
      else
        m != x && x !in a && b == b[..n - |a| - 1] + [x] + r && x !in b[..n - |a| - 1] && l == a + [m] + b[..n - |a| - 1]
  {
    var s, n := l + [x] + r, |l|;
    assert s[n] == x && s[..n] == l && s[n + 1..] == r;
    assert s[..|a|] == a && s[|a|] == m && s[|a| + 1..] == b;
    if n < |a| {
      assert r == a[n + 1..] + [m] + b;
      assert m == r[|a| - n - 1];
    } else if n > |a| {
      assert l == a + [m] + b[..n - |a| - 1];
      assert m == l[|a|];
    }
  }

  lemma {:induction false} SortedInsert(names: seq<string>, name: string, l: seq<nat>, r: seq<nat>)
    requires InRange(l + r, |names|) && Sorted(names, l + r)
    requires forall x | x in l :: x < |names| && Less(names[x], name)
    requires forall x | x in r :: x < |names| && Less(name, names[x])
    ensures InRange(l + [|names|] + r, |names| + 1)
    ensures Sorted(names + [name], l + [|names|] + r)
  {
    var s, s', n := l + r, l + [|names|] + r, |l|;
    forall p | 0 <= p < |s'| ensures s'[p] < |names| + 1 {
      assert s'[p] == if p < n then s[p] else if p == n then |names| else s[p - 1];
    }
    forall p, q | 0 <= p < q < |s'| ensures Less((names + [name])[s'[p]], (names + [name])[s'[q]]) {
      assert p < n ==> s'[p] == s[p] == l[p];
      assert p > n ==> s'[p] == s[p - 1] == r[p - 1 - n];
      assert q < n ==> s'[q] == s[q] == l[q];
      assert q > n ==> s'[q] == s[q - 1] == r[q - 1 - n];
    }
  }

  /** Cut at the free place the search ended at, the order puts the name there. */
  ghost predicate Slot(t: seq<Node>, names: seq<string>, name: string, ind: nat, left: bool, l: seq<nat>, r: seq<nat>) {
    && Tree(t, names)
    && ind < |t| && InOrder(t, 0) == l + r
    && (if left then |r| > 0 && r[0] == ind else |l| > 0 && l[|l| - 1] == ind)
    && (forall x | x in l :: x < |names| && Less(names[x], name))
    && (forall x | x in r :: x < |names| && Less(name, names[x]))
  }

  lemma {:induction false} SlotLeft(t: seq<Node>, names: seq<string>, name: string, l: seq<nat>, ind: nat, r: seq<nat>)
    requires Searching(t, names, name, l, ind, r) && Less(name, names[ind]) && t[ind].lchild == MAX_PROCS
    ensures Slot(t, names, name, ind, true, l, [ind] + InOrder(t, t[ind].rchild) + r)
  {
    SearchLeft(t, names, name, l, ind, r);
    assert InOrder(t, MAX_PROCS) == [];
  }

  lemma {:induction false} SlotRight(t: seq<Node>, names: seq<string>, name: string, l: seq<nat>, ind: nat, r: seq<nat>)
    requires Searching(t, names, name, l, ind, r) && Less(names[ind], name) && t[ind].rchild == MAX_PROCS
    ensures Slot(t, names, name, ind, false, l + InOrder(t, t[ind].lchild) + [ind], r)
  {
    SearchRight(t, names, name, l, ind, r);
    assert InOrder(t, MAX_PROCS) == [];
  }

  /** A name sorted before or after every name of the tree is not in it. */
  lemma {:induction false} SlotAbsent(t: seq<Node>, names: seq<string>, name: string, ind: nat, left: bool, l: seq<nat>, r: seq<nat>)
    requires Slot(t, names, name, ind, left, l, r)
    ensures name !in names
  {
    if name in names {
      var i :| 0 <= i < |names| && names[i] == name;
      assert i in l + r;
      assert Compare(name, name) == 0;
      assert false;
    }
  }

  lemma {:induction false} OnlyOnce(names: seq<string>, a: seq<nat>, x: nat, b: seq<nat>)
    requires InRange(a + [x] + b, |names|) && Sorted(names, a + [x] + b)
    ensures x !in a && x !in b
  {
    SortedAround(names, a, x, b);
    assert Compare(names[x], names[x]) == 0;
  }

  lemma {:induction false} AttachedPlace(t: seq<Node>, t': seq<Node>, names: seq<string>, name: string, ind: nat, left: bool, l: seq<nat>, r: seq<nat>)
    requires Slot(t, names, name, ind, left, l, r) && Attached(t, t', ind, left)
    ensures Shaped(t') && InOrder(t', 0) == l + [|t|] + r
  {
    AttachedShaped(t, t', ind, left);
    if left {
      assert l + r == l + [ind] + r[1..];
      OnlyOnce(names, l, ind, r[1..]);
      AttachedInOrder(t, t', ind, left, 0, l, r[1..]);
      assert l + [|t|, ind] + r[1..] == l + [|t|] + r;
    } else {
      var front := l[..|l| - 1];
      assert l + r == front + [ind] + r;
      OnlyOnce(names, front, ind, r);
      AttachedInOrder(t, t', ind, left, 0, front, r);
      assert front + [ind, |t|] + r == l + [|t|] + r;
    }
  }

  /** Hanging the new leaf there keeps the table a search tree. */
  lemma {:induction false} AttachedTree(t: seq<Node>, t': seq<Node>, names: seq<string>, name: string, ind: nat, left: bool, l: seq<nat>, r: seq<nat>)
    requires Slot(t, names, name, ind, left, l, r) && Attached(t, t', ind, left)
    ensures Tree(t', names + [name])
  {
    AttachedPlace(t, t', names, name, ind, left, l, r);
    SortedInsert(names, name, l, r);
    forall i | 0 <= i < |t'| ensures i in InOrder(t', 0) {
      assert i < |t| ==> i in l + r;
    }
  }
}
