/**
  * The nested-loop join that the compiler generates (Samples/aggr/join.cc): one
  * cursor per relation, an index that moves right on a tuple found and left on
  * DB_NOTFOUND, and a first_entry flag per cursor.  The three cursors of the
  * source become n.
  */
module Join {

  type Relation = seq<int>

  /** The rows that extend prefix by relation i from position s on, and by all later relations. */
  ghost function Tail(rels: seq<Relation>, prefix: seq<int>, i: nat, s: nat): seq<seq<int>>
    requires i < |rels|
    decreases |rels| - i, 1, if s < |rels[i]| then |rels[i]| - s else 0
  {
    if s >= |rels[i]| then []
    else Below(rels, prefix + [rels[i][s]], i + 1) + Tail(rels, prefix, i, s + 1)
  }

  /** The rows that extend prefix by the relations from i on. */
  ghost function Below(rels: seq<Relation>, prefix: seq<int>, i: nat): seq<seq<int>>
    requires i <= |rels|
    decreases |rels| - i, 2, 0
  {
    if i == |rels| then [prefix] else Tail(rels, prefix, i, 0)
  }

  /** The cross product, row by row. */
  ghost function Cross(rels: seq<Relation>): seq<seq<int>> {
    Below(rels, [], 0)
  }

  // ---------- every row once, in lexicographic order ----------

  /** How many rows the relations from i on give. */
  ghost function Product(rels: seq<Relation>, i: nat): nat
    requires i <= |rels|
    decreases |rels| - i
  {
    if i == |rels| then 1 else |rels[i]| * Product(rels, i + 1)
  }

  ghost predicate Choice(rels: seq<Relation>, xs: seq<nat>) {
    |xs| == |rels| && forall i | 0 <= i < |rels| :: xs[i] < |rels[i]|
  }

  /** The place of a choice of positions among all choices. */
  ghost function Rank(rels: seq<Relation>, xs: seq<nat>, i: nat): nat
    requires |xs| == |rels| && i <= |rels|
    decreases |rels| - i
  {
    if i == |rels| then 0 else xs[i] * Product(rels, i + 1) + Rank(rels, xs, i + 1)
  }

  /** The row a choice of positions stands for. */
  ghost function Row(rels: seq<Relation>, xs: seq<nat>, i: nat): (r: seq<int>)
    requires Choice(rels, xs) && i <= |rels|
    decreases |rels| - i
  {
    if i == |rels| then [] else [rels[i][xs[i]]] + Row(rels, xs, i + 1)
  }

  /** Relation j contributes the value at the position chosen in it. */
  lemma {:induction false} RowAt(rels: seq<Relation>, xs: seq<nat>, i: nat)
    requires Choice(rels, xs) && i <= |rels|
    ensures |Row(rels, xs, i)| == |rels| - i
    ensures forall j | i <= j < |rels| :: Row(rels, xs, i)[j - i] == rels[j][xs[j]]
    decreases |rels| - i
  {
    if i < |rels| {
      RowAt(rels, xs, i + 1);
      forall j | i < j < |rels| ensures Row(rels, xs, i)[j - i] == rels[j][xs[j]] {
        assert Row(rels, xs, i)[j - i] == Row(rels, xs, i + 1)[j - (i + 1)];
      }
    }
  }

  lemma {:induction false} Distribute(a: nat, b: nat, c: nat)
    requires a < b
    ensures a * c + c <= b * c
  {
    if a + 1 < b {
      Distribute(a, b - 1, c);
    }
  }

  lemma {:induction false} OneMore(a: nat, c: nat)
    requires a > 0
    ensures a * c == c + (a - 1) * c
  {
  }

  lemma {:induction false} TailLength(rels: seq<Relation>, prefix: seq<int>, i: nat, s: nat)
    requires i < |rels| && s <= |rels[i]|
    ensures |Tail(rels, prefix, i, s)| == (|rels[i]| - s) * Product(rels, i + 1)
    decreases |rels| - i, 1, |rels[i]| - s
  {
    if s < |rels[i]| {
      BelowLength(rels, prefix + [rels[i][s]], i + 1);
      TailLength(rels, prefix, i, s + 1);
      OneMore(|rels[i]| - s, Product(rels, i + 1));
    }
  }

  lemma {:induction false} BelowLength(rels: seq<Relation>, prefix: seq<int>, i: nat)
    requires i <= |rels|
    ensures |Below(rels, prefix, i)| == Product(rels, i)
    decreases |rels| - i, 2, 0
  {
    if i < |rels| {
      TailLength(rels, prefix, i, 0);
    }
  }

  lemma {:induction false} RankBound(rels: seq<Relation>, xs: seq<nat>, i: nat)
    requires Choice(rels, xs) && i <= |rels|
    ensures Rank(rels, xs, i) < Product(rels, i)
    decreases |rels| - i
  {
    if i < |rels| {
      RankBound(rels, xs, i + 1);
      Distribute(xs[i], |rels[i]|, Product(rels, i + 1));
    }
  }

  /** Block d of a tail starts d blocks in. */
  lemma {:induction false} TailAt(rels: seq<Relation>, prefix: seq<int>, i: nat, s: nat, d: nat, r: nat)
    requires i < |rels| && s + d < |rels[i]| && r < Product(rels, i + 1)
    ensures |Below(rels, prefix + [rels[i][s + d]], i + 1)| == Product(rels, i + 1)
    ensures d * Product(rels, i + 1) + r < |Tail(rels, prefix, i, s)|
    ensures Tail(rels, prefix, i, s)[d * Product(rels, i + 1) + r] == Below(rels, prefix + [rels[i][s + d]], i + 1)[r]
    decreases d
  {
    var c, block := Product(rels, i + 1), Below(rels, prefix + [rels[i][s]], i + 1);
    BelowLength(rels, prefix + [rels[i][s]], i + 1);
    if d > 0 {
      TailAt(rels, prefix, i, s + 1, d - 1, r);
      OneMore(d, c);
      var p := (d - 1) * c + r;
      assert (block + Tail(rels, prefix, i, s + 1))[c + p] == Tail(rels, prefix, i, s + 1)[p];
    }
  }

  lemma {:induction false} Extend(prefix: seq<int>, v: int, rest: seq<int>)
    ensures prefix + [v] + rest == prefix + ([v] + rest)
  {
  }

  lemma {:induction false} BelowAt(rels: seq<Relation>, prefix: seq<int>, xs: seq<nat>, i: nat)
    requires Choice(rels, xs) && i <= |rels|
    ensures Rank(rels, xs, i) < |Below(rels, prefix, i)|
    ensures Below(rels, prefix, i)[Rank(rels, xs, i)] == prefix + Row(rels, xs, i)
    decreases |rels| - i
  {
    if i < |rels| {
      var next := prefix + [rels[i][xs[i]]];
      BelowAt(rels, next, xs, i + 1);
      RankBound(rels, xs, i + 1);
      TailAt(rels, prefix, i, 0, xs[i], Rank(rels, xs, i + 1));
      assert rels[i][0 + xs[i]] == rels[i][xs[i]];
      Extend(prefix, rels[i][xs[i]], Row(rels, xs, i + 1));
    }
  }

  /** Row number Rank(xs) of the cross product is the row of the choice xs. */
  lemma {:induction false} CrossAt(rels: seq<Relation>, xs: seq<nat>)
    requires Choice(rels, xs)
    ensures |Cross(rels)| == Product(rels, 0)
    ensures Rank(rels, xs, 0) < |Cross(rels)| && |Cross(rels)[Rank(rels, xs, 0)]| == |rels|
    ensures forall j | 0 <= j < |rels| :: Cross(rels)[Rank(rels, xs, 0)][j] == rels[j][xs[j]]
  {
    BelowLength(rels, [], 0);
    BelowAt(rels, [], xs, 0);
    RowAt(rels, xs, 0);
    forall j | 0 <= j < |rels| ensures Cross(rels)[Rank(rels, xs, 0)][j] == rels[j][xs[j]] {
      assert Row(rels, xs, 0)[j - 0] == rels[j][xs[j]];
    }
  }

  /** The first relation varies slowest: ranks follow the lexicographic order. */
  lemma {:induction false} RankLess(rels: seq<Relation>, xs: seq<nat>, ys: seq<nat>, i: nat, k: nat)
    requires Choice(rels, xs) && Choice(rels, ys) && i <= k < |rels|
    requires xs[i..k] == ys[i..k] && xs[k] < ys[k]
    ensures Rank(rels, xs, i) < Rank(rels, ys, i)
    decreases k - i
  {
    if i < k {
      assert xs[i..k][0] == ys[i..k][0];
      assert xs[i + 1..k] == xs[i..k][1..] && ys[i + 1..k] == ys[i..k][1..];
      RankLess(rels, xs, ys, i + 1, k);
    } else {
      RankBound(rels, xs, i + 1);
      Distribute(xs[i], ys[i], Product(rels, i + 1));
    }
  }

  /** Every row number is the rank of a choice. */
  lemma {:induction false} RankOnto(rels: seq<Relation>, i: nat, r: nat) returns (xs: seq<nat>)
    requires i <= |rels| && r < Product(rels, i)
    ensures |xs| == |rels| && Rank(rels, xs, i) == r
    ensures forall j | i <= j < |rels| :: xs[j] < |rels[j]|
    decreases |rels| - i
  {
    if i == |rels| {
      xs := seq(|rels|, _ => 0);
    } else {
      var c, q := Product(rels, i + 1), |rels[i]|;
      NotZero(q, c);
      var x := r / c;
      assert r == x * c + r % c;
      if x >= q {
        Multiple(q, x, c);
      }
      var rest := RankOnto(rels, i + 1, r % c);
      xs := rest[i := x];
      RankFrame(rels, rest, xs, i + 1);
    }
  }

  lemma {:induction false} NotZero(a: nat, b: nat)
    requires a * b > 0
    ensures b > 0
  {
  }

  lemma {:induction false} Multiple(a: nat, b: nat, c: nat)
    requires a <= b
    ensures a * c <= b * c
  {
    if a < b {
      Distribute(a, b, c);
    }
  }

  lemma {:induction false} RankFrame(rels: seq<Relation>, xs: seq<nat>, ys: seq<nat>, i: nat)
    requires |xs| == |rels| && |ys| == |rels| && i <= |rels|
    requires forall j | i <= j < |rels| :: xs[j] == ys[j]
    ensures Rank(rels, xs, i) == Rank(rels, ys, i)
    decreases |rels| - i
  {
    if i < |rels| {
      RankFrame(rels, xs, ys, i + 1);
    }
  }

  // ---------- where the loop stands ----------

  /** Rows still to come when cursor i continues at s and the cursors before it stand at pos. */
  ghost function Rest(rels: seq<Relation>, row: seq<int>, pos: seq<nat>, i: nat, s: nat): seq<seq<int>>
    requires i < |rels| && |row| == |rels| && |pos| == |rels|
    decreases i
  {
    Tail(rels, row[..i], i, s) + if i == 0 then [] else Rest(rels, row, pos, i - 1, pos[i - 1] + 1)
  }

  /** Calls of c_get that cursor i still makes from s on, with those of the later cursors. */
  ghost function Calls(rels: seq<Relation>, i: nat, s: nat): nat
    requires i < |rels|
    decreases |rels| - i, if s < |rels[i]| then |rels[i]| - s else 0
  {
    if s >= |rels[i]| then 1
    else 1 + (if i + 1 < |rels| then Calls(rels, i + 1, 0) else 0) + Calls(rels, i, s + 1)
  }

  ghost function CallsLeft(rels: seq<Relation>, pos: seq<nat>, i: nat, s: nat): nat
    requires i < |rels| && |pos| == |rels|
    decreases i
  {
    Calls(rels, i, s) + if i == 0 then 0 else CallsLeft(rels, pos, i - 1, pos[i - 1] + 1)
  }

  /** Every tuple of a cursor costs one call and a full round of the next cursor; its end costs one more. */
  lemma {:induction false} CallsAre(rels: seq<Relation>, i: nat, s: nat)
    requires i < |rels| && s <= |rels[i]|
    ensures Calls(rels, i, s) == (|rels[i]| - s) * (1 + if i + 1 < |rels| then Calls(rels, i + 1, 0) else 0) + 1
    decreases |rels[i]| - s
  {
    if s < |rels[i]| {
      CallsAre(rels, i, s + 1);
      OneMore(|rels[i]| - s, 1 + if i + 1 < |rels| then Calls(rels, i + 1, 0) else 0);
    }
  }

  lemma {:induction false} RestFrame(rels: seq<Relation>, row: seq<int>, pos: seq<nat>, row': seq<int>, pos': seq<nat>, i: nat, s: nat)
    requires i < |rels| && |row| == |row'| == |rels| && |pos| == |pos'| == |rels|
    requires row[..i] == row'[..i] && pos[..i] == pos'[..i]
    ensures Rest(rels, row, pos, i, s) == Rest(rels, row', pos', i, s)
    decreases i
  {
    if i > 0 {
      PrefixOf(row, row', i);
      PrefixOf(pos, pos', i);
      RestFrame(rels, row, pos, row', pos', i - 1, pos[i - 1] + 1);
    }
  }

  lemma {:induction false} PrefixOf<T>(s: seq<T>, s': seq<T>, i: nat)
    requires 0 < i <= |s| && i <= |s'| && s[..i] == s'[..i]
    ensures s[..i - 1] == s'[..i - 1] && s[i - 1] == s'[i - 1]
  {
    assert s[..i][i - 1] == s'[..i][i - 1];
    assert s[..i - 1] == s[..i][..i - 1] && s'[..i - 1] == s'[..i][..i - 1];
  }

  lemma {:induction false} CallsFrame(rels: seq<Relation>, pos: seq<nat>, pos': seq<nat>, i: nat, s: nat)
    requires i < |rels| && |pos| == |pos'| == |rels|
    requires forall j | 0 <= j < i :: pos[j] == pos'[j]
    ensures CallsLeft(rels, pos, i, s) == CallsLeft(rels, pos', i, s)
    decreases i
  {
    if i > 0 {
      CallsFrame(rels, pos, pos', i - 1, pos[i - 1] + 1);
    }
  }

  /** A tuple found at s: its rows come first, then those of the tuples after it. */
  lemma {:induction false} Found(rels: seq<Relation>, row: seq<int>, pos: seq<nat>, i: nat, s: nat)
    requires i < |rels| && |row| == |rels| && |pos| == |rels| && s < |rels[i]|
    ensures var row', pos' := row[i := rels[i][s]], pos[i := s];
            && Rest(rels, row, pos, i, s) == Below(rels, row'[..i + 1], i + 1) + Rest(rels, row', pos', i, s + 1)
            && (i + 1 < |rels| ==> Rest(rels, row', pos', i + 1, 0) == Rest(rels, row, pos, i, s))
            && CallsLeft(rels, pos, i, s)
               == 1 + if i + 1 < |rels| then CallsLeft(rels, pos', i + 1, 0) else CallsLeft(rels, pos', i, s + 1)
  {
    var row', pos' := row[i := rels[i][s]], pos[i := s];
    assert row'[..i] == row[..i];
    assert pos'[..i] == pos[..i];
    RestFrame(rels, row, pos, row', pos', i, s + 1);
    CallsFrame(rels, pos, pos', i, s + 1);
    FoundRows(rels, row, pos, i, s);
    assert row'[..i + 1] == row[..i] + [rels[i][s]];
  }

  /** A tuple found by the last cursor completes a row. */
  lemma {:induction false} FoundLast(rels: seq<Relation>, row: seq<int>, pos: seq<nat>, i: nat, s: nat)
    requires i + 1 == |rels| && |row| == |rels| && |pos| == |rels| && s < |rels[i]|
    ensures var row', pos' := row[i := rels[i][s]], pos[i := s];
            Rest(rels, row, pos, i, s) == [row'] + Rest(rels, row', pos', i, s + 1)
  {
    Found(rels, row, pos, i, s);
    var row' := row[i := rels[i][s]];
    assert row'[..i + 1] == row';
  }

  /** A cursor that finds nothing has no rows left: those of the cursor before it follow. */
  lemma {:induction false} MissedRows(rels: seq<Relation>, row: seq<int>, pos: seq<nat>, i: nat, s: nat)
    requires i < |rels| && |row| == |rels| && |pos| == |rels| && s >= |rels[i]|
    ensures Rest(rels, row, pos, i, s) == if i == 0 then [] else Rest(rels, row, pos, i - 1, pos[i - 1] + 1)
    ensures CallsLeft(rels, pos, i, s) == 1 + if i == 0 then 0 else CallsLeft(rels, pos, i - 1, pos[i - 1] + 1)
  {
  }

  lemma {:induction false} FoundRows(rels: seq<Relation>, row: seq<int>, pos: seq<nat>, i: nat, s: nat)
    requires i < |rels| && |row| == |rels| && |pos| == |rels| && s < |rels[i]|
    ensures Rest(rels, row, pos, i, s) == Below(rels, row[..i] + [rels[i][s]], i + 1) + Rest(rels, row, pos, i, s + 1)
  {
    var b, t := Below(rels, row[..i] + [rels[i][s]], i + 1), Tail(rels, row[..i], i, s + 1);
    assert Tail(rels, row[..i], i, s) == b + t;
    if i > 0 {
      var rest := Rest(rels, row, pos, i - 1, pos[i - 1] + 1);
      assert (b + t) + rest == b + (t + rest);
    }
  }

  /** Every cursor before i is under way, every cursor after it starts afresh. */
  ghost predicate Backtracking(first: seq<bool>, i: nat) {
    (forall j | 0 <= j < i && j < |first| :: !first[j]) && forall j | i < j < |first| :: first[j]
  }

  lemma {:induction false} StillBacktracking(first: seq<bool>, i: nat, afresh: bool)
    requires Backtracking(first, i) && i < |first|
    ensures Backtracking(first[i := afresh], i)
    ensures afresh && i > 0 ==> Backtracking(first[i := afresh], i - 1)
  {
  }

  /** The cursors that a state of the loop consists of. */
  datatype Cursors = Cursors(first: seq<bool>, pos: seq<nat>, row: seq<int>)

  ghost predicate Fits(rels: seq<Relation>, c: Cursors) {
    |c.first| == |c.pos| == |c.row| == |rels|
  }

  /** Where cursor i continues. */
  function Start(c: Cursors, i: nat): nat
    requires i < |c.first| && i < |c.pos|
  {
    if c.first[i] then 0 else c.pos[i] + 1
  }

  /** Cursor i is to be moved: the rows inserted and the rows to come make the product. */
  ghost predicate Moving(rels: seq<Relation>, c: Cursors, i: nat, out: seq<seq<int>>, gets: nat) {
    && i < |rels| && Fits(rels, c)
    && Backtracking(c.first, i)
    && out + Rest(rels, c.row, c.pos, i, Start(c, i)) == Cross(rels)
    && gets + CallsLeft(rels, c.pos, i, Start(c, i)) == Calls(rels, 0, 0)
  }

  /** All cursors stand on a tuple: the row is complete. */
  ghost predicate Complete(rels: seq<Relation>, c: Cursors, out: seq<seq<int>>, gets: nat) {
    && |rels| >= 1 && Fits(rels, c) && !c.first[|rels| - 1]
    && Moving(rels, c, |rels| - 1, out + [c.row], gets)
  }

  /** The first cursor found nothing more. */
  ghost predicate Exhausted(rels: seq<Relation>, c: Cursors, out: seq<seq<int>>, gets: nat) {
    && |rels| >= 1 && Fits(rels, c)
    && (forall j | 0 <= j < |rels| :: c.first[j])
    && out == Cross(rels)
    && gets == Calls(rels, 0, 0)
  }

  ghost predicate State(rels: seq<Relation>, c: Cursors, index: int, found: bool, out: seq<seq<int>>, gets: nat) {
    if index == -1 then !found && Exhausted(rels, c, out, gets)
    else if index == |rels| then found && Complete(rels, c, out, gets)
    else 0 <= index < |rels| && Moving(rels, c, index, out, gets)
  }

  lemma {:induction false} StartMoving(rels: seq<Relation>, c: Cursors)
    requires |rels| >= 1 && Fits(rels, c) && forall j | 0 <= j < |rels| :: c.first[j]
    ensures Moving(rels, c, 0, [], 0)
  {
    assert c.row[..0] == [];
  }

  function Advanced(rels: seq<Relation>, c: Cursors, i: nat): Cursors
    requires i < |rels| && |c.first| == |c.pos| == |c.row| == |rels| && Start(c, i) < |rels[i]|
  {
    var s := Start(c, i);
    Cursors(c.first[i := false], c.pos[i := s], c.row[i := rels[i][s]])
  }

  /** c_get found a tuple, and there is a cursor to its right. */
  lemma {:induction false} MoveRight(rels: seq<Relation>, c: Cursors, i: nat, out: seq<seq<int>>, gets: nat)
    requires Moving(rels, c, i, out, gets) && Start(c, i) < |rels[i]| && i + 1 < |rels|
    ensures Moving(rels, Advanced(rels, c, i), i + 1, out, gets + 1)
  {
    Found(rels, c.row, c.pos, i, Start(c, i));
  }

  lemma {:induction false} Emitted(out: seq<seq<int>>, row: seq<int>, rest: seq<seq<int>>)
    ensures out + ([row] + rest) == out + [row] + rest
  {
  }

  /** c_get found a tuple, and it completes the row. */
  lemma {:induction false} MoveLast(rels: seq<Relation>, c: Cursors, i: nat, out: seq<seq<int>>, gets: nat)
    requires Moving(rels, c, i, out, gets) && Start(c, i) < |rels[i]| && i + 1 == |rels|
    ensures Complete(rels, Advanced(rels, c, i), out, gets + 1)
  {
    var c', s := Advanced(rels, c, i), Start(c, i);
    Found(rels, c.row, c.pos, i, s);
    FoundLast(rels, c.row, c.pos, i, s);
    StillBacktracking(c.first, i, false);
    assert Start(c', i) == s + 1;
    Emitted(out, c'.row, Rest(rels, c'.row, c'.pos, i, s + 1));
  }

  /** c_get found a tuple. */
  lemma {:induction false} MoveFound(rels: seq<Relation>, c: Cursors, i: nat, out: seq<seq<int>>, gets: nat)
    requires Moving(rels, c, i, out, gets) && Start(c, i) < |rels[i]|
    ensures State(rels, Advanced(rels, c, i), i + 1, true, out, gets + 1)
    ensures gets < Calls(rels, 0, 0)
  {
    if i + 1 == |rels| {
      MoveLast(rels, c, i, out, gets);
    } else {
      MoveRight(rels, c, i, out, gets);
    }
  }

  /** c_get found nothing, and there is a cursor to its left. */
  lemma {:induction false} MoveLeft(rels: seq<Relation>, c: Cursors, i: nat, out: seq<seq<int>>, gets: nat)
    requires Moving(rels, c, i, out, gets) && Start(c, i) >= |rels[i]| && i > 0
    ensures Moving(rels, c.(first := c.first[i := true]), i - 1, out, gets + 1)
  {
    MissedRows(rels, c.row, c.pos, i, Start(c, i));
    StillBacktracking(c.first, i, true);
    assert Start(c.(first := c.first[i := true]), i - 1) == c.pos[i - 1] + 1;
  }

  /** c_get found nothing, and it is the first cursor. */
  lemma {:induction false} MoveOut(rels: seq<Relation>, c: Cursors, out: seq<seq<int>>, gets: nat)
    requires Moving(rels, c, 0, out, gets) && Start(c, 0) >= |rels[0]|
    ensures Exhausted(rels, c.(first := c.first[0 := true]), out, gets + 1)
  {
    MissedRows(rels, c.row, c.pos, 0, Start(c, 0));
    assert out + [] == out;
  }

  /** c_get found nothing. */
  lemma {:induction false} MoveMissed(rels: seq<Relation>, c: Cursors, i: nat, out: seq<seq<int>>, gets: nat)
    requires Moving(rels, c, i, out, gets) && Start(c, i) >= |rels[i]|
    ensures State(rels, c.(first := c.first[i := true]), i - 1, false, out, gets + 1)
    ensures gets < Calls(rels, 0, 0)
  {
    if i == 0 {
      MoveOut(rels, c, out, gets);
    } else {
      MoveLeft(rels, c, i, out, gets);
    }
  }

  /** One search for the next row: the inner loop. */
  method Search(rels: seq<Relation>, c0: Cursors, index0: int, ghost out: seq<seq<int>>, ghost gets0: nat)
    returns (c: Cursors, index: int, found: bool, ghost gets: nat)
    requires 0 <= index0 < |rels| && Moving(rels, c0, index0, out, gets0)
    ensures (index == -1 || index == |rels|) && State(rels, c, index, found, out, gets)
    ensures gets0 < gets <= Calls(rels, 0, 0)
  {
    c, index, found, gets := c0, index0, true, gets0;
    while 0 <= index < |rels|
      invariant State(rels, c, index, found, out, gets)
      invariant gets0 <= gets <= Calls(rels, 0, 0) && (gets == gets0 ==> 0 <= index < |rels|)
      decreases Calls(rels, 0, 0) - gets
    {
      var s := Start(c, index);
      if s < |rels[index]| {
        MoveFound(rels, c, index, out, gets);
        c := Cursors(c.first[index := false], c.pos[index := s], c.row[index := rels[index][s]]);
        found, index := true, index + 1;
      } else {
        MoveMissed(rels, c, index, out, gets);
        c := c.(first := c.first[index := true]);
        found, index := false, index - 1;
      }
      gets := gets + 1;
    }
  }

  /** The join loop: the rows it inserts, and the state it leaves. */
  method Run(rels: seq<Relation>) returns (out: seq<seq<int>>, index: int, c: Cursors, ghost gets: nat)
    requires |rels| >= 1
    ensures out == Cross(rels)
    ensures index == 0 && |c.first| == |rels| && forall j | 0 <= j < |rels| :: c.first[j]
    ensures gets == Calls(rels, 0, 0)
  {
    var n := |rels|;
    c := Cursors(seq(n, _ => true), seq(n, _ => 0), seq(n, _ => 0));
    out, index, gets := [], 0, 0;
    StartMoving(rels, c);
    var found := true;
    while found
      invariant found ==> 0 <= index < n && Moving(rels, c, index, out, gets)
      invariant !found ==> index == 0 && Exhausted(rels, c, out, gets)
      invariant gets <= Calls(rels, 0, 0)
      decreases found, Calls(rels, 0, 0) - gets
    {
      c, index, found, gets := Search(rels, c, index, out, gets);
      if !found {
        index := index + 1;
      } else {
        index := index - 1;
        out := out + [c.row];
      }
    }
  }
}
