/**
  * The profile analyser of adl/dbug/analyze.c: the arrays fn_stack, modules
  * and s_table and the running totals, all in 64-bit arithmetic.
  */
module Profile {

  import opened ProfileLedger
  import opened ProfileBooks
  import opened ProfileExtent
  import opened ProfileRecords
  import opened ProfileReport
  import opened SearchTree

  datatype Module = Module(name: string, m_time: Unsigned, m_calls: Unsigned, m_stkuse: Unsigned)

  /** What out_item prints of a module: the call count goes through an unsigned int. */
  datatype Line = Line(name: string, calls: nat, time: Unsigned, stkuse: Unsigned)

  function Printed(m: Module): Line {
    Line(m.name, Narrow(m.m_calls), m.m_time, m.m_stkuse)
  }

  /** What is printed: the stack extent, one line per module, and the two sums. */
  datatype Report = Report(stack: Extent, lines: seq<Line>, calls: Unsigned, time: Unsigned)

  ghost function WrapFrame(f: Frame): Frame {
    Frame(f.pos, Wrap(f.time), Wrap(f.children))
  }

  /** The books after a name was looked up, which registers it when new. */
  ghost function Registered(b: Books, names: seq<string>, f: string): Books {
    if f in names then b else Register(b)
  }

  ghost function NamesWith(names: seq<string>, f: string): seq<string> {
    if f in names then names else names + [f]
  }

  ghost function ExtentAfter(rs: seq<Record>, k: nat): Extent
    requires k <= |rs|
  {
    ExtentOf(Bottoms(rs, k), |Bottoms(rs, k)|)
  }

  /** The books are balanced and tell the story of the ledger. */
  ghost predicate Kept(b: Books, names: seq<string>, g: Ledger) {
    Balanced(b) && Matches(b, g) && names == g.names
  }

  lemma {:induction false} KeptLookup(b: Books, names: seq<string>, g: Ledger, f: string)
    requires Kept(b, names, g)
    ensures Kept(Registered(b, names, f), NamesWith(names, f), Know(g, f))
  {
    if f !in names {
      RegisterMatches(b, g, f);
      RegisterBalanced(b);
    }
  }

  lemma {:induction false} KeptEnter(b: Books, names: seq<string>, g: Ledger, pos: nat, t: int)
    requires Kept(b, names, g) && pos < |names|
    ensures Kept(ProfileLedger.Push(b, pos, t), names, Begin(Advance(g, t), names[pos]))
    ensures |b.frames| == |g.open| + 1
  {
    AdvanceMatches(b, g, t);
    PushMatches(b, Advance(g, t), pos);
    PushBalanced(b, pos, t);
  }

  lemma {:induction false} KeptExit(b: Books, names: seq<string>, g: Ledger, pos: nat, t: int)
    requires Kept(b, names, g) && pos < |names|
    ensures Usable(b) && pos < |b.times|
    ensures Kept(Leave(b, pos, t), names, Return(Advance(g, t), names[pos]))
    ensures Return(Advance(g, t), names[pos]).now == t
  {
    AdvanceMatches(b, g, t);
    LeaveMatches(b, Advance(g, t), pos);
    LeaveBalanced(b, pos, t);
    ReturnTimes(Advance(g, t), names[pos]);
  }

  lemma {:induction false} KeptDrain(b: Books, names: seq<string>, g: Ledger)
    requires Kept(b, names, g)
    ensures Usable(b) && Kept(Drain(b, g.now), names, CloseAll(g))
  {
    DrainMatches(b, g);
    DrainBalanced(b, g.now);
    CloseAllKeeps(g);
  }

  /** The largest frame per name, over the first k records. */
  ghost predicate UsedBy(uses: seq<nat>, names: seq<string>, rs: seq<Record>, k: nat)
    requires k <= |rs|
  {
    && |uses| == |names|
    && (forall i | 0 <= i < |names| :: uses[i] == Largest(rs, k, names[i]))
    && (forall f | f !in names :: Largest(rs, k, f) == 0)
  }

  lemma {:induction false} UsedOn(uses: seq<nat>, names: seq<string>, rs: seq<Record>, k: nat)
    requires k < |rs| && UsedBy(uses, names, rs, k) && !rs[k].StackUse?
    ensures UsedBy(uses, names, rs, k + 1) && ExtentAfter(rs, k + 1) == ExtentAfter(rs, k)
  {
    ExtentStep(rs, k);
  }

  lemma {:induction false} UsedMore(t: seq<Node>, uses: seq<nat>, names: seq<string>, rs: seq<Record>, k: nat, pos: nat)
    requires k < |rs| && UsedBy(uses, names, rs, k) && rs[k].StackUse? && Tree(t, names)
    requires pos < |names| && names[pos] == rs[k].name
    ensures UsedBy(if rs[k].size > uses[pos] then uses[pos := rs[k].size] else uses, names, rs, k + 1)
  {
    NamesOnce(t, names, pos);
  }

  /** The lines print the modules listed in order. */
  ghost predicate Prints(mods: seq<Module>, lines: seq<Line>, order: seq<nat>) {
    && |lines| == |order|
    && forall j | 0 <= j < |lines| :: order[j] < |mods| && lines[j] == Printed(mods[order[j]])
  }

  /** Printing order prints the lines and takes the two sums from c, t to c', t'. */
  ghost predicate Out(mods: seq<Module>, b: Books, order: seq<nat>, c: int, t: int, lines: seq<Line>, c': int, t': int) {
    && Prints(mods, lines, order)
    && Totals(c, order, HalfWords(b.calls), c')
    && Totals(t, order, Words(b.times), t')
  }

  lemma {:induction false} OutNone(mods: seq<Module>, b: Books, c: Unsigned, t: Unsigned)
    ensures Out(mods, b, [], c, t, [], c, t)
  {
  }

  lemma {:induction false} OutOn(mods: seq<Module>, b: Books, order: seq<nat>, c: int, t: int, lines: seq<Line>, c': int, t': int,
                                 left: seq<nat>, leftLines: seq<Line>, c'': int, t'': int, x: nat)
    requires Out(mods, b, order, c, t, lines, c', t') && Out(mods, b, left, c', t', leftLines, c'', t'')
    requires x < |mods| && x < |b.calls| && x < |b.times|
    requires mods[x].m_calls == Wrap(b.calls[x]) && mods[x].m_time == Wrap(b.times[x])
    ensures Out(mods, b, order + left + [x], c, t, lines + leftLines + [Printed(mods[x])],
                Wrap(c'' + Printed(mods[x]).calls), Wrap(t'' + Printed(mods[x]).time))
  {
    TotalOn(c, order, left, x, HalfWords(b.calls), c', c'');
    TotalOn(t, order, left, x, Words(b.times), t', t'');
  }

  /** A step whose name is in the table already. */
  ghost function StepNamed(g: Ledger, r: Record): Result<Ledger>
    requires !r.Unknown?
  {
    match r
    case Enter(t, f) => if |g.open| >= STACK_SIZE then Failed(StackOverflow) else Ok(Begin(Advance(g, t), f))
    case Exit(t, f) => Ok(Return(Advance(g, t), f))
    case StackUse(_, _, f) => Ok(g)
  }

  lemma {:induction false} StepIsNamed(g: Ledger, r: Record)
    requires !r.Unknown? && !Full(g, r.name)
    ensures Step(g, r) == StepNamed(Know(g, r.name), r)
  {
  }

  class Analyzer {
    const fn_stack: array<Frame>
    const modules: array<Module>
    const s_table: array<Node>
    var stacktop: nat
    var n_items: nat
    var tot_time: Unsigned
    var tot_calls: Unsigned
    var highstack: Unsigned
    var lowstack: Unsigned

    ghost var books: Books
    ghost var names: seq<string>
    ghost var uses: seq<nat>
    ghost var tree: seq<Node>

    ghost predicate Sized()
      reads this
    {
      && fn_stack.Length == STACK_SIZE + 1
      && modules.Length == MAX_PROCS && s_table.Length == MAX_PROCS
      && stacktop <= STACK_SIZE && n_items <= MAX_PROCS
    }

    /** The call stack holds the given frames, word by word. */
    ghost predicate StackHolds(fs: seq<Frame>)
      reads this, fn_stack
      requires Sized()
    {
      && |fs| == stacktop + 1
      && forall j | 0 <= j <= stacktop :: fn_stack[j] == WrapFrame(fs[j])
    }

    /** The module table holds the charges of the books, word by word. */
    ghost predicate ModulesHeld()
      reads this, modules
      requires Sized()
    {
      && |books.times| == n_items && |books.calls| == n_items && |names| == n_items && |uses| == n_items
      && (forall i | 0 <= i < n_items :: modules[i].name == names[i])
      && (forall i | 0 <= i < n_items :: modules[i].m_time == Wrap(books.times[i]))
      && (forall i | 0 <= i < n_items :: modules[i].m_calls == Wrap(books.calls[i]))
      && (forall i | 0 <= i < n_items :: modules[i].m_stkuse == uses[i])
      && tot_time == Wrap(books.totTime) && tot_calls == Wrap(books.totCalls)
    }

    /** s_table is a search tree over the names. */
    ghost predicate TreeHeld()
      reads this, s_table
      requires Sized()
    {
      && |tree| == n_items
      && (forall i | 0 <= i < n_items :: s_table[i] == tree[i])
      && Tree(tree, names)
    }

    ghost predicate Valid()
      reads this, fn_stack, modules, s_table
    {
      Sized() && Usable(books) && StackHolds(books.frames) && ModulesHeld() && TreeHeld()
    }

    constructor ()
      ensures Valid() && books == OPENING && names == [] && uses == []
      ensures highstack == 0 && lowstack == WORD - 1
      ensures fresh(fn_stack) && fresh(modules) && fresh(s_table)
    {
      fn_stack := new Frame[STACK_SIZE + 1](_ => Frame(0, 0, 0));
      modules := new Module[MAX_PROCS](_ => Module("", 0, 0, 0));
      s_table := new Node[MAX_PROCS](_ => Node(0, 0, 0));
      stacktop, n_items := 0, 0;
      tot_time, tot_calls, highstack, lowstack := 0, 0, 0, WORD - 1;
      books, names, uses, tree := OPENING, [], [], [];
    }

    // ---------- push and pop ----------

    method Push(pos: nat, fn_time: Unsigned, ghost t: int) returns (ok: bool)
      requires Valid() && pos < n_items && fn_time == Wrap(t)
      modifies this`stacktop, this`books, fn_stack
      ensures ok == (old(stacktop) < STACK_SIZE)
      ensures ok ==> Valid() && books == ProfileLedger.Push(old(books), pos, t)
    {
      if stacktop + 1 > STACK_SIZE {
        return false;
      }
      stacktop := stacktop + 1;
      fn_stack[stacktop] := Frame(pos, fn_time, 0);
      books := ProfileLedger.Push(books, pos, t);
      return true;
    }

    /** The same charge of one call to a module and to the totals. */
    method Charge(pos: nat, time: Unsigned, ghost d: int)
      requires Sized() && ModulesHeld() && pos < n_items && time == Wrap(d)
      modifies this`tot_time, this`tot_calls, this`books, modules
      ensures ModulesHeld() && books == Book(old(books), pos, d)
    {
      ghost var b := books;
      ChargeWraps(b.times[pos], d);
      ChargeWraps(b.totTime, d);
      WrapAdd(b.calls[pos], 1);
      WrapAdd(b.totCalls, 1);
      var m := modules[pos];
      modules[pos] := m.(m_time := Wrap(m.m_time + time), m_calls := Wrap(m.m_calls + 1));
      tot_time := Wrap(tot_time + time);
      tot_calls := Wrap(tot_calls + 1);
      books := Book(b, pos, d);
    }

    /** Pop the innermost frame at fn_time and add its time to its caller's children. */
    method PopFrame(fn_time: Unsigned, ghost t: int) returns (oldpos: nat, time: Unsigned)
      requires Sized() && Usable(books) && StackHolds(books.frames) && stacktop > 0 && fn_time == Wrap(t)
      modifies this`stacktop, fn_stack
      ensures Sized() && stacktop == old(stacktop) - 1 && StackHolds(Pop(books, t).frames)
      ensures var top := books.frames[stacktop + 1];
              oldpos == top.pos && time == Wrap(t - top.time - top.children)
    {
      PopWraps(books, t);
      var temp := fn_stack[stacktop];
      oldpos := temp.pos;
      stacktop := stacktop - 1;
      time := Wrap(fn_time - temp.time);
      var below := fn_stack[stacktop];
      fn_stack[stacktop] := below.(children := Wrap(below.children + time));
      time := Wrap(time - temp.children);
    }

    /** One turn of the pop loops: the popped call is charged its own time. */
    method PopAndCharge(fn_time: Unsigned, ghost t: int) returns (oldpos: nat)
      requires Valid() && stacktop > 0 && fn_time == Wrap(t)
      modifies this`stacktop, this`tot_time, this`tot_calls, this`books, fn_stack, modules
      ensures Valid() && stacktop == old(stacktop) - 1
      ensures oldpos == old(books.frames[stacktop].pos) && books == Pop(old(books), t)
    {
      ghost var b, top := books, books.frames[stacktop];
      var time;
      oldpos, time := PopFrame(fn_time, t);
      Charge(oldpos, time, t - top.time - top.children);
      books := Pop(b, t);
    }

    /** The exit of a function with no open call left. */
    method ExitUnmatched(pos: nat, fn_time: Unsigned, ghost t: int)
      requires Valid() && stacktop == 0 && pos < n_items && fn_time == Wrap(t)
      modifies this`tot_time, this`tot_calls, this`books, fn_stack, modules
      ensures Valid() && books == Reset(old(books), pos, t)
    {
      ghost var b, f := books, books.frames[0];
      ResetWraps(f, t);
      var top := fn_stack[0];
      var time := Wrap(fn_time - top.time - top.children);
      fn_stack[0] := Frame(top.pos, fn_time, 0);
      Charge(pos, time, t - f.time - f.children);
      books := Reset(b, pos, t);
    }

    /** The X record. */
    method Exit(pos: nat, fn_time: Unsigned, ghost t: int)
      requires Valid() && pos < n_items && fn_time == Wrap(t)
      modifies this`stacktop, this`tot_time, this`tot_calls, this`books, fn_stack, modules
      ensures Valid() && books == Leave(old(books), pos, t)
    {
      while stacktop > 0
        invariant Valid() && Leave(books, pos, t) == Leave(old(books), pos, t)
        decreases stacktop
      {
        var oldpos := PopAndCharge(fn_time, t);
        if pos == oldpos {
          return;
        }
      }
      ExitUnmatched(pos, fn_time, t);
    }

    /** End of file: everything still open exits at the last time seen. */
    method DrainStack(fn_time: Unsigned, ghost t: int)
      requires Valid() && (stacktop > 0 ==> fn_time == Wrap(t))
      modifies this`stacktop, this`tot_time, this`tot_calls, this`books, fn_stack, modules
      ensures Valid() && books == Drain(old(books), t)
    {
      while stacktop > 0
        invariant Valid() && (stacktop > 0 ==> fn_time == Wrap(t)) && Drain(books, t) == Drain(old(books), t)
        decreases stacktop
      {
        var _ := PopAndCharge(fn_time, t);
      }
    }

    // ---------- the symbol table ----------

    /** Walk down the search tree to the name or to where it would hang. */
    method Search(name: string) returns (ind: nat, cmp: int, ghost l: seq<nat>, ghost r: seq<nat>)
      requires Sized() && ModulesHeld() && TreeHeld() && n_items > 0
      ensures ind < n_items && cmp == Compare(name, names[ind])
      ensures cmp < 0 ==> tree[ind].lchild == MAX_PROCS
      ensures cmp > 0 ==> tree[ind].rchild == MAX_PROCS
      ensures cmp != 0 ==> Slot(tree, names, name, ind, cmp < 0, l, r)
    {
      ind, l, r := 0, [], [];
      cmp := Compare(name, modules[ind].name);
      while cmp != 0
        invariant ind < n_items && Searching(tree, names, name, l, ind, r)
        invariant cmp == Compare(name, names[ind])
        decreases n_items - ind
      {
        assert s_table[ind] == tree[ind];
        CompareSwap(name, names[ind]);
        if cmp < 0 {
          if s_table[ind].lchild == MAX_PROCS {
            SlotLeft(tree, names, name, l, ind, r);
            r := [ind] + InOrder(tree, tree[ind].rchild) + r;
            return;
          }
          SearchLeft(tree, names, name, l, ind, r);
          r := [ind] + InOrder(tree, tree[ind].rchild) + r;
          ind := s_table[ind].lchild;
        } else {
          if s_table[ind].rchild == MAX_PROCS {
            SlotRight(tree, names, name, l, ind, r);
            l := l + InOrder(tree, tree[ind].lchild) + [ind];
            return;
          }
          SearchRight(tree, names, name, l, ind, r);
          l := l + InOrder(tree, tree[ind].lchild) + [ind];
          ind := s_table[ind].rchild;
        }
        cmp := Compare(name, modules[ind].name);
      }
    }

    /** Node n_items becomes a leaf below ind. */
    method Hang(name: string, ind: nat, left: bool, ghost l: seq<nat>, ghost r: seq<nat>)
      requires Sized() && TreeHeld() && n_items < MAX_PROCS && ind < n_items
      requires (if left then tree[ind].lchild else tree[ind].rchild) == MAX_PROCS
      requires Slot(tree, names, name, ind, left, l, r)
      modifies s_table
      ensures Grown(name)
    {
      var n := n_items;
      s_table[ind] := if left then s_table[ind].(lchild := n) else s_table[ind].(rchild := n);
      s_table[n] := Node(MAX_PROCS, MAX_PROCS, n);
      ghost var t' := s_table[..n + 1];
      assert t'[ind] == (if left then tree[ind].(lchild := n) else tree[ind].(rchild := n)) && t'[n] == Leaf(n);
      assert forall i | 0 <= i < n && i != ind :: t'[i] == s_table[i] == tree[i];
      assert Attached(tree, t', ind, left);
      AttachedTree(tree, t', names, name, ind, left, l, r);
    }

    /** s_table already is the search tree with the new name. */
    ghost predicate Grown(name: string)
      reads this, s_table
      requires Sized()
    {
      n_items < MAX_PROCS && Tree(s_table[..n_items + 1], names + [name])
    }

    /** The new row of the module table. */
    method AddRow(name: string) returns (pos: nat)
      requires Sized() && Usable(books) && StackHolds(books.frames) && ModulesHeld() && Grown(name)
      modifies this`n_items, this`books, this`names, this`uses, this`tree, modules
      ensures Valid() && pos == old(n_items) && n_items == pos + 1
      ensures names == old(names) + [name] && books == Register(old(books)) && uses == old(uses) + [0]
    {
      pos := n_items;
      modules[n_items] := Module(name, 0, 0, 0);
      n_items := n_items + 1;
      books, names, uses, tree := Register(books), names + [name], uses + [0], s_table[..n_items];
    }

    /** The index of a name, which is entered when it is new. */
    method Add(name: string) returns (res: Result<nat>)
      requires Valid()
      modifies this`n_items, this`books, this`names, this`uses, this`tree, modules, s_table
      ensures res == Failed(TooManyFunctions) <==> old(name !in names && n_items >= MAX_PROCS)
      ensures res.Failed? ==> res.error == TooManyFunctions
      ensures res.Ok? ==> Valid() && res.value < n_items && names[res.value] == name
      ensures res.Ok? ==> names == NamesWith(old(names), name) && books == Registered(old(books), old(names), name)
      ensures res.Ok? ==> uses == if name in old(names) then old(uses) else old(uses) + [0]
    {
      var pos;
      if n_items == 0 {
        s_table[0] := Node(MAX_PROCS, MAX_PROCS, 0);
        FirstTree(name);
        assert s_table[..1] == [Leaf(0)];
        pos := AddRow(name);
        return Ok(pos);
      }
      var ind, cmp, l, r := Search(name);
      if cmp == 0 {
        return Ok(ind);
      }
      SlotAbsent(tree, names, name, ind, cmp < 0, l, r);
      if n_items >= MAX_PROCS {
        return Failed(TooManyFunctions);
      }
      Hang(name, ind, cmp < 0, l, r);
      pos := AddRow(name);
      return Ok(pos);
    }

    // ---------- the records ----------

    /** The program has reached the ledger g after the first k records. */
    ghost predicate Agrees(g: Ledger, rs: seq<Record>, k: nat)
      reads this, fn_stack, modules, s_table
      requires k <= |rs|
    {
      && Valid()
      && Kept(books, names, g)
      && UsedBy(uses, names, rs, k)
      && Extent(highstack, lowstack) == ExtentAfter(rs, k)
    }

    /** Looking the name of a record up. */
    method Lookup(name: string, ghost g: Ledger, ghost rs: seq<Record>, ghost k: nat) returns (res: Result<nat>)
      requires k <= |rs| && Agrees(g, rs, k)
      modifies this`n_items, this`books, this`names, this`uses, this`tree, modules, s_table
      ensures res.Failed? <==> Full(g, name)
      ensures res.Failed? ==> res.error == TooManyFunctions
      ensures res.Ok? ==> Agrees(Know(g, name), rs, k) && res.value < n_items && names[res.value] == name
    {
      KeptLookup(books, names, g, name);
      res := Add(name);
    }

    /** The E record, once its name has index pos. */
    method TakeEnter(r: Record, pos: nat, ghost g: Ledger, ghost rs: seq<Record>, ghost k: nat) returns (ok: bool)
      requires r.Enter? && k < |rs| && rs[k] == r && Agrees(g, rs, k) && pos < n_items && names[pos] == r.name
      modifies this`stacktop, this`books, fn_stack
      ensures ok == (|g.open| < STACK_SIZE)
      ensures ok ==> Agrees(Begin(Advance(g, r.time), r.name), rs, k + 1)
    {
      KeptEnter(books, names, g, pos, r.time);
      UsedOn(uses, names, rs, k);
      ok := Push(pos, Wrap(r.time), r.time);
    }

    /** The X record, once its name has index pos. */
    method TakeExit(r: Record, pos: nat, ghost g: Ledger, ghost rs: seq<Record>, ghost k: nat)
      requires r.Exit? && k < |rs| && rs[k] == r && Agrees(g, rs, k) && pos < n_items && names[pos] == r.name
      modifies this`stacktop, this`tot_time, this`tot_calls, this`books, fn_stack, modules
      ensures Agrees(Return(Advance(g, r.time), r.name), rs, k + 1)
      ensures Return(Advance(g, r.time), r.name).now == r.time
    {
      KeptExit(books, names, g, pos, r.time);
      UsedOn(uses, names, rs, k);
      Exit(pos, Wrap(r.time), r.time);
    }

    /** The S record, once its name has index pos. */
    method TakeStackUse(r: Record, pos: nat, ghost g: Ledger, ghost rs: seq<Record>, ghost k: nat)
      requires r.StackUse? && k < |rs| && rs[k] == r && Agrees(g, rs, k) && pos < n_items && names[pos] == r.name
      modifies this`uses, this`highstack, this`lowstack, modules
      ensures Agrees(g, rs, k + 1)
    {
      ExtentStep(rs, k);
      UsedMore(tree, uses, names, rs, k, pos);
      NoteUse(pos, r.size);
      NoteBottom(r.bottom);
    }

    method NoteBottom(bottom: Unsigned)
      requires Valid()
      modifies this`highstack, this`lowstack
      ensures Valid()
      ensures Extent(highstack, lowstack) == Widen(old(Extent(highstack, lowstack)), bottom)
    {
      if bottom > highstack {
        highstack := bottom;
      } else if bottom < lowstack {
        lowstack := bottom;
      }
    }

    method NoteUse(pos: nat, size: Unsigned)
      requires Valid() && pos < n_items
      modifies this`uses, modules
      ensures Valid()
      ensures uses == if size > old(uses)[pos] then old(uses)[pos := size] else old(uses)
    {
      if size > modules[pos].m_stkuse {
        modules[pos] := modules[pos].(m_stkuse := size);
        uses := uses[pos := size];
      }
    }

    /** One record of the input. */
    method Take(r: Record, fn_time: Unsigned, ghost g: Ledger, ghost rs: seq<Record>, ghost k: nat) returns (res: Result<Unsigned>)
      requires k < |rs| && rs[k] == r && Agrees(g, rs, k) && (stacktop > 0 ==> fn_time == Wrap(g.now))
      modifies this, fn_stack, modules, s_table
      ensures Step(g, r).Failed? ==> res == Failed(Step(g, r).error)
      ensures Step(g, r).Ok? ==> res.Ok? && Agrees(Step(g, r).value, rs, k + 1)
      ensures Step(g, r).Ok? && stacktop > 0 ==> res.value == Wrap(Step(g, r).value.now)
    {
      if r.Unknown? {
        AgreesOn(g, rs, k);
        return Ok(fn_time);
      }
      var at := Lookup(r.name, g, rs, k);
      if at.Failed? {
        return Failed(at.error);
      }
      StepIsNamed(g, r);
      res := TakeNamed(r, at.value, fn_time, Know(g, r.name), rs, k);
    }

    /** A record whose name is known and has index pos. */
    method TakeNamed(r: Record, pos: nat, fn_time: Unsigned, ghost g: Ledger, ghost rs: seq<Record>, ghost k: nat) returns (res: Result<Unsigned>)
      requires !r.Unknown? && k < |rs| && rs[k] == r && Agrees(g, rs, k) && (stacktop > 0 ==> fn_time == Wrap(g.now))
      requires pos < n_items && names[pos] == r.name
      modifies this, fn_stack, modules
      ensures StepNamed(g, r).Failed? ==> res == Failed(StepNamed(g, r).error)
      ensures StepNamed(g, r).Ok? ==> res.Ok? && Agrees(StepNamed(g, r).value, rs, k + 1)
      ensures StepNamed(g, r).Ok? && stacktop > 0 ==> res.value == Wrap(StepNamed(g, r).value.now)
    {
      match r {
        case Enter(_, _) =>
          var ok := TakeEnter(r, pos, g, rs, k);
          return if ok then Ok(Wrap(r.time)) else Failed(StackOverflow);
        case Exit(_, _) =>
          TakeExit(r, pos, g, rs, k);
          return Ok(Wrap(r.time));
        case StackUse(_, _, _) =>
          TakeStackUse(r, pos, g, rs, k);
          return Ok(fn_time);
      }
    }

    lemma {:induction false} AgreesOn(g: Ledger, rs: seq<Record>, k: nat)
      requires k < |rs| && rs[k].Unknown? && Agrees(g, rs, k)
      ensures Agrees(g, rs, k + 1)
    {
      UsedOn(uses, names, rs, k);
    }

    /** Every record in turn, then the end of the file. */
    method Process(rs: seq<Record>) returns (res: Result<()>)
      requires Agrees(START, rs, 0) && stacktop == 0
      modifies this, fn_stack, modules, s_table
      ensures Run(rs, |rs|).Failed? ==> res == Failed(Run(rs, |rs|).error)
      ensures Run(rs, |rs|).Ok? ==> res.Ok? && Agrees(CloseAll(Run(rs, |rs|).value), rs, |rs|)
    {
      var fn_time: Unsigned := 0;
      ghost var g := START;
      var k := 0;
      while k < |rs|
        invariant 0 <= k <= |rs| && Run(rs, k) == Ok(g) && Agrees(g, rs, k)
        invariant stacktop > 0 ==> fn_time == Wrap(g.now)
      {
        var e := Take(rs[k], fn_time, g, rs, k);
        if e.Failed? {
          FailsForGood(rs, k + 1, |rs|);
          return Failed(e.error);
        }
        fn_time, g := e.value, Step(g, rs[k]).value;
        k := k + 1;
      }
      Finish(fn_time, g, rs);
      return Ok(());
    }

    /** The end of the file. */
    method Finish(fn_time: Unsigned, ghost g: Ledger, ghost rs: seq<Record>)
      requires Agrees(g, rs, |rs|) && (stacktop > 0 ==> fn_time == Wrap(g.now))
      modifies this`stacktop, this`tot_time, this`tot_calls, this`books, fn_stack, modules
      ensures Agrees(CloseAll(g), rs, |rs|)
    {
      KeptDrain(books, names, g);
      DrainStack(fn_time, g.now);
    }

    // ---------- the report ----------

    /** The table and the tree as the report needs them. */
    ghost predicate Printable()
      reads this, modules, s_table
    {
      Sized() && ModulesHeld() && TreeHeld()
    }

    /** Print the subtree at root and add its calls and times up. */
    method OutBody(root: nat, s_calls: Unsigned, s_time: Unsigned)
      returns (lines: seq<Line>, calls: Unsigned, time: Unsigned)
      requires Printable() && (root < n_items || root == MAX_PROCS)
      ensures Out(modules[..], books, InOrder(tree, root), s_calls, s_time, lines, calls, time)
      decreases MAX_PROCS - root, 1
    {
      lines, calls, time := [], s_calls, s_time;
      var cur := root;
      ghost var order: seq<nat> := [];
      OutNone(modules[..], books, s_calls, s_time);
      while cur != MAX_PROCS
        invariant root <= cur && (cur < n_items || cur == MAX_PROCS)
        invariant order + InOrder(tree, cur) == InOrder(tree, root)
        invariant Out(modules[..], books, order, s_calls, s_time, lines, calls, time)
        decreases MAX_PROCS - cur
      {
        lines, calls, time := OutNode(cur, order, s_calls, s_time, lines, calls, time);
        order := order + InOrder(tree, tree[cur].lchild) + [cur];
        cur := s_table[cur].rchild;
      }
      assert order + [] == order;
    }

    /** One turn of the loop: the left subtree of a node, then its own line. */
    method OutNode(cur: nat, ghost order: seq<nat>, ghost c: Unsigned, ghost t: Unsigned, lines: seq<Line>, calls: Unsigned, time: Unsigned)
      returns (lines': seq<Line>, calls': Unsigned, time': Unsigned)
      requires Printable() && cur < n_items && Out(modules[..], books, order, c, t, lines, calls, time)
      ensures Out(modules[..], books, order + InOrder(tree, tree[cur].lchild) + [cur], c, t, lines', calls', time')
      decreases MAX_PROCS - cur, 0
    {
      var left, leftCalls, leftTime := OutBody(s_table[cur].lchild, calls, time);
      OutOn(modules[..], books, order, c, t, lines, calls, time, InOrder(tree, tree[cur].lchild), left, leftCalls, leftTime, cur);
      var line := Printed(modules[s_table[cur].pos]);
      lines', calls', time' := lines + left + [line], Wrap(leftCalls + line.calls), Wrap(leftTime + line.time);
    }

    /** The whole report, or the refusal to print an empty one. */
    method Output(ghost g: Ledger, ghost rs: seq<Record>) returns (res: Result<Report>)
      requires Agrees(g, rs, |rs|) && Tells(g, rs)
      ensures Mentioned(rs, |rs|) == {} ==> res == Failed(NoFunctions)
      ensures Mentioned(rs, |rs|) != {} ==> res.Ok? && Faithful(res.value, rs)
    {
      if n_items == 0 {
        return Failed(NoFunctions);
      }
      var lines, calls, time := OutBody(0, 0, 0);
      assert Recorded(modules[..], books, names, uses);
      var report := Report(Extent(highstack, lowstack), lines, calls, time);
      ReportFaithful(modules[..], tree, books, uses, g, rs, report);
      return Ok(report);
    }
  }

  lemma {:induction false} ChargeWraps(x: int, d: int)
    ensures Wrap(Wrap(x) + Wrap(d)) == Wrap(x + d)
  {
    WrapAdd(x, Wrap(d));
    WrapAdd(d, x);
  }

  lemma {:induction false} DifferenceWraps(x: int, y: int)
    ensures Wrap(Wrap(x) - Wrap(y)) == Wrap(x - y)
  {
    WrapAdd(x, 0 - Wrap(y));
    WrapSubtract(x, y);
  }

  lemma {:induction false} PopWraps(b: Books, t: int)
    requires Usable(b) && |b.frames| >= 2
    ensures var n := |b.frames| - 2;
            var below, top := b.frames[n], b.frames[n + 1];
            var time := Wrap(Wrap(t) - Wrap(top.time));
            && Wrap(Wrap(below.children) + time) == Wrap(below.children + (t - top.time))
            && Wrap(time - Wrap(top.children)) == Wrap(t - top.time - top.children)
  {
    var n := |b.frames| - 2;
    var below, top := b.frames[n], b.frames[n + 1];
    DifferenceWraps(t, top.time);
    ChargeWraps(below.children, t - top.time);
    DifferenceWraps(t - top.time, top.children);
  }

  lemma {:induction false} ResetWraps(f: Frame, t: int)
    ensures Wrap(Wrap(t) - Wrap(f.time) - Wrap(f.children)) == Wrap(t - f.time - f.children)
  {
    WrapAdd(t, 0 - Wrap(f.time) - Wrap(f.children));
    WrapSubtract(t - Wrap(f.children), f.time);
    WrapSubtract(t - f.time, f.children);
  }

  lemma {:induction false} FirstTree(name: string)
    ensures Tree([Leaf(0)], [name])
  {
    var t := [Leaf(0)];
    assert Shaped(t);
    assert InOrder(t, MAX_PROCS) == [];
    assert InOrder(t, 0) == [0];
  }

  /** After a failure the rest of the input does not matter. */
  lemma {:induction false} FailsForGood(rs: seq<Record>, k: nat, n: nat)
    requires k <= n <= |rs| && Run(rs, k).Failed?
    ensures Run(rs, n) == Run(rs, k)
  {
    if k < n {
      FailsForGood(rs, k, n - 1);
    }
  }

  lemma {:induction false} NamesOnce(t: seq<Node>, names: seq<string>, pos: nat)
    requires Tree(t, names) && pos < |names|
    ensures forall i | 0 <= i < |names| && names[i] == names[pos] :: i == pos
  {
    forall i | 0 <= i < |names| && names[i] == names[pos] ensures i == pos {
      NamesDiffer(t, names, i, pos);
    }
  }

  // ---------- the whole program ----------

  /** A line of the report tells the truth about its function, modulo the words of the program. */
  ghost predicate Truthful(line: Line, rs: seq<Record>) {
    && line.name in Mentioned(rs, |rs|)
    && line.time == SelfTime(rs, |rs|, line.name) % 0x1_0000_0000_0000_0000
    && line.calls == CallsBy(rs, |rs|, line.name) % 0x1_0000_0000
    && LargestFrame(rs, line.name, line.stkuse)
  }

  /** Names in dictionary order, one line for every function ever mentioned. */
  ghost predicate Complete(lines: seq<Line>, rs: seq<Record>) {
    && |lines| == |Mentioned(rs, |rs|)|
    && (forall i, j | 0 <= i < j < |lines| :: Before(lines[i].name, lines[j].name))
    && forall f | f in Mentioned(rs, |rs|) :: exists i :: 0 <= i < |lines| && lines[i].name == f
  }

  ghost predicate CallsFit(rs: seq<Record>) {
    forall f | f in Mentioned(rs, |rs|) :: CallsBy(rs, |rs|, f) < 0x1_0000_0000
  }

  /** The report is right about the trace; the sum of the calls is right if and only if every count fits. */
  ghost predicate Faithful(p: Report, rs: seq<Record>) {
    && Complete(p.lines, rs)
    && (forall i | 0 <= i < |p.lines| :: Truthful(p.lines[i], rs))
    && p.time == (Clock(rs, |rs|) - Pool(rs, |rs|)) % 0x1_0000_0000_0000_0000
    && (AllCalls(rs) < 0x1_0000_0000_0000_0000 ==> (p.calls == AllCalls(rs) <==> CallsFit(rs)))
    && p.stack == ExtentAfter(rs, |rs|)
  }

  lemma {:induction false} SmallIsFit(b: Books, g: Ledger, rs: seq<Record>)
    requires Kept(b, g.names, g) && Tells(g, rs)
    ensures Small(b.calls, |b.calls|) <==> CallsFit(rs)
  {
    Settled(b, g);
    if CallsFit(rs) {
      forall i | 0 <= i < |b.calls| ensures b.calls[i] < 0x1_0000_0000 {
        assert g.names[i] in g.names;
      }
    }
    if Small(b.calls, |b.calls|) {
      forall f | f in Mentioned(rs, |rs|) ensures CallsBy(rs, |rs|, f) < 0x1_0000_0000 {
        var i :| 0 <= i < |g.names| && g.names[i] == f;
        assert b.calls[i] < 0x1_0000_0000;
      }
    }
  }

  lemma {:induction false} PermutationLength(order: seq<nat>, n: nat)
    requires Permutes(order, n)
    ensures |order| == n
    decreases n
  {
    if n == 0 {
      PermutesNothing(order);
    } else {
      assert n - 1 in order;
      var k :| 0 <= k < |order| && order[k] == n - 1;
      PermutesWithout(order, n, k);
      PermutationLength(order[..k] + order[k + 1..], n - 1);
    }
  }

  lemma {:induction false} LinesInOrder(t: seq<Node>, names: seq<string>, mods: seq<Module>, lines: seq<Line>)
    requires Tree(t, names) && |t| <= |mods| && Prints(mods, lines, InOrder(t, 0))
    requires forall i | 0 <= i < |t| :: mods[i].name == names[i]
    ensures forall i, j | 0 <= i < j < |lines| :: Before(lines[i].name, lines[j].name)
  {
    var order := InOrder(t, 0);
    forall i, j | 0 <= i < j < |lines| ensures Before(lines[i].name, lines[j].name) {
      assert Less(names[order[i]], names[order[j]]);
      LessMeans(lines[i].name, lines[j].name);
    }
  }

  lemma {:induction false} LinesComplete(t: seq<Node>, g: Ledger, mods: seq<Module>, lines: seq<Line>, rs: seq<Record>)
    requires Tree(t, g.names) && |t| <= |mods| && Prints(mods, lines, InOrder(t, 0))
    requires (forall i | 0 <= i < |t| :: mods[i].name == g.names[i]) && Tells(g, rs)
    ensures Complete(lines, rs)
  {
    var order := InOrder(t, 0);
    PermutationLength(order, |t|);
    LinesInOrder(t, g.names, mods, lines);
    forall f | f in Mentioned(rs, |rs|) ensures exists i :: 0 <= i < |lines| && lines[i].name == f {
      var k :| 0 <= k < |g.names| && g.names[k] == f;
      assert k in order;
      var i :| 0 <= i < |order| && order[i] == k;
      assert lines[i].name == f;
    }
  }

  /** The module table as the books and the ledger have it. */
  ghost predicate Recorded(mods: seq<Module>, b: Books, names: seq<string>, uses: seq<nat>) {
    && |names| <= |mods| && |b.times| == |names| && |b.calls| == |names| && |uses| == |names|
    && forall i | 0 <= i < |names| :: RowAt(mods[i], b, names, uses, i)
  }

  ghost predicate RowAt(m: Module, b: Books, names: seq<string>, uses: seq<nat>, i: nat)
    requires i < |names| && i < |b.times| && i < |b.calls| && i < |uses|
  {
    m.name == names[i] && m.m_time == Wrap(b.times[i]) && m.m_calls == Wrap(b.calls[i]) && m.m_stkuse == uses[i]
  }

  lemma {:induction false} RowsTruthful(mods: seq<Module>, b: Books, uses: seq<nat>, g: Ledger, rs: seq<Record>, i: nat)
    requires Recorded(mods, b, g.names, uses) && Kept(b, g.names, g) && Tells(g, rs) && UsedBy(uses, g.names, rs, |rs|)
    requires i < |g.names|
    ensures Truthful(Printed(mods[i]), rs)
  {
    Settled(b, g);
    NarrowWraps(b.calls[i]);
    assert RowAt(mods[i], b, g.names, uses, i);
    LargestIs(rs, |rs|, g.names[i]);
    assert rs[..|rs|] == rs && g.names[i] in g.names;
  }

  lemma {:induction false} LinesTruthful(mods: seq<Module>, t: seq<Node>, b: Books, uses: seq<nat>, g: Ledger, rs: seq<Record>, lines: seq<Line>)
    requires Recorded(mods, b, g.names, uses) && Kept(b, g.names, g) && Tells(g, rs) && UsedBy(uses, g.names, rs, |rs|)
    requires Tree(t, g.names) && Prints(mods, lines, InOrder(t, 0))
    ensures forall i | 0 <= i < |lines| :: Truthful(lines[i], rs)
  {
    var order := InOrder(t, 0);
    forall i | 0 <= i < |lines| ensures Truthful(lines[i], rs) {
      assert order[i] < |t|;
      RowsTruthful(mods, b, uses, g, rs, order[i]);
    }
  }

  lemma {:induction false} TotalsFaithful(t: seq<Node>, b: Books, g: Ledger, rs: seq<Record>, calls: Unsigned, time: Unsigned)
    requires Kept(b, g.names, g) && Tells(g, rs) && Tree(t, g.names)
    requires Totals(0, InOrder(t, 0), HalfWords(b.calls), calls) && Totals(0, InOrder(t, 0), Words(b.times), time)
    ensures time == (Clock(rs, |rs|) - Pool(rs, |rs|)) % 0x1_0000_0000_0000_0000
    ensures AllCalls(rs) < 0x1_0000_0000_0000_0000 ==> (calls == AllCalls(rs) <==> CallsFit(rs))
  {
    ReportTotals(t, g.names, b, calls, time);
    Settled(b, g);
    SmallIsFit(b, g, rs);
  }

  lemma {:induction false} ReportFaithful(mods: seq<Module>, t: seq<Node>, b: Books, uses: seq<nat>, g: Ledger, rs: seq<Record>, p: Report)
    requires Recorded(mods, b, g.names, uses) && Kept(b, g.names, g) && Tells(g, rs) && UsedBy(uses, g.names, rs, |rs|)
    requires Tree(t, g.names) && Out(mods, b, InOrder(t, 0), 0, 0, p.lines, p.calls, p.time)
    requires p.stack == ExtentAfter(rs, |rs|)
    ensures Faithful(p, rs)
  {
    TotalsFaithful(t, b, g, rs, p.calls, p.time);
    LinesTruthful(mods, t, b, uses, g, rs, p.lines);
    LinesComplete(t, g, mods, p.lines, rs);
  }

  /** While time moves forward within one word, no reported time is truncated. */
  lemma {:induction false} TimesExact(rs: seq<Record>, f: string)
    requires Forward(rs, |rs|) && Accepted(rs, |rs|)
    requires forall i | 0 <= i < |rs| && Timed(rs[i]) :: rs[i].time < 0x1_0000_0000_0000_0000
    ensures var self, total := SelfTime(rs, |rs|, f), Clock(rs, |rs|) - Pool(rs, |rs|);
            && self % 0x1_0000_0000_0000_0000 == self
            && total % 0x1_0000_0000_0000_0000 == total
            && 0 <= self <= total
  {
    RunAccepts(rs, |rs|);
    TimesBounded(rs, f);
    RunTimes(rs, |rs|, f);
    RunOpen(rs, |rs|);
    WrapFits(SelfTime(rs, |rs|, f));
    WrapFits(Clock(rs, |rs|) - Pool(rs, |rs|));
  }

  lemma {:induction false} TimesBounded(rs: seq<Record>, f: string)
    requires Forward(rs, |rs|) && Run(rs, |rs|).Ok?
    requires forall i | 0 <= i < |rs| && Timed(rs[i]) :: rs[i].time < WORD
    ensures var g := Run(rs, |rs|).value; 0 <= Get(g.self, f) <= g.now - g.pool < WORD
  {
    ForwardRun(rs, |rs|);
    var g := Run(rs, |rs|).value;
    assert 0 <= Get(g.self, f) <= g.now - g.pool;
  }

  lemma {:induction false} WrapFits(x: int)
    requires 0 <= x < WORD
    ensures Wrap(x) == x
  {
  }

  /** From the trace file to the report, or to the failure of the first record refused. */
  method Analyze(rs: seq<Record>) returns (res: Result<Report>)
    ensures !Accepted(rs, |rs|) ==> res.Failed? && exists i :: 0 <= i < |rs| && Refused(rs, i, res.error)
    ensures Accepted(rs, |rs|) && Mentioned(rs, |rs|) == {} ==> res == Failed(NoFunctions)
    ensures Accepted(rs, |rs|) && Mentioned(rs, |rs|) != {} ==> res.Ok? && Faithful(res.value, rs)
  {
    var a := new Analyzer();
    var done := a.Process(rs);
    if done.Failed? {
      RunAccepts(rs, |rs|);
      return Failed(done.error);
    }
    RunTells(rs);
    res := a.Output(CloseAll(Run(rs, |rs|).value), rs);
    RunAccepts(rs, |rs|);
  }
}
