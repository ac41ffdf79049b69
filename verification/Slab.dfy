/**
  The slab allocator of buffer.c: items are carved from pages of 256, freed items go to a stack kept in
  pages of 1024 pointers and are handed out again last in, first out.
 */
module Slab {

  const ITEMS_PER_PAGE := 256
  const POINTERS_PER_PAGE := 1024

  /** Where the n-th item of a page starts. */
  function Offset(itemSize: nat, n: nat): nat {
    if n == 0 then 0 else Offset(itemSize, n - 1) + itemSize
  }

  lemma {:induction false} OffsetIs(itemSize: nat, n: nat)
    ensures Offset(itemSize, n) == n * itemSize
  {
    if n > 0 {
      OffsetIs(itemSize, n - 1);
      assert n * itemSize == (n - 1) * itemSize + itemSize;
    }
  }

  /** Address of the n-th item ever carved: 256 items to a page, in order. */
  function ItemAt(pages: seq<nat>, itemSize: nat, n: nat): nat
    requires n / ITEMS_PER_PAGE < |pages|
  {
    pages[n / ITEMS_PER_PAGE] + Offset(itemSize, n % ITEMS_PER_PAGE)
  }

  /** Memory of the given size at a and at b does not overlap. */
  predicate Disjoint(a: nat, b: nat, size: nat) {
    a + size <= b || b + size <= a
  }

  /** What malloc promises of the pages: none is at NULL and no two overlap. */
  ghost predicate PagesApart(pages: seq<nat>, itemSize: nat) {
    && (forall i | 0 <= i < |pages| :: pages[i] > 0)
    && forall i, j {:trigger pages[i], pages[j]} | 0 <= i < j < |pages| ::
         Disjoint(pages[i], pages[j], ITEMS_PER_PAGE * itemSize)
  }

  lemma {:induction false} Fits(itemSize: nat, m: nat, n: nat)
    requires m < n
    ensures Offset(itemSize, m) + itemSize <= Offset(itemSize, n)
  {
    if m + 1 < n {
      Fits(itemSize, m, n - 1);
    }
  }

  /** Items never overlap, wherever the pages are. */
  lemma {:induction false} ItemsApart(pages: seq<nat>, itemSize: nat, m: nat, n: nat)
    requires PagesApart(pages, itemSize) && m < n && n / ITEMS_PER_PAGE < |pages|
    ensures Disjoint(ItemAt(pages, itemSize, m), ItemAt(pages, itemSize, n), itemSize)
  {
    var p, q, i, j := m / ITEMS_PER_PAGE, n / ITEMS_PER_PAGE, m % ITEMS_PER_PAGE, n % ITEMS_PER_PAGE;
    OffsetIs(itemSize, ITEMS_PER_PAGE);
    Fits(itemSize, i, ITEMS_PER_PAGE);
    Fits(itemSize, j, ITEMS_PER_PAGE);
    if p == q {
      Fits(itemSize, i, j);
    } else {
      assert Disjoint(pages[p], pages[q], ITEMS_PER_PAGE * itemSize);
    }
  }

  /** A page offset is at the end of the page exactly when all its items are carved. */
  lemma {:induction false} PageFull(itemSize: nat, n: nat)
    requires itemSize > 0 && n <= ITEMS_PER_PAGE
    ensures Offset(itemSize, n) == ITEMS_PER_PAGE * itemSize <==> n == ITEMS_PER_PAGE
  {
    OffsetIs(itemSize, ITEMS_PER_PAGE);
    if n < ITEMS_PER_PAGE {
      Fits(itemSize, n, ITEMS_PER_PAGE);
    }
  }

  /** The items carved so far, page by page. */
  ghost predicate Layout(pages: seq<nat>, itemSize: nat, items: seq<nat>) {
    && itemSize > 0 && PagesApart(pages, itemSize)
    && |items| <= |pages| * ITEMS_PER_PAGE
    && forall n {:trigger items[n]} | 0 <= n < |items| :: items[n] == ItemAt(pages, itemSize, n)
  }

  lemma {:induction false} LayoutApart(pages: seq<nat>, itemSize: nat, items: seq<nat>, m: nat, n: nat)
    requires Layout(pages, itemSize, items) && m < n < |items|
    ensures Disjoint(items[m], items[n], itemSize) && items[m] > 0
  {
    ItemsApart(pages, itemSize, m, n);
    assert pages[m / ITEMS_PER_PAGE] > 0;
  }

  /** The next item comes at the offset on the last page. */
  lemma {:induction false} LayoutNext(pages: seq<nat>, itemSize: nat, items: seq<nat>)
    requires Layout(pages, itemSize, items) && pages != []
    requires (|pages| - 1) * ITEMS_PER_PAGE <= |items| < |pages| * ITEMS_PER_PAGE
    ensures var n := |items| - (|pages| - 1) * ITEMS_PER_PAGE;
            var a := pages[|pages| - 1] + Offset(itemSize, n);
            Layout(pages, itemSize, items + [a]) && a > 0
  {
    var n := |items| - (|pages| - 1) * ITEMS_PER_PAGE;
    PlaceOf(|items|, |pages| - 1, n);
    assert pages[|pages| - 1] > 0;
  }

  lemma {:induction false} PlaceOf(n: nat, page: nat, rest: nat)
    requires n == page * ITEMS_PER_PAGE + rest && rest < ITEMS_PER_PAGE
    ensures n / ITEMS_PER_PAGE == page && n % ITEMS_PER_PAGE == rest
  {
  }

  lemma {:induction false} NextIsNew(pages: seq<nat>, itemSize: nat, items: seq<nat>, a: nat)
    requires Layout(pages, itemSize, items + [a]) && itemSize > 0
    ensures a !in items
  {
    var all := items + [a];
    forall m | 0 <= m < |items| ensures items[m] != a {
      LayoutApart(pages, itemSize, all, m, |items|);
      assert all[m] == items[m];
    }
  }

  // ---------- the paged stack ----------

  function Flat(pages: seq<seq<nat>>): seq<nat> {
    if pages == [] then [] else Flat(pages[..|pages| - 1]) + pages[|pages| - 1]
  }

  ghost predicate FullPages(pages: seq<seq<nat>>) {
    forall i | 0 <= i < |pages| :: |pages[i]| == POINTERS_PER_PAGE
  }

  /** The pointers on the stack: all of the lower pages and the first `offset` of the last page. */
  function Stack(pages: seq<seq<nat>>, offset: nat): seq<nat>
    requires pages != [] && offset <= |pages[|pages| - 1]|
  {
    Flat(pages[..|pages| - 1]) + pages[|pages| - 1][..offset]
  }

  lemma {:induction false} FlatLength(pages: seq<seq<nat>>)
    requires FullPages(pages)
    ensures |Flat(pages)| == |pages| * POINTERS_PER_PAGE
  {
    if pages != [] {
      FlatLength(pages[..|pages| - 1]);
    }
  }

  lemma {:induction false} StackPush(pages: seq<seq<nat>>, offset: nat, page: seq<nat>, a: nat)
    requires FullPages(pages) && pages != [] && offset < POINTERS_PER_PAGE
    requires page == pages[|pages| - 1][offset := a]
    ensures FullPages(pages[|pages| - 1 := page])
    ensures Stack(pages[|pages| - 1 := page], offset + 1) == Stack(pages, offset) + [a]
  {
    var n := |pages| - 1;
    assert pages[n := page][..n] == pages[..n];
    assert page[..offset + 1] == pages[n][..offset] + [a];
  }

  // ---------- live and free items ----------

  /** Every item carved is either live or on the free stack, and on the stack only once. */
  ghost predicate Sound(items: seq<nat>, live: set<nat>, free: seq<nat>) {
    && 0 !in items
    && (forall i, j {:trigger free[i], free[j]} | 0 <= i < j < |free| :: free[i] != free[j])
    && (forall i {:trigger free[i]} | 0 <= i < |free| :: free[i] !in live && free[i] in items)
    && (forall a {:trigger a in live} | a in live :: a in items)
    && |items| == |live| + |free|
  }

  lemma {:induction false} SoundPop(items: seq<nat>, live: set<nat>, free: seq<nat>, a: nat)
    requires Sound(items, live, free + [a])
    ensures a != 0 && a !in live && Sound(items, live + {a}, free)
  {
    var all := free + [a];
    assert all[|free|] == a;
    assert forall i {:trigger free[i]} | 0 <= i < |free| :: free[i] == all[i];
  }

  /** The page counters: the next item starts at the offset on the current page.  (Pages() states this as an
      equivalence, so that it is carried along as one fact.) */
  ghost predicate Paged(pages: seq<nat>, itemSize: nat, items: seq<nat>, nPage: nat, currentPage: nat, pageOffset: nat) {
    && currentPage < nPage
    && |pages| == currentPage + 1
    && Layout(pages, itemSize, items)
    && currentPage * ITEMS_PER_PAGE <= |items|
    && pageOffset == Offset(itemSize, |items| - currentPage * ITEMS_PER_PAGE)
  }

  lemma {:induction false} Spread(n: nat, m: nat, itemSize: nat)
    requires m <= n
    ensures m * itemSize + Offset(itemSize, n - m) == n * itemSize
  {
    OffsetIs(itemSize, n - m);
  }

  class Buffer {
    const itemSize: nat
    var nPage: nat
    var currentPage: nat
    var pageOffset: nat
    var pages: seq<nat>         // where each page starts
    var nFreePage: nat
    var currentFreePage: nat
    var freePageOffset: nat
    var freePages: seq<seq<nat>>

    ghost var items: seq<nat>   // the items carved so far
    ghost var live: set<nat>    // items handed out and not freed since

    /** Where the next item comes from. */
    ghost predicate Pages()
      reads this
    {
      Paged(pages, itemSize, items, nPage, currentPage, pageOffset) <==> true
    }

    ghost predicate FreePages()
      reads this
    {
      && currentFreePage < nFreePage
      && |freePages| == currentFreePage + 1
      && FullPages(freePages)
      && freePageOffset <= POINTERS_PER_PAGE
    }

    /** The freed items, the next one to be handed out last. */
    ghost function FreeStack(): seq<nat>
      requires FreePages()
      reads this
    {
      Stack(freePages, freePageOffset)
    }

    ghost predicate Valid()
      reads this
    {
      Pages() && FreePages() && Sound(items, live, FreeStack())
    }

    /** What malloc promises of a new page: it is not NULL and overlaps no page in use. */
    ghost predicate Unused(page: nat)
      reads this
    {
      page > 0 && forall i | 0 <= i < |pages| :: Disjoint(pages[i], page, ITEMS_PER_PAGE * itemSize)
    }

    /** newBuffer; page is where malloc puts the first page. */
    constructor (size: nat, page: nat)
      requires size > 0 && page > 0
      ensures Valid() && itemSize == size && live == {} && FreeStack() == []
    {
      itemSize := size;
      nPage, currentPage, pageOffset := 1, 0, 0;
      nFreePage, currentFreePage, freePageOffset := 1, 0, 0;
      pages := [page];
      freePages := [seq(POINTERS_PER_PAGE, _ => 0)];
      items, live := [], {};
    }

    /** The counters account for every item carved. */
    lemma {:induction false} Accounting()
      requires Valid()
      ensures |items| == |live| + currentFreePage * POINTERS_PER_PAGE + freePageOffset
      ensures currentPage * ITEMS_PER_PAGE * itemSize + pageOffset == |items| * itemSize
    {
      FlatLength(freePages[..currentFreePage]);
      Spread(|items|, currentPage * ITEMS_PER_PAGE, itemSize);
    }

    /** No two live slots overlap. */
    lemma {:induction false} LiveApart(a: nat, b: nat)
      requires Valid() && a in live && b in live && a != b
      ensures Disjoint(a, b, itemSize)
    {
      assert a in items && b in items;
      var m :| 0 <= m < |items| && items[m] == a;
      var n :| 0 <= n < |items| && items[n] == b;
      if m < n {
        LayoutApart(pages, itemSize, items, m, n);
      } else {
        LayoutApart(pages, itemSize, items, n, m);
      }
    }

    /** The top of the free stack, across a page boundary if need be. */
    method PopFree() returns (found: bool, a: nat)
      requires FreePages()
      modifies this`currentFreePage, this`freePageOffset, this`freePages
      ensures FreePages() && (found <==> old(FreeStack()) != [])
      ensures if found then old(FreeStack()) == FreeStack() + [a] else FreeStack() == []
    {
      a := 0;
      if freePageOffset > 0 {
        freePageOffset := freePageOffset - 1;
      } else if currentFreePage > 0 {
        freePages := freePages[..currentFreePage];
        currentFreePage := currentFreePage - 1;
        freePageOffset := POINTERS_PER_PAGE - 1;
      } else {
        assert freePages[..0] == [];
        return false, 0;
      }
      return true, freePages[currentFreePage][freePageOffset];
    }

    /** checkFreeBuffer: the item freed last, NULL (0) if there is none. */
    method CheckFree() returns (a: nat)
      requires Valid()
      modifies this`currentFreePage, this`freePageOffset, this`freePages, this`live
      ensures Valid()
      ensures a == 0 <==> old(FreeStack()) == []
      ensures a == 0 ==> live == old(live) && FreeStack() == []
      ensures a != 0 ==> a !in old(live) && live == old(live) + {a} && old(FreeStack()) == FreeStack() + [a]
    {
      var found;
      found, a := PopFree();
      if !found {
        return 0;
      }
      SoundPop(items, live, FreeStack(), a);
      live := live + {a};
    }

    /** A page for more items when the current one is full. */
    method ExtendPages(page: nat)
      requires Pages() && Unused(page)
      modifies this`nPage, this`currentPage, this`pageOffset, this`pages
      ensures Pages() && |items| < |pages| * ITEMS_PER_PAGE
      ensures pages == old(pages) || pages == old(pages) + [page]
    {
      PageFull(itemSize, |items| - currentPage * ITEMS_PER_PAGE);
      if pageOffset == ITEMS_PER_PAGE * itemSize {
        if currentPage == nPage - 1 {
          nPage := nPage * 2;
        }
        pages := pages + [page];
        currentPage := currentPage + 1;
        pageOffset := 0;
      }
    }

    /** The next item of the current page, or the first one of a new page. */
    method Carve(page: nat) returns (a: nat)
      requires Pages() && Unused(page)
      modifies this`nPage, this`currentPage, this`pageOffset, this`pages, this`items
      ensures Pages() && items == old(items) + [a] && a !in old(items) && a > 0
    {
      ExtendPages(page);
      LayoutNext(pages, itemSize, items);
      a := pages[currentPage] + pageOffset;
      NextIsNew(pages, itemSize, items, a);
      pageOffset := pageOffset + itemSize;
      items := items + [a];
    }

    /** allocateBuffer; page is where malloc puts a new page if one is needed. */
    method Allocate(page: nat) returns (a: nat)
      requires Valid() && Unused(page)
      modifies this
      ensures Valid()
      ensures a != 0 && a !in old(live) && live == old(live) + {a}
      ensures old(FreeStack()) != [] ==> old(FreeStack()) == FreeStack() + [a] && items == old(items)
      ensures old(FreeStack()) == [] ==> FreeStack() == [] && items == old(items) + [a] && a !in old(items)
    {
      a := CheckFree();
      if a == 0 {
        a := CarveLive(page);
      }
    }

    /** With nothing free, a new item goes straight to the caller. */
    method CarveLive(page: nat) returns (a: nat)
      requires Valid() && FreeStack() == [] && Unused(page)
      modifies this`nPage, this`currentPage, this`pageOffset, this`pages, this`items, this`live
      ensures Valid() && FreeStack() == []
      ensures a != 0 && a !in old(items) && a !in old(live) && live == old(live) + {a} && items == old(items) + [a]
    {
      ghost var before := items;
      a := Carve(page);
      live := live + {a};
    }

    /** A page for more freed pointers when the last one is full. */
    method ExtendFreePages()
      requires FreePages()
      modifies this`nFreePage, this`currentFreePage, this`freePageOffset, this`freePages
      ensures FreePages() && FreeStack() == old(FreeStack()) && freePageOffset < POINTERS_PER_PAGE
    {
      if freePageOffset == POINTERS_PER_PAGE {
        if currentFreePage == nFreePage - 1 {
          nFreePage := nFreePage * 2;
        }
        currentFreePage := currentFreePage + 1;
        freePages := freePages + [seq(POINTERS_PER_PAGE, _ => 0)];
        freePageOffset := 0;
        assert freePages[..currentFreePage] == old(freePages);
      }
    }

    /** freeBuffer: callers free only items that are live. */
    method Free(a: nat)
      requires Valid() && a in live
      modifies this`nFreePage, this`currentFreePage, this`freePageOffset, this`freePages, this`live
      ensures Valid()
      ensures live == old(live) - {a} && FreeStack() == old(FreeStack()) + [a]
    {
      ExtendFreePages();
      var page: seq<nat> := freePages[currentFreePage][freePageOffset := a];
      StackPush(freePages, freePageOffset, page, a);
      freePages := freePages[currentFreePage := page];
      freePageOffset := freePageOffset + 1;
      live := live - {a};
    }
  }
}
