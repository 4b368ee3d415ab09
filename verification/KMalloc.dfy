/** The kernel heap's block allocator: kernel/mm/kmalloc.c. Addresses are counted in units of one block
    header (8 bytes); a block is its header and the units after it that the header counts. */
module KMalloc {
  import opened Common
  import KernelState
  import KHeap

  const UNITS_PER_PAGE: nat := 512
  /** The heap's first page and the end of those that have a page-table entry. */
  const HEAP_FIRST: nat := 0xC_0800
  const HEAP_END: nat := 0xC_0C00

  /** The free list in order and the headers callers hold, both as addresses; the size in every header; and
      the pages taken from the kernel heap. Where blocks overlap one header may belong to several of them. */
  datatype Heap = Heap(list: seq<nat>, live: set<nat>, sizes: map<nat, nat>, pages: set<nat>)
  {
    function Size(a: nat): nat {
      if a in sizes then sizes[a] else 0
    }
  }

  predicate IsBlock(h: Heap, a: nat) {
    a in h.list || a in h.live
  }

  /** Unit u belongs to the block at a, header included. */
  predicate Holds(h: Heap, a: nat, u: nat) {
    a <= u <= a + h.Size(a)
  }

  predicate Apart(h: Heap, a: nat, b: nat) {
    a + h.Size(a) < b || b + h.Size(b) < a
  }

  ghost predicate Covered(h: Heap, u: nat) {
    exists a :: IsBlock(h, a) && Holds(h, a, u)
  }

  ghost predicate Distinct(list: seq<nat>) {
    forall i, j :: 0 <= i < j < |list| ==> list[i] != list[j]
  }

  /** What holds of every heap, tiled or not. */
  ghost predicate Sound(h: Heap) {
    && Distinct(h.list)
    && (forall a :: IsBlock(h, a) ==> a in h.sizes)
    && (forall a :: a in h.sizes ==> a / UNITS_PER_PAGE in h.pages)
    && (forall u: nat :: Covered(h, u) ==> u / UNITS_PER_PAGE in h.pages)
  }

  ghost predicate FreeOrLive(h: Heap) {
    forall a :: a in h.list ==> a !in h.live
  }

  ghost predicate BlocksApart(h: Heap) {
    forall a, b :: IsBlock(h, a) && IsBlock(h, b) && a != b ==> Apart(h, a, b)
  }

  ghost predicate Filled(h: Heap) {
    forall u: nat :: u / UNITS_PER_PAGE in h.pages ==> Covered(h, u)
  }

  /** No block is both free and in use, no two share a unit, and together they fill exactly the pages taken. */
  ghost predicate Tiles(h: Heap) {
    Sound(h) && FreeOrLive(h) && BlocksApart(h) && Filled(h)
  }

  /* ---------- The effect of the calls ---------- */

  /** Where the new header goes when a block is split. `Written` is the code's arithmetic; `Intended` is the one
      that cuts the block into two. */
  datatype SplitRule = Written | Intended

  function NewAddress(rule: SplitRule, b: nat, size: nat, units: nat): nat
    requires units < size
  {
    if rule == Written then b + size - units - 1 else b + size - units
  }

  /** What the old header is left with. As written it may be the new header, which was just given `units`. */
  function RestSize(rule: SplitRule, size: nat, units: nat): nat
    requires units < size
  {
    if rule == Intended then size - units - 1 else if size == units + 1 then 0 else size - units
  }

  function Index(list: seq<nat>, x: nat): (i: nat)
    requires x in list
    ensures i < |list| && list[i] == x
  {
    if list[0] == x then 0 else 1 + Index(list[1..], x)
  }

  /** The list once the link behind x is NULL. */
  function UpTo(list: seq<nat>, x: nat): seq<nat> {
    if x in list then list[..Index(list, x) + 1] else list
  }

  function Without(list: seq<nat>, i: nat): seq<nat>
    requires i < |list|
  {
    list[..i] + list[i + 1..]
  }

  predicate Fits(h: Heap, units: nat, i: nat) {
    i < |h.list| && units <= h.Size(h.list[i])
  }

  predicate Splits(h: Heap, i: nat, units: nat)
    requires Fits(h, units, i)
  {
    units < h.Size(h.list[i])
  }

  /** The header of the block handed out. */
  function TakenAt(rule: SplitRule, h: Heap, i: nat, units: nat): nat
    requires Fits(h, units, i)
  {
    if Splits(h, i, units) then NewAddress(rule, h.list[i], h.Size(h.list[i]), units) else h.list[i]
  }

  /** Taking `units` units from the block at list position i. */
  function Take(rule: SplitRule, h: Heap, i: nat, units: nat): Heap
    requires Fits(h, units, i)
  {
    var b, x := h.list[i], TakenAt(rule, h, i, units);
    if !Splits(h, i, units) then h.(list := Without(h.list, i), live := h.live + {b})
    else
      h.(list := UpTo(h.list, x), live := h.live + {x},
         sizes := h.sizes[x := units][b := RestSize(rule, h.Size(b), units)])
  }

  /** The new header is the one whose link leads to the block: the link then reads NULL, and the code goes on
      to write through it. */
  predicate TakeFaults(rule: SplitRule, h: Heap, i: nat, units: nat)
    requires Fits(h, units, i)
  {
    0 < i && Splits(h, i, units) && TakenAt(rule, h, i, units) == h.list[i - 1]
  }

  /** The list after kfree's walk and stores. A header that is still listed ends the list. */
  function Appended(list: seq<nat>, a: nat): seq<nat> {
    if a in list then UpTo(list, a) else list + [a]
  }

  /** kfree */
  function Release(h: Heap, a: nat): Heap {
    h.(list := Appended(h.list, a), live := h.live - {a})
  }

  function PageAddress(p: nat): nat {
    UNITS_PER_PAGE * p
  }

  /** increase_heap_size with the pages [p, p + n): one free block at the end of the list. */
  ghost function Grow(h: Heap, p: nat, n: nat): Heap
    requires n > 0
  {
    h.(list := h.list + [PageAddress(p)], sizes := h.sizes[PageAddress(p) := UNITS_PER_PAGE * n - 1],
       pages := h.pages + Interval(p, p + n))
  }

  /* ---------- Lists ---------- */

  lemma {:induction false} IndexOfDistinct(list: seq<nat>, i: nat)
    requires Distinct(list) && i < |list|
    ensures Index(list, list[i]) == i
  {
    assert list[Index(list, list[i])] == list[i];
  }

  lemma UpToFacts(list: seq<nat>, x: nat)
    requires Distinct(list)
    ensures Distinct(UpTo(list, x)) && |UpTo(list, x)| <= |list|
    ensures forall i :: 0 <= i < |UpTo(list, x)| ==> UpTo(list, x)[i] == list[i]
    ensures x in list ==> UpTo(list, x) != [] && UpTo(list, x)[|UpTo(list, x)| - 1] == x && x in UpTo(list, x)
    ensures forall a :: a in UpTo(list, x) ==> a in list
  {
  }

  lemma WithoutFacts(list: seq<nat>, i: nat)
    requires Distinct(list) && i < |list|
    ensures Distinct(Without(list, i)) && |Without(list, i)| == |list| - 1
    ensures forall j :: 0 <= j < |list| - 1 ==> Without(list, i)[j] == list[if j < i then j else j + 1]
    ensures forall a :: a in Without(list, i) <==> a in list && a != list[i]
  {
    var rest := Without(list, i);
    assert list == list[..i] + ([list[i]] + list[i + 1..]);
    assert forall j :: 0 <= j < |list| - 1 ==> rest[j] == list[if j < i then j else j + 1];
    forall a
      ensures a in rest <==> a in list && a != list[i]
    {
      if a in rest {
        var j :| 0 <= j < |rest| && rest[j] == a;
      }
    }
  }

  /* ---------- Every heap stays sound ---------- */

  lemma GrowSound(h: Heap, p: nat, n: nat)
    requires Sound(h) && n > 0 && h.pages !! Interval(p, p + n)
    ensures Sound(Grow(h, p, n)) && !IsBlock(h, PageAddress(p))
    ensures forall a :: IsBlock(Grow(h, p, n), a) <==> IsBlock(h, a) || a == PageAddress(p)
    ensures forall a :: IsBlock(h, a) ==> Grow(h, p, n).Size(a) == h.Size(a)
    ensures forall u: nat :: Covered(Grow(h, p, n), u) <==> Covered(h, u) || p <= u / UNITS_PER_PAGE < p + n
  {
    var t, x := Grow(h, p, n), PageAddress(p);
    assert x / UNITS_PER_PAGE == p && p in Interval(p, p + n);
    FreshUnits(p, n);
    forall u: nat
      ensures Covered(t, u) <==> Covered(h, u) || p <= u / UNITS_PER_PAGE < p + n
    {
      if Covered(t, u) {
        var a :| IsBlock(t, a) && Holds(t, a, u);
        assert a != x ==> IsBlock(h, a) && Holds(h, a, u);
      }
      if Covered(h, u) {
        var a :| IsBlock(h, a) && Holds(h, a, u);
        assert IsBlock(t, a) && Holds(t, a, u);
      }
      if p <= u / UNITS_PER_PAGE < p + n {
        assert IsBlock(t, x) && Holds(t, x, u);
      }
    }
  }

  lemma FreshUnits(p: nat, n: nat)
    requires n > 0
    ensures forall u: nat :: PageAddress(p) <= u <= PageAddress(p) + (UNITS_PER_PAGE * n - 1) <==>
        p <= u / UNITS_PER_PAGE < p + n
  {
  }

  lemma ReleaseSound(h: Heap, a: nat)
    requires Sound(h) && a in h.live
    ensures Sound(Release(h, a))
    ensures forall b :: IsBlock(Release(h, a), b) ==> IsBlock(h, b)
    ensures a !in h.list ==> forall b :: IsBlock(h, b) ==> IsBlock(Release(h, a), b)
    ensures a in Release(h, a).list
  {
    UpToFacts(h.list, a);
    var t := Release(h, a);
    forall u: nat | Covered(t, u)
      ensures Covered(h, u)
    {
      var b :| IsBlock(t, b) && Holds(t, b, u);
      assert IsBlock(h, b) && Holds(h, b, u);
    }
  }

  /** A block after a take lies inside one from before; besides the two parts sizes are unchanged. */
  lemma TakeParts(rule: SplitRule, h: Heap, i: nat, units: nat)
    requires Distinct(h.list) && Fits(h, units, i)
    ensures var t, b, x := Take(rule, h, i, units), h.list[i], TakenAt(rule, h, i, units);
            && (forall a :: IsBlock(t, a) ==> IsBlock(h, a) || a == x)
            && (forall a :: a != b && a != x ==> t.Size(a) == h.Size(a))
            && b <= x && x + t.Size(x) <= b + h.Size(b) && t.Size(b) <= h.Size(b)
  {
    UpToFacts(h.list, TakenAt(rule, h, i, units));
    WithoutFacts(h.list, i);
  }

  lemma TakeSound(rule: SplitRule, h: Heap, i: nat, units: nat)
    requires Sound(h) && Fits(h, units, i)
    ensures Sound(Take(rule, h, i, units))
    ensures forall u: nat :: Covered(Take(rule, h, i, units), u) ==> Covered(h, u)
  {
    var t, b, x := Take(rule, h, i, units), h.list[i], TakenAt(rule, h, i, units);
    TakeParts(rule, h, i, units);
    UpToFacts(h.list, x);
    WithoutFacts(h.list, i);
    assert IsBlock(h, b);
    forall u: nat | Covered(t, u)
      ensures Covered(h, u)
    {
      var a :| IsBlock(t, a) && Holds(t, a, u);
      if a == x || a == b {
        assert Holds(h, b, u);
      } else {
        assert IsBlock(h, a) && Holds(h, a, u);
      }
    }
    assert Holds(h, b, x) && Covered(h, x);
  }

  /* ---------- Tiling ---------- */

  lemma GrowTiles(h: Heap, p: nat, n: nat)
    requires Tiles(h) && n > 0 && h.pages !! Interval(p, p + n)
    ensures Tiles(Grow(h, p, n))
  {
    GrowSound(h, p, n);
    GrowApart(h, p, n);
    hide BlocksApart, Sound, Covered;
  }

  lemma GrowApart(h: Heap, p: nat, n: nat)
    requires Sound(h) && BlocksApart(h) && n > 0 && h.pages !! Interval(p, p + n)
    ensures BlocksApart(Grow(h, p, n))
  {
    var t, x := Grow(h, p, n), PageAddress(p);
    GrowSound(h, p, n);
    hide Sound, Grow;
    forall a, b | IsBlock(t, a) && IsBlock(t, b) && a != b
      ensures Apart(t, a, b)
    {
      if a == x {
        FreshApart(h, p, n, b);
      } else if b == x {
        FreshApart(h, p, n, a);
      }
    }
  }

  lemma FreshApart(h: Heap, p: nat, n: nat, a: nat)
    requires Sound(h) && n > 0 && h.pages !! Interval(p, p + n) && IsBlock(h, a)
    ensures Apart(Grow(h, p, n), a, PageAddress(p))
  {
    GrowSound(h, p, n);
    FreshUnits(p, n);
    var u := Max(a, PageAddress(p));
    assert Holds(h, a, u) ==> Covered(h, u);
    assert p <= u / UNITS_PER_PAGE < p + n ==> u / UNITS_PER_PAGE in Interval(p, p + n);
  }

  lemma ReleaseTiles(h: Heap, a: nat)
    requires Tiles(h) && a in h.live
    ensures Tiles(Release(h, a))
  {
    ReleaseSound(h, a);
    SameBlocksTile(h, Release(h, a));
    hide BlocksApart, Sound, Filled;
  }

  lemma SameBlocksTile(h: Heap, t: Heap)
    requires BlocksApart(h) && Filled(h) && t.pages == h.pages
    requires forall a :: IsBlock(h, a) <==> IsBlock(t, a)
    requires forall a :: IsBlock(h, a) ==> t.Size(a) == h.Size(a)
    ensures BlocksApart(t) && Filled(t)
  {
    SameCover(h, t);
    hide Covered;
    forall a, b | IsBlock(t, a) && IsBlock(t, b) && a != b
      ensures Apart(t, a, b)
    {
      assert Apart(h, a, b);
    }
  }

  lemma SameCover(h: Heap, t: Heap)
    requires forall a :: IsBlock(h, a) ==> IsBlock(t, a) && t.Size(a) == h.Size(a)
    ensures forall u: nat :: Covered(h, u) ==> Covered(t, u)
  {
    forall u: nat | Covered(h, u)
      ensures Covered(t, u)
    {
      var a :| IsBlock(h, a) && Holds(h, a, u);
      assert IsBlock(t, a) && Holds(t, a, u);
    }
  }

  lemma ExactTakeTiles(rule: SplitRule, h: Heap, i: nat, units: nat)
    requires Tiles(h) && Fits(h, units, i) && !Splits(h, i, units)
    ensures Tiles(Take(rule, h, i, units))
  {
    var t := Take(rule, h, i, units);
    TakeSound(rule, h, i, units);
    WithoutFacts(h.list, i);
    hide Sound, Without;
    assert FreeOrLive(t);
    forall a
      ensures IsBlock(t, a) <==> IsBlock(h, a)
    {
    }
    SameBlocksTile(h, t);
  }

  /** t is h with block b cut into b and x, and nothing else changed. */
  ghost predicate Cut(h: Heap, t: Heap, b: nat, x: nat) {
    && t.pages == h.pages && IsBlock(h, b) && !IsBlock(h, x)
    && (forall a :: IsBlock(t, a) <==> IsBlock(h, a) || a == x)
    && (forall a :: IsBlock(h, a) && a != b ==> t.Size(a) == h.Size(a))
    && x == b + t.Size(b) + 1 && x + t.Size(x) == b + h.Size(b)
  }

  lemma SplitCuts(h: Heap, i: nat, units: nat)
    requires Fits(h, units, i) && Splits(h, i, units) && FreeOrLive(h) && !IsBlock(h, TakenAt(Intended, h, i, units))
    ensures Cut(h, Take(Intended, h, i, units), h.list[i], TakenAt(Intended, h, i, units))
    ensures FreeOrLive(Take(Intended, h, i, units))
  {
    hide Take, Cut, FreeOrLive;
    TakeIntended(h, i, units);
    CutInTwo(h, h.list[i], TakenAt(Intended, h, i, units), units);
  }

  lemma SplitOutside(h: Heap, i: nat, units: nat)
    requires Tiles(h) && Fits(h, units, i) && Splits(h, i, units)
    ensures !IsBlock(h, TakenAt(Intended, h, i, units))
  {
    InsideNoBlock(h, h.list[i], TakenAt(Intended, h, i, units));
  }

  lemma TakeIntended(h: Heap, i: nat, units: nat)
    requires Fits(h, units, i) && Splits(h, i, units) && TakenAt(Intended, h, i, units) !in h.list
    ensures var b, x := h.list[i], TakenAt(Intended, h, i, units);
            && x == b + h.Size(b) - units
            && Take(Intended, h, i, units)
            == h.(live := h.live + {x}, sizes := h.sizes[x := units][b := h.Size(b) - units - 1])
  {
  }

  lemma CutInTwo(h: Heap, b: nat, x: nat, units: nat)
    requires b in h.list && units < h.Size(b) && x == b + h.Size(b) - units && !IsBlock(h, x)
    ensures var t := h.(live := h.live + {x}, sizes := h.sizes[x := units][b := h.Size(b) - units - 1]);
            Cut(h, t, b, x) && (FreeOrLive(h) ==> FreeOrLive(t))
  {
  }

  lemma IntendedSplitTiles(h: Heap, i: nat, units: nat)
    requires Tiles(h) && Fits(h, units, i) && Splits(h, i, units)
    ensures Tiles(Take(Intended, h, i, units))
  {
    TakeSound(Intended, h, i, units);
    SplitOutside(h, i, units);
    SplitCuts(h, i, units);
    hide Sound, Take, TakenAt, Cut, BlocksApart, Filled, FreeOrLive;
    CutApart(h, Take(Intended, h, i, units), h.list[i], TakenAt(Intended, h, i, units));
    CutFilled(h, Take(Intended, h, i, units), h.list[i], TakenAt(Intended, h, i, units));
  }

  lemma CutApart(h: Heap, t: Heap, b: nat, x: nat)
    requires BlocksApart(h) && Cut(h, t, b, x)
    ensures BlocksApart(t)
  {
    forall a | IsBlock(h, a) && a != b
      ensures Apart(t, a, b) && Apart(t, a, x)
    {
      assert Apart(h, a, b);
    }
    forall a, c | IsBlock(t, a) && IsBlock(t, c) && a != c
      ensures Apart(t, a, c)
    {
      assert a != b && a != x && c != b && c != x ==> Apart(h, a, c);
    }
  }

  lemma CutFilled(h: Heap, t: Heap, b: nat, x: nat)
    requires Filled(h) && Cut(h, t, b, x)
    ensures Filled(t)
  {
    hide IsBlock;
    forall u: nat | u / UNITS_PER_PAGE in h.pages
      ensures Covered(t, u)
    {
      assert Covered(h, u);
      var a :| IsBlock(h, a) && Holds(h, a, u);
      assert a != b ==> Holds(t, a, u);
      assert a == b ==> Holds(t, b, u) || Holds(t, x, u);
    }
  }

  /** No other block starts inside one. */
  lemma InsideNoBlock(h: Heap, b: nat, x: nat)
    requires Tiles(h) && IsBlock(h, b) && Holds(h, b, x)
    ensures IsBlock(h, x) ==> x == b
  {
    assert IsBlock(h, x) && x != b ==> Apart(h, x, b);
  }

  /** Taking a block keeps the tiling exactly when the fit is exact or the split is the intended one. */
  lemma TakeTilesIff(rule: SplitRule, h: Heap, i: nat, units: nat)
    requires Tiles(h) && Fits(h, units, i)
    ensures Tiles(Take(rule, h, i, units)) <==> rule == Intended || !Splits(h, i, units)
  {
    hide Take, Splits, Distinct, FreeOrLive, BlocksApart, Filled, Sound, NestedOnly, Broken;
    if !Splits(h, i, units) {
      ExactTakeTiles(rule, h, i, units);
    } else if rule == Intended {
      IntendedSplitTiles(h, i, units);
    } else {
      TiledNestedOnly(h);
      WrittenSplitBreaks(h, i, units);
      BrokenNotTiled(Take(Written, h, i, units));
    }
  }

  /** The block handed out has exactly the units asked for, except where the split as written puts its header
      on the old one, which is then left with none. */
  lemma TakenSize(rule: SplitRule, h: Heap, i: nat, units: nat)
    requires Fits(h, units, i) && h.list[i] in h.sizes
    ensures var t, x := Take(rule, h, i, units), TakenAt(rule, h, i, units);
            && x in t.live && t.live == h.live + {x}
            && t.Size(x) == if rule == Written && h.Size(h.list[i]) == units + 1 then 0 else units
  {
  }

  /** Where the parts of a split block lie. As intended the rest, the new header and its units fill the block.
      As written the new block ends one unit short of it, and the rest reaches one unit past the new header. */
  lemma SplitParts(rule: SplitRule, h: Heap, i: nat, units: nat)
    requires Fits(h, units, i) && units < h.Size(h.list[i])
    ensures var b, x, t := h.list[i], TakenAt(rule, h, i, units), Take(rule, h, i, units);
            match rule
            case Intended => x + units == b + h.Size(b) && b + t.Size(b) + 1 == x
            case Written => x + units + 1 == b + h.Size(b) && (b < x ==> b + t.Size(b) == x + 1)
    ensures var x, t := TakenAt(rule, h, i, units), Take(rule, h, i, units);
            && t.pages == h.pages
            && (forall a :: a != h.list[i] && a != x ==> t.Size(a) == h.Size(a))
            && (x !in h.list ==> t.list == h.list)
  {
  }

  /** The code writes through the NULL it just stored exactly when the block before in the list starts where the
      new header goes, as in a heap with overlapping blocks. */
  lemma TakeFaultsIff(rule: SplitRule, h: Heap, i: nat, units: nat)
    requires Fits(h, units, i)
    ensures TakeFaults(rule, h, i, units) <==>
            && 0 < i && units < h.Size(h.list[i])
            && h.list[i - 1] + units + (if rule == Written then 1 else 0) == h.list[i] + h.Size(h.list[i])
    ensures TakeFaults(Written, Heap([515, 512], {}, map[515 := 6, 512 := 10], {1}), 1, 6)
  {
    assert [515, 512][1] == 512;
  }

  /** An exact fit is handed out where it is and leaves the list; nothing else changes. */
  lemma ExactTake(rule: SplitRule, h: Heap, i: nat, units: nat)
    requires Fits(h, units, i) && units == h.Size(h.list[i])
    ensures TakenAt(rule, h, i, units) == h.list[i]
    ensures Take(rule, h, i, units)
         == Heap(h.list[..i] + h.list[i + 1..], h.live + {h.list[i]}, h.sizes, h.pages)
  {
  }

  /** A freed block becomes the last of the list; one that is still listed becomes the last by losing those
      behind it. No size and no page changes. */
  lemma ReleaseLast(h: Heap, a: nat)
    ensures var t := Release(h, a);
            && t == Heap(t.list, h.live - {a}, h.sizes, h.pages) && t.list != [] && t.list[|t.list| - 1] == a
            && (if a !in h.list then t.list == h.list + [a] else t.list <= h.list && a !in t.list[..|t.list| - 1])
  {
    if a in h.list {
      FirstIndex(h.list, a);
    }
  }

  lemma {:induction false} FirstIndex(list: seq<nat>, x: nat)
    requires x in list
    ensures x !in list[..Index(list, x)]
  {
    if list[0] != x {
      FirstIndex(list[1..], x);
      assert list[..Index(list, x)] == [list[0]] + list[1..][..Index(list[1..], x)];
    }
  }

  /** In a tiled heap the pointer the code writes through is never the header it just made. */
  lemma TiledTakeSafe(rule: SplitRule, h: Heap, i: nat, units: nat)
    requires Tiles(h) && Fits(h, units, i)
    ensures !TakeFaults(rule, h, i, units)
  {
    TakeParts(rule, h, i, units);
    InsideNoBlock(h, h.list[i], TakenAt(rule, h, i, units));
  }

  /** A request of 6 units from a block of 7 puts both headers in one place; from a block of 10 they overlap. */
  lemma WrittenSplitWitness()
    ensures var h := Heap([512], {}, map[512 := 7], {1});
            TakenAt(Written, h, 0, 6) == 512 && Take(Written, h, 0, 6).Size(512) == 0
    ensures var h := Heap([512], {}, map[512 := 10], {1});
            var t := Take(Written, h, 0, 6);
            TakenAt(Written, h, 0, 6) == 515 && Holds(t, 512, 516) && Holds(t, 515, 516)
  {
  }

  /* ---------- Splits as written ---------- */

  /** A unit of the heap's pages that no block holds. */
  ghost predicate Lost(h: Heap, u: nat) {
    u / UNITS_PER_PAGE in h.pages && !Covered(h, u)
  }

  /** Block c is the last unit but one of block b: what a request for zero units leaves when split as written. */
  predicate Nested(h: Heap, c: nat, b: nat) {
    h.Size(c) == 0 && h.Size(b) >= 2 && c == b + h.Size(b) - 1
  }

  ghost predicate NestedSomewhere(h: Heap, c: nat) {
    exists b :: IsBlock(h, b) && Nested(h, c, b)
  }

  /** Blocks overlap at most that way, and only such a block may be free and in use at once. */
  ghost predicate NestedOnly(h: Heap) {
    && Sound(h)
    && (forall b, c :: IsBlock(h, b) && IsBlock(h, c) && b != c ==>
          Apart(h, b, c) || Nested(h, b, c) || Nested(h, c, b))
    && (forall a :: a in h.list && a in h.live ==> NestedSomewhere(h, a))
  }

  ghost predicate Overlapping(h: Heap) {
    NestedOnly(h) && exists c :: IsBlock(h, c) && NestedSomewhere(h, c)
  }

  /** What a split as written leads to: a unit no block holds, or blocks that overlap. */
  ghost predicate Broken(h: Heap) {
    Sound(h) && (Overlapping(h) || exists u: nat :: Lost(h, u))
  }

  lemma BrokenNotTiled(h: Heap)
    requires Broken(h)
    ensures !Tiles(h)
  {
    if Overlapping(h) {
      var c :| IsBlock(h, c) && NestedSomewhere(h, c);
      var b :| IsBlock(h, b) && Nested(h, c, b);
      assert b != c && !Apart(h, b, c);
    }
  }

  lemma TiledNestedOnly(h: Heap)
    requires Tiles(h)
    ensures NestedOnly(h)
  {
  }

  /** The last unit of a block with any units is held by no other. */
  lemma LastUnitAlone(h: Heap, y: nat, a: nat)
    requires NestedOnly(h) && IsBlock(h, y) && h.Size(y) > 0 && IsBlock(h, a) && a != y
    ensures !Holds(h, a, y + h.Size(y))
  {
    assert Apart(h, a, y) || Nested(h, a, y) || Nested(h, y, a);
  }

  /** Whatever drops some blocks of such a heap, but not all that are nested, leaves it broken: when a block with
      units goes, its last unit is lost, and otherwise an overlap stays. */
  lemma FewerBlocks(h: Heap, t: Heap, c: nat)
    requires NestedOnly(h) && Sound(t) && t.pages == h.pages
    requires forall a :: IsBlock(t, a) ==> IsBlock(h, a) && t.Size(a) == h.Size(a)
    requires forall a :: a in t.list && a in t.live ==> NestedSomewhere(h, a)
    requires IsBlock(t, c) && NestedSomewhere(h, c)
    ensures Broken(t)
  {
    if y: nat :| IsBlock(h, y) && h.Size(y) > 0 && !IsBlock(t, y) {
      var u := y + h.Size(y);
      assert Holds(h, y, u) && Covered(h, u);
      forall a | IsBlock(t, a)
        ensures !Holds(t, a, u)
      {
        LastUnitAlone(h, y, a);
      }
      assert Lost(t, u);
    } else {
      forall a | IsBlock(t, a) && NestedSomewhere(h, a)
        ensures NestedSomewhere(t, a)
      {
        var b :| IsBlock(h, b) && Nested(h, a, b);
        assert IsBlock(t, b) && Nested(t, a, b);
      }
      assert NestedOnly(t);
    }
  }

  /** A split as written of a heap whose blocks overlap at most that way breaks it. */
  lemma WrittenSplitBreaks(h: Heap, i: nat, units: nat)
    requires NestedOnly(h) && Fits(h, units, i) && Splits(h, i, units)
    ensures Broken(Take(Written, h, i, units))
  {
    TakeSound(Written, h, i, units);
    if units == 0 && h.Size(h.list[i]) >= 2 {
      ZeroSplitOverlaps(h, i);
    } else {
      SplitLosesUnit(h, i, units);
      assert Lost(Take(Written, h, i, units), h.list[i] + h.Size(h.list[i]));
    }
  }

  /** Unless the request is for zero units, the last unit of the block is in neither part. */
  lemma SplitLosesUnit(h: Heap, i: nat, units: nat)
    requires NestedOnly(h) && Fits(h, units, i) && Splits(h, i, units) && (units == 0 ==> h.Size(h.list[i]) < 2)
    ensures Lost(Take(Written, h, i, units), h.list[i] + h.Size(h.list[i]))
  {
    var t, b, x := Take(Written, h, i, units), h.list[i], TakenAt(Written, h, i, units);
    var u := b + h.Size(b);
    TakeParts(Written, h, i, units);
    assert IsBlock(h, b) && Holds(h, b, u) && Covered(h, u);
    forall a | IsBlock(t, a)
      ensures !Holds(t, a, u)
    {
      if a != b && a != x {
        LastUnitAlone(h, b, a);
      }
    }
  }

  lemma ZeroSplitOverlaps(h: Heap, i: nat)
    requires NestedOnly(h) && i < |h.list| && h.Size(h.list[i]) >= 2
    ensures Broken(Take(Written, h, i, 0))
  {
    var b, t := h.list[i], Take(Written, h, i, 0);
    var x := b + h.Size(b) - 1;
    var g := h.(live := h.live + {x}, sizes := h.sizes[x := 0]);
    NestedAdded(h, b);
    TakeSound(Written, h, i, 0);
    UpToFacts(h.list, x);
    assert t.sizes == g.sizes[b := h.Size(b)];
    hide NestedOnly, NestedSomewhere, Sound, UpTo;
    FewerBlocks(g, t, x);
  }

  /** Handing out, once more or for the first time, the last unit but one of a block. */
  lemma NestedAdded(h: Heap, b: nat)
    requires NestedOnly(h) && b in h.list && h.Size(b) >= 2
    ensures var x := b + h.Size(b) - 1;
            var g := h.(live := h.live + {x}, sizes := h.sizes[x := 0]);
            NestedOnly(g) && NestedSomewhere(g, x) && IsBlock(g, x) && g.Size(b) == h.Size(b)
            && forall a :: IsBlock(h, a) ==> g.Size(a) == h.Size(a)
  {
    var x := b + h.Size(b) - 1;
    var g := h.(live := h.live + {x}, sizes := h.sizes[x := 0]);
    assert IsBlock(h, b) && Holds(h, b, x) && Covered(h, x);
    forall a | IsBlock(h, a) && a != b
      ensures a == x ==> h.Size(a) == 0
      ensures a != x ==> Apart(g, a, x) || Nested(g, a, x) || Nested(g, x, a)
    {
      assert Apart(h, a, b) || Nested(h, a, b) || Nested(h, b, a);
    }
    assert Nested(g, x, b) && IsBlock(g, b);
    NestedAddedSound(h, b);
    hide Sound;
    forall a, c | IsBlock(g, a) && IsBlock(g, c) && a != c
      ensures Apart(g, a, c) || Nested(g, a, c) || Nested(g, c, a)
    {
      assert a != x && c != x ==> Apart(h, a, c) || Nested(h, a, c) || Nested(h, c, a);
    }
    forall a | a in h.list && a in h.live
      ensures NestedSomewhere(g, a)
    {
      assert NestedSomewhere(h, a);
      var y :| IsBlock(h, y) && Nested(h, a, y);
      assert IsBlock(g, y) && Nested(g, a, y);
    }
  }

  lemma NestedAddedSound(h: Heap, b: nat)
    requires Sound(h) && b in h.list && h.Size(b) >= 2
    requires var x := b + h.Size(b) - 1; IsBlock(h, x) ==> h.Size(x) == 0
    ensures var x := b + h.Size(b) - 1; Sound(h.(live := h.live + {x}, sizes := h.sizes[x := 0]))
  {
    var x := b + h.Size(b) - 1;
    var g := h.(live := h.live + {x}, sizes := h.sizes[x := 0]);
    assert IsBlock(h, b) && Holds(h, b, x) && Covered(h, x);
    forall u: nat | Covered(g, u)
      ensures u / UNITS_PER_PAGE in h.pages
    {
      var a :| IsBlock(g, a) && Holds(g, a, u);
      if a == x {
        assert Covered(h, x);
      } else {
        assert IsBlock(h, a) && Holds(h, a, u) && Covered(h, u);
      }
    }
  }

  /* ---------- Runs ---------- */

  datatype Action = Growing(page: nat, n: nat) | Taking(index: nat, units: nat) | Releasing(address: nat)

  /** Growth takes pages the heap does not have, a split does not fault, and callers free what they hold. */
  ghost predicate Enabled(rule: SplitRule, h: Heap, act: Action) {
    match act
    case Growing(p, n) => n > 0 && h.pages !! Interval(p, p + n)
    case Taking(i, units) => Fits(h, units, i) && !TakeFaults(rule, h, i, units)
    case Releasing(a) => a in h.live
  }

  ghost function Apply(rule: SplitRule, h: Heap, act: Action): Heap
    requires Enabled(rule, h, act)
  {
    match act
    case Growing(p, n) => Grow(h, p, n)
    case Taking(i, units) => Take(rule, h, i, units)
    case Releasing(a) => Release(h, a)
  }

  ghost predicate Runs(rule: SplitRule, h: Heap, acts: seq<Action>)
    decreases |acts|
  {
    acts == [] || (Enabled(rule, h, acts[0]) && Runs(rule, Apply(rule, h, acts[0]), acts[1..]))
  }

  ghost function Run(rule: SplitRule, h: Heap, acts: seq<Action>): Heap
    requires Runs(rule, h, acts)
    decreases |acts|
  {
    if acts == [] then h else Run(rule, Apply(rule, h, acts[0]), acts[1..])
  }

  /** The action splits no block, or splits it as intended. */
  ghost predicate Clean(rule: SplitRule, h: Heap, act: Action)
    requires Enabled(rule, h, act)
  {
    act.Taking? ==> rule == Intended || !Splits(h, act.index, act.units)
  }

  ghost predicate AllClean(rule: SplitRule, h: Heap, acts: seq<Action>)
    requires Runs(rule, h, acts)
    decreases |acts|
  {
    acts == [] || (Clean(rule, h, acts[0]) && AllClean(rule, Apply(rule, h, acts[0]), acts[1..]))
  }

  lemma ApplyTiles(rule: SplitRule, h: Heap, act: Action)
    requires Tiles(h) && Enabled(rule, h, act) && Clean(rule, h, act)
    ensures Tiles(Apply(rule, h, act))
  {
    match act
    case Growing(p, n) => GrowTiles(h, p, n);
    case Taking(i, units) => TakeTilesIff(rule, h, i, units);
    case Releasing(a) => ReleaseTiles(h, a);
  }

  /** No action brings a lost unit back. */
  lemma LostStaysLost(rule: SplitRule, h: Heap, act: Action, u: nat)
    requires Sound(h) && Enabled(rule, h, act) && Lost(h, u)
    ensures Sound(Apply(rule, h, act)) && Lost(Apply(rule, h, act), u)
  {
    match act
    case Growing(p, n) =>
      GrowSound(h, p, n);
      assert u / UNITS_PER_PAGE !in Interval(p, p + n);
    case Taking(i, units) => TakeSound(rule, h, i, units);
    case Releasing(a) =>
      ReleaseSound(h, a);
      SameCover(Release(h, a), h);
  }

  /** An overlap stays, or a unit is lost. */
  lemma OverlapStays(h: Heap, act: Action)
    requires Enabled(Written, h, act) && Overlapping(h)
    ensures Broken(Apply(Written, h, act))
  {
    var c :| IsBlock(h, c) && NestedSomewhere(h, c);
    match act
    case Growing(p, n) => GrowKeepsOverlap(h, p, n);
    case Taking(i, units) =>
      if Splits(h, i, units) {
        WrittenSplitBreaks(h, i, units);
      } else {
        TakeSound(Written, h, i, units);
        WithoutFacts(h.list, i);
        FewerBlocks(h, Take(Written, h, i, units), c);
      }
    case Releasing(a) =>
      ReleaseSound(h, a);
      UpToFacts(h.list, a);
      FewerBlocks(h, Release(h, a), if a in h.list then a else c);
  }

  lemma GrowKeepsOverlap(h: Heap, p: nat, n: nat)
    requires Overlapping(h) && n > 0 && h.pages !! Interval(p, p + n)
    ensures Broken(Grow(h, p, n))
  {
    var t, x := Grow(h, p, n), PageAddress(p);
    GrowSound(h, p, n);
    forall a | IsBlock(h, a)
      ensures Apart(t, a, x)
    {
      FreshApart(h, p, n, a);
    }
    forall a | IsBlock(h, a) && NestedSomewhere(h, a)
      ensures NestedSomewhere(t, a)
    {
      var b :| IsBlock(h, b) && Nested(h, a, b);
      assert IsBlock(t, b) && Nested(t, a, b);
    }
  }

  lemma {:induction false} BrokenForever(h: Heap, acts: seq<Action>)
    requires Runs(Written, h, acts) && Broken(h)
    ensures Broken(Run(Written, h, acts))
    decreases |acts|
  {
    if acts != [] {
      if Overlapping(h) {
        OverlapStays(h, acts[0]);
      } else {
        var u: nat :| Lost(h, u);
        LostStaysLost(Written, h, acts[0], u);
      }
      BrokenForever(Apply(Written, h, acts[0]), acts[1..]);
    }
  }

  /** Over any run of growing, allocating and freeing the blocks are disjoint, listed once and fill exactly the
      pages taken if and only if no block was split as written: after one such split they never are again. */
  lemma {:induction false} RunsTileIff(rule: SplitRule, h: Heap, acts: seq<Action>)
    requires Tiles(h) && Runs(rule, h, acts)
    ensures Tiles(Run(rule, h, acts)) <==> AllClean(rule, h, acts)
    decreases |acts|
  {
    if acts != [] {
      var t := Apply(rule, h, acts[0]);
      if Clean(rule, h, acts[0]) {
        ApplyTiles(rule, h, acts[0]);
        RunsTileIff(rule, t, acts[1..]);
      } else {
        TiledNestedOnly(h);
        WrittenSplitBreaks(h, acts[0].index, acts[0].units);
        BrokenForever(t, acts[1..]);
        BrokenNotTiled(Run(rule, h, acts));
      }
    }
  }

  /* ---------- Units ---------- */

  ghost function Blocks(h: Heap): set<nat> {
    (set i | 0 <= i < |h.list| :: h.list[i]) + h.live
  }

  /** The units of these blocks, headers included. */
  ghost function UnitsOf(h: Heap, blocks: set<nat>): nat {
    if blocks == {} then 0 else var a :| a in blocks; h.Size(a) + 1 + UnitsOf(h, blocks - {a})
  }

  lemma {:induction false} IntervalSize(lo: nat, hi: nat)
    requires lo <= hi
    ensures |Interval(lo, hi)| == hi - lo
    decreases hi
  {
    if lo < hi {
      IntervalSize(lo, hi - 1);
      UnionSize(Interval(lo, hi - 1), {hi - 1});
    }
  }

  lemma UnionSize(a: set<nat>, b: set<nat>)
    requires a !! b
    ensures |a + b| == |a| + |b|
  {
  }

  lemma Peeled(s: set<nat>, part: set<nat>)
    requires part <= s
    ensures |s| == |s - part| + |part|
  {
    UnionSize(s - part, part);
    assert s - part + part == s;
  }

  ghost predicate HeldBy(h: Heap, blocks: set<nat>, u: nat) {
    exists a :: a in blocks && Holds(h, a, u)
  }

  /** Disjoint blocks have as many units as they hold. */
  lemma {:induction false} UnitsCounted(h: Heap, blocks: set<nat>, held: set<nat>)
    requires forall a, b :: a in blocks && b in blocks && a != b ==> Apart(h, a, b)
    requires forall u: nat :: u in held <==> HeldBy(h, blocks, u)
    ensures |held| == UnitsOf(h, blocks)
    decreases blocks
  {
    if blocks == {} {
      assert held == {};
    } else {
      var a :| a in blocks && UnitsOf(h, blocks) == h.Size(a) + 1 + UnitsOf(h, blocks - {a});
      var own := Interval(a, a + h.Size(a) + 1);
      OthersHold(h, blocks, a, own);
      IntervalSize(a, a + h.Size(a) + 1);
      hide Interval, HeldBy, Apart, UnitsOf, Holds;
      var others, rest := blocks - {a}, held - own;
      forall u: nat
        ensures u in rest <==> HeldBy(h, others, u)
      {
        assert u in held <==> HeldBy(h, blocks, u);
      }
      assert forall b, c :: b in others && c in others && b != c ==> Apart(h, b, c);
      UnitsCounted(h, others, rest);
      assert own <= held;
      Peeled(held, own);
    }
  }

  lemma OthersHold(h: Heap, blocks: set<nat>, a: nat, own: set<nat>)
    requires a in blocks && (forall b :: b in blocks && b != a ==> Apart(h, a, b))
        && own == Interval(a, a + h.Size(a) + 1)
    ensures forall u: nat :: HeldBy(h, blocks - {a}, u) <==> HeldBy(h, blocks, u) && u !in own
    ensures forall u: nat :: u in own ==> HeldBy(h, blocks, u)
  {
    forall u: nat
      ensures HeldBy(h, blocks - {a}, u) <==> HeldBy(h, blocks, u) && u !in own
      ensures u in own ==> HeldBy(h, blocks, u)
    {
      assert Holds(h, a, u) <==> u in own;
      if HeldBy(h, blocks, u) && u !in own {
        var b :| b in blocks && Holds(h, b, u);
        assert b in blocks - {a};
      }
      if HeldBy(h, blocks - {a}, u) {
        var b :| b in blocks - {a} && Holds(h, b, u);
        assert b in blocks && Apart(h, a, b);
      }
    }
  }

  ghost function PageUnits(p: nat): (own: set<nat>)
    ensures forall u: nat :: u in own <==> u / UNITS_PER_PAGE == p
  {
    Interval(UNITS_PER_PAGE * p, UNITS_PER_PAGE * p + UNITS_PER_PAGE)
  }

  lemma PageUnitsSize(p: nat)
    ensures |PageUnits(p)| == UNITS_PER_PAGE
  {
    IntervalSize(UNITS_PER_PAGE * p, UNITS_PER_PAGE * p + UNITS_PER_PAGE);
  }

  lemma {:induction false} PagesCounted(pages: set<nat>, units: set<nat>)
    requires forall u: nat :: u in units <==> u / UNITS_PER_PAGE in pages
    ensures |units| == UNITS_PER_PAGE * |pages|
    decreases pages
  {
    if pages == {} {
      assert units == {};
    } else {
      var p :| p in pages;
      PageUnitsSize(p);
      hide PageUnits;
      var others, rest := pages - {p}, units - PageUnits(p);
      PagesCounted(others, rest);
      Peeled(units, PageUnits(p));
      Peeled(pages, {p});
    }
  }

  ghost function {:induction false} UnitsIn(pages: set<nat>): (units: set<nat>)
    ensures forall u: nat :: u in units <==> u / UNITS_PER_PAGE in pages
  {
    if pages == {} then {}
    else
      var p :| p in pages;
      UnitsIn(pages - {p}) + PageUnits(p)
  }

  /** In a tiled heap the units of all blocks, free and in use, are exactly those of the pages taken. */
  lemma TiledUnits(h: Heap)
    requires Tiles(h)
    ensures UnitsOf(h, Blocks(h)) == UNITS_PER_PAGE * |h.pages|
  {
    var units := UnitsIn(h.pages);
    TiledHeld(h);
    hide Tiles, Blocks, HeldBy, Apart;
    UnitsCounted(h, Blocks(h), units);
    PagesCounted(h.pages, units);
  }

  lemma TiledHeld(h: Heap)
    requires Tiles(h)
    ensures forall u: nat :: u / UNITS_PER_PAGE in h.pages <==> HeldBy(h, Blocks(h), u)
    ensures forall a, b :: a in Blocks(h) && b in Blocks(h) && a != b ==> Apart(h, a, b)
  {
    forall u: nat
      ensures u / UNITS_PER_PAGE in h.pages <==> HeldBy(h, Blocks(h), u)
    {
      CoveredHeld(h, u);
    }
    forall a, b | a in Blocks(h) && b in Blocks(h) && a != b
      ensures Apart(h, a, b)
    {
      assert IsBlock(h, a) && IsBlock(h, b);
    }
  }

  lemma CoveredHeld(h: Heap, u: nat)
    ensures Covered(h, u) <==> HeldBy(h, Blocks(h), u)
  {
    if Covered(h, u) {
      var a :| IsBlock(h, a) && Holds(h, a, u);
      assert a in Blocks(h);
    }
    if HeldBy(h, Blocks(h), u) {
      var a :| a in Blocks(h) && Holds(h, a, u);
      assert IsBlock(h, a);
    }
  }

  /* ---------- The free list in memory ---------- */

  /** struct block_header; next 0 is NULL. */
  datatype Header = Header(next: nat, size: nat)

  type Headers = map<nat, Header>

  function AddressAt(list: seq<nat>, i: nat): nat {
    if i < |list| then list[i] else 0
  }

  ghost predicate NodeOk(headers: Headers, list: seq<nat>, i: nat)
    requires i < |list|
  {
    list[i] != 0 && list[i] in headers && headers[list[i]].next == AddressAt(list, i + 1)
  }

  /** From `head` the headers link these addresses, in order, to NULL. */
  ghost predicate Linked(headers: Headers, head: nat, list: seq<nat>) {
    head == AddressAt(list, 0) && Distinct(list) && forall i :: 0 <= i < |list| ==> NodeOk(headers, list, i)
  }

  ghost predicate SizesAre(headers: Headers, sizes: map<nat, nat>) {
    headers.Keys == sizes.Keys && forall a :: a in headers ==> headers[a].size == sizes[a]
  }

  /** The node whose link leads to position i; 0 for the list head. */
  function Previous(list: seq<nat>, i: nat): nat {
    if 0 < i <= |list| then list[i - 1] else 0
  }

  lemma LinkedAt(headers: Headers, head: nat, list: seq<nat>, i: nat)
    requires Linked(headers, head, list) && i < |list|
    ensures list[i] != 0 && list[i] in headers && headers[list[i]].next == AddressAt(list, i + 1)
  {
    assert NodeOk(headers, list, i);
  }

  /** Writing a header with a NULL link ends the list there, if it is listed. */
  lemma LinkedCut(headers: Headers, head: nat, list: seq<nat>, x: nat, size: nat)
    requires Linked(headers, head, list)
    ensures Linked(headers[x := Header(0, size)], head, UpTo(list, x))
  {
    UpToFacts(list, x);
    var cut, t := UpTo(list, x), headers[x := Header(0, size)];
    forall i | 0 <= i < |cut|
      ensures NodeOk(t, cut, i)
    {
      assert NodeOk(headers, list, i);
    }
  }

  lemma LinkedResized(headers: Headers, head: nat, list: seq<nat>, b: nat, size: nat)
    requires Linked(headers, head, list) && b in headers
    ensures Linked(headers[b := headers[b].(size := size)], head, list)
  {
    var t := headers[b := headers[b].(size := size)];
    forall i | 0 <= i < |list|
      ensures NodeOk(t, list, i)
    {
      assert NodeOk(headers, list, i);
    }
  }

  /** The two stores of kfree: the last link, then the header's own. */
  function Hung(headers: Headers, prev: nat, a: nat): Headers
    requires (prev != 0 ==> prev in headers) && a in headers
  {
    var headers1 := if prev == 0 then headers else headers[prev := headers[prev].(next := a)];
    headers1[a := headers1[a].(next := 0)]
  }

  lemma LinkedHung(headers: Headers, head: nat, list: seq<nat>, a: nat)
    requires Linked(headers, head, list) && a != 0 && a in headers
    ensures Previous(list, |list|) != 0 ==> Previous(list, |list|) in headers
    ensures Previous(list, |list|) == 0 <==> list == []
    ensures Linked(Hung(headers, Previous(list, |list|), a), if list == [] then a else head, Appended(list, a))
  {
    var n := |list|;
    assert n > 0 ==> NodeOk(headers, list, n - 1);
    var after, t := Appended(list, a), Hung(headers, Previous(list, n), a);
    UpToFacts(list, a);
    forall i | 0 <= i < |after|
      ensures NodeOk(t, after, i)
    {
      if i < n {
        assert NodeOk(headers, list, i);
        assert after[i] == list[i];
        assert i < n - 1 ==> list[i] != list[n - 1];
      }
    }
  }

  lemma LinkedUnlink(headers: Headers, head: nat, list: seq<nat>, i: nat)
    requires Linked(headers, head, list) && i < |list|
    ensures i > 0 ==> list[i - 1] != 0 && list[i - 1] in headers
    ensures var next := AddressAt(list, i + 1);
            Linked(if i == 0 then headers else headers[list[i - 1] := headers[list[i - 1]].(next := next)],
                   if i == 0 then next else head, Without(list, i))
  {
    if i > 0 {
      assert NodeOk(headers, list, i - 1);
    }
    WithoutFacts(list, i);
    var rest := Without(list, i);
    var t := if i == 0 then headers else headers[list[i - 1] := headers[list[i - 1]].(next := AddressAt(list, i + 1))];
    forall j | 0 <= j < |rest|
      ensures NodeOk(t, rest, j)
    {
      var k := if j < i then j else j + 1;
      assert NodeOk(headers, list, k);
      assert i > 0 && k != i - 1 ==> list[k] != list[i - 1];
    }
  }

  /* ---------- The search of kmalloc ---------- */

  /** The pages increase_heap_size asks for. */
  function GrowthPages(units: nat): (n: nat)
    ensures n > 0
  {
    units / PAGE_SIZE + 1
  }

  /** The units they yield, the header not counted. */
  function GrowthSize(units: nat): nat {
    UNITS_PER_PAGE * GrowthPages(units) - 1
  }

  /** block_size as increase_heap_size computes it: the pages in units, less the header. */
  function BlockSize(n: nat): (size: nat)
    requires n > 0
    ensures size == UNITS_PER_PAGE * n - 1
  {
    (n * PAGE_SIZE + 8 - 1) / 8 - 1
  }

  /** Growing by units / 4096 + 1 pages covers the request exactly when it fits in one page. */
  lemma GrowthCoversIff(units: nat)
    ensures GrowthSize(units) >= units <==> units <= 511
  {
  }

  /** The header units for a request, with the 32-bit wrap of the rounding. */
  function UnitsFor(size: Word): (units: nat)
    ensures units < 0x2000_0000
  {
    Wrap32(size + 7) / 8
  }

  /** The least number of units that hold the request; none for the last seven sizes, where the rounding wraps. */
  lemma UnitsLeast(size: Word)
    ensures size <= 0xFFFF_FFF8 ==> size <= 8 * UnitsFor(size) < size + 8
    ensures size > 0xFFFF_FFF8 ==> UnitsFor(size) == 0
  {
    if size <= 0xFFFF_FFF8 {
      Wrap32Small(size + 7);
    } else {
      assert Wrap32(size + 7) == size + 7 - 0x1_0000_0000;
    }
  }

  /** The pages asked for are one for every 4096 units begun, the number of units being taken for bytes. */
  lemma GrowthPagesLeast(units: nat)
    ensures 4096 * (GrowthPages(units) - 1) <= units < 4096 * GrowthPages(units)
  {
  }

  lemma SmallRequests(size: Word)
    requires size <= 4088
    ensures UnitsFor(size) <= 511 && 8 * UnitsFor(size) >= size
  {
  }

  /** The first list position from i on that fits, or the end. */
  function FirstFit(h: Heap, units: nat, i: nat): (r: nat)
    requires i <= |h.list|
    ensures i <= r <= |h.list| && (r < |h.list| ==> Fits(h, units, r))
    ensures forall j: nat :: i <= j < r ==> !Fits(h, units, j)
    decreases |h.list| - i
  {
    if i == |h.list| || Fits(h, units, i) then i else FirstFit(h, units, i + 1)
  }

  /** The free heap pages are those of kheap_init, by page number. */
  ghost predicate HeapPages(pool: set<nat>) {
    forall p :: p in pool ==> HEAP_FIRST <= p < HEAP_FIRST + KHeap.INITIAL_PAGES
  }

  ghost function Starts(pool: set<nat>, n: nat): set<nat> {
    set p | p in pool && KHeap.Findable(pool, p, n)
  }

  datatype PagesResult = Pages(first: nat) | NoPages | Faulted

  /** alloc_kheap_pages on the free heap pages: the lowest run its search can see, a page fault when the run
      passes the heap's page table, or NULL when there is none. NULL is mapped like a page, and faults when the
      table is too short for that. */
  ghost function Growth(pool: set<nat>, n: nat): PagesResult {
    var starts := Starts(pool, n);
    if starts == {} then if n > HEAP_END - HEAP_FIRST then Faulted else NoPages
    else if Lowest(starts) + n > HEAP_END then Faulted
    else Pages(Lowest(starts))
  }

  /** n free pages from p on, within the bytes of the bitmap that n bits fill when the first byte is p's own. */
  ghost predicate SeenRun(pool: set<nat>, p: nat, n: nat) {
    p % 8 + n <= (n + 7) / 8 * 8 && forall q: nat :: p <= q < p + n ==> q in pool
  }

  ghost predicate LowestSeenRun(pool: set<nat>, p: nat, n: nat) {
    SeenRun(pool, p, n) && forall q: nat :: q < p ==> !SeenRun(pool, q, n)
  }

  /** For any number of pages growth takes the lowest run it can see, whenever that ends inside the page table;
      the only other outcomes are no run at all and a run or a NULL mapping past the table. */
  lemma GrowthIs(pool: set<nat>, n: nat, p: nat)
    requires n > 0
    ensures Growth(pool, n) == Pages(p) <==> LowestSeenRun(pool, p, n) && p + n <= 0xC_0C00
    ensures Growth(pool, n) == NoPages <==> n <= 1024 && forall q: nat :: !SeenRun(pool, q, n)
  {
    var starts := Starts(pool, n);
    forall q: nat
      ensures q in starts <==> SeenRun(pool, q, n)
    {
      SeenRunIff(pool, q, n);
    }
    hide SeenRun;
  }

  lemma SeenRunIff(pool: set<nat>, q: nat, n: nat)
    requires n > 0
    ensures q in Starts(pool, n) <==> SeenRun(pool, q, n)
  {
    KHeap.WindowBytesLeast(n);
    assert SeenRun(pool, q, n) ==> q in pool;
    assert KHeap.PagesFree(pool, q, n) <==> forall r: nat :: q <= r < q + n ==> r in pool;
  }

  ghost function Left(pool: set<nat>, p: nat, n: nat): set<nat> {
    pool - Interval(p, p + n)
  }

  lemma GrowthFacts(pool: set<nat>, n: nat)
    requires n > 0 && Growth(pool, n).Pages?
    ensures var p := Growth(pool, n).first;
            && KHeap.Findable(pool, p, n) && p in pool && p + n <= HEAP_END
            && Interval(p, p + n) <= pool && |Left(pool, p, n)| < |pool|
  {
    var p := Lowest(Starts(pool, n));
    var rest := Left(pool, p, n);
    assert p in Interval(p, p + n);
    assert pool == rest + (pool - rest) && p in pool - rest;
  }

  /** What kmalloc's search comes to: a list position in a heap that may have grown, with the heap pages left;
      no memory; or a store to a heap page without a page-table entry. */
  datatype Outcome = Found(heap: Heap, pool: set<nat>, i: nat) | NoMemory(heap: Heap, pool: set<nat>) | PageFault

  ghost function Search(h: Heap, pool: set<nat>, units: nat): Outcome
    decreases |pool|
  {
    var i, n := FirstFit(h, units, 0), GrowthPages(units);
    if i < |h.list| then Found(h, pool, i)
    else
      match Growth(pool, n)
      case Faulted => PageFault
      case NoPages => NoMemory(h, pool)
      case Pages(p) =>
        GrowthFacts(pool, n);
        Search(Grow(h, p, n), Left(pool, p, n), units)
  }

  /** The page numbers of the heap bitmap's one bits. */
  ghost function PoolOf(ones: set<nat>): set<nat> {
    set q | q in ones :: HEAP_FIRST + q
  }

  /** The heap starts at a multiple of eight pages, so its page numbers can stand for its bit numbers: the runs
      found are those get_free_continuous_blocks_address finds. */
  lemma PoolFindable(ones: set<nat>, p: nat, n: nat)
    ensures KHeap.Findable(PoolOf(ones), HEAP_FIRST + p, n) <==> KHeap.Findable(ones, p, n)
  {
    var pool := PoolOf(ones);
    assert (HEAP_FIRST + p) % 8 == p % 8;
    forall q: nat
      ensures q in ones <==> HEAP_FIRST + q in pool
    {
    }
    if KHeap.PagesFree(pool, HEAP_FIRST + p, n) {
      forall q: nat | p <= q < p + n
        ensures q in ones
      {
        assert HEAP_FIRST + q in pool;
      }
    }
    if KHeap.PagesFree(ones, p, n) {
      forall q: nat | HEAP_FIRST + p <= q < HEAP_FIRST + p + n
        ensures q in pool
      {
        assert q - HEAP_FIRST in ones;
      }
    }
  }

  /** alloc_kheap_pages on those bits: NULL and the run found are those of its search. */
  lemma GrowthMatches(ones: set<nat>, n: nat)
    requires 0 < n && KHeap.WindowBytes(n) + 1 <= KernelState.KHEAP_BITMAP_SIZE
    requires forall q: nat :: q in ones ==> q < KHeap.INITIAL_PAGES
    ensures Starts(PoolOf(ones), n) == {} <==> KHeap.NoWindowFree(ones, n, KHeap.Windows(n))
    ensures forall p: nat :: KHeap.PagesFree(ones, p, n) && KHeap.FirstInWindow(ones, p, n) ==>
              Starts(PoolOf(ones), n) != {} && Lowest(Starts(PoolOf(ones), n)) == HEAP_FIRST + p
  {
    var starts := Starts(PoolOf(ones), n);
    KHeap.SearchMissesIff(ones, n);
    forall p: nat
      ensures HEAP_FIRST + p in starts <==> KHeap.Findable(ones, p, n)
    {
      PoolFindable(ones, p, n);
      assert KHeap.Findable(ones, p, n) ==> p in ones;
    }
    forall x | x in starts
      ensures x >= HEAP_FIRST && KHeap.Findable(ones, x - HEAP_FIRST, n)
    {
      assert HEAP_FIRST + (x - HEAP_FIRST) == x;
    }
    forall p: nat | KHeap.PagesFree(ones, p, n) && KHeap.FirstInWindow(ones, p, n)
      ensures HEAP_FIRST + p in starts && Lowest(starts) == HEAP_FIRST + p
    {
      KHeap.SearchFindsLowest(ones, p, n);
    }
  }

  /** A heap page's unit address, eight bytes a unit, is the address get_free_continuous_blocks_address makes. */
  lemma PageAddressInBytes(p: nat)
    requires p < 1024
    ensures 8 * PageAddress(HEAP_FIRST + p) == KHeap.PageAddress(p) == 0xC080_0000 + 4096 * p
  {
    KHeap.PageAddressInverse(p);
  }

  /** kmalloc(32768) asks for two pages, and misses two that straddle a byte of the bitmap. */
  lemma StraddlingPagesMissed()
    ensures GrowthPages(UnitsFor(32768)) == 2
    ensures Starts(PoolOf({7, 8}), 2) == {} && KHeap.PagesFree(PoolOf({7, 8}), HEAP_FIRST + 7, 2)
  {
    var ones: set<nat> := {7, 8};
    KHeap.StraddlingRunMissed();
    PoolFindable(ones, 7, 2);
    PoolFindable(ones, 8, 2);
    assert forall p :: p in PoolOf(ones) ==> p == HEAP_FIRST + 7 || p == HEAP_FIRST + 8;
    assert KHeap.PagesFree(PoolOf(ones), HEAP_FIRST + 7, 2);
  }

  /** One page is found whenever one is free, the lowest first. */
  lemma OnePageStarts(pool: set<nat>)
    ensures Starts(pool, 1) == pool
  {
    forall p | p in pool
      ensures KHeap.Findable(pool, p, 1)
    {
      assert KHeap.PagesFree(pool, p, 1);
    }
  }

  /** For at most 511 units the search grows at most once, and then succeeds; it returns NULL exactly when no
      block fits and no heap page is left. */
  lemma SmallSearch(h: Heap, pool: set<nat>, units: nat)
    requires units <= 511 && Sound(h) && pool !! h.pages
    ensures Search(h, pool, units) ==
              if FirstFit(h, units, 0) < |h.list| then Found(h, pool, FirstFit(h, units, 0))
              else if pool == {} then NoMemory(h, pool)
              else if Lowest(pool) >= HEAP_END then PageFault
              else Found(Grow(h, Lowest(pool), 1), pool - {Lowest(pool)}, |h.list|)
  {
    OnePageStarts(pool);
    hide Starts, Sound;
    if FirstFit(h, units, 0) == |h.list| && Growth(pool, 1).Pages? {
      var p := Lowest(pool);
      GrowthFacts(pool, 1);
      OnePage(pool, p);
      hide Growth;
      GrownFits(h, p, 1, units);
    }
  }

  lemma OnePage(pool: set<nat>, p: nat)
    ensures Left(pool, p, 1) == pool - {p} && Interval(p, p + 1) == {p}
  {
  }

  /** After growth the blocks that did not fit still do not, and the fresh one does if it is large enough. */
  lemma GrownFits(h: Heap, p: nat, n: nat, units: nat)
    requires n > 0 && Sound(h) && h.pages !! Interval(p, p + n) && FirstFit(h, units, 0) == |h.list|
    ensures forall j: nat :: j < |h.list| ==> !Fits(Grow(h, p, n), units, j)
    ensures FirstFit(Grow(h, p, n), units, 0) == if units <= UNITS_PER_PAGE * n - 1 then |h.list| else |h.list| + 1
  {
    var t := Grow(h, p, n);
    GrowSound(h, p, n);
    hide Sound;
    forall j: nat | j < |h.list|
      ensures !Fits(t, units, j)
    {
      assert !Fits(h, units, j) && IsBlock(h, h.list[j]);
    }
    assert Fits(t, units, |h.list|) <==> units <= UNITS_PER_PAGE * n - 1;
  }

  /** For more than 511 units growth never helps: when nothing fits, kmalloc takes page after page and still
      does not succeed. */
  lemma {:induction false} LargeSearchFails(h: Heap, pool: set<nat>, units: nat)
    requires units > 511 && FirstFit(h, units, 0) == |h.list| && Sound(h) && h.pages !! pool
    ensures !Search(h, pool, units).Found?
    decreases |pool|
  {
    var n := GrowthPages(units);
    if Growth(pool, n).Pages? {
      var p := Growth(pool, n).first;
      GrowthFacts(pool, n);
      GrowthCoversIff(units);
      GrowSound(h, p, n);
      GrownFits(h, p, n, units);
      hide Growth, Sound, GrowthPages;
      LargeSearchFails(Grow(h, p, n), Left(pool, p, n), units);
    }
  }

  /** Whatever grew on the way, the heap searched is tiled if the one before was. */
  lemma {:induction false} SearchTiles(h: Heap, pool: set<nat>, units: nat)
    requires Tiles(h) && h.pages !! pool
    ensures match Search(h, pool, units)
            case Found(t, rest, _) => Tiles(t) && t.pages !! rest
            case NoMemory(t, rest) => Tiles(t) && t.pages !! rest
            case PageFault => true
    decreases |pool|
  {
    hide Tiles;
    var n := GrowthPages(units);
    if FirstFit(h, units, 0) == |h.list| && Growth(pool, n).Pages? {
      var p := Growth(pool, n).first;
      GrowthFacts(pool, n);
      GrowTiles(h, p, n);
      hide Growth;
      SearchTiles(Grow(h, p, n), Left(pool, p, n), units);
    }
  }

  /* ---------- The allocator ---------- */

  class Allocator {
    const rule: SplitRule
    /** blocks_info.free_blocks */
    var freeBlocks: nat
    var headers: Headers
    /** Kernel-heap pages that are free. */
    var pool: set<nat>
    ghost var heap: Heap

    ghost predicate Valid()
      reads this
    {
      && Sound(heap) && Linked(headers, freeBlocks, heap.list) && SizesAre(headers, heap.sizes)
      && HeapPages(pool) && pool !! heap.pages && 0 !in heap.pages
    }

    constructor (rule: SplitRule, pool: set<nat>)
      requires HeapPages(pool)
      ensures Valid() && this.rule == rule && this.pool == pool
      ensures heap == Heap([], {}, map[], {}) && Tiles(heap)
    {
      this.rule := rule;
      this.pool := pool;
      freeBlocks, headers := 0, map[];
      heap := Heap([], {}, map[], {});
    }

    /** alloc_kheap_pages, by its contract. After a NULL result the first n pages of the heap are mapped anew:
        nothing is promised about headers when the heap has one of those. */
    method AllocKheapPages(n: nat) returns (result: PagesResult)
      requires n > 0
      modifies this`pool, this`headers
      ensures result == Growth(old(pool), n)
      ensures result.Pages? ==> pool == Left(old(pool), result.first, n) && headers == old(headers)
      ensures result.NoPages? && heap.pages !! Interval(HEAP_FIRST, HEAP_FIRST + n)
          ==> pool == old(pool) && headers == old(headers)
    {
      var starts := set p | p in pool && p % 8 + n <= 8 * KHeap.WindowBytes(n) &&
                            forall q :: p <= q < p + n ==> q in pool;
      assert starts == Starts(pool, n) by {
        forall p | p in pool
          ensures KHeap.PagesFree(pool, p, n) <==> forall q :: p <= q < p + n ==> q in pool
        {
        }
      }
      if starts == {} {
        return if n > HEAP_END - HEAP_FIRST then Faulted else NoPages;
      }
      ghost var lowest := Lowest(starts);
      assert lowest in starts && forall q :: q in starts ==> lowest <= q;
      var p :| p in starts && forall q :: q in starts ==> p <= q;
      if p + n > HEAP_END {
        return Faulted;
      }
      pool := set q | q in pool && !(p <= q < p + n);
      assert pool == Left(old(pool), p, n);
      return Pages(p);
    }

    /** Walk to the end of the list and hang the header there: the body of kfree. */
    method Append(a: nat)
      requires Linked(headers, freeBlocks, heap.list) && a != 0 && a in headers
      modifies this`freeBlocks, this`headers
      ensures Linked(headers, freeBlocks, Appended(heap.list, a))
      ensures headers.Keys == old(headers).Keys && forall b :: b in headers ==> headers[b].size == old(headers)[b].size
    {
      var prev, current := 0, freeBlocks;
      ghost var i: nat := 0;
      while current != 0
        invariant headers == old(headers) && freeBlocks == old(freeBlocks)
        invariant i <= |heap.list| && current == AddressAt(heap.list, i) && prev == Previous(heap.list, i)
        decreases |heap.list| - i
      {
        LinkedAt(headers, freeBlocks, heap.list, i);
        prev, current := current, headers[current].next;
        i := i + 1;
      }
      if i < |heap.list| {
        LinkedAt(headers, freeBlocks, heap.list, i);
      }
      LinkedHung(headers, freeBlocks, heap.list, a);
      if prev == 0 {
        freeBlocks := a;
      } else {
        headers := headers[prev := headers[prev].(next := a)];
      }
      headers := headers[a := headers[a].(next := 0)];
    }

    /** kfree */
    method Kfree(address: nat)
      requires Valid() && 0 < address && address - 1 in heap.live
      modifies this
      ensures Valid() && heap == Release(old(heap), address - 1) && pool == old(pool)
    {
      hide Linked;
      ReleaseSound(heap, address - 1);
      assert IsBlock(heap, address - 1);
      Append(address - 1);
      heap := Release(heap, address - 1);
    }

    /** increase_heap_size: one block for the pages found. */
    method IncreaseHeapSize(units: nat) returns (ok: bool, faulted: bool)
      requires Valid()
      modifies this
      ensures var n := GrowthPages(units);
              match Growth(old(pool), n)
              case Faulted => faulted
              case NoPages =>
                && !faulted && !ok
                && (old(heap).pages !! Interval(HEAP_FIRST, HEAP_FIRST + n) ==>
                      Valid() && heap == old(heap) && pool == old(pool))
              case Pages(p) =>
                !faulted && ok && Valid() && pool == Left(old(pool), p, n) && heap == Grow(old(heap), p, n)
    {
      hide Growth, Linked, Sound;
      var n := GrowthPages(units);
      var result := AllocKheapPages(n);
      match result
      case Faulted => return false, true;
      case NoPages => return false, false;
      case Pages(p) =>
        PagesMove(old(pool), heap, n);
        AddBlock(p, n);
        return true, false;
    }

    /** The fresh pages become one block, hung at the end of the list by kfree. */
    method AddBlock(p: nat, n: nat)
      requires Sound(heap) && Linked(headers, freeBlocks, heap.list) && SizesAre(headers, heap.sizes)
      requires n > 0 && p > 0 && heap.pages !! Interval(p, p + n)
      modifies this`freeBlocks, this`headers, this`heap
      ensures heap == Grow(old(heap), p, n) && Sound(heap)
      ensures Linked(headers, freeBlocks, heap.list) && SizesAre(headers, heap.sizes)
    {
      hide Linked;
      GrowSound(heap, p, n);
      LinkedElsewhere(headers, freeBlocks, heap.list, PageAddress(p), BlockSize(n));
      headers := headers[PageAddress(p) := Header(0, BlockSize(n))];
      Append(PageAddress(p));
      heap := Grow(heap, p, n);
    }

    /** The branch of kmalloc that takes `units` units from the block `current`, reached through `prev`. */
    method TakeBlock(prev: nat, current: nat, units: nat, ghost i: nat) returns (address: nat, faulted: bool)
      requires Valid() && Fits(heap, units, i) && current == heap.list[i] && prev == Previous(heap.list, i)
      modifies this`freeBlocks, this`headers, this`heap
      ensures faulted <==> TakeFaults(rule, old(heap), i, units)
      ensures !faulted ==>
                && Valid() && heap == Take(rule, old(heap), i, units)
                && address == TakenAt(rule, old(heap), i, units) + 1
    {
      hide Linked, Sound, Take, TakeFaults, TakenAt, SizesAre;
      var size := BlockSizeAt(current, i);
      if size > units {
        address, faulted := SplitBlock(prev, current, units, i);
      } else {
        address := UnlinkBlock(prev, current, units, i);
        faulted := false;
      }
    }

    /** `(*current)->block_size` */
    method BlockSizeAt(current: nat, ghost i: nat) returns (size: nat)
      requires Valid() && i < |heap.list| && current == heap.list[i]
      ensures size == heap.Size(current)
    {
      LinkedAt(headers, freeBlocks, heap.list, i);
      size := headers[current].size;
    }

    /** A block larger than the request gives up its end. */
    method SplitBlock(prev: nat, current: nat, units: nat, ghost i: nat) returns (address: nat, faulted: bool)
      requires Valid() && Fits(heap, units, i) && Splits(heap, i, units)
      requires current == heap.list[i] && prev == Previous(heap.list, i)
      modifies this`headers, this`heap
      ensures faulted <==> TakeFaults(rule, old(heap), i, units)
      ensures !faulted ==>
                && Valid() && heap == Take(rule, old(heap), i, units)
                && address == TakenAt(rule, old(heap), i, units) + 1
    {
      hide Linked, Sound;
      TakeSound(rule, heap, i, units);
      LinkedAt(headers, freeBlocks, heap.list, i);
      if i > 0 {
        LinkedAt(headers, freeBlocks, heap.list, i - 1);
      }
      ghost var h := heap;
      var free := current + headers[current].size - units;
      if rule == Written {
        free := free - 1;
      }
      LinkedCut(headers, freeBlocks, h.list, free, units);
      headers := headers[free := Header(0, units)];
      // the link is read again, and is the NULL just stored if it was in the new header
      if prev != 0 && prev == free {
        return 0, true;
      }
      var rest := headers[current].size - units;
      if rule == Intended {
        rest := rest - 1;
      }
      LinkedResized(headers, freeBlocks, UpTo(h.list, free), current, rest);
      headers := headers[current := headers[current].(size := rest)];
      heap := Take(rule, h, i, units);
      return free + 1, false;
    }

    /** A block of exactly the size leaves the list. */
    method UnlinkBlock(prev: nat, current: nat, units: nat, ghost i: nat) returns (address: nat)
      requires Valid() && Fits(heap, units, i) && !Splits(heap, i, units)
      requires current == heap.list[i] && prev == Previous(heap.list, i)
      modifies this`freeBlocks, this`headers, this`heap
      ensures !TakeFaults(rule, old(heap), i, units)
      ensures Valid() && heap == Take(rule, old(heap), i, units)
      ensures address == TakenAt(rule, old(heap), i, units) + 1
    {
      hide Linked, Sound;
      TakeSound(rule, heap, i, units);
      LinkedAt(headers, freeBlocks, heap.list, i);
      LinkedUnlink(headers, freeBlocks, heap.list, i);
      var next := headers[current].next;
      if prev == 0 {
        freeBlocks := next;
      } else {
        headers := headers[prev := headers[prev].(next := next)];
      }
      heap := Take(rule, heap, i, units);
      address := current + 1;
    }

    /** kmalloc. The result is the payload's unit address, 0 for NULL. */
    method Kmalloc(size: Word) returns (address: nat, faulted: bool)
      requires Valid()
      modifies this
      ensures var units := UnitsFor(size);
              match Search(old(heap), old(pool), units)
              case PageFault => faulted
              case NoMemory(h, rest) =>
                && !faulted && address == 0
                && (h.pages !! Interval(HEAP_FIRST, HEAP_FIRST + GrowthPages(units)) ==>
                      Valid() && heap == h && pool == rest)
              case Found(h, rest, i) =>
                && Fits(h, units, i)
                && (faulted <==> TakeFaults(rule, h, i, units))
                && (!faulted ==>
                      && Valid() && heap == Take(rule, h, i, units) && pool == rest
                      && address == TakenAt(rule, h, i, units) + 1
                      && address - 1 in heap.live
                      && heap.Size(address - 1)
                      == if rule == Written && h.Size(h.list[i]) == units + 1 then 0 else units)
    {
      hide Linked, Sound, Search, Growth, Left, Take, TakeFaults, TakenAt, SizesAre;
      var units := UnitsFor(size);
      ghost var outcome := Search(heap, pool, units);
      ghost var i: nat := 0;
      var prev := 0;
      while true
        invariant Valid() && i <= |heap.list| && prev == Previous(heap.list, i)
        invariant forall j: nat :: j < i ==> !Fits(heap, units, j)
        invariant Search(heap, pool, units) == outcome
        decreases |pool|, |heap.list| - i
      {
        var current := ReadLink(prev, i);
        if current == 0 {
          SearchAtEnd(heap, pool, units);
          var ok;
          ok, faulted := IncreaseHeapSize(units);
          if faulted || !ok {
            return 0, faulted;
          }
          current := ReadLink(prev, i);
        }
        var blockSize := BlockSizeAt(current, i);
        if blockSize >= units {
          SearchAtFit(heap, pool, units, i);
          TakenSizeSound(rule, heap, i, units);
          address, faulted := TakeBlock(prev, current, units, i);
          return;
        }
        prev, i := current, i + 1;
      }
    }

    /** `*current`, for the link after node `prev`. */
    method ReadLink(prev: nat, ghost i: nat) returns (current: nat)
      requires Valid() && i <= |heap.list| && prev == Previous(heap.list, i)
      ensures current == AddressAt(heap.list, i)
      ensures current == 0 <==> i == |heap.list|
    {
      if i > 0 {
        LinkedAt(headers, freeBlocks, heap.list, i - 1);
      }
      if i < |heap.list| {
        LinkedAt(headers, freeBlocks, heap.list, i);
      }
      current := if prev == 0 then freeBlocks else headers[prev].next;
    }
  }

  lemma TakenSizeSound(rule: SplitRule, h: Heap, i: nat, units: nat)
    requires Sound(h) && Fits(h, units, i)
    ensures var t, x := Take(rule, h, i, units), TakenAt(rule, h, i, units);
            && x in t.live
            && t.Size(x) == if rule == Written && h.Size(h.list[i]) == units + 1 then 0 else units
  {
    assert IsBlock(h, h.list[i]);
    TakenSize(rule, h, i, units);
  }

  /** A header written outside the list leaves it alone. */
  lemma LinkedElsewhere(headers: Headers, head: nat, list: seq<nat>, x: nat, size: nat)
    requires Linked(headers, head, list) && x !in list
    ensures Linked(headers[x := Header(0, size)], head, list)
  {
    LinkedCut(headers, head, list, x, size);
  }

  /** The pages found move from the pool to the heap. */
  lemma PagesMove(pool: set<nat>, h: Heap, n: nat)
    requires HeapPages(pool) && pool !! h.pages && 0 !in h.pages && n > 0 && Growth(pool, n).Pages?
    ensures var p := Growth(pool, n).first;
            && p > 0 && h.pages !! Interval(p, p + n)
            && HeapPages(Left(pool, p, n)) && Left(pool, p, n) !! h.pages + Interval(p, p + n)
            && 0 !in h.pages + Interval(p, p + n)
  {
    GrowthFacts(pool, n);
  }

  /** What the search is when no block of the list fits, and what growth leaves. */
  lemma SearchAtEnd(h: Heap, pool: set<nat>, units: nat)
    requires Sound(h) && pool !! h.pages && forall j: nat :: j < |h.list| ==> !Fits(h, units, j)
    ensures var n := GrowthPages(units);
            match Growth(pool, n)
            case Faulted => Search(h, pool, units) == PageFault
            case NoPages => Search(h, pool, units) == NoMemory(h, pool)
            case Pages(p) =>
              && Search(h, pool, units) == Search(Grow(h, p, n), Left(pool, p, n), units)
              && |Left(pool, p, n)| < |pool|
              && forall j: nat :: j < |h.list| ==> !Fits(Grow(h, p, n), units, j)
  {
    assert FirstFit(h, units, 0) == |h.list|;
    var n := GrowthPages(units);
    if Growth(pool, n).Pages? {
      GrowthFacts(pool, n);
      GrownFits(h, Growth(pool, n).first, n, units);
    }
  }

  lemma SearchAtFit(h: Heap, pool: set<nat>, units: nat, i: nat)
    requires Fits(h, units, i) && forall j: nat :: j < i ==> !Fits(h, units, j)
    ensures Search(h, pool, units) == Found(h, pool, i)
  {
  }
}
