/** Creating address spaces (alloc_page_dir) and running them: kernel/mm/virtual_mm_manager.c. The
    ownership invariant is kept by every creation, switch and mmap, so it holds in every reachable state. */
module AddressSpaces {
  import opened Common
  import opened Bits
  import opened Paging
  import opened KernelState
  import M = Machine
  import P = PhysicalMemory
  import opened VirtualMemory
  import opened Ownership
  import opened MmapTheorems
  import opened KHeap
  import opened UserMemory

  /** A new directory: empty but for the kernel, the kernel heap and itself. */
  function DirectoryPage(l: Layout, dir: Frame): Page {
    ZERO_PAGE[768 := l.kernel0 * 4096 + 3][769 := l.kernel1 * 4096 + 3][770 := l.kheap * 4096 + 3]
      [1023 := dir * 4096 + 3]
  }

  /** The frame alloc_page_dir puts at heap page k. */
  ghost function NewDirectory(s: Sys): Frame
    requires P.InAddressSpace(s.frames.available)
  {
    AllocFrame(s).1 / 4096
  }

  /** The direct effect of alloc_page_dir using heap page k. */
  ghost function CreateSpace(s: Sys, l: Layout, k: nat): Sys
    requires P.InAddressSpace(s.frames.available) && k < HEAP_PAGES
  {
    var t := HeapMap(s, l.kheap, k);
    t.(ram := t.ram[NewDirectory(s) := DirectoryPage(l, NewDirectory(s))])
  }

  /* ---------- The code ---------- */

  /** Heap page k as the current directory sees it: it reaches `dir` by way of the heap table. */
  ghost predicate SeesPage(ram: Ram, cr3: Frame, kt: Frame, k: nat, dir: Frame) {
    && k < HEAP_PAGES && ram[cr3][HEAP_SLOT] == kt * 4096 + 3 && ram[kt][k] == dir * 4096 + 3
    && dir != cr3 && dir != kt
  }

  lemma SeesPageTranslates(ram: Ram, cr3: Frame, kt: Frame, k: nat, dir: Frame)
    requires SeesPage(ram, cr3, kt, k, dir)
    ensures Translate(ram, cr3, PageAddress(k) / 4096) == Some(Mapping(dir, true, false))
    ensures PageAddress(k) / 4096 / ENTRIES == HEAP_SLOT && PageAddress(k) % 4096 == 0
    ensures PageAddress(k) + 4096 <= KHEAP_END_ADDRESS
    ensures M.SafeRange(ram, cr3, PageAddress(k), PAGE_SIZE)
  {
    PageAddressInverse(k);
    EntryBits(kt);
    EntryBits(dir);
    var page := PageAddress(k) / 4096;
    assert PageAddress(k) == page * 4096;
    forall p: Frame | M.Touches(PageAddress(k), PAGE_SIZE, p)
      ensures p == page
    {
    }
  }

  lemma EntryOfPage(k: nat, i: nat)
    requires PageAddress(k) % 4096 == 0 && i < ENTRIES
    ensures PageAddress(k) + 4 * i < TWO_32
    ensures (PageAddress(k) + 4 * i) / 4096 == PageAddress(k) / 4096 && (PageAddress(k) + 4 * i) % 4096 == 4 * i
  {
    var p: int := PageAddress(k);
    assert p == 4096 * (p / 4096);
  }

  /** `page_directory[i] = address` followed by edit_entry_attributes. */
  method SetDirectoryEntry(m: M.Machine, pageDirectory: Word, i: nat, address: Word, ghost k: nat, ghost kt: Frame,
                           ghost dir: Frame)
    requires SeesPage(m.ram, m.cr3, kt, k, dir) && pageDirectory == PageAddress(k) && i < ENTRIES && address % 4096 == 0
    modifies m`ram
    ensures SeesPage(m.ram, m.cr3, kt, k, dir)
    ensures m.ram == SetEntry(old(m.ram), dir, i, address + 3)
  {
    SeesPageTranslates(m.ram, m.cr3, kt, k, dir);
    EntryOfPage(k, i);
    hide PageAddress;
    var entry := pageDirectory + 4 * i;
    m.Store(entry, address);
    ghost var mid := m.ram;
    assert mid == SetEntry(old(m.ram), dir, i, address);
    SeesPageTranslates(mid, m.cr3, kt, k, dir);
    EditEntryAttributes(m, entry, false);
    FreshEntry(address / 4096);
    assert address == address / 4096 * 4096;
    SetEntryTwice(old(m.ram), dir, i, address, address + 3);
  }

  /** Writing the entries of a zeroed directory page one after another. */
  lemma EntriesMakeDirectory(ram: Ram, l: Layout, dir: Frame)
    ensures SetEntry(SetEntry(SetEntry(SetEntry(ram[dir := ZERO_PAGE], dir, 768, l.kernel0 * 4096 + 3),
                       dir, 769, l.kernel1 * 4096 + 3), dir, 770, l.kheap * 4096 + 3), dir, 1023, dir * 4096 + 3)
         == ram[dir := DirectoryPage(l, dir)]
  {
  }

  /** Whether the search for one page has a result: as written it falls off its end when the lowest free page is
      the last of its eight. */
  ghost predicate SearchDefined(rule: SearchRule, ones: set<nat>) {
    rule == CountReset || ones == {} || Lowest(ones) % 8 != 7
  }

  /** alloc_page_dir takes the lowest free heap page. When none is free it fails, with heap page 0 replaced;
      when the page has no table entry, clearing the directory faults. With the search as written nothing is
      known after it when it has no result. */
  method AllocPageDir(k: Kernel, l: Layout, rule: SearchRule)
    returns (code: ErrorCode, physical: Word, faulted: bool, defined: bool)
    requires k.Valid() && HeapWindowOk(k.View(), l.kheap) && SlotsPastHeapEmpty(k.View())
    requires forall q: nat :: q in k.kheap.ones ==> q < INITIAL_PAGES
    modifies k.machine`ram, k.frames, k.frames.bitmap, k.frames.bitmap.bytes, k.kheap, k.kheap.bytes
    ensures k.Valid() && (defined <==> SearchDefined(rule, old(k.kheap.ones)))
    ensures defined && old(k.kheap.ones) == {} ==>
              && code == Failure && !faulted && k.kheap.ones == {}
              && k.View() == HeapMap(old(k.View()), l.kheap, 0)
    ensures defined && old(k.kheap.ones) != {} ==>
              var p := Lowest(old(k.kheap.ones));
              && k.kheap.ones == old(k.kheap.ones) - {p}
              && (faulted <==> p >= HEAP_PAGES)
              && (faulted ==> k.View() == HeapMap(old(k.View()), l.kheap, p % 1024))
              && (!faulted ==>
                    && code == Success && physical == NewDirectory(old(k.View())) * 4096
                    && k.View() == CreateSpace(old(k.View()), l, p))
  {
    hide Represents, SlotsPastHeapEmpty, HeapWindowOk, HeapMap, CreateSpace, AllocFrame, SearchDefined;
    ghost var s := k.View();
    var address; ghost var p;
    address, defined, p := AllocOneKheapPage(k, l, rule);
    if !defined || address == 0 {
      return Failure, 0, false, defined;
    }
    physical, faulted := BuildPageDir(k, l, address, s, p);
    code := if faulted then Failure else Success;
  }

  /** alloc_kheap_pages(1) */
  method AllocOneKheapPage(k: Kernel, l: Layout, rule: SearchRule) returns (address: Word, defined: bool, ghost p: nat)
    requires k.Valid() && HeapWindowOk(k.View(), l.kheap) && forall q: nat :: q in k.kheap.ones ==> q < INITIAL_PAGES
    modifies k.machine`ram, k.frames, k.frames.bitmap, k.frames.bitmap.bytes, k.kheap, k.kheap.bytes
    ensures k.Valid() && (defined <==> SearchDefined(rule, old(k.kheap.ones)))
    ensures defined ==> OnePageTaken(old(k.kheap.ones), k.kheap.ones, address, p)
    ensures defined ==> k.View() == HeapMap(old(k.View()), l.kheap, p % 1024)
  {
    hide Represents, HeapMap;
    if rule == CountReset {
      defined := true;
      address, p := TakeOnePage(k, l);
    } else {
      address, defined, p := TakeOnePageWritten(k, l);
    }
  }

  /** The lowest page was taken, or NULL returned, which is mapped like page 0. */
  ghost predicate OnePageTaken(ones: set<nat>, after: set<nat>, address: Word, p: nat) {
    if ones == {} then address == 0 && p == 0 && after == {}
    else
      && address != 0 && p == Lowest(ones) && p < INITIAL_PAGES && address == PageAddress(p) && after == ones - {p}
  }

  method TakeOnePage(k: Kernel, l: Layout) returns (address: Word, ghost p: nat)
    requires k.Valid() && HeapWindowOk(k.View(), l.kheap) && forall q: nat :: q in k.kheap.ones ==> q < INITIAL_PAGES
    modifies k.machine`ram, k.frames, k.frames.bitmap, k.frames.bitmap.bytes, k.kheap, k.kheap.bytes
    ensures k.Valid() && OnePageTaken(old(k.kheap.ones), k.kheap.ones, address, p)
    ensures k.View() == HeapMap(old(k.View()), l.kheap, p % 1024)
  {
    hide Represents, NoWindowFree, FirstInWindow, PagesFree, HeapMapRun, HeapMap;
    ghost var s, ones := k.View(), k.kheap.ones;
    var faulted; ghost var found;
    address, faulted, found, p := AllocKheapPages(k, 1, l.kheap);
    FoundIff(ones, found, p);
    OneEntryMapped(s, l.kheap, address / 4096 % ENTRIES);
    if found {
      PageIndex(p);
    } else {
      p := 0;
    }
  }

  method TakeOnePageWritten(k: Kernel, l: Layout) returns (address: Word, defined: bool, ghost p: nat)
    requires k.Valid() && HeapWindowOk(k.View(), l.kheap) && forall q: nat :: q in k.kheap.ones ==> q < INITIAL_PAGES
    modifies k.machine`ram, k.frames, k.frames.bitmap, k.frames.bitmap.bytes, k.kheap, k.kheap.bytes
    ensures k.Valid() && (defined <==> SearchDefined(AsWritten, old(k.kheap.ones)))
    ensures defined ==> OnePageTaken(old(k.kheap.ones), k.kheap.ones, address, p)
    ensures defined ==> k.View() == HeapMap(old(k.View()), l.kheap, p % 1024)
  {
    hide Represents, HeapMapRun, HeapMap, Took, FirstUsedWindow;
    ghost var s, ones := k.View(), k.kheap.ones;
    var faulted; ghost var i; ghost var r;
    address, defined, faulted, i, r := AllocKheapPagesWritten(k, 1, l.kheap);
    OneEntryMapped(s, l.kheap, address / 4096 % ENTRIES);
    WrittenTakesLowest(ones, i, k.kheap.ones, address, defined, r);
    p := 0;
    if ones != {} {
      p := Lowest(ones);
      PageIndex(p);
    }
  }

  /** What the written search for one page comes to. */
  lemma WrittenTakesLowest(ones: set<nat>, i: nat, after: set<nat>, address: Word, defined: bool, r: nat)
    requires forall q: nat :: q in ones ==> q < INITIAL_PAGES
    requires if FirstUsedWindow(ones, 1, i) then Took(ones, i, 1, after, address, defined, r)
             else defined && address == 0 && after == ones && forall j :: !FirstUsedWindow(ones, 1, j)
    ensures defined <==> SearchDefined(AsWritten, ones)
    ensures defined ==> OnePageTaken(ones, after, address, if ones == {} then 0 else Lowest(ones))
  {
    if ones == {} {
      assert !FirstUsedWindow(ones, 1, i);
    } else {
      WrittenSinglePageIff(ones);
      var j: nat := Lowest(ones) / 8;
      assert FirstUsedWindow(ones, 1, j);
      assert FirstUsedWindow(ones, 1, i);
      OneFirstWindow(ones, i, j);
      hide FirstUsedWindow, Took, SearchDefined, OnePageTaken;
      TookLowest(ones, after, address, defined, r);
    }
  }

  lemma TookLowest(ones: set<nat>, after: set<nat>, address: Word, defined: bool, r: nat)
    requires ones != {} && forall q: nat :: q in ones ==> q < INITIAL_PAGES
    requires Took(ones, Lowest(ones) / 8, 1, after, address, defined, r)
    ensures defined <==> SearchDefined(AsWritten, ones)
    ensures defined ==> OnePageTaken(ones, after, address, Lowest(ones))
  {
    WrittenSinglePageIff(ones);
    hide Answers, AnswersWith, FirstUsedWindow;
    var q := Lowest(ones);
    assert Interval(q, q + 1) == {q};
  }

  lemma OneFirstWindow(ones: set<nat>, i: nat, j: nat)
    requires FirstUsedWindow(ones, 1, i) && FirstUsedWindow(ones, 1, j)
    ensures i == j
  {
  }

  lemma PageIndex(p: nat)
    requires p < INITIAL_PAGES
    ensures PageAddress(p) / 4096 % ENTRIES == p % 1024
  {
    assert PageAddress(p) / 4096 == HEAP_SLOT * 1024 + p;
  }

  /** alloc_page_dir once heap page p is mapped: its first store faults when the page is past the table. */
  method BuildPageDir(k: Kernel, l: Layout, pageDirectory: Word, ghost s: Sys, ghost p: nat)
      returns (physical: Word, faulted: bool)
    requires HeapWindowOk(s, l.kheap) && SlotsPastHeapEmpty(s) && p < INITIAL_PAGES && pageDirectory == PageAddress(p)
    requires k.Valid() && k.View() == HeapMap(s, l.kheap, p % 1024)
    modifies k.machine`ram
    ensures k.Valid() && (faulted <==> p >= HEAP_PAGES)
    ensures faulted ==> k.View() == old(k.View())
    ensures !faulted ==> physical == NewDirectory(s) * 4096 && k.View() == CreateSpace(s, l, p)
  {
    HeapPageUsableIff(s, l.kheap, p);
    if p < HEAP_PAGES {
      DirectorySeen(s, l, p);
    }
    hide HeapWindowOk, HeapMap, SeesPage, AllocFrame, Represents;
    if Translate(k.machine.ram, k.machine.cr3, pageDirectory / 4096) == None {
      return 0, true;
    }
    physical := FillPageDir(k, l, pageDirectory, p, NewDirectory(s));
    faulted := false;
  }

  /** Among kheap_init's pages the search for one page finds the lowest free one, if any is free. */
  lemma FoundIff(ones: set<nat>, found: bool, p: nat)
    requires forall q: nat :: q in ones ==> q < INITIAL_PAGES
    requires found ==> PagesFree(ones, p, 1) && FirstInWindow(ones, p, 1)
    requires !found ==> NoWindowFree(ones, 1, Windows(1))
    ensures found <==> ones != {}
    ensures found ==> p == Lowest(ones) && p < INITIAL_PAGES && PageAddress(p) != 0 && Interval(p, p + 1) == {p}
  {
    if found {
      assert p in ones;
      SinglePageLowest(ones, p);
    } else if ones != {} {
      var q :| q in ones;
      OnePageRun(ones, q);
      assert false;
    }
  }

  lemma DirectorySeen(s: Sys, l: Layout, p: nat)
    requires HeapWindowOk(s, l.kheap) && p < HEAP_PAGES
    ensures var t := HeapMap(s, l.kheap, p);
            HeapWindowOk(t, l.kheap) && t.cr3 == s.cr3 && SeesPage(t.ram, t.cr3, l.kheap, p, NewDirectory(s))
  {
    HeapMapKeepsWindow(s, l.kheap, p);
  }

  lemma OneEntryMapped(s: Sys, kt: Frame, i: nat)
    requires HeapWindowOk(s, kt) && i < HEAP_PAGES
    ensures HeapMapRun(s, kt, i, 1) == HeapMap(s, kt, i)
  {
    HeapMapKeepsWindow(s, kt, i);
    assert HeapMapPages(HeapMap(s, kt, i), kt, i + 1, 0) == HeapMap(s, kt, i);
  }

  /** The loop of alloc_page_dir over kernel_page_tables. */
  method SetKernelTables(m: M.Machine, l: Layout, pageDirectory: Word, ghost p: nat, ghost before: Ram,
                         ghost dir: Frame)
    requires pageDirectory == PageAddress(p) && SeesPage(m.ram, m.cr3, l.kheap, p, dir)
    requires m.ram == KernelTablesSet(before, l, dir, 0)
    modifies m`ram
    ensures SeesPage(m.ram, m.cr3, l.kheap, p, dir) && m.ram == KernelTablesSet(before, l, dir, 2)
  {
    var tables: seq<Frame> := [l.kernel0, l.kernel1];
    var i := KERNEL_SLOT;
    while i < KERNEL_SLOT + 2
      invariant KERNEL_SLOT <= i <= KERNEL_SLOT + 2
      invariant SeesPage(m.ram, m.cr3, l.kheap, p, dir)
      invariant m.ram == KernelTablesSet(before, l, dir, i - KERNEL_SLOT)
    {
      var table: int := tables[i - KERNEL_SLOT];
      SetDirectoryEntry(m, pageDirectory, i, table * 4096, p, l.kheap, dir);
      i := i + 1;
    }
  }

  /** `memset(NULL, page_directory, PAGE_SIZE)` */
  method ClearPageDir(m: M.Machine, pageDirectory: Word, ghost p: nat, ghost kt: Frame, ghost dir: Frame)
    requires pageDirectory == PageAddress(p) && SeesPage(m.ram, m.cr3, kt, p, dir)
    modifies m`ram
    ensures m.ram == old(m.ram)[dir := ZERO_PAGE] && SeesPage(m.ram, m.cr3, kt, p, dir)
  {
    ghost var before := m.ram;
    SeesPageTranslates(before, m.cr3, kt, p, dir);
    hide PageAddress;
    m.Memset(0, pageDirectory, PAGE_SIZE);
    WholePageWritten(before, m.ram, m.cr3, PageAddress(p), 0);
  }

  /** alloc_page_dir after its page is mapped: clear it, then fill it through its heap address. */
  method FillPageDir(k: Kernel, l: Layout, pageDirectory: Word, ghost p: nat, ghost dir: Frame) returns (physical: Word)
    requires pageDirectory == PageAddress(p)
    requires k.Valid() && HeapWindowOk(k.View(), l.kheap) && SeesPage(k.machine.ram, k.machine.cr3, l.kheap, p, dir)
    modifies k.machine`ram
    ensures k.Valid() && physical == dir * 4096
    ensures k.View() == old(k.View()).(ram := old(k.View()).ram[dir := DirectoryPage(l, dir)])
  {
    hide Represents, DirectoryPage, PageAddress;
    ghost var before, kt := k.machine.ram, l.kheap;
    ClearPageDir(k.machine, pageDirectory, p, kt, dir);
    SetKernelTables(k.machine, l, pageDirectory, p, before, dir);
    // map_kheap_to_pgd
    SetDirectoryEntry(k.machine, pageDirectory, HEAP_SLOT, l.kheap * 4096, p, kt, dir);
    HeapFrameRead(k.View(), kt, p, dir);
    physical := KheapGetPhysicalAddress(k, pageDirectory, kt);
    SetDirectoryEntry(k.machine, pageDirectory, RECURSIVE_SLOT, physical, p, kt, dir);
    EntriesMakeDirectory(before, l, dir);
  }

  /** The zeroed page after the first n turns of the kernel-table loop. */
  ghost function KernelTablesSet(before: Ram, l: Layout, dir: Frame, n: nat): Ram {
    var zeroed := before[dir := ZERO_PAGE];
    if n == 0 then zeroed
    else if n == 1 then SetEntry(zeroed, dir, 768, l.kernel0 * 4096 + 3)
    else SetEntry(SetEntry(zeroed, dir, 768, l.kernel0 * 4096 + 3), dir, 769, l.kernel1 * 4096 + 3)
  }

  /** kheap_get_physical_address recovers the frame: a fresh heap entry has bits 8 to 11 clear. */
  lemma HeapFrameRead(s: Sys, kt: Frame, p: nat, dir: Frame)
    requires p < HEAP_PAGES && s.ram[kt][p] == dir * 4096 + 3
    ensures PageAddress(p) / 4096 % ENTRIES == p && PageAddress(p) % PAGE_SIZE == 0
    ensures KHEAP_BEGIN_ADDRESS <= PageAddress(p) < KHEAP_END_ADDRESS
    ensures s.ram[kt][p] / 256 % 16 == 0 && FrameOf(s.ram[kt][p]) == dir
  {
    PageAddressInverse(p);
    EntryBits(dir);
    assert (dir * 4096 + 3) / 256 == dir * 16;
  }

  /** What the heap-window code relies on follows from the invariant. */
  lemma OwnedHeapWindow(s: Sys, own: Owners, l: Layout)
    requires Owned(s, own, l)
    ensures HeapWindowOk(s, l.kheap) && SlotsPastHeapEmpty(s)
  {
    EntryBits(s.cr3);
  }

  /* ---------- Creation keeps the invariant ---------- */

  ghost predicate CanCreate(s: Sys, own: Owners, l: Layout, k: nat) {
    Owned(s, own, l) && k < HEAP_PAGES && s.ram[l.kheap][k] == 0 && Scanned(s) != {}
  }

  function DirectoryCreated(ram: Ram, l: Layout, k: nat, f: Frame): Ram
    requires k < HEAP_PAGES
  {
    SetEntry(ram, l.kheap, k, f * 4096 + 3)[f := DirectoryPage(l, f)]
  }

  lemma CreateOwned(s: Sys, own: Owners, l: Layout, k: nat) returns (own1: Owners)
    requires CanCreate(s, own, l, k)
    ensures var t := CreateSpace(s, l, k);
            && NewDirectory(s) !in own && own1 == own[NewDirectory(s) := Directory(k)]
            && Owned(t, own1, l) && t.cr3 == s.cr3
  {
    var f := TakeFrame(s, own, l);
    var s1 := AllocFrame(s).0;
    var g: int := f;
    assert g * 4096 / 4096 == g;
    own1 := own[f := Directory(k)];
    assert CreateSpace(s, l, k) == s1.(ram := DirectoryCreated(s.ram, l, k, f));
    CreateDirectories(s1, own, l, k, f);
    CreateTables(s1, own, l, k, f);
    CreatePages(s1, own, l, k, f);
    CreateHeap(s1, own, l, k, f);
  }

  lemma CreateDirectories(s: Sys, own: Owners, l: Layout, k: nat, f: Frame)
    requires Owned(s, own, l) && k < HEAP_PAGES && f !in own
    ensures DirectoriesOk(DirectoryCreated(s.ram, l, k, f), own[f := Directory(k)], l)
  {
    var ram, own1 := DirectoryCreated(s.ram, l, k, f), own[f := Directory(k)];
    forall dir: Frame | IsDirectory(own1, dir)
      ensures DirectoryOk(ram, own1, l, dir)
    {
      if dir != f {
        assert DirectoryOk(s.ram, own, l, dir);
        forall e | 0 <= e < KERNEL_SLOT
          ensures SlotOk(ram, own1, dir, e)
        {
          assert SlotOk(s.ram, own, dir, e);
        }
      }
    }
  }

  lemma CreateTables(s: Sys, own: Owners, l: Layout, k: nat, f: Frame)
    requires Owned(s, own, l) && k < HEAP_PAGES && f !in own
    ensures TablesOk(DirectoryCreated(s.ram, l, k, f), own[f := Directory(k)])
  {
    var ram, own1 := DirectoryCreated(s.ram, l, k, f), own[f := Directory(k)];
    forall g: Frame | IsTable(own1, g)
      ensures TableOk(ram, own1, g, own1[g].dir, own1[g].slot)
    {
      var dir, e := own[g].dir, own[g].slot;
      assert TableOk(s.ram, own, g, dir, e);
      forall t | 0 <= t < ENTRIES
        ensures EntryOk(ram, own1, g, dir, e, t)
      {
        assert EntryOk(s.ram, own, g, dir, e, t);
      }
    }
  }

  lemma CreatePages(s: Sys, own: Owners, l: Layout, k: nat, f: Frame)
    requires Owned(s, own, l) && k < HEAP_PAGES && f !in own
    ensures PagesOk(DirectoryCreated(s.ram, l, k, f), own[f := Directory(k)])
  {
    var ram, own1 := DirectoryCreated(s.ram, l, k, f), own[f := Directory(k)];
    forall g: Frame | IsUserPage(own1, g)
      ensures PageOk(ram, own1, g, own1[g].dir, own1[g].page)
    {
      var dir, page := own[g].dir, own[g].page;
      assert PageOk(s.ram, own, g, dir, page);
      assert DirectoryOk(s.ram, own, l, dir);
      assert SlotOk(s.ram, own, dir, page / ENTRIES);
    }
  }

  lemma CreateHeap(s: Sys, own: Owners, l: Layout, k: nat, f: Frame)
    requires Owned(s, own, l) && k < HEAP_PAGES && s.ram[l.kheap][k] == 0 && f !in own
    ensures HeapOk(DirectoryCreated(s.ram, l, k, f), own[f := Directory(k)], l)
  {
    var ram, own1 := DirectoryCreated(s.ram, l, k, f), own[f := Directory(k)];
    EntryBits(f);
    forall j | 0 <= j < Ownership.KHEAP_PAGES
      ensures HeapEntryOk(ram, own1, l, j)
    {
      assert HeapEntryOk(s.ram, own, l, j);
    }
    forall g: Frame | IsHeapPage(own1, g)
      ensures HeapPageOk(ram, l, g, own1[g].kheapPage)
    {
      if g != f {
        assert HeapPageOk(s.ram, l, g, own[g].kheapPage);
      }
    }
  }

  /** A kernel-heap page that is not a directory: alloc_kheap_pages for kmalloc and others. */
  lemma HeapMapOwned(s: Sys, own: Owners, l: Layout, k: nat) returns (own1: Owners)
    requires CanCreate(s, own, l, k)
    ensures NewDirectory(s) !in own && own1 == own[NewDirectory(s) := KheapPage(k)]
    ensures Owned(HeapMap(s, l.kheap, k), own1, l) && HeapMap(s, l.kheap, k).cr3 == s.cr3
  {
    var f := TakeFrame(s, own, l);
    var s1 := AllocFrame(s).0;
    var g: int := f;
    assert g * 4096 / 4096 == g;
    own1 := own[f := KheapPage(k)];
    HeapPageAdded(s1, own, l, k, f);
  }

  lemma HeapPageAdded(s: Sys, own: Owners, l: Layout, k: nat, f: Frame)
    requires Owned(s, own, l) && k < HEAP_PAGES && s.ram[l.kheap][k] == 0 && f !in own && f !in s.frames.available
    ensures Owned(s.(ram := SetEntry(s.ram, l.kheap, k, f * 4096 + 3)), own[f := KheapPage(k)], l)
  {
    var ram, own1 := SetEntry(s.ram, l.kheap, k, f * 4096 + 3), own[f := KheapPage(k)];
    EntryBits(f);
    assert forall g: Frame :: g in own1 && g != f ==> g in own && own1[g] == own[g];
    assert forall g: Frame :: g != l.kheap ==> ram[g] == s.ram[g];
    UserPartKept(s.ram, ram, own, own1, l, f);
    forall j | 0 <= j < Ownership.KHEAP_PAGES
      ensures HeapEntryOk(ram, own1, l, j)
    {
      assert HeapEntryOk(s.ram, own, l, j);
    }
    forall g: Frame | IsHeapPage(own1, g)
      ensures HeapPageOk(ram, l, g, own1[g].kheapPage)
    {
      if g != f {
        assert HeapPageOk(s.ram, l, g, own[g].kheapPage);
      }
    }
  }

  /** A change to the heap table, and a new heap page in the ownership, leave directories and user tables valid. */
  lemma UserPartKept(ram: Ram, ram1: Ram, own: Owners, own1: Owners, l: Layout, f: Frame)
    requires DirectoriesOk(ram, own, l) && TablesOk(ram, own) && PagesOk(ram, own) && Has(own, l.kheap, Reserved)
    requires f !in own && f in own1 && own1 == own[f := own1[f]] && own1[f].KheapPage?
    requires forall g: Frame :: g != l.kheap ==> ram1[g] == ram[g]
    ensures DirectoriesOk(ram1, own1, l) && TablesOk(ram1, own1) && PagesOk(ram1, own1)
  {
    forall dir: Frame | IsDirectory(own1, dir)
      ensures DirectoryOk(ram1, own1, l, dir)
    {
      assert DirectoryOk(ram, own, l, dir);
      forall e | 0 <= e < KERNEL_SLOT
        ensures SlotOk(ram1, own1, dir, e)
      {
        assert SlotOk(ram, own, dir, e);
      }
    }
    forall g: Frame | IsTable(own1, g)
      ensures TableOk(ram1, own1, g, own1[g].dir, own1[g].slot)
    {
      var dir, e := own[g].dir, own[g].slot;
      assert TableOk(ram, own, g, dir, e);
      forall t | 0 <= t < ENTRIES
        ensures EntryOk(ram1, own1, g, dir, e, t)
      {
        assert EntryOk(ram, own, g, dir, e, t);
      }
    }
    forall g: Frame | IsUserPage(own1, g)
      ensures PageOk(ram1, own1, g, own1[g].dir, own1[g].page)
    {
      var dir, page := own[g].dir, own[g].page;
      assert PageOk(ram, own, g, dir, page);
      assert DirectoryOk(ram, own, l, dir);
      assert SlotOk(ram, own, dir, page / ENTRIES);
    }
  }

  /* ---------- Exactly when ---------- */

  /** `own1` keeps every role of `own` and may add any. */
  ghost predicate Keeps(own: Owners, own1: Owners) {
    forall f: Frame :: f in own ==> f in own1 && own1[f] == own[f]
  }

  /** Neither the kernel heap nor alloc_page_dir checks what the frame allocator returns, and a failed search
      for a page is mapped as page 0. Mapping heap page k keeps the invariant if and only if the page was not
      in use and a frame could be had. */
  lemma HeapMapOwnedIff(s: Sys, own: Owners, l: Layout, k: nat)
    requires Owned(s, own, l) && k < HEAP_PAGES
    ensures (exists own1 :: Keeps(own, own1) && Owned(HeapMap(s, l.kheap, k), own1, l))
       <==> s.ram[l.kheap][k] == 0 && Scanned(s) != {}
  {
    if s.ram[l.kheap][k] == 0 && Scanned(s) != {} {
      var own1 := HeapMapOwned(s, own, l, k);
      assert Keeps(own, own1);
    } else {
      forall own1 | Keeps(own, own1)
        ensures !Owned(HeapMap(s, l.kheap, k), own1, l)
      {
        EntryTaken(s, HeapMap(s, l.kheap, k), own, own1, l, k);
      }
    }
  }

  /** So does creating a directory there. */
  lemma CreateOwnedIff(s: Sys, own: Owners, l: Layout, k: nat)
    requires Owned(s, own, l) && k < HEAP_PAGES
    ensures (exists own1 :: Keeps(own, own1) && Owned(CreateSpace(s, l, k), own1, l))
       <==> s.ram[l.kheap][k] == 0 && Scanned(s) != {}
  {
    if s.ram[l.kheap][k] == 0 && Scanned(s) != {} {
      var own1 := CreateOwned(s, own, l, k);
      assert Keeps(own, own1);
    } else {
      NewFrameNotHeap(s, own, l);
      forall own1 | Keeps(own, own1)
        ensures !Owned(CreateSpace(s, l, k), own1, l)
      {
        EntryTaken(s, CreateSpace(s, l, k), own, own1, l, k);
      }
    }
  }

  lemma NewFrameNotHeap(s: Sys, own: Owners, l: Layout)
    requires Owned(s, own, l)
    ensures NewDirectory(s) != l.kheap && (NewDirectory(s) in own ==> NewDirectory(s) == 0)
    ensures AllocFrame(s).1 == NewDirectory(s) * 4096
    ensures Scanned(s) == {} ==> NewDirectory(s) == 0
  {
  }

  /** Entry k of the heap table was in use, or received frame 0: no ownership that keeps the old roles fits. */
  lemma EntryTaken(s: Sys, t: Sys, own: Owners, own1: Owners, l: Layout, k: nat)
    requires Owned(s, own, l) && k < HEAP_PAGES && Keeps(own, own1)
    requires t.ram[l.kheap][k] == NewDirectory(s) * 4096 + 3
    requires s.ram[l.kheap][k] != 0 || Scanned(s) == {}
    ensures !Owned(t, own1, l)
  {
    NewFrameNotHeap(s, own, l);
    var g, e := NewDirectory(s), s.ram[l.kheap][k];
    EntryBits(g);
    assert HeapEntryOk(s.ram, own, l, k);
    if e != 0 {
      EntryBits(FrameOf(e));
      assert IsHeapPage(own1, FrameOf(e)) && own1[FrameOf(e)].kheapPage == k;
      assert !HeapPageOk(t.ram, l, FrameOf(e), k);
    } else {
      assert Has(own1, 0, Reserved);
      assert !HeapEntryOk(t.ram, own1, l, k);
    }
    assert !HeapOk(t.ram, own1, l);
  }

  /** A creation that finds no heap page, for which page 0 is mapped. */
  lemma FailedCreationIff(s: Sys, own: Owners, l: Layout)
    requires Owned(s, own, l) && HeapWindowOk(s, l.kheap)
    ensures (exists own1 :: Keeps(own, own1) && Owned(HeapMapPages(s, l.kheap, 0, 1), own1, l))
       <==> s.ram[l.kheap][0] == 0 && Scanned(s) != {}
  {
    OneEntryMapped(s, l.kheap, 0);
    HeapMapOwnedIff(s, own, l, 0);
  }

  /* ---------- Runs ---------- */

  /** The machine, the process directories and the kernel-heap pages that are free. */
  datatype Spaces = Spaces(s: Sys, dirs: set<Frame>, heapFree: set<nat>)

  /** In some ownership, `dirs` are exactly the directories, and free heap pages are not mapped. */
  ghost predicate Consistent(a: Spaces, l: Layout) {
    && (exists own :: Owned(a.s, own, l) && DirectoriesAre(own, a.dirs))
    && (forall k: nat :: k in a.heapFree && k < HEAP_PAGES ==> a.s.ram[l.kheap][k] == 0)
  }

  ghost predicate DirectoriesAre(own: Owners, dirs: set<Frame>) {
    forall f: Frame :: IsDirectory(own, f) <==> f in dirs
  }

  datatype Action =
    | Create(heapPage: nat)
    | HeapPageTaken(heapPage: nat)
    | Switch(dir: Frame)
    | Map(address: Word, numPages: Word)
    | Write

  /** One successful call: a creation, or a heap page taken for something else, on a free heap page with a
      table entry and with a frame to spare; a switch to a process directory; an mmap in one with enough
      frames; or any stores to its mapped user pages, by the program or by the loader. */
  ghost predicate Next(a: Spaces, act: Action, b: Spaces, l: Layout) {
    match act
    case Create(k) =>
      && k in a.heapFree && k < HEAP_PAGES && P.InAddressSpace(a.s.frames.available) && Scanned(a.s) != {}
      && b == Spaces(CreateSpace(a.s, l, k), a.dirs + {NewDirectory(a.s)}, a.heapFree - {k})
    case HeapPageTaken(k) =>
      && k in a.heapFree && k < HEAP_PAGES && P.InAddressSpace(a.s.frames.available) && Scanned(a.s) != {}
      && b == Spaces(HeapMap(a.s, l.kheap, k), a.dirs, a.heapFree - {k})
    case Switch(dir) =>
      dir in a.dirs && b == a.(s := a.s.(cr3 := dir))
    case Map(address, numPages) =>
      && a.s.cr3 in a.dirs && WindowOk(a.s)
      && (MmapAccepts(address, numPages) ==> EnoughFor(a.s, address, numPages))
      && b == a.(s := MmapResult(a.s, address, numPages))
    case Write =>
      a.s.cr3 in a.dirs && b == a.(s := b.s) && UserWrites(a.s, b.s)
  }

  /** Only frames behind mapped user pages of the current space changed. */
  ghost predicate UserWrites(s: Sys, t: Sys) {
    t == s.(ram := t.ram) && forall f: Frame :: t.ram[f] != s.ram[f] ==> UserTarget(s, f)
  }

  ghost predicate UserTarget(s: Sys, f: Frame) {
    exists q: Frame :: q < USER_PAGES && Translate(s.ram, s.cr3, q).Some? && Translate(s.ram, s.cr3, q).value.frame == f
  }

  /** What the loader stores after mmap is such a step. */
  lemma DataOnlyIsUserWrites(s: Sys, t: Sys, own: Owners, l: Layout, page: nat, n: nat)
    requires Running(s, own, l) && DataOnly(s, t, own, page, n)
    ensures UserWrites(s, t)
  {
    forall f: Frame | t.ram[f] != s.ram[f]
      ensures UserTarget(s, f)
    {
      var q := own[f].page;
      assert PageOk(s.ram, own, f, s.cr3, q);
      UserTranslation(s, own, l, s.cr3, q);
      assert s.(cr3 := s.cr3) == s;
      EntryBits(f);
    }
  }

  ghost predicate EnoughFor(s: Sys, address: Word, numPages: Word)
    requires MmapAccepts(address, numPages)
  {
    MmapTurnsFit(address, numPages);
    Needed(s, address / 4096, MmapTurns(address, numPages)) <= |Scanned(s)|
  }

  lemma NextKeepsConsistent(a: Spaces, act: Action, b: Spaces, l: Layout)
    requires Consistent(a, l) && Next(a, act, b, l)
    ensures Consistent(b, l)
  {
    var own :| Owned(a.s, own, l) && DirectoriesAre(own, a.dirs);
    match act
    case Create(k) => CreateConsistent(a, own, k, b, l);
    case HeapPageTaken(k) => HeapPageTakenConsistent(a, own, k, b, l);
    case Switch(dir) => SwitchConsistent(a, own, dir, b, l);
    case Map(address, numPages) => MapConsistent(a, own, address, numPages, b, l);
    case Write => WriteConsistent(a, own, b, l);
  }

  lemma CreateConsistent(a: Spaces, own: Owners, k: nat, b: Spaces, l: Layout)
    requires Consistent(a, l) && Owned(a.s, own, l) && DirectoriesAre(own, a.dirs) && Next(a, Create(k), b, l)
    ensures Consistent(b, l)
  {
    var own1 := CreateOwned(a.s, own, l, k);
    assert DirectoriesAre(own1, b.dirs);
    assert b.s.ram[l.kheap] == a.s.ram[l.kheap][k := NewDirectory(a.s) * 4096 + 3];
  }

  lemma HeapPageTakenConsistent(a: Spaces, own: Owners, k: nat, b: Spaces, l: Layout)
    requires Consistent(a, l) && Owned(a.s, own, l) && DirectoriesAre(own, a.dirs) && Next(a, HeapPageTaken(k), b, l)
    ensures Consistent(b, l)
  {
    var own1 := HeapMapOwned(a.s, own, l, k);
    assert DirectoriesAre(own1, b.dirs);
    assert b.s.ram[l.kheap] == a.s.ram[l.kheap][k := AllocFrame(a.s).1 + 3];
  }

  lemma SwitchConsistent(a: Spaces, own: Owners, dir: Frame, b: Spaces, l: Layout)
    requires Consistent(a, l) && Owned(a.s, own, l) && DirectoriesAre(own, a.dirs) && Next(a, Switch(dir), b, l)
    ensures Consistent(b, l)
  {
    assert IsDirectory(own, dir) && DirectoryOk(a.s.ram, own, l, dir);
    assert Owned(b.s, own, l);
  }

  lemma MapConsistent(a: Spaces, own: Owners, address: Word, numPages: Word, b: Spaces, l: Layout)
    requires Consistent(a, l) && Owned(a.s, own, l) && DirectoriesAre(own, a.dirs)
    requires Next(a, Map(address, numPages), b, l)
    ensures Consistent(b, l)
  {
    assert IsDirectory(own, a.s.cr3);
    if MmapAccepts(address, numPages) {
      MmapTurnsFit(address, numPages);
      var page, n := address / 4096, MmapTurns(address, numPages);
      var own1 := MmapMapsPrivately(a.s, own, l, page, n);
      assert DirectoriesAre(own1, b.dirs);
      assert l.kheap in own && own[l.kheap] == Reserved;
      assert b.s.ram[l.kheap] == a.s.ram[l.kheap];
    }
  }

  lemma WriteConsistent(a: Spaces, own: Owners, b: Spaces, l: Layout)
    requires Consistent(a, l) && Owned(a.s, own, l) && DirectoriesAre(own, a.dirs) && Next(a, Write, b, l)
    ensures Consistent(b, l)
  {
    assert IsDirectory(own, a.s.cr3);
    OwnedWindow(a.s, own, l);
    forall f: Frame | b.s.ram[f] != a.s.ram[f]
      ensures InPages(own, f, a.s.cr3, 0, USER_PAGES)
    {
      assert UserTarget(a.s, f);
      var q: Frame :| q < USER_PAGES && Translate(a.s.ram, a.s.cr3, q).Some?
        && Translate(a.s.ram, a.s.cr3, q).value.frame == f;
      UserTranslation(a.s, own, l, a.s.cr3, q);
    }
    assert DataOnly(a.s, b.s, own, 0, USER_PAGES);
    DataOnlyOwned(a.s, b.s, own, l, 0, USER_PAGES);
    StructureFramesKept(a.s, b.s, own, l, 0, USER_PAGES);
  }

  /** A run: states a[0], a[1], ... each the result of one action on the one before. */
  ghost predicate IsRun(states: seq<Spaces>, acts: seq<Action>, l: Layout) {
    |states| == |acts| + 1 && forall i :: 0 <= i < |acts| ==> Next(states[i], acts[i], states[i + 1], l)
  }

  /** In every state of every run no two user pages share a frame, every mapped user frame is unavailable,
      and all directories agree on the kernel half. */
  lemma {:induction false} RunsKeepSpacesApart(states: seq<Spaces>, acts: seq<Action>, l: Layout, i: nat)
    requires IsRun(states, acts, l) && Consistent(states[0], l) && i < |states|
    ensures Consistent(states[i], l)
    ensures SpacesApart(states[i])
    decreases i
  {
    hide Next, Consistent, SpacesApart;
    if i > 0 {
      RunsKeepSpacesApart(states, acts, l, i - 1);
      NextKeepsConsistent(states[i - 1], acts[i - 1], states[i], l);
    }
    ConsistentApart(states[i], l);
  }

  ghost predicate SpacesApart(a: Spaces) {
    && (forall d1: Frame, p1: Frame, d2: Frame, p2: Frame ::
          d1 in a.dirs && d2 in a.dirs && p1 < USER_PAGES && p2 < USER_PAGES
          && Translate(a.s.ram, d1, p1).Some? && Translate(a.s.ram, d2, p2).Some?
          && Translate(a.s.ram, d1, p1).value.frame == Translate(a.s.ram, d2, p2).value.frame
          ==> d1 == d2 && p1 == p2)
    && (forall d: Frame, p: Frame :: d in a.dirs && p < USER_PAGES && Translate(a.s.ram, d, p).Some?
          ==> Translate(a.s.ram, d, p).value.frame !in a.s.frames.available)
    && (forall d1: Frame, d2: Frame, e :: d1 in a.dirs && d2 in a.dirs && KERNEL_SLOT <= e < RECURSIVE_SLOT
          ==> a.s.ram[d1][e] == a.s.ram[d2][e])
  }

  lemma ConsistentApart(a: Spaces, l: Layout)
    requires Consistent(a, l)
    ensures SpacesApart(a)
  {
    hide Owned;
    var own :| Owned(a.s, own, l) && DirectoriesAre(own, a.dirs);
    forall d1: Frame, p1: Frame, d2: Frame, p2: Frame |
      d1 in a.dirs && d2 in a.dirs && p1 < USER_PAGES && p2 < USER_PAGES
      && Translate(a.s.ram, d1, p1).Some? && Translate(a.s.ram, d2, p2).Some?
      && Translate(a.s.ram, d1, p1).value.frame == Translate(a.s.ram, d2, p2).value.frame
      ensures d1 == d2 && p1 == p2
    {
      assert IsDirectory(own, d1) && IsDirectory(own, d2);
      NoSharing(a.s, own, l, d1, p1, d2, p2);
    }
    forall d: Frame, p: Frame | d in a.dirs && p < USER_PAGES && Translate(a.s.ram, d, p).Some?
      ensures Translate(a.s.ram, d, p).value.frame !in a.s.frames.available
    {
      assert IsDirectory(own, d);
      NoSharing(a.s, own, l, d, p, d, p);
    }
    forall d1: Frame, d2: Frame, e | d1 in a.dirs && d2 in a.dirs && KERNEL_SLOT <= e < RECURSIVE_SLOT
      ensures a.s.ram[d1][e] == a.s.ram[d2][e]
    {
      assert IsDirectory(own, d1) && IsDirectory(own, d2);
      KernelSlotsAgree(a.s, own, l, d1, d2, e);
    }
  }
}
