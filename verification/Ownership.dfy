/** Who uses each physical frame. The invariant says that every frame referenced by a page directory, a
    user page table or the kernel-heap table is unavailable to the allocator and referenced from exactly
    one place. */
module Ownership {
  import opened Common
  import opened Paging
  import opened KernelState
  import P = PhysicalMemory
  import opened VirtualMemory

  const KHEAP_PAGES: nat := 1024

  /** The frames of kernel_page_tables and kheap_page_tables, fixed when the kernel is linked. */
  datatype Layout = Layout(kernel0: Frame, kernel1: Frame, kheap: Frame)

  datatype Role =
    | Reserved
    | Directory(kheapPage: nat)
    | KheapPage(kheapPage: nat)
    | UserTable(dir: Frame, slot: nat)
    | UserPage(dir: Frame, page: nat)

  type Owners = map<Frame, Role>

  ghost predicate Has(own: Owners, f: Frame, role: Role) {
    f in own && own[f] == role
  }

  ghost predicate IsDirectory(own: Owners, f: Frame) {
    f in own && own[f].Directory?
  }

  ghost predicate IsTable(own: Owners, f: Frame) {
    f in own && own[f].UserTable?
  }

  ghost predicate IsUserPage(own: Owners, f: Frame) {
    f in own && own[f].UserPage?
  }

  ghost predicate IsHeapPage(own: Owners, f: Frame) {
    f in own && (own[f].Directory? || own[f].KheapPage?)
  }

  /** The slots every directory has: the kernel, the kernel heap and itself; nothing else above user space. */
  ghost predicate CommonSlots(ram: Ram, dir: Frame, l: Layout) {
    && ram[dir][768] == l.kernel0 * 4096 + 3 && ram[dir][769] == l.kernel1 * 4096 + 3
    && ram[dir][770] == l.kheap * 4096 + 3
    && ram[dir][1023] == dir * 4096 + 3
    && (forall d :: 771 <= d < 1023 ==> ram[dir][d] == 0)
  }

  /** A user slot is empty or holds the table this directory owns for it. */
  ghost predicate SlotOk(ram: Ram, own: Owners, dir: Frame, d: nat)
    requires d < ENTRIES
  {
    var e := ram[dir][d];
    e == 0 || (Has(own, FrameOf(e), UserTable(dir, d)) && e == FrameOf(e) * 4096 + 7)
  }

  /** A user table entry is empty or holds the page this directory owns at that place. */
  ghost predicate EntryOk(ram: Ram, own: Owners, table: Frame, dir: Frame, d: nat, t: nat)
    requires t < ENTRIES
  {
    var e := ram[table][t];
    e == 0 || (Has(own, FrameOf(e), UserPage(dir, d * 1024 + t)) && e == FrameOf(e) * 4096 + 7)
  }

  ghost predicate HeapEntryOk(ram: Ram, own: Owners, l: Layout, k: nat)
    requires k < ENTRIES
  {
    var e := ram[l.kheap][k];
    e == 0 || (IsHeapPage(own, FrameOf(e)) && own[FrameOf(e)].kheapPage == k && e == FrameOf(e) * 4096 + 3)
  }

  ghost predicate DirectoryOk(ram: Ram, own: Owners, l: Layout, dir: Frame) {
    CommonSlots(ram, dir, l) && forall d :: 0 <= d < KERNEL_SLOT ==> SlotOk(ram, own, dir, d)
  }

  ghost predicate TableOk(ram: Ram, own: Owners, table: Frame, dir: Frame, d: nat) {
    && d < KERNEL_SLOT && IsDirectory(own, dir) && ram[dir][d] == table * 4096 + 7
    && forall t :: 0 <= t < ENTRIES ==> EntryOk(ram, own, table, dir, d, t)
  }

  ghost predicate PageOk(ram: Ram, own: Owners, f: Frame, dir: Frame, page: nat) {
    && page < USER_PAGES && IsDirectory(own, dir) && ram[dir][page / ENTRIES] != 0
    && ram[FrameOf(ram[dir][page / ENTRIES])][page % ENTRIES] == f * 4096 + 7
  }

  ghost predicate HeapPageOk(ram: Ram, l: Layout, f: Frame, k: nat) {
    k < KHEAP_PAGES && ram[l.kheap][k] == f * 4096 + 3
  }

  ghost predicate DirectoriesOk(ram: Ram, own: Owners, l: Layout) {
    forall dir: Frame :: IsDirectory(own, dir) ==> DirectoryOk(ram, own, l, dir)
  }

  ghost predicate TablesOk(ram: Ram, own: Owners) {
    forall f: Frame :: IsTable(own, f) ==> TableOk(ram, own, f, own[f].dir, own[f].slot)
  }

  ghost predicate PagesOk(ram: Ram, own: Owners) {
    forall f: Frame :: IsUserPage(own, f) ==> PageOk(ram, own, f, own[f].dir, own[f].page)
  }

  ghost predicate HeapOk(ram: Ram, own: Owners, l: Layout) {
    && (forall k :: 0 <= k < KHEAP_PAGES ==> HeapEntryOk(ram, own, l, k))
    && (forall f: Frame :: IsHeapPage(own, f) ==> HeapPageOk(ram, l, f, own[f].kheapPage))
  }

  ghost predicate LayoutOk(own: Owners, l: Layout) {
    && Has(own, 0, Reserved) && Has(own, l.kernel0, Reserved) && Has(own, l.kernel1, Reserved)
    && Has(own, l.kheap, Reserved) && l.kheap != 0
  }

  ghost predicate FramesOk(s: Sys, own: Owners) {
    && 0 < s.first && P.InAddressSpace(s.frames.available) && P.FlagHonest(s.frames, s.first)
    && (forall f: Frame :: f in own ==> f !in s.frames.available)
  }

  /** The ownership invariant. The current directory is a process directory or the reserved boot one. */
  ghost predicate Owned(s: Sys, own: Owners, l: Layout) {
    && FramesOk(s, own) && LayoutOk(own, l)
    && s.cr3 in own && s.cr3 != 0 && s.cr3 != l.kheap && CommonSlots(s.ram, s.cr3, l)
    && DirectoriesOk(s.ram, own, l) && TablesOk(s.ram, own) && PagesOk(s.ram, own) && HeapOk(s.ram, own, l)
  }

  /* ---------- What the invariant means ---------- */

  /** No two user pages, in the same or in different address spaces, share a frame. */
  lemma NoSharing(s: Sys, own: Owners, l: Layout, dir1: Frame, page1: Frame, dir2: Frame, page2: Frame)
    requires Owned(s, own, l) && IsDirectory(own, dir1) && IsDirectory(own, dir2)
    requires page1 < USER_PAGES && page2 < USER_PAGES
    requires Translate(s.ram, dir1, page1).Some? && Translate(s.ram, dir2, page2).Some?
    requires Translate(s.ram, dir1, page1).value.frame == Translate(s.ram, dir2, page2).value.frame
    ensures dir1 == dir2 && page1 == page2
    ensures Translate(s.ram, dir1, page1).value.frame !in s.frames.available
  {
    UserTranslation(s, own, l, dir1, page1);
    UserTranslation(s, own, l, dir2, page2);
  }

  /** A user page is mapped exactly when it exists, and then to a present, writable, user frame it owns. */
  lemma UserTranslation(s: Sys, own: Owners, l: Layout, dir: Frame, page: Frame)
    requires Owned(s, own, l) && IsDirectory(own, dir) && page < USER_PAGES
    ensures Translate(s.ram, dir, page).Some? <==> Exists(s.(cr3 := dir), page)
    ensures Translate(s.ram, dir, page).Some? ==>
              && Translate(s.ram, dir, page).value.writable && Translate(s.ram, dir, page).value.user
              && Has(own, Translate(s.ram, dir, page).value.frame, UserPage(dir, page))
  {
    var d, t := page / ENTRIES, page % ENTRIES;
    assert page == d * 1024 + t;
    assert DirectoryOk(s.ram, own, l, dir);
    assert SlotOk(s.ram, own, dir, d);
    var e := s.ram[dir][d];
    if e != 0 {
      var table := FrameOf(e);
      EntryBits(table);
      assert IsTable(own, table);
      assert TableOk(s.ram, own, table, dir, d);
      assert EntryOk(s.ram, own, table, dir, d, t);
      if s.ram[table][t] != 0 {
        EntryBits(FrameOf(s.ram[table][t]));
      }
    }
  }

  /** All directories agree on the kernel and kernel-heap slots. */
  lemma KernelSlotsAgree(s: Sys, own: Owners, l: Layout, dir1: Frame, dir2: Frame, d: nat)
    requires Owned(s, own, l) && IsDirectory(own, dir1) && IsDirectory(own, dir2)
    requires KERNEL_SLOT <= d < RECURSIVE_SLOT
    ensures s.ram[dir1][d] == s.ram[dir2][d]
  {
    assert DirectoryOk(s.ram, own, l, dir1) && DirectoryOk(s.ram, own, l, dir2);
  }

  lemma OwnedWindow(s: Sys, own: Owners, l: Layout)
    requires Owned(s, own, l) && IsDirectory(own, s.cr3)
    ensures WindowOk(s)
  {
    EntryBits(s.cr3);
    assert DirectoryOk(s.ram, own, l, s.cr3);
    forall d | 0 <= d < KERNEL_SLOT && s.ram[s.cr3][d] != 0
      ensures Present(s.ram[s.cr3][d]) && FrameOf(s.ram[s.cr3][d]) != s.cr3
    {
      assert SlotOk(s.ram, own, s.cr3, d);
      EntryBits(FrameOf(s.ram[s.cr3][d]));
    }
  }

  /* ---------- One allocation, one table, one page ---------- */

  /** While a scanned frame is available the allocator returns the lowest one. */
  lemma TakeFrame(s: Sys, own: Owners, l: Layout) returns (f: Frame)
    requires Owned(s, own, l) && AtOrAbove(s.frames.available, s.first) != {}
    ensures f in AtOrAbove(s.frames.available, s.first) && f !in own
    ensures AllocFrame(s) == (s.(frames := s.frames.(available := s.frames.available - {f})), f * 4096)
    ensures Owned(AllocFrame(s).0, own, l)
    ensures AtOrAbove(AllocFrame(s).0.frames.available, s.first) == AtOrAbove(s.frames.available, s.first) - {f}
  {
    f := Lowest(AtOrAbove(s.frames.available, s.first));
    assert !s.frames.noPageAvailable;
  }

  /** The ram after directory slot d of `dir` received the zeroed table f. */
  function TableInstalled(ram: Ram, dir: Frame, d: nat, f: Frame): Ram
    requires d < ENTRIES
  {
    SetEntry(ram, dir, d, f * 4096 + 7)[f := ZERO_PAGE]
  }

  lemma InstallOwned(s: Sys, own: Owners, l: Layout, d: nat, f: Frame)
    requires Owned(s, own, l) && IsDirectory(own, s.cr3) && d < KERNEL_SLOT && s.ram[s.cr3][d] == 0
    requires f !in own && f !in s.frames.available
    ensures Owned(s.(ram := TableInstalled(s.ram, s.cr3, d, f)), own[f := UserTable(s.cr3, d)], l)
  {
    var ram, own1 := TableInstalled(s.ram, s.cr3, d, f), own[f := UserTable(s.cr3, d)];
    InstallDirectories(s, own, l, d, f);
    InstallTables(s, own, l, d, f);
    InstallPages(s, own, l, d, f);
    InstallHeap(s, own, l, d, f);
  }

  lemma InstallDirectories(s: Sys, own: Owners, l: Layout, d: nat, f: Frame)
    requires Owned(s, own, l) && IsDirectory(own, s.cr3) && d < KERNEL_SLOT && s.ram[s.cr3][d] == 0
    requires f !in own
    ensures DirectoriesOk(TableInstalled(s.ram, s.cr3, d, f), own[f := UserTable(s.cr3, d)], l)
  {
    var ram, own1 := TableInstalled(s.ram, s.cr3, d, f), own[f := UserTable(s.cr3, d)];
    EntryBits(f);
    forall dir: Frame | IsDirectory(own1, dir)
      ensures DirectoryOk(ram, own1, l, dir)
    {
      assert DirectoryOk(s.ram, own, l, dir);
      forall e | 0 <= e < KERNEL_SLOT
        ensures SlotOk(ram, own1, dir, e)
      {
        assert SlotOk(s.ram, own, dir, e);
      }
    }
  }

  lemma InstallTables(s: Sys, own: Owners, l: Layout, d: nat, f: Frame)
    requires Owned(s, own, l) && IsDirectory(own, s.cr3) && d < KERNEL_SLOT && s.ram[s.cr3][d] == 0
    requires f !in own
    ensures TablesOk(TableInstalled(s.ram, s.cr3, d, f), own[f := UserTable(s.cr3, d)])
  {
    var ram, own1 := TableInstalled(s.ram, s.cr3, d, f), own[f := UserTable(s.cr3, d)];
    forall g: Frame | IsTable(own1, g)
      ensures TableOk(ram, own1, g, own1[g].dir, own1[g].slot)
    {
      if g != f {
        var dir, e := own[g].dir, own[g].slot;
        assert TableOk(s.ram, own, g, dir, e);
        forall t | 0 <= t < ENTRIES
          ensures EntryOk(ram, own1, g, dir, e, t)
        {
          assert EntryOk(s.ram, own, g, dir, e, t);
        }
      }
    }
  }

  lemma InstallPages(s: Sys, own: Owners, l: Layout, d: nat, f: Frame)
    requires Owned(s, own, l) && IsDirectory(own, s.cr3) && d < KERNEL_SLOT && s.ram[s.cr3][d] == 0
    requires f !in own
    ensures PagesOk(TableInstalled(s.ram, s.cr3, d, f), own[f := UserTable(s.cr3, d)])
  {
    var ram, own1 := TableInstalled(s.ram, s.cr3, d, f), own[f := UserTable(s.cr3, d)];
    forall g: Frame | IsUserPage(own1, g)
      ensures PageOk(ram, own1, g, own1[g].dir, own1[g].page)
    {
      var dir, page := own[g].dir, own[g].page;
      assert PageOk(s.ram, own, g, dir, page);
      assert DirectoryOk(s.ram, own, l, dir);
      assert SlotOk(s.ram, own, dir, page / ENTRIES);
    }
  }

  lemma InstallHeap(s: Sys, own: Owners, l: Layout, d: nat, f: Frame)
    requires Owned(s, own, l) && IsDirectory(own, s.cr3) && d < KERNEL_SLOT && s.ram[s.cr3][d] == 0
    requires f !in own
    ensures HeapOk(TableInstalled(s.ram, s.cr3, d, f), own[f := UserTable(s.cr3, d)], l)
  {
    var ram, own1 := TableInstalled(s.ram, s.cr3, d, f), own[f := UserTable(s.cr3, d)];
    assert ram[l.kheap] == s.ram[l.kheap];
    forall k | 0 <= k < KHEAP_PAGES
      ensures HeapEntryOk(ram, own1, l, k)
    {
      assert HeapEntryOk(s.ram, own, l, k);
    }
    forall g: Frame | IsHeapPage(own1, g)
      ensures HeapPageOk(ram, l, g, own1[g].kheapPage)
    {
      assert HeapPageOk(s.ram, l, g, own[g].kheapPage);
    }
  }

  /** The ram after the empty entry of `page` received frame f. */
  function PageInstalled(ram: Ram, dir: Frame, page: Frame, f: Frame): Ram {
    SetEntry(ram, FrameOf(ram[dir][page / ENTRIES]), page % ENTRIES, f * 4096 + 7)
  }

  ghost predicate CanInstall(s: Sys, own: Owners, l: Layout, page: Frame, f: Frame) {
    && Owned(s, own, l) && IsDirectory(own, s.cr3) && page < USER_PAGES
    && s.ram[s.cr3][page / ENTRIES] != 0 && !Exists(s, page)
    && f !in own && f !in s.frames.available
  }

  lemma PutOwned(s: Sys, own: Owners, l: Layout, page: Frame, f: Frame)
    requires CanInstall(s, own, l, page, f)
    ensures Owned(s.(ram := PageInstalled(s.ram, s.cr3, page, f)), own[f := UserPage(s.cr3, page)], l)
  {
    UserTableOf(s, own, l, page);
    PutDirectories(s, own, l, page, f);
    PutTables(s, own, l, page, f);
    PutPages(s, own, l, page, f);
    PutHeap(s, own, l, page, f);
  }

  lemma UserTableOf(s: Sys, own: Owners, l: Layout, page: Frame)
    requires Owned(s, own, l) && IsDirectory(own, s.cr3) && page < USER_PAGES
    requires s.ram[s.cr3][page / ENTRIES] != 0
    ensures Has(own, FrameOf(s.ram[s.cr3][page / ENTRIES]), UserTable(s.cr3, page / ENTRIES))
  {
    assert DirectoryOk(s.ram, own, l, s.cr3);
    assert SlotOk(s.ram, own, s.cr3, page / ENTRIES);
  }

  lemma PutDirectories(s: Sys, own: Owners, l: Layout, page: Frame, f: Frame)
    requires CanInstall(s, own, l, page, f)
    ensures DirectoriesOk(PageInstalled(s.ram, s.cr3, page, f), own[f := UserPage(s.cr3, page)], l)
  {
    var ram, own1 := PageInstalled(s.ram, s.cr3, page, f), own[f := UserPage(s.cr3, page)];
    UserTableOf(s, own, l, page);
    forall dir: Frame | IsDirectory(own1, dir)
      ensures DirectoryOk(ram, own1, l, dir)
    {
      assert DirectoryOk(s.ram, own, l, dir);
      forall e | 0 <= e < KERNEL_SLOT
        ensures SlotOk(ram, own1, dir, e)
      {
        assert SlotOk(s.ram, own, dir, e);
      }
    }
  }

  lemma PutTables(s: Sys, own: Owners, l: Layout, page: Frame, f: Frame)
    requires CanInstall(s, own, l, page, f)
    ensures TablesOk(PageInstalled(s.ram, s.cr3, page, f), own[f := UserPage(s.cr3, page)])
  {
    var ram, own1 := PageInstalled(s.ram, s.cr3, page, f), own[f := UserPage(s.cr3, page)];
    UserTableOf(s, own, l, page);
    EntryBits(f);
    forall g: Frame | IsTable(own1, g)
      ensures TableOk(ram, own1, g, own1[g].dir, own1[g].slot)
    {
      var dir, e := own[g].dir, own[g].slot;
      assert TableOk(s.ram, own, g, dir, e);
      forall t | 0 <= t < ENTRIES
        ensures EntryOk(ram, own1, g, dir, e, t)
      {
        assert EntryOk(s.ram, own, g, dir, e, t);
      }
    }
  }

  lemma PutPages(s: Sys, own: Owners, l: Layout, page: Frame, f: Frame)
    requires CanInstall(s, own, l, page, f)
    ensures PagesOk(PageInstalled(s.ram, s.cr3, page, f), own[f := UserPage(s.cr3, page)])
  {
    var ram, own1 := PageInstalled(s.ram, s.cr3, page, f), own[f := UserPage(s.cr3, page)];
    UserTableOf(s, own, l, page);
    forall g: Frame | IsUserPage(own1, g)
      ensures PageOk(ram, own1, g, own1[g].dir, own1[g].page)
    {
      if g != f {
        var dir, q := own[g].dir, own[g].page;
        assert PageOk(s.ram, own, g, dir, q);
        assert DirectoryOk(s.ram, own, l, dir);
        assert SlotOk(s.ram, own, dir, q / ENTRIES);
      }
    }
  }

  lemma PutHeap(s: Sys, own: Owners, l: Layout, page: Frame, f: Frame)
    requires CanInstall(s, own, l, page, f)
    ensures HeapOk(PageInstalled(s.ram, s.cr3, page, f), own[f := UserPage(s.cr3, page)], l)
  {
    var ram, own1 := PageInstalled(s.ram, s.cr3, page, f), own[f := UserPage(s.cr3, page)];
    UserTableOf(s, own, l, page);
    assert ram[l.kheap] == s.ram[l.kheap];
    forall k | 0 <= k < KHEAP_PAGES
      ensures HeapEntryOk(ram, own1, l, k)
    {
      assert HeapEntryOk(s.ram, own, l, k);
    }
    forall g: Frame | IsHeapPage(own1, g)
      ensures HeapPageOk(ram, l, g, own1[g].kheapPage)
    {
      assert HeapPageOk(s.ram, l, g, own[g].kheapPage);
    }
  }
}
