/** What mmap guarantees: the range becomes private, present, writable user memory, everything else below
    the recursive window translates as before, and this holds exactly when enough frames are available. */
module MmapTheorems {
  import opened Common
  import opened Paging
  import opened KernelState
  import P = PhysicalMemory
  import opened VirtualMemory
  import opened Ownership

  /** The first virtual page of the recursive window. */
  const WINDOW_PAGE: nat := 1023 * 1024

  /** The invariant with a process directory in CR3; WindowOk is a consequence (OwnedWindow). */
  ghost predicate Running(s: Sys, own: Owners, l: Layout) {
    Owned(s, own, l) && IsDirectory(own, s.cr3) && WindowOk(s)
  }

  ghost function Scanned(s: Sys): set<nat> {
    AtOrAbove(s.frames.available, s.first)
  }

  /** `own1` keeps every role of `own` and adds only user tables and user pages. */
  ghost predicate Extends(own: Owners, own1: Owners) {
    && (forall f: Frame :: f in own ==> f in own1 && own1[f] == own[f])
    && (forall f: Frame :: f in own1 && f !in own ==> own1[f].UserTable? || own1[f].UserPage?)
  }

  ghost predicate IsTableOf(own: Owners, f: Frame, dir: Frame) {
    f in own && own[f].UserTable? && own[f].dir == dir
  }

  /** Only the current directory and its user tables (by the ownership `own` after the change) were written;
      in particular fresh user pages keep what their frames held. */
  ghost predicate FramesUntouched(s: Sys, t: Sys, own: Owners) {
    forall f: Frame :: f != s.cr3 && !IsTableOf(own, f, s.cr3) ==> t.ram[f] == s.ram[f]
  }

  /** Below the window, pages outside [page, page + n) and pages already mapped translate as before. */
  ghost predicate TranslationsKept(s: Sys, t: Sys, page: nat, n: nat) {
    forall q: Frame :: q < WINDOW_PAGE && (!(page <= q < page + n) || Translate(s.ram, s.cr3, q).Some?)
      ==> Translate(t.ram, s.cr3, q) == Translate(s.ram, s.cr3, q)
  }

  /** From s to t nothing but [page, page + n) of the current space changed. */
  ghost predicate Confined(s: Sys, t: Sys, own: Owners, page: nat, n: nat) {
    t.cr3 == s.cr3 && t.first == s.first && FramesUntouched(s, t, own) && TranslationsKept(s, t, page, n)
  }

  /** Every page of the range is present, writable and user, in a frame of its own. */
  ghost predicate PrivatelyMapped(t: Sys, own: Owners, page: nat, n: nat) {
    forall q: Frame :: page <= q < page + n ==>
      match Translate(t.ram, t.cr3, q)
      case Some(m) => m.writable && m.user && Has(own, m.frame, UserPage(t.cr3, q))
      case None => false
  }

  /* ---------- How many frames a range needs ---------- */

  ghost function MissingPages(s: Sys, page: nat, n: nat): set<nat>
    requires page + n <= USER_PAGES
  {
    set q | q in Interval(page, page + n) && !Exists(s, q)
  }

  /** Empty directory slots that cover part of [page, page + n). */
  ghost function MissingTables(s: Sys, page: nat, n: nat): set<nat> {
    set d | d in Interval(0, KERNEL_SLOT) && s.ram[s.cr3][d] == 0 && d * 1024 < page + n && page < (d + 1) * 1024
      && 0 < n
  }

  ghost function Needed(s: Sys, page: nat, n: nat): nat
    requires page + n <= USER_PAGES
  {
    |MissingPages(s, page, n)| + |MissingTables(s, page, n)|
  }

  lemma NothingNeeded(s: Sys, page: nat)
    requires page <= USER_PAGES
    ensures Needed(s, page, 0) == 0
  {
    assert MissingPages(s, page, 0) == {} && MissingTables(s, page, 0) == {};
  }

  /** What mapping one page takes. */
  ghost function Cost(s: Sys, page: Frame): nat {
    if Exists(s, page) then 0 else if s.ram[s.cr3][page / ENTRIES] != 0 then 1 else 2
  }

  /* ---------- One page ---------- */

  lemma InstallKeepsTranslations(s: Sys, own: Owners, l: Layout, d: nat, f: Frame)
    requires Running(s, own, l) && d < KERNEL_SLOT && s.ram[s.cr3][d] == 0
    requires f !in own
    ensures forall q: Frame :: q < WINDOW_PAGE ==>
              Translate(TableInstalled(s.ram, s.cr3, d, f), s.cr3, q) == Translate(s.ram, s.cr3, q)
  {
    var ram := TableInstalled(s.ram, s.cr3, d, f);
    EntryBits(f);
    forall q: Frame | q < WINDOW_PAGE
      ensures Translate(ram, s.cr3, q) == Translate(s.ram, s.cr3, q)
    {
      if q / ENTRIES != d && s.ram[s.cr3][q / ENTRIES] != 0 {
        TableOfPage(s, own, l, q);
      }
    }
  }

  /** The table behind a used slot below the window is owned and is not the directory. */
  lemma TableOfPage(s: Sys, own: Owners, l: Layout, q: Frame)
    requires Running(s, own, l) && q < WINDOW_PAGE && s.ram[s.cr3][q / ENTRIES] != 0
    ensures FrameOf(s.ram[s.cr3][q / ENTRIES]) in own && FrameOf(s.ram[s.cr3][q / ENTRIES]) != s.cr3
    ensures KERNEL_SLOT <= q / ENTRIES ==> Has(own, FrameOf(s.ram[s.cr3][q / ENTRIES]), Reserved)
  {
    var e := q / ENTRIES;
    assert DirectoryOk(s.ram, own, l, s.cr3);
    EntryBits(l.kernel0);
    EntryBits(l.kernel1);
    EntryBits(l.kheap);
    if e < KERNEL_SLOT {
      assert SlotOk(s.ram, own, s.cr3, e);
    } else {
      assert 768 <= e <= 770;
    }
  }

  lemma PutKeepsTranslations(s: Sys, own: Owners, l: Layout, page: Frame, f: Frame)
    requires Running(s, own, l) && CanInstall(s, own, l, page, f)
    ensures forall q: Frame :: q < WINDOW_PAGE && q != page ==>
              Translate(PageInstalled(s.ram, s.cr3, page, f), s.cr3, q) == Translate(s.ram, s.cr3, q)
  {
    var ram := PageInstalled(s.ram, s.cr3, page, f);
    UserTableOf(s, own, l, page);
    var table := FrameOf(s.ram[s.cr3][page / ENTRIES]);
    forall q: Frame | q < WINDOW_PAGE && q != page
      ensures Translate(ram, s.cr3, q) == Translate(s.ram, s.cr3, q)
    {
      if s.ram[s.cr3][q / ENTRIES] != 0 {
        TableOfPage(s, own, l, q);
        if q < USER_PAGES {
          UserTableOf(s, own, l, q);
          assert q / ENTRIES == page / ENTRIES ==> q % ENTRIES != page % ENTRIES;
        }
      }
    }
  }

  /** Installing a table for a page's slot. */
  lemma GiveTable(s: Sys, own: Owners, l: Layout, d: nat) returns (own1: Owners)
    requires Running(s, own, l) && d < KERNEL_SLOT && s.ram[s.cr3][d] == 0 && Scanned(s) != {}
    ensures Running(NewTable(s, d), own1, l) && Extends(own, own1)
    ensures Confined(s, NewTable(s, d), own1, 0, 0)
    ensures NewTable(s, d).ram[s.cr3][d] != 0
    ensures |Scanned(NewTable(s, d))| == |Scanned(s)| - 1
    ensures NewTable(s, d).frames.available <= s.frames.available
    ensures forall f: Frame :: f in own1 && f !in own ==> f in s.frames.available
    ensures forall e :: 0 <= e < KERNEL_SLOT && e != d ==> NewTable(s, d).ram[s.cr3][e] == s.ram[s.cr3][e]
  {
    var f := TakeFrame(s, own, l);
    var s1 := AllocFrame(s).0;
    own1 := own[f := UserTable(s.cr3, d)];
    assert NewTable(s, d) == s1.(ram := TableInstalled(s.ram, s.cr3, d, f));
    InstallOwned(s1, own, l, d, f);
    InstallKeepsTranslations(s, own, l, d, f);
    OwnedWindow(NewTable(s, d), own1, l);
  }

  lemma GivePage(s: Sys, own: Owners, l: Layout, page: Frame, f: Frame) returns (own1: Owners)
    requires Running(s, own, l) && CanInstall(s, own, l, page, f)
    ensures var t := s.(ram := PageInstalled(s.ram, s.cr3, page, f));
            && Running(t, own1, l) && Extends(own, own1)
            && Confined(s, t, own1, page, 1)
            && Exists(t, page)
            && forall e :: 0 <= e < KERNEL_SLOT ==> t.ram[s.cr3][e] == s.ram[s.cr3][e]
  {
    var t := s.(ram := PageInstalled(s.ram, s.cr3, page, f));
    own1 := own[f := UserPage(s.cr3, page)];
    UserTableOf(s, own, l, page);
    PutOwned(s, own, l, page, f);
    PutKeepsTranslations(s, own, l, page, f);
    OwnedWindow(t, own1, l);
    UserTranslation(s, own, l, s.cr3, page);
  }

  lemma ConfinedComposes(s: Sys, t: Sys, u: Sys, own: Owners, own1: Owners, page: nat, m: nat, n: nat)
    requires Extends(own, own1)
    requires Confined(s, t, own, page, m) && Confined(t, u, own1, page + m, n)
    ensures Confined(s, u, own1, page, m + n)
  {
    forall f: Frame | f != s.cr3 && !IsTableOf(own1, f, s.cr3)
      ensures u.ram[f] == s.ram[f]
    {
      assert !IsTableOf(own, f, s.cr3);
    }
    forall q: Frame | q < WINDOW_PAGE && (!(page <= q < page + m + n) || Translate(s.ram, s.cr3, q).Some?)
      ensures Translate(u.ram, s.cr3, q) == Translate(s.ram, s.cr3, q)
    {
      assert Translate(t.ram, s.cr3, q) == Translate(s.ram, s.cr3, q);
    }
  }

  /** One turn of mmap's loop with enough frames. */
  lemma MmapPageOwned(s: Sys, own: Owners, l: Layout, page: Frame) returns (own1: Owners)
    requires Running(s, own, l) && page < USER_PAGES && Cost(s, page) <= |Scanned(s)|
    ensures Running(MmapPage(s, page), own1, l) && Extends(own, own1)
    ensures Confined(s, MmapPage(s, page), own1, page, 1)
    ensures Exists(MmapPage(s, page), page)
    ensures |Scanned(MmapPage(s, page))| == |Scanned(s)| - Cost(s, page)
    ensures forall d :: 0 <= d < KERNEL_SLOT && d != page / ENTRIES ==>
        MmapPage(s, page).ram[s.cr3][d] == s.ram[s.cr3][d]
  {
    if Exists(s, page) {
      own1 := own;
    } else {
      var f := TakeFrame(s, own, l);
      var s1 := AllocFrame(s).0;
      OwnedWindow(s1, own, l);
      if s.ram[s.cr3][page / ENTRIES] == 0 {
        own1 := GiveTableAndPage(s1, own, l, page, f);
      } else {
        own1 := GivePage(s1, own, l, page, f);
      }
      ConfinedComposes(s, s1, MmapPage(s, page), own, own1, page, 0, 1);
    }
  }

  /** A page whose directory slot is empty, given frame f already taken from the allocator. */
  lemma GiveTableAndPage(s: Sys, own: Owners, l: Layout, page: Frame, f: Frame) returns (own1: Owners)
    requires Running(s, own, l) && page < USER_PAGES && s.ram[s.cr3][page / ENTRIES] == 0
    requires f !in own && f !in s.frames.available && Scanned(s) != {}
    ensures var t := MapUser(s, page, f * 4096);
            && Running(t, own1, l) && Extends(own, own1) && Confined(s, t, own1, page, 1) && Exists(t, page)
            && |Scanned(t)| == |Scanned(s)| - 1
            && forall d :: 0 <= d < KERNEL_SLOT && d != page / ENTRIES ==> t.ram[s.cr3][d] == s.ram[s.cr3][d]
  {
    hide Owned, WindowOk;
    var d := page / ENTRIES;
    var own2 := GiveTable(s, own, l, d);
    var s2 := NewTable(s, d);
    StillMissing(s, s2, own, own2, l, page);
    own1 := GivePage(s2, own2, l, page, f);
    var t := s2.(ram := PageInstalled(s2.ram, s2.cr3, page, f));
    assert MapUser(s, page, f * 4096) == t;
    ConfinedComposes(s, s2, t, own2, own1, page, 0, 1);
  }

  /** A page that translated to nothing before an unrelated change still does not exist. */
  lemma StillMissing(s: Sys, t: Sys, own: Owners, own1: Owners, l: Layout, page: Frame)
    requires Running(s, own, l) && Running(t, own1, l) && page < USER_PAGES && !Exists(s, page)
    requires Confined(s, t, own1, 0, 0)
    ensures !Exists(t, page)
  {
    UserTranslation(s, own, l, s.cr3, page);
    UserTranslation(t, own1, l, t.cr3, page);
    assert s.(cr3 := s.cr3) == s && t.(cr3 := t.cr3) == t;
  }

  /* ---------- The whole range ---------- */

  /** Mapping the first page uses up exactly its own cost of what the range needs. */
  lemma NeededSteps(s: Sys, t: Sys, own: Owners, own1: Owners, l: Layout, page: Frame, n: nat)
    requires Running(s, own, l) && Running(t, own1, l) && 0 < n && page + n <= USER_PAGES
    requires Confined(s, t, own1, page, 1) && Exists(t, page)
    requires forall d :: 0 <= d < KERNEL_SLOT && d != page / ENTRIES ==> t.ram[s.cr3][d] == s.ram[s.cr3][d]
    ensures Needed(s, page, n) == Cost(s, page) + Needed(t, page + 1, n - 1)
  {
    forall q: Frame | page < q < page + n
      ensures Exists(t, q) <==> Exists(s, q)
    {
      UserTranslation(s, own, l, s.cr3, q);
      UserTranslation(t, own1, l, t.cr3, q);
      assert s.(cr3 := s.cr3) == s && t.(cr3 := t.cr3) == t;
    }
    MissingPagesStep(s, t, page, n);
    MissingTablesStep(s, t, page, n);
  }

  lemma MissingPagesStep(s: Sys, t: Sys, page: Frame, n: nat)
    requires 0 < n && page + n <= USER_PAGES
    requires forall q: Frame :: page < q < page + n ==> (Exists(t, q) <==> Exists(s, q))
    ensures |MissingPages(s, page, n)| == |MissingPages(t, page + 1, n - 1)| + (if Exists(s, page) then 0 else 1)
  {
    var rest := MissingPages(t, page + 1, n - 1);
    if Exists(s, page) {
      assert MissingPages(s, page, n) == rest;
    } else {
      assert MissingPages(s, page, n) == rest + {page};
    }
  }

  lemma MissingTablesStep(s: Sys, t: Sys, page: Frame, n: nat)
    requires 0 < n && page + n <= USER_PAGES && t.cr3 == s.cr3 && Exists(t, page)
    requires forall d :: 0 <= d < KERNEL_SLOT && d != page / ENTRIES ==> t.ram[s.cr3][d] == s.ram[s.cr3][d]
    ensures |MissingTables(s, page, n)|
         == |MissingTables(t, page + 1, n - 1)| + (if s.ram[s.cr3][page / ENTRIES] == 0 then 1 else 0)
  {
    var rest, d := MissingTables(t, page + 1, n - 1), page / ENTRIES;
    forall e
      ensures e in MissingTables(s, page, n) <==> e in rest || (e == d && s.ram[s.cr3][d] == 0)
    {
    }
    if s.ram[s.cr3][d] == 0 {
      assert MissingTables(s, page, n) == rest + {d};
    } else {
      assert MissingTables(s, page, n) == rest;
    }
  }

  /** With the frames it needs, mmap makes the range private user memory and touches nothing else. */
  lemma {:induction false} MmapMapsPrivately(s: Sys, own: Owners, l: Layout, page: nat, n: nat) returns (own1: Owners)
    requires Running(s, own, l) && page + n <= USER_PAGES && Needed(s, page, n) <= |Scanned(s)|
    ensures var t := MmapPages(s, page, n);
            && Running(t, own1, l) && Extends(own, own1)
            && Confined(s, t, own1, page, n)
            && PrivatelyMapped(t, own1, page, n)
            && |Scanned(t)| == |Scanned(s)| - Needed(s, page, n)
    decreases n
  {
    hide Owned, WindowOk, Confined, PrivatelyMapped, Needed, MmapPage, Scanned, Extends;
    if n == 0 {
      NothingNeeded(s, page);
      NothingMapped(s, own, page);
      own1 := own;
    } else {
      var own2 := FirstPageMapped(s, own, l, page, n);
      var u := MmapPage(s, page);
      own1 := MmapMapsPrivately(u, own2, l, page + 1, n - 1);
      var t := MmapPages(u, page + 1, n - 1);
      ConfinedComposes(s, u, t, own2, own1, page, 1, n - 1);
      FirstPageStays(u, t, own2, own1, l, page, n - 1);
      ExtendsComposes(own, own2, own1);
    }
  }

  lemma NothingMapped(s: Sys, own: Owners, page: nat)
    ensures Confined(s, s, own, page, 0) && PrivatelyMapped(s, own, page, 0) && Extends(own, own)
  {
  }

  lemma ExtendsComposes(a: Owners, b: Owners, c: Owners)
    requires Extends(a, b) && Extends(b, c)
    ensures Extends(a, c)
  {
  }

  lemma FirstPageMapped(s: Sys, own: Owners, l: Layout, page: nat, n: nat) returns (own1: Owners)
    requires Running(s, own, l) && 0 < n && page + n <= USER_PAGES && Needed(s, page, n) <= |Scanned(s)|
    ensures var u := MmapPage(s, page);
            && Running(u, own1, l) && Extends(own, own1) && Confined(s, u, own1, page, 1) && Exists(u, page)
            && |Scanned(u)| - Needed(u, page + 1, n - 1) == |Scanned(s)| - Needed(s, page, n)
  {
    FirstCostFits(s, page, n);
    own1 := MmapPageOwned(s, own, l, page);
    NeededSteps(s, MmapPage(s, page), own, own1, l, page, n);
  }

  lemma FirstCostFits(s: Sys, page: nat, n: nat)
    requires 0 < n && page + n <= USER_PAGES
    ensures Cost(s, page) <= Needed(s, page, n)
  {
    if !Exists(s, page) {
      assert page in MissingPages(s, page, n);
      if s.ram[s.cr3][page / ENTRIES] == 0 {
        assert page / ENTRIES in MissingTables(s, page, n);
      }
    }
  }

  lemma FirstPageStays(u: Sys, t: Sys, own: Owners, own1: Owners, l: Layout, page: Frame, n: nat)
    requires Running(u, own, l) && Running(t, own1, l) && page < USER_PAGES && Exists(u, page)
    requires Confined(u, t, own1, page + 1, n) && PrivatelyMapped(t, own1, page + 1, n)
    ensures PrivatelyMapped(t, own1, page, n + 1)
  {
    UserTranslation(u, own, l, u.cr3, page);
    UserTranslation(t, own1, l, t.cr3, page);
    assert u.(cr3 := u.cr3) == u;
  }

  /* ---------- Exactly when ---------- */

  /** Some user page or page table of the current space lives in frame 0, the allocator's NULL. */
  ghost predicate NullMapped(s: Sys) {
    || (exists d :: 0 <= d < KERNEL_SLOT && s.ram[s.cr3][d] == 7)
    || (exists q: Frame :: q < USER_PAGES && NullPage(s, q))
  }

  ghost predicate NullPage(s: Sys, q: Frame) {
    var e := s.ram[s.cr3][q / ENTRIES];
    e != 0 && FrameOf(e) != 0 && s.ram[FrameOf(e)][q % ENTRIES] == 7
  }

  /** Without enough frames for this page, NULL is stored as if it were a frame. */
  lemma StarvedPage(s: Sys, own: Owners, l: Layout, page: Frame)
    requires Running(s, own, l) && page < USER_PAGES && |Scanned(s)| < Cost(s, page)
    ensures NullMapped(MmapPage(s, page)) && Scanned(MmapPage(s, page)) == {}
  {
    var d := page / ENTRIES;
    AllocFrameKeepsWindow(s);
    var (s1, address) := AllocFrame(s);
    if Scanned(s) == {} {
      assert address == 0;
    } else {
      var f := TakeFrame(s, own, l);
      assert |Scanned(s1)| == 0;
    }
    assert Scanned(s1) == {};
    WithTableKeepsWindow(s1, d);
    var t := MmapPage(s, page);
    if s.ram[s.cr3][d] == 0 {
      assert t.ram[t.cr3][d] == 7;
    } else {
      UserTableOf(s, own, l, page);
      assert NullPage(t, page);
    }
  }

  lemma NullMappedPersists(s: Sys, page: Frame)
    requires WindowOk(s) && page < USER_PAGES && NullMapped(s) && Scanned(s) == {}
    ensures NullMapped(MmapPage(s, page)) && Scanned(MmapPage(s, page)) == {}
  {
    var t := MmapPage(s, page);
    if !Exists(s, page) {
      AllocFrameKeepsWindow(s);
      var s1 := AllocFrame(s).0;
      WithTableKeepsWindow(s1, page / ENTRIES);
      if d :| 0 <= d < KERNEL_SLOT && s.ram[s.cr3][d] == 7 {
        assert t.ram[t.cr3][d] == 7;
      } else {
        var q: Frame :| q < USER_PAGES && NullPage(s, q);
        assert NullPage(t, q);
      }
    }
  }

  lemma {:induction false} StarvedRange(s: Sys, own: Owners, l: Layout, page: nat, n: nat)
    requires Running(s, own, l) && page + n <= USER_PAGES && |Scanned(s)| < Needed(s, page, n)
    ensures NullMapped(MmapPages(s, page, n))
    decreases n
  {
    hide Owned, WindowOk, Confined, Needed, Scanned, Extends, NullMapped, MmapPage;
    NothingNeeded(s, page);
    if Cost(s, page) <= |Scanned(s)| {
      var own1 := MmapPageOwned(s, own, l, page);
      NeededSteps(s, MmapPage(s, page), own, own1, l, page, n);
      StarvedRange(MmapPage(s, page), own1, l, page + 1, n - 1);
    } else {
      StarvedPage(s, own, l, page);
      MmapPageKeepsWindow(s, page);
      NullStays(MmapPage(s, page), page + 1, n - 1);
    }
  }

  lemma {:induction false} NullStays(s: Sys, page: nat, n: nat)
    requires WindowOk(s) && page + n <= USER_PAGES && NullMapped(s) && Scanned(s) == {}
    ensures NullMapped(MmapPages(s, page, n))
    decreases n
  {
    if n > 0 {
      NullMappedPersists(s, page);
      MmapPageKeepsWindow(s, page);
      NullStays(MmapPage(s, page), page + 1, n - 1);
    }
  }

  lemma OwnedNotNullMapped(t: Sys, own: Owners, l: Layout)
    requires Owned(t, own, l) && IsDirectory(own, t.cr3)
    ensures !NullMapped(t)
  {
    assert DirectoryOk(t.ram, own, l, t.cr3);
    forall d | 0 <= d < KERNEL_SLOT
      ensures t.ram[t.cr3][d] != 7
    {
      assert SlotOk(t.ram, own, t.cr3, d);
    }
    forall q: Frame | q < USER_PAGES
      ensures !NullPage(t, q)
    {
      if t.ram[t.cr3][q / ENTRIES] != 0 {
        UserTableOf(t, own, l, q);
        var table := FrameOf(t.ram[t.cr3][q / ENTRIES]);
        assert TableOk(t.ram, own, table, t.cr3, q / ENTRIES);
        assert EntryOk(t.ram, own, table, t.cr3, q / ENTRIES, q % ENTRIES);
      }
    }
  }

  /** mmap never checks for a failed allocation. The ownership invariant survives it exactly when the
      allocator can supply one frame for each missing page and each missing page table of the range. */
  lemma MmapOwnedIff(s: Sys, own: Owners, l: Layout, page: nat, n: nat)
    requires Running(s, own, l) && page + n <= USER_PAGES
    ensures (exists own1 :: Extends(own, own1) && Owned(MmapPages(s, page, n), own1, l))
       <==> Needed(s, page, n) <= |Scanned(s)|
  {
    if Needed(s, page, n) <= |Scanned(s)| {
      var own1 := MmapMapsPrivately(s, own, l, page, n);
    } else {
      StarvedRange(s, own, l, page, n);
      var t := MmapPages(s, page, n);
      MmapPagesKeepsCr3(s, page, n);
      forall own1 | Extends(own, own1)
        ensures !Owned(t, own1, l)
      {
        if Owned(t, own1, l) {
          OwnedNotNullMapped(t, own1, l);
          assert false;
        }
      }
    }
  }

  lemma {:induction false} MmapPagesKeepsCr3(s: Sys, page: nat, n: nat)
    requires WindowOk(s) && page + n <= USER_PAGES
    ensures MmapPages(s, page, n).cr3 == s.cr3 && MmapPages(s, page, n).first == s.first
    ensures WindowOk(MmapPages(s, page, n))
    decreases n
  {
    if n > 0 {
      MmapPageKeepsWindow(s, page);
      MmapPagesKeepsCr3(MmapPage(s, page), page + 1, n - 1);
    }
  }
}
