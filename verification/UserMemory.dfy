/** Bytes of user memory: what stores through privately mapped pages change and what they leave alone. */
module UserMemory {
  import opened Common
  import opened Paging
  import opened KernelState
  import M = Machine
  import opened VirtualMemory
  import opened Ownership
  import opened MmapTheorems

  /** The byte at user address v; meaningful when its page is mapped. */
  ghost function UserByte(s: Sys, v: Word): Byte {
    PageByte(s.ram[M.TargetFrame(s.ram, s.cr3, v / 4096)], v % 4096)
  }

  /** Frame f is a user page of `dir` with its page number in [page, page + n). */
  ghost predicate InPages(own: Owners, f: Frame, dir: Frame, page: nat, n: nat) {
    f in own && own[f].UserPage? && own[f].dir == dir && page <= own[f].page < page + n
  }

  /** From s to t only the frames of user pages [page, page + n) of the current space changed. */
  ghost predicate DataOnly(s: Sys, t: Sys, own: Owners, page: nat, n: nat) {
    t == s.(ram := t.ram) && forall f: Frame :: !InPages(own, f, s.cr3, page, n) ==> t.ram[f] == s.ram[f]
  }

  /** Every frame the paging structures live in is unchanged by a data-only change. */
  lemma StructureFramesKept(s: Sys, t: Sys, own: Owners, l: Layout, page: nat, n: nat)
    requires Owned(s, own, l) && DataOnly(s, t, own, page, n)
    ensures forall f: Frame :: f in own && !own[f].UserPage? ==> t.ram[f] == s.ram[f]
    ensures t.ram[l.kheap] == s.ram[l.kheap]
  {
  }

  /** Data stores keep the ownership invariant. */
  lemma DataOnlyOwned(s: Sys, t: Sys, own: Owners, l: Layout, page: nat, n: nat)
    requires Running(s, own, l) && DataOnly(s, t, own, page, n)
    ensures Running(t, own, l)
  {
    StructureFramesKept(s, t, own, l, page, n);
    DataOnlyDirectories(s, t, own, l, page, n);
    DataOnlyTables(s, t, own, l, page, n);
    DataOnlyPages(s, t, own, l, page, n);
    DataOnlyHeap(s, t, own, l, page, n);
    assert Owned(t, own, l);
    OwnedWindow(t, own, l);
  }

  lemma DataOnlyDirectories(s: Sys, t: Sys, own: Owners, l: Layout, page: nat, n: nat)
    requires Owned(s, own, l) && DataOnly(s, t, own, page, n)
    ensures DirectoriesOk(t.ram, own, l)
  {
    forall dir: Frame | IsDirectory(own, dir)
      ensures DirectoryOk(t.ram, own, l, dir)
    {
      assert DirectoryOk(s.ram, own, l, dir);
      forall e | 0 <= e < KERNEL_SLOT
        ensures SlotOk(t.ram, own, dir, e)
      {
        assert SlotOk(s.ram, own, dir, e);
      }
    }
  }

  lemma DataOnlyTables(s: Sys, t: Sys, own: Owners, l: Layout, page: nat, n: nat)
    requires Owned(s, own, l) && DataOnly(s, t, own, page, n)
    ensures TablesOk(t.ram, own)
  {
    forall f: Frame | IsTable(own, f)
      ensures TableOk(t.ram, own, f, own[f].dir, own[f].slot)
    {
      assert TableOk(s.ram, own, f, own[f].dir, own[f].slot);
      forall i | 0 <= i < ENTRIES
        ensures EntryOk(t.ram, own, f, own[f].dir, own[f].slot, i)
      {
        assert EntryOk(s.ram, own, f, own[f].dir, own[f].slot, i);
      }
    }
  }

  lemma DataOnlyPages(s: Sys, t: Sys, own: Owners, l: Layout, page: nat, n: nat)
    requires Owned(s, own, l) && DataOnly(s, t, own, page, n)
    ensures PagesOk(t.ram, own)
  {
    forall f: Frame | IsUserPage(own, f)
      ensures PageOk(t.ram, own, f, own[f].dir, own[f].page)
    {
      var dir, q := own[f].dir, own[f].page;
      assert PageOk(s.ram, own, f, dir, q);
      assert DirectoryOk(s.ram, own, l, dir);
      assert SlotOk(s.ram, own, dir, q / ENTRIES);
    }
  }

  lemma DataOnlyHeap(s: Sys, t: Sys, own: Owners, l: Layout, page: nat, n: nat)
    requires Owned(s, own, l) && DataOnly(s, t, own, page, n)
    ensures HeapOk(t.ram, own, l)
  {
    StructureFramesKept(s, t, own, l, page, n);
    forall k | 0 <= k < Ownership.KHEAP_PAGES
      ensures HeapEntryOk(t.ram, own, l, k)
    {
      assert HeapEntryOk(s.ram, own, l, k);
    }
    forall f: Frame | IsHeapPage(own, f)
      ensures HeapPageOk(t.ram, l, f, own[f].kheapPage)
    {
      assert HeapPageOk(s.ram, l, f, own[f].kheapPage);
    }
  }

  /** Data stores leave every translation below the window alone. */
  lemma DataOnlyTranslations(s: Sys, t: Sys, own: Owners, l: Layout, page: nat, n: nat)
    requires Running(s, own, l) && DataOnly(s, t, own, page, n)
    ensures t.ram[s.cr3] == s.ram[s.cr3]
    ensures forall q: Frame :: q < WINDOW_PAGE ==> Translate(t.ram, s.cr3, q) == Translate(s.ram, s.cr3, q)
  {
    forall q: Frame | q < WINDOW_PAGE
      ensures Translate(t.ram, s.cr3, q) == Translate(s.ram, s.cr3, q)
    {
      if s.ram[s.cr3][q / ENTRIES] != 0 {
        TableOfPage(s, own, l, q);
        if q < USER_PAGES {
          UserTableOf(s, own, l, q);
        }
      }
    }
  }

  /** A range inside privately mapped pages can be written. */
  lemma PrivateRangeSafe(s: Sys, own: Owners, l: Layout, page: nat, n: nat, lo: Word, len: nat)
    requires Running(s, own, l) && PrivatelyMapped(s, own, page, n) && page + n <= USER_PAGES
    requires page * 4096 <= lo && lo + len <= (page + n) * 4096
    ensures M.SafeRange(s.ram, s.cr3, lo, len)
  {
    forall p: Frame | M.Touches(lo, len, p)
      ensures page <= p < page + n && Translate(s.ram, s.cr3, p).Some?
      ensures Has(own, M.TargetFrame(s.ram, s.cr3, p), UserPage(s.cr3, p))
    {
    }
    forall p: Frame, q: Frame | M.Touches(lo, len, p) && M.Touches(lo, len, q)
      ensures M.TargetFrame(s.ram, s.cr3, p) != FrameOf(s.ram[s.cr3][q / ENTRIES])
    {
      UserTranslation(s, own, l, s.cr3, q);
      assert s.(cr3 := s.cr3) == s;
      UserTableOf(s, own, l, q);
    }
  }

  /** A write to such a range is data only, changes exactly its bytes, and keeps the pages mapped. */
  lemma PrivateWrite(s: Sys, t: Sys, own: Owners, l: Layout, page: nat, n: nat, lo: Word, data: seq<Byte>)
    requires Running(s, own, l) && PrivatelyMapped(s, own, page, n) && page + n <= USER_PAGES
    requires page * 4096 <= lo && lo + |data| <= (page + n) * 4096
    requires t == s.(ram := t.ram) && M.Written(s.ram, t.ram, s.cr3, lo, data)
    ensures DataOnly(s, t, own, page, n)
  {
    forall f: Frame | !InPages(own, f, s.cr3, page, n)
      ensures t.ram[f] == s.ram[f]
    {
      forall p: Frame | M.Touches(lo, |data|, p)
        ensures M.TargetFrame(s.ram, s.cr3, p) != f
      {
        assert page <= p < page + n;
      }
    }
  }

  /** The bytes after a private write. */
  lemma PrivateWriteBytes(s: Sys, t: Sys, own: Owners, l: Layout, page: nat, n: nat, lo: Word, data: seq<Byte>, v: Word)
    requires Running(s, own, l) && PrivatelyMapped(s, own, page, n) && page + n <= USER_PAGES
    requires page * 4096 <= lo && lo + |data| <= (page + n) * 4096
    requires t == s.(ram := t.ram) && M.Written(s.ram, t.ram, s.cr3, lo, data)
    requires page * 4096 <= v < (page + n) * 4096
    ensures UserByte(t, v) == if lo <= v < lo + |data| then data[v - lo] else UserByte(s, v)
  {
    PrivateWrite(s, t, own, l, page, n, lo, data);
    DataOnlyTranslations(s, t, own, l, page, n);
    var p := v / 4096;
    assert v == p * 4096 + v % 4096 && page <= p < page + n;
    if lo <= v < lo + |data| {
      assert lo + (v - lo) == v;
      assert PageByte(t.ram[M.TargetFrame(s.ram, s.cr3, (lo + (v - lo)) / 4096)], (lo + (v - lo)) % 4096)
          == data[v - lo];
    } else if !M.Touches(lo, |data|, p) {
      forall q: Frame | M.Touches(lo, |data|, q)
        ensures M.TargetFrame(s.ram, s.cr3, q) != M.TargetFrame(s.ram, s.cr3, p)
      {
        assert page <= q < page + n && q != p;
      }
    }
  }
}
