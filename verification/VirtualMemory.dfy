/** User-space mapping through the recursive page directory: kernel/mm/virtual_mm_manager.c.
    The functions edit page tables directly by frame; the methods do what the code does, through the
    window at the top of the address space, and are proved to have exactly the direct effect. */
module VirtualMemory {
  import opened Common
  import opened Paging
  import opened KernelState
  import Bits
  import M = Machine
  import P = PhysicalMemory

  /** The first virtual page above user space. */
  const USER_PAGES: nat := 768 * 1024

  /* ---------- The direct effect ---------- */

  /** What the window code relies on: the current directory is recursive and is no free frame, and every
      used user slot is present and points away from it. */
  ghost predicate WindowOk(s: Sys) {
    && P.InAddressSpace(s.frames.available)
    && s.cr3 != 0 && s.cr3 !in s.frames.available
    && Recursive(s.ram, s.cr3)
    && (forall d :: 0 <= d < KERNEL_SLOT && s.ram[s.cr3][d] != 0 ==>
          Present(s.ram[s.cr3][d]) && FrameOf(s.ram[s.cr3][d]) != s.cr3)
  }

  /** A zeroed page table in a fresh frame for directory slot d. */
  ghost function NewTable(s: Sys, d: nat): Sys
    requires WindowOk(s) && d < KERNEL_SLOT
  {
    var (s1, address) := AllocFrame(s);
    s1.(ram := SetEntry(s.ram, s.cr3, d, address + 7)[address / 4096 := ZERO_PAGE])
  }

  ghost function WithTable(s: Sys, d: nat): Sys
    requires WindowOk(s) && d < KERNEL_SLOT
  {
    if s.ram[s.cr3][d] == 0 then NewTable(s, d) else s
  }

  /** map_user_virtual_address_to_physical */
  ghost function MapUser(s: Sys, page: Frame, address: Word): Sys
    requires WindowOk(s) && page < USER_PAGES && address % 4096 == 0
  {
    var s1 := WithTable(s, page / ENTRIES);
    s1.(ram := SetEntry(s1.ram, FrameOf(s1.ram[s1.cr3][page / ENTRIES]), page % ENTRIES, address + 7))
  }

  /** page_exists */
  ghost predicate Exists(s: Sys, page: Frame) {
    s.ram[s.cr3][page / ENTRIES] != 0 && s.ram[FrameOf(s.ram[s.cr3][page / ENTRIES])][page % ENTRIES] != 0
  }

  /** One turn of mmap's loop. */
  ghost function MmapPage(s: Sys, page: Frame): (t: Sys)
    requires WindowOk(s) && page < USER_PAGES
  {
    if Exists(s, page) then s
    else
      var (s1, address) := AllocFrame(s);
      AllocFrameKeepsWindow(s);
      MapUser(s1, page, address)
  }

  /** mmap's loop over [page, page + n). */
  ghost function MmapPages(s: Sys, page: Frame, n: nat): Sys
    requires WindowOk(s) && page + n <= USER_PAGES
    decreases n
  {
    if n == 0 then s
    else
      MmapPageKeepsWindow(s, page);
      MmapPages(MmapPage(s, page), page + 1, n - 1)
  }

  lemma AllocFrameKeepsWindow(s: Sys)
    requires WindowOk(s)
    ensures WindowOk(AllocFrame(s).0)
    ensures AllocFrame(s).1 % 4096 == 0 && AllocFrame(s).1 / 4096 != s.cr3
    ensures AllocFrame(s).0.ram == s.ram && AllocFrame(s).0.cr3 == s.cr3 && AllocFrame(s).0.first == s.first
    ensures AllocFrame(s).0.frames.available <= s.frames.available
  {
  }

  lemma WithTableKeepsWindow(s: Sys, d: nat)
    requires WindowOk(s) && d < KERNEL_SLOT
    ensures WindowOk(WithTable(s, d))
    ensures WithTable(s, d).ram[s.cr3][d] != 0
    ensures WithTable(s, d).cr3 == s.cr3 && WithTable(s, d).first == s.first
    ensures forall e :: 0 <= e < ENTRIES && e != d ==> WithTable(s, d).ram[s.cr3][e] == s.ram[s.cr3][e]
  {
    AllocFrameKeepsWindow(s);
    if s.ram[s.cr3][d] == 0 {
      var address := AllocFrame(s).1;
      EntryBits(address / 4096);
      assert address == address / 4096 * 4096;
    }
  }

  lemma MapUserKeepsWindow(s: Sys, page: Frame, address: Word)
    requires WindowOk(s) && page < USER_PAGES && address % 4096 == 0
    ensures WindowOk(MapUser(s, page, address))
    ensures MapUser(s, page, address).cr3 == s.cr3 && MapUser(s, page, address).first == s.first
  {
    WithTableKeepsWindow(s, page / ENTRIES);
  }

  lemma MmapPageKeepsWindow(s: Sys, page: Frame)
    requires WindowOk(s) && page < USER_PAGES
    ensures WindowOk(MmapPage(s, page))
    ensures MmapPage(s, page).cr3 == s.cr3 && MmapPage(s, page).first == s.first
  {
    if !Exists(s, page) {
      AllocFrameKeepsWindow(s);
      MapUserKeepsWindow(AllocFrame(s).0, page, AllocFrame(s).1);
    }
  }

  /* ---------- The code, through the window ---------- */

  /** edit_entry_attributes with READ_WRITE | PRESENT and, for user entries, USER. */
  method EditEntryAttributes(m: M.Machine, entry: Word, user: bool)
    requires entry % 4 == 0 && Mapped(m.ram, m.cr3, entry)
    modifies m`ram
    ensures entry == 0 ==> m.ram == old(m.ram)
    ensures entry != 0 ==>
              var e := M.LoadAt(old(m.ram), m.cr3, entry);
              m.ram == M.StoreAt(old(m.ram), m.cr3, entry, if user then WithUserAttributes(e)
                else WithKernelAttributes(e))
  {
    if entry != 0 {
      var e := m.Load(entry);
      m.Store(entry, if user then WithUserAttributes(e) else WithKernelAttributes(e));
    }
  }

  /** Attributes of a fresh entry: READ_WRITE | PRESENT, and USER for user entries. */
  function Attributes(user: bool): nat {
    if user then 7 else 3
  }

  /** Store a frame address in a page-table entry through the window and add its attributes. */
  method SetTableEntry(m: M.Machine, entry: Word, address: Word, user: bool, ghost f: Frame, ghost i: nat)
    requires entry % 4 == 0 && entry != 0 && i < ENTRIES && Hits(m.ram, m.cr3, entry, f, i)
    requires address % 4096 == 0
    requires Recursive(m.ram, m.cr3) && entry / 4096 / 1024 == RECURSIVE_SLOT
    requires f == m.cr3 ==> i != RECURSIVE_SLOT && entry / 4096 % 1024 != i
    modifies m`ram
    ensures m.ram == SetEntry(old(m.ram), f, i, address + Attributes(user))
  {
    m.Store(entry, address);
    ghost var mid := m.ram;
    assert mid == SetEntry(old(m.ram), f, i, address);
    assert Hits(mid, m.cr3, entry, f, i);
    EditEntryAttributes(m, entry, user);
    FreshEntry(address / 4096);
    assert address == address / 4096 * 4096;
    SetEntryTwice(old(m.ram), f, i, address, address + Attributes(user));
  }

  /** The branch of map_user_virtual_address_to_physical that installs a page table. */
  method InstallTable(k: Kernel, d: nat)
    requires k.Valid() && WindowOk(k.View()) && d < KERNEL_SLOT && k.View().ram[k.View().cr3][d] == 0
    modifies k.machine`ram, k.frames, k.frames.bitmap, k.frames.bitmap.bytes
    ensures k.Valid() && k.View() == NewTable(old(k.View()), d)
  {
    ghost var s := k.View();
    AllocFrameKeepsWindow(s);
    var table := k.frames.AllocatePhysicalPage();
    WindowHits(s.ram, s.cr3, d, 0);
    SetTableEntry(k.machine, DirectoryWindow(d), table, true, s.cr3, d);
    ghost var mid := k.machine.ram;
    EntryBits(table / 4096);
    assert table == table / 4096 * 4096;
    WindowHits(mid, s.cr3, d, 0);
    WindowPageSafe(mid, s.cr3, d);
    k.machine.Memset(0, TableWindow(d, 0), PAGE_SIZE);
    WholePageWritten(mid, k.machine.ram, s.cr3, TableWindow(d, 0), 0);
  }

  /** The window page of slot d can be written: its frame is not the directory. */
  lemma WindowPageSafe(ram: Ram, cr3: Frame, d: nat)
    requires Recursive(ram, cr3) && d < ENTRIES && Present(ram[cr3][d]) && FrameOf(ram[cr3][d]) != cr3
    ensures M.SafeRange(ram, cr3, TableWindow(d, 0), PAGE_SIZE)
    ensures M.TargetFrame(ram, cr3, TableWindow(d, 0) / 4096) == FrameOf(ram[cr3][d])
  {
    WindowHits(ram, cr3, d, 0);
    var page := TableWindow(d, 0) / 4096;
    assert TableWindow(d, 0) == page * 4096 && page / 1024 == RECURSIVE_SLOT;
    forall p: Frame | M.Touches(TableWindow(d, 0), PAGE_SIZE, p)
      ensures p == page
    {
    }
  }

  /** Filling one aligned page with zero bytes zeroes its frame and nothing else. */
  lemma WholePageWritten(before: Ram, after: Ram, cr3: Frame, v: Word, value: Byte)
    requires v % 4096 == 0 && value == 0
    requires M.Written(before, after, cr3, v, seq(PAGE_SIZE, _ => value))
    ensures after == before[M.TargetFrame(before, cr3, v / 4096) := ZERO_PAGE]
  {
    var page := v / 4096;
    var f := M.TargetFrame(before, cr3, page);
    assert v == page * 4096;
    forall o: nat | o < 4096
      ensures PageByte(after[f], o) == 0
    {
      assert (v + o) / 4096 == page && (v + o) % 4096 == o;
      assert seq(PAGE_SIZE, _ => value)[o] == value;
    }
    ZeroBytesZeroPage(after[f]);
    forall g: Frame | g != f
      ensures after[g] == before[g]
    {
      forall p: Frame | M.Touches(v, PAGE_SIZE, p)
        ensures M.TargetFrame(before, cr3, p) != g
      {
        assert p == page;
      }
    }
  }

  method MapUserVirtualAddressToPhysical(k: Kernel, virtualAddress: Word, physicalAddress: Word)
    requires k.Valid() && WindowOk(k.View())
    requires virtualAddress < KERNEL_VIRTUAL_OFFSET && physicalAddress % 4096 == 0
    modifies k.machine`ram, k.frames, k.frames.bitmap, k.frames.bitmap.bytes
    ensures k.Valid() && k.View() == MapUser(old(k.View()), virtualAddress / 4096, physicalAddress)
  {
    hide Bits.Represents, NewTable, Recursive, Present;
    var d, t := SplitAddress(virtualAddress);
    WithTableKeepsWindow(k.View(), d);
    var slot := ReadSlot(k, d);
    if slot == 0 {
      InstallTable(k, d);
    }
    StoreUserEntry(k, d, t, physicalAddress);
  }

  /** `page_directory_ptr[d]` */
  method ReadSlot(k: Kernel, d: nat) returns (slot: Word)
    requires k.Valid() && WindowOk(k.View()) && d < KERNEL_SLOT
    ensures slot == k.View().ram[k.View().cr3][d]
  {
    WindowHits(k.View().ram, k.View().cr3, d, 0);
    slot := k.machine.Load(DirectoryWindow(d));
  }

  /** `page_directory[d * 1024 + t] = address` and its attributes. */
  method StoreUserEntry(k: Kernel, d: nat, t: nat, address: Word)
    requires k.Valid() && WindowOk(k.View()) && d < KERNEL_SLOT && t < ENTRIES && address % 4096 == 0
    requires k.View().ram[k.View().cr3][d] != 0
    modifies k.machine`ram
    ensures k.Valid()
    ensures var s := old(k.View());
            k.View() == s.(ram := SetEntry(s.ram, FrameOf(s.ram[s.cr3][d]), t, address + 7))
  {
    ghost var s := k.View();
    UserEntryReady(s, d, t);
    hide WindowOk, Hits, Recursive, Bits.Represents;
    SetTableEntry(k.machine, TableWindow(d, t), address, true, FrameOf(s.ram[s.cr3][d]), t);
  }

  /** Entry t of a user table that is there can be stored to through the window. */
  lemma UserEntryReady(s: Sys, d: nat, t: nat)
    requires WindowOk(s) && d < KERNEL_SLOT && t < ENTRIES && s.ram[s.cr3][d] != 0
    ensures Hits(s.ram, s.cr3, TableWindow(d, t), FrameOf(s.ram[s.cr3][d]), t)
    ensures Recursive(s.ram, s.cr3) && FrameOf(s.ram[s.cr3][d]) != s.cr3
    ensures TableWindow(d, t) % 4 == 0 && TableWindow(d, t) != 0 && TableWindow(d, t) / 4096 / 1024 == RECURSIVE_SLOT
    ensures Mapped(s.ram, s.cr3, TableWindow(d, t))
  {
    WindowHits(s.ram, s.cr3, d, t);
  }

  /** ADDRESS_TO_DIRECTORY_ENTRY and ADDRESS_TO_PAGE_TABLE_ENTRY of a user address. */
  method SplitAddress(virtualAddress: Word) returns (d: nat, t: nat)
    requires virtualAddress < KERNEL_VIRTUAL_OFFSET
    ensures d == virtualAddress / 4096 / ENTRIES && d < KERNEL_SLOT
    ensures t == virtualAddress / 4096 % ENTRIES && t < ENTRIES
  {
    d, t := virtualAddress / 0x40_0000, virtualAddress / 4096 % ENTRIES;
  }

  method PageExists(k: Kernel, virtualAddress: Word) returns (exists_: bool)
    requires k.Valid() && WindowOk(k.View()) && virtualAddress < KERNEL_VIRTUAL_OFFSET
    ensures exists_ == Exists(k.View(), virtualAddress / 4096)
  {
    hide Bits.Represents, WindowOk, Recursive;
    var d, t := SplitAddress(virtualAddress);
    var slot := ReadSlot(k, d);
    if slot == 0 {
      return false;
    }
    UserEntryReady(k.View(), d, t);
    var entry := k.machine.Load(TableWindow(d, t));
    return entry != 0;
  }

  /** The end of the range as the code computes it, modulo 2^32. */
  function MmapEnd(virtualAddress: Word, numPages: Word): Word {
    Wrap32(virtualAddress + Wrap32(numPages * PAGE_SIZE))
  }

  predicate MmapAccepts(virtualAddress: Word, numPages: Word) {
    && virtualAddress < KERNEL_VIRTUAL_OFFSET
    && MmapEnd(virtualAddress, numPages) < KERNEL_VIRTUAL_OFFSET
    && virtualAddress % PAGE_SIZE == 0
  }

  /** What mmap accepts, in one formula: the 32-bit end of the range, not the range, has to be below the kernel. */
  lemma MmapAcceptsIff(virtualAddress: Word, numPages: Word)
    ensures MmapAccepts(virtualAddress, numPages)
       <==> virtualAddress % 4096 == 0 && virtualAddress < 0xC000_0000 &&
            (virtualAddress + numPages * 4096) % 0x1_0000_0000 < 0xC000_0000
  {
    var n := numPages * 4096;
    var k := n / 0x1_0000_0000;
    assert n == 0x1_0000_0000 * k + Wrap32(n);
    assert virtualAddress + n == virtualAddress + Wrap32(n) + 0x1_0000_0000 * k;
    WholeWraps(virtualAddress + Wrap32(n), k);
  }

  lemma WholeWraps(x: nat, k: nat)
    ensures Wrap32(x + 0x1_0000_0000 * k) == Wrap32(x)
  {
  }

  /** The turns of mmap's loop: none when the end wrapped below the start. */
  function MmapTurns(virtualAddress: Word, numPages: Word): nat {
    PagesIn(virtualAddress, MmapEnd(virtualAddress, numPages))
  }

  function PagesIn(begin: nat, end: nat): nat {
    if end <= begin then 0 else (end - begin) / PAGE_SIZE
  }

  /** mmap */
  ghost function MmapResult(s: Sys, virtualAddress: Word, numPages: Word): Sys
    requires WindowOk(s)
  {
    if MmapAccepts(virtualAddress, numPages)
    then
      MmapTurnsFit(virtualAddress, numPages);
      MmapPages(s, virtualAddress / 4096, MmapTurns(virtualAddress, numPages))
    else s
  }

  lemma MmapTurnsFit(virtualAddress: Word, numPages: Word)
    requires MmapAccepts(virtualAddress, numPages)
    ensures virtualAddress / 4096 + MmapTurns(virtualAddress, numPages) <= USER_PAGES
    ensures MmapEnd(virtualAddress, numPages) % 4096 == 0
  {
    var end := MmapEnd(virtualAddress, numPages);
    assert Wrap32(numPages * PAGE_SIZE) % 4096 == 0 by {
      assert numPages * PAGE_SIZE == 4096 * numPages;
      WrapKeepsAlignment(numPages);
    }
    var a, b := virtualAddress / 4096, Wrap32(numPages * PAGE_SIZE) / 4096;
    assert virtualAddress + Wrap32(numPages * PAGE_SIZE) == 4096 * (a + b);
    WrapKeepsAlignment(a + b);
  }

  lemma WrapKeepsAlignment(n: nat)
    ensures Wrap32(4096 * n) == 4096 * (n % 0x10_0000)
  {
    var q, r := n / 0x10_0000, n % 0x10_0000;
    assert 4096 * n == 0x1_0000_0000 * q + 4096 * r;
  }

  /** The range is wholly mapped exactly when it neither wraps nor reaches the kernel: only then does an
      accepted call take one turn for each page asked for. */
  lemma MmapTurnsExact(virtualAddress: Word, numPages: Word)
    requires MmapAccepts(virtualAddress, numPages)
    ensures MmapTurns(virtualAddress, numPages) == numPages
        <==> virtualAddress + numPages * PAGE_SIZE < KERNEL_VIRTUAL_OFFSET
  {
    MmapTurnsFit(virtualAddress, numPages);
    WrapKeepsAlignment(numPages);
    if numPages < 0x10_0000 {
      assert Wrap32(numPages * PAGE_SIZE) == numPages * PAGE_SIZE;
    }
  }

  /** A count of 2^20 pages wraps to an empty range and is accepted. */
  lemma MmapWraps()
    ensures MmapAccepts(0x1000, 0x10_0000) && MmapTurns(0x1000, 0x10_0000) == 0
  {
  }

  /** Mapping the n pages from `page` on leads from s to `goal`. */
  ghost predicate LeftToMap(s: Sys, page: nat, n: nat, goal: Sys) {
    WindowOk(s) && page + n <= USER_PAGES && (n == 0 || page < USER_PAGES)
      && goal == if n == 0 then s else MmapPages(s, page, n)
  }

  lemma LeftToMapSteps(s: Sys, i: Word, end: Word, goal: Sys)
    requires i % 4096 == 0 && end % 4096 == 0 && i < end
    requires LeftToMap(s, i / 4096, PagesIn(i, end), goal)
    ensures i < KERNEL_VIRTUAL_OFFSET && WindowOk(s)
    ensures (i + 4096) % 4096 == 0
    ensures LeftToMap(MmapPage(s, i / 4096), (i + 4096) / 4096, PagesIn(i + 4096, end), goal)
  {
    assert PagesIn(i + 4096, end) == PagesIn(i, end) - 1;
    assert (i + 4096) / 4096 == i / 4096 + 1;
    MmapPageKeepsWindow(s, i / 4096);
  }

  /** The body of mmap's loop. */
  method MmapTurn(k: Kernel, address: Word)
    requires k.Valid() && WindowOk(k.View()) && address < KERNEL_VIRTUAL_OFFSET
    modifies k.machine`ram, k.frames, k.frames.bitmap, k.frames.bitmap.bytes
    ensures k.Valid() && WindowOk(k.View()) && k.View() == MmapPage(old(k.View()), address / 4096)
  {
    ghost var s := k.View();
    MmapPageKeepsWindow(s, address / 4096);
    var present := PageExists(k, address);
    if !present {
      AllocFrameKeepsWindow(s);
      var frame := k.frames.AllocatePhysicalPage();
      MapUserVirtualAddressToPhysical(k, address, frame);
    }
  }

  /** mmap's loop over [begin, end). */
  method MmapLoop(k: Kernel, begin: Word, end: Word)
    requires k.Valid() && WindowOk(k.View())
    requires begin % 4096 == 0 && end % 4096 == 0 && end < KERNEL_VIRTUAL_OFFSET && begin < KERNEL_VIRTUAL_OFFSET
    modifies k.machine`ram, k.frames, k.frames.bitmap, k.frames.bitmap.bytes
    ensures k.Valid() && LeftToMap(old(k.View()), begin / 4096, PagesIn(begin, end), k.View())
  {
    ghost var goal := MmapPages(k.View(), begin / 4096, PagesIn(begin, end));
    var i := begin;
    while i < end
      invariant k.Valid() && i % 4096 == 0 && begin <= i < KERNEL_VIRTUAL_OFFSET + 4096
      invariant LeftToMap(k.View(), i / 4096, PagesIn(i, end), goal)
      decreases end - i
    {
      LeftToMapSteps(k.View(), i, end, goal);
      MmapTurn(k, i);
      i := i + PAGE_SIZE;
    }
  }

  method Mmap(k: Kernel, virtualAddress: Word, numPages: Word) returns (code: ErrorCode)
    requires k.Valid() && WindowOk(k.View())
    modifies k.machine`ram, k.frames, k.frames.bitmap, k.frames.bitmap.bytes
    ensures k.Valid() && k.View() == MmapResult(old(k.View()), virtualAddress, numPages)
    ensures code == if MmapAccepts(virtualAddress, numPages) then Success else InvalidArgument
  {
    var end := Wrap32(virtualAddress + Wrap32(numPages * PAGE_SIZE));
    if virtualAddress >= KERNEL_VIRTUAL_OFFSET || end >= KERNEL_VIRTUAL_OFFSET {
      return InvalidArgument;
    }
    if PageBoundary(virtualAddress) != virtualAddress {
      return InvalidArgument;
    }
    MmapTurnsFit(virtualAddress, numPages);
    MmapLoop(k, virtualAddress, end);
    return Success;
  }
}
