/** Boot paging: kernel/mm/early_paging_manager.c. The tables are filled while paging is off, so the
    arrays are physical memory. */
module EarlyPaging {
  import opened Common
  import Bits
  import opened Paging
  import opened KernelState
  import P = PhysicalMemory
  import opened VirtualMemory
  import opened Ownership
  import opened KHeap
  import opened AddressSpaces

  const NUM_KERNEL_PAGE_TABLES: nat := 2

  /** The frame numbers mapped by entry (i, j) of kernel_page_tables. */
  function TableFrame(i: nat, j: nat): nat {
    i * ENTRIES + j
  }

  ghost predicate TablesFilled(t: array2<Word>, rows: nat)
    reads t
  {
    && t.Length0 == NUM_KERNEL_PAGE_TABLES && t.Length1 == ENTRIES && rows <= NUM_KERNEL_PAGE_TABLES
    && forall i, j :: 0 <= i < rows && 0 <= j < ENTRIES ==> t[i, j] == TableFrame(i, j) * 4096 + 3
  }

  /** create_kernel_page_tables. `current_pgt[j] |= 0x3` is READ_WRITE | PRESENT. */
  method CreateKernelPageTables(tables: array2<Word>)
    requires tables.Length0 == NUM_KERNEL_PAGE_TABLES && tables.Length1 == ENTRIES
    modifies tables
    ensures TablesFilled(tables, NUM_KERNEL_PAGE_TABLES)
  {
    var currentPage := 0;
    var i := 0;
    while i < NUM_KERNEL_PAGE_TABLES
      invariant 0 <= i <= NUM_KERNEL_PAGE_TABLES && currentPage == TableFrame(i, 0) * 4096
      invariant TablesFilled(tables, i)
    {
      var j := 0;
      while j < ENTRIES
        invariant 0 <= j <= ENTRIES && currentPage == TableFrame(i, j) * 4096
        invariant TablesFilled(tables, i)
        invariant forall c :: 0 <= c < j ==> tables[i, c] == TableFrame(i, c) * 4096 + 3
      {
        FreshEntry(TableFrame(i, j));
        tables[i, j] := currentPage;
        tables[i, j] := WithKernelAttributes(tables[i, j]);
        j := j + 1;
        currentPage := currentPage + PAGE_SIZE;
      }
      i := i + 1;
    }
  }

  /** `init_page_directory[first + i] = kernel_page_tables[i]` with attributes: map_lower_mem with first = 0
      and map_kernel_memory with first = KERNEL_PGD_ENTRY_INDEX. */
  method MapKernelTablesAt(directory: array<Word>, l: Layout, first: nat)
    requires directory.Length == ENTRIES && first + NUM_KERNEL_PAGE_TABLES <= ENTRIES
    modifies directory
    ensures directory[..] == old(directory[..])[first := l.kernel0 * 4096 + 3][first + 1 := l.kernel1 * 4096 + 3]
  {
    var tables: seq<Frame> := [l.kernel0, l.kernel1];
    ghost var before: seq<Word> := directory[..];
    var i := first;
    while i < first + NUM_KERNEL_PAGE_TABLES
      invariant first <= i <= first + NUM_KERNEL_PAGE_TABLES
      invariant directory[..] == if i == first then before
                                 else if i == first + 1 then before[first := l.kernel0 * 4096 + 3]
                                 else before[first := l.kernel0 * 4096 + 3][first + 1 := l.kernel1 * 4096 + 3]
    {
      var table: int := tables[i - first];
      FreshEntry(table);
      directory[i] := table * 4096;
      directory[i] := WithKernelAttributes(directory[i]);
      i := i + 1;
    }
  }

  method InitRecursivePageDirectory(directory: array<Word>, boot: Frame)
    requires directory.Length == ENTRIES
    modifies directory
    ensures directory[..] == old(directory[..])[RECURSIVE_SLOT := boot * 4096 + 3]
  {
    var b: int := boot;
    FreshEntry(boot);
    directory[RECURSIVE_SLOT] := b * 4096;
    directory[RECURSIVE_SLOT] := WithKernelAttributes(directory[RECURSIVE_SLOT]);
  }

  /** The content of the boot directory. */
  function BootDirectory(l: Layout, boot: Frame): Page {
    ZERO_PAGE[0 := l.kernel0 * 4096 + 3][1 := l.kernel1 * 4096 + 3]
      [768 := l.kernel0 * 4096 + 3][769 := l.kernel1 * 4096 + 3][RECURSIVE_SLOT := boot * 4096 + 3]
  }

  /** paging_init up to turning paging on; the arrays are zero before (static storage). */
  method PagingInit(tables: array2<Word>, directory: array<Word>, l: Layout, boot: Frame)
    requires tables.Length0 == NUM_KERNEL_PAGE_TABLES && tables.Length1 == ENTRIES
    requires directory.Length == ENTRIES && directory[..] == ZERO_PAGE
    modifies tables, directory
    ensures TablesFilled(tables, NUM_KERNEL_PAGE_TABLES) && directory[..] == BootDirectory(l, boot)
  {
    CreateKernelPageTables(tables);
    MapKernelTablesAt(directory, l, 0);
    MapKernelTablesAt(directory, l, KERNEL_SLOT);
    InitRecursivePageDirectory(directory, boot);
  }

  /** Physical memory once paging_init has filled its tables and directory. */
  ghost predicate Booted(ram: Ram, l: Layout, boot: Frame) {
    && (forall j :: 0 <= j < ENTRIES ==> ram[l.kernel0][j] == TableFrame(0, j) * 4096 + 3)
    && (forall j :: 0 <= j < ENTRIES ==> ram[l.kernel1][j] == TableFrame(1, j) * 4096 + 3)
    && ram[boot] == BootDirectory(l, boot)
  }

  /** The arrays are the frames the layout names. */
  ghost predicate ArraysAre(ram: Ram, l: Layout, boot: Frame, tables: array2<Word>, directory: array<Word>)
    reads tables, directory
  {
    && tables.Length0 == NUM_KERNEL_PAGE_TABLES && tables.Length1 == ENTRIES && directory.Length == ENTRIES
    && (forall j :: 0 <= j < ENTRIES ==> ram[l.kernel0][j] == tables[0, j] && ram[l.kernel1][j] == tables[1, j])
    && ram[boot] == directory[..]
  }

  /** What paging_init leaves in its arrays is the boot mapping of the memory they are. */
  lemma InitBoots(ram: Ram, l: Layout, boot: Frame, tables: array2<Word>, directory: array<Word>)
    requires ArraysAre(ram, l, boot, tables, directory)
    requires TablesFilled(tables, NUM_KERNEL_PAGE_TABLES) && directory[..] == BootDirectory(l, boot)
    ensures Booted(ram, l, boot)
  {
  }

  /** The frame the boot directory's window shows at virtual page `page`. */
  function BootWindowFrame(l: Layout, boot: Frame, d: nat): Option<Frame> {
    if d == 0 || d == 768 then Some(l.kernel0)
    else if d == 1 || d == 769 then Some(l.kernel1)
    else if d == RECURSIVE_SLOT then Some(boot)
    else None
  }

  /** The complete boot mapping: the first 8 MB at 0 and again at 0xC0000000, the recursive window, and
      nothing else. */
  lemma BootTranslation(ram: Ram, l: Layout, boot: Frame, page: Frame)
    requires Booted(ram, l, boot)
    ensures Translate(ram, boot, page) ==
              if page < 2048 then Some(Mapping(page, true, false))
              else if USER_PAGES <= page < USER_PAGES + 2048 then Some(Mapping(page - USER_PAGES, true, false))
              else if RECURSIVE_SLOT * 1024 <= page then
                match BootWindowFrame(l, boot, page - RECURSIVE_SLOT * 1024)
                case Some(f) => Some(Mapping(f, true, false))
                case None => None
              else None
  {
    EntryBits(l.kernel0);
    EntryBits(l.kernel1);
    EntryBits(boot);
    if page < 2048 || USER_PAGES <= page < USER_PAGES + 2048 {
      var v := if page < 2048 then page else page - USER_PAGES;
      assert page % ENTRIES == v % ENTRIES && v == v / ENTRIES * ENTRIES + v % ENTRIES;
      EntryBits(TableFrame(v / ENTRIES, v % ENTRIES));
    }
  }

  /** Addresses below 8 MB stay put, and the kernel half maps to them. */
  lemma BootAddresses(ram: Ram, l: Layout, boot: Frame, v: Word)
    requires Booted(ram, l, boot) && v < 0x80_0000
    ensures Translate(ram, boot, v / 4096) == Some(Mapping(v / 4096, true, false))
    ensures Translate(ram, boot, (v + KERNEL_VIRTUAL_OFFSET) / 4096) == Some(Mapping(v / 4096, true, false))
    ensures (v + KERNEL_VIRTUAL_OFFSET) % 4096 == v % 4096
  {
    BootTranslation(ram, l, boot, v / 4096);
    assert (v + KERNEL_VIRTUAL_OFFSET) / 4096 == v / 4096 + USER_PAGES;
    BootTranslation(ram, l, boot, v / 4096 + USER_PAGES);
  }

  /** The kernel state the process run starts from: paging is on, the heap table is empty and hooked into
      the boot directory (kheap_init), and the frame allocator never hands out the boot structures. */
  ghost predicate KernelReady(s: Sys, l: Layout) {
    && l.kheap != 0 && s.cr3 != 0 && s.cr3 != l.kheap
    && (exists ram :: Booted(ram, l, s.cr3) && s.ram == SetEntry(ram, s.cr3, HEAP_SLOT, l.kheap * 4096 + 3))
    && s.ram[l.kheap] == ZERO_PAGE
    && 0 < s.first && P.InAddressSpace(s.frames.available) && P.FlagHonest(s.frames, s.first)
    && s.frames.available !! {0, l.kernel0, l.kernel1, l.kheap, s.cr3}
  }

  /** The frames of the boot structures lie in the kernel's image, and the heap table is none of the others. */
  predicate LayoutInKernel(l: Layout, boot: Frame, kernelEnd: Word) {
    && 0x100 <= l.kernel0 < kernelEnd / 4096 && 0x100 <= l.kernel1 < kernelEnd / 4096
    && 0x100 <= l.kheap < kernelEnd / 4096 && 0x100 <= boot < kernelEnd / 4096
    && l.kheap != boot
  }

  /** What the initialisations leave is that state: paging_init the boot mapping (InitBoots), kheap_init the hooked
      empty heap table, and phy_memory_manager_init, from an empty bitmap, no frame of the kernel's image. */
  lemma InitsMakeReady(ram: Ram, l: Layout, boot: Frame, frames: P.FrameState, kernelEnd: Word)
    requires Booted(ram, l, boot) && ram[l.kheap] == ZERO_PAGE && LayoutInKernel(l, boot, kernelEnd)
    requires kernelEnd % PAGE_SIZE == 0 && P.KERNEL_START < kernelEnd
    requires P.InAddressSpace(frames.available) && !frames.noPageAvailable
    requires forall p :: p in frames.available ==> !(p < 0xff) && !(0x100 <= p < kernelEnd / PAGE_SIZE)
    ensures var hooked := SetEntry(ram, boot, HEAP_SLOT, l.kheap * 4096 + 3);
            KernelReady(Sys(hooked, boot, frames, 8 * (kernelEnd / PAGE_SIZE / 8)), l)
  {
  }

  lemma BootRecursive(ram: Ram, l: Layout, boot: Frame)
    requires Booted(ram, l, boot)
    ensures Recursive(ram, boot)
  {
    EntryBits(boot);
  }

  /** The three initialisations one after the other, as kmain has them after paging is on. */
  method InitKernel(k: Kernel, map_: seq<P.Region>, l: Layout) returns (panicked: bool)
    requires k.Valid() && k.View().frames == P.FrameState({}, false) && k.kheap.ones == {}
    requires Booted(k.machine.ram, l, k.machine.cr3) && k.machine.ram[l.kheap] == ZERO_PAGE
    requires LayoutInKernel(l, k.machine.cr3, k.frames.kernelEnd)
    modifies k.machine`ram, k.frames.bitmap, k.frames.bitmap.bytes, k.kheap, k.kheap.bytes
    ensures k.Valid() && (panicked <==> exists i :: 0 <= i < |map_| && P.Panics(map_[i]))
    ensures !panicked ==>
              && Consistent(Spaces(k.View(), {}, k.kheap.ones), l)
              && k.kheap.ones == Interval(0, INITIAL_PAGES)
              && forall p: nat :: p in k.View().frames.available <==>
                   P.Selected(map_, p) && !(p < 0xff) && !(0x100 <= p < k.frames.kernelEnd / PAGE_SIZE)
  {
    hide Consistent, Bits.Represents, Booted, P.Selected, P.Panics, LayoutInKernel;
    panicked := k.frames.Init(map_);
    if !panicked {
      StartHeap(k, l);
    }
  }

  ghost predicate NoImageFrames(frames: P.FrameState, kernelEnd: Word) {
    && P.InAddressSpace(frames.available) && !frames.noPageAvailable
    && forall p :: p in frames.available ==> !(p < 0xff) && !(0x100 <= p < kernelEnd / PAGE_SIZE)
  }

  /** kheap_init after phy_memory_manager_init. */
  method StartHeap(k: Kernel, l: Layout)
    requires k.Valid() && k.kheap.ones == {} && NoImageFrames(k.View().frames, k.frames.kernelEnd)
    requires Booted(k.machine.ram, l, k.machine.cr3) && k.machine.ram[l.kheap] == ZERO_PAGE
    requires LayoutInKernel(l, k.machine.cr3, k.frames.kernelEnd)
    modifies k.machine`ram, k.kheap, k.kheap.bytes
    ensures k.Valid() && k.View().frames == old(k.View().frames) && k.kheap.ones == Interval(0, INITIAL_PAGES)
    ensures Consistent(Spaces(k.View(), {}, k.kheap.ones), l)
  {
    hide Consistent, KernelReady, Bits.Represents, Booted, LayoutInKernel, Recursive;
    ghost var ram, boot := k.machine.ram, k.machine.cr3;
    BootRecursive(ram, l, boot);
    KheapInit(k, l.kheap);
    InitsMakeReady(ram, l, boot, k.View().frames, k.frames.kernelEnd);
    BootConsistent(k.View(), l, k.kheap.ones);
  }

  /** So every run of address-space calls after boot starts from a state with the ownership invariant. */
  lemma BootConsistent(s: Sys, l: Layout, heapFree: set<nat>)
    requires KernelReady(s, l)
    ensures Consistent(Spaces(s, {}, heapFree), l)
  {
    var own: Owners := map[0 := Reserved, l.kernel0 := Reserved, l.kernel1 := Reserved, l.kheap := Reserved,
      s.cr3 := Reserved];
    assert forall f: Frame :: f in own ==> own[f] == Reserved;
    assert CommonSlots(s.ram, s.cr3, l);
    assert DirectoriesAre(own, {});
    assert Owned(s, own, l);
  }
}
