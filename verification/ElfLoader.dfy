/** Loading an ELF executable into the current address space: kernel/multitask/elf_loader.c. */
module ElfLoader {
  import opened Common
  import opened Paging
  import opened KernelState
  import M = Machine
  import P = PhysicalMemory
  import opened VirtualMemory
  import opened Ownership
  import opened MmapTheorems
  import opened UserMemory
  import opened Initrd
  import opened File
  import Bits

  const PT_LOAD: Word := 1
  const PF_RX: Word := 5
  const PF_RW: Word := 6
  const PHDR_SIZE: nat := 32
  const EHDR_SIZE: nat := 52

  /** The fields of Elf32_Phdr the loader reads. */
  datatype Phdr = Phdr(kind: Word, offset: Word, vaddr: Word, filesz: Word, memsz: Word, flags: Word)

  /** The pages a segment asks mmap for, and the pages its memory size fills. */
  function MappedPages(seg: Phdr): (n: nat)
    ensures n > 0
  {
    seg.memsz / PAGE_SIZE + 1
  }

  function MemoryPages(seg: Phdr): nat {
    (seg.memsz + PAGE_SIZE - 1) / PAGE_SIZE
  }

  function FirstPage(seg: Phdr): Frame {
    seg.vaddr / 4096
  }

  /** The bytes mapped for a segment. */
  predicate InSegment(seg: Phdr, v: Word) {
    seg.vaddr <= v < seg.vaddr + MappedPages(seg) * PAGE_SIZE
  }

  predicate Loads(seg: Phdr) {
    seg.kind == PT_LOAD
  }

  /** What the address space demands of a loadable segment: its range does not wrap, and its file bytes do not
      run past the pages mapped for it. */
  predicate Admissible(seg: Phdr) {
    seg.vaddr + MappedPages(seg) * PAGE_SIZE < TWO_32 && seg.filesz <= MappedPages(seg) * PAGE_SIZE
  }

  /** The ranges mmap accepts. */
  predicate Mappable(seg: Phdr) {
    seg.vaddr % PAGE_SIZE == 0 && seg.vaddr + MappedPages(seg) * PAGE_SIZE < KERNEL_VIRTUAL_OFFSET
  }

  /** A segment with the place its bytes are read from and how many are. */
  datatype Load = Load(seg: Phdr, start: nat, count: nat)

  /** The seek goes to p_offset, or nowhere when it is rejected; the read ends with the file, and a segment
      at address 0 looks like a NULL buffer. */
  function LoadOf(seg: Phdr, pos: Word, size: Word): (ld: Load)
    ensures ld.seg == seg && ld.count <= seg.filesz
    ensures pos <= size ==> ld.start + ld.count <= size
  {
    var start := TableStart(pos, size, seg.offset);
    Load(seg, start, if seg.vaddr == 0 || size < start then 0 else Min(seg.filesz, size - start))
  }

  /** A segment the loader gets through. */
  predicate Acceptable(ld: Load) {
    Mappable(ld.seg) && 0 < ld.count
  }

  /** What byte o of a segment's pages becomes: a file byte, or zero after p_filesz to the end of the pages
      p_memsz fills, provided p_memsz is larger; otherwise it stays. */
  function SegmentByte(ld: Load, content: seq<Byte>, o: nat, before: Byte): Byte
    requires ld.start + ld.count <= |content|
  {
    if o < ld.count then content[ld.start + o]
    else if ld.seg.filesz < ld.seg.memsz && ld.seg.filesz <= o < MemoryPages(ld.seg) * PAGE_SIZE then 0
    else before
  }

  /** The byte that the frame now at v held in `before`. */
  ghost function OldByte(before: Ram, t: Sys, v: Word): Byte {
    PageByte(before[M.TargetFrame(t.ram, t.cr3, v / 4096)], v % 4096)
  }

  /** Besides page tables, only the frames behind the segment's pages changed. */
  ghost predicate OnlySegmentFrames(s: Ram, t: Sys, own: Owners, seg: Phdr) {
    forall f: Frame :: f != t.cr3 && !IsTableOf(own, f, t.cr3)
      && !InPages(own, f, t.cr3, FirstPage(seg), MappedPages(seg))
      ==> t.ram[f] == s[f]
  }

  ghost predicate SegmentBytes(before: Ram, t: Sys, ld: Load, content: seq<Byte>)
    requires ld.start + ld.count <= |content|
  {
    forall v: Word :: InSegment(ld.seg, v) ==>
      UserByte(t, v) == SegmentByte(ld, content, v - ld.seg.vaddr, OldByte(before, t, v))
  }

  /** What loading one segment does. */
  ghost predicate SegmentStep(s: Sys, t: Sys, own: Owners, ld: Load, content: seq<Byte>)
    requires ld.start + ld.count <= |content|
  {
    && t.cr3 == s.cr3 && t.first == s.first
    && PrivatelyMapped(t, own, FirstPage(ld.seg), MappedPages(ld.seg))
    && TranslationsKept(s, t, FirstPage(ld.seg), MappedPages(ld.seg))
    && OnlySegmentFrames(s.ram, t, own, ld.seg)
    && SegmentBytes(s.ram, t, ld, content)
  }

  /** The rounding of load_segments. */
  function AlignedSize(memsz: Word): Word {
    if PageBoundary(memsz) < memsz then Wrap32(PageBoundary(memsz) + PAGE_SIZE) else PageBoundary(memsz)
  }

  lemma SegmentSizes(seg: Phdr)
    requires Admissible(seg)
    ensures AlignedSize(seg.memsz) == MemoryPages(seg) * PAGE_SIZE
    ensures seg.memsz <= MemoryPages(seg) * PAGE_SIZE < seg.memsz + PAGE_SIZE
    ensures MemoryPages(seg) <= MappedPages(seg)
  {
    var q, r := seg.memsz / 4096, seg.memsz % 4096;
    assert seg.memsz == 4096 * q + r;
    if r > 0 {
      assert MemoryPages(seg) == q + 1;
    } else {
      assert MemoryPages(seg) == q;
    }
  }

  lemma SegmentMmap(seg: Phdr)
    requires Admissible(seg)
    ensures MmapAccepts(seg.vaddr, MappedPages(seg)) <==> Mappable(seg)
    ensures Mappable(seg) ==>
              && MmapTurns(seg.vaddr, MappedPages(seg)) == MappedPages(seg)
              && FirstPage(seg) + MappedPages(seg) <= USER_PAGES && seg.vaddr == FirstPage(seg) * 4096
  {
    var n: nat := MappedPages(seg);
    Wrap32Small(n * PAGE_SIZE);
    Wrap32Small(seg.vaddr + n * PAGE_SIZE);
    if MmapAccepts(seg.vaddr, n) {
      MmapTurnsExact(seg.vaddr, n);
      MmapTurnsFit(seg.vaddr, n);
    }
  }

  /** The 32-bit offset as the `int32_t` argument of file_seek. */
  function ToInt32(x: Word): Int32 {
    if x < 0x8000_0000 then x else x - TWO_32
  }

  ghost predicate OpenOn(file: OpenFile, mem: Memory, content: seq<Byte>)
    reads file, file.inode
  {
    && Backed(mem, file.inode.fsSpecific, content) && file.inode.size == |content|
    && file.offset <= |content|
  }

  /** Where a seek leaves the offset: a rejected one leaves it where it was. */
  function TableStart(offset: Word, size: Word, phoff: Word): (start: Word)
    ensures offset <= size ==> start <= size
  {
    match SeekTarget(offset, size, ToInt32(phoff), SeekSet)
    case Some(o) => o
    case None => offset
  }

  /** file_seek to the segment and file_read of its bytes. */
  method ReadSegment(file: OpenFile, mem: Memory, seg: Phdr, ghost content: seq<Byte>) returns (data: seq<Byte>)
    requires OpenOn(file, mem, content)
    modifies file`offset
    ensures OpenOn(file, mem, content)
    ensures var ld := LoadOf(seg, old(file.offset), |content|);
            data == content[ld.start..ld.start + ld.count] && file.offset == ld.start + ld.count
  {
    hide Initrd.Backed, InitrdRead, ReadLength;
    var rejected := file.FileSeek(ToInt32(seg.offset), SeekSet);
    ReadExact(mem, file.inode.fsSpecific, content, file.offset, seg.filesz);
    data := file.FileRead(mem, seg.vaddr, seg.filesz);
  }

  /* ---------- One segment ---------- */

  function SegmentData(ld: Load, content: seq<Byte>): seq<Byte>
    requires ld.start + ld.count <= |content|
  {
    content[ld.start..ld.start + ld.count]
  }

  function Zeros(n: nat): seq<Byte> {
    seq(n, _ => 0)
  }

  ghost predicate SegmentMapped(m: Sys, own: Owners, l: Layout, seg: Phdr) {
    && Running(m, own, l) && PrivatelyMapped(m, own, FirstPage(seg), MappedPages(seg))
    && FirstPage(seg) + MappedPages(seg) <= USER_PAGES && seg.vaddr == FirstPage(seg) * 4096
  }

  lemma PrivateKept(s: Sys, t: Sys, own: Owners, l: Layout, page: nat, n: nat)
    requires Running(s, own, l) && DataOnly(s, t, own, page, n)
    requires page + n <= USER_PAGES && PrivatelyMapped(s, own, page, n)
    ensures PrivatelyMapped(t, own, page, n)
  {
    DataOnlyTranslations(s, t, own, l, page, n);
    forall q: Frame | page <= q < page + n
      ensures Translate(t.ram, t.cr3, q) == Translate(s.ram, s.cr3, q)
    {
    }
  }

  /** A write inside a mapped segment. */
  lemma WriteStep(m: Sys, c: Sys, own: Owners, l: Layout, seg: Phdr, lo: Word, data: seq<Byte>)
    requires SegmentMapped(m, own, l, seg)
    requires seg.vaddr <= lo && lo + |data| <= seg.vaddr + MappedPages(seg) * PAGE_SIZE
    requires c == m.(ram := c.ram) && M.Written(m.ram, c.ram, m.cr3, lo, data)
    ensures SegmentMapped(c, own, l, seg) && DataOnly(m, c, own, FirstPage(seg), MappedPages(seg))
    ensures forall v: Word :: InSegment(seg, v) ==>
              UserByte(c, v) == if lo <= v < lo + |data| then data[v - lo] else UserByte(m, v)
  {
    var page, n := FirstPage(seg), MappedPages(seg);
    assert (page + n) * 4096 == seg.vaddr + n * PAGE_SIZE;
    hide Running, M.Written, PrivatelyMapped, DataOnly, UserByte, MappedPages, FirstPage;
    PrivateWrite(m, c, own, l, page, n, lo, data);
    DataOnlyOwned(m, c, own, l, page, n);
    PrivateKept(m, c, own, l, page, n);
    forall v: Word | InSegment(seg, v)
      ensures UserByte(c, v) == if lo <= v < lo + |data| then data[v - lo] else UserByte(m, v)
    {
      PrivateWriteBytes(m, c, own, l, page, n, lo, data, v);
    }
  }

  /** The state after mmap, and after the copy and the clearing of one segment. */
  ghost predicate SegmentWrites(m: Sys, c: Sys, t: Sys, ld: Load, content: seq<Byte>)
    requires ld.start + ld.count <= |content| && Admissible(ld.seg)
  {
    var seg := ld.seg;
    && c == m.(ram := c.ram) && M.Written(m.ram, c.ram, m.cr3, seg.vaddr, SegmentData(ld, content))
    && (seg.memsz > seg.filesz ==>
          && t == c.(ram := t.ram)
          && MemoryPages(seg) * PAGE_SIZE >= seg.filesz
          && M.Written(c.ram, t.ram, m.cr3, seg.vaddr + seg.filesz, Zeros(MemoryPages(seg) * PAGE_SIZE - seg.filesz)))
    && (seg.memsz <= seg.filesz ==> t == c)
  }

  /** The bytes after the copy and the clearing. */
  lemma WritesMakeBytes(m: Sys, c: Sys, t: Sys, own: Owners, l: Layout, ld: Load, content: seq<Byte>)
    requires ld.start + ld.count <= |content| && ld.count <= ld.seg.filesz
    requires Admissible(ld.seg) && SegmentMapped(m, own, l, ld.seg) && SegmentWrites(m, c, t, ld, content)
    ensures SegmentMapped(t, own, l, ld.seg) && DataOnly(m, t, own, FirstPage(ld.seg), MappedPages(ld.seg))
    ensures SettledBytes(m, t, ld, content)
  {
    SegmentSizes(ld.seg);
    if ld.seg.filesz < ld.seg.memsz {
      CopiedAndCleared(m, c, t, own, l, ld, content);
    } else {
      JustCopied(m, c, own, l, ld, content);
    }
  }

  /** Every byte of the segment's pages is what it should be, given those of m. */
  ghost predicate SettledBytes(m: Sys, t: Sys, ld: Load, content: seq<Byte>)
    requires ld.start + ld.count <= |content|
  {
    forall v: Word :: InSegment(ld.seg, v) ==>
      UserByte(t, v) == SegmentByte(ld, content, v - ld.seg.vaddr, UserByte(m, v))
  }

  lemma JustCopied(m: Sys, c: Sys, own: Owners, l: Layout, ld: Load, content: seq<Byte>)
    requires ld.start + ld.count <= |content| && ld.count <= ld.seg.filesz && Admissible(ld.seg)
        && SegmentMapped(m, own, l, ld.seg)
    requires c == m.(ram := c.ram) && M.Written(m.ram, c.ram, m.cr3, ld.seg.vaddr, SegmentData(ld, content))
    requires ld.seg.memsz <= ld.seg.filesz
    ensures SegmentMapped(c, own, l, ld.seg) && DataOnly(m, c, own, FirstPage(ld.seg), MappedPages(ld.seg))
    ensures SettledBytes(m, c, ld, content)
  {
    hide UserByte, SegmentMapped, DataOnly, MappedPages, M.Written;
    CopyPart(m, c, own, l, ld, content);
  }

  lemma CopiedAndCleared(m: Sys, c: Sys, t: Sys, own: Owners, l: Layout, ld: Load, content: seq<Byte>)
    requires ld.start + ld.count <= |content| && ld.count <= ld.seg.filesz && Admissible(ld.seg)
        && SegmentMapped(m, own, l, ld.seg)
    requires c == m.(ram := c.ram) && M.Written(m.ram, c.ram, m.cr3, ld.seg.vaddr, SegmentData(ld, content))
    requires ld.seg.filesz < ld.seg.memsz <= MemoryPages(ld.seg) * PAGE_SIZE
        && MemoryPages(ld.seg) <= MappedPages(ld.seg)
    requires t == c.(ram := t.ram)
    requires M.Written(c.ram, t.ram, c.cr3, ld.seg.vaddr + ld.seg.filesz,
        Zeros(MemoryPages(ld.seg) * PAGE_SIZE - ld.seg.filesz))
    ensures SegmentMapped(t, own, l, ld.seg) && DataOnly(m, t, own, FirstPage(ld.seg), MappedPages(ld.seg))
    ensures SettledBytes(m, t, ld, content)
  {
    hide UserByte, SegmentMapped, DataOnly, MappedPages, M.Written, MemoryPages;
    CopyPart(m, c, own, l, ld, content);
    ClearPart(c, t, own, l, ld.seg);
    DataOnlyComposes(m, c, t, own, FirstPage(ld.seg), MappedPages(ld.seg));
  }

  lemma CopyPart(m: Sys, c: Sys, own: Owners, l: Layout, ld: Load, content: seq<Byte>)
    requires ld.start + ld.count <= |content| && ld.count <= ld.seg.filesz && Admissible(ld.seg)
        && SegmentMapped(m, own, l, ld.seg)
    requires c == m.(ram := c.ram) && M.Written(m.ram, c.ram, m.cr3, ld.seg.vaddr, SegmentData(ld, content))
    ensures SegmentMapped(c, own, l, ld.seg) && DataOnly(m, c, own, FirstPage(ld.seg), MappedPages(ld.seg))
    ensures forall v: Word :: InSegment(ld.seg, v) ==>
              UserByte(c, v) == if v - ld.seg.vaddr < ld.count then content[ld.start + (v - ld.seg.vaddr)]
                else UserByte(m, v)
  {
    hide UserByte, SegmentMapped, DataOnly, MappedPages, M.Written;
    WriteStep(m, c, own, l, ld.seg, ld.seg.vaddr, SegmentData(ld, content));
  }

  lemma ClearPart(c: Sys, t: Sys, own: Owners, l: Layout, seg: Phdr)
    requires Admissible(seg) && SegmentMapped(c, own, l, seg) && seg.filesz < seg.memsz <= MemoryPages(seg) * PAGE_SIZE
    requires MemoryPages(seg) <= MappedPages(seg) && t == c.(ram := t.ram)
    requires M.Written(c.ram, t.ram, c.cr3, seg.vaddr + seg.filesz, Zeros(MemoryPages(seg) * PAGE_SIZE - seg.filesz))
    ensures SegmentMapped(t, own, l, seg) && DataOnly(c, t, own, FirstPage(seg), MappedPages(seg))
    ensures forall v: Word :: InSegment(seg, v) ==>
              UserByte(t, v) == if seg.filesz <= v - seg.vaddr < MemoryPages(seg) * PAGE_SIZE then 0 else UserByte(c, v)
  {
    hide UserByte, SegmentMapped, DataOnly, MappedPages, M.Written;
    WriteStep(c, t, own, l, seg, seg.vaddr + seg.filesz, Zeros(MemoryPages(seg) * PAGE_SIZE - seg.filesz));
  }

  /** Both writes after mmap make the segment step. */
  lemma SegmentDone(s: Sys, m: Sys, c: Sys, t: Sys, own: Owners, l: Layout, ld: Load, content: seq<Byte>)
    requires ld.start + ld.count <= |content| && ld.count <= ld.seg.filesz
    requires Admissible(ld.seg) && SegmentMapped(m, own, l, ld.seg)
    requires Confined(s, m, own, FirstPage(ld.seg), MappedPages(ld.seg))
    requires SegmentWrites(m, c, t, ld, content)
    ensures Running(t, own, l) && SegmentStep(s, t, own, ld, content) && Scanned(t) == Scanned(m)
  {
    WritesMakeBytes(m, c, t, own, l, ld, content);
    hide SegmentWrites, Running, Confined, UserByte, SegmentByte, MappedPages;
    DataOnlyTranslations(m, t, own, l, FirstPage(ld.seg), MappedPages(ld.seg));
    SegmentSettled(s, m, t, own, l, ld, content);
  }

  lemma DataOnlyComposes(m: Sys, c: Sys, t: Sys, own: Owners, page: nat, n: nat)
    requires DataOnly(m, c, own, page, n) && (t == c || DataOnly(c, t, own, page, n))
    ensures DataOnly(m, t, own, page, n)
  {
  }

  /** Seen from before mmap: the frames outside the segment, and the bytes mmap's fresh frames brought along. */
  lemma SegmentSettled(s: Sys, m: Sys, t: Sys, own: Owners, l: Layout, ld: Load, content: seq<Byte>)
    requires ld.start + ld.count <= |content| && SegmentMapped(m, own, l, ld.seg)
    requires Confined(s, m, own, FirstPage(ld.seg), MappedPages(ld.seg))
    requires DataOnly(m, t, own, FirstPage(ld.seg), MappedPages(ld.seg)) && t.cr3 == m.cr3
    requires forall q: Frame :: q < WINDOW_PAGE ==> Translate(t.ram, m.cr3, q) == Translate(m.ram, m.cr3, q)
    requires SettledBytes(m, t, ld, content)
    ensures SegmentStep(s, t, own, ld, content)
  {
    hide SegmentByte, Running;
    var page, n := FirstPage(ld.seg), MappedPages(ld.seg);
    forall q: Frame | page <= q < page + n
      ensures Translate(t.ram, t.cr3, q) == Translate(m.ram, m.cr3, q)
    {
    }
    forall v: Word | InSegment(ld.seg, v)
      ensures UserByte(m, v) == OldByte(s.ram, t, v)
    {
      var q := v / 4096;
      assert page <= q < page + n;
      var f := M.TargetFrame(m.ram, m.cr3, q);
      assert Has(own, f, UserPage(m.cr3, q));
      DirectoryNoPage(m, own, l);
      assert !IsTableOf(own, f, s.cr3) && f != s.cr3;
    }
  }

  lemma DirectoryNoPage(m: Sys, own: Owners, l: Layout)
    requires Running(m, own, l)
    ensures IsDirectory(own, m.cr3)
  {
  }

  lemma RunningWindow(s: Sys, own: Owners, l: Layout)
    requires Running(s, own, l)
    ensures WindowOk(s)
  {
  }

  /** The frames mapping the segment takes. */
  ghost predicate EnoughForSegment(s: Sys, seg: Phdr) {
    Mappable(seg) ==> SegmentNeeds(s, seg) <= |Scanned(s)|
  }

  ghost function SegmentNeeds(s: Sys, seg: Phdr): nat
    requires Mappable(seg)
  {
    MappableFits(seg);
    Needed(s, FirstPage(seg), MappedPages(seg))
  }

  lemma MappableFits(seg: Phdr)
    requires Mappable(seg)
    ensures FirstPage(seg) + MappedPages(seg) <= USER_PAGES && seg.vaddr == FirstPage(seg) * 4096
  {
  }

  /** mmap of an accepted segment. */
  lemma SegmentMmapped(s: Sys, m: Sys, own: Owners, l: Layout, seg: Phdr) returns (own1: Owners)
    requires Running(s, own, l) && Admissible(seg) && Mappable(seg) && SegmentNeeds(s, seg) <= |Scanned(s)|
    requires WindowOk(s) && m == MmapResult(s, seg.vaddr, MappedPages(seg))
    ensures SegmentMapped(m, own1, l, seg) && Extends(own, own1)
    ensures Confined(s, m, own1, FirstPage(seg), MappedPages(seg))
    ensures |Scanned(m)| == |Scanned(s)| - SegmentNeeds(s, seg)
  {
    hide Running, Confined, Extends, PrivatelyMapped, Scanned;
    SegmentMmap(seg);
    own1 := MmapMapsPrivately(s, own, l, FirstPage(seg), MappedPages(seg));
  }

  /** The pages of a mapped segment can be written. */
  lemma SegmentRangeSafe(m: Sys, own: Owners, l: Layout, seg: Phdr, lo: Word, len: nat)
    requires SegmentMapped(m, own, l, seg)
    requires seg.vaddr <= lo && lo + len <= seg.vaddr + MappedPages(seg) * PAGE_SIZE
    ensures M.SafeRange(m.ram, m.cr3, lo, len)
  {
    PrivateRangeSafe(m, own, l, FirstPage(seg), MappedPages(seg), lo, len);
  }

  lemma ExtendsItself(own: Owners)
    ensures Extends(own, own)
  {
  }

  lemma MmapRejected(s: Sys, virtualAddress: Word, numPages: Word)
    requires WindowOk(s) && !MmapAccepts(virtualAddress, numPages)
    ensures MmapResult(s, virtualAddress, numPages) == s
  {
  }

  lemma WroteNothing(m: Sys, c: Sys, own: Owners, l: Layout, seg: Phdr)
    requires SegmentMapped(m, own, l, seg) && c == m.(ram := c.ram) && M.Written(m.ram, c.ram, m.cr3, seg.vaddr, [])
    ensures Running(c, own, l)
  {
    hide Running;
    assert forall p: Frame :: !M.Touches(seg.vaddr, 0, p) || seg.vaddr % 4096 != 0;
    assert forall f: Frame :: c.ram[f] == m.ram[f];
    assert c.ram == m.ram;
  }

  /** What a call for one segment leaves, on success and otherwise. */
  ghost predicate SegmentOutcome(s: Sys, t: Sys, own: Owners, own1: Owners, l: Layout, ld: Load, content: seq<Byte>)
    requires ld.start + ld.count <= |content|
  {
    && Running(t, own1, l) && Extends(own, own1)
    && (Acceptable(ld) ==>
          SegmentStep(s, t, own1, ld, content) && |Scanned(t)| == |Scanned(s)| - SegmentNeeds(s, ld.seg))
  }

  /** The loop body of load_segments for a PT_LOAD segment. `Failure` is a rejected mmap or an empty read. */
  method LoadSegment(k: Kernel, file: OpenFile, mem: Memory, seg: Phdr, ghost content: seq<Byte>, ghost own: Owners,
                     ghost l: Layout)
    returns (code: ErrorCode, ghost own1: Owners)
    requires k.Valid() && Running(k.View(), own, l)
    requires OpenOn(file, mem, content) && Admissible(seg) && EnoughForSegment(k.View(), seg)
    modifies k.machine`ram, k.frames, k.frames.bitmap, k.frames.bitmap.bytes, file`offset
    ensures k.Valid() && OpenOn(file, mem, content)
    ensures var ld := LoadOf(seg, old(file.offset), |content|);
            && code == (if Acceptable(ld) then Success else Failure)
            && (code == Success ==> file.offset == ld.start + ld.count)
            && SegmentOutcome(old(k.View()), k.View(), own, own1, l, ld, content)
  {
    hide Running, Extends, WindowOk, MmapResult, SegmentOutcome, Bits.Represents, Initrd.Backed, MappedPages, Scanned;
    ghost var s, ld := k.View(), LoadOf(seg, file.offset, |content|);
    SegmentMmap(seg);
    RunningWindow(s, own, l);
    var mapped := Mmap(k, seg.vaddr, MappedPages(seg));
    if mapped != Success {
      MmapRejected(s, seg.vaddr, MappedPages(seg));
      NothingLoaded(s, s, own, own, l, ld, content);
      return Failure, own;
    }
    own1 := SegmentMmapped(s, k.View(), own, l, seg);
    code := FillSegment(k, file, mem, seg, content, s, own, own1, l);
  }

  lemma NothingLoaded(s: Sys, t: Sys, own: Owners, own1: Owners, l: Layout, ld: Load, content: seq<Byte>)
    requires ld.start + ld.count <= |content| && Running(t, own1, l) && (Extends(own, own1) || own1 == own)
        && !Acceptable(ld)
    ensures SegmentOutcome(s, t, own, own1, l, ld, content)
  {
    hide Running;
  }

  /** The part after mmap: read into the mapped pages and clear what is left. */
  method FillSegment(k: Kernel, file: OpenFile, mem: Memory, seg: Phdr, ghost content: seq<Byte>, ghost s: Sys,
                     ghost own: Owners, ghost own1: Owners, ghost l: Layout) returns (code: ErrorCode)
    requires k.Valid() && SegmentMapped(k.View(), own1, l, seg) && Extends(own, own1)
    requires OpenOn(file, mem, content) && Admissible(seg) && Mappable(seg)
    requires Confined(s, k.View(), own1, FirstPage(seg), MappedPages(seg))
    requires |Scanned(k.View())| == |Scanned(s)| - SegmentNeeds(s, seg)
    modifies k.machine`ram, file`offset
    ensures k.Valid() && OpenOn(file, mem, content)
    ensures var ld := LoadOf(seg, old(file.offset), |content|);
            && code == (if Acceptable(ld) then Success else Failure)
            && file.offset == ld.start + ld.count
            && SegmentOutcome(s, k.View(), own, own1, l, ld, content)
  {
    hide Running, M.Written, M.SafeRange, Confined, Extends, SegmentMapped, SegmentNeeds, Bits.Represents,
         Initrd.Backed, SegmentOutcome, Scanned;
    ghost var m, ld := k.View(), LoadOf(seg, file.offset, |content|);
    SegmentSizes(seg);
    var aligned := AlignedSize(seg.memsz);
    hide AlignedSize, MemoryPages, MappedPages;
    var data := ReadSegment(file, mem, seg, content);
    SegmentRangeSafe(m, own1, l, seg, seg.vaddr, |data|);
    k.machine.CopyIn(seg.vaddr, data);
    ghost var c := k.View();
    if |data| == 0 {
      WroteNothing(m, c, own1, l, seg);
      NothingLoaded(s, c, own, own1, l, ld, content);
      return Failure;
    }
    WriteStep(m, c, own1, l, seg, seg.vaddr, data);
    if seg.memsz > seg.filesz {
      SegmentRangeSafe(c, own1, l, seg, seg.vaddr + seg.filesz, aligned - seg.filesz);
      k.machine.Memset(0, seg.vaddr + seg.filesz, aligned - seg.filesz);
    }
    SegmentDone(s, m, c, k.View(), own1, l, ld, content);
    LoadedOutcome(s, m, k.View(), own, own1, l, ld, content);
    return Success;
  }

  lemma LoadedOutcome(s: Sys, m: Sys, t: Sys, own: Owners, own1: Owners, l: Layout, ld: Load, content: seq<Byte>)
    requires ld.start + ld.count <= |content| && Running(t, own1, l) && Extends(own, own1)
    requires SegmentStep(s, t, own1, ld, content) && Scanned(t) == Scanned(m)
    requires Mappable(ld.seg) && |Scanned(m)| == |Scanned(s)| - SegmentNeeds(s, ld.seg)
    ensures SegmentOutcome(s, t, own, own1, l, ld, content)
  {
  }

  /* ---------- All segments ---------- */

  /** A file open for loading: its bytes and the offset the segments start being read at. */
  datatype Source = Source(content: seq<Byte>, pos: Word)
  {
    predicate Ok() {
      pos <= |content| < TWO_32
    }
  }

  /** The offset before header k, all before it having been read. */
  function PositionAt(segs: seq<Phdr>, k: nat, src: Source): (pos: Word)
    requires k <= |segs| && src.Ok()
    ensures pos <= |src.content|
  {
    if k == 0 then src.pos
    else
      var before := PositionAt(segs, k - 1, src);
      if Loads(segs[k - 1]) then
        var ld := LoadOf(segs[k - 1], before, |src.content|);
        ld.start + ld.count
      else before
  }

  function LoadAt(segs: seq<Phdr>, k: nat, src: Source): (ld: Load)
    requires k < |segs| && src.Ok()
    ensures ld.seg == segs[k] && ld.start + ld.count <= |src.content| && ld.count <= segs[k].filesz
  {
    LoadOf(segs[k], PositionAt(segs, k, src), |src.content|)
  }

  /** Whatever was read before, the bytes of a segment are read from its p_offset when that is in the file and below
      2^31, and from where the last read ended when it is not; a segment at address 0 gets none. */
  lemma LoadAtExact(segs: seq<Phdr>, k: nat, src: Source)
    requires k < |segs| && src.Ok()
    ensures var seg, ld, size := segs[k], LoadAt(segs, k, src), |src.content|;
            && ld.start == (if seg.offset < size && seg.offset < 0x8000_0000 then seg.offset
                            else PositionAt(segs, k, src))
            && ld.count == if seg.vaddr == 0 then 0 else Min(seg.filesz, size - ld.start)
  {
  }

  /** Which segments get through: page-aligned below the kernel with their extra page, with a byte to read. */
  lemma AcceptableIff(segs: seq<Phdr>, k: nat, src: Source)
    requires k < |segs| && src.Ok()
    ensures var seg, ld := segs[k], LoadAt(segs, k, src);
            Acceptable(ld) <==>
              && seg.vaddr % 4096 == 0 && seg.vaddr + (seg.memsz / 4096 + 1) * 4096 < 0xC000_0000
              && seg.vaddr != 0 && seg.filesz != 0 && ld.start < |src.content|
  {
    LoadAtExact(segs, k, src);
  }

  /** The loader gets as far as header k. */
  predicate Reached(segs: seq<Phdr>, k: nat, src: Source)
    requires k <= |segs| && src.Ok()
  {
    forall i :: 0 <= i < k && Loads(segs[i]) ==> Acceptable(LoadAt(segs, i, src))
  }

  predicate AllAdmissible(segs: seq<Phdr>, src: Source)
    requires src.Ok()
  {
    forall i :: 0 <= i < |segs| && Loads(segs[i]) && Reached(segs, i, src) ==> Admissible(segs[i])
  }

  /** The byte at v after the first k headers, when before it was `base`: the last segment there wins. */
  function Expected(segs: seq<Phdr>, k: nat, src: Source, v: Word, base: Byte): Byte
    requires k <= |segs| && src.Ok()
  {
    if k == 0 then base
    else
      var before := Expected(segs, k - 1, src, v, base);
      if Loads(segs[k - 1]) && InSegment(segs[k - 1], v)
      then SegmentByte(LoadAt(segs, k - 1, src), src.content, v - segs[k - 1].vaddr, before)
      else before
  }

  /* ---------- The frames a load takes ---------- */

  /** Segment i will be mapped. */
  predicate Counts(segs: seq<Phdr>, i: nat, src: Source)
    requires src.Ok()
  {
    i < |segs| && Loads(segs[i]) && Reached(segs, i, src) && Mappable(segs[i])
  }

  predicate WantsPage(segs: seq<Phdr>, i: nat, src: Source, q: nat)
    requires src.Ok()
  {
    Counts(segs, i, src) && FirstPage(segs[i]) <= q < FirstPage(segs[i]) + MappedPages(segs[i])
  }

  predicate WantsTable(segs: seq<Phdr>, i: nat, src: Source, d: nat)
    requires src.Ok()
  {
    Counts(segs, i, src) && d * 1024 < FirstPage(segs[i]) + MappedPages(segs[i]) && FirstPage(segs[i]) < (d + 1) * 1024
  }

  /** The missing pages and page tables of the segments from header k on, each once. */
  ghost function PagesWanted(s: Sys, segs: seq<Phdr>, k: nat, src: Source): set<nat>
    requires src.Ok()
  {
    set q | q in Interval(0, USER_PAGES) && !Exists(s, q) && exists i: nat :: k <= i && WantsPage(segs, i, src, q)
  }

  ghost function TablesWanted(s: Sys, segs: seq<Phdr>, k: nat, src: Source): set<nat>
    requires src.Ok()
  {
    set d | d in Interval(0, KERNEL_SLOT) && s.ram[s.cr3][d] == 0 &&
            exists i: nat :: k <= i && WantsTable(segs, i, src, d)
  }

  ghost function LoadNeeds(s: Sys, segs: seq<Phdr>, k: nat, src: Source): nat
    requires src.Ok()
  {
    |PagesWanted(s, segs, k, src)| + |TablesWanted(s, segs, k, src)|
  }

  /** t maps at least the pages and slots s maps. */
  lemma MoreMapped(s: Sys, t: Sys, own: Owners, own1: Owners, l: Layout)
    requires Running(s, own, l) && Running(t, own1, l) && Extends(own, own1) && t.cr3 == s.cr3
    ensures forall q: Frame :: q < USER_PAGES && Exists(s, q) ==> Exists(t, q)
    ensures forall d :: 0 <= d < KERNEL_SLOT && s.ram[s.cr3][d] != 0 ==> t.ram[s.cr3][d] != 0
  {
    forall d | 0 <= d < KERNEL_SLOT && s.ram[s.cr3][d] != 0
      ensures t.ram[s.cr3][d] != 0
    {
      UserTableOf(s, own, l, d * 1024);
      assert (d * 1024) / ENTRIES == d;
      var table := FrameOf(s.ram[s.cr3][d]);
      assert IsTable(own1, table);
      assert TableOk(t.ram, own1, table, s.cr3, d);
    }
    forall q: Frame | q < USER_PAGES && Exists(s, q)
      ensures Exists(t, q)
    {
      UserTranslation(s, own, l, s.cr3, q);
      assert s.(cr3 := s.cr3) == s;
      var f := Translate(s.ram, s.cr3, q).value.frame;
      assert IsUserPage(own1, f);
      assert PageOk(t.ram, own1, f, s.cr3, q);
    }
  }

  /** The pages and slots of a privately mapped range are there. */
  lemma MappedThere(t: Sys, own: Owners, l: Layout, page: nat, n: nat)
    requires Running(t, own, l) && page + n <= USER_PAGES && PrivatelyMapped(t, own, page, n)
    ensures forall q: Frame :: page <= q < page + n ==> Exists(t, q)
    ensures forall d :: 0 <= d < KERNEL_SLOT && d * 1024 < page + n && page < (d + 1) * 1024 && 0 < n ==>
        t.ram[t.cr3][d] != 0
  {
    forall q: Frame | page <= q < page + n
      ensures Exists(t, q)
    {
      UserTranslation(t, own, l, t.cr3, q);
      assert t.(cr3 := t.cr3) == t;
    }
    forall d | 0 <= d < KERNEL_SLOT && d * 1024 < page + n && page < (d + 1) * 1024 && 0 < n
      ensures t.ram[t.cr3][d] != 0
    {
      var q := Max(page, d * 1024);
      assert q / ENTRIES == d && Exists(t, q);
    }
  }

  lemma DisjointFit(a: set<nat>, b: set<nat>, c: set<nat>)
    requires a !! b && a <= c && b <= c
    ensures |a| + |b| <= |c|
  {
    assert |a + b| == |a| + |b|;
    assert c == (a + b) + (c - (a + b));
  }

  /** Loading segment k uses up at least its own share of what the segments from k on need. */
  lemma NeedsShrink(s: Sys, t: Sys, own: Owners, own1: Owners, l: Layout, segs: seq<Phdr>, k: nat, src: Source)
    requires Running(s, own, l) && Running(t, own1, l) && Extends(own, own1) && t.cr3 == s.cr3 && src.Ok()
    requires Counts(segs, k, src) && PrivatelyMapped(t, own1, FirstPage(segs[k]), MappedPages(segs[k]))
    ensures LoadNeeds(t, segs, k + 1, src) + SegmentNeeds(s, segs[k]) <= LoadNeeds(s, segs, k, src)
  {
    MappableFits(segs[k]);
    var page, n := FirstPage(segs[k]), MappedPages(segs[k]);
    MoreMapped(s, t, own, own1, l);
    MappedThere(t, own1, l, page, n);
    hide Running, PrivatelyMapped;
    PagesShrink(s, t, segs, k, src);
    TablesShrink(s, t, segs, k, src);
  }

  lemma PagesShrink(s: Sys, t: Sys, segs: seq<Phdr>, k: nat, src: Source)
    requires src.Ok() && Counts(segs, k, src) && k < |segs| && FirstPage(segs[k]) + MappedPages(segs[k]) <= USER_PAGES
    requires forall q: Frame :: q < USER_PAGES && Exists(s, q) ==> Exists(t, q)
    requires forall q: Frame :: FirstPage(segs[k]) <= q < FirstPage(segs[k]) + MappedPages(segs[k]) ==> Exists(t, q)
    ensures |PagesWanted(t, segs, k + 1, src)| + |MissingPages(s, FirstPage(segs[k]), MappedPages(segs[k]))|
         <= |PagesWanted(s, segs, k, src)|
  {
    hide Exists, Reached;
    var a, b := PagesWanted(t, segs, k + 1, src), MissingPages(s, FirstPage(segs[k]), MappedPages(segs[k]));
    forall q | q in b
      ensures q in PagesWanted(s, segs, k, src)
    {
      assert WantsPage(segs, k, src, q);
    }
    DisjointFit(a, b, PagesWanted(s, segs, k, src));
  }

  lemma TablesShrink(s: Sys, t: Sys, segs: seq<Phdr>, k: nat, src: Source)
    requires src.Ok() && Counts(segs, k, src) && t.cr3 == s.cr3
    requires forall d :: 0 <= d < KERNEL_SLOT && s.ram[s.cr3][d] != 0 ==> t.ram[s.cr3][d] != 0
    requires var page, n := FirstPage(segs[k]), MappedPages(segs[k]);
             forall d :: 0 <= d < KERNEL_SLOT && d * 1024 < page + n && page < (d + 1) * 1024 ==> t.ram[t.cr3][d] != 0
    ensures |TablesWanted(t, segs, k + 1, src)| + |MissingTables(s, FirstPage(segs[k]), MappedPages(segs[k]))|
         <= |TablesWanted(s, segs, k, src)|
  {
    hide Reached;
    var a, b := TablesWanted(t, segs, k + 1, src), MissingTables(s, FirstPage(segs[k]), MappedPages(segs[k]));
    forall d | d in b
      ensures d in TablesWanted(s, segs, k, src)
    {
      assert WantsTable(segs, k, src, d);
    }
    DisjointFit(a, b, TablesWanted(s, segs, k, src));
  }

  /** What is needed covers the next segment. */
  lemma NeedsCover(s: Sys, segs: seq<Phdr>, k: nat, src: Source)
    requires src.Ok() && Counts(segs, k, src)
    ensures SegmentNeeds(s, segs[k]) <= LoadNeeds(s, segs, k, src)
  {
    MappableFits(segs[k]);
    PagesCover(s, segs, k, src);
    TablesCover(s, segs, k, src);
    hide PagesWanted, TablesWanted, MissingPages, MissingTables, FirstPage, MappedPages;
    SubsetSmaller(MissingPages(s, FirstPage(segs[k]), MappedPages(segs[k])), PagesWanted(s, segs, k, src));
    SubsetSmaller(MissingTables(s, FirstPage(segs[k]), MappedPages(segs[k])), TablesWanted(s, segs, k, src));
  }

  lemma PagesCover(s: Sys, segs: seq<Phdr>, k: nat, src: Source)
    requires src.Ok() && Counts(segs, k, src) && k < |segs| && FirstPage(segs[k]) + MappedPages(segs[k]) <= USER_PAGES
    ensures MissingPages(s, FirstPage(segs[k]), MappedPages(segs[k])) <= PagesWanted(s, segs, k, src)
  {
    hide Exists, Reached, FirstPage, MappedPages, Counts;
    forall q | q in MissingPages(s, FirstPage(segs[k]), MappedPages(segs[k]))
      ensures q in PagesWanted(s, segs, k, src)
    {
      assert WantsPage(segs, k, src, q);
    }
  }

  lemma TablesCover(s: Sys, segs: seq<Phdr>, k: nat, src: Source)
    requires src.Ok() && Counts(segs, k, src) && k < |segs| && FirstPage(segs[k]) + MappedPages(segs[k]) <= USER_PAGES
    ensures MissingTables(s, FirstPage(segs[k]), MappedPages(segs[k])) <= TablesWanted(s, segs, k, src)
  {
    hide Exists, Reached, FirstPage, MappedPages, Counts;
    forall d | d in MissingTables(s, FirstPage(segs[k]), MappedPages(segs[k]))
      ensures d in TablesWanted(s, segs, k, src)
    {
      assert WantsTable(segs, k, src, d);
    }
  }

  lemma NeedsLater(s: Sys, segs: seq<Phdr>, k: nat, src: Source)
    requires src.Ok()
    ensures LoadNeeds(s, segs, k + 1, src) <= LoadNeeds(s, segs, k, src)
  {
    SubsetSmaller(PagesWanted(s, segs, k + 1, src), PagesWanted(s, segs, k, src));
    SubsetSmaller(TablesWanted(s, segs, k + 1, src), TablesWanted(s, segs, k, src));
  }

  lemma SubsetSmaller(a: set<nat>, b: set<nat>)
    requires a <= b
    ensures |a| <= |b|
  {
    assert b == a + (b - a);
  }

  /* ---------- The loop ---------- */

  /** A frame of the pages of one of the first k loaded segments. */
  ghost predicate InLoaded(own: Owners, f: Frame, dir: Frame, segs: seq<Phdr>, k: nat) {
    exists i :: 0 <= i < k && i < |segs| && Loads(segs[i])
      && InPages(own, f, dir, FirstPage(segs[i]), MappedPages(segs[i]))
  }

  /** Besides page tables, only frames of the first k loaded segments changed since `start`. */
  ghost predicate OnlyLoadedFrames(start: Ram, s: Sys, own: Owners, segs: seq<Phdr>, k: nat) {
    forall f: Frame :: f != s.cr3 && !IsTableOf(own, f, s.cr3) && !InLoaded(own, f, s.cr3, segs, k)
      ==> s.ram[f] == start[f]
  }

  /** Page q is one of those mapped for the first k headers. */
  predicate PageOfSegments(segs: seq<Phdr>, k: nat, q: nat) {
    exists i :: 0 <= i < k && i < |segs| && Loads(segs[i])
      && FirstPage(segs[i]) <= q < FirstPage(segs[i]) + MappedPages(segs[i])
  }

  /** Pages mapped in `s0`, and all pages that are not of the first k headers, still translate as they did. */
  ghost predicate OldTranslationsKept(s0: Sys, s: Sys, segs: seq<Phdr>, k: nat) {
    forall q: Frame :: q < WINDOW_PAGE && (Translate(s0.ram, s0.cr3, q).Some? || !PageOfSegments(segs, k, q))
      ==> Translate(s.ram, s0.cr3, q) == Translate(s0.ram, s0.cr3, q)
  }

  ghost predicate SegmentHere(s: Sys, own: Owners, seg: Phdr) {
    && PrivatelyMapped(s, own, FirstPage(seg), MappedPages(seg))
    && seg.vaddr == FirstPage(seg) * 4096 && FirstPage(seg) + MappedPages(seg) <= USER_PAGES
  }

  /** Every mapped user byte is what the first k headers make of the byte its frame held at the start. */
  ghost predicate BytesExpected(start: Ram, s: Sys, segs: seq<Phdr>, k: nat, src: Source)
    requires k <= |segs| && src.Ok()
  {
    forall v: Word :: v < KERNEL_VIRTUAL_OFFSET && Exists(s, v / 4096) ==>
      UserByte(s, v) == Expected(segs, k, src, v, OldByte(start, s, v))
  }

  /** The state of load_segments after k program headers. */
  ghost predicate LoadedSoFar(s0: Sys, s: Sys, own0: Owners, own: Owners, l: Layout, segs: seq<Phdr>, k: nat,
                              src: Source) {
    && k <= |segs| && src.Ok() && s.cr3 == s0.cr3 && Running(s, own, l) && Extends(own0, own)
    && LoadNeeds(s, segs, k, src) <= |Scanned(s)|
    && OldTranslationsKept(s0, s, segs, k)
    && OnlyLoadedFrames(s0.ram, s, own, segs, k)
    && SegmentsHere(s, own, segs, k)
    && BytesExpected(s0.ram, s, segs, k, src)
  }

  lemma {:induction false} UncoveredStays(segs: seq<Phdr>, k: nat, src: Source, v: Word, base: Byte)
    requires k <= |segs| && src.Ok() && forall i :: 0 <= i < k && Loads(segs[i]) ==> !InSegment(segs[i], v)
    ensures Expected(segs, k, src, v, base) == base
  {
    if k > 0 {
      UncoveredStays(segs, k - 1, src, v, base);
    }
  }

  /** Before segment k is written its bytes are already as expected: those of pages mapped before by the
      invariant, those of fresh pages because no earlier segment covers them. */
  lemma BytesBefore(s0: Sys, s: Sys, t: Sys, own0: Owners, own: Owners, own1: Owners, l: Layout, segs: seq<Phdr>,
                    k: nat, src: Source, v: Word)
    requires LoadedSoFar(s0, s, own0, own, l, segs, k, src) && Running(t, own1, l) && t.cr3 == s.cr3
        && Extends(own, own1)
    requires k < |segs| && TranslationsKept(s, t, FirstPage(segs[k]), MappedPages(segs[k]))
    requires v < KERNEL_VIRTUAL_OFFSET && Exists(t, v / 4096)
    ensures OldByte(s.ram, t, v) == Expected(segs, k, src, v, OldByte(s0.ram, t, v))
  {
    var q: Frame := v / 4096;
    hide Expected, Owned, Running, OldByte;
    if Exists(s, q) {
      ThereTranslates(s, own, l, q);
      MappedBefore(s0.ram, s, t, segs, k, src, v);
    } else {
      FreshUncovered(s, own, l, segs, k, v);
      UncoveredStays(segs, k, src, v, OldByte(s0.ram, t, v));
      FreshFrameOld(s0, s, t, own0, own, own1, l, segs, k, src, q);
      SameFrameSameByte(s.ram, s0.ram, t, v);
    }
  }

  lemma SameFrameSameByte(a: Ram, b: Ram, t: Sys, v: Word)
    requires a[M.TargetFrame(t.ram, t.cr3, v / 4096)] == b[M.TargetFrame(t.ram, t.cr3, v / 4096)]
    ensures OldByte(a, t, v) == OldByte(b, t, v)
  {
  }

  lemma ThereTranslates(s: Sys, own: Owners, l: Layout, q: Frame)
    requires Running(s, own, l) && q < USER_PAGES && Exists(s, q)
    ensures Translate(s.ram, s.cr3, q).Some?
  {
    UserTranslation(s, own, l, s.cr3, q);
    assert s.(cr3 := s.cr3) == s;
  }

  lemma MappedBefore(start: Ram, s: Sys, t: Sys, segs: seq<Phdr>, k: nat, src: Source, v: Word)
    requires k < |segs| && src.Ok() && BytesExpected(start, s, segs, k, src) && t.cr3 == s.cr3
    requires v < KERNEL_VIRTUAL_OFFSET && Exists(s, v / 4096) && Translate(s.ram, s.cr3, v / 4096).Some?
    requires TranslationsKept(s, t, FirstPage(segs[k]), MappedPages(segs[k]))
    ensures OldByte(s.ram, t, v) == Expected(segs, k, src, v, OldByte(start, t, v))
  {
    assert Translate(t.ram, s.cr3, v / 4096) == Translate(s.ram, s.cr3, v / 4096);
  }

  lemma FreshUncovered(s: Sys, own: Owners, l: Layout, segs: seq<Phdr>, k: nat, v: Word)
    requires Running(s, own, l) && k <= |segs| && v < KERNEL_VIRTUAL_OFFSET && !Exists(s, v / 4096)
    requires forall i :: 0 <= i < k && Loads(segs[i]) ==> SegmentHere(s, own, segs[i])
    ensures forall i :: 0 <= i < k && Loads(segs[i]) ==> !InSegment(segs[i], v)
  {
    forall i | 0 <= i < k && Loads(segs[i])
      ensures !InSegment(segs[i], v)
    {
      assert SegmentHere(s, own, segs[i]);
      MappedThere(s, own, l, FirstPage(segs[i]), MappedPages(segs[i]));
    }
  }

  lemma FreshOwner(s: Sys, own: Owners, own1: Owners, l: Layout, f: Frame, q: Frame)
    requires Running(s, own, l) && Extends(own, own1) && Has(own1, f, UserPage(s.cr3, q)) && q < USER_PAGES
        && !Exists(s, q)
    ensures f !in own
  {
    if f in own {
      assert false;
    }
  }

  /** The frame of a page that was not mapped in s was nobody's, and still holds what it held at the start. */
  lemma FreshFrameOld(s0: Sys, s: Sys, t: Sys, own0: Owners, own: Owners, own1: Owners, l: Layout, segs: seq<Phdr>,
                      k: nat, src: Source, q: Frame)
    requires LoadedSoFar(s0, s, own0, own, l, segs, k, src) && Running(t, own1, l) && t.cr3 == s.cr3
        && Extends(own, own1)
    requires q < USER_PAGES && !Exists(s, q) && Exists(t, q)
    ensures s.ram[M.TargetFrame(t.ram, t.cr3, q)] == s0.ram[M.TargetFrame(t.ram, t.cr3, q)]
  {
    UserTranslation(t, own1, l, t.cr3, q);
    assert t.(cr3 := t.cr3) == t;
    var f := M.TargetFrame(t.ram, t.cr3, q);
    assert Has(own1, f, UserPage(t.cr3, q));
    FreshOwner(s, own, own1, l, f, q);
    assert !IsTableOf(own, f, s.cr3) && !InLoaded(own, f, s.cr3, segs, k);
    assert s.cr3 in own;
  }

  /** The bytes after segment k. */
  lemma BytesAfter(s0: Sys, s: Sys, t: Sys, own0: Owners, own: Owners, own1: Owners, l: Layout, segs: seq<Phdr>,
                   k: nat, src: Source)
    requires LoadedSoFar(s0, s, own0, own, l, segs, k, src) && k < |segs| && Loads(segs[k])
    requires Running(t, own1, l) && Extends(own, own1) && SegmentStep(s, t, own1, LoadAt(segs, k, src), src.content)
    requires SegmentHere(t, own1, segs[k])
    ensures BytesExpected(s0.ram, t, segs, k + 1, src)
  {
    assert src.Ok() && k + 1 <= |segs|;
    hide LoadedSoFar, Running, Extends, UserByte, OldByte, Expected, SegmentHere, SegmentStep;
    forall v: Word | v < KERNEL_VIRTUAL_OFFSET && Exists(t, v / 4096)
      ensures UserByte(t, v) == Expected(segs, k + 1, src, v, OldByte(s0.ram, t, v))
    {
      ByteAfter(s0, s, t, own0, own, own1, l, segs, k, src, v);
    }
  }

  lemma ByteAfter(s0: Sys, s: Sys, t: Sys, own0: Owners, own: Owners, own1: Owners, l: Layout, segs: seq<Phdr>,
                  k: nat, src: Source, v: Word)
    requires LoadedSoFar(s0, s, own0, own, l, segs, k, src) && k < |segs| && Loads(segs[k])
    requires Running(t, own1, l) && Extends(own, own1) && SegmentStep(s, t, own1, LoadAt(segs, k, src), src.content)
    requires SegmentHere(t, own1, segs[k]) && v < KERNEL_VIRTUAL_OFFSET && Exists(t, v / 4096)
    ensures UserByte(t, v) == Expected(segs, k + 1, src, v, OldByte(s0.ram, t, v))
  {
    StepBytes(s, t, own1, l, segs, k, src, v);
    hide LoadedSoFar, Running, Extends, UserByte, OldByte, SegmentHere, LoadAt, SegmentByte, Exists, SegmentStep,
         TranslationsKept;
    BytesBefore(s0, s, t, own0, own, own1, l, segs, k, src, v);
    hide Expected, InSegment;
    ExpectedNext(segs, k, src, v, OldByte(s0.ram, t, v));
  }

  lemma ExpectedNext(segs: seq<Phdr>, k: nat, src: Source, v: Word, base: Byte)
    requires k < |segs| && src.Ok() && Loads(segs[k])
    ensures Expected(segs, k + 1, src, v, base)
         == if InSegment(segs[k], v)
            then SegmentByte(LoadAt(segs, k, src), src.content, v - segs[k].vaddr, Expected(segs, k, src, v, base))
            else Expected(segs, k, src, v, base)
  {
  }

  lemma StepBytes(s: Sys, t: Sys, own: Owners, l: Layout, segs: seq<Phdr>, k: nat, src: Source, v: Word)
    requires src.Ok() && k < |segs| && Running(t, own, l) && SegmentStep(s, t, own, LoadAt(segs, k, src), src.content)
    requires SegmentHere(t, own, segs[k]) && v < KERNEL_VIRTUAL_OFFSET && Exists(t, v / 4096)
    ensures t.cr3 == s.cr3 && TranslationsKept(s, t, FirstPage(segs[k]), MappedPages(segs[k]))
    ensures UserByte(t, v) == if InSegment(segs[k], v)
                              then SegmentByte(LoadAt(segs, k, src), src.content, v - segs[k].vaddr,
                                OldByte(s.ram, t, v))
                              else OldByte(s.ram, t, v)
  {
    if !InSegment(segs[k], v) {
      OutsideKept(s, t, own, l, LoadAt(segs, k, src), src.content, v);
    }
  }

  /** A byte outside the segment's pages is what it was. */
  lemma OutsideKept(s: Sys, t: Sys, own: Owners, l: Layout, ld: Load, content: seq<Byte>, v: Word)
    requires ld.start + ld.count <= |content| && Running(t, own, l) && SegmentStep(s, t, own, ld, content)
    requires SegmentHere(t, own, ld.seg) && !InSegment(ld.seg, v) && v < KERNEL_VIRTUAL_OFFSET && Exists(t, v / 4096)
    ensures UserByte(t, v) == OldByte(s.ram, t, v)
  {
    var q: Frame := v / 4096;
    UserTranslation(t, own, l, t.cr3, q);
    assert t.(cr3 := t.cr3) == t;
    var f := M.TargetFrame(t.ram, t.cr3, q);
    assert Has(own, f, UserPage(t.cr3, q));
    assert !(FirstPage(ld.seg) <= q < FirstPage(ld.seg) + MappedPages(ld.seg));
    assert f != t.cr3 && !IsTableOf(own, f, t.cr3) && !InPages(own, f, t.cr3, FirstPage(ld.seg), MappedPages(ld.seg));
  }

  lemma LoadedFramesGrow(start: Ram, s: Sys, t: Sys, own: Owners, own1: Owners, segs: seq<Phdr>, k: nat, ld: Load,
                         content: seq<Byte>)
    requires k < |segs| && Loads(segs[k]) && ld.seg == segs[k] && ld.start + ld.count <= |content| && Extends(own, own1)
    requires OnlyLoadedFrames(start, s, own, segs, k) && SegmentStep(s, t, own1, ld, content)
    ensures OnlyLoadedFrames(start, t, own1, segs, k + 1)
  {
    forall f: Frame | f != t.cr3 && !IsTableOf(own1, f, t.cr3) && !InLoaded(own1, f, t.cr3, segs, k + 1)
      ensures t.ram[f] == start[f]
    {
      assert !InPages(own1, f, t.cr3, FirstPage(segs[k]), MappedPages(segs[k]));
      assert !IsTableOf(own, f, s.cr3);
      if InLoaded(own, f, s.cr3, segs, k) {
        var i :| 0 <= i < k && Loads(segs[i]) && InPages(own, f, s.cr3, FirstPage(segs[i]), MappedPages(segs[i]));
        assert InPages(own1, f, t.cr3, FirstPage(segs[i]), MappedPages(segs[i]));
        assert false;
      }
    }
  }

  /** Pages mapped stay mapped to the same private frames. */
  lemma HereKept(s: Sys, t: Sys, own: Owners, own1: Owners, seg: Phdr, page: nat, n: nat)
    requires SegmentHere(s, own, seg) && t.cr3 == s.cr3 && Extends(own, own1) && TranslationsKept(s, t, page, n)
    ensures SegmentHere(t, own1, seg)
  {
    forall q: Frame | FirstPage(seg) <= q < FirstPage(seg) + MappedPages(seg)
      ensures Translate(t.ram, t.cr3, q) == Translate(s.ram, s.cr3, q) && Translate(s.ram, s.cr3, q).Some?
    {
    }
  }

  lemma LoadedStep(s0: Sys, s: Sys, t: Sys, own0: Owners, own: Owners, own1: Owners, l: Layout, segs: seq<Phdr>,
                   k: nat, src: Source)
    requires LoadedSoFar(s0, s, own0, own, l, segs, k, src) && k < |segs| && Loads(segs[k]) && Reached(segs, k, src)
    requires Acceptable(LoadAt(segs, k, src)) && SegmentOutcome(s, t, own, own1, l, LoadAt(segs, k, src), src.content)
    ensures LoadedSoFar(s0, t, own0, own1, l, segs, k + 1, src)
  {
    var ld := LoadAt(segs, k, src);
    var page, n := FirstPage(segs[k]), MappedPages(segs[k]);
    hide Running, Extends, Scanned, PrivatelyMapped, SegmentNeeds, LoadNeeds, SegmentStep, SegmentOutcome,
         OnlyLoadedFrames, Reached, BytesExpected, LoadAt, SegmentHere, OldTranslationsKept, TranslationsKept,
         Acceptable;
    assert Running(t, own1, l) && Extends(own, own1) && SegmentStep(s, t, own1, ld, src.content)
        && Mappable(ld.seg) by {
      OutcomeFacts(s, t, own, own1, l, ld, src.content);
    }
    assert t.cr3 == s.cr3 && SegmentHere(t, own1, segs[k]) && TranslationsKept(s, t, page, n) by {
      StepFacts(s, t, own1, ld, src.content);
    }
    assert LoadNeeds(t, segs, k + 1, src) <= |Scanned(t)| by {
      ShareUsed(s0, s, t, own0, own, own1, l, segs, k, src);
    }
    assert Extends(own0, own1) by {
      ExtendsComposes(own0, own, own1);
    }
    assert OldTranslationsKept(s0, t, segs, k + 1) by {
      TranslationsStep(s0, s, t, segs, k);
    }
    assert OnlyLoadedFrames(s0.ram, t, own1, segs, k + 1) by {
      LoadedFramesGrow(s0.ram, s, t, own, own1, segs, k, ld, src.content);
    }
    assert BytesExpected(s0.ram, t, segs, k + 1, src) by {
      BytesAfter(s0, s, t, own0, own, own1, l, segs, k, src);
    }
    forall i | 0 <= i < k && Loads(segs[i])
      ensures SegmentHere(t, own1, segs[i])
    {
      HereKept(s, t, own, own1, segs[i], page, n);
    }
    AllHere(t, own1, segs, k);
    assert t.cr3 == s0.cr3 && src.Ok();
    hide LoadedSoFar;
    LoadedParts(s0, t, own0, own1, l, segs, k, src);
  }

  ghost predicate SegmentsHere(s: Sys, own: Owners, segs: seq<Phdr>, k: nat) {
    forall i :: 0 <= i < k && i < |segs| && Loads(segs[i]) ==> SegmentHere(s, own, segs[i])
  }

  lemma AllHere(t: Sys, own: Owners, segs: seq<Phdr>, k: nat)
    requires k < |segs| && SegmentHere(t, own, segs[k])
    requires forall i :: 0 <= i < k && Loads(segs[i]) ==> SegmentHere(t, own, segs[i])
    ensures SegmentsHere(t, own, segs, k + 1)
  {
  }

  lemma LoadedParts(s0: Sys, s: Sys, own0: Owners, own: Owners, l: Layout, segs: seq<Phdr>, k: nat, src: Source)
    requires k < |segs| && src.Ok() && s.cr3 == s0.cr3 && Running(s, own, l) && Extends(own0, own)
    requires LoadNeeds(s, segs, k + 1, src) <= |Scanned(s)| && OldTranslationsKept(s0, s, segs, k + 1)
        && OnlyLoadedFrames(s0.ram, s, own, segs, k + 1)
    requires SegmentsHere(s, own, segs, k + 1) && BytesExpected(s0.ram, s, segs, k + 1, src)
    ensures LoadedSoFar(s0, s, own0, own, l, segs, k + 1, src)
  {
  }

  /** The frames left after segment k suffice for the rest. */
  lemma ShareUsed(s0: Sys, s: Sys, t: Sys, own0: Owners, own: Owners, own1: Owners, l: Layout, segs: seq<Phdr>,
                  k: nat, src: Source)
    requires LoadedSoFar(s0, s, own0, own, l, segs, k, src) && k < |segs| && Loads(segs[k]) && Reached(segs, k, src)
    requires Acceptable(LoadAt(segs, k, src)) && SegmentOutcome(s, t, own, own1, l, LoadAt(segs, k, src), src.content)
    ensures LoadNeeds(t, segs, k + 1, src) <= |Scanned(t)|
  {
    hide Running, Extends, Scanned, PrivatelyMapped, SegmentNeeds, LoadNeeds, OnlyLoadedFrames, BytesExpected,
         OldTranslationsKept, TranslationsKept, OnlySegmentFrames, SegmentBytes;
    NeedsShrink(s, t, own, own1, l, segs, k, src);
  }

  lemma StepFacts(s: Sys, t: Sys, own: Owners, ld: Load, content: seq<Byte>)
    requires ld.start + ld.count <= |content| && SegmentStep(s, t, own, ld, content) && Mappable(ld.seg)
    ensures t.cr3 == s.cr3 && SegmentHere(t, own, ld.seg)
    ensures TranslationsKept(s, t, FirstPage(ld.seg), MappedPages(ld.seg))
  {
    MappableFits(ld.seg);
  }

  lemma TranslationsStep(s0: Sys, s: Sys, t: Sys, segs: seq<Phdr>, k: nat)
    requires s.cr3 == s0.cr3 && k < |segs| && Loads(segs[k]) && OldTranslationsKept(s0, s, segs, k)
    requires TranslationsKept(s, t, FirstPage(segs[k]), MappedPages(segs[k]))
    ensures OldTranslationsKept(s0, t, segs, k + 1)
  {
    hide FirstPage, MappedPages;
    forall q: Frame | q < WINDOW_PAGE && (Translate(s0.ram, s0.cr3, q).Some? || !PageOfSegments(segs, k + 1, q))
      ensures Translate(t.ram, s0.cr3, q) == Translate(s0.ram, s0.cr3, q)
    {
      PageOfSegmentsStep(segs, k, q);
      assert Translate(s.ram, s0.cr3, q) == Translate(s0.ram, s0.cr3, q);
    }
  }

  lemma PageOfSegmentsStep(segs: seq<Phdr>, k: nat, q: nat)
    requires k < |segs|
    ensures PageOfSegments(segs, k + 1, q) <==>
              (PageOfSegments(segs, k, q) ||
               (Loads(segs[k]) && FirstPage(segs[k]) <= q < FirstPage(segs[k]) + MappedPages(segs[k])))
  {
  }

  lemma LoadedSkip(s0: Sys, s: Sys, own0: Owners, own: Owners, l: Layout, segs: seq<Phdr>, k: nat, src: Source)
    requires LoadedSoFar(s0, s, own0, own, l, segs, k, src) && k < |segs| && !Loads(segs[k])
    ensures LoadedSoFar(s0, s, own0, own, l, segs, k + 1, src)
  {
    hide Running, Extends, Scanned, SegmentHere, LoadNeeds;
    NeedsLater(s, segs, k, src);
    forall f: Frame | !InLoaded(own, f, s.cr3, segs, k + 1)
      ensures !InLoaded(own, f, s.cr3, segs, k)
    {
    }
    forall q: nat
      ensures PageOfSegments(segs, k + 1, q) <==> PageOfSegments(segs, k, q)
    {
      PageOfSegmentsStep(segs, k, q);
    }
  }

  lemma LoadedStart(s: Sys, own: Owners, l: Layout, segs: seq<Phdr>, src: Source)
    requires Running(s, own, l) && src.Ok() && LoadNeeds(s, segs, 0, src) <= |Scanned(s)|
    ensures LoadedSoFar(s, s, own, own, l, segs, 0, src)
  {
    hide Running, LoadNeeds;
  }

  /** Before loading segment k there are frames enough for it. */
  lemma LoadedReady(s0: Sys, s: Sys, own0: Owners, own: Owners, l: Layout, segs: seq<Phdr>, k: nat, src: Source)
    requires LoadedSoFar(s0, s, own0, own, l, segs, k, src) && k < |segs| && Loads(segs[k]) && Reached(segs, k, src)
    requires AllAdmissible(segs, src)
    ensures Running(s, own, l) && Admissible(segs[k]) && EnoughForSegment(s, segs[k])
  {
    hide Running, Scanned, SegmentNeeds, LoadNeeds;
    if Mappable(segs[k]) {
      NeedsCover(s, segs, k, src);
    }
  }

  lemma LoadedFacts(s0: Sys, s: Sys, own0: Owners, own: Owners, l: Layout, segs: seq<Phdr>, k: nat, src: Source)
    requires LoadedSoFar(s0, s, own0, own, l, segs, k, src)
    ensures Running(s, own, l) && Extends(own0, own)
  {
  }

  lemma OutcomeFacts(s: Sys, t: Sys, own: Owners, own1: Owners, l: Layout, ld: Load, content: seq<Byte>)
    requires ld.start + ld.count <= |content| && SegmentOutcome(s, t, own, own1, l, ld, content)
    ensures Running(t, own1, l) && Extends(own, own1)
    ensures Acceptable(ld) ==> SegmentStep(s, t, own1, ld, content) && Mappable(ld.seg)
  {
  }

  /** The address of the last loaded segment among the first k with these flags, or `default`. */
  function LastWithFlags(segs: seq<Phdr>, k: nat, flags: Word, default: Word): Word
    requires k <= |segs|
  {
    if k == 0 then default
    else if Loads(segs[k - 1]) && segs[k - 1].flags == flags then segs[k - 1].vaddr
    else LastWithFlags(segs, k - 1, flags, default)
  }

  /** A loaded segment with exactly these flags. */
  predicate Flagged(seg: Phdr, flags: Word) {
    seg.kind == 1 && seg.flags == flags
  }

  /** That is the address of the last loaded segment with the flags. */
  lemma {:induction false} LastFlagged(segs: seq<Phdr>, k: nat, flags: Word, default: Word, i: nat)
    requires i < k <= |segs| && Flagged(segs[i], flags) && forall j :: i < j < k ==> !Flagged(segs[j], flags)
    ensures LastWithFlags(segs, k, flags, default) == segs[i].vaddr
  {
    if i < k - 1 {
      LastFlagged(segs, k - 1, flags, default, i);
    }
  }

  lemma {:induction false} NoneFlagged(segs: seq<Phdr>, k: nat, flags: Word, default: Word)
    requires k <= |segs| && forall j :: 0 <= j < k ==> !Flagged(segs[j], flags)
    ensures LastWithFlags(segs, k, flags, default) == default
  {
    if k > 0 {
      NoneFlagged(segs, k - 1, flags, default);
    }
  }

  class Task {
    var textBegin: Word
    var dataBegin: Word

    constructor ()
    {
      textBegin, dataBegin := 0, 0;
    }
  }

  /** What load_segments relies on: every segment it reaches can be mapped without wrapping and holds its file
      bytes, and there are frames for all their pages. */
  ghost predicate Loadable(s: Sys, segs: seq<Phdr>, src: Source)
    requires src.Ok()
  {
    AllAdmissible(segs, src) && LoadNeeds(s, segs, 0, src) <= |Scanned(s)|
  }

  /** The loop of load_segments over the program headers. */
  method LoadTable(k: Kernel, task: Task, file: OpenFile, mem: Memory, segs: seq<Phdr>, ghost src: Source,
                   ghost own: Owners, ghost l: Layout) returns (code: ErrorCode, ghost own1: Owners)
    requires k.Valid() && Running(k.View(), own, l) && OpenOn(file, mem, src.content) && src.pos == file.offset
        && src.Ok()
    requires Loadable(k.View(), segs, src)
    modifies k.machine`ram, k.frames, k.frames.bitmap, k.frames.bitmap.bytes, file`offset, task
    ensures k.Valid() && OpenOn(file, mem, src.content)
    ensures code == if Reached(segs, |segs|, src) then Success else Failure
    ensures Running(k.View(), own1, l) && Extends(own, own1)
    ensures code == Success ==> LoadedSoFar(old(k.View()), k.View(), own, own1, l, segs, |segs|, src)
    ensures code == Success ==> task.textBegin == LastWithFlags(segs, |segs|, 5, old(task.textBegin))
    ensures code == Success ==> task.dataBegin == LastWithFlags(segs, |segs|, 6, old(task.dataBegin))
  {
    hide Running, LoadedSoFar, SegmentOutcome, Extends, Scanned, Admissible, Initrd.Backed, EnoughForSegment, OpenOn,
         Bits.Represents, Acceptable, AllAdmissible, LoadNeeds, LoadOf;
    ghost var s0 := k.View();
    own1 := own;
    LoadedStart(s0, own, l, segs, src);
    var i := 0;
    while i < |segs|
      invariant 0 <= i <= |segs| && k.Valid() && OpenOn(file, mem, src.content)
      invariant file.offset == PositionAt(segs, i, src)
      invariant Reached(segs, i, src)
      invariant LoadedSoFar(s0, k.View(), own, own1, l, segs, i, src)
      invariant task.textBegin == LastWithFlags(segs, i, PF_RX, old(task.textBegin))
      invariant task.dataBegin == LastWithFlags(segs, i, PF_RW, old(task.dataBegin))
    {
      ghost var s := k.View();
      if segs[i].kind == PT_LOAD {
        LoadedReady(s0, s, own, own1, l, segs, i, src);
        ghost var own2;
        code, own2 := LoadSegment(k, file, mem, segs[i], src.content, own1, l);
        OutcomeFacts(s, k.View(), own1, own2, l, LoadAt(segs, i, src), src.content);
        LoadedFacts(s0, s, own, own1, l, segs, i, src);
        ExtendsComposes(own, own1, own2);
        if code != Success {
          return Failure, own2;
        }
        LoadedStep(s0, s, k.View(), own, own1, own2, l, segs, i, src);
        own1 := own2;
        if segs[i].flags == PF_RX {
          task.textBegin := segs[i].vaddr;
        }
        if segs[i].flags == PF_RW {
          task.dataBegin := segs[i].vaddr;
        }
      } else {
        LoadedSkip(s0, s, own, own1, l, segs, i, src);
      }
      i := i + 1;
    }
    LoadedFacts(s0, k.View(), own, own1, l, segs, i, src);
    return Success, own1;
  }

  /* ---------- The program header table and the file header ---------- */

  function WordIn(bytes: seq<Byte>, at: nat): Word
    requires at + 4 <= |bytes|
  {
    Word4(bytes[at], bytes[at + 1], bytes[at + 2], bytes[at + 3])
  }

  function HalfIn(bytes: seq<Byte>, at: nat): Word
    requires at + 2 <= |bytes|
  {
    var low: int, high: int := bytes[at], bytes[at + 1];
    low + 256 * high
  }

  function PhdrIn(bytes: seq<Byte>, at: nat): Phdr
    requires at + PHDR_SIZE <= |bytes|
  {
    Phdr(WordIn(bytes, at), WordIn(bytes, at + 4), WordIn(bytes, at + 8), WordIn(bytes, at + 16),
      WordIn(bytes, at + 20),
         WordIn(bytes, at + 24))
  }

  function PhdrsIn(bytes: seq<Byte>, n: nat): (segs: seq<Phdr>)
    requires n * PHDR_SIZE <= |bytes|
    ensures |segs| == n
  {
    seq(n, i requires 0 <= i < n => PhdrIn(bytes, i * PHDR_SIZE))
  }

  /** The buffer after the read: the file's bytes over whatever `stack` held. */
  function TableBytes(content: seq<Byte>, start: nat, stack: seq<Byte>): (bytes: seq<Byte>)
    requires start <= |content|
    ensures |bytes| == |stack|
    ensures forall i :: 0 <= i < |stack| ==> bytes[i] == if start + i < |content| then content[start + i] else stack[i]
  {
    var count := Min(|stack|, |content| - start);
    content[start..start + count] + stack[count..]
  }

  /** load_program_header_table: the number of bytes read and the table they make with the buffer's old bytes. */
  method LoadProgramHeaderTable(file: OpenFile, mem: Memory, phoff: Word, n: nat, buffer: Word, stack: seq<Byte>,
                                ghost content: seq<Byte>) returns (count: nat, segs: seq<Phdr>)
    requires OpenOn(file, mem, content) && |stack| == n * PHDR_SIZE && n < 0x1_0000 && buffer != 0
    modifies file`offset
    ensures OpenOn(file, mem, content)
    ensures var start := TableStart(old(file.offset), |content|, phoff);
            && count == Min(|stack|, |content| - start) && file.offset == start + count
            && segs == PhdrsIn(TableBytes(content, start, stack), n)
  {
    hide Initrd.Backed, InitrdRead, PhdrIn, ReadLength;
    var _ := file.FileSeek(ToInt32(phoff), SeekSet);
    ReadExact(mem, file.inode.fsSpecific, content, file.offset, |stack|);
    var data := file.FileRead(mem, buffer, |stack|);
    count := |data|;
    segs := PhdrsIn(data + stack[count..], n);
  }

  /** The program headers read from offset `start`, and the file as the segments find it. */
  function HeadersAt(content: seq<Byte>, start: Word, n: nat, stack: seq<Byte>): seq<Phdr>
    requires start <= |content| && |stack| == n * PHDR_SIZE
  {
    PhdrsIn(TableBytes(content, start, stack), n)
  }

  function AfterHeaders(content: seq<Byte>, start: Word, n: nat): (src: Source)
    requires start <= |content| < TWO_32
    ensures src.content == content && src.Ok()
  {
    Source(content, start + Min(n * PHDR_SIZE, |content| - start))
  }

  /** When load_segments succeeds: some header bytes were read, and every segment is acceptable. */
  predicate Loading(segs: seq<Phdr>, start: nat, src: Source)
    requires src.Ok()
  {
    0 < |segs| && start < |src.content| && Reached(segs, |segs|, src)
  }

  /** load_segments. `stack` is what the uninitialised header array held, `buffer` its address. */
  method LoadSegments(k: Kernel, task: Task, file: OpenFile, mem: Memory, phoff: Word, n: nat, buffer: Word,
                      stack: seq<Byte>,
                      ghost content: seq<Byte>, ghost own: Owners, ghost l: Layout)
                          returns (code: ErrorCode, ghost own1: Owners)
    requires k.Valid() && Running(k.View(), own, l) && OpenOn(file, mem, content)
    requires |stack| == n * PHDR_SIZE && n < 0x1_0000 && buffer != 0
    requires var start := TableStart(file.offset, |content|, phoff);
             Loadable(k.View(), HeadersAt(content, start, n, stack), AfterHeaders(content, start, n))
    modifies k.machine`ram, k.frames, k.frames.bitmap, k.frames.bitmap.bytes, file`offset, task
    ensures k.Valid() && OpenOn(file, mem, content) && Running(k.View(), own1, l) && Extends(own, own1)
    ensures var start := TableStart(old(file.offset), |content|, phoff);
            var segs, src := HeadersAt(content, start, n, stack), AfterHeaders(content, start, n);
            && code == (if Loading(segs, start, src) then Success else Failure)
            && (code == Success ==>
                  && LoadedSoFar(old(k.View()), k.View(), own, own1, l, segs, |segs|, src)
                  && task.textBegin == LastWithFlags(segs, |segs|, 5, old(task.textBegin))
                  && task.dataBegin == LastWithFlags(segs, |segs|, 6, old(task.dataBegin)))
  {
    hide Running, LoadedSoFar, Loadable, Initrd.Backed, Reached;
    own1 := own;
    ghost var start := TableStart(file.offset, |content|, phoff);
    var count, segs := LoadProgramHeaderTable(file, mem, phoff, n, buffer, stack, content);
    if count == 0 {
      ExtendsItself(own);
      return Failure, own1;
    }
    code, own1 := LoadTable(k, task, file, mem, segs, AfterHeaders(content, start, n), own, l);
  }

  /** The fields of the file header the guards look at. */
  predicate MagicOk(header: seq<Byte>)
    requires |header| == EHDR_SIZE
  {
    header[0] == 0x7F && header[1] == 69 && header[2] == 76 && header[3] == 70
  }

  /** 32-bit, little endian, version 1, machine 386, relocatable or executable. */
  predicate Supported(header: seq<Byte>)
    requires |header| == EHDR_SIZE
  {
    && header[4] == 1 && header[5] == 1 && HalfIn(header, 18) == 3 && header[6] == 1
    && (HalfIn(header, 16) == 1 || HalfIn(header, 16) == 2)
  }

  function CheckElfHeader(header: seq<Byte>): (code: ErrorCode)
    requires |header| == EHDR_SIZE
    ensures code == Success <==> MagicOk(header)
  {
    if header[0] != 0x7F then InvalidArgument
    else if header[1] != 69 then InvalidArgument
    else if header[2] != 76 then InvalidArgument
    else if header[3] != 70 then InvalidArgument
    else Success
  }

  function CheckElfSupported(header: seq<Byte>): (code: ErrorCode)
    requires |header| == EHDR_SIZE
    ensures code == Success <==> Supported(header)
  {
    if header[4] != 1 then InvalidArgument
    else if header[5] != 1 then InvalidArgument
    else if HalfIn(header, 18) != 3 then InvalidArgument
    else if header[6] != 1 then InvalidArgument
    else if HalfIn(header, 16) != 1 && HalfIn(header, 16) != 2 then InvalidArgument
    else Success
  }

  /* ---------- load_elf ---------- */

  /** The header buffer starts as zeros; a short file fills only its beginning. */
  function HeaderOf(content: seq<Byte>): (header: seq<Byte>)
    ensures |header| == EHDR_SIZE
  {
    TableBytes(content, 0, Zeros(EHDR_SIZE))
  }

  function TypeIn(header: seq<Byte>): Word
    requires |header| == EHDR_SIZE
  {
    HalfIn(header, 16)
  }

  function PhoffIn(header: seq<Byte>): Word
    requires |header| == EHDR_SIZE
  {
    WordIn(header, 28)
  }

  function PhnumIn(header: seq<Byte>): (n: Word)
    requires |header| == EHDR_SIZE
    ensures n < 0x1_0000
  {
    HalfIn(header, 44)
  }

  /** A file the guards let through. */
  predicate IsElf(content: seq<Byte>) {
    content != [] && MagicOk(HeaderOf(content)) && Supported(HeaderOf(content))
  }

  predicate IsExecutable(content: seq<Byte>) {
    IsElf(content) && TypeIn(HeaderOf(content)) == 2
  }

  /** The guards read the first 20 bytes, zeros where the file is shorter: files that agree there are treated
      alike, and none with fewer than 19 bytes gets through. */
  lemma GuardsReadPrefix(a: seq<Byte>, b: seq<Byte>)
    requires a != [] && b != [] && HeaderOf(a)[..20] == HeaderOf(b)[..20]
    ensures IsElf(a) <==> IsElf(b)
    ensures IsElf(a) ==> |a| >= 19
    ensures IsElf(a) ==> CheckElfHeader(HeaderOf(b)) == Success && CheckElfSupported(HeaderOf(b)) == Success
  {
    var x, y := HeaderOf(a), HeaderOf(b);
    assert forall i :: 0 <= i < 20 ==> x[i] == x[..20][i] == y[..20][i] == y[i];
    assert |a| < 19 ==> x[18] == 0;
  }

  /** Exactly which files get through: the magic number, class 1, byte order 1, version 1, type 1 or 2 and machine 3
      in their first 20 bytes, of which the last may be missing. */
  lemma GuardsExact(content: seq<Byte>)
    ensures IsElf(content) <==>
              && |content| >= 19 && content[..7] == [0x7F, 0x45, 0x4C, 0x46, 1, 1, 1]
              && (content[16] == 1 || content[16] == 2) && content[17] == 0
              && content[18] == 3 && (|content| == 19 || content[19] == 0)
    ensures IsExecutable(content) <==> IsElf(content) && content[16] == 2
  {
    var header := HeaderOf(content);
    assert forall i :: 0 <= i < 52 ==> header[i] == if i < |content| then content[i] else 0;
    if |content| >= 7 {
      assert forall i :: 0 <= i < 7 ==> content[..7][i] == header[i];
    }
    HalfValue(header, 16, 1);
    HalfValue(header, 16, 2);
    HalfValue(header, 18, 3);
  }

  /** A half word below 256 is its first byte, the second being zero. */
  lemma HalfValue(bytes: seq<Byte>, at: nat, x: Byte)
    requires at + 2 <= |bytes|
    ensures HalfIn(bytes, at) == x <==> bytes[at] == x && bytes[at + 1] == 0
  {
    var low: int, high: int := bytes[at], bytes[at + 1];
    assert HalfIn(bytes, at) == low + 256 * high;
  }

  /** Where the reading of the header leaves the offset, and so where the header table is read from. */
  function ElfTableStart(content: seq<Byte>): (start: Word)
    requires |content| < TWO_32
    ensures start <= |content|
  {
    TableStart(Min(EHDR_SIZE, |content|), |content|, PhoffIn(HeaderOf(content)))
  }

  /** The program headers of an executable; `stack` is memory as the header array finds it. */
  function ElfHeaders(content: seq<Byte>, stack: seq<Byte>): seq<Phdr>
    requires |content| < TWO_32 && |stack| == 0x1_0000 * PHDR_SIZE
  {
    var n := PhnumIn(HeaderOf(content));
    HeadersAt(content, ElfTableStart(content), n, stack[..n * PHDR_SIZE])
  }

  /** The file as its segments find it. */
  function ElfSource(content: seq<Byte>): (src: Source)
    requires |content| < TWO_32
    ensures src.Ok()
  {
    AfterHeaders(content, ElfTableStart(content), PhnumIn(HeaderOf(content)))
  }

  /** load_elf on a file just opened, or null. The result of load_segments is dropped, so the code says
      only whether the guards let the file through; `loaded` is the dropped result. */
  method LoadElf(k: Kernel, task: Task, file: OpenFile?, mem: Memory, buffer: Word, stack: seq<Byte>,
                 ghost content: seq<Byte>, ghost own: Owners, ghost l: Layout)
    returns (code: ErrorCode, loaded: bool, ghost own1: Owners)
    requires k.Valid() && Running(k.View(), own, l) && buffer != 0 && |stack| == 0x1_0000 * PHDR_SIZE
    requires |content| < TWO_32 && (file != null ==> OpenOn(file, mem, content) && file.offset == 0)
    requires file != null && IsExecutable(content)
        ==> Loadable(k.View(), ElfHeaders(content, stack), ElfSource(content))
    modifies k.machine`ram, k.frames, k.frames.bitmap, k.frames.bitmap.bytes, file, task
    ensures k.Valid() && Running(k.View(), own1, l) && Extends(own, own1)
    ensures code == if file == null then NoSuchFile else if IsElf(content) then Success else Failure
    ensures loaded <==> file != null && IsExecutable(content) &&
                        Loading(ElfHeaders(content, stack), ElfTableStart(content), ElfSource(content))
    ensures loaded ==> LoadedSoFar(old(k.View()), k.View(), own, own1, l, ElfHeaders(content, stack),
                                   |ElfHeaders(content, stack)|, ElfSource(content))
    ensures loaded ==> var segs := ElfHeaders(content, stack);
                       && task.textBegin == LastWithFlags(segs, |segs|, 5, old(task.textBegin))
                       && task.dataBegin == LastWithFlags(segs, |segs|, 6, old(task.dataBegin))
    ensures (file == null || !IsExecutable(content)) ==> k.View() == old(k.View())
  {
    hide Running, LoadedSoFar, Loadable, Loading, Supported, MagicOk, PhdrIn, Initrd.Backed, InitrdRead, ReadLength,
         WordIn, HalfIn;
    own1, loaded := own, false;
    ExtendsItself(own);
    if file == null {
      return NoSuchFile, loaded, own1;
    }
    ReadExact(mem, file.inode.fsSpecific, content, 0, EHDR_SIZE);
    var data := file.FileRead(mem, buffer, EHDR_SIZE);
    if |data| == 0 {
      return Failure, loaded, own1;
    }
    var header := data + Zeros(EHDR_SIZE)[|data|..];
    assert header == HeaderOf(content);
    if CheckElfHeader(header) != Success || CheckElfSupported(header) != Success {
      return Failure, loaded, own1;
    }
    if TypeIn(header) == 2 {
      var result;
      result, own1 := LoadSegments(k, task, file, mem, PhoffIn(header), PhnumIn(header), buffer,
                                   stack[..PhnumIn(header) * PHDR_SIZE], content, own, l);
      loaded := result == Success;
    }
    code := Success;
  }

  /** A file header for the 386 with no program headers. */
  function BareHeader(): (header: seq<Byte>)
    ensures |header| == EHDR_SIZE
  {
    [0x7F, 69, 76, 70, 1, 1, 1] + Zeros(9) + [2, 0, 3, 0] + Zeros(32)
  }

  /** For this file load_elf reports success although load_segments failed. */
  lemma SuccessWithoutLoading(stack: seq<Byte>)
    requires |stack| == 0x1_0000 * PHDR_SIZE
    ensures IsExecutable(BareHeader())
    ensures !Loading(ElfHeaders(BareHeader(), stack), ElfTableStart(BareHeader()), ElfSource(BareHeader()))
  {
    var header := BareHeader();
    assert header[0] == 0x7F && header[16] == 2 && header[17] == 0 && header[18] == 3 && header[19] == 0;
    assert header[44] == 0 && header[45] == 0;
    assert HeaderOf(header) == header;
    assert PhnumIn(header) == 0;
  }

  /* ---------- What loading means ---------- */

  /** The segment of header i covers v and no later loadable segment does. */
  predicate LastThere(segs: seq<Phdr>, i: nat, v: Word) {
    && i < |segs| && Loads(segs[i]) && InSegment(segs[i], v)
    && forall j :: i < j < |segs| && Loads(segs[j]) ==> !InSegment(segs[j], v)
  }

  lemma {:induction false} LastWins(segs: seq<Phdr>, i: nat, k: nat, src: Source, v: Word, base: Byte)
    requires src.Ok() && i < k <= |segs| && Loads(segs[i]) && InSegment(segs[i], v)
    requires forall j :: i < j < k && Loads(segs[j]) ==> !InSegment(segs[j], v)
    ensures Expected(segs, k, src, v, base)
         == SegmentByte(LoadAt(segs, i, src), src.content, v - segs[i].vaddr, Expected(segs, i, src, v, base))
    decreases k
  {
    if i < k - 1 {
      LastWins(segs, i, k - 1, src, v, base);
    }
  }

  /** After a load, for segments that may overlap, share pages or be cut short by the end of the file: where no
      later segment covers it, a segment reads as its file bytes; from p_filesz to the end of the pages p_memsz
      fills it reads as zeros when p_memsz is larger; and every other byte is what it was before that segment. */
  lemma LoadedByte(s0: Sys, s: Sys, own0: Owners, own: Owners, l: Layout, segs: seq<Phdr>, i: nat, src: Source, v: Word)
    requires LoadedSoFar(s0, s, own0, own, l, segs, |segs|, src) && LastThere(segs, i, v)
    ensures var ld := LoadAt(segs, i, src);
            var before := Expected(segs, i, src, v, OldByte(s0.ram, s, v));
            var o := v - segs[i].vaddr;
            UserByte(s, v) == if o < ld.count then src.content[ld.start + o]
                              else if segs[i].filesz < segs[i].memsz
                                && segs[i].filesz <= o < MemoryPages(segs[i]) * PAGE_SIZE then 0
                              else before
  {
    assert SegmentHere(s, own, segs[i]);
    MappedThere(s, own, l, FirstPage(segs[i]), MappedPages(segs[i]));
    LastWins(segs, i, |segs|, src, v, OldByte(s0.ram, s, v));
  }

  /** The usual executable: the segment's bytes are all in the file, not more than its memory, and no other
      segment's range meets its own. */
  predicate Ordinary(segs: seq<Phdr>, i: nat, src: Source)
    requires src.Ok()
  {
    && i < |segs| && Loads(segs[i]) && segs[i].filesz <= segs[i].memsz && LoadAt(segs, i, src).count == segs[i].filesz
    && forall j, v: Word :: 0 <= j < |segs| && j != i && Loads(segs[j]) && InSegment(segs[i], v) ==>
      !InSegment(segs[j], v)
  }

  ghost predicate ReadsZero(s: Sys, lo: int, hi: int) {
    forall v: Word :: lo <= v < hi ==> UserByte(s, v) == 0
  }

  /** The frames now behind these addresses held zeros. */
  ghost predicate HeldZero(before: Ram, s: Sys, lo: int, hi: int) {
    forall v: Word :: lo <= v < hi ==> OldByte(before, s, v) == 0
  }

  /** Then its memory is its file bytes followed by zeros up to p_memsz, and the zeros reach the end of its last
      page exactly when the segment is longer in memory than in the file or its last frame already ended in zeros. */
  lemma LoadedSegmentBytes(s0: Sys, s: Sys, own0: Owners, own: Owners, l: Layout, segs: seq<Phdr>, i: nat, src: Source,
                           ld: Load)
    requires src.Ok() && Ordinary(segs, i, src) && ld == LoadAt(segs, i, src)
    requires LoadedSoFar(s0, s, own0, own, l, segs, |segs|, src)
    ensures FromFile(s, ld, src.content)
    ensures ReadsZero(s, ld.seg.vaddr + ld.seg.filesz, ld.seg.vaddr + ld.seg.memsz)
    ensures var lo, hi := ld.seg.vaddr + ld.seg.memsz, ld.seg.vaddr + MemoryPages(ld.seg) * PAGE_SIZE;
            ReadsZero(s, lo, hi) <==> ld.seg.filesz < ld.seg.memsz || HeldZero(s0.ram, s, lo, hi)
  {
    assert ld.seg == segs[i] && ld.count == ld.seg.filesz <= ld.seg.memsz && ld.start + ld.count <= |src.content|;
    hide LoadedSoFar, UserByte, OldByte, MemoryPages, MappedPages, LoadAt, ReadsAs, Ordinary;
    PagesOfSize(ld.seg);
    forall v: Word | ld.seg.vaddr <= v < ld.seg.vaddr + MemoryPages(ld.seg) * PAGE_SIZE
      ensures ReadsAs(s0.ram, s, ld, src.content, v)
    {
      OrdinaryByte(s0, s, own0, own, l, segs, i, src, ld, v);
    }
    BytesOfReads(s0.ram, s, ld, src.content);
  }

  /** At a segment's address stand its p_filesz bytes of the file, from where it was read. */
  ghost predicate FromFile(s: Sys, ld: Load, content: seq<Byte>) {
    ld.start + ld.seg.filesz <= |content| &&
    forall v: Word :: ld.seg.vaddr <= v < ld.seg.vaddr + ld.seg.filesz ==>
      UserByte(s, v) == content[ld.start + (v - ld.seg.vaddr)]
  }

  /** The byte at v is what the segment makes of the one its frame held in `before`. */
  ghost predicate ReadsAs(before: Ram, s: Sys, ld: Load, content: seq<Byte>, v: Word) {
    && ld.start + ld.count <= |content| && ld.seg.vaddr <= v
    && UserByte(s, v) == SegmentByte(ld, content, v - ld.seg.vaddr, OldByte(before, s, v))
  }

  /** The three parts of a segment's memory: from the file, cleared, and behind its end. */
  lemma BytesOfReads(before: Ram, s: Sys, ld: Load, content: seq<Byte>)
    requires ld.start + ld.count <= |content| && ld.count == ld.seg.filesz <= ld.seg.memsz
    requires forall v: Word :: ld.seg.vaddr <= v < ld.seg.vaddr + MemoryPages(ld.seg) * PAGE_SIZE ==>
               ReadsAs(before, s, ld, content, v)
    ensures FromFile(s, ld, content)
    ensures ReadsZero(s, ld.seg.vaddr + ld.seg.filesz, ld.seg.vaddr + ld.seg.memsz)
    ensures var lo, hi := ld.seg.vaddr + ld.seg.memsz, ld.seg.vaddr + MemoryPages(ld.seg) * PAGE_SIZE;
            ReadsZero(s, lo, hi) <==> ld.seg.filesz < ld.seg.memsz || HeldZero(before, s, lo, hi)
  {
    PagesOfSize(ld.seg);
    hide UserByte, OldByte, MemoryPages, MappedPages;
    forall v: Word | ld.seg.vaddr <= v < ld.seg.vaddr + MemoryPages(ld.seg) * PAGE_SIZE
      ensures UserByte(s, v) == SegmentByte(ld, content, v - ld.seg.vaddr, OldByte(before, s, v))
    {
      assert ReadsAs(before, s, ld, content, v);
    }
  }

  lemma OrdinaryByte(s0: Sys, s: Sys, own0: Owners, own: Owners, l: Layout, segs: seq<Phdr>, i: nat, src: Source,
                     ld: Load, v: Word)
    requires src.Ok() && Ordinary(segs, i, src) && InSegment(segs[i], v) && ld == LoadAt(segs, i, src)
    requires LoadedSoFar(s0, s, own0, own, l, segs, |segs|, src)
    ensures ReadsAs(s0.ram, s, ld, src.content, v)
  {
    hide LoadedSoFar, UserByte, OldByte, LoadAt, Expected, MappedPages, MemoryPages, InSegment;
    assert LastThere(segs, i, v);
    LoadedByte(s0, s, own0, own, l, segs, i, src, v);
    UncoveredStays(segs, i, src, v, OldByte(s0.ram, s, v));
    assert segs[i].vaddr <= v by {
      InSegmentAbove(segs[i], v);
    }
  }

  lemma InSegmentAbove(seg: Phdr, v: Word)
    requires InSegment(seg, v)
    ensures seg.vaddr <= v
  {
  }

  /** A one-byte segment whose memory size is also one: when the frame held a 9 behind that byte, the 9 is still
      there after a load, so the page is not cleared. */
  lemma TailNotCleared(s0: Sys, s: Sys, own0: Owners, own: Owners, l: Layout)
    requires var segs, src := [Phdr(PT_LOAD, 0, 0x1000, 1, 1, PF_RX)], Source([7], 0);
             LoadedSoFar(s0, s, own0, own, l, segs, 1, src)
    requires OldByte(s0.ram, s, 0x1001) == 9
    ensures UserByte(s, 0x1000) == 7 && UserByte(s, 0x1001) == 9
  {
    var seg := Phdr(PT_LOAD, 0, 0x1000, 1, 1, PF_RX);
    var segs, src := [seg], Source([7], 0);
    assert LoadAt(segs, 0, src) == Load(seg, 0, 1);
    assert InSegment(seg, 0x1000) && InSegment(seg, 0x1001);
    hide LoadedSoFar, UserByte, OldByte, LoadAt;
    LoadedByte(s0, s, own0, own, l, segs, 0, src, 0x1000);
    LoadedByte(s0, s, own0, own, l, segs, 0, src, 0x1001);
    assert Expected(segs, 0, src, 0x1001, 9) == 9;
  }

  lemma PagesOfSize(seg: Phdr)
    ensures seg.memsz <= MemoryPages(seg) * PAGE_SIZE && MemoryPages(seg) <= MappedPages(seg)
  {
    var q, r := seg.memsz / 4096, seg.memsz % 4096;
    assert seg.memsz == 4096 * q + r;
    if r > 0 {
      assert MemoryPages(seg) == q + 1;
    } else {
      assert MemoryPages(seg) == q;
    }
  }

  /** Page q holds an address from p_vaddr to p_vaddr + p_memsz of a header of type 1; the page behind a segment
      that ends on a page boundary is one of them. */
  predicate PageOfHeader(segs: seq<Phdr>, q: nat) {
    exists i :: 0 <= i < |segs| && segs[i].kind == 1 && InPageRange(segs[i].vaddr, segs[i].memsz, q)
  }

  predicate InPageRange(vaddr: Word, memsz: Word, q: nat) {
    vaddr / 4096 <= q <= vaddr / 4096 + memsz / 4096
  }

  lemma PageOfHeaderIff(segs: seq<Phdr>, q: nat)
    ensures PageOfHeader(segs, q) <==> PageOfSegments(segs, |segs|, q)
  {
    assert forall i :: 0 <= i < |segs| ==>
      (InPageRange(segs[i].vaddr, segs[i].memsz, q) <==>
        FirstPage(segs[i]) <= q < FirstPage(segs[i]) + MappedPages(segs[i]));
  }

  /** The user pages after a load are those before it and those of the headers, and no others. */
  lemma PagesAfterLoad(s0: Sys, s: Sys, own0: Owners, own: Owners, l: Layout, segs: seq<Phdr>, src: Source, q: Frame)
    requires LoadedSoFar(s0, s, own0, own, l, segs, |segs|, src) && Running(s0, own0, l) && q < 0xC_0000
    ensures Exists(s, q) <==> Exists(s0, q) || PageOfHeader(segs, q)
  {
    PageOfHeaderIff(segs, q);
    UserTranslation(s0, own0, l, s0.cr3, q);
    assert s0.(cr3 := s0.cr3) == s0;
    UserTranslation(s, own, l, s.cr3, q);
    assert s.(cr3 := s.cr3) == s;
    hide Exists, PageOfHeader;
    if PageOfSegments(segs, |segs|, q) {
      SegmentPageThere(s0, s, own0, own, l, segs, src, q);
    }
  }

  lemma SegmentPageThere(s0: Sys, s: Sys, own0: Owners, own: Owners, l: Layout, segs: seq<Phdr>, src: Source, q: Frame)
    requires LoadedSoFar(s0, s, own0, own, l, segs, |segs|, src) && PageOfSegments(segs, |segs|, q)
    ensures Translate(s.ram, s.cr3, q).Some?
  {
    hide Running, Extends, Scanned, LoadNeeds, OldTranslationsKept, OnlyLoadedFrames, BytesExpected;
    var i :| 0 <= i < |segs| && Loads(segs[i]) && FirstPage(segs[i]) <= q < FirstPage(segs[i]) + MappedPages(segs[i]);
    assert SegmentHere(s, own, segs[i]);
  }

  /** User pages mapped before the load and outside every segment keep their bytes. */
  lemma LoadSparesOthers(s0: Sys, s: Sys, own0: Owners, own: Owners, l: Layout, segs: seq<Phdr>, src: Source, v: Word)
    requires LoadedSoFar(s0, s, own0, own, l, segs, |segs|, src) && Running(s0, own0, l)
    requires v < KERNEL_VIRTUAL_OFFSET && Exists(s0, v / 4096)
    requires forall i :: 0 <= i < |segs| && Loads(segs[i]) ==> !InSegment(segs[i], v)
    ensures UserByte(s, v) == UserByte(s0, v)
  {
    var q: Frame := v / 4096;
    UserTranslation(s0, own0, l, s0.cr3, q);
    assert s0.(cr3 := s0.cr3) == s0;
    assert Translate(s.ram, s0.cr3, q) == Translate(s0.ram, s0.cr3, q);
    UserTranslation(s, own, l, s.cr3, q);
    assert s.(cr3 := s.cr3) == s;
    UncoveredStays(segs, |segs|, src, v, OldByte(s0.ram, s, v));
  }
}
