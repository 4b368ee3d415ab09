/** An executable file as the ELF format lays it out (include/multitask/elf.h), and what the loader makes of one. */
module ElfImage {
  import opened Common
  import opened Paging
  import opened KernelState
  import opened VirtualMemory
  import opened Ownership
  import opened UserMemory
  import opened AddressSpaces
  import InitrdImage
  import opened ElfLoader

  type Half = x: int | 0 <= x < 0x1_0000

  /** Elf32_Ehdr after e_ident. */
  datatype FileHeader = FileHeader(kind: Half, machine: Half, version: Word, entry: Word, phoff: Word, shoff: Word,
                                   flags: Word, ehsize: Half, phentsize: Half, phnum: Half, shentsize: Half,
                                   shnum: Half, shstrndx: Half)

  /** Elf32_Phdr */
  datatype ProgramHeader = ProgramHeader(kind: Word, offset: Word, vaddr: Word, paddr: Word, filesz: Word, memsz: Word,
                                         flags: Word, align: Word)

  function PackHalf(x: Half): (r: seq<Byte>)
    ensures |r| == 2
  {
    [x % 256, x / 256]
  }

  /** The 52 bytes of a file header, in field order. */
  function RawHeader(ident: seq<Byte>, h: FileHeader): (r: seq<Byte>)
    requires |ident| == 16
    ensures |r| == 52
  {
    ident + PackHalf(h.kind) + PackHalf(h.machine) + Words([h.version, h.entry, h.phoff, h.shoff, h.flags])
    + PackHalf(h.ehsize) + PackHalf(h.phentsize) + PackHalf(h.phnum) + PackHalf(h.shentsize) + PackHalf(h.shnum)
    + PackHalf(h.shstrndx)
  }

  /** Little-endian words one after the other. */
  function Words(ws: seq<Word>): (r: seq<Byte>)
    ensures |r| == 4 * |ws|
  {
    if ws == [] then [] else Words(ws[..|ws| - 1]) + InitrdImage.Pack(ws[|ws| - 1])
  }

  /** The 32 bytes of a program header, in field order. */
  function RawPhdr(p: ProgramHeader): (r: seq<Byte>)
    ensures |r| == 32
  {
    Words([p.kind, p.offset, p.vaddr, p.paddr, p.filesz, p.memsz, p.flags, p.align])
  }

  function RawTable(ps: seq<ProgramHeader>): (r: seq<Byte>)
    ensures |r| == 32 * |ps|
  {
    if ps == [] then [] else RawTable(ps[..|ps| - 1]) + RawPhdr(ps[|ps| - 1])
  }

  /** The fields the loader keeps of a program header, by name. */
  function Kept(p: ProgramHeader): Phdr {
    Phdr(kind := p.kind, offset := p.offset, vaddr := p.vaddr, filesz := p.filesz, memsz := p.memsz, flags := p.flags)
  }

  /** A file with this header at its start and these program headers where e_phoff says. */
  ghost predicate IsFile(content: seq<Byte>, ident: seq<Byte>, h: FileHeader, ps: seq<ProgramHeader>) {
    && |ident| == 16 && |content| < TWO_32 && h.phnum == |ps| && 52 <= |content|
    && h.phoff + 32 * |ps| <= |content|
    && content[..52] == RawHeader(ident, h) && content[h.phoff..h.phoff + 32 * |ps|] == RawTable(ps)
  }

  /* ---------- Decoding ---------- */

  /** A packed word is read back by the loader's word access. */
  lemma PackedWord(bytes: seq<Byte>, at: nat, w: Word)
    requires at + 4 <= |bytes| && bytes[at..at + 4] == InitrdImage.Pack(w)
    ensures WordIn(bytes, at) == w
  {
    var four := bytes[at..at + 4];
    assert four[0] == bytes[at] && four[1] == bytes[at + 1] && four[2] == bytes[at + 2] && four[3] == bytes[at + 3];
    InitrdImage.BytesOfWord(w);
  }

  lemma {:induction false} WordsPart(ws: seq<Word>, k: nat)
    requires k < |ws|
    ensures Words(ws)[4 * k..4 * k + 4] == InitrdImage.Pack(ws[k])
    decreases |ws|
  {
    var n := |ws| - 1;
    hide InitrdImage.Pack;
    if k < n {
      WordsPart(ws[..n], k);
      SliceOfFirst(Words(ws[..n]), InitrdImage.Pack(ws[n]), 4 * k, 4 * k + 4);
    }
  }

  lemma SliceOfFirst(a: seq<Byte>, b: seq<Byte>, lo: nat, hi: nat)
    requires lo <= hi <= |a|
    ensures (a + b)[lo..hi] == a[lo..hi]
  {
  }

  lemma SliceOfSlice(s: seq<Byte>, from: nat, n: nat, lo: nat, hi: nat)
    requires from + n <= |s| && lo <= hi <= n
    ensures s[from..from + n][lo..hi] == s[from + lo..from + hi]
  {
    var part := s[from..from + n];
    forall k | lo <= k < hi
      ensures part[k] == s[from + k]
    {
    }
    assert part[lo..hi] == s[from + lo..from + hi];
  }

  /** Word k of packed words, at whatever place they stand. */
  lemma WordBack(bytes: seq<Byte>, at: nat, ws: seq<Word>, k: nat)
    requires k < |ws| && at + 4 * |ws| <= |bytes| && bytes[at..at + 4 * |ws|] == Words(ws)
    ensures WordIn(bytes, at + 4 * k) == ws[k]
  {
    hide InitrdImage.Pack, Words, WordIn;
    WordsPart(ws, k);
    SliceOfSlice(bytes, at, 4 * |ws|, 4 * k, 4 * k + 4);
    PackedWord(bytes, at + 4 * k, ws[k]);
  }

  lemma PhdrBack(bytes: seq<Byte>, at: nat, p: ProgramHeader)
    requires at + 32 <= |bytes| && bytes[at..at + 32] == RawPhdr(p)
    ensures PhdrIn(bytes, at) == Kept(p)
  {
    var ws := [p.kind, p.offset, p.vaddr, p.paddr, p.filesz, p.memsz, p.flags, p.align];
    hide Words, WordIn;
    WordBack(bytes, at, ws, 0);
    WordBack(bytes, at, ws, 1);
    WordBack(bytes, at, ws, 2);
    WordBack(bytes, at, ws, 4);
    WordBack(bytes, at, ws, 5);
    WordBack(bytes, at, ws, 6);
  }

  lemma {:induction false} TablePart(ps: seq<ProgramHeader>, i: nat)
    requires i < |ps|
    ensures RawTable(ps)[32 * i..32 * i + 32] == RawPhdr(ps[i])
    decreases |ps|
  {
    hide RawPhdr;
    var n := |ps| - 1;
    if i < n {
      TablePart(ps[..n], i);
      SliceOfFirst(RawTable(ps[..n]), RawPhdr(ps[n]), 32 * i, 32 * i + 32);
    }
  }

  /** A table read from where it stands gives back every field the loader keeps of every header. */
  lemma HeadersBack(content: seq<Byte>, start: Word, ps: seq<ProgramHeader>, stack: seq<Byte>)
    requires start + 32 * |ps| <= |content| && |stack| == |ps| * PHDR_SIZE
    requires content[start..start + 32 * |ps|] == RawTable(ps)
    ensures HeadersAt(content, start, |ps|, stack) == seq(|ps|, i requires 0 <= i < |ps| => Kept(ps[i]))
  {
    hide RawPhdr, PhdrIn, Kept;
    var bytes := TableBytes(content, start, stack);
    assert bytes == RawTable(ps);
    forall i | 0 <= i < |ps|
      ensures PhdrIn(bytes, i * PHDR_SIZE) == Kept(ps[i])
    {
      TablePart(ps, i);
      PhdrBack(bytes, 32 * i, ps[i]);
    }
  }

  lemma HalfBack(bytes: seq<Byte>, at: nat, x: Half)
    requires at + 2 <= |bytes| && bytes[at..at + 2] == PackHalf(x)
    ensures HalfIn(bytes, at) == x
  {
    assert bytes[at] == bytes[at..at + 2][0] && bytes[at + 1] == bytes[at..at + 2][1];
  }

  /** The fields of the file header the loader reads are where they were written. */
  lemma FileHeaderBack(header: seq<Byte>, ident: seq<Byte>, h: FileHeader)
    requires |ident| == 16 && header == RawHeader(ident, h)
    ensures header[..16] == ident
    ensures TypeIn(header) == h.kind && HalfIn(header, 18) == h.machine
    ensures PhoffIn(header) == h.phoff && PhnumIn(header) == h.phnum
  {
    var ws := [h.version, h.entry, h.phoff, h.shoff, h.flags];
    hide Words, HalfIn, WordIn, PackHalf;
    HalfBack(header, 16, h.kind);
    HalfBack(header, 18, h.machine);
    assert header[20..40] == Words(ws);
    WordBack(header, 20, ws, 2);
    HalfBack(header, 44, h.phnum);
  }

  /** What load_elf reads of a file written field by field: the guards look at exactly these fields, the table
      is read from e_phoff when that is in the file and below 2^31 and right behind the file header when it is
      not, and the headers are the ones written, whatever the stack held. */
  lemma ElfRoundTrip(content: seq<Byte>, ident: seq<Byte>, h: FileHeader, ps: seq<ProgramHeader>, stack: seq<Byte>)
    requires IsFile(content, ident, h, ps) && |stack| == 0x1_0000 * PHDR_SIZE
    ensures IsElf(content) <==> ident[..7] == [0x7F, 0x45, 0x4C, 0x46, 1, 1, 1] && h.machine == 3 && h.kind in {1, 2}
    ensures IsExecutable(content) <==> IsElf(content) && h.kind == 2
    ensures ElfTableStart(content) == if h.phoff < |content| && h.phoff < 0x8000_0000 then h.phoff else 52
    ensures ElfTableStart(content) == h.phoff ==> ElfHeaders(content, stack) == KeptAll(ps)
  {
    var header := content[..52];
    assert HeaderOf(content) == header;
    FileHeaderBack(header, ident, h);
    hide RawHeader, HalfIn, WordIn;
    assert header[..16][..7] == ident[..7];
    if ElfTableStart(content) == h.phoff {
      HeadersBack(content, h.phoff, ps, stack[..|ps| * PHDR_SIZE]);
    }
  }

  function KeptAll(ps: seq<ProgramHeader>): (segs: seq<Phdr>)
    ensures |segs| == |ps|
  {
    seq(|ps|, i requires 0 <= i < |ps| => Kept(ps[i]))
  }

  /** Such files exist: the header, the table right behind it, and anything after. */
  lemma WrittenIsFile(ident: seq<Byte>, h: FileHeader, ps: seq<ProgramHeader>, rest: seq<Byte>)
    requires |ident| == 16 && h.phoff == 52 && h.phnum == |ps| && 52 + 32 * |ps| + |rest| < TWO_32
    ensures IsFile(RawHeader(ident, h) + RawTable(ps) + rest, ident, h, ps)
  {
    hide RawHeader, RawTable;
    var content := RawHeader(ident, h) + RawTable(ps) + rest;
    assert content[..52] == RawHeader(ident, h);
    assert content[52..52 + 32 * |ps|] == RawTable(ps);
  }

  /* ---------- A loaded program ---------- */

  /** The end of the pages mapped for a segment. */
  function PagesEnd(p: ProgramHeader): nat {
    p.vaddr + (p.memsz / 4096 + 1) * 4096
  }

  /** Header i is a loadable segment whose bytes are all in the file, and no other has pages in common with it. */
  predicate Standard(ps: seq<ProgramHeader>, i: nat, size: nat) {
    && i < |ps| && ps[i].kind == 1 && ps[i].vaddr != 0 && 0 < ps[i].filesz <= ps[i].memsz
    && ps[i].offset < 0x8000_0000 && ps[i].offset + ps[i].filesz <= size
    && forall j :: 0 <= j < |ps| && j != i && ps[j].kind == 1 ==>
      PagesEnd(ps[j]) <= ps[i].vaddr || PagesEnd(ps[i]) <= ps[j].vaddr
  }

  /** From the file as written to memory: at p_vaddr stand the p_filesz bytes from p_offset on, then zeros up to
      p_memsz, in whatever order and from whatever offset the segments were read. */
  lemma LoadedProgram(s0: Sys, s: Sys, own0: Owners, own: Owners, l: Layout, content: seq<Byte>, ident: seq<Byte>,
                      h: FileHeader, ps: seq<ProgramHeader>, stack: seq<Byte>, i: nat)
    requires IsFile(content, ident, h, ps) && |stack| == 0x1_0000 * PHDR_SIZE
    requires h.phoff < |content| && h.phoff < 0x8000_0000 && Standard(ps, i, |content|)
    requires LoadedSoFar(s0, s, own0, own, l, ElfHeaders(content, stack), |ps|, ElfSource(content))
    ensures forall v: Word :: ps[i].vaddr <= v < ps[i].vaddr + ps[i].filesz ==>
              UserByte(s, v) == content[ps[i].offset + (v - ps[i].vaddr)]
    ensures forall v: Word :: ps[i].vaddr + ps[i].filesz <= v < ps[i].vaddr + ps[i].memsz ==> UserByte(s, v) == 0
  {
    ElfRoundTrip(content, ident, h, ps, stack);
    hide IsFile, LoadedSoFar, UserByte, ElfHeaders, ElfTableStart, Standard, ElfSource;
    StandardLoaded(s0, s, own0, own, l, ps, i, ElfSource(content));
  }

  lemma StandardLoaded(s0: Sys, s: Sys, own0: Owners, own: Owners, l: Layout, ps: seq<ProgramHeader>, i: nat,
                       src: Source)
    requires src.Ok() && Standard(ps, i, |src.content|) && LoadedSoFar(s0, s, own0, own, l, KeptAll(ps), |ps|, src)
    ensures forall v: Word :: ps[i].vaddr <= v < ps[i].vaddr + ps[i].filesz ==>
              UserByte(s, v) == src.content[ps[i].offset + (v - ps[i].vaddr)]
    ensures forall v: Word :: ps[i].vaddr + ps[i].filesz <= v < ps[i].vaddr + ps[i].memsz ==> UserByte(s, v) == 0
  {
    hide LoadedSoFar, UserByte;
    StandardOrdinary(ps, i, src);
    LoadAtExact(KeptAll(ps), i, src);
    hide LoadAt, Ordinary;
    LoadedSegmentBytes(s0, s, own0, own, l, KeptAll(ps), i, src, LoadAt(KeptAll(ps), i, src));
  }

  lemma StandardOrdinary(ps: seq<ProgramHeader>, i: nat, src: Source)
    requires src.Ok() && Standard(ps, i, |src.content|)
    ensures Ordinary(KeptAll(ps), i, src)
  {
    var segs := KeptAll(ps);
    LoadAtExact(segs, i, src);
    hide LoadAt;
    forall j, v: Word | 0 <= j < |segs| && j != i && Loads(segs[j]) && InSegment(segs[i], v)
      ensures !InSegment(segs[j], v)
    {
      assert PagesEnd(ps[j]) <= ps[i].vaddr || PagesEnd(ps[i]) <= ps[j].vaddr;
    }
  }
}
