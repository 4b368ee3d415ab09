/** 32-bit two-level paging (section 4.3 of the Intel SDM, Volume 3A) and the machine that walks it.
    Physical memory is 2^20 frames of 1024 little-endian words; addresses and entries are `uint32_t`. */
module Paging {
  import opened Common

  const ENTRIES: nat := 1024
  const RECURSIVE_SLOT: nat := 1023
  const KERNEL_SLOT: nat := 768
  const RECURSIVE_PGD_ADDRESS: Word := 0xFFC0_0000
  const RECURSIVE_PGT_ADDRESS: Word := 0xFFFF_F000

  /** A frame number, physical or virtual. */
  type Frame = f: int | 0 <= f < 0x10_0000
  type Page = s: seq<Word> | |s| == 1024 witness ZeroWords()
  type Ram = s: seq<Page> | |s| == 0x10_0000 witness ZeroPages()

  function ZeroWords(): (s: seq<Word>)
    ensures |s| == 1024 && forall i :: 0 <= i < 1024 ==> s[i] == 0
  {
    seq(1024, _ => 0)
  }

  function ZeroPages(): (s: seq<Page>)
    ensures |s| == 0x10_0000
  {
    seq(0x10_0000, _ => ZeroWords())
  }

  const ZERO_PAGE: Page := ZeroWords()

  /* ---------- Entries ---------- */

  predicate Present(e: Word) {
    e % 2 == 1
  }

  predicate Writable(e: Word) {
    e / 2 % 2 == 1
  }

  predicate User(e: Word) {
    e / 4 % 2 == 1
  }

  function FrameOf(e: Word): Frame {
    e / 4096
  }

  /** Bitwise `e | bit`, for `bit` one of PRESENT = 1, READ_WRITE = 2, USER = 4. */
  function OrBit(e: Word, bit: nat): Word
    requires bit == 1 || bit == 2 || bit == 4
  {
    if e / bit % 2 == 1 then e else e + bit
  }

  /** `e | READ_WRITE | PRESENT` */
  function WithKernelAttributes(e: Word): Word {
    OrBit(OrBit(e, 2), 1)
  }

  /** `e | READ_WRITE | PRESENT | USER` */
  function WithUserAttributes(e: Word): Word {
    OrBit(OrBit(OrBit(e, 2), 1), 4)
  }

  lemma FreshEntry(f: Frame)
    ensures WithKernelAttributes(f * 4096) == f * 4096 + 3
    ensures WithUserAttributes(f * 4096) == f * 4096 + 7
  {
  }

  /** What edit_entry_attributes adds: the low three bits of an entry are PRESENT, READ_WRITE and USER, and nothing
      else of it changes. */
  lemma AttributesAdded(e: Word)
    ensures WithKernelAttributes(e) == e - e % 8 + (if e % 8 >= 4 then 7 else 3)
    ensures WithUserAttributes(e) == e - e % 8 + 7
    ensures User(e) <==> e % 8 >= 4
  {
    var y: nat, r: nat := e / 8, e % 8;
    assert e == 8 * y + r;
    LowThreeBits(y, r);
    LowBits(y, r);
  }

  lemma LowThreeBits(y: nat, r: nat)
    requires r < 8 && 8 * y + 7 < TWO_32
    ensures WithKernelAttributes(8 * y + r) == 8 * y + (if r >= 4 then 7 else 3)
    ensures WithUserAttributes(8 * y + r) == 8 * y + 7
  {
    hide OrBit;
    var first: nat := if r == 0 || r == 1 || r == 4 || r == 5 then r + 2 else r;
    var second: nat := if r >= 4 then 7 else 3;
    assert OrBit(8 * y + r, 2) == 8 * y + first by {
      BitAdded(y, r);
    }
    assert OrBit(8 * y + first, 1) == 8 * y + second by {
      BitAdded(y, first);
    }
    assert OrBit(8 * y + second, 4) == 8 * y + 7 by {
      BitAdded(y, second);
    }
  }

  lemma BitAdded(y: nat, r: nat)
    requires r < 8 && 8 * y + 7 < TWO_32
    ensures OrBit(8 * y + r, 1) == 8 * y + (if r % 2 == 1 then r else r + 1)
    ensures OrBit(8 * y + r, 2) == 8 * y + (if r / 2 % 2 == 1 then r else r + 2)
    ensures OrBit(8 * y + r, 4) == 8 * y + (if r >= 4 then r else r + 4)
  {
    LowBits(y, r);
    assert (8 * y + r) / 1 == 8 * y + r;
  }

  lemma EntryBits(f: Frame)
    ensures Present(f * 4096 + 3) && Writable(f * 4096 + 3) && !User(f * 4096 + 3) && FrameOf(f * 4096 + 3) == f
    ensures Present(f * 4096 + 7) && Writable(f * 4096 + 7) && User(f * 4096 + 7) && FrameOf(f * 4096 + 7) == f
  {
    var x: nat := f;
    HighBits(x, 3);
    HighBits(x, 7);
    LowBits(512 * x, 3);
    LowBits(512 * x, 7);
  }

  lemma HighBits(x: nat, r: nat)
    requires r < 4096
    ensures (x * 4096 + r) / 4096 == x
  {
  }

  lemma LowBits(y: nat, r: nat)
    requires r < 8
    ensures (8 * y + r) % 2 == r % 2 && (8 * y + r) / 2 % 2 == r / 2 % 2 && (8 * y + r) / 4 % 2 == r / 4
  {
    var h := r / 2;
    Halved(4 * y + h, r % 2);
    Halved(2 * y + h / 2, h % 2);
    Halved(y, h / 2);
    assert 8 * y + r == 2 * (4 * y + h) + r % 2 && 4 * y + h == 2 * (2 * y + h / 2) + h % 2;
    Quartered(8 * y + r);
  }

  lemma Halved(x: nat, b: nat)
    requires b < 2
    ensures (2 * x + b) / 2 == x && (2 * x + b) % 2 == b
  {
  }

  lemma Quartered(x: nat)
    ensures x / 4 == x / 2 / 2
  {
  }

  /* ---------- Translation ---------- */

  /** Where a virtual page lands, with the rights granted by both levels. */
  datatype Mapping = Mapping(frame: Frame, writable: bool, user: bool)

  /** The two-level walk from directory `cr3`; None is a page fault. */
  function Translate(ram: Ram, cr3: Frame, page: Frame): Option<Mapping> {
    var pde := ram[cr3][page / ENTRIES];
    if !Present(pde) then None
    else
      var pte := ram[FrameOf(pde)][page % ENTRIES];
      if !Present(pte) then None
      else Some(Mapping(FrameOf(pte), Writable(pde) && Writable(pte), User(pde) && User(pte)))
  }

  predicate Mapped(ram: Ram, cr3: Frame, v: Word) {
    Translate(ram, cr3, v / 4096).Some?
  }

  function SetEntry(ram: Ram, f: Frame, i: nat, w: Word): Ram
    requires i < ENTRIES
  {
    ram[f := ram[f][i := w]]
  }

  lemma SetEntryTwice(ram: Ram, f: Frame, i: nat, first: Word, second: Word)
    requires i < ENTRIES
    ensures SetEntry(SetEntry(ram, f, i, first), f, i, second) == SetEntry(ram, f, i, second)
  {
    assert ram[f][i := first][i := second] == ram[f][i := second];
  }

  /* ---------- The recursive window ---------- */

  /** Directory slot 1023 holds the directory's own frame. */
  predicate Recursive(ram: Ram, cr3: Frame) {
    Present(ram[cr3][RECURSIVE_SLOT]) && FrameOf(ram[cr3][RECURSIVE_SLOT]) == cr3
  }

  /** The address of entry t of the table in directory slot d. */
  function TableWindow(d: nat, t: nat): Word
    requires d < ENTRIES && t < ENTRIES
  {
    RECURSIVE_PGD_ADDRESS + 4 * (d * 1024 + t)
  }

  /** The address of directory slot d. */
  function DirectoryWindow(d: nat): Word
    requires d < ENTRIES
  {
    RECURSIVE_PGT_ADDRESS + 4 * d
  }

  /** Where a word access at `v` lands. */
  predicate Hits(ram: Ram, cr3: Frame, v: Word, f: Frame, i: nat) {
    Translate(ram, cr3, v / 4096).Some? && Translate(ram, cr3, v / 4096).value.frame == f && v % 4096 == 4 * i
  }

  /** The table window reaches exactly the table of the chosen slot, and faults exactly when the slot is
      not present; the directory window reaches the directory itself. */
  lemma WindowHits(ram: Ram, cr3: Frame, d: nat, t: nat)
    requires Recursive(ram, cr3) && d < ENTRIES && t < ENTRIES
    ensures Mapped(ram, cr3, TableWindow(d, t)) <==> Present(ram[cr3][d])
    ensures Present(ram[cr3][d]) ==> Hits(ram, cr3, TableWindow(d, t), FrameOf(ram[cr3][d]), t)
    ensures Hits(ram, cr3, DirectoryWindow(d), cr3, d)
  {
    var v := TableWindow(d, t);
    assert v == 4096 * (1023 * 1024 + d) + 4 * t;
    assert v / 4096 == 1023 * 1024 + d && v % 4096 == 4 * t;
    assert (v / 4096) / 1024 == 1023 && (v / 4096) % 1024 == d;
    var u := DirectoryWindow(d);
    assert u / 4096 == 1023 * 1024 + 1023 && u % 4096 == 4 * d;
  }

  /* ---------- Bytes of words and pages ---------- */

  /** Byte k of a little-endian word. */
  function ByteOf(w: Word, k: nat): Byte
    requires k < 4
  {
    match k
    case 0 => w % 256
    case 1 => w / 256 % 256
    case 2 => w / 256 / 256 % 256
    case _ => w / 256 / 256 / 256
  }

  /** The bytes of a word are its digits in base 256, the lowest first. */
  lemma LittleEndian(w: Word)
    ensures w == ByteOf(w, 0) + 256 * ByteOf(w, 1) + 65536 * ByteOf(w, 2) + 16777216 * ByteOf(w, 3)
  {
    var q := w / 256;
    var r := q / 256;
    assert w == 256 * q + w % 256 && q == 256 * r + q % 256 && r == 256 * (r / 256) + r % 256;
  }

  /** The little-endian word of four bytes. */
  function Word4(b0: Byte, b1: Byte, b2: Byte, b3: Byte): (w: Word)
    ensures ByteOf(w, 0) == b0 && ByteOf(w, 1) == b1 && ByteOf(w, 2) == b2 && ByteOf(w, 3) == b3
  {
    LowByte(b0, b1 + 256 * (b2 + 256 * b3));
    LowByte(b1, b2 + 256 * b3);
    LowByte(b2, b3);
    b0 + 256 * (b1 + 256 * (b2 + 256 * b3))
  }

  lemma LowByte(b: Byte, rest: nat)
    ensures (b + 256 * rest) % 256 == b && (b + 256 * rest) / 256 == rest
  {
  }

  function WithByte(w: Word, k: nat, b: Byte): (r: Word)
    requires k < 4
    ensures forall j :: 0 <= j < 4 ==> ByteOf(r, j) == if j == k then b else ByteOf(w, j)
  {
    var b0, b1, b2, b3 := ByteOf(w, 0), ByteOf(w, 1), ByteOf(w, 2), ByteOf(w, 3);
    match k
    case 0 => Word4(b, b1, b2, b3)
    case 1 => Word4(b0, b, b2, b3)
    case 2 => Word4(b0, b1, b, b3)
    case _ => Word4(b0, b1, b2, b)
  }

  lemma ZeroBytesZeroWord(w: Word)
    requires forall k :: 0 <= k < 4 ==> ByteOf(w, k) == 0
    ensures w == 0
  {
    assert ByteOf(w, 0) == 0 && ByteOf(w, 1) == 0 && ByteOf(w, 2) == 0 && ByteOf(w, 3) == 0;
  }

  function PageByte(p: Page, o: nat): Byte
    requires o < 4096
  {
    ByteOf(p[o / 4], o % 4)
  }

  function WithPageByte(p: Page, o: nat, b: Byte): (r: Page)
    requires o < 4096
    ensures forall j: nat :: j < 4096 ==> PageByte(r, j) == if j == o then b else PageByte(p, j)
  {
    p[o / 4 := WithByte(p[o / 4], o % 4, b)]
  }

  lemma ZeroBytesZeroPage(p: Page)
    requires forall o: nat :: o < 4096 ==> PageByte(p, o) == 0
    ensures p == ZERO_PAGE
  {
    forall i | 0 <= i < 1024
      ensures p[i] == 0
    {
      forall k | 0 <= k < 4
        ensures ByteOf(p[i], k) == 0
      {
        assert PageByte(p, 4 * i + k) == 0;
      }
      ZeroBytesZeroWord(p[i]);
    }
  }
}
