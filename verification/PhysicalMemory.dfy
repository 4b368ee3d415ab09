/** The physical frame allocator: kernel/mm/physical_mm_manager.c. One bit of a packed bitmap per 4 KB
    frame of the 4 GB address space, a one bit meaning "available". */
module PhysicalMemory {
  import opened Common
  import opened Bits

  const BITMAP_SIZE: nat := 0x2_0000
  const NUM_PAGES: nat := 0x10_0000
  const LOW_MEMORY_END: Word := 0xf_f000
  const KERNEL_START: Word := 0x10_0000

  /* ---------- The abstract allocator ---------- */

  datatype FrameState = FrameState(available: set<nat>, noPageAvailable: bool)

  ghost predicate InAddressSpace(available: set<nat>) {
    forall p :: p in available ==> p < NUM_PAGES
  }

  /** allocate_physical_page, on the set of available frames; `first` is the first frame it scans. */
  ghost function Allocate(s: FrameState, first: nat): (r: (FrameState, Word))
    requires InAddressSpace(s.available)
  {
    if s.noPageAvailable then (s, 0)
    else if AtOrAbove(s.available, first) == {} then (s.(noPageAvailable := true), 0)
    else
      var p := Lowest(AtOrAbove(s.available, first));
      (s.(available := s.available - {p}), p * PAGE_SIZE)
  }

  /** free_physical_page: a misaligned address changes nothing. */
  ghost function Free(s: FrameState, address: Word): FrameState {
    if address % PAGE_SIZE != 0 then s
    else FrameState(s.available + {address / PAGE_SIZE}, false)
  }

  predicate ValidSpan(begin: Word, end: Word) {
    begin % PAGE_SIZE == 0 && end % PAGE_SIZE == 0 && begin <= end
  }

  ghost function Span(begin: Word, end: Word): set<nat> {
    Interval(begin / PAGE_SIZE, end / PAGE_SIZE)
  }

  ghost function Register(s: FrameState, begin: Word, end: Word): FrameState {
    if ValidSpan(begin, end) then s.(available := s.available - Span(begin, end)) else s
  }

  ghost function Unregister(s: FrameState, begin: Word, end: Word): FrameState {
    if ValidSpan(begin, end) then s.(available := s.available + Span(begin, end)) else s
  }

  /** Frame p starts inside [begin, end), both on page boundaries. */
  predicate InSpan(p: nat, begin: Word, end: Word) {
    begin % 4096 == 0 && end % 4096 == 0 && begin <= p * 4096 < end
  }

  /** After registering a span exactly its frames are gone from the available ones, and after unregistering it
      exactly those are there besides; a span that is not made of whole pages, or is reversed, changes nothing. */
  lemma RegisterExact(s: FrameState, begin: Word, end: Word)
    ensures forall p: nat :: p in Register(s, begin, end).available <==> p in s.available && !InSpan(p, begin, end)
    ensures forall p: nat :: p in Unregister(s, begin, end).available <==> p in s.available || InSpan(p, begin, end)
    ensures Register(s, begin, end).noPageAvailable == Unregister(s, begin, end).noPageAvailable == s.noPageAvailable
  {
    if begin % 4096 == 0 && end % 4096 == 0 {
      var b, e := begin / 4096, end / 4096;
      assert begin == 4096 * b && end == 4096 * e;
      forall p: nat
        ensures InSpan(p, begin, end) <==> b <= p < e
      {
      }
    }
  }

  /** Freeing a frame by its address makes exactly that frame available and drops the flag; an address inside the
      frame changes nothing. */
  lemma FreeExact(s: FrameState, p: nat, r: nat)
    requires p < NUM_PAGES && r < 4096
    ensures Free(s, p * 4096 + r) == if r == 0 then FrameState(s.available + {p}, false) else s
  {
    assert (p * 4096 + r) % 4096 == r && (p * 4096 + r) / 4096 == p;
  }

  /* ---------- The multiboot memory map ---------- */

  type Word64 = x: int | 0 <= x < 0x1_0000_0000_0000_0000

  const MULTIBOOT_MEMORY_AVAILABLE: nat := 1

  datatype Region = Region(addr: Word64, len: Word64, kind: nat)

  /** The frames that lie wholly inside a region. */
  ghost function WholePages(r: Region): set<nat> {
    set p | p in Interval(0, NUM_PAGES) && r.addr <= p * PAGE_SIZE && (p + 1) * PAGE_SIZE <= r.addr + r.len
  }

  /** Frame p lies in a region of type 1. */
  ghost predicate InAvailableRegion(map_: seq<Region>, p: nat) {
    exists i :: 0 <= i < |map_| && map_[i].kind == 1 && p in WholePages(map_[i])
  }

  /** The span handed to change_pages_state for one available region, or None when it is skipped.
      64-bit fields are truncated to 32 bits exactly where the code does. */
  function RegionSpan(r: Region): Option<(Word, Word)> {
    var address := Wrap32(r.addr);
    var len := Wrap32(r.len);
    if PageBoundary(address) == address then
      Some((address, Wrap32(address + WholeLength(len))))
    else if len <= PAGE_SIZE then
      None
    else
      var next := NextPageBoundary(address);
      Some((next, Wrap32(next + WholeLength(Wrap32(len - (next - r.addr))))))
  }

  function WholeLength(len: Word): Word {
    if PageBoundary(len) == len then len
    else if PageBoundary(len) < len then PageBoundary(len)
    else Wrap32(PageBoundary(len) - PAGE_SIZE)
  }

  /** Rounding a region inwards selects exactly the frames wholly inside it, and never a reversed span. */
  lemma RegionSpanExact(r: Region)
    requires r.addr + r.len < TWO_32
    ensures RegionSpan(r) == None ==> WholePages(r) == {}
    ensures RegionSpan(r).Some? ==>
              && ValidSpan(RegionSpan(r).value.0, RegionSpan(r).value.1)
              && Span(RegionSpan(r).value.0, RegionSpan(r).value.1) == WholePages(r)
  {
    RegionSpanRounds(r);
    var end := r.addr + r.len;
    if RegionSpan(r) == None {
      var next := PageBoundary(r.addr) + PAGE_SIZE;
      PageBoundaryAligned(r.addr);
      forall p | p in Interval(0, NUM_PAGES)
        ensures p !in WholePages(r)
      {
        PageInside(p, r.addr, end, next, next);
      }
    } else {
      var (lo, hi) := RegionSpan(r).value;
      forall p: nat
        ensures p in Span(lo, hi) <==> p in WholePages(r)
      {
        PageInside(p, r.addr, end, lo, hi);
      }
    }
  }

  lemma RegionSpanRounds(r: Region)
    requires r.addr + r.len < TWO_32
    ensures RegionSpan(r) == None ==>
              r.addr % PAGE_SIZE != 0 && r.addr + r.len < PageBoundary(r.addr) + 2 * PAGE_SIZE
    ensures RegionSpan(r).Some? ==>
              var (lo, hi) := RegionSpan(r).value;
              && ValidSpan(lo, hi)
              && r.addr <= lo < r.addr + PAGE_SIZE
              && hi <= r.addr + r.len < hi + PAGE_SIZE
  {
    var base := PageBoundary(r.addr);
    PageBoundaryAligned(r.addr);
    Wrap32Small(r.addr);
    Wrap32Small(r.len);
    if base == r.addr {
      SpanRounds(r.addr, r.len);
      assert RegionSpan(r) == Some((r.addr, r.addr + WholeLength(r.len)));
    } else if r.len > PAGE_SIZE {
      var next := base + PAGE_SIZE;
      AlignedSum(base, PAGE_SIZE);
      Wrap32Small(next);
      Wrap32Small(r.len - (next - r.addr));
      SpanRounds(next, r.len - (next - r.addr));
      assert RegionSpan(r) == Some((next, next + WholeLength(r.len - (next - r.addr))));
    }
  }

  /** From an aligned start the rounded length gives an aligned end less than a page short. */
  lemma SpanRounds(lo: Word, len: Word)
    requires lo % PAGE_SIZE == 0 && lo + len < TWO_32
    ensures Wrap32(lo + WholeLength(len)) == lo + WholeLength(len)
    ensures ValidSpan(lo, lo + WholeLength(len))
    ensures lo + WholeLength(len) <= lo + len < lo + WholeLength(len) + PAGE_SIZE
  {
    WholeLengthRounds(len);
    AlignedSum(lo, WholeLength(len));
    Wrap32Small(lo + WholeLength(len));
  }

  lemma WholeLengthRounds(len: Word)
    ensures WholeLength(len) == PageBoundary(len) && PageBoundary(len) % PAGE_SIZE == 0
    ensures PageBoundary(len) <= len < PageBoundary(len) + PAGE_SIZE
  {
    PageBoundaryAligned(len);
  }

  lemma AlignedSum(x: nat, y: nat)
    requires x % PAGE_SIZE == 0 && y % PAGE_SIZE == 0
    ensures (x + y) % PAGE_SIZE == 0
  {
  }

  /** With [lo, hi) the inward rounding of [begin, end), frame p lies in one iff it lies in the other. */
  lemma PageInside(p: nat, begin: nat, end: nat, lo: nat, hi: nat)
    requires lo % PAGE_SIZE == 0 && hi % PAGE_SIZE == 0
    requires begin <= lo < begin + PAGE_SIZE && end < hi + PAGE_SIZE && (hi <= end || lo == hi)
    ensures begin <= p * PAGE_SIZE && (p + 1) * PAGE_SIZE <= end <==> lo / PAGE_SIZE <= p < hi / PAGE_SIZE
  {
    var l, h := lo / PAGE_SIZE, hi / PAGE_SIZE;
    assert lo == l * 4096 && hi == h * 4096;
    if l <= p {
      assert l * 4096 <= p * 4096;
    } else {
      assert p * 4096 + 4096 <= lo;
    }
  }

  /** The span in one expression, for any 64-bit region: from the truncated address rounded up to the truncated
      end rounded down, both modulo 2^32; a truncated length of a page or less from an unaligned start is skipped. */
  lemma RegionSpanIs(r: Region)
    ensures var address: nat, len: nat := r.addr % 0x1_0000_0000, r.len % 0x1_0000_0000;
            RegionSpan(r) ==
              if address % 4096 != 0 && len <= 4096 then None
              else Some(((address + 4095) / 4096 * 4096 % 0x1_0000_0000, (address + len) / 4096 * 4096 % 0x1_0000_0000))
  {
    var address: nat := Wrap32(r.addr);
    var q, o := address / 4096, address % 4096;
    assert address == 4096 * q + o;
    RoundedUp(q, o);
    if o == 0 {
      AlignedRegionSpan(r, q);
    } else {
      UnalignedRegionSpan(r, q, o);
    }
  }

  lemma AlignedRegionSpan(r: Region, q: nat)
    requires Wrap32(r.addr) == 4096 * q
    ensures RegionSpan(r) == Some((Wrap32(r.addr), Wrap32((4096 * q + Wrap32(r.len)) / 4096 * 4096)))
  {
    var address, len := Wrap32(r.addr), Wrap32(r.len);
    assert PageBoundary(address) == address by {
      PageBoundaryAligned(address);
    }
    hide WholeLength, PageBoundary, Wrap32;
    assert Wrap32(4096 * q) == address by {
      Wrap32Small(address);
    }
    AlignedSpanEnd(q, len);
  }

  lemma UnalignedRegionSpan(r: Region, q: nat, o: nat)
    requires Wrap32(r.addr) == 4096 * q + o && 0 < o < 4096
    ensures RegionSpan(r) == if Wrap32(r.len) <= 4096 then None
                             else Some((Wrap32(4096 * (q + 1)), Wrap32((4096 * q + o + Wrap32(r.len)) / 4096 * 4096)))
  {
    var len: nat := Wrap32(r.len);
    var boundary := PageBoundary(Wrap32(r.addr));
    PageBoundaryAligned(Wrap32(r.addr));
    assert boundary == 4096 * q;
    if len > 4096 {
      var left := len - (4096 - o);
      TruncatedLength(r, left);
      hide WholeLength, PageBoundary;
      AlignedSpanEnd(q + 1, left);
      assert 4096 * q + o + len == 4096 * (q + 1) + left;
    }
  }

  lemma RoundedUp(q: nat, o: nat)
    requires o < 4096
    ensures (4096 * q + o + 4095) / 4096 == if o == 0 then q else q + 1
  {
  }

  /** From page q on, a length rounded down. */
  lemma AlignedSpanEnd(q: nat, len: Word)
    ensures Wrap32(Wrap32(4096 * q) + WholeLength(len)) == Wrap32((4096 * q + len) / 4096 * 4096)
  {
    WholeLengthRounds(len);
    var n, rest := len / 4096, len % 4096;
    assert len == 4096 * n + rest && WholeLength(len) == 4096 * n;
    assert (4096 * (q + n) + rest) / 4096 == q + n;
    var a := 4096 * q;
    assert Wrap32(Wrap32(a) + 4096 * n) == Wrap32(a + 4096 * n) by {
      var k := a / 0x1_0000_0000;
      assert a == 0x1_0000_0000 * k + Wrap32(a);
      WrapShift(Wrap32(a) + 4096 * n, k);
    }
  }

  lemma WrapShift(x: nat, k: nat)
    ensures Wrap32(x + 0x1_0000_0000 * k) == Wrap32(x)
  {
  }

  /** The span of a region is the set of frames wholly inside it, and change_pages_state accepts it. */
  ghost predicate Exact(r: Region) {
    match RegionSpan(r)
    case None => WholePages(r) == {}
    case Some(span) => ValidSpan(span.0, span.1) && Span(span.0, span.1) == WholePages(r)
  }

  /** After truncation to 32 bits less than a whole page remains. */
  predicate TruncatedSmall(r: Region) {
    if r.addr % PAGE_SIZE == 0 then Wrap32(r.len) < PAGE_SIZE else r.addr % PAGE_SIZE + Wrap32(r.len) < 2 * PAGE_SIZE
  }

  /** Exactly which regions are taken up correctly: those that end below 4 GB, and of those that do not the ones
      that hold no frame the bitmap has and truncate to nothing. Every other region that reaches 4 GB gives
      wrong frames or a reversed span. */
  lemma RegionExactIff(r: Region)
    ensures Exact(r) <==> r.addr + r.len < TWO_32 || (TWO_32 - PAGE_SIZE < r.addr && TruncatedSmall(r))
  {
    if r.addr + r.len < TWO_32 {
      RegionSpanExact(r);
    } else if TWO_32 - PAGE_SIZE < r.addr {
      BeyondHoldsNothing(r);
      TruncatedSpanEmptyIff(r);
    } else {
      LastFrameMissed(r);
    }
  }

  lemma BeyondHoldsNothing(r: Region)
    requires TWO_32 - PAGE_SIZE < r.addr
    ensures WholePages(r) == {}
  {
  }

  /** The span made of the truncated fields selects nothing exactly when less than a page remains of them. */
  lemma TruncatedSpanEmptyIff(r: Region)
    ensures TruncatedSmall(r) <==>
              match RegionSpan(r)
              case None => true
              case Some(span) => ValidSpan(span.0, span.1) && Span(span.0, span.1) == {}
  {
    var address, len := Wrap32(r.addr), Wrap32(r.len);
    TruncatedOffset(r.addr);
    PageBoundaryAligned(address);
    if PageBoundary(address) == address {
      SpanEmptyIff(address, len);
    } else if len > PAGE_SIZE {
      var next := NextPageBoundary(address);
      NextAligned(address);
      var left := len - (PAGE_SIZE - address % PAGE_SIZE);
      TruncatedLength(r, left);
      SpanEmptyIff(next, left);
    }
  }

  lemma TruncatedOffset(x: nat)
    ensures Wrap32(x) % PAGE_SIZE == x % PAGE_SIZE
  {
    var q, w := x / 0x1_0000_0000, Wrap32(x);
    RestOfMultiple(0x10_0000 * q + w / 4096, w % 4096);
    assert x == 4096 * (0x10_0000 * q + w / 4096) + w % 4096;
  }

  lemma RestOfMultiple(y: nat, r: nat)
    requires r < 4096
    ensures (4096 * y + r) % 4096 == r
  {
  }

  lemma NextAligned(address: Word)
    ensures NextPageBoundary(address) % PAGE_SIZE == 0
  {
    PageBoundaryAligned(address);
    var n := PageBoundary(address) + PAGE_SIZE;
    assert n % PAGE_SIZE == 0;
    TruncatedOffset(n);
  }

  /** What `len -= (address - map_iterator->addr)` leaves, modulo 2^32. */
  lemma TruncatedLength(r: Region, left: nat)
    requires left == Wrap32(r.len) - (PAGE_SIZE - Wrap32(r.addr) % PAGE_SIZE)
    ensures Wrap32(Wrap32(r.len) - (NextPageBoundary(Wrap32(r.addr)) - r.addr)) == left
  {
    var address := Wrap32(r.addr);
    var n := PageBoundary(address) + PAGE_SIZE;
    var a, b := r.addr / 0x1_0000_0000, n / 0x1_0000_0000;
    assert r.addr == 0x1_0000_0000 * a + address && n == 0x1_0000_0000 * b + NextPageBoundary(address);
    assert n - address == PAGE_SIZE - address % PAGE_SIZE;
    assert Wrap32(r.len) - (NextPageBoundary(address) - r.addr) == left + 0x1_0000_0000 * (a + b);
    WrapMultiple(left, a + b);
  }

  lemma WrapMultiple(x: Word, k: int)
    ensures Wrap32(x + 0x1_0000_0000 * k) == x
  {
  }

  /** From an aligned start a rounded length spans nothing, without wrapping, exactly when it is under a page. */
  lemma SpanEmptyIff(lo: Word, len: Word)
    requires lo % PAGE_SIZE == 0
    ensures len < PAGE_SIZE <==>
              ValidSpan(lo, Wrap32(lo + WholeLength(len))) && Span(lo, Wrap32(lo + WholeLength(len))) == {}
  {
    WholeLengthRounds(len);
    var whole := WholeLength(len);
    var hi := Wrap32(lo + whole);
    if len < PAGE_SIZE {
      assert whole == 0;
      assert hi == lo;
    } else {
      assert whole >= PAGE_SIZE;
      assert hi != lo;
      if lo < hi && hi % PAGE_SIZE == 0 {
        assert lo / PAGE_SIZE < hi / PAGE_SIZE;
        assert lo / PAGE_SIZE in Span(lo, hi);
      }
    }
  }

  /** A region that covers the last frame below 4 GB: no 32-bit span ends there. */
  lemma LastFrameMissed(r: Region)
    requires r.addr <= TWO_32 - PAGE_SIZE && TWO_32 <= r.addr + r.len
    ensures !Exact(r)
  {
    assert NUM_PAGES - 1 in WholePages(r);
    if RegionSpan(r).Some? {
      var (lo, hi) := RegionSpan(r).value;
      assert hi / PAGE_SIZE <= NUM_PAGES - 1;
      assert NUM_PAGES - 1 !in Span(lo, hi);
    }
  }

  /** A region that starts at 4 GB aliases frame 0. */
  lemma HighRegionAliases()
    ensures RegionSpan(Region(0x1_0000_0000, 0x1000, MULTIBOOT_MEMORY_AVAILABLE)) == Some((0, 0x1000))
    ensures 0 in Span(0, 0x1000) && 0 !in WholePages(Region(0x1_0000_0000, 0x1000, MULTIBOOT_MEMORY_AVAILABLE))
  {
  }

  /** Frame p is in the span computed for an available region of the map. */
  ghost predicate Selected(map_: seq<Region>, p: nat) {
    exists i :: 0 <= i < |map_| && Selects(map_[i], p)
  }

  ghost predicate Selects(r: Region, p: nat) {
    r.kind == MULTIBOOT_MEMORY_AVAILABLE && RegionSpan(r).Some?
      && p in Span(RegionSpan(r).value.0, RegionSpan(r).value.1)
  }

  /** change_pages_state rejects the span of this region. */
  predicate Panics(r: Region) {
    && r.kind == MULTIBOOT_MEMORY_AVAILABLE && RegionSpan(r).Some?
    && !ValidSpan(RegionSpan(r).value.0, RegionSpan(r).value.1)
  }

  /** On a map of exact regions nothing panics and the selected frames are those of the available regions. */
  lemma ExactMap(map_: seq<Region>)
    requires forall i :: 0 <= i < |map_| && map_[i].kind == MULTIBOOT_MEMORY_AVAILABLE ==> Exact(map_[i])
    ensures forall i :: 0 <= i < |map_| ==> !Panics(map_[i])
    ensures forall p: nat :: Selected(map_, p) <==> InAvailableRegion(map_, p)
  {
    forall p: nat
      ensures Selected(map_, p) <==> InAvailableRegion(map_, p)
    {
      if Selected(map_, p) {
        var i :| 0 <= i < |map_| && Selects(map_[i], p);
        assert Exact(map_[i]);
      }
      if InAvailableRegion(map_, p) {
        var i :| 0 <= i < |map_| && map_[i].kind == MULTIBOOT_MEMORY_AVAILABLE && p in WholePages(map_[i]);
        assert Exact(map_[i]);
        assert Selects(map_[i], p);
      }
    }
  }

  /* ---------- The allocator ---------- */

  datatype PageState = PageUnavailable | PageAvailable

  class PhysicalMemory {
    const bitmap: Bitmap
    var noPageAvailable: bool
    /** The linker symbol: page aligned, above KERNEL_START. */
    const kernelEnd: Word

    ghost predicate Valid()
      reads this, bitmap, bitmap.bytes
    {
      && bitmap.Valid() && bitmap.bytes.Length == BITMAP_SIZE
      && InAddressSpace(bitmap.ones)
      && kernelEnd % PAGE_SIZE == 0 && KERNEL_START < kernelEnd
    }

    ghost function View(): FrameState
      reads this, bitmap
    {
      FrameState(bitmap.ones, noPageAvailable)
    }

    ghost function Repr(): set<object>
      reads this
    {
      {this, bitmap, bitmap.bytes}
    }

    /** The frame of the first bit of the byte the scan starts at. */
    function FirstScanned(): nat {
      8 * (kernelEnd / PAGE_SIZE / 8)
    }

    /** That byte is the one with the bit of the frame at the kernel's end. */
    lemma ScanStart()
      ensures FirstScanned() % 8 == 0 && FirstScanned() * 4096 <= kernelEnd < (FirstScanned() + 8) * 4096
    {
    }

    constructor (kernelEnd: Word)
      requires kernelEnd % PAGE_SIZE == 0 && KERNEL_START < kernelEnd
      ensures Valid() && fresh(Repr()) && this.kernelEnd == kernelEnd
      ensures View() == FrameState({}, false)
    {
      this.kernelEnd := kernelEnd;
      bitmap := new Bitmap(BITMAP_SIZE);
      noPageAvailable := false;
    }

    method ChangePageState(pageAddress: Word, state: PageState) returns (code: ErrorCode)
      requires Valid()
      modifies bitmap, bitmap.bytes
      ensures Valid()
      ensures code == if pageAddress % PAGE_SIZE == 0 then Success else InvalidArgument
      ensures bitmap.ones == if code != Success then old(bitmap.ones)
                             else if state == PageAvailable then old(bitmap.ones) + {pageAddress / PAGE_SIZE}
                             else old(bitmap.ones) - {pageAddress / PAGE_SIZE}
    {
      if PageBoundary(pageAddress) != pageAddress {
        return InvalidArgument;
      }
      var bitIndex := AddressToBitIndex(pageAddress, 0);
      assert bitIndex == pageAddress / PAGE_SIZE;
      var byteIndex := bitIndex / 8;
      if state == PageUnavailable {
        bitmap.TurnBitOff(byteIndex, bitIndex % 8);
      } else {
        bitmap.TurnBitOn(byteIndex, bitIndex % 8);
      }
      return Success;
    }

    method ChangePagesState(begin: Word, end: Word, state: PageState) returns (code: ErrorCode)
      requires Valid()
      modifies bitmap, bitmap.bytes
      ensures Valid()
      ensures code == if ValidSpan(begin, end) then Success else InvalidArgument
      ensures bitmap.ones == if code != Success then old(bitmap.ones)
                             else if state == PageAvailable then old(bitmap.ones) + Span(begin, end)
                             else old(bitmap.ones) - Span(begin, end)
    {
      if PageBoundary(begin) != begin || PageBoundary(end) != end {
        return InvalidArgument;
      }
      if end < begin {
        return InvalidArgument;
      }
      var address := begin;
      ghost var before, first := bitmap.ones, begin / PAGE_SIZE;
      while address < end
        invariant Valid() && begin <= address <= end && address % PAGE_SIZE == 0
        invariant bitmap.ones == if state == PageAvailable
                                 then before + Interval(first, address / PAGE_SIZE)
                                 else before - Interval(first, address / PAGE_SIZE)
      {
        IntervalSteps(before, first, address / PAGE_SIZE);
        code := ChangePageState(address, state);
        if code != Success {
          return Failure;
        }
        assert (address + PAGE_SIZE) / PAGE_SIZE == address / PAGE_SIZE + 1;
        address := address + PAGE_SIZE;
      }
      return Success;
    }

    /** `done` regions were taken up; the kernel panics at the first one whose span is rejected. */
    method MapMemory(map_: seq<Region>) returns (panicked: bool, ghost done: nat)
      requires Valid()
      modifies bitmap, bitmap.bytes
      ensures Valid()
      ensures done <= |map_| && (panicked <==> done < |map_|)
      ensures panicked ==> Panics(map_[done])
      ensures forall j :: 0 <= j < done ==> !Panics(map_[j])
      ensures forall p: nat :: p in bitmap.ones <==> p in old(bitmap.ones) || Selected(map_[..done], p)
    {
      var i := 0;
      while i < |map_|
        invariant 0 <= i <= |map_| && Valid()
        invariant forall j :: 0 <= j < i ==> !Panics(map_[j])
        invariant forall p: nat :: p in bitmap.ones <==> p in old(bitmap.ones) || Selected(map_[..i], p)
      {
        SelectedSteps(map_, i);
        if map_[i].kind == MULTIBOOT_MEMORY_AVAILABLE {
          var span := RegionSpan(map_[i]);
          if span.Some? {
            var code := ChangePagesState(span.value.0, span.value.1, PageAvailable);
            if code != Success {
              return true, i;
            }
          }
        }
        i := i + 1;
      }
      return false, i;
    }

    /** Returns true when the kernel panics. */
    method Init(map_: seq<Region>) returns (panicked: bool)
      requires Valid()
      modifies bitmap, bitmap.bytes
      ensures Valid()
      ensures panicked <==> exists i :: 0 <= i < |map_| && Panics(map_[i])
      ensures !panicked ==> forall p: nat :: p in bitmap.ones <==>
                && (p in old(bitmap.ones) || Selected(map_, p))
                && !(p < 0xff) && !(0x100 <= p < kernelEnd / PAGE_SIZE)
    {
      ghost var done;
      panicked, done := MapMemory(map_);
      if panicked {
        return;
      }
      assert map_[..done] == map_;
      var _ := ChangePagesState(0, LOW_MEMORY_END, PageUnavailable);
      var _ := ChangePagesState(KERNEL_START, kernelEnd, PageUnavailable);
    }

    method AllocatePhysicalPage() returns (address: Word)
      requires Valid()
      modifies this, bitmap, bitmap.bytes
      ensures Valid()
      ensures View() == Allocate(old(View()), FirstScanned()).0
      ensures address == Allocate(old(View()), FirstScanned()).1
    {
      if noPageAvailable {
        return 0;
      }
      var i := kernelEnd / PAGE_SIZE / 8;
      while i < BITMAP_SIZE
        invariant kernelEnd / PAGE_SIZE / 8 <= i <= BITMAP_SIZE
        invariant Valid() && View() == old(View())
        invariant AtOrAbove(bitmap.ones, 8 * i) == AtOrAbove(bitmap.ones, FirstScanned())
      {
        if bitmap.bytes[i] != 0 {
          var msb := GetMsbIndex(bitmap.bytes[i]);
          FirstOnBit(bitmap.bytes[..], bitmap.ones, i, msb);
          var bitIndex := i * 8 + msb;
          assert bitIndex < NUM_PAGES;
          address := bitIndex * PAGE_SIZE;
          assert address / PAGE_SIZE == bitIndex && address % PAGE_SIZE == 0;
          var _ := ChangePageState(address, PageUnavailable);
          return;
        }
        ZeroByte(bitmap.bytes[..], bitmap.ones, i);
        i := i + 1;
      }
      noPageAvailable := true;
      assert AtOrAbove(bitmap.ones, 8 * i) == {};
      return 0;
    }

    /** The returned code is the truth value of "the change succeeded", so it reads FAILURE exactly when
        the frame was freed. */
    method FreePhysicalPage(pageAddress: Word) returns (code: ErrorCode)
      requires Valid()
      modifies this, bitmap, bitmap.bytes
      ensures Valid() && View() == Free(old(View()), pageAddress)
      ensures code == if pageAddress % PAGE_SIZE == 0 then Failure else Success
    {
      var changed := ChangePageState(pageAddress, PageAvailable);
      code := if changed == Success then Failure else Success;
      if code != Success {
        if noPageAvailable {
          noPageAvailable := false;
        }
      }
    }

    method RegisterPhysicalPages(begin: Word, end: Word) returns (code: ErrorCode)
      requires Valid()
      modifies bitmap, bitmap.bytes
      ensures Valid() && View() == Register(old(View()), begin, end)
      ensures code == if ValidSpan(begin, end) then Success else InvalidArgument
    {
      code := ChangePagesState(begin, end, PageUnavailable);
    }

    method UnregisterPhysicalPages(begin: Word, end: Word) returns (code: ErrorCode)
      requires Valid()
      modifies bitmap, bitmap.bytes
      ensures Valid() && View() == Unregister(old(View()), begin, end)
      ensures code == if ValidSpan(begin, end) then Success else InvalidArgument
    {
      code := ChangePagesState(begin, end, PageAvailable);
    }
  }

  lemma SelectedSteps(map_: seq<Region>, i: nat)
    requires i < |map_|
    ensures forall p: nat :: Selected(map_[..i + 1], p) <==> Selected(map_[..i], p) || Selects(map_[i], p)
  {
    var before, after := map_[..i], map_[..i + 1];
    forall p: nat
      ensures Selected(after, p) <==> Selected(before, p) || Selects(map_[i], p)
    {
      if Selected(before, p) {
        var j :| 0 <= j < |before| && Selects(before[j], p);
        assert after[j] == before[j];
      }
      assert after[i] == map_[i];
      if Selected(after, p) {
        var j :| 0 <= j < |after| && Selects(after[j], p);
        if j < i {
          assert before[j] == after[j];
        }
      }
    }
  }

  /* ---------- Runs of the allocator ---------- */

  datatype Call = CallAllocate | CallFree(page: nat) | CallRegister(begin: Word, end: Word)

  /** The allocator's state and the frames its callers hold. */
  datatype System = System(frames: FrameState, held: set<nat>)

  /** Callers only free frames they hold. */
  ghost predicate Enabled(s: System, c: Call) {
    c.CallFree? ==> c.page in s.held
  }

  ghost function Step(s: System, c: Call, first: nat): System
    requires Enabled(s, c) && InAddressSpace(s.frames.available) && InAddressSpace(s.held)
  {
    match c
    case CallAllocate =>
      var (frames, address) := Allocate(s.frames, first);
      System(frames, if address == 0 then s.held else s.held + {address / PAGE_SIZE})
    case CallFree(page) => System(Free(s.frames, page * PAGE_SIZE), s.held - {page})
    case CallRegister(begin, end) => System(Register(s.frames, begin, end), s.held)
  }

  /** The cached flag never lies: it is only up when the scanned range holds no available frame. */
  ghost predicate FlagHonest(f: FrameState, first: nat) {
    f.noPageAvailable ==> AtOrAbove(f.available, first) == {}
  }

  /** `first` and `kernelEndPage` are the first scanned frame and the first frame after the kernel. */
  ghost predicate Inv(s: System, first: nat, kernelEndPage: nat) {
    && 0 < first <= kernelEndPage
    && InAddressSpace(s.frames.available) && InAddressSpace(s.held)
    && s.held !! s.frames.available
    && s.held !! Interval(0, kernelEndPage)
    && s.frames.available !! Interval(first, kernelEndPage)
    && FlagHonest(s.frames, first)
  }

  ghost predicate Runs(s: System, calls: seq<Call>, first: nat, kernelEndPage: nat)
    requires Inv(s, first, kernelEndPage)
    decreases |calls|
  {
    calls == [] ||
    (Enabled(s, calls[0]) &&
     (StepKeepsInv(s, calls[0], first, kernelEndPage);
      Runs(Step(s, calls[0], first), calls[1..], first, kernelEndPage)))
  }

  ghost function Run(s: System, calls: seq<Call>, first: nat, kernelEndPage: nat): System
    requires Inv(s, first, kernelEndPage) && Runs(s, calls, first, kernelEndPage)
    decreases |calls|
  {
    if calls == [] then s
    else
      StepKeepsInv(s, calls[0], first, kernelEndPage);
      Run(Step(s, calls[0], first), calls[1..], first, kernelEndPage)
  }

  lemma StepKeepsInv(s: System, c: Call, first: nat, kernelEndPage: nat)
    requires Inv(s, first, kernelEndPage) && Enabled(s, c)
    ensures Inv(Step(s, c, first), first, kernelEndPage)
  {
    var t := Step(s, c, first);
    match c
    case CallAllocate =>
    case CallFree(page) =>
      assert (page * PAGE_SIZE) / PAGE_SIZE == page && (page * PAGE_SIZE) % PAGE_SIZE == 0;
    case CallRegister(_, _) =>
      assert AtOrAbove(t.frames.available, first) <= AtOrAbove(s.frames.available, first);
  }

  /** What a caller of init and then any run of calls can rely on. */
  lemma {:induction false} RunSafe(s: System, calls: seq<Call>, first: nat, kernelEndPage: nat)
    requires Inv(s, first, kernelEndPage) && Runs(s, calls, first, kernelEndPage)
    ensures Inv(Run(s, calls, first, kernelEndPage), first, kernelEndPage)
    ensures AllocationSound(Run(s, calls, first, kernelEndPage), first, kernelEndPage)
    decreases |calls|
  {
    if calls == [] {
      AllocationIsSound(s, first, kernelEndPage);
    } else {
      StepKeepsInv(s, calls[0], first, kernelEndPage);
      RunSafe(Step(s, calls[0], first), calls[1..], first, kernelEndPage);
    }
  }

  /** The next allocation returns the lowest available frame at or above the scan start: page aligned,
      outside the kernel and not held; it returns NULL exactly when there is none. */
  ghost predicate AllocationSound(s: System, first: nat, kernelEndPage: nat)
    requires InAddressSpace(s.frames.available)
  {
    var (frames, address) := Allocate(s.frames, first);
    var p := address / PAGE_SIZE;
    && (address == 0 <==> AtOrAbove(s.frames.available, first) == {})
    && (address == 0 ==> frames.available == s.frames.available && frames.noPageAvailable)
    && (address != 0 ==>
          && address % PAGE_SIZE == 0 && address == p * PAGE_SIZE
          && kernelEndPage <= p && p in s.frames.available && p !in s.held
          && (forall q :: q in s.frames.available && first <= q ==> p <= q)
          && frames.available == s.frames.available - {p})
  }

  lemma AllocationIsSound(s: System, first: nat, kernelEndPage: nat)
    requires Inv(s, first, kernelEndPage)
    ensures AllocationSound(s, first, kernelEndPage)
  {
    if AtOrAbove(s.frames.available, first) != {} {
      var p := Lowest(AtOrAbove(s.frames.available, first));
      assert p in AtOrAbove(s.frames.available, first);
      assert (p * PAGE_SIZE) / PAGE_SIZE == p;
      assert Allocate(s.frames, first) == (s.frames.(available := s.frames.available - {p}), p * PAGE_SIZE);
      assert kernelEndPage <= p;
      forall q | q in s.frames.available && first <= q
        ensures p <= q
      {
        assert q in AtOrAbove(s.frames.available, first);
      }
    }
  }

  /** Allocation and release conserve the frames of the scanned range: available or held, never lost. */
  lemma {:induction false} RunConserves(s: System, calls: seq<Call>, first: nat, kernelEndPage: nat)
    requires Inv(s, first, kernelEndPage) && Runs(s, calls, first, kernelEndPage)
    requires forall c :: c in calls ==> !c.CallRegister?
    ensures var t := Run(s, calls, first, kernelEndPage);
            && Pool(t, first) == Pool(s, first)
            && |AtOrAbove(t.frames.available, first)| + |t.held| == |AtOrAbove(s.frames.available, first)| + |s.held|
    decreases |calls|
  {
    if calls != [] {
      assert calls[0] in calls;
      StepKeepsInv(s, calls[0], first, kernelEndPage);
      StepConserves(s, calls[0], first, kernelEndPage);
      assert forall d :: d in calls[1..] ==> d in calls;
      RunConserves(Step(s, calls[0], first), calls[1..], first, kernelEndPage);
    }
    var t := Run(s, calls, first, kernelEndPage);
    RunSafe(s, calls, first, kernelEndPage);
    DisjointSizes(AtOrAbove(s.frames.available, first), s.held, AtOrAbove(t.frames.available, first), t.held);
  }

  /** The frames an allocation may ever return, now or after releases. */
  ghost function Pool(s: System, first: nat): set<nat> {
    AtOrAbove(s.frames.available, first) + s.held
  }

  lemma StepConserves(s: System, c: Call, first: nat, kernelEndPage: nat)
    requires Inv(s, first, kernelEndPage) && Enabled(s, c) && !c.CallRegister?
    ensures Pool(Step(s, c, first), first) == Pool(s, first)
  {
    AllocationIsSound(s, first, kernelEndPage);
    if c.CallFree? {
      assert (c.page * PAGE_SIZE) / PAGE_SIZE == c.page && (c.page * PAGE_SIZE) % PAGE_SIZE == 0;
    }
  }

  lemma DisjointSizes(a: set<nat>, b: set<nat>, c: set<nat>, d: set<nat>)
    requires a !! b && c !! d && a + b == c + d
    ensures |a| + |b| == |c| + |d|
  {
    assert |a + b| == |a| + |b| && |c + d| == |c| + |d|;
  }

  /** Init establishes the invariant with nothing held. */
  lemma InitEstablishes(f: FrameState, kernelEnd: Word)
    requires kernelEnd % PAGE_SIZE == 0 && KERNEL_START < kernelEnd
    requires InAddressSpace(f.available) && !f.noPageAvailable
    requires f.available !! Interval(0x100, kernelEnd / PAGE_SIZE)
    ensures Inv(System(f, {}), 8 * (kernelEnd / PAGE_SIZE / 8), kernelEnd / PAGE_SIZE)
  {
  }

  /** unregister_physical_pages never clears the flag: from an honest state the flag stays honest exactly
      when it was down or the call makes no scanned frame available. */
  lemma UnregisterFlagHonestIff(f: FrameState, begin: Word, end: Word, first: nat)
    requires FlagHonest(f, first)
    ensures FlagHonest(Unregister(f, begin, end), first)
        <==> !f.noPageAvailable || !ValidSpan(begin, end) || end / PAGE_SIZE <= Max(first, begin / PAGE_SIZE)
  {
    var lo, hi := begin / PAGE_SIZE, end / PAGE_SIZE;
    if f.noPageAvailable && ValidSpan(begin, end) {
      var after := Unregister(f, begin, end).available;
      if Max(first, lo) < hi {
        assert Max(first, lo) in Interval(lo, hi);
        assert Max(first, lo) in AtOrAbove(after, first);
      } else {
        forall p | p in AtOrAbove(after, first)
          ensures p in AtOrAbove(f.available, first)
        {
        }
      }
    }
  }

  /** While the flag is up an allocation gives nothing, whatever is available: frames that a call of
      unregister_physical_pages makes available are handed out only once some frame has been freed. */
  lemma FlagRefuses(f: FrameState, begin: Word, end: Word, p: nat, first: nat)
    requires f.noPageAvailable && InAddressSpace(f.available) && 0 < first <= p < NUM_PAGES
    ensures Allocate(Unregister(f, begin, end), first) == (Unregister(f, begin, end), 0)
    ensures Allocate(Free(Unregister(f, begin, end), p * 4096), first).1 != 0
  {
    var after := Unregister(f, begin, end);
    FreeExact(after, p, 0);
    var freed := AtOrAbove(after.available + {p}, first);
    assert p in freed;
    assert Lowest(freed) in freed;
  }
}
