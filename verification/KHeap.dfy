/** Kernel-heap page runs and their page table: kernel/mm/kheap.c. */
module KHeap {
  import opened Common
  import opened Bits
  import opened Paging
  import opened KernelState
  import M = Machine
  import P = PhysicalMemory
  import opened VirtualMemory

  const KHEAP_BEGIN_ADDRESS: Word := 0xC080_0000
  const KHEAP_END_ADDRESS: Word := 0xC0C0_0000
  const HEAP_SLOT: nat := 770
  const HEAP_PAGES: nat := 1024
  /** The pages kheap_init marks free; only the first HEAP_PAGES of them have a page-table entry. */
  const INITIAL_PAGES: nat := 32768

  /* ---------- Searching a lookup table for a run ---------- */

  predicate IsFree(buffer: seq<bv8>, j: nat)
    requires j < |buffer|
  {
    buffer[j] == 1
  }

  /** The n slots from r on are all free. */
  predicate RunAt(buffer: seq<bv8>, r: int, n: nat) {
    0 <= r && r + n <= |buffer| && forall j :: r <= j < r + n ==> IsFree(buffer, j)
  }

  /** The number of free slots among the first i. */
  function FreeBefore(buffer: seq<bv8>, i: nat): (c: nat)
    requires i <= |buffer|
    ensures c <= i
  {
    if i == 0 then 0 else FreeBefore(buffer, i - 1) + (if IsFree(buffer, i - 1) then 1 else 0)
  }

  lemma {:induction false} FreeBeforeMonotone(buffer: seq<bv8>, i: nat, j: nat)
    requires i <= j <= |buffer|
    ensures FreeBefore(buffer, i) <= FreeBefore(buffer, j)
    decreases j
  {
    if i < j {
      FreeBeforeMonotone(buffer, i, j - 1);
    }
  }

  /** m is the n-th free slot, and r the first slot of the unbroken stretch of free slots that ends there. */
  predicate NthFree(buffer: seq<bv8>, n: nat, m: nat, r: nat) {
    && m < |buffer| && IsFree(buffer, m) && FreeBefore(buffer, m) == n - 1
    && r <= m && (forall j :: r <= j <= m ==> IsFree(buffer, j))
    && (r == 0 || !IsFree(buffer, r - 1))
  }

  lemma OnlyNthFree(buffer: seq<bv8>, n: nat, m: nat, r: nat)
    requires n > 0 && NthFree(buffer, n, m, r)
    ensures forall m1: nat, r1: nat :: NthFree(buffer, n, m1, r1) ==> m1 == m && r1 == r
  {
    forall m1: nat, r1: nat | NthFree(buffer, n, m1, r1)
      ensures m1 == m && r1 == r
    {
      if m < m1 {
        FreeBeforeMonotone(buffer, m + 1, m1);
      } else if m1 < m {
        FreeBeforeMonotone(buffer, m1 + 1, m);
      }
    }
  }

  /** The written search stops after the n-th free slot, provided that slot is not the last one. */
  ghost predicate Stops(buffer: seq<bv8>, n: nat, m: nat, r: nat) {
    NthFree(buffer, n, m, r) && m + 1 < |buffer|
  }

  /** It answers at all, and with slot r. */
  ghost predicate Answers(buffer: seq<bv8>, n: nat) {
    exists m: nat, r: nat :: Stops(buffer, n, m, r)
  }

  ghost predicate AnswersWith(buffer: seq<bv8>, n: nat, r: nat) {
    exists m: nat :: Stops(buffer, n, m, r)
  }

  /** find_continuous_blocks_index as written. The remaining count is not restored when a run breaks, and
      falling off the end returns an unspecified value, modelled by `returned == false`.

      Its answer is a run of free slots exactly when the n-th free slot is not the last slot and the
      stretch that holds it has n slots. */
  method FindContinuousBlocksIndexWritten(buffer: array<bv8>, numBlocks: nat) returns (index: int, returned: bool)
    ensures numBlocks == 0 ==> index == -1 && (returned <==> buffer.Length > 0)
    ensures numBlocks > 0 ==> (returned <==> Answers(buffer[..], numBlocks))
    ensures numBlocks > 0 && returned ==> index >= 0 && AnswersWith(buffer[..], numBlocks, index)
    ensures numBlocks > 0 ==>
              (returned && RunAt(buffer[..], index, numBlocks) <==>
               exists r: nat :: AnswersWith(buffer[..], numBlocks, r) && RunAt(buffer[..], r, numBlocks))
  {
    if numBlocks == 0 {
      return -1, buffer.Length > 0;
    }
    ghost var slots := buffer[..];
    index := -1;
    var left := numBlocks;
    var i := 0;
    while i < buffer.Length
      invariant 0 <= i <= buffer.Length
      invariant left == numBlocks - FreeBefore(slots, i)
      invariant i > 0 ==> FreeBefore(slots, i - 1) < numBlocks
      invariant index == -1 ==> i == 0 || !IsFree(slots, i - 1)
      invariant index != -1 ==> 0 <= index < i && RunAt(slots, index, i - index)
      invariant index != -1 && index > 0 ==> !IsFree(slots, index - 1)
      invariant left == 0 ==> i > 0 && index != -1 && IsFree(slots, i - 1) && FreeBefore(slots, i - 1) == numBlocks - 1
    {
      if left == 0 {
        assert Stops(slots, numBlocks, i - 1, index);
        OnlyNthFree(slots, numBlocks, i - 1, index);
        return index, true;
      }
      if buffer[i] == 1 {
        if index == -1 {
          index := i;
        }
        left := left - 1;
      } else {
        index := -1;
      }
      i := i + 1;
    }
    forall m: nat, r: nat
      ensures !Stops(slots, numBlocks, m, r)
    {
      if m + 1 < buffer.Length {
        FreeBeforeMonotone(slots, m + 1, buffer.Length - 1);
      }
    }
    return -1, false;
  }

  /** Eight free slots are never found in a table of eight, and a broken stretch is returned as if whole. */
  lemma WrittenSearchFails()
    ensures RunAt([1, 1, 1, 1, 1, 1, 1, 1], 0, 8)
    ensures forall m: nat, r: nat :: !Stops([1, 1, 1, 1, 1, 1, 1, 1], 8, m, r)
    ensures Stops([1, 0, 1, 0], 2, 2, 2) && !RunAt([1, 0, 1, 0], 2, 2)
  {
    var full: seq<bv8> := [1, 1, 1, 1, 1, 1, 1, 1];
    forall m: nat, r: nat
      ensures !Stops(full, 8, m, r)
    {
      if m < 8 {
        FreeBeforeAtMost(full, m);
      }
    }
    var broken: seq<bv8> := [1, 0, 1, 0];
    assert FreeBefore(broken, 0) == 0;
    assert FreeBefore(broken, 1) == 1;
    assert FreeBefore(broken, 2) == 1;
    assert !IsFree(broken, 3);
  }

  lemma FreeBeforeAtMost(buffer: seq<bv8>, i: nat)
    requires i <= |buffer|
    ensures FreeBefore(buffer, i) <= i
  {
  }

  /** find_continuous_blocks_index with the count restored and a result on every path: the first run. */
  method FindContinuousBlocksIndex(buffer: array<bv8>, numBlocks: nat) returns (index: int)
    ensures numBlocks == 0 ==> index == -1
    ensures index != -1 ==> RunAt(buffer[..], index, numBlocks)
    ensures index == -1 && numBlocks > 0 ==> forall r :: !RunAt(buffer[..], r, numBlocks)
    ensures forall r :: r < index ==> !RunAt(buffer[..], r, numBlocks)
  {
    ghost var slots := buffer[..];
    index := -1;
    var left := numBlocks;
    var i := 0;
    while i < buffer.Length
      invariant 0 <= i <= buffer.Length
      invariant index == -1 ==> left == numBlocks && (i == 0 || numBlocks == 0 || !IsFree(slots, i - 1))
      invariant index != -1 ==> 0 <= index < i && left == numBlocks - (i - index) && RunAt(slots, index, i - index)
      invariant index > 0 ==> !IsFree(slots, index - 1)
      invariant forall r :: 0 <= r && r + numBlocks <= i && r != index && numBlocks > 0 ==> !RunAt(slots, r, numBlocks)
    {
      if left == 0 {
        return index;
      }
      if buffer[i] == 1 {
        if index == -1 {
          index := i;
        }
        left := left - 1;
      } else {
        index := -1;
        left := numBlocks;
      }
      i := i + 1;
    }
    if left != 0 {
      index := -1;
    }
  }

  /** The search for a run as the code has it, or with its count restored and a result on every path. */
  datatype SearchRule = AsWritten | CountReset

  /* ---------- Runs of the page bitmap ---------- */

  /** Pages [p, p + n) are all free. */
  ghost predicate PagesFree(ones: set<nat>, p: nat, n: nat) {
    forall q: nat :: p <= q < p + n ==> q in ones
  }

  /** ceil(n / 8) */
  function WindowBytes(n: nat): nat {
    n / 8 + if n % 8 != 0 then 1 else 0
  }

  lemma WindowBytesLeast(n: nat)
    ensures n <= 8 * WindowBytes(n) < n + 8
  {
  }

  /** Slots [r, r + n) of the window that starts at byte i are all free. */
  ghost predicate WindowRun(ones: set<nat>, i: nat, r: nat, n: nat) {
    PagesFree(ones, 8 * i + r, n)
  }

  /** No byte-aligned window the search looks at, of WindowBytes(n) bytes, holds n free pages in a row. */
  ghost predicate NoWindowFree(ones: set<nat>, n: nat, windows: nat) {
    forall i: nat, r: nat :: i < windows && r + n <= 8 * WindowBytes(n) ==> !WindowRun(ones, i, r, n)
  }

  /** The windows the search looks at. */
  function Windows(n: nat): nat {
    if WindowBytes(n) + 1 <= KHEAP_BITMAP_SIZE then KHEAP_BITMAP_SIZE - WindowBytes(n) - 1 else 0
  }

  /** The run at p lies in window i, and no earlier window holds a run. */
  ghost predicate InWindow(ones: set<nat>, p: nat, n: nat, i: nat) {
    8 * i <= p && p + n <= 8 * i + 8 * WindowBytes(n) && NoWindowFree(ones, n, i)
  }

  /** The run at p is the first one in the first window that holds one. */
  ghost predicate FirstInWindow(ones: set<nat>, p: nat, n: nat) {
    exists i: nat :: InWindow(ones, p, n, i) && forall r: nat :: 8 * i + r < p ==> !WindowRun(ones, i, r, n)
  }

  /** A run the search can see: it must fit a window that starts at its own byte. */
  ghost predicate Findable(ones: set<nat>, p: nat, n: nat) {
    0 < n && PagesFree(ones, p, n) && p % 8 + n <= 8 * WindowBytes(n)
  }

  /** A run lies in a window exactly when it starts in its first byte and fits. */
  lemma OnlyOwnWindow(p: nat, n: nat, i: nat)
    requires 0 < n
    ensures 8 * i <= p && p + n <= 8 * i + 8 * WindowBytes(n) <==> i == p / 8 && p % 8 + n <= 8 * WindowBytes(n)
  {
  }

  /** The search finds nothing exactly when every free run does not fit its own window or starts in one of the last
      bytes of the bitmap. */
  lemma SearchMissesAnywhereIff(ones: set<nat>, n: nat)
    requires 0 < n && WindowBytes(n) + 1 <= KHEAP_BITMAP_SIZE
    ensures NoWindowFree(ones, n, Windows(n))
       <==> forall p: nat :: Findable(ones, p, n) ==> 131072 <= p / 8 + WindowBytes(n) + 1
  {
    if NoWindowFree(ones, n, Windows(n)) {
      forall p: nat | Findable(ones, p, n)
        ensures 131072 <= p / 8 + WindowBytes(n) + 1
      {
        var b, r := p / 8, p % 8;
        assert p == 8 * b + r;
        assert WindowRun(ones, b, r, n);
      }
    } else {
      var i: nat, r: nat :| i < Windows(n) && r + n <= 8 * WindowBytes(n) && WindowRun(ones, i, r, n);
      OnlyOwnWindow(8 * i + r, n, i);
      assert Findable(ones, 8 * i + r, n);
    }
  }

  /** The search finds nothing exactly when no free run fits its own window, although others may be free. */
  lemma SearchMissesIff(ones: set<nat>, n: nat)
    requires 0 < n && WindowBytes(n) + 1 <= KHEAP_BITMAP_SIZE && forall q: nat :: q in ones ==> q < INITIAL_PAGES
    ensures NoWindowFree(ones, n, Windows(n)) <==> forall p: nat :: !Findable(ones, p, n)
  {
    if NoWindowFree(ones, n, Windows(n)) {
      forall p: nat
        ensures !Findable(ones, p, n)
      {
        var b, r := p / 8, p % 8;
        assert p == 8 * b + r;
        assert WindowRun(ones, b, r, n) <==> PagesFree(ones, p, n);
        assert PagesFree(ones, p, n) ==> p in ones && p + n - 1 in ones;
      }
    } else {
      var i: nat, r: nat :| i < Windows(n) && r + n <= 8 * WindowBytes(n) && WindowRun(ones, i, r, n);
      OnlyOwnWindow(8 * i + r, n, i);
      assert Findable(ones, 8 * i + r, n);
    }
  }

  /** Otherwise it finds the lowest such run. */
  lemma SearchFindsLowest(ones: set<nat>, p: nat, n: nat)
    requires 0 < n && PagesFree(ones, p, n) && FirstInWindow(ones, p, n)
    ensures Findable(ones, p, n) && forall q: nat :: q < p ==> !Findable(ones, q, n)
  {
    var i: nat :| InWindow(ones, p, n, i) && forall r: nat :: 8 * i + r < p ==> !WindowRun(ones, i, r, n);
    OnlyOwnWindow(p, n, i);
    forall q: nat | q < p
      ensures !Findable(ones, q, n)
    {
      assert q == 8 * (q / 8) + q % 8;
      if q / 8 == i {
        assert !WindowRun(ones, i, q % 8, n);
      } else if q % 8 + n <= 8 * WindowBytes(n) {
        assert !WindowRun(ones, q / 8, q % 8, n);
      }
    }
  }

  /** Two pages free across a byte boundary are not found. */
  lemma StraddlingRunMissed()
    ensures PagesFree({7, 8}, 7, 2) && NoWindowFree({7, 8}, 2, Windows(2))
    ensures forall p: nat :: !Findable({7, 8}, p, 2)
  {
    var ones: set<nat> := {7, 8};
    forall p: nat
      ensures !Findable(ones, p, 2)
    {
      if PagesFree(ones, p, 2) {
        assert p in ones && p + 1 in ones;
      }
    }
    SearchMissesIff(ones, 2);
  }

  lemma OnePageRun(ones: set<nat>, q: nat)
    ensures WindowRun(ones, q / 8, q % 8, 1) <==> q in ones
  {
    assert 8 * (q / 8) + q % 8 == q;
    if q in ones {
      assert PagesFree(ones, q, 1);
    }
  }

  /** A single page is the lowest free one. */
  lemma SinglePageLowest(ones: set<nat>, p: nat)
    requires FirstInWindow(ones, p, 1) && p in ones
    ensures p == Lowest(ones)
  {
    var i: nat :| InWindow(ones, p, 1, i) && forall r: nat :: 8 * i + r < p ==> !WindowRun(ones, i, r, 1);
    forall q | q in ones
      ensures p <= q
    {
      SinglePageEarly(ones, p, q);
      OnePageRun(ones, q);
    }
  }

  /** A single page is taken from the first byte with a free page. */
  lemma SinglePageEarly(ones: set<nat>, p: nat, q: nat)
    requires FirstInWindow(ones, p, 1) && q in ones
    ensures p / 8 <= q / 8
  {
    var i: nat :| InWindow(ones, p, 1, i);
    assert p / 8 == i;
    OnePageRun(ones, q);
  }

  function PageAddress(p: nat): Word {
    Wrap32(KHEAP_BEGIN_ADDRESS + p * PAGE_SIZE)
  }

  method ParseLookupTable(table: array<bv8>, bitmap: Bitmap, base: nat, numBytes: nat)
    requires bitmap.Valid() && base + numBytes <= bitmap.bytes.Length && table.Length == 8 * numBytes
    requires table != bitmap.bytes
    modifies table
    ensures bitmap.Valid()
    ensures forall j: nat :: j < table.Length ==> table[j] == if 8 * base + j in bitmap.ones then 1 else 0
  {
    var i := 0;
    while i < 8 * numBytes
      invariant 0 <= i <= 8 * numBytes && bitmap.Valid()
      invariant forall j: nat :: j < i ==> table[j] == if 8 * base + j in bitmap.ones then 1 else 0
    {
      ghost var k := 8 * base + i;
      assert k / 8 == base + i / 8 && k % 8 == i % 8;
      assert On(bitmap.bytes[..], k) <==> BitOn(bitmap.bytes[base + i / 8], i % 8);
      table[i] := ExtractBit(bitmap.bytes[base + i / 8], i % 8);
      i := i + 1;
    }
  }

  /** get_free_continuous_blocks_address, with the intended run search. `p` is the first page of the run. */
  method GetFreeContinuousBlocksAddress(kheap: Bitmap, numPages: nat) returns (address: Word, found: bool, ghost p: nat)
    requires kheap.Valid() && kheap.bytes.Length == KHEAP_BITMAP_SIZE && WindowBytes(numPages) + 1 <= KHEAP_BITMAP_SIZE
    modifies kheap, kheap.bytes
    ensures kheap.Valid()
    ensures !found ==> address == 0 && kheap.ones == old(kheap.ones)
    ensures !found && numPages > 0 ==> NoWindowFree(kheap.ones, numPages, Windows(numPages))
    ensures found ==>
              && numPages > 0 && p + numPages <= 8 * KHEAP_BITMAP_SIZE && PagesFree(old(kheap.ones), p, numPages)
              && kheap.ones == old(kheap.ones) - Interval(p, p + numPages)
              && address == PageAddress(p)
    ensures found ==> FirstInWindow(old(kheap.ones), p, numPages)
  {
    var numBytes := numPages / 8;
    if numPages % 8 != 0 {
      numBytes := numBytes + 1;
    }
    var table := new bv8[8 * numBytes](_ => 0);
    var i := 0;
    while i < KHEAP_BITMAP_SIZE - numBytes - 1
      invariant 0 <= i <= KHEAP_BITMAP_SIZE - numBytes - 1
      invariant kheap.Valid() && kheap.ones == old(kheap.ones)
      invariant numPages > 0 ==> NoWindowFree(kheap.ones, numPages, i)
    {
      if kheap.bytes[i] != 0 {
        ParseLookupTable(table, kheap, i, numBytes);
        var index := FindContinuousBlocksIndex(table, numPages);
        WindowSearched(kheap.ones, table[..], i, numPages, index);
        if index != -1 {
          p := 8 * i + index;
          assert InWindow(kheap.ones, p, numPages, i);
          assert forall r: nat :: 8 * i + r < p ==> !WindowRun(kheap.ones, i, r, numPages);
          kheap.TurnBitsOff(i, index, numPages);
          return Wrap32(KHEAP_BEGIN_ADDRESS + (i * 8 + index) * PAGE_SIZE), true, p;
        }
      } else {
        EmptyByteHoldsNoRun(kheap.bytes[..], kheap.ones, i, numPages);
      }
      i := i + 1;
    }
    return 0, false, 0;
  }

  /** The lookup table of window i. */
  ghost function WindowTable(ones: set<nat>, i: nat, n: nat): (table: seq<bv8>)
    ensures |table| == 8 * WindowBytes(n)
    ensures forall j: nat :: j < |table| ==> (IsFree(table, j) <==> 8 * i + j in ones)
  {
    seq(8 * WindowBytes(n), j requires 0 <= j => if 8 * i + j in ones then 1 else 0)
  }

  /** The first byte the search looks at that has a free page. */
  ghost predicate FirstUsedWindow(ones: set<nat>, n: nat, i: nat) {
    i < Windows(n) && (exists q: nat :: q in ones && q / 8 == i) && forall q: nat :: q in ones ==> i <= q / 8
  }

  /** get_free_continuous_blocks_address as written. It gives up on the first byte with a free page: the search
      either answers there, right or wrong, or falls off its end, and then the address is unspecified
      (`defined` is false). */
  method GetFreeContinuousBlocksAddressWritten(kheap: Bitmap, numPages: nat)
    returns (address: Word, defined: bool, ghost i: nat, ghost r: nat)
    requires kheap.Valid() && kheap.bytes.Length == KHEAP_BITMAP_SIZE
    requires WindowBytes(numPages) + 1 <= KHEAP_BITMAP_SIZE && forall q: nat :: q in kheap.ones ==> q < INITIAL_PAGES
    modifies kheap, kheap.bytes
    ensures kheap.Valid()
    ensures !FirstUsedWindow(old(kheap.ones), numPages, i) ==>
              defined && address == 0 && kheap.ones == old(kheap.ones)
              && forall j :: !FirstUsedWindow(old(kheap.ones), numPages, j)
    ensures FirstUsedWindow(old(kheap.ones), numPages, i) ==>
              Took(old(kheap.ones), i, numPages, kheap.ones, address, defined, r)
  {
    var numBytes := numPages / 8;
    if numPages % 8 != 0 {
      numBytes := numBytes + 1;
    }
    assert numBytes == WindowBytes(numPages);
    hide Took, Represents, WindowBytes;
    var table := new bv8[8 * numBytes](_ => 0);
    var byte := 0;
    ghost var ones := kheap.ones;
    while byte < KHEAP_BITMAP_SIZE - numBytes - 1
      invariant 0 <= byte <= KHEAP_BITMAP_SIZE - numBytes - 1
      invariant kheap.Valid() && kheap.ones == ones
      invariant forall q: nat :: q in ones ==> byte <= q / 8
    {
      UsedByte(kheap.bytes[..], ones, byte);
      if kheap.bytes[byte] != 0 {
        i := byte;
        assert FirstUsedWindow(ones, numPages, i);
        hide FirstUsedWindow;
        address, defined, r := TakeFromWindowWritten(kheap, table, byte, numPages);
        return;
      }
      byte := byte + 1;
    }
    NoUsedWindow(ones, numPages, byte);
    return 0, true, 0, 0;
  }

  lemma NoUsedWindow(ones: set<nat>, n: nat, byte: nat)
    requires Windows(n) <= byte && forall q: nat :: q in ones ==> byte <= q / 8
    ensures forall j: nat :: !FirstUsedWindow(ones, n, j)
  {
  }

  lemma TableOfWindow(table: seq<bv8>, ones: set<nat>, i: nat, n: nat)
    requires |table| == 8 * WindowBytes(n) && forall j: nat :: j < |table| ==>
        table[j] == if 8 * i + j in ones then 1 else 0
    ensures table == WindowTable(ones, i, n)
  {
  }

  lemma NoAnswerForZero(table: seq<bv8>)
    ensures !Answers(table, 0)
  {
  }

  /** What the written search makes of the window at `byte`: whether it answers, the run it answers with, and
      the free pages after. */
  ghost predicate Took(ones: set<nat>, byte: nat, n: nat, after: set<nat>, address: Word, defined: bool, r: nat) {
    && (defined <==> Answers(WindowTable(ones, byte, n), n))
    && (defined ==>
          && AnswersWith(WindowTable(ones, byte, n), n, r)
          && address == PageAddress(8 * byte + r)
          && after == ones - Interval(8 * byte + r, 8 * byte + r + n))
  }

  /** The branch for a byte with a free page. */
  method TakeFromWindowWritten(kheap: Bitmap, table: array<bv8>, byte: nat, numPages: nat)
    returns (address: Word, defined: bool, ghost r: nat)
    requires kheap.Valid() && kheap.bytes.Length == KHEAP_BITMAP_SIZE
        && byte + WindowBytes(numPages) <= KHEAP_BITMAP_SIZE
    requires table.Length == 8 * WindowBytes(numPages) && table != kheap.bytes
    requires forall q: nat :: q in kheap.ones ==> q < INITIAL_PAGES
    modifies kheap, kheap.bytes, table
    ensures kheap.Valid() && Took(old(kheap.ones), byte, numPages, kheap.ones, address, defined, r)
  {
    hide Answers, AnswersWith, Represents, WindowTable;
    var index;
    index, defined := SearchWindowWritten(kheap, table, byte, numPages);
    if !defined {
      return 0, false, 0;
    }
    r := index;
    StopsInside(kheap.ones, byte, numPages, r);
    kheap.TurnBitsOff(byte, index, numPages);
    address := PageAddress(byte * 8 + index);
  }

  /** Parse and search. */
  method SearchWindowWritten(kheap: Bitmap, table: array<bv8>, byte: nat, numPages: nat)
      returns (index: int, defined: bool)
    requires kheap.Valid() && byte + WindowBytes(numPages) <= kheap.bytes.Length
    requires table.Length == 8 * WindowBytes(numPages) && table != kheap.bytes
    modifies table
    ensures kheap.Valid()
    ensures defined <==> Answers(WindowTable(kheap.ones, byte, numPages), numPages)
    ensures defined ==> index >= 0 && AnswersWith(WindowTable(kheap.ones, byte, numPages), numPages, index)
  {
    ParseLookupTable(table, kheap, byte, WindowBytes(numPages));
    TableOfWindow(table[..], kheap.ones, byte, numPages);
    NoAnswerForZero(table[..]);
    hide Answers, AnswersWith, Represents, WindowTable;
    index, defined := FindContinuousBlocksIndexWritten(table, numPages);
  }

  lemma UsedByte(bytes: seq<bv8>, ones: set<nat>, i: nat)
    requires Represents(bytes, ones) && i < |bytes|
    ensures bytes[i] != 0 <==> exists q: nat :: q in ones && q / 8 == i
  {
    NonzeroByte(bytes[i]);
    if bytes[i] != 0 {
      var k :| 0 <= k < 8 && BitOn(bytes[i], k);
      var q := 8 * i + k;
      assert q / 8 == i && q % 8 == k;
      assert On(bytes, q);
    } else {
      ZeroByte(bytes, ones, i);
    }
  }

  /** What the written search answers stays inside the bitmap while only kheap_init's pages are free. */
  lemma StopsInside(ones: set<nat>, i: nat, n: nat, r: nat)
    requires forall q: nat :: q in ones ==> q < INITIAL_PAGES
    requires AnswersWith(WindowTable(ones, i, n), n, r)
    ensures 8 * i + r + n <= 8 * KHEAP_BITMAP_SIZE
  {
    var m: nat :| Stops(WindowTable(ones, i, n), n, m, r);
    FreeBeforeAtMost(WindowTable(ones, i, n), m);
    assert 8 * i + m in ones;
  }

  /** For one page the written search answers with the lowest free page, the one alloc_page_dir needs, exactly
      when that page is not the last of its eight; otherwise it falls off its end. */
  lemma WrittenSinglePageIff(ones: set<nat>)
    requires ones != {} && forall q: nat :: q in ones ==> q < INITIAL_PAGES
    ensures var i := Lowest(ones) / 8;
            && FirstUsedWindow(ones, 1, i)
            && (Answers(WindowTable(ones, i, 1), 1) <==> Lowest(ones) % 8 != 7)
            && forall r: nat :: AnswersWith(WindowTable(ones, i, 1), 1, r) ==> 8 * i + r == Lowest(ones)
  {
    var q := Lowest(ones);
    var i, k := q / 8, q % 8;
    var table := WindowTable(ones, i, 1);
    NothingBefore(ones, table, i, k);
    assert NthFree(table, 1, k, k);
    OnlyNthFree(table, 1, k, k);
    if k != 7 {
      assert Stops(table, 1, k, k);
    }
  }

  /** No slot below the lowest free page is free. */
  lemma {:induction false} NothingBefore(ones: set<nat>, table: seq<bv8>, i: nat, k: nat)
    requires |table| == 8 && k < 8 && (forall j: nat :: j < 8 ==> (IsFree(table, j) <==> 8 * i + j in ones))
    requires forall q: nat :: q in ones ==> 8 * i + k <= q
    ensures FreeBefore(table, k) == 0
    decreases k
  {
    if k > 0 {
      assert !IsFree(table, k - 1);
      NothingBefore(ones, table, i, k - 1);
    }
  }

  /** What a search of window i says about the bitmap. */
  lemma WindowSearched(ones: set<nat>, table: seq<bv8>, i: nat, n: nat, index: int)
    requires |table| == 8 * WindowBytes(n)
    requires forall j: nat :: j < |table| ==> (IsFree(table, j) <==> 8 * i + j in ones)
    requires n == 0 ==> index == -1
    requires index != -1 ==> RunAt(table, index, n)
    requires index == -1 && n > 0 ==> forall r :: !RunAt(table, r, n)
    requires forall r :: r < index ==> !RunAt(table, r, n)
    ensures index != -1 ==> PagesFree(ones, 8 * i + index, n)
    ensures forall r: nat :: r < index ==> !WindowRun(ones, i, r, n)
    ensures index == -1 && n > 0 ==> forall r: nat :: r + n <= 8 * WindowBytes(n) ==> !WindowRun(ones, i, r, n)
  {
    if index != -1 {
      forall q: nat | 8 * i + index <= q < 8 * i + index + n
        ensures q in ones
      {
        assert IsFree(table, q - 8 * i);
      }
      forall r: nat | r < index
        ensures !WindowRun(ones, i, r, n)
      {
        assert !RunAt(table, r, n);
        var j: nat :| r <= j < r + n && !IsFree(table, j);
        assert 8 * i + j !in ones;
      }
    } else if n > 0 {
      forall r: nat | r + n <= 8 * WindowBytes(n)
        ensures !WindowRun(ones, i, r, n)
      {
        assert !RunAt(table, r, n);
        var j: nat :| r <= j < r + n && !IsFree(table, j);
        assert 8 * i + j !in ones;
      }
    }
  }

  /** A window is less than eight slots longer than the run, so one that starts with a zero byte has no room. */
  lemma EmptyByteHoldsNoRun(bytes: seq<bv8>, ones: set<nat>, i: nat, n: nat)
    requires Represents(bytes, ones) && i < |bytes| && bytes[i] == 0
    ensures n > 0 ==> forall r: nat :: r + n <= 8 * WindowBytes(n) ==> !WindowRun(ones, i, r, n)
  {
    ZeroByte(bytes, ones, i);
    forall r: nat | n > 0 && r + n <= 8 * WindowBytes(n)
      ensures !WindowRun(ones, i, r, n)
    {
      assert r < 8;
      assert 8 * i + r !in ones;
    }
  }

  /** The bit index of a page address below the end of the mapped heap is the page it was made from. */
  lemma PageAddressInverse(p: nat)
    requires p < HEAP_PAGES
    ensures PageAddress(p) == 0xC080_0000 + 4096 * p
    ensures AddressToBitIndex(PageAddress(p), KHEAP_BEGIN_ADDRESS) == p
    ensures PageAddress(p) / 4096 % 1024 == p && PageAddress(p) % PAGE_SIZE == 0
    ensures KHEAP_BEGIN_ADDRESS <= PageAddress(p) < KHEAP_END_ADDRESS
    ensures PageAddress(p) / 4096 == HEAP_SLOT * 1024 + p
  {
  }

  /* ---------- The kernel-heap page table ---------- */

  /** What the heap window relies on: the current directory is recursive, its heap slot holds the heap
      table `kt`, and the slot after it is empty. */
  ghost predicate HeapSeen(s: Sys, kt: Frame) {
    && Recursive(s.ram, s.cr3) && s.cr3 != 0 && kt != s.cr3 && kt != 0
    && s.ram[s.cr3][HEAP_SLOT] == kt * 4096 + 3 && s.ram[s.cr3][HEAP_SLOT + 1] == 0
  }

  /** What the allocating code relies on besides: neither of the two is a free frame. */
  ghost predicate HeapWindowOk(s: Sys, kt: Frame) {
    && HeapSeen(s, kt)
    && P.InAddressSpace(s.frames.available) && s.cr3 !in s.frames.available && kt !in s.frames.available
  }

  /** kheap_init: map_kheap_to_pgd on the current directory, through the window, and mark the pages free. */
  method KheapInit(k: Kernel, kt: Frame)
    requires k.Valid() && Recursive(k.machine.ram, k.machine.cr3)
    modifies k.machine`ram, k.kheap, k.kheap.bytes
    ensures k.Valid() && k.kheap.ones == old(k.kheap.ones) + Interval(0, INITIAL_PAGES)
    ensures k.View() == old(k.View()).(ram := SetEntry(old(k.machine.ram), k.machine.cr3, HEAP_SLOT, kt * 4096 + 3))
  {
    WindowHits(k.machine.ram, k.machine.cr3, HEAP_SLOT, 0);
    var table: int := kt;
    SetTableEntry(k.machine, DirectoryWindow(HEAP_SLOT), table * 4096, false, k.machine.cr3, HEAP_SLOT);
    k.kheap.FillOnes(PAGE_SIZE);
  }

  /** The direct effect of mapping a fresh frame at heap page i. */
  ghost function HeapMap(s: Sys, kt: Frame, i: nat): Sys
    requires P.InAddressSpace(s.frames.available) && i < HEAP_PAGES
  {
    var (s1, address) := AllocFrame(s);
    s1.(ram := SetEntry(s.ram, kt, i, address + 3))
  }

  ghost function HeapMapPages(s: Sys, kt: Frame, i: nat, n: nat): Sys
    requires HeapWindowOk(s, kt) && i + n <= HEAP_PAGES
    decreases n
  {
    if n == 0 then s
    else
      HeapMapKeepsWindow(s, kt, i);
      HeapMapPages(HeapMap(s, kt, i), kt, i + 1, n - 1)
  }

  lemma HeapMapKeepsWindow(s: Sys, kt: Frame, i: nat)
    requires HeapWindowOk(s, kt) && i < HEAP_PAGES
    ensures HeapWindowOk(HeapMap(s, kt, i), kt)
    ensures AllocFrame(s).1 % 4096 == 0
    ensures HeapMap(s, kt, i).cr3 == s.cr3 && HeapMap(s, kt, i).first == s.first
  {
  }

  /** Entry i of the heap table seen through its window; entries past the table fall in the next slot's window. */
  lemma HeapWindowHits(s: Sys, kt: Frame, i: nat)
    requires HeapSeen(s, kt)
    ensures i < HEAP_PAGES ==> Hits(s.ram, s.cr3, TableWindow(HEAP_SLOT, 0) + 4 * i, kt, i)
    ensures HEAP_PAGES <= i < 2 * HEAP_PAGES ==> !Mapped(s.ram, s.cr3, TableWindow(HEAP_SLOT, 0) + 4 * i)
  {
    EntryBits(kt);
    if i < HEAP_PAGES {
      WindowHits(s.ram, s.cr3, HEAP_SLOT, i);
    } else if i < 2 * HEAP_PAGES {
      WindowHits(s.ram, s.cr3, HEAP_SLOT + 1, i - HEAP_PAGES);
      assert TableWindow(HEAP_SLOT, 0) + 4 * i == TableWindow(HEAP_SLOT + 1, i - HEAP_PAGES);
    }
  }

  lemma HeapEntryAddress(i: nat)
    requires i < HEAP_PAGES
    ensures (TableWindow(HEAP_SLOT, 0) + 4 * i) % 4 == 0
  {
  }

  /** `base_page_table[i]` */
  method ReadHeapEntry(k: Kernel, i: nat, ghost kt: Frame) returns (e: Word)
    requires k.Valid() && HeapSeen(k.View(), kt) && i < HEAP_PAGES
    ensures e == k.View().ram[kt][i]
  {
    HeapWindowHits(k.View(), kt, i);
    HeapEntryAddress(i);
    hide Represents, HeapSeen, TableWindow;
    e := k.machine.Load(TableWindow(HEAP_SLOT, 0) + 4 * i);
  }

  /** The body of alloc_and_map_physical_pages' loop. */
  method MapHeapEntry(k: Kernel, i: nat, ghost kt: Frame) returns (faulted: bool)
    requires k.Valid() && HeapWindowOk(k.View(), kt) && i <= HEAP_PAGES
    modifies k.machine`ram, k.frames, k.frames.bitmap, k.frames.bitmap.bytes
    ensures k.Valid()
    ensures faulted <==> i == HEAP_PAGES
    ensures k.View() == if faulted then AllocFrame(old(k.View())).0 else HeapMap(old(k.View()), kt, i)
  {
    hide Represents;
    HeapWindowHits(k.View(), kt, i);
    if i < HEAP_PAGES {
      HeapMapKeepsWindow(k.View(), kt, i);
    }
    var frame := k.frames.AllocatePhysicalPage();
    var entry := TableWindow(HEAP_SLOT, 0) + 4 * i;
    if Translate(k.machine.ram, k.machine.cr3, entry / 4096) == None {
      return true;
    }
    SetTableEntry(k.machine, entry, frame, false, kt, i);
    return false;
  }

  /** alloc_and_map_physical_pages. Entries past the heap table are not mapped: the store page-faults. */
  method AllocAndMapPhysicalPages(k: Kernel, address: Word, numPages: nat, ghost kt: Frame) returns (faulted: bool)
    requires k.Valid() && HeapWindowOk(k.View(), kt)
    modifies k.machine`ram, k.frames, k.frames.bitmap, k.frames.bitmap.bytes
    ensures k.Valid()
    ensures faulted <==> address / 4096 % ENTRIES + numPages > HEAP_PAGES
    ensures k.View() == HeapMapRun(old(k.View()), kt, address / 4096 % ENTRIES, numPages)
  {
    hide Represents;
    ghost var first := address / 4096 % ENTRIES;
    ghost var goal := HeapMapPages(k.View(), kt, first, Min(numPages, HEAP_PAGES - first));
    var i := address / 4096 % ENTRIES;
    var last := i + numPages;
    while i < last
      invariant k.Valid() && first <= i <= HEAP_PAGES && i <= last
      invariant HeapLeftToMap(k.View(), kt, i, last, goal)
    {
      ghost var s := k.View();
      HeapWindowHits(s, kt, i);
      if i < HEAP_PAGES {
        HeapLeftSteps(s, kt, i, last, goal);
      } else {
        HeapLeftNone(s, kt, last, goal);
      }
      faulted := MapHeapEntry(k, i, kt);
      if faulted {
        return;
      }
      i := i + 1;
    }
    assert HeapMapPages(k.View(), kt, i, 0) == k.View();
    return false;
  }

  /** alloc_and_map_physical_pages from entry i: when the run passes the end of the table, the page fault comes
      after one more frame was taken. */
  ghost function HeapMapRun(s: Sys, kt: Frame, i: nat, n: nat): Sys
    requires HeapWindowOk(s, kt) && i < HEAP_PAGES
  {
    if i + n <= HEAP_PAGES then HeapMapPages(s, kt, i, n)
    else
      HeapMapPagesKeepWindow(s, kt, i, HEAP_PAGES - i);
      AllocFrame(HeapMapPages(s, kt, i, HEAP_PAGES - i)).0
  }

  lemma {:induction false} HeapMapPagesKeepWindow(s: Sys, kt: Frame, i: nat, n: nat)
    requires HeapWindowOk(s, kt) && i + n <= HEAP_PAGES
    ensures HeapWindowOk(HeapMapPages(s, kt, i, n), kt)
    decreases n
  {
    if n > 0 {
      HeapMapKeepsWindow(s, kt, i);
      HeapMapPagesKeepWindow(HeapMap(s, kt, i), kt, i + 1, n - 1);
    }
  }

  /** Mapping those of the entries [i, last) that the table has leads from s to `goal`. */
  ghost predicate HeapLeftToMap(s: Sys, kt: Frame, i: nat, last: nat, goal: Sys) {
    && HeapWindowOk(s, kt) && i <= last && i <= HEAP_PAGES
    && goal == HeapMapPages(s, kt, i, Min(last, HEAP_PAGES) - i)
  }

  lemma HeapLeftNone(s: Sys, kt: Frame, last: nat, goal: Sys)
    requires HeapLeftToMap(s, kt, HEAP_PAGES, last, goal)
    ensures goal == s
  {
  }

  lemma HeapLeftSteps(s: Sys, kt: Frame, i: nat, last: nat, goal: Sys)
    requires HeapLeftToMap(s, kt, i, last, goal) && i < last && i < HEAP_PAGES
    ensures HeapLeftToMap(HeapMap(s, kt, i), kt, i + 1, last, goal)
    ensures AllocFrame(s).1 % 4096 == 0
  {
    HeapMapKeepsWindow(s, kt, i);
  }

  /** alloc_kheap_pages. A search that finds nothing is not checked: NULL is mapped as if it were a page,
      which lands on the first entries of the heap table. */
  method AllocKheapPages(k: Kernel, numPages: nat, ghost kt: Frame)
      returns (address: Word, faulted: bool, ghost found: bool, ghost p: nat)
    requires k.Valid() && HeapWindowOk(k.View(), kt) && WindowBytes(numPages) + 1 <= KHEAP_BITMAP_SIZE
    modifies k.machine`ram, k.frames, k.frames.bitmap, k.frames.bitmap.bytes, k.kheap, k.kheap.bytes
    ensures k.Valid()
    ensures found ==>
              && numPages > 0 && PagesFree(old(k.kheap.ones), p, numPages) && address == PageAddress(p)
              && k.kheap.ones == old(k.kheap.ones) - Interval(p, p + numPages)
    ensures found ==> FirstInWindow(old(k.kheap.ones), p, numPages)
    ensures !found ==> address == 0 && k.kheap.ones == old(k.kheap.ones)
    ensures !found && numPages > 0 ==> NoWindowFree(k.kheap.ones, numPages, Windows(numPages))
    ensures faulted <==> address / 4096 % ENTRIES + numPages > HEAP_PAGES
    ensures k.View() == HeapMapRun(old(k.View()), kt, address / 4096 % ENTRIES, numPages)
  {
    var ok;
    address, ok, p := GetFreeContinuousBlocksAddress(k.kheap, numPages);
    found := ok;
    faulted := AllocAndMapPhysicalPages(k, address, numPages, kt);
  }

  /** alloc_kheap_pages as written. Nothing is promised when the search has no defined result. */
  method AllocKheapPagesWritten(k: Kernel, numPages: nat, ghost kt: Frame)
    returns (address: Word, defined: bool, faulted: bool, ghost i: nat, ghost r: nat)
    requires k.Valid() && HeapWindowOk(k.View(), kt) && WindowBytes(numPages) + 1 <= KHEAP_BITMAP_SIZE
    requires forall q: nat :: q in k.kheap.ones ==> q < INITIAL_PAGES
    modifies k.machine`ram, k.frames, k.frames.bitmap, k.frames.bitmap.bytes, k.kheap, k.kheap.bytes
    ensures k.Valid()
    ensures !FirstUsedWindow(old(k.kheap.ones), numPages, i) ==>
              && defined && address == 0 && k.kheap.ones == old(k.kheap.ones)
              && forall j :: !FirstUsedWindow(old(k.kheap.ones), numPages, j)
    ensures FirstUsedWindow(old(k.kheap.ones), numPages, i) ==>
              Took(old(k.kheap.ones), i, numPages, k.kheap.ones, address, defined, r)
    ensures defined ==>
              && (faulted <==> address / 4096 % ENTRIES + numPages > HEAP_PAGES)
              && k.View() == HeapMapRun(old(k.View()), kt, address / 4096 % ENTRIES, numPages)
  {
    hide Took, FirstUsedWindow, Represents;
    address, defined, i, r := GetFreeContinuousBlocksAddressWritten(k.kheap, numPages);
    faulted := false;
    if defined {
      faulted := AllocAndMapPhysicalPages(k, address, numPages, kt);
    }
  }

  /** kheap_get_physical_address: out-of-range and misaligned addresses give 0 and the error code's number. */
  method KheapGetPhysicalAddress(k: Kernel, virtualAddress: Word, ghost kt: Frame) returns (address: Word)
    requires k.Valid() && HeapWindowOk(k.View(), kt)
    ensures !(KHEAP_BEGIN_ADDRESS <= virtualAddress < KHEAP_END_ADDRESS) ==> address == 0
    ensures KHEAP_BEGIN_ADDRESS <= virtualAddress < KHEAP_END_ADDRESS && virtualAddress % PAGE_SIZE != 0
        ==> address == 4
    ensures KHEAP_BEGIN_ADDRESS <= virtualAddress < KHEAP_END_ADDRESS && virtualAddress % PAGE_SIZE == 0 ==>
              var e := k.View().ram[kt][virtualAddress / 4096 % ENTRIES];
              && address % 256 == 0 && address <= e < address + 256
              && (address == FrameOf(e) * PAGE_SIZE <==> e / 256 % 16 == 0)
  {
    if !(virtualAddress >= KHEAP_BEGIN_ADDRESS && virtualAddress < KHEAP_END_ADDRESS) {
      return 0;
    }
    if PageBoundary(virtualAddress) != virtualAddress {
      return 4;
    }
    var e := ReadHeapEntry(k, virtualAddress / 4096 % ENTRIES, kt);
    LowByteCleared(e);
    return e / 256 * 256;
  }

  /** Clearing only the low eight bits leaves the frame address exactly when bits 8 to 11 are clear. */
  lemma LowByteCleared(e: Word)
    ensures e / 256 * 256 == FrameOf(e) * 4096 <==> e / 256 % 16 == 0
    ensures e / 256 * 256 % 256 == 0 && e / 256 * 256 <= e < e / 256 * 256 + 256
  {
    assert e / 256 / 16 == e / 4096;
    assert e / 256 == 16 * (e / 256 / 16) + e / 256 % 16;
  }

  /* ---------- Freeing ---------- */

  /** The direct effect of free_kheap_pages on one page-table entry. */
  ghost function HeapUnmap(s: Sys, kt: Frame, i: nat): Sys
    requires i < HEAP_PAGES
  {
    s.(ram := SetEntry(s.ram, kt, i, 0), frames := P.Free(s.frames, s.ram[kt][i]))
  }

  ghost function HeapUnmapPages(s: Sys, kt: Frame, i: nat, n: nat): Sys
    requires i + n <= HEAP_PAGES
    decreases n
  {
    if n == 0 then s else HeapUnmapPages(HeapUnmap(s, kt, i), kt, i + 1, n - 1)
  }

  /** free_kheap_pages from entry i: a run that passes the end of the table faults there. */
  ghost function HeapUnmapRun(s: Sys, kt: Frame, i: nat, n: nat): Sys
    requires i < HEAP_PAGES
  {
    HeapUnmapPages(s, kt, i, Min(n, HEAP_PAGES - i))
  }

  /** free_kheap_pages. The bits of the run must be in the bitmap. */
  method FreeKheapPages(k: Kernel, address: Word, numPages: nat, ghost kt: Frame)
      returns (code: ErrorCode, faulted: bool)
    requires k.Valid() && HeapSeen(k.View(), kt)
    requires address / 4096 % ENTRIES + numPages <= 8 * KHEAP_BITMAP_SIZE
    modifies k.machine`ram, k.frames, k.frames.bitmap, k.frames.bitmap.bytes, k.kheap, k.kheap.bytes
    ensures k.Valid()
    ensures code == if KHEAP_BEGIN_ADDRESS <= address < KHEAP_END_ADDRESS
        && address % PAGE_SIZE == 0 then Success else InvalidArgument
    ensures code != Success ==> !faulted && k.View() == old(k.View()) && k.kheap.ones == old(k.kheap.ones)
    ensures code == Success ==>
              var p := address / 4096 % ENTRIES;
              && address == PageAddress(p)
              && (faulted <==> p + numPages > HEAP_PAGES)
              && k.kheap.ones == old(k.kheap.ones) + Interval(p, p + numPages)
              && k.View() == HeapUnmapRun(old(k.View()), kt, p, numPages)
  {
    faulted := false;
    if !(address >= KHEAP_BEGIN_ADDRESS && address < KHEAP_END_ADDRESS) {
      return InvalidArgument, faulted;
    }
    if PageBoundary(address) != address {
      return InvalidArgument, faulted;
    }
    PageAddressInverse(address / 4096 % ENTRIES);
    var bitIndex := AddressToBitIndex(address, KHEAP_BEGIN_ADDRESS);
    k.kheap.TurnBitsOn(0, bitIndex, numPages);
    faulted := ClearHeapEntries(k, address / 4096 % ENTRIES, numPages, kt);
    return Success, faulted;
  }

  /** The loop of free_kheap_pages over the page table. */
  method ClearHeapEntries(k: Kernel, first: nat, n: nat, ghost kt: Frame) returns (faulted: bool)
    requires k.Valid() && HeapSeen(k.View(), kt) && first < HEAP_PAGES
    modifies k.machine`ram, k.frames, k.frames.bitmap, k.frames.bitmap.bytes
    ensures k.Valid() && k.View() == HeapUnmapRun(old(k.View()), kt, first, n)
    ensures faulted <==> first + n > HEAP_PAGES
  {
    hide Represents, HeapSeen;
    ghost var goal, last := HeapUnmapRun(k.View(), kt, first, n), Min(first + n, HEAP_PAGES);
    var i := first;
    while i < first + n
      invariant k.Valid() && first <= i <= first + n
      invariant HeapLeftToUnmap(k.View(), kt, i, last, goal)
    {
      HeapWindowHits(k.View(), kt, i);
      if Translate(k.machine.ram, k.machine.cr3, (TableWindow(HEAP_SLOT, 0) + 4 * i) / 4096) == None {
        return true;
      }
      HeapUnmapSteps(k.View(), kt, i, last, goal);
      ClearHeapEntry(k, i, kt);
      i := i + 1;
    }
    return false;
  }

  /** The body of that loop. */
  method ClearHeapEntry(k: Kernel, i: nat, ghost kt: Frame)
    requires k.Valid() && HeapSeen(k.View(), kt) && i < HEAP_PAGES
    modifies k.machine`ram, k.frames, k.frames.bitmap, k.frames.bitmap.bytes
    ensures k.Valid() && k.View() == HeapUnmap(old(k.View()), kt, i)
  {
    hide Represents;
    var e := ReadHeapEntry(k, i, kt);
    var _ := k.frames.FreePhysicalPage(e);
    ZeroHeapEntry(k, i, kt);
  }

  /** `base_page_table[i] = 0` */
  method ZeroHeapEntry(k: Kernel, i: nat, ghost kt: Frame)
    requires k.Valid() && HeapSeen(k.View(), kt) && i < HEAP_PAGES
    modifies k.machine`ram
    ensures k.Valid() && k.View() == old(k.View()).(ram := SetEntry(old(k.View()).ram, kt, i, 0))
  {
    HeapWindowHits(k.View(), kt, i);
    HeapEntryAddress(i);
    hide Represents, HeapSeen, TableWindow;
    k.machine.Store(TableWindow(HEAP_SLOT, 0) + 4 * i, 0);
  }

  ghost predicate HeapLeftToUnmap(s: Sys, kt: Frame, i: nat, last: nat, goal: Sys) {
    HeapSeen(s, kt) && i <= last <= HEAP_PAGES && goal == HeapUnmapPages(s, kt, i, last - i)
  }

  lemma HeapUnmapSteps(s: Sys, kt: Frame, i: nat, last: nat, goal: Sys)
    requires HeapLeftToUnmap(s, kt, i, last, goal) && i < last
    ensures HeapLeftToUnmap(HeapUnmap(s, kt, i), kt, i + 1, last, goal)
  {
    var t := HeapUnmap(s, kt, i);
    assert t.ram[s.cr3] == s.ram[s.cr3];
  }

  /** alloc_and_map_physical_pages touches exactly the entries of its range, which all become fresh kernel
      entries. After a failed search the range starts at entry 0, so the page mapped there is lost. */
  lemma {:induction false} HeapMapPagesEntries(s: Sys, kt: Frame, i: nat, n: nat)
    requires HeapWindowOk(s, kt) && i + n <= HEAP_PAGES
    ensures var t := HeapMapPages(s, kt, i, n);
            && (forall j :: 0 <= j < HEAP_PAGES ==>
                  if i <= j < i + n then t.ram[kt][j] % 4096 == 3 else t.ram[kt][j] == s.ram[kt][j])
            && (forall f: Frame :: f != kt ==> t.ram[f] == s.ram[f])
    decreases n
  {
    if n > 0 {
      HeapMapKeepsWindow(s, kt, i);
      HeapMapPagesEntries(HeapMap(s, kt, i), kt, i + 1, n - 1);
    }
  }

  /** free_kheap_pages zeroes exactly the entries of its range that the table has. No other entry and no other
      frame changes, and the pages it freed are no longer mapped. */
  lemma {:induction false} HeapUnmapPagesEntries(s: Sys, kt: Frame, i: nat, n: nat)
    requires i + n <= HEAP_PAGES
    ensures var t := HeapUnmapPages(s, kt, i, n);
            && t.cr3 == s.cr3
            && (forall j :: 0 <= j < HEAP_PAGES ==> t.ram[kt][j] == if i <= j < i + n then 0 else s.ram[kt][j])
            && (forall f: Frame :: f != kt ==> t.ram[f] == s.ram[f])
    decreases n
  {
    if n > 0 {
      HeapUnmapPagesEntries(HeapUnmap(s, kt, i), kt, i + 1, n - 1);
    }
  }

  lemma FreedPagesUnmapped(s: Sys, kt: Frame, i: nat, n: nat)
    requires HeapSeen(s, kt) && i < HEAP_PAGES
    ensures var t := HeapUnmapRun(s, kt, i, n);
            && (forall j :: 0 <= j < HEAP_PAGES ==> t.ram[kt][j] == if i <= j < i + n then 0 else s.ram[kt][j])
            && (forall f: Frame :: f != kt ==> t.ram[f] == s.ram[f])
            && (forall j :: i <= j < i + n && j < HEAP_PAGES ==> !Mapped(t.ram, s.cr3, PageAddress(j)))
  {
    var t := HeapUnmapRun(s, kt, i, n);
    HeapUnmapPagesEntries(s, kt, i, Min(n, HEAP_PAGES - i));
    EntryBits(kt);
    forall j | i <= j < i + n && j < HEAP_PAGES
      ensures !Mapped(t.ram, s.cr3, PageAddress(j))
    {
      PageAddressInverse(j);
      assert (HEAP_SLOT * 1024 + j) / 1024 == HEAP_SLOT && (HEAP_SLOT * 1024 + j) % 1024 == j;
    }
  }

  /** In the directory `cr3` the slots that kheap_init's pages past the table would need are empty. */
  ghost predicate SlotsPastHeapEmpty(s: Sys) {
    forall d :: HEAP_SLOT < d <= HEAP_SLOT + INITIAL_PAGES / 1024 ==> s.ram[s.cr3][d] == 0
  }

  /** Of the pages kheap_init marks free, mapping page p makes its address usable exactly when the table has
      an entry for it; a page past the table takes over the entry of page p % 1024. */
  lemma HeapPageUsableIff(s: Sys, kt: Frame, p: nat)
    requires HeapWindowOk(s, kt) && SlotsPastHeapEmpty(s) && p < INITIAL_PAGES
    ensures PageAddress(p) / 4096 % ENTRIES == p % 1024
    ensures Mapped(HeapMap(s, kt, p % 1024).ram, s.cr3, PageAddress(p)) <==> p < HEAP_PAGES
  {
    var q, r := p / 1024, p % 1024;
    assert PageAddress(p) / 4096 == (HEAP_SLOT + q) * 1024 + r;
    HeapMapKeepsWindow(s, kt, r);
    EntryBits(kt);
    FreshEntryPresent(AllocFrame(s).1);
  }

  lemma FreshEntryPresent(address: Word)
    requires address % 4096 == 0
    ensures Present(address + 3)
  {
  }

  /* ---------- Round trips ---------- */

  /** Freeing, by its address, the run an allocation took restores the exact bitmap. */
  lemma AllocThenFreeRestoresBitmap(ones: set<nat>, p: nat, n: nat)
    requires PagesFree(ones, p, n) && p < HEAP_PAGES
    ensures var bit := AddressToBitIndex(PageAddress(p), KHEAP_BEGIN_ADDRESS);
            ones - Interval(p, p + n) + Interval(bit, bit + n) == ones
  {
    PageAddressInverse(p);
  }

  /** free_kheap_pages hands the frame allocator the entry with its attribute bits, which it rejects: the
      frame comes back exactly when the entry carries no low bits, which no mapped entry does. */
  lemma FreedFrameReturnsIff(s: Sys, kt: Frame, i: nat)
    requires i < HEAP_PAGES
    ensures FrameOf(s.ram[kt][i]) in HeapUnmap(s, kt, i).frames.available
       <==> s.ram[kt][i] % 4096 == 0 || FrameOf(s.ram[kt][i]) in s.frames.available
    ensures s.ram[kt][i] % 4096 == 3 ==> HeapUnmap(s, kt, i).frames == s.frames
  {
  }
}
