/** Bit manipulation on bytes and byte buffers: libc/memory.c and kernel/mm/bitmap_manipulation.c.
    Bit 0 of a byte is its most significant bit, so bit k of a buffer is bit k%8 of byte k/8. */
module Bits {
  import opened Common

  /** The C expression `0x80 >> k`, tabulated (MaskIsShift). */
  function Mask(k: nat): bv8
    requires k < 8
  {
    match k
    case 0 => 0x80
    case 1 => 0x40
    case 2 => 0x20
    case 3 => 0x10
    case 4 => 0x08
    case 5 => 0x04
    case 6 => 0x02
    case _ => 0x01
  }

  predicate BitOn(b: bv8, k: nat)
    requires k < 8
  {
    b & Mask(k) != 0
  }

  /** Bit k of a buffer. */
  predicate On(bytes: seq<bv8>, k: nat)
    requires k < 8 * |bytes|
  {
    BitOn(bytes[k / 8], k % 8)
  }

  /** `ones` is the abstract value of a bitmap: the indices of its one bits. */
  ghost predicate Represents(bytes: seq<bv8>, ones: set<nat>) {
    && (forall k: nat {:trigger On(bytes, k)} :: k < 8 * |bytes| ==> (On(bytes, k) <==> k in ones))
    && (forall k :: k in ones ==> k < 8 * |bytes|)
  }

  lemma MaskIsShift(k: nat)
    requires k < 8
    ensures Mask(k) == (0x80 as bv8) >> k
  {
    if k == 0 {} else if k == 1 {} else if k == 2 {} else if k == 3 {}
    else if k == 4 {} else if k == 5 {} else if k == 6 {} else {}
  }

  function WithBitOn(b: bv8, k: nat): (r: bv8)
    requires k < 8
    ensures forall j :: 0 <= j < 8 ==> (BitOn(r, j) <==> j == k || BitOn(b, j))
  {
    b | Mask(k)
  }

  function WithBitOff(b: bv8, k: nat): (r: bv8)
    requires k < 8
    ensures forall j :: 0 <= j < 8 ==> (BitOn(r, j) <==> j != k && BitOn(b, j))
  {
    b & !Mask(k)
  }

  lemma NonzeroByte(b: bv8)
    ensures b == 0 <==> forall k :: 0 <= k < 8 ==> !BitOn(b, k)
  {
    if forall k :: 0 <= k < 8 ==> !BitOn(b, k) {
      assert !BitOn(b, 0) && !BitOn(b, 1) && !BitOn(b, 2) && !BitOn(b, 3);
      assert !BitOn(b, 4) && !BitOn(b, 5) && !BitOn(b, 6) && !BitOn(b, 7);
    }
  }

  /** Replacing byte i by one that differs at bit k only changes bit 8 * i + k only. */
  lemma ByteReplaced(bytes: seq<bv8>, ones: set<nat>, i: nat, k: nat, b: bv8)
    requires i < |bytes| && k < 8 && Represents(bytes, ones)
    requires forall j :: 0 <= j < 8 && j != k ==> (BitOn(b, j) <==> BitOn(bytes[i], j))
    ensures Represents(bytes[i := b], if BitOn(b, k) then ones + {8 * i + k} else ones - {8 * i + k})
  {
    var after := bytes[i := b];
    forall j: nat | j < 8 * |bytes|
      ensures On(after, j) <==> if j == 8 * i + k then BitOn(b, k) else On(bytes, j)
    {
      if j / 8 == i {
        assert j == 8 * i + j % 8;
      }
    }
  }

  /** `(value >> (8 - bitIndex - 1)) & 0x1` */
  function ExtractBit(value: bv8, bitIndex: nat): (bit: bv8)
    requires bitIndex < 8
    ensures bit == (if BitOn(value, bitIndex) then 1 else 0)
  {
    (value >> (8 - bitIndex - 1)) & 1
  }

  /** `n` single right shifts. */
  function ShiftRight(value: bv8, n: nat): bv8 {
    if n == 0 then value else ShiftRight(value, n - 1) >> 1
  }

  lemma EightShifts(value: bv8)
    ensures ShiftRight(value, 1) == value >> 1 && ShiftRight(value, 2) == value >> 2
    ensures ShiftRight(value, 3) == value >> 3 && ShiftRight(value, 4) == value >> 4
    ensures ShiftRight(value, 5) == value >> 5 && ShiftRight(value, 6) == value >> 6
    ensures ShiftRight(value, 7) == value >> 7 && ShiftRight(value, 8) == 0
  {
    assert ShiftRight(value, 0) == value;
  }

  /** The index of the first one bit of a byte, counted from the most significant end; 8 for zero. */
  method GetMsbIndex(value: bv8) returns (msb: nat)
    ensures value == 0 <==> msb == 8
    ensures msb <= 8
    ensures msb < 8 ==> BitOn(value, msb)
    ensures forall k :: 0 <= k < msb ==> !BitOn(value, k)
  {
    var index: nat := 0;
    var rest := value;
    while rest != 0
      invariant index <= 8 && rest == ShiftRight(value, index)
      invariant index > 0 ==> ShiftRight(value, index - 1) != 0
      decreases 8 - index
    {
      assert index < 8 by { EightShifts(value); }
      index := index + 1;
      rest := rest >> 1;
    }
    msb := 8 - index;
    ShiftedOut(value, index);
  }

  /** When n shifts empty the byte and n - 1 do not, its first one bit is bit 8 - n. */
  lemma ShiftedOut(value: bv8, n: nat)
    requires n <= 8 && ShiftRight(value, n) == 0
    requires n > 0 ==> ShiftRight(value, n - 1) != 0
    ensures n == 0 <==> value == 0
    ensures n > 0 ==> BitOn(value, 8 - n)
    ensures forall k :: 0 <= k < 8 - n ==> !BitOn(value, k)
  {
    EightShifts(value);
    forall k | 0 <= k < 8 - n
      ensures !BitOn(value, k)
    {
      BelowShift(value, n, k);
    }
    match n
    case 0 => case 1 => case 2 => case 3 => case 4 => case 5 => case 6 => case 7 => case _ =>
  }

  lemma BelowShift(value: bv8, n: nat, k: nat)
    requires n <= 8 && ShiftRight(value, n) == 0 && k < 8 - n
    ensures !BitOn(value, k)
  {
    EightShifts(value);
    match n
    case 0 => case 1 => case 2 => case 3 => case 4 => case 5 => case 6 => case _ =>
  }

  /** (index of the page of `address`) - (index of the page of `start`), as unsigned 32-bit arithmetic
      on the unparenthesised MANAGED_MEMORY_PAGE_ALIGN macro. */
  function AddressToBitIndex(address: Word, start: Word): Word {
    var aligned := Wrap32(PageBoundary(address) + (start - PageBoundary(start)));
    Wrap32(aligned - start) / PAGE_SIZE
  }

  /** A zero byte holds no one bit. */
  lemma ZeroByte(bytes: seq<bv8>, ones: set<nat>, i: nat)
    requires i < |bytes| && bytes[i] == 0 && Represents(bytes, ones)
    ensures forall k: nat :: 8 * i <= k < 8 * i + 8 ==> k !in ones
    ensures AtOrAbove(ones, 8 * i) == AtOrAbove(ones, 8 * (i + 1))
  {
    NonzeroByte(bytes[i]);
    forall k: nat | 8 * i <= k < 8 * i + 8
      ensures k !in ones
    {
      assert k / 8 == i && k % 8 == k - 8 * i;
      assert !On(bytes, k);
    }
  }

  /** The first one bit of byte i is the lowest one bit at or above that byte. */
  lemma FirstOnBit(bytes: seq<bv8>, ones: set<nat>, i: nat, msb: nat)
    requires i < |bytes| && msb < 8 && BitOn(bytes[i], msb) && Represents(bytes, ones)
    requires forall k :: 0 <= k < msb ==> !BitOn(bytes[i], k)
    ensures 8 * i + msb in ones
    ensures AtOrAbove(ones, 8 * i) != {} && Lowest(AtOrAbove(ones, 8 * i)) == 8 * i + msb
  {
    var p := 8 * i + msb;
    assert p / 8 == i && p % 8 == msb;
    assert On(bytes, p);
    assert p in AtOrAbove(ones, 8 * i);
    forall k: nat | 8 * i <= k < p
      ensures k !in ones
    {
      assert k / 8 == i && k % 8 == k - 8 * i;
      assert !On(bytes, k);
    }
  }

  lemma PrefixFilled(before: seq<bv8>, after: seq<bv8>, ones: set<nat>, n: nat)
    requires n <= |before| == |after| && Represents(before, ones)
    requires forall j :: 0 <= j < n ==> after[j] == 0xFF
    requires forall j :: n <= j < |before| ==> after[j] == before[j]
    ensures Represents(after, ones + Interval(0, 8 * n))
  {
    forall k: nat | k < 8 * |after|
      ensures On(after, k) <==> k < 8 * n || On(before, k)
    {
      assert k / 8 < n <==> k < 8 * n;
      FullByte(k % 8);
    }
  }

  lemma FullByte(k: nat)
    requires k < 8
    ensures BitOn(0xFF, k)
  {
  }

  /** A packed bitmap updated in place. `ones` is its abstract value. */
  class Bitmap {
    const bytes: array<bv8>
    ghost var ones: set<nat>

    ghost predicate Valid()
      reads this, bytes
    {
      Represents(bytes[..], ones)
    }

    constructor (numBytes: nat)
      ensures Valid() && fresh(bytes) && bytes.Length == numBytes && ones == {}
    {
      bytes := new bv8[numBytes](_ => 0);
      ones := {};
      new;
      NonzeroByte(0);
    }

    method TurnBitOn(byteIndex: nat, bitIndex: nat)
      requires Valid() && byteIndex < bytes.Length && bitIndex < 8
      modifies this, bytes
      ensures Valid() && ones == old(ones) + {8 * byteIndex + bitIndex}
    {
      var b := WithBitOn(bytes[byteIndex], bitIndex);
      ByteReplaced(bytes[..], ones, byteIndex, bitIndex, b);
      ghost var before := bytes[..];
      bytes[byteIndex] := b;
      assert bytes[..] == before[byteIndex := b];
      ones := ones + {8 * byteIndex + bitIndex};
    }

    method TurnBitOff(byteIndex: nat, bitIndex: nat)
      requires Valid() && byteIndex < bytes.Length && bitIndex < 8
      modifies this, bytes
      ensures Valid() && ones == old(ones) - {8 * byteIndex + bitIndex}
    {
      var b := WithBitOff(bytes[byteIndex], bitIndex);
      ByteReplaced(bytes[..], ones, byteIndex, bitIndex, b);
      ghost var before := bytes[..];
      bytes[byteIndex] := b;
      assert bytes[..] == before[byteIndex := b];
      ones := ones - {8 * byteIndex + bitIndex};
    }

    /** Bits are numbered from the byte `base`, which is where the caller's `&bitmap[base]` points. */
    method TurnBitsOff(base: nat, bitIndex: nat, numBits: nat)
      requires Valid() && 8 * base + bitIndex + numBits <= 8 * bytes.Length
      modifies this, bytes
      ensures Valid()
      ensures ones == old(ones) - Interval(8 * base + bitIndex, 8 * base + bitIndex + numBits)
    {
      ghost var first := 8 * base + bitIndex;
      var i := bitIndex;
      while i < bitIndex + numBits
        invariant Valid() && bitIndex <= i <= bitIndex + numBits
        invariant ones == old(ones) - Interval(first, 8 * base + i)
      {
        IntervalSteps(old(ones), first, 8 * base + i);
        TurnBitOff(base + i / 8, i % 8);
        i := i + 1;
      }
    }

    method TurnBitsOn(base: nat, bitIndex: nat, numBits: nat)
      requires Valid() && 8 * base + bitIndex + numBits <= 8 * bytes.Length
      modifies this, bytes
      ensures Valid()
      ensures ones == old(ones) + Interval(8 * base + bitIndex, 8 * base + bitIndex + numBits)
    {
      ghost var first := 8 * base + bitIndex;
      var i := bitIndex;
      while i < bitIndex + numBits
        invariant Valid() && bitIndex <= i <= bitIndex + numBits
        invariant ones == old(ones) + Interval(first, 8 * base + i)
      {
        IntervalSteps(old(ones), first, 8 * base + i);
        TurnBitOn(base + i / 8, i % 8);
        i := i + 1;
      }
    }

    /** memset of the first `numBytes` bytes to 0xFF. */
    method FillOnes(numBytes: nat)
      requires Valid() && numBytes <= bytes.Length
      modifies this, bytes
      ensures Valid() && ones == old(ones) + Interval(0, 8 * numBytes)
    {
      var i := 0;
      while i < numBytes
        invariant 0 <= i <= numBytes && ones == old(ones)
        invariant forall j :: 0 <= j < i ==> bytes[j] == 0xFF
        invariant forall j :: i <= j < bytes.Length ==> bytes[j] == old(bytes[j])
      {
        bytes[i] := 0xFF;
        i := i + 1;
      }
      PrefixFilled(old(bytes[..]), bytes[..], ones, numBytes);
      ones := ones + Interval(0, 8 * numBytes);
    }

    /** set_next_free_page_index: the lowest one bit; -1 as `unsigned long` when there is none. */
    method SetNextFreePageIndex() returns (index: Word)
      requires Valid() && 8 * bytes.Length < 0xFFFF_FFFF
      ensures index == if ones == {} then 0xFFFF_FFFF else Lowest(ones)
    {
      var i := 0;
      while i < bytes.Length
        invariant 0 <= i <= bytes.Length
        invariant AtOrAbove(ones, 8 * i) == ones
      {
        NonzeroByte(bytes[i]);
        if bytes[i] != 0 {
          var msb := GetMsbIndex(bytes[i]);
          index := i * 8 + msb;
          FirstOnBit(bytes[..], ones, i, msb);
          return;
        }
        ZeroByte(bytes[..], ones, i);
        i := i + 1;
      }
      index := 0xFFFF_FFFF;
    }
  }
}
