/** The machine seen through its page tables: every load and store is walked from CR3, and calling one
    with an unmapped address is what this model rules out instead of a page fault. */
module Machine {
  import opened Common
  import opened Paging

  function LoadAt(ram: Ram, cr3: Frame, v: Word): Word
    requires Mapped(ram, cr3, v)
  {
    ram[Translate(ram, cr3, v / 4096).value.frame][v % 4096 / 4]
  }

  function StoreAt(ram: Ram, cr3: Frame, v: Word, w: Word): Ram
    requires Mapped(ram, cr3, v)
  {
    SetEntry(ram, Translate(ram, cr3, v / 4096).value.frame, v % 4096 / 4, w)
  }

  function StoreByteAt(ram: Ram, cr3: Frame, v: Word, b: Byte): Ram
    requires Mapped(ram, cr3, v)
  {
    var f := Translate(ram, cr3, v / 4096).value.frame;
    ram[f := WithPageByte(ram[f], v % 4096, b)]
  }

  /* ---------- Writing a range of bytes ---------- */

  /** Page p holds a byte of [lo, lo + n). */
  predicate Touches(lo: Word, n: nat, p: Frame) {
    lo < (p + 1) * 4096 && p * 4096 < lo + n
  }

  /** Every page of [lo, lo + n) is mapped to a frame of its own, and no such frame is the directory or
      a page table that a walk of this range reads. */
  ghost predicate SafeRange(ram: Ram, cr3: Frame, lo: Word, n: nat) {
    && lo + n <= TWO_32
    && (forall p: Frame :: Touches(lo, n, p) ==> Translate(ram, cr3, p).Some? && TargetFrame(ram, cr3, p) != cr3)
    && (forall p: Frame, q: Frame :: Touches(lo, n, p) && Touches(lo, n, q) ==>
          && TargetFrame(ram, cr3, p) != FrameOf(ram[cr3][q / ENTRIES])
          && (p != q ==> TargetFrame(ram, cr3, p) != TargetFrame(ram, cr3, q)))
  }

  /** The frame of a mapped page; arbitrary when it is not mapped. */
  function TargetFrame(ram: Ram, cr3: Frame, p: Frame): Frame {
    match Translate(ram, cr3, p)
    case Some(m) => m.frame
    case None => 0
  }

  /** `after` is `before` with `data` written at [lo, lo + |data|) through the walk of `before`. */
  ghost predicate Written(before: Ram, after: Ram, cr3: Frame, lo: Word, data: seq<Byte>) {
    lo + |data| <= TWO_32
    && RangeReads(before, after, cr3, lo, data)
    && FramesKept(before, after, cr3, lo, |data|)
    && BytesKept(before, after, cr3, lo, |data|)
  }

  /** The range reads back as `data`. */
  ghost predicate RangeReads(before: Ram, after: Ram, cr3: Frame, lo: Word, data: seq<Byte>)
    requires lo + |data| <= TWO_32
  {
    forall i: nat :: i < |data| ==>
      PageByte(after[TargetFrame(before, cr3, (lo + i) / 4096)], (lo + i) % 4096) == data[i]
  }

  /** A frame behind no page of the range is unchanged. */
  ghost predicate FramesKept(before: Ram, after: Ram, cr3: Frame, lo: Word, n: nat) {
    forall f: Frame :: (forall p: Frame :: Touches(lo, n, p) ==> TargetFrame(before, cr3, p) != f)
      ==> after[f] == before[f]
  }

  /** A byte of a touched page outside the range is unchanged. */
  ghost predicate BytesKept(before: Ram, after: Ram, cr3: Frame, lo: Word, n: nat) {
    forall p: Frame, o: nat :: Touches(lo, n, p) && o < 4096 && !(lo <= p * 4096 + o < lo + n)
      ==> PageByte(after[TargetFrame(before, cr3, p)], o) == PageByte(before[TargetFrame(before, cr3, p)], o)
  }

  /** Walks of the range read no frame the range writes. */
  lemma WrittenKeepsWalks(before: Ram, after: Ram, cr3: Frame, lo: Word, data: seq<Byte>, n: nat, p: Frame)
    requires |data| <= n && SafeRange(before, cr3, lo, n) && Written(before, after, cr3, lo, data)
    requires Touches(lo, n, p)
    ensures Translate(after, cr3, p) == Translate(before, cr3, p)
  {
    var table := FrameOf(before[cr3][p / ENTRIES]);
    forall q: Frame | Touches(lo, |data|, q)
      ensures TargetFrame(before, cr3, q) != cr3 && TargetFrame(before, cr3, q) != table
    {
      assert Touches(lo, n, q);
    }
    assert after[cr3] == before[cr3] && after[table] == before[table];
  }

  lemma WrittenStep(before: Ram, mid: Ram, cr3: Frame, lo: Word, data: seq<Byte>, n: nat, b: Byte)
    requires |data| < n && SafeRange(before, cr3, lo, n) && Written(before, mid, cr3, lo, data)
    ensures Mapped(mid, cr3, lo + |data|)
    ensures Written(before, StoreByteAt(mid, cr3, lo + |data|, b), cr3, lo, data + [b])
  {
    var v := lo + |data|;
    var p, o := v / 4096, v % 4096;
    assert Touches(lo, n, p);
    WrittenKeepsWalks(before, mid, cr3, lo, data, n, p);
    var f := TargetFrame(before, cr3, p);
    var after := mid[f := WithPageByte(mid[f], o, b)];
    assert after == StoreByteAt(mid, cr3, v, b);
    StepRangeReads(before, mid, after, cr3, lo, data, n, b);
    StepFramesKept(before, mid, after, cr3, lo, data, n, b);
    StepBytesKept(before, mid, after, cr3, lo, data, n, b);
  }

  ghost predicate OneByteLater(before: Ram, mid: Ram, after: Ram, cr3: Frame, v: Word, b: Byte) {
    var f := TargetFrame(before, cr3, v / 4096);
    after == mid[f := WithPageByte(mid[f], v % 4096, b)]
  }

  lemma StepRangeReads(before: Ram, mid: Ram, after: Ram, cr3: Frame, lo: Word, data: seq<Byte>, n: nat, b: Byte)
    requires |data| < n && SafeRange(before, cr3, lo, n) && Written(before, mid, cr3, lo, data)
    requires OneByteLater(before, mid, after, cr3, lo + |data|, b)
    ensures RangeReads(before, after, cr3, lo, data + [b])
  {
    forall i: nat | i < |data + [b]|
      ensures PageByte(after[TargetFrame(before, cr3, (lo + i) / 4096)], (lo + i) % 4096) == (data + [b])[i]
    {
      StepReadsAt(before, mid, after, cr3, lo, data, n, b, i);
    }
  }

  lemma StepReadsAt(before: Ram, mid: Ram, after: Ram, cr3: Frame, lo: Word, data: seq<Byte>, n: nat, b: Byte, i: nat)
    requires |data| < n && SafeRange(before, cr3, lo, n) && Written(before, mid, cr3, lo, data)
    requires OneByteLater(before, mid, after, cr3, lo + |data|, b)
    requires i <= |data|
    ensures PageByte(after[TargetFrame(before, cr3, (lo + i) / 4096)], (lo + i) % 4096) == (data + [b])[i]
  {
    var p, q := (lo + i) / 4096, (lo + |data|) / 4096;
    if i < |data| {
      assert Touches(lo, n, p) && Touches(lo, n, q);
      assert p == q ==> (lo + i) % 4096 != (lo + |data|) % 4096;
      assert PageByte(mid[TargetFrame(before, cr3, p)], (lo + i) % 4096) == data[i];
    }
  }

  lemma StepFramesKept(before: Ram, mid: Ram, after: Ram, cr3: Frame, lo: Word, data: seq<Byte>, n: nat, b: Byte)
    requires |data| < n && SafeRange(before, cr3, lo, n) && Written(before, mid, cr3, lo, data)
    requires OneByteLater(before, mid, after, cr3, lo + |data|, b)
    ensures FramesKept(before, after, cr3, lo, |data| + 1)
  {
    var v := lo + |data|;
    forall g: Frame | forall q: Frame :: Touches(lo, |data| + 1, q) ==> TargetFrame(before, cr3, q) != g
      ensures after[g] == before[g]
    {
      assert Touches(lo, |data| + 1, v / 4096);
      forall q: Frame | Touches(lo, |data|, q)
        ensures TargetFrame(before, cr3, q) != g
      {
        assert Touches(lo, |data| + 1, q);
      }
    }
  }

  lemma StepBytesKept(before: Ram, mid: Ram, after: Ram, cr3: Frame, lo: Word, data: seq<Byte>, n: nat, b: Byte)
    requires |data| < n && SafeRange(before, cr3, lo, n) && Written(before, mid, cr3, lo, data)
    requires OneByteLater(before, mid, after, cr3, lo + |data|, b)
    ensures BytesKept(before, after, cr3, lo, |data| + 1)
  {
    var v := lo + |data|;
    forall q: Frame, k: nat | Touches(lo, |data| + 1, q) && k < 4096 && !(lo <= q * 4096 + k < lo + |data| + 1)
      ensures PageByte(after[TargetFrame(before, cr3, q)], k) == PageByte(before[TargetFrame(before, cr3, q)], k)
    {
      assert Touches(lo, n, q) && Touches(lo, n, v / 4096);
      UntouchedByte(before, mid, cr3, lo, data, n, q, k);
      if q == v / 4096 {
        assert k != v % 4096;
      }
    }
  }

  lemma UntouchedByte(before: Ram, mid: Ram, cr3: Frame, lo: Word, data: seq<Byte>, n: nat, q: Frame, k: nat)
    requires |data| <= n && SafeRange(before, cr3, lo, n) && Written(before, mid, cr3, lo, data)
    requires Touches(lo, n, q) && k < 4096 && !(lo <= q * 4096 + k < lo + |data|)
    ensures PageByte(mid[TargetFrame(before, cr3, q)], k) == PageByte(before[TargetFrame(before, cr3, q)], k)
  {
    if !Touches(lo, |data|, q) {
      forall r: Frame | Touches(lo, |data|, r)
        ensures TargetFrame(before, cr3, r) != TargetFrame(before, cr3, q)
      {
        assert Touches(lo, n, r);
      }
    }
  }

  lemma RangeEnds(ram: Ram, cr3: Frame, lo: Word, n: nat)
    requires SafeRange(ram, cr3, lo, n)
    ensures lo + n <= TWO_32
  {
  }

  lemma NothingWritten(ram: Ram, cr3: Frame, lo: Word)
    ensures Written(ram, ram, cr3, lo, [])
  {
  }

  class Machine {
    var ram: Ram
    var cr3: Frame

    method Load(v: Word) returns (w: Word)
      requires v % 4 == 0 && Mapped(ram, cr3, v)
      ensures w == LoadAt(ram, cr3, v)
    {
      var m := Translate(ram, cr3, v / 4096).value;
      w := ram[m.frame][v % 4096 / 4];
    }

    method Store(v: Word, w: Word)
      requires v % 4 == 0 && Mapped(ram, cr3, v)
      modifies this`ram
      ensures ram == StoreAt(old(ram), cr3, v, w)
    {
      var m := Translate(ram, cr3, v / 4096).value;
      ram := ram[m.frame := ram[m.frame][v % 4096 / 4 := w]];
    }

    method StoreByte(v: Word, b: Byte)
      requires Mapped(ram, cr3, v)
      modifies this`ram
      ensures ram == StoreByteAt(old(ram), cr3, v, b)
    {
      var m := Translate(ram, cr3, v / 4096).value;
      ram := ram[m.frame := WithPageByte(ram[m.frame], v % 4096, b)];
    }

    /** memset in the current address space, one byte store at a time. */
    method Memset(value: Byte, address: Word, length: nat)
      requires SafeRange(ram, cr3, address, length)
      modifies this`ram
      ensures Written(old(ram), ram, cr3, address, seq(length, _ => value))
    {
      hide SafeRange, Written, StoreByteAt, Mapped;
      ghost var data := [];
      NothingWritten(ram, cr3, address);
      RangeEnds(ram, cr3, address, length);
      var i := 0;
      while i < length
        invariant 0 <= i <= length && |data| == i
        invariant forall k :: 0 <= k < i ==> data[k] == value
        invariant Written(old(ram), ram, cr3, address, data)
      {
        WrittenStep(old(ram), ram, cr3, address, data, length, value);
        StoreByte(address + i, value);
        data := data + [value];
        i := i + 1;
      }
      assert data == seq(length, _ => value);
    }

    /** memcpy into the current address space, one byte store at a time. */
    method CopyIn(address: Word, data: seq<Byte>)
      requires SafeRange(ram, cr3, address, |data|)
      modifies this`ram
      ensures Written(old(ram), ram, cr3, address, data)
    {
      hide SafeRange, Written, StoreByteAt, Mapped;
      NothingWritten(ram, cr3, address);
      RangeEnds(ram, cr3, address, |data|);
      var i := 0;
      assert data[..0] == [];
      while i < |data|
        invariant 0 <= i <= |data|
        invariant Written(old(ram), ram, cr3, address, data[..i])
      {
        ghost var done := data[..i];
        WrittenStep(old(ram), ram, cr3, address, done, |data|, data[i]);
        StoreByte(address + i, data[i]);
        assert data[..i + 1] == done + [data[i]];
        i := i + 1;
      }
      assert data[..i] == data;
    }
  }
}
