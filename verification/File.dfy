/** Reading and seeking in an open file: kernel/fs/file.c over the initial ram disk. */
module File {
  import opened Common
  import opened Initrd

  type Int32 = x: int | -0x8000_0000 <= x < 0x8000_0000

  datatype SeekType = SeekSet | SeekCur | SeekEnd | SeekOther

  /** The number of bytes file_read asks the file system for. */
  function ReadLength(offset: Word, size: Word, length: Word): Word {
    if length > Wrap32(size - offset) then Wrap32(size - offset) else length
  }

  /** Where a seek leaves the offset; None is INVALID_ARGUMENT. All arithmetic is unsigned, so the test for
      a negative SEEK_CUR target never fires. */
  function SeekTarget(offset: Word, size: Word, jmp: Int32, whence: SeekType): Option<Word> {
    match whence
    case SeekSet => if jmp < 0 || jmp >= size then None else Some(jmp)
    case SeekCur => if Wrap32(offset + jmp) >= size then None else Some(Wrap32(offset + jmp))
    case SeekEnd => if jmp <= 0 then Some(Wrap32(offset - jmp)) else None
    case SeekOther => None
  }

  class OpenFile {
    const inode: FsNode
    var offset: Word

    constructor (inode: FsNode)
      ensures this.inode == inode && offset == 0
    {
      this.inode := inode;
      offset := 0;
    }

    /** file_read: the bytes put in the buffer, whose number is the result. A buffer at address 0 is NULL. */
    method FileRead(mem: Memory, buffer: Word, length: Word) returns (data: seq<Byte>)
      modifies this`offset
      ensures data == if buffer == 0 then [] else
                        InitrdRead(mem, inode.size, inode.fsSpecific, old(offset),
                          ReadLength(old(offset), inode.size, length))
      ensures offset == Wrap32(old(offset) + |data|)
    {
      if buffer == 0 {
        return [];
      }
      var count := length;
      if count > Wrap32(inode.size - offset) {
        count := Wrap32(inode.size - offset);
      }
      data := InitrdRead(mem, inode.size, inode.fsSpecific, offset, count);
      offset := Wrap32(offset + |data|);
    }

    /** file_seek; on success the function returns no value, so only rejection is reported. */
    method FileSeek(jmp: Int32, whence: SeekType) returns (rejected: bool)
      modifies this`offset
      ensures rejected <==> SeekTarget(old(offset), inode.size, jmp, whence) == None
      ensures offset == if rejected then old(offset) else SeekTarget(old(offset), inode.size, jmp, whence).value
    {
      match whence {
      case SeekSet =>
        if jmp < 0 || jmp >= inode.size {
          return true;
        }
        offset := jmp;
      case SeekCur =>
        if Wrap32(offset + jmp) >= inode.size {
          return true;
        }
        offset := Wrap32(offset + jmp);
      case SeekEnd =>
        if jmp <= 0 {
          offset := Wrap32(offset - jmp);
        } else {
          return true;
        }
      case SeekOther =>
        return true;
      }
      return false;
    }
  }

  /* ---------- Runs of reads and seeks ---------- */

  datatype Call = Read(length: Word) | Seek(jmp: Int32, whence: SeekType)

  /** SEEK_SET and SEEK_CUR; SEEK_END is treated in SeekEndInRangeIff. */
  predicate Bounded(c: Call) {
    c.Seek? ==> c.whence == SeekSet || c.whence == SeekCur
  }

  /** What one call returns from a file at `a`, and the offset it leaves. */
  function Data(mem: Memory, a: Word, size: Word, offset: Word, c: Call): seq<Byte> {
    if c.Read? then InitrdRead(mem, size, a, offset, ReadLength(offset, size, c.length)) else []
  }

  function After(mem: Memory, a: Word, size: Word, offset: Word, c: Call): Word {
    match c
    case Read(_) => Wrap32(offset + |Data(mem, a, size, offset, c)|)
    case Seek(jmp, whence) =>
      match SeekTarget(offset, size, jmp, whence)
      case Some(o) => o
      case None => offset
  }

  function OffsetAfter(mem: Memory, a: Word, size: Word, offset: Word, calls: seq<Call>): Word
    decreases |calls|
  {
    if calls == [] then offset else OffsetAfter(mem, a, size, After(mem, a, size, offset, calls[0]), calls[1..])
  }

  /** One read of a backed file returns exactly the bytes from the offset to the end of the request or of
      the file. */
  lemma ReadExact(mem: Memory, a: Word, content: seq<Byte>, offset: Word, length: Word)
    requires Backed(mem, a, content) && offset <= |content|
    ensures Data(mem, a, |content|, offset, Read(length)) == content[offset..offset + Min(length, |content| - offset)]
    ensures After(mem, a, |content|, offset, Read(length)) == offset + Min(length, |content| - offset)
  {
    Wrap32Small(|content| - offset);
    var n := Min(length, |content| - offset);
    assert ReadLength(offset, |content|, length) == n;
    BackedRead(mem, a, content, offset, n);
    Wrap32Small(offset + n);
  }

  /** A read after a seek from the start that is in range begins at the byte of that number. */
  lemma SeekSetThenRead(mem: Memory, a: Word, content: seq<Byte>, offset: Word, jmp: Int32, length: Word)
    requires Backed(mem, a, content) && 0 <= jmp < |content|
    ensures DataAfterSeek(mem, a, |content|, offset, jmp, SeekSet, length)
         == content[jmp..jmp + Min(length, |content| - jmp)]
  {
    hide Backed, Data;
    ReadExact(mem, a, content, jmp, length);
  }

  /** A read after a seek from the current offset, forwards or back, that stays in the file begins at the sum. */
  lemma SeekCurThenRead(mem: Memory, a: Word, content: seq<Byte>, offset: Word, jmp: Int32, length: Word)
    requires Backed(mem, a, content) && 0 <= offset + jmp < |content|
    ensures DataAfterSeek(mem, a, |content|, offset, jmp, SeekCur, length)
         == content[offset + jmp..offset + jmp + Min(length, |content| - (offset + jmp))]
  {
    BackedFits(mem, a, content);
    var target: nat := offset + jmp;
    Wrap32Small(target);
    assert After(mem, a, |content|, offset, Seek(jmp, SeekCur)) == target;
    hide Backed, Data, After;
    ReadExact(mem, a, content, target, length);
  }

  /** A read after SEEK_END begins as far behind the current offset as the jump is negative, not at the end. */
  lemma SeekEndThenRead(mem: Memory, a: Word, content: seq<Byte>, offset: Word, jmp: Int32, length: Word)
    requires Backed(mem, a, content) && jmp <= 0 && offset - jmp <= |content|
    ensures DataAfterSeek(mem, a, |content|, offset, jmp, SeekEnd, length)
         == content[offset - jmp..offset - jmp + Min(length, |content| - (offset - jmp))]
  {
    BackedFits(mem, a, content);
    var target: nat := offset - jmp;
    Wrap32Small(target);
    assert After(mem, a, |content|, offset, Seek(jmp, SeekEnd)) == target;
    hide Backed, Data, After;
    ReadExact(mem, a, content, target, length);
  }

  lemma BackedFits(mem: Memory, a: Word, content: seq<Byte>)
    requires Backed(mem, a, content)
    ensures |content| < TWO_32
  {
  }

  /** What a read of `length` bytes returns right after a seek. */
  function DataAfterSeek(mem: Memory, a: Word, size: Word, offset: Word, jmp: Int32, whence: SeekType, length: Word):
    seq<Byte>
  {
    Data(mem, a, size, After(mem, a, size, offset, Seek(jmp, whence)), Read(length))
  }

  /** Which seeks are rejected, and then the offset stays. SEEK_SET takes exactly the positions in the file;
      SEEK_CUR takes those and, since it computes modulo 2^32, every target from 2^32 on and the negative ones
      that wrap into the file; SEEK_END takes every jump that is not positive; no other value is taken. */
  lemma SeekRejectedIff(mem: Memory, a: Word, offset: Word, size: Word, jmp: Int32, whence: SeekType)
    requires offset <= size
    ensures SeekTarget(offset, size, jmp, whence) == None <==>
            match whence
            case SeekSet => jmp < 0 || size <= jmp
            case SeekCur =>
              size <= offset + jmp < 0x1_0000_0000 || (offset + jmp < 0 && size <= offset + jmp + 0x1_0000_0000)
            case SeekEnd => 0 < jmp
            case SeekOther => true
    ensures SeekTarget(offset, size, jmp, whence) == None ==> After(mem, a, size, offset, Seek(jmp, whence)) == offset
  {
    var t: int := offset + jmp;
    if t < 0 {
      assert Wrap32(t) == t + 0x1_0000_0000;
    } else if t < 0x1_0000_0000 {
      Wrap32Small(t);
    } else {
      assert Wrap32(t) == t - 0x1_0000_0000;
    }
  }

  /** No bounded call leaves the offset past the end of the file. */
  lemma CallStaysInFile(mem: Memory, a: Word, content: seq<Byte>, offset: Word, c: Call)
    requires Backed(mem, a, content) && offset <= |content| && Bounded(c)
    ensures After(mem, a, |content|, offset, c) <= |content|
  {
    if c.Read? {
      ReadExact(mem, a, content, offset, c.length);
    }
  }

  /** The offset never passes the end of the file, so every read of every run is exact. */
  lemma {:induction false} RunStaysInFile(mem: Memory, a: Word, content: seq<Byte>, offset: Word, calls: seq<Call>)
    requires Backed(mem, a, content) && offset <= |content|
    requires forall c :: c in calls ==> Bounded(c)
    ensures OffsetAfter(mem, a, |content|, offset, calls) <= |content|
    ensures var o := OffsetAfter(mem, a, |content|, offset, calls);
            forall length: Word :: Data(mem, a, |content|, o, Read(length))
              == content[o..o + Min(length, |content| - o)]
    decreases |calls|
  {
    assert |content| < TWO_32;
    hide Backed, Data, After, Bounded;
    if calls == [] {
      forall length: Word
        ensures Data(mem, a, |content|, offset, Read(length))
            == content[offset..offset + Min(length, |content| - offset)]
      {
        ReadExact(mem, a, content, offset, length);
      }
    } else {
      assert Bounded(calls[0]);
      CallStaysInFile(mem, a, content, offset, calls[0]);
      var rest := calls[1..];
      forall c | c in rest
        ensures Bounded(c)
      {
        assert c in calls;
      }
      RunStaysInFile(mem, a, content, After(mem, a, |content|, offset, calls[0]), rest);
    }
  }

  /** The bytes a run of reads returns, in order. */
  function AllData(mem: Memory, a: Word, size: Word, offset: Word, lengths: seq<Word>): seq<Byte>
    decreases |lengths|
  {
    if lengths == [] then []
    else
      Data(mem, a, size, offset, Read(lengths[0]))
      + AllData(mem, a, size, After(mem, a, size, offset, Read(lengths[0])), lengths[1..])
  }

  function Total(lengths: seq<Word>): nat {
    if lengths == [] then 0 else lengths[0] + Total(lengths[1..])
  }

  lemma SlicesJoin(content: seq<Byte>, lo: nat, mid: nat, hi: nat)
    requires lo <= mid <= hi <= |content|
    ensures content[lo..mid] + content[mid..hi] == content[lo..hi]
  {
  }

  /** Consecutive reads concatenate to the file from where they start. */
  lemma {:induction false} ReadsConcatenate(mem: Memory, a: Word, content: seq<Byte>, offset: Word, lengths: seq<Word>)
    requires Backed(mem, a, content) && offset <= |content|
    ensures AllData(mem, a, |content|, offset, lengths)
        == content[offset..offset + Min(Total(lengths), |content| - offset)]
    decreases |lengths|
  {
    hide InitrdRead, Backed, Data, After;
    if lengths != [] {
      ReadExact(mem, a, content, offset, lengths[0]);
      var next := offset + Min(lengths[0], |content| - offset);
      ReadsConcatenate(mem, a, content, next, lengths[1..]);
      var end := offset + Min(Total(lengths), |content| - offset);
      assert next + Min(Total(lengths[1..]), |content| - next) == end;
      SlicesJoin(content, offset, next, end);
    }
  }

  /** SEEK_END moves on from the current offset without a bound: from within the file it stays within the
      file exactly when it is rejected, when it stops short of the end, or when it wraps past 2^32. */
  lemma SeekEndInRangeIff(offset: Word, size: Word, jmp: Int32)
    requires offset <= size
    ensures (match SeekTarget(offset, size, jmp, SeekEnd) case Some(o) => o <= size case None => true)
       <==> jmp > 0 || offset - jmp <= size || TWO_32 <= offset - jmp
  {
    if jmp <= 0 && offset - jmp < TWO_32 {
      Wrap32Small(offset - jmp);
    }
  }

  /** A SEEK_CUR whose true target is negative is accepted exactly when that target, wrapped, is inside the
      file, which takes a file larger than 2 GB. */
  lemma NegativeSeekAcceptedIff(offset: Word, size: Word, jmp: Int32)
    requires offset <= size && offset + jmp < 0
    ensures SeekTarget(offset, size, jmp, SeekCur).Some? <==> offset + jmp + TWO_32 < size
    ensures SeekTarget(offset, size, jmp, SeekCur).Some? ==> 0x8000_0000 < size
  {
    assert Wrap32(offset + jmp) == offset + jmp + TWO_32;
  }
}
