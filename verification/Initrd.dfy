/** The kernel's reader of the initial ram disk (kernel/fs/initrd.c) with the string functions it uses
    (libc/string.c), and the round trip with the writer. */
module Initrd {
  import opened Common
  import opened Paging
  import opened InitrdImage

  /** Byte-addressed kernel memory, as the reader sees it; addresses wrap modulo 2^32. */
  type Memory = Word -> Byte

  const SLASH: Byte := 47

  function At(mem: Memory, base: Word, i: nat): Byte {
    mem(Wrap32(base + i))
  }

  function ReadWord(mem: Memory, a: Word): Word {
    Word4(At(mem, a, 0), At(mem, a, 1), At(mem, a, 2), At(mem, a, 3))
  }

  /* ---------- Strings ---------- */

  /** A C string's value: no byte of it is NUL. */
  predicate IsString(s: seq<Byte>) {
    forall i :: 0 <= i < |s| ==> s[i] != 0
  }

  /** Character i of a string value, counting its terminator. */
  function CharAt(s: seq<Byte>, i: nat): Byte {
    if i < |s| then s[i] else 0
  }

  /** The bytes at `a` are the string s and a terminator. */
  ghost predicate HoldsString(mem: Memory, a: Word, s: seq<Byte>) {
    (forall i :: 0 <= i < |s| ==> At(mem, a, i) == s[i]) && At(mem, a, |s|) == 0
  }

  /** The strings first differ at i, a terminator counting as a character. */
  ghost predicate FirstDifference(mem: Memory, a: Word, s: seq<Byte>, i: nat) {
    i <= |s| && At(mem, a, i) != CharAt(s, i) && forall j :: 0 <= j < i ==> At(mem, a, j) == s[j] != 0
  }

  /** What strcmp returns for strings that first differ at i. */
  function OrderAt(mem: Memory, a: Word, s: seq<Byte>, i: nat): int {
    if At(mem, a, i) == 0 then -1
    else if CharAt(s, i) == 0 then 1
    else SignedChar(At(mem, a, i)) - SignedChar(CharAt(s, i))
  }

  function SignedChar(b: Byte): int {
    if b < 128 then b else b - 256
  }

  /** strcmp of the string in memory with a string value. */
  method StrCmp(mem: Memory, str1: Word, str2: seq<Byte>) returns (order: int)
    requires IsString(str2)
    ensures order == 0 <==> HoldsString(mem, str1, str2)
    ensures order != 0 ==> exists i: nat :: FirstDifference(mem, str1, str2, i) && order == OrderAt(mem, str1, str2, i)
  {
    var i := 0;
    while At(mem, str1, i) != 0 && CharAt(str2, i) != 0
      invariant 0 <= i <= |str2|
      invariant forall j :: 0 <= j < i ==> At(mem, str1, j) == str2[j]
      decreases |str2| - i
    {
      if At(mem, str1, i) != CharAt(str2, i) {
        assert FirstDifference(mem, str1, str2, i);
        return SignedChar(At(mem, str1, i)) - SignedChar(CharAt(str2, i));
      }
      i := i + 1;
    }
    assert At(mem, str1, i) != CharAt(str2, i) ==> FirstDifference(mem, str1, str2, i);
    if CharAt(str2, i) != 0 {
      return -1;
    }
    if At(mem, str1, i) != 0 {
      return 1;
    }
    return 0;
  }

  /** strlen, for memory known to hold the string s. */
  method StrLen(mem: Memory, str: Word, ghost s: seq<Byte>) returns (length: nat)
    requires IsString(s) && HoldsString(mem, str, s)
    ensures length == |s|
  {
    length := 0;
    while At(mem, str, length) != 0
      invariant 0 <= length <= |s|
      decreases |s| - length
    {
      length := length + 1;
    }
  }

  /* ---------- Looking up and reading a file ---------- */

  function InodeAddress(table: Word, i: nat): Word {
    Wrap32(table + INODE_SIZE * i)
  }

  /** Inode i of the table at `table` carries exactly this name. */
  ghost predicate NameMatches(mem: Memory, table: Word, i: nat, name: seq<Byte>) {
    HoldsString(mem, Wrap32(InodeAddress(table, i) + 8), name)
  }

  ghost predicate FirstMatch(mem: Memory, table: Word, n: nat, name: seq<Byte>, i: nat) {
    i < n && NameMatches(mem, table, i, name) && forall j :: 0 <= j < i ==> !NameMatches(mem, table, j, name)
  }

  method InitrdSearchInodeTable(mem: Memory, table: Word, n: nat, name: seq<Byte>) returns (found: Option<nat>)
    requires IsString(name)
    ensures found.Some? ==> FirstMatch(mem, table, n, name, found.value)
    ensures found.None? ==> forall j :: 0 <= j < n ==> !NameMatches(mem, table, j, name)
  {
    for i := 0 to n
      invariant forall j :: 0 <= j < i ==> !NameMatches(mem, table, j, name)
    {
      var order := StrCmp(mem, Wrap32(InodeAddress(table, i) + 8), name);
      if order == 0 {
        return Some(i);
      }
    }
    return None;
  }

  class FsNode {
    var name: seq<Byte>
    var size: Word
    /** The address of the file's first byte. */
    var fsSpecific: Word

    constructor ()
    {
      name, size, fsSpecific := [], 0, 0;
    }
  }

  /** "Ignore the '/' if given." */
  function FileName(path: seq<Byte>): seq<Byte> {
    if CharAt(path, 0) == SLASH then path[1..] else path
  }

  function FileAddress(mem: Memory, base: Word, i: nat): Word {
    Wrap32(base + 4 + ReadWord(mem, base) * INODE_SIZE + ReadWord(mem, InodeAddress(Wrap32(base + 4), i)))
  }

  function FileSize(mem: Memory, base: Word, i: nat): Word {
    ReadWord(mem, Wrap32(InodeAddress(Wrap32(base + 4), i) + 4))
  }

  /** Opening `path` on the image at `base` selects inode i. */
  ghost predicate Opens(mem: Memory, base: Word, path: seq<Byte>, i: nat) {
    FirstMatch(mem, Wrap32(base + 4), ReadWord(mem, base), FileName(path), i)
  }

  /** initrd_open; `room` is whether kmalloc finds room for the node. */
  method InitrdOpen(mem: Memory, base: Word, path: seq<Byte>, room: bool) returns (node: FsNode?)
    requires IsString(path)
    ensures node == null <==> !room || forall i: nat :: !Opens(mem, base, path, i)
    ensures node != null ==> fresh(node) && node.name == FileName(path)
    ensures node != null ==>
              exists i: nat :: Opens(mem, base, path, i)
                && node.size == FileSize(mem, base, i) && node.fsSpecific == FileAddress(mem, base, i)
  {
    hide ReadWord, Wrap32;
    var name := FileName(path);
    var n := ReadWord(mem, base);
    var found := InitrdSearchInodeTable(mem, Wrap32(base + 4), n, name);
    if found.None? {
      return null;
    }
    var i := found.value;
    assert Opens(mem, base, path, i);
    if !room {
      return null;
    }
    node := new FsNode();
    var inode: int := InodeAddress(Wrap32(base + 4), i);
    var length := StrLen(mem, Wrap32(inode + 8), name);
    node.name := CopyFrom(mem, Wrap32(inode + 8), length);
    assert node.name == name;
    node.fsSpecific := Wrap32(base + 4 + n * INODE_SIZE + ReadWord(mem, inode));
    node.size := ReadWord(mem, Wrap32(inode + 4));
  }

  /** The bytes memcpy copies. */
  function CopyFrom(mem: Memory, a: Word, n: nat): seq<Byte> {
    seq(n, i requires 0 <= i => At(mem, a, i))
  }

  /** initrd_read: the bytes copied to the caller's buffer; the return value is their number. The bound is
      checked modulo 2^32. */
  function InitrdRead(mem: Memory, size: Word, fsSpecific: Word, offset: Word, length: Word): seq<Byte> {
    if length == 0 then []
    else if size < Wrap32(offset + length) then []
    else CopyFrom(mem, Wrap32(fsSpecific + offset), length)
  }

  /* ---------- The round trip ---------- */

  /** The image is loaded at `base` and does not reach past the end of memory. */
  ghost predicate LoadedAt(mem: Memory, base: Word, image: seq<Byte>) {
    base + |image| <= TWO_32 && forall i :: 0 <= i < |image| ==> At(mem, base, i) == image[i]
  }

  lemma WordAt(mem: Memory, a: Word, x: Word)
    requires forall k :: 0 <= k < 4 ==> At(mem, a, k) == Pack(x)[k]
    ensures ReadWord(mem, a) == x
  {
    assert At(mem, a, 0) == ByteOf(x, 0) && At(mem, a, 1) == ByteOf(x, 1);
    assert At(mem, a, 2) == ByteOf(x, 2) && At(mem, a, 3) == ByteOf(x, 3);
    BytesOfWord(x);
  }

  /** A slice of the loaded image, read byte by byte. */
  lemma SliceAt(mem: Memory, base: Word, image: seq<Byte>, lo: nat, hi: nat)
    requires LoadedAt(mem, base, image) && lo <= hi <= |image|
    ensures forall k :: 0 <= k < hi - lo ==> At(mem, Wrap32(base + lo), k) == image[lo..hi][k]
  {
    forall k | 0 <= k < hi - lo
      ensures At(mem, Wrap32(base + lo), k) == image[lo..hi][k]
    {
      assert At(mem, base, lo + k) == image[lo + k];
      assert base + lo < TWO_32;
      Wrap32Small(base + lo);
    }
  }

  lemma CountDecoded(files: seq<SourceFile>, mem: Memory, base: Word)
    requires Packable(files) && LoadedAt(mem, base, Image(files))
    ensures ReadWord(mem, base) == |files|
  {
    hide Image, Pack, ReadWord;
    ImageCount(files);
    SliceAt(mem, base, Image(files), 0, 4);
    Wrap32Small(base);
    WordAt(mem, base, |files|);
  }

  /** Inode i as the reader decodes it. */
  lemma InodeDecoded(files: seq<SourceFile>, mem: Memory, base: Word, i: nat)
    requires Packable(files) && LoadedAt(mem, base, Image(files)) && i < |files|
    ensures ReadWord(mem, base) == |files|
    ensures base + InodeStart(i) + INODE_SIZE <= TWO_32 && |files[i].name| <= NAME_SIZE
    ensures InodeAddress(Wrap32(base + 4), i) == base + InodeStart(i)
    ensures FileSize(mem, base, i) == |files[i].content|
    ensures FileAddress(mem, base, i) == Wrap32(base + DataStart(files, i))
    ensures forall k :: 0 <= k < NAME_SIZE ==> At(mem, base + InodeStart(i) + 8, k) == RawName(files[i].name)[k]
  {
    hide Packable, Image, InodeToRaw, RawName, Pack, Offset, ReadWord, Wrap32;
    PackableAt(files, i);
    ImageLayout(files, i);
    var image, a := Image(files), InodeStart(i);
    var raw := InodeToRaw(files[i].name, Offset(files, i), |files[i].content|);
    SliceAt(mem, base, image, 0, 4);
    WordAt(mem, base, |files|);
    SliceAt(mem, base, image, a, a + INODE_SIZE);
    Wrap32Small(base + 4);
    Wrap32Small(base + a);
    Wrap32Small(base + a + 4);
    Wrap32Small(base + a + 8);
    FieldsOf(mem, base + a, raw);
    WordAt(mem, base + a, Offset(files, i));
    WordAt(mem, base + a + 4, |files[i].content|);
  }

  /** The three fields of an inode stored at a. */
  lemma FieldsOf(mem: Memory, a: nat, raw: seq<Byte>)
    requires a + INODE_SIZE <= TWO_32 && |raw| == INODE_SIZE
    requires forall k :: 0 <= k < INODE_SIZE ==> At(mem, a, k) == raw[k]
    ensures forall k :: 0 <= k < 4 ==> At(mem, a, k) == raw[..4][k] && At(mem, a + 4, k) == raw[4..8][k]
    ensures forall k :: 0 <= k < NAME_SIZE ==> At(mem, a + 8, k) == raw[8..][k]
  {
    forall k | 0 <= k < 4
      ensures At(mem, a + 4, k) == raw[4..8][k]
    {
      assert At(mem, a, 4 + k) == raw[4 + k];
    }
    forall k | 0 <= k < NAME_SIZE
      ensures At(mem, a + 8, k) == raw[8..][k]
    {
      assert At(mem, a, 8 + k) == raw[8 + k];
    }
  }

  /** Base names the format has room for, terminator included. */
  predicate ShortNames(files: seq<SourceFile>) {
    forall i :: 0 <= i < |files| ==> |files[i].name| < NAME_SIZE && IsString(files[i].name)
  }

  /** A name field with room for the terminator holds its own name and no other. */
  lemma FieldHolds(mem: Memory, a: Word, own: seq<Byte>, name: seq<Byte>)
    requires |own| < NAME_SIZE && IsString(own) && IsString(name)
    requires forall k :: 0 <= k < NAME_SIZE ==> At(mem, a, k) == RawName(own)[k]
    ensures HoldsString(mem, a, name) <==> own == name
  {
    assert forall k :: 0 <= k < |own| ==> RawName(own)[k] == RawName(own)[..|own|][k];
    assert HoldsString(mem, a, own);
    if HoldsString(mem, a, name) {
      OneString(mem, a, own, name);
    }
  }

  /** An address holds at most one string. */
  lemma OneString(mem: Memory, a: Word, s: seq<Byte>, t: seq<Byte>)
    requires IsString(s) && IsString(t) && HoldsString(mem, a, s) && HoldsString(mem, a, t)
    ensures s == t
  {
    assert |s| == |t|;
  }

  /** Any name field holds its own name exactly when a zero byte follows the name. */
  lemma FullFieldHolds(mem: Memory, a: Word, own: seq<Byte>)
    requires |own| <= NAME_SIZE
    requires forall k :: 0 <= k < NAME_SIZE ==> At(mem, a, k) == RawName(own)[k]
    ensures HoldsString(mem, a, own) <==> |own| < NAME_SIZE || At(mem, a, NAME_SIZE) == 0
  {
    assert forall k :: 0 <= k < |own| ==> RawName(own)[k] == RawName(own)[..|own|][k];
  }

  /** With room for the terminator, inode i matches exactly the name it was written with. */
  lemma NameMatchesIff(files: seq<SourceFile>, mem: Memory, base: Word, i: nat, name: seq<Byte>)
    requires Packable(files) && LoadedAt(mem, base, Image(files)) && i < |files|
    requires |files[i].name| < NAME_SIZE && IsString(files[i].name) && IsString(name)
    ensures NameMatches(mem, Wrap32(base + 4), i, name) <==> files[i].name == name
  {
    hide Packable, Image, LoadedAt, At, HoldsString, ReadWord, RawName;
    InodeDecoded(files, mem, base, i);
    Wrap32Small(base + InodeStart(i) + 8);
    FieldHolds(mem, base + InodeStart(i) + 8, files[i].name, name);
  }

  /** The byte behind the name field of inode i: the low byte of the next inode's offset; behind the last
      inode the first content byte, the padding, or whatever follows an image that needs none. */
  function ByteAfterName(files: seq<SourceFile>, mem: Memory, base: Word, i: nat): Byte
    requires Packable(files) && i < |files|
  {
    if i + 1 < |files| then Offset(files, i + 1) % 256
    else if Offset(files, |files|) > 0 then Contents(files, |files|)[0]
    else if Padding(|Body(files)|) > 0 then GARBAGE
    else At(mem, base, |Image(files)|)
  }

  /** A name that fills its whole field has no terminator of its own: the writer accepts it, and the reader
      finds it exactly when the byte after its field is zero. */
  lemma FullNameFoundIff(files: seq<SourceFile>, mem: Memory, base: Word, i: nat)
    requires Packable(files) && LoadedAt(mem, base, Image(files)) && i < |files|
    requires IsString(files[i].name)
    ensures NameMatches(mem, Wrap32(base + 4), i, files[i].name)
       <==> |files[i].name| < NAME_SIZE || ByteAfterName(files, mem, base, i) == 0
  {
    hide Packable, Image, At, HoldsString, ReadWord, RawName, Offset, ByteAfterName;
    InodeDecoded(files, mem, base, i);
    var a := base + InodeStart(i) + 8;
    Wrap32Small(a);
    FullFieldHolds(mem, a, files[i].name);
    if i + 1 < |files| {
      NextOffsetByte(files, mem, base, i);
    } else {
      LastNameByte(files, mem, base);
    }
  }

  /** Twenty letters for the name of a file of one byte, and a second file: the first is written and not found. */
  lemma FullNameNotFound(mem: Memory, base: Word)
    requires Packable(TwoFiles()) && LoadedAt(mem, base, Image(TwoFiles()))
    ensures !NameMatches(mem, Wrap32(base + 4), 0, TwoFiles()[0].name)
  {
    var files := TwoFiles();
    assert Offset(files, 1) == Offset(files, 0) + 1 == 1;
    FullNameFoundIff(files, mem, base, 0);
  }

  function TwoFiles(): (files: seq<SourceFile>)
    ensures Packable(files)
  {
    var files := [SourceFile(seq(20, _ => 97), [0]), SourceFile([98], [])];
    assert Offset(files, 0) == 0 && Offset(files, 1) == 1;
    files
  }

  /** Behind the last inode: the position of the first content byte. */
  lemma LastNameByte(files: seq<SourceFile>, mem: Memory, base: Word)
    requires Packable(files) && LoadedAt(mem, base, Image(files)) && 0 < |files|
    requires base + InodeStart(|files| - 1) + 8 < TWO_32
    ensures At(mem, base + InodeStart(|files| - 1) + 8, NAME_SIZE) == ByteAfterName(files, mem, base, |files| - 1)
  {
    var image, body, at := Image(files), Body(files), DataStart(files, 0);
    assert at == InodeStart(|files| - 1) + 8 + NAME_SIZE;
    hide Packable, Offset, Pack, Table;
    if Offset(files, |files|) > 0 {
      assert body[at] == Contents(files, |files|)[0];
      assert image[at] == image[..|body|][at];
      assert At(mem, base, at) == image[at];
    } else if Padding(|body|) > 0 {
      assert at == |body| && image[at] == GARBAGE;
      assert At(mem, base, at) == image[at];
    }
  }

  lemma FirstPackedByte(x: Word)
    ensures Pack(x)[0] == x % 256
  {
  }

  lemma NextOffsetByte(files: seq<SourceFile>, mem: Memory, base: Word, i: nat)
    requires Packable(files) && LoadedAt(mem, base, Image(files)) && i + 1 < |files|
    ensures base + InodeStart(i) + 8 + NAME_SIZE < TWO_32
    ensures At(mem, base + InodeStart(i) + 8, NAME_SIZE) == Offset(files, i + 1) % 256
        == ByteAfterName(files, mem, base, i)
  {
    hide Packable, Image, Offset, InodeToRaw, RawName, Pack;
    PackableAt(files, i + 1);
    ImageLayout(files, i + 1);
    var image, next, offset := Image(files), InodeStart(i + 1), Offset(files, i + 1);
    var raw := InodeToRaw(files[i + 1].name, offset, |files[i + 1].content|);
    FirstPackedByte(offset);
    assert raw[..4][0] == raw[0];
    assert image[next..next + INODE_SIZE][0] == image[next];
    assert At(mem, base, next) == image[next];
  }

  ghost predicate FirstNamed(files: seq<SourceFile>, name: seq<Byte>, i: nat) {
    i < |files| && files[i].name == name && forall j :: 0 <= j < i ==> files[j].name != name
  }

  lemma FileNameIsString(path: seq<Byte>)
    requires IsString(path)
    ensures IsString(FileName(path))
  {
  }

  /** Opening a name finds the first file written under it, and nothing when there is none. */
  lemma OpenFindsFirst(files: seq<SourceFile>, mem: Memory, base: Word, path: seq<Byte>, i: nat)
    requires Packable(files) && ShortNames(files) && LoadedAt(mem, base, Image(files)) && IsString(path)
    ensures Opens(mem, base, path, i) <==> FirstNamed(files, FileName(path), i)
  {
    hide Packable, Image, Offset, LoadedAt, ReadWord, Wrap32, InodeAddress, FileName, HoldsString;
    var name, table := FileName(path), Wrap32(base + 4);
    FileNameIsString(path);
    CountDecoded(files, mem, base);
    forall j: nat | j < |files|
      ensures NameMatches(mem, table, j, name) <==> files[j].name == name
    {
      NameMatchesIff(files, mem, base, j, name);
    }
    if Opens(mem, base, path, i) {
      forall j | 0 <= j < i
        ensures files[j].name != name
      {
        assert !NameMatches(mem, table, j, name);
      }
    } else if FirstNamed(files, name, i) {
      forall j | 0 <= j < i
        ensures !NameMatches(mem, table, j, name)
      {
        assert files[j].name != name;
      }
    }
  }

  /** A name opens the first file written under it with a slash in front and, unless it starts with a slash itself,
      without one. */
  lemma SlashIgnored(files: seq<SourceFile>, mem: Memory, base: Word, name: seq<Byte>, i: nat)
    requires Packable(files) && ShortNames(files) && LoadedAt(mem, base, Image(files)) && IsString(name)
    ensures Opens(mem, base, [47] + name, i) <==> FirstNamed(files, name, i)
    ensures name == [] || name[0] != 47 ==> (Opens(mem, base, name, i) <==> FirstNamed(files, name, i))
  {
    var path := [47] + name;
    assert path[1..] == name;
    assert IsString(path);
    hide Packable, Image, LoadedAt, Opens, ShortNames;
    OpenFindsFirst(files, mem, base, path, i);
    OpenFindsFirst(files, mem, base, name, i);
  }

  /** The whole round trip: what a non-wrapping, in-range read of an opened name returns is that slice of
      the first file with the name. */
  lemma InitrdRoundTrip(files: seq<SourceFile>, mem: Memory, base: Word, path: seq<Byte>, i: nat, offset: Word,
                        length: Word)
    requires Packable(files) && ShortNames(files) && LoadedAt(mem, base, Image(files)) && IsString(path)
    requires Opens(mem, base, path, i)
    requires i < |files| ==> offset + length <= |files[i].content|
    ensures FirstNamed(files, FileName(path), i)
    ensures InitrdRead(mem, FileSize(mem, base, i), FileAddress(mem, base, i), offset, length)
         == files[i].content[offset..offset + length]
  {
    OpenFindsFirst(files, mem, base, path, i);
    InodeDecoded(files, mem, base, i);
    FileLoaded(files, mem, base, i);
    BackedRead(mem, FileAddress(mem, base, i), files[i].content, offset, length);
  }

  /** The bytes at `a` are `content`. */
  ghost predicate Backed(mem: Memory, a: Word, content: seq<Byte>) {
    |content| < TWO_32 && forall k :: 0 <= k < |content| ==> At(mem, a, k) == content[k]
  }

  lemma FileLoaded(files: seq<SourceFile>, mem: Memory, base: Word, i: nat)
    requires Packable(files) && LoadedAt(mem, base, Image(files)) && i < |files|
    ensures Backed(mem, Wrap32(base + DataStart(files, i)), files[i].content)
  {
    hide Packable, Image, Offset;
    ImageLayout(files, i);
    SliceAt(mem, base, Image(files), DataStart(files, i), DataStart(files, i) + |files[i].content|);
  }

  /** initrd_read on a backed file: in range it returns the slice. */
  lemma BackedRead(mem: Memory, a: Word, content: seq<Byte>, offset: Word, length: Word)
    requires Backed(mem, a, content) && offset + length <= |content|
    ensures InitrdRead(mem, |content|, a, offset, length) == content[offset..offset + length]
  {
    Wrap32Small(offset + length);
    if length > 0 {
      var copied := CopyFrom(mem, Wrap32(a + offset), length);
      forall k | 0 <= k < length
        ensures copied[k] == content[offset..offset + length][k]
      {
        assert At(mem, a, offset + k) == content[offset + k];
        WrapSum(a, offset, k);
      }
    }
  }

  lemma WrapSum(a: nat, b: nat, c: nat)
    ensures Wrap32(Wrap32(a + b) + c) == Wrap32(a + (b + c))
  {
  }

  /** The bound check wraps: a read that ends past 2^32 is let through exactly when its wrapped end is
      within the file, and an in-range answer is returned exactly when the true end is. */
  lemma ReadAcceptedIff(mem: Memory, size: Word, a: Word, offset: Word, length: Word)
    requires 0 < length
    ensures |InitrdRead(mem, size, a, offset, length)| == length
       <==> offset + length <= size || TWO_32 <= offset + length <= TWO_32 + size
  {
  }

  /** A read is refused as a whole or returns the bytes from the offset on, whether or not its end wrapped. */
  lemma ReadBytes(mem: Memory, size: Word, a: Word, offset: Word, length: Word)
    ensures var r := InitrdRead(mem, size, a, offset, length);
            (r == [] || |r| == length) && forall k: nat :: k < |r| ==> r[k] == At(mem, a, offset + k)
  {
    var r := InitrdRead(mem, size, a, offset, length);
    forall k: nat | k < |r|
      ensures r[k] == At(mem, a, offset + k)
    {
      WrapSum(a, offset, k);
    }
  }
}
