/** The initial ram disk as rootfs/initrd_gen.py writes it: a count, a table of 28-byte inodes, the file
    contents back to back, and padding to a whole number of pages. */
module InitrdImage {
  import opened Common
  import opened Paging

  const NAME_SIZE: nat := 20
  const INODE_SIZE: nat := 28
  const GARBAGE: Byte := 85

  datatype SourceFile = SourceFile(name: seq<Byte>, content: seq<Byte>)

  /** struct.pack('I', x) */
  function Pack(x: Word): (r: seq<Byte>)
    ensures |r| == 4
  {
    [ByteOf(x, 0), ByteOf(x, 1), ByteOf(x, 2), ByteOf(x, 3)]
  }

  lemma BytesOfWord(x: Word)
    ensures x == Word4(ByteOf(x, 0), ByteOf(x, 1), ByteOf(x, 2), ByteOf(x, 3))
  {
    var q := x / 256;
    var r := q / 256;
    assert x == 256 * q + x % 256 && q == 256 * r + q % 256 && r == 256 * (r / 256) + r % 256;
  }

  /** create_string_buffer(name, NAME_SIZE).raw, for a name that fits. */
  function RawName(name: seq<Byte>): (r: seq<Byte>)
    requires |name| <= NAME_SIZE
    ensures |r| == NAME_SIZE && r[..|name|] == name && forall i :: |name| <= i < NAME_SIZE ==> r[i] == 0
  {
    name + seq(NAME_SIZE - |name|, _ => 0)
  }

  function InodeToRaw(name: seq<Byte>, offset: Word, size: Word): (r: seq<Byte>)
    requires |name| <= NAME_SIZE
    ensures |r| == INODE_SIZE
    ensures r[..4] == Pack(offset) && r[4..8] == Pack(size) && r[8..] == RawName(name)
  {
    Pack(offset) + Pack(size) + RawName(name)
  }

  /** The summed sizes of the first k files. */
  function Offset(files: seq<SourceFile>, k: nat): nat
    requires k <= |files|
  {
    if k == 0 then 0 else Offset(files, k - 1) + |files[k - 1].content|
  }

  /** What the script needs to get through: names that fit and numbers that pack. */
  predicate Packable(files: seq<SourceFile>) {
    && (forall i :: 0 <= i < |files| ==> |files[i].name| <= NAME_SIZE && |files[i].content| < TWO_32)
    && |files| < TWO_32
    && (forall i :: 0 <= i < |files| ==> Offset(files, i) < TWO_32)
  }

  /** The first k inodes. */
  function Table(files: seq<SourceFile>, k: nat): (r: seq<Byte>)
    requires Packable(files) && k <= |files|
    ensures |r| == INODE_SIZE * k
  {
    if k == 0 then []
    else Table(files, k - 1) + InodeToRaw(files[k - 1].name, Offset(files, k - 1), |files[k - 1].content|)
  }

  /** The contents of the first k files. */
  function Contents(files: seq<SourceFile>, k: nat): (r: seq<Byte>)
    requires k <= |files|
    ensures |r| == Offset(files, k)
  {
    if k == 0 then [] else Contents(files, k - 1) + files[k - 1].content
  }

  /** The image before padding. */
  function Body(files: seq<SourceFile>): (r: seq<Byte>)
    requires Packable(files)
    ensures |r| == 4 + INODE_SIZE * |files| + Offset(files, |files|)
  {
    Pack(|files|) + Table(files, |files|) + Contents(files, |files|)
  }

  /** How many padding bytes bring `size` to a page multiple. */
  function Padding(size: nat): (p: nat)
    ensures (size + p) % PAGE_SIZE == 0 && p < PAGE_SIZE
  {
    if size % PAGE_SIZE == 0 then 0 else PAGE_SIZE - size % PAGE_SIZE
  }

  function Padded(body: seq<Byte>): (r: seq<Byte>)
    ensures |r| == |body| + Padding(|body|) && r[..|body|] == body && forall i :: |body| <= i < |r| ==> r[i] == 85
  {
    body + seq(Padding(|body|), _ => GARBAGE)
  }

  /** The image, as the script leaves it. */
  function Image(files: seq<SourceFile>): (r: seq<Byte>)
    requires Packable(files)
    ensures |r| % PAGE_SIZE == 0 && |Body(files)| <= |r| < |Body(files)| + PAGE_SIZE
  {
    Padded(Body(files))
  }

  /* ---------- The script ---------- */

  /** The accumulate generator: running totals. */
  method Accumulate(sizes: seq<nat>) returns (totals: seq<nat>)
    ensures |totals| == |sizes|
    ensures forall i :: 0 <= i < |sizes| ==> totals[i] == Sum(sizes, i + 1)
  {
    var total := 0;
    totals := [];
    for i := 0 to |sizes|
      invariant |totals| == i && total == Sum(sizes, i)
      invariant forall j :: 0 <= j < i ==> totals[j] == Sum(sizes, j + 1)
    {
      total := total + sizes[i];
      totals := totals + [total];
    }
  }

  function Sum(sizes: seq<nat>, k: nat): nat
    requires k <= |sizes|
  {
    if k == 0 then 0 else Sum(sizes, k - 1) + sizes[k - 1]
  }

  /** The offset list: sizes shifted right by one, accumulated. */
  method FileOffsets(files: seq<SourceFile>) returns (offsets: seq<nat>)
    ensures |offsets| == |files| && forall i :: 0 <= i < |files| ==> offsets[i] == Offset(files, i)
  {
    var sizes: seq<nat> := seq(|files|, i requires 0 <= i < |files| => |files[i].content|);
    var shifted: seq<nat> := [0] + sizes;
    shifted := shifted[..|shifted| - 1];
    offsets := Accumulate(shifted);
    forall i | 0 <= i < |files|
      ensures offsets[i] == Offset(files, i)
    {
      ShiftedSums(files, sizes, shifted, i);
    }
  }

  /** The inode table; None when a name or number does not fit. */
  method InodesTable(files: seq<SourceFile>, offsets: seq<nat>) returns (table: Option<seq<Byte>>)
    requires |offsets| == |files| && forall i :: 0 <= i < |files| ==> offsets[i] == Offset(files, i)
    requires |files| < TWO_32
    ensures table == if Packable(files) then Some(Table(files, |files|)) else None
  {
    var bytes: seq<Byte> := [];
    for i := 0 to |files|
      invariant forall j :: 0 <= j < i ==> |files[j].name| <= NAME_SIZE && |files[j].content| < TWO_32
      invariant forall j :: 0 <= j < i ==> Offset(files, j) < TWO_32
      invariant Packable(files) ==> bytes == Table(files, i)
    {
      if |files[i].name| > NAME_SIZE || |files[i].content| >= TWO_32 || offsets[i] >= TWO_32 {
        return None;
      }
      bytes := bytes + InodeToRaw(files[i].name, offsets[i], |files[i].content|);
    }
    return Some(bytes);
  }

  /** The trailing write that aligns the image to 4 KB. */
  method AlignImage(body: seq<Byte>) returns (image: seq<Byte>)
    ensures image == Padded(body)
  {
    image := body;
    var size := |body|;
    if size % 4096 != 0 {
      var alignedSize := PageBoundary(size);
      if alignedSize < size {
        alignedSize := alignedSize + PAGE_SIZE;
      }
      assert alignedSize - size == Padding(size);
      image := image + seq(alignedSize - size, _ => GARBAGE);
    }
  }

  /** create_initrd. None is an exception: a name longer than its field or a number that does not pack. */
  method CreateInitrd(files: seq<SourceFile>) returns (image: Option<seq<Byte>>)
    ensures image == if Packable(files) then Some(Image(files)) else None
  {
    if |files| >= TWO_32 {
      return None;
    }
    var offsets := FileOffsets(files);
    var table := InodesTable(files, offsets);
    if table == None {
      return None;
    }
    var body := AppendContents(Pack(|files|) + table.value, files);
    assert body == Body(files);
    var padded := AlignImage(body);
    return Some(padded);
  }

  /** The loop that appends every file. */
  method AppendContents(start: seq<Byte>, files: seq<SourceFile>) returns (body: seq<Byte>)
    ensures body == start + Contents(files, |files|)
  {
    body := start;
    for i := 0 to |files|
      invariant body == start + Contents(files, i)
    {
      body := body + files[i].content;
    }
  }

  /** Inserting a zero in front and dropping the last size turns running totals into offsets. */
  lemma {:induction false} ShiftedSums(files: seq<SourceFile>, sizes: seq<nat>, shifted: seq<nat>, i: nat)
    requires |sizes| == |files| == |shifted| && i < |files|
    requires forall j :: 0 <= j < |files| ==> sizes[j] == |files[j].content|
    requires shifted == ([0] + sizes)[..|files|]
    ensures Sum(shifted, i + 1) == Offset(files, i)
  {
    if i > 0 {
      ShiftedSums(files, sizes, shifted, i - 1);
      assert shifted[i] == sizes[i - 1];
    } else {
      assert shifted[0] == 0;
      assert Sum(shifted, 1) == Sum(shifted, 0) + shifted[0];
    }
  }

  /* ---------- Where things are in the image ---------- */

  lemma {:induction false} InodeInTable(files: seq<SourceFile>, k: nat, i: nat)
    requires Packable(files) && i < k <= |files|
    ensures INODE_SIZE * i + INODE_SIZE <= |Table(files, k)|
    ensures Table(files, k)[INODE_SIZE * i..INODE_SIZE * i + INODE_SIZE]
         == InodeToRaw(files[i].name, Offset(files, i), |files[i].content|)
    decreases k
  {
    if i < k - 1 {
      InodeInTable(files, k - 1, i);
    }
  }

  lemma {:induction false} FileInContents(files: seq<SourceFile>, k: nat, i: nat)
    requires i < k <= |files|
    ensures Offset(files, i) + |files[i].content| <= |Contents(files, k)|
    ensures Contents(files, k)[Offset(files, i)..Offset(files, i) + |files[i].content|] == files[i].content
    decreases k
  {
    if i < k - 1 {
      FileInContents(files, k - 1, i);
    }
  }

  /** Where inode i starts, and where its file's bytes start. */
  function InodeStart(i: nat): nat {
    4 + INODE_SIZE * i
  }

  function DataStart(files: seq<SourceFile>, i: nat): nat
    requires i <= |files|
  {
    4 + INODE_SIZE * |files| + Offset(files, i)
  }

  lemma BodyInode(files: seq<SourceFile>, i: nat)
    requires Packable(files) && i < |files|
    ensures InodeStart(i) + INODE_SIZE <= |Body(files)| && Body(files)[0..4] == Pack(|files|)
    ensures Body(files)[InodeStart(i)..InodeStart(i) + INODE_SIZE]
         == InodeToRaw(files[i].name, Offset(files, i), |files[i].content|)
  {
    hide InodeToRaw, Table, Contents, Offset, Pack;
    InodeInTable(files, |files|, i);
    ThreeParts(Body(files), Pack(|files|), Table(files, |files|), Contents(files, |files|), INODE_SIZE * i, INODE_SIZE,
      0, 0);
  }

  lemma BodyData(files: seq<SourceFile>, i: nat)
    requires Packable(files) && i < |files|
    ensures DataStart(files, i) + |files[i].content| <= |Body(files)|
    ensures Body(files)[DataStart(files, i)..DataStart(files, i) + |files[i].content|] == files[i].content
  {
    hide InodeToRaw, Table, Contents, Offset, Pack;
    FileInContents(files, |files|, i);
    ThreeParts(Body(files), Pack(|files|), Table(files, |files|), Contents(files, |files|), 0, 0,
               Offset(files, i), |files[i].content|);
  }

  lemma ThreeParts(body: seq<Byte>, count: seq<Byte>, table: seq<Byte>, contents: seq<Byte>, at: nat, n: nat,
                   from: nat, m: nat)
    requires body == count + table + contents && |count| == 4 && at + n <= |table| && from + m <= |contents|
    ensures body[0..4] == count && body[4 + at..4 + at + n] == table[at..at + n]
    ensures body[4 + |table| + from..4 + |table| + from + m] == contents[from..from + m]
  {
    BodySlices(count, table, contents, at, n, from, m);
  }

  /** The count, every inode and every file are where the reader computes them to be. */
  lemma ImageLayout(files: seq<SourceFile>, i: nat)
    requires Packable(files) && i < |files|
    ensures InodeStart(i) + INODE_SIZE <= DataStart(files, 0)
    ensures DataStart(files, i) + |files[i].content| <= |Image(files)|
    ensures Image(files)[0..4] == Pack(|files|)
    ensures Image(files)[InodeStart(i)..InodeStart(i) + INODE_SIZE]
         == InodeToRaw(files[i].name, Offset(files, i), |files[i].content|)
    ensures Image(files)[DataStart(files, i)..DataStart(files, i) + |files[i].content|] == files[i].content
  {
    hide Body, Pack, InodeToRaw;
    BodyInode(files, i);
    BodyData(files, i);
    var image, body := Image(files), Body(files);
    PrefixSlice(image, body, 0, 4);
    PrefixSlice(image, body, InodeStart(i), InodeStart(i) + INODE_SIZE);
    PrefixSlice(image, body, DataStart(files, i), DataStart(files, i) + |files[i].content|);
  }

  /** A file alone fits exactly when its name has at most 20 bytes and its size is below 2^32. */
  lemma OneFilePackableIff(f: SourceFile)
    ensures Packable([f]) <==> |f.name| <= 20 && |f.content| < 0x1_0000_0000
  {
    var files := [f];
    assert Offset(files, 0) == 0;
    assert Packable(files) ==> |files[0].name| <= NAME_SIZE && |files[0].content| < TWO_32;
  }

  lemma ContentsStep(files: seq<SourceFile>, k: nat)
    requires k < |files|
    ensures Contents(files, k + 1) == Contents(files, k) + files[k].content
  {
  }

  /** The contents stand one after the other in the order of the files. */
  lemma {:induction false} ContentsInOrder(a: seq<SourceFile>, b: seq<SourceFile>, k: nat)
    requires k <= |b|
    ensures Contents(a + b, |a| + k) == Contents(a, |a|) + Contents(b, k)
    decreases k
  {
    hide Offset;
    if k == 0 {
      ContentsOfPrefix(a, b, |a|);
      assert Contents(b, 0) == [];
    } else {
      hide Contents;
      ContentsInOrder(a, b, k - 1);
      ContentsStep(a + b, |a| + k - 1);
      ContentsStep(b, k - 1);
      assert (a + b)[|a| + k - 1] == b[k - 1];
      Regroup(Contents(a, |a|), Contents(b, k - 1), b[k - 1].content);
    }
  }

  lemma Regroup(a: seq<Byte>, b: seq<Byte>, c: seq<Byte>)
    ensures (a + b) + c == a + (b + c)
  {
  }

  lemma {:induction false} ContentsOfPrefix(a: seq<SourceFile>, b: seq<SourceFile>, k: nat)
    requires k <= |a|
    ensures Contents(a + b, k) == Contents(a, k)
  {
    if k > 0 {
      ContentsOfPrefix(a, b, k - 1);
    }
  }

  lemma PackableAt(files: seq<SourceFile>, i: nat)
    requires Packable(files) && i < |files|
    ensures |files[i].name| <= NAME_SIZE && |files[i].content| < TWO_32 && Offset(files, i) < TWO_32 && |files| < TWO_32
  {
  }

  /** Inodes are 28 bytes apart behind the count: two words, then the name in 20 bytes filled up with zeros. */
  lemma InodeBytes(files: seq<SourceFile>, i: nat)
    requires Packable(files) && i < |files|
    ensures |files[i].name| <= 20 && |files[i].content| < TWO_32 && Offset(files, i) < TWO_32
    ensures var at, image := 4 + 28 * i, Image(files);
            at + 28 <= |image| && InodeOf(image[at..at + 28], files[i], Offset(files, i))
  {
    PackableAt(files, i);
    ImageLayout(files, i);
    hide Image, Pack, Offset, Packable, InodeOf, InodeToRaw;
    RawFields(files[i], Offset(files, i));
  }

  /** The 28 bytes of an inode. */
  predicate InodeOf(raw: seq<Byte>, f: SourceFile, offset: Word)
    requires |raw| == 28 && |f.name| <= 20 && |f.content| < TWO_32
  {
    raw[..4] == Pack(offset) && raw[4..8] == Pack(|f.content|) && raw[8..] == f.name + seq(20 - |f.name|, _ => 0)
  }

  lemma RawFields(f: SourceFile, offset: Word)
    requires |f.name| <= 20 && |f.content| < TWO_32
    ensures InodeOf(InodeToRaw(f.name, offset, |f.content|), f, offset)
  {
    var zeros: seq<Byte> := seq(20 - |f.name|, _ => 0);
    assert RawName(f.name) == f.name + zeros;
  }

  /** The files stand behind the last inode in the order given, without gaps. */
  lemma FileBytes(files: seq<SourceFile>, i: nat)
    requires Packable(files) && i < |files|
    ensures FileStart(files, i) + |files[i].content| <= |Image(files)|
    ensures Image(files)[FileStart(files, i)..FileStart(files, i) + |files[i].content|] == files[i].content
  {
    assert FileStart(files, i) == DataStart(files, i);
    hide Image, Offset, Packable, Contents, FileStart, DataStart;
    ImageLayout(files, i);
  }

  /** Behind the count, 28 bytes for every file, and the files before. */
  function FileStart(files: seq<SourceFile>, i: nat): nat
    requires i <= |files|
  {
    4 + 28 * |files| + |Contents(files, i)|
  }

  lemma ImageCount(files: seq<SourceFile>)
    requires Packable(files)
    ensures 4 <= |Image(files)| && Image(files)[0..4] == Pack(|files|)
  {
    hide Pack, Table, Contents;
    ThreeParts(Body(files), Pack(|files|), Table(files, |files|), Contents(files, |files|), 0, 0, 0, 0);
    PrefixSlice(Image(files), Body(files), 0, 4);
  }

  lemma BodySlices(count: seq<Byte>, table: seq<Byte>, contents: seq<Byte>, at: nat, n: nat, from: nat, m: nat)
    requires |count| == 4 && at + n <= |table| && from + m <= |contents|
    ensures var body := count + table + contents;
            && body[0..4] == count && body[4 + at..4 + at + n] == table[at..at + n]
            && body[4 + |table| + from..4 + |table| + from + m] == contents[from..from + m]
  {
  }

  lemma PrefixSlice(s: seq<Byte>, prefix: seq<Byte>, lo: nat, hi: nat)
    requires |prefix| <= |s| && s[..|prefix|] == prefix && lo <= hi <= |prefix|
    ensures s[lo..hi] == prefix[lo..hi]
  {
    forall k | lo <= k < hi
      ensures s[k] == prefix[k]
    {
      assert s[..|prefix|][k] == s[k];
    }
  }
}
