/** Machine words, page arithmetic and the error codes shared by every component. */
module Common {

  const PAGE_SIZE: nat := 4096
  const KERNEL_VIRTUAL_OFFSET: nat := 0xC000_0000
  const TWO_32: nat := 0x1_0000_0000

  /** An `uint32_t`: arithmetic on it is written out modulo 2^32 with `Wrap32`. */
  type Word = x: int | 0 <= x < 0x1_0000_0000

  type Byte = x: int | 0 <= x < 256

  datatype Option<+T> = None | Some(value: T)

  datatype ErrorCode = Success | Failure | NoSuchFile | NoSuchDirectory | InvalidArgument | NotEnoughRam

  function Wrap32(x: int): Word {
    x % 0x1_0000_0000
  }

  lemma Wrap32Small(x: int)
    requires 0 <= x < TWO_32
    ensures Wrap32(x) == x
  {
  }

  /** PAGE_BOUNDARY: the low twelve bits masked away. */
  function PageBoundary(x: nat): nat {
    x - x % PAGE_SIZE
  }

  lemma PageBoundaryAligned(x: nat)
    ensures PageBoundary(x) % PAGE_SIZE == 0 && PageBoundary(x) <= x < PageBoundary(x) + PAGE_SIZE
  {
    assert PageBoundary(x) == 4096 * (x / 4096);
  }

  /** NEXT_PAGE_BOUNDARY on a 32-bit value. */
  function NextPageBoundary(x: Word): Word {
    Wrap32(PageBoundary(x) + PAGE_SIZE)
  }

  function Min(a: int, b: int): int {
    if a <= b then a else b
  }

  function Max(a: int, b: int): int {
    if a <= b then b else a
  }

  /** The smallest member of a non-empty set of numbers. */
  ghost function Lowest(s: set<nat>): (m: nat)
    requires s != {}
    ensures m in s && forall x :: x in s ==> m <= x
  {
    var x :| x in s;
    if s == {x} then x
    else
      var rest := Lowest(s - {x});
      assert forall y :: y in s ==> y == x || y in s - {x};
      Min(x, rest)
  }

  /** The half-open interval of page numbers [lo, hi). */
  ghost function Interval(lo: nat, hi: nat): (s: set<nat>)
    ensures forall p: nat :: p in s <==> lo <= p < hi
    decreases hi
  {
    if hi <= lo then {} else Interval(lo, hi - 1) + {hi - 1}
  }

  lemma IntervalSteps(s: set<nat>, lo: nat, hi: nat)
    requires lo <= hi
    ensures s + Interval(lo, hi) + {hi} == s + Interval(lo, hi + 1)
    ensures s - Interval(lo, hi) - {hi} == s - Interval(lo, hi + 1)
  {
  }

  /** The elements of `s` at or above `lo`. */
  ghost function AtOrAbove(s: set<nat>, lo: nat): set<nat> {
    set p | p in s && lo <= p
  }
}
