/** The mutable state the memory managers share: the machine, the frame allocator and the bitmap of
    kernel-heap pages. */
module KernelState {
  import opened Common
  import opened Bits
  import opened Paging
  import M = Machine
  import P = PhysicalMemory

  const KHEAP_BITMAP_SIZE: nat := 32768 * 4

  /** The value of that state the paging code depends on. `first` is the first frame the allocator scans. */
  datatype Sys = Sys(ram: Ram, cr3: Frame, frames: P.FrameState, first: nat)

  /** allocate_physical_page */
  ghost function AllocFrame(s: Sys): (Sys, Word)
    requires P.InAddressSpace(s.frames.available)
  {
    var (frames, address) := P.Allocate(s.frames, s.first);
    (s.(frames := frames), address)
  }

  class Kernel {
    const machine: M.Machine
    const frames: P.PhysicalMemory
    const kheap: Bitmap

    ghost predicate Valid()
      reads this, frames, frames.bitmap, frames.bitmap.bytes, kheap, kheap.bytes
    {
      && frames.Valid() && kheap.Valid() && kheap.bytes.Length == KHEAP_BITMAP_SIZE
      && frames.bitmap != kheap && frames.bitmap.bytes != kheap.bytes
    }

    constructor (machine: M.Machine, frames: P.PhysicalMemory)
      requires frames.Valid()
      ensures Valid() && this.machine == machine && this.frames == frames && fresh(kheap) && kheap.ones == {}
    {
      this.machine := machine;
      this.frames := frames;
      kheap := new Bitmap(KHEAP_BITMAP_SIZE);
    }

    ghost function View(): Sys
      reads this, machine, frames, frames.bitmap
    {
      Sys(machine.ram, machine.cr3, frames.View(), frames.FirstScanned())
    }
  }
}
