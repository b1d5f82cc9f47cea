/** The paging code as it runs: table memory written in place through virtual pointers, frames
    taken from the allocator, translation caches flushed. */
module Paging {
  import opened Bits
  import opened Options
  import opened Frames
  import opened PageTables
  import opened Translation
  import opened Ranges

  class Pager {
    const hhdm: nat
    /** Physical address of the region the allocator hands out. */
    const region: nat
    const frames: FrameAllocator
    /** Virtual address of the top table. */
    const pml4: nat
    var mem: Memory
    var tlb: map<nat, nat>
    var cache: map<Node, nat>

    ghost function EnvOf(): Env {
      Env(hhdm, region, Virt2Phys(hhdm, pml4))
    }

    ghost function State(): Machine
      reads this, frames, frames.frames
    {
      Machine(mem, frames.State(), tlb, cache)
    }

    ghost predicate Valid()
      reads this, frames, frames.frames
    {
      && frames.Valid()
      && hhdm < WORD64 && frames.base == Phys2Virt(hhdm, region) && EnvOk(EnvOf())
    }

    /** Takes the first frame for the top table and clears it. */
    constructor (hhdmAddr: nat, regionAddr: nat, allocator: FrameAllocator)
      requires allocator.Valid() && hhdmAddr < WORD64 && regionAddr % 4096 == 0
      requires regionAddr + 0x1_0000_0000 <= 0x1_0000_0000_0000
      requires allocator.base == Phys2Virt(hhdmAddr, regionAddr)
      requires AllocSpec(allocator.State()).1.Some?
      modifies allocator`latest, allocator.frames
      ensures Valid() && hhdm == hhdmAddr && region == regionAddr && frames == allocator
      ensures Sound(EnvOf(), State())
      ensures forall page :: 0 <= page < PAGES ==> Walk(EnvOf(), mem, page) == 0
    {
      ghost var f := allocator.State();
      hhdm, region, frames := hhdmAddr, regionAddr, allocator;
      var top := allocator.Alloc();
      pml4 := top;
      mem := map[Virt2Phys(hhdmAddr, top) := Zeroed()];
      tlb, cache := map[], map[];
      new;
      ghost var k := AllocSpec(f).1.value;
      VirtRoundTrip(hhdm, region, k * FRAME_SIZE);
      InitSound(EnvOf(), f, State());
    }

    method FlushTlb()
      modifies this`tlb, this`cache
      ensures tlb == map[] && cache == map[]
    {
      tlb, cache := map[], map[];
    }

    /** One level of `map`: the next table's virtual address, a fresh zeroed one if need be. `ok` is
        false when there is no frame for it; the null pointer is linked all the same. */
    method NextTable(table: nat, i: nat) returns (next: nat, ok: bool)
      requires Valid()
      modifies this`mem, frames`latest, frames.frames
      ensures Valid() && tlb == old(tlb) && cache == old(cache)
      ensures ok <==> old(Descend(EnvOf(), State(), Virt2Phys(hhdm, table), i)).Some?
      ensures ok ==> old(Descend(EnvOf(), State(), Virt2Phys(hhdm, table), i)) == Some((State(), Virt2Phys(hhdm, next)))
    {
      var entry := Read(mem, Virt2Phys(hhdm, table), i);
      if Present(entry) {
        next, ok := Phys2Virt(hhdm, PteAddress(entry)), true;
        VirtRoundTrip(hhdm, PteAddress(entry), 0);
      } else {
        ghost var r := AllocSpec(frames.State()).1;
        next := frames.Alloc();
        ok := next != 0;
        if ok {
          VirtRoundTrip(hhdm, region, r.value * FRAME_SIZE);
          mem := mem[Virt2Phys(hhdm, next) := Zeroed()];
        }
        mem := Write(mem, Virt2Phys(hhdm, table), i, TableEntry(Virt2Phys(hhdm, next)));
      }
    }

    /** `ok` is false when the allocator lacks a frame for a missing table: the source does not check
        and follows the null pointer. */
    method Map(phys: nat, virt: nat, flags: nat) returns (ok: bool)
      requires Valid()
      modifies this`mem, this`tlb, this`cache, frames`latest, frames.frames
      ensures Valid() && (ok <==> old(MapSpec(EnvOf(), State(), phys, virt, flags)).Some?)
      ensures ok ==> old(MapSpec(EnvOf(), State(), phys, virt, flags)) == Some(State())
    {
      var pml1;
      pml1, ok := LeafTable(virt);
      if !ok {
        return;
      }
      var i := Index(virt, 12);
      var permMod := Present(Read(mem, Virt2Phys(hhdm, pml1), i));
      mem := Write(mem, Virt2Phys(hhdm, pml1), i, Or(phys, flags));
      if permMod {
        FlushTlb();
      }
    }

    /** The three levels above the leaf. */
    method LeafTable(virt: nat) returns (pml1: nat, ok: bool)
      requires Valid()
      modifies this`mem, frames`latest, frames.frames
      ensures Valid() && tlb == old(tlb) && cache == old(cache)
      ensures ok <==> old(Tables(EnvOf(), State(), virt)).Some?
      ensures ok ==> old(Tables(EnvOf(), State(), virt)) == Some((State(), Virt2Phys(hhdm, pml1)))
    {
      var pml3, pml2;
      pml1 := 0;
      pml3, ok := NextTable(pml4, Index(virt, 39));
      if ok {
        pml2, ok := NextTable(pml3, Index(virt, 30));
        if ok {
          pml1, ok := NextTable(pml2, Index(virt, 21));
        }
      }
    }

    method Unmap(virt: nat)
      requires Valid()
      modifies this`mem, this`tlb, this`cache
      ensures Valid() && State() == old(UnmapSpec(EnvOf(), State(), virt))
    {
      var entry := Read(mem, Virt2Phys(hhdm, pml4), Index(virt, 39));
      if !Present(entry) {
        return;
      }
      var pml3 := Phys2Virt(hhdm, PteAddress(entry));
      VirtRoundTrip(hhdm, PteAddress(entry), 0);
      entry := Read(mem, Virt2Phys(hhdm, pml3), Index(virt, 30));
      if !Present(entry) {
        return;
      }
      var pml2 := Phys2Virt(hhdm, PteAddress(entry));
      VirtRoundTrip(hhdm, PteAddress(entry), 0);
      entry := Read(mem, Virt2Phys(hhdm, pml2), Index(virt, 21));
      if !Present(entry) {
        return;
      }
      var pml1 := Phys2Virt(hhdm, PteAddress(entry));
      VirtRoundTrip(hhdm, PteAddress(entry), 0);
      mem := Write(mem, Virt2Phys(hhdm, pml1), Index(virt, 12), 0);
      FlushTlb();
    }

    /** The k-th step of a run of `map` calls. */
    method MapNext(ghost start: Machine, ghost ops: seq<Op>, ghost k: nat, phys: nat, virt: nat,
                   flags: nat) returns (ok: bool)
      requires Valid() && InRange(start.frames) && k < |ops| && ops[k] == MapOp(phys, virt, flags)
      requires Run(EnvOf(), start, ops[..k]) == Some(State())
      modifies this`mem, this`tlb, this`cache, frames`latest, frames.frames
      ensures Valid() && (ok ==> Run(EnvOf(), start, ops[..k + 1]) == Some(State()))
      ensures !ok ==> Run(EnvOf(), start, ops).None?
    {
      assert ops[..k + 1][..k] == ops[..k];
      RunPrefix(EnvOf(), start, ops, k + 1);
      ok := Map(phys, virt, flags);
    }

    /** For every size: a range so long that the loop's 64-bit counter would wrap runs out of frames
        for its tables first. */
    method MapRange(phys: nat, virt: nat, size: nat, flags: nat) returns (ok: bool, pages: nat)
      requires Valid() && Sound(EnvOf(), State())
      modifies this`mem, this`tlb, this`cache, frames`latest, frames.frames
      ensures Valid() && (ok <==> old(Run(EnvOf(), State(), RangeOps(phys, virt, PagesFor(size), flags))).Some?)
      ensures ok ==> old(Run(EnvOf(), State(), RangeOps(phys, virt, PagesFor(size), flags))) == Some(State())
      ensures ok ==> pages == size / FRAME_SIZE % WORD32
    {
      ghost var env, start, n, k := EnvOf(), State(), PagesFor(size), 0;
      ghost var ops := RangeOps(phys, virt, n, flags);
      var i := 0;
      ok, pages := true, 0;
      RangeCounter(size, n, 0, 0);
      while i < size
        invariant ok && Valid() && i == k * 4096 && k <= n && (i < size <==> k < n)
        invariant Run(env, start, ops[..k]) == Some(State())
        decreases n - k
      {
        ok := MapPage(start, phys, virt, n, flags, i, k);
        if !ok {
          return;
        }
        i, k := (i + FRAME_SIZE) % WORD64, k + 1;
        RangeCounter(size, n, i, k);
      }
      assert ops[..k] == ops;
      pages := size / FRAME_SIZE % WORD32;
    }

    /** One turn of the loop of `map_range`. */
    method MapPage(ghost start: Machine, phys: nat, virt: nat, ghost n: nat, flags: nat, i: nat,
                   ghost k: nat) returns (ok: bool)
      requires Valid() && Sound(EnvOf(), start) && k < n && i == k * 4096
      requires Run(EnvOf(), start, RangeOps(phys, virt, n, flags)[..k]) == Some(State())
      modifies this`mem, this`tlb, this`cache, frames`latest, frames.frames
      ensures Valid() && (ok ==> Run(EnvOf(), start, RangeOps(phys, virt, n, flags)[..k + 1]) == Some(State()))
      ensures ok ==> (i + FRAME_SIZE) % WORD64 == (k + 1) * 4096
      ensures !ok ==> Run(EnvOf(), start, RangeOps(phys, virt, n, flags)).None?
    {
      ghost var ops := RangeOps(phys, virt, n, flags);
      RangeOpAt(phys, virt, n, flags, k, i);
      ok := MapNext(start, ops, k, (phys + i) % WORD64, (virt + i) % WORD64, flags);
      if ok {
        RangeSoFar(EnvOf(), start, phys, virt, n, flags, i, k);
      }
    }

    method MapMmio(phys: nat, size: nat) returns (ok: bool, pointer: nat)
      requires Valid() && Sound(EnvOf(), State())
      modifies this`mem, this`tlb, this`cache, frames`latest, frames.frames
      ensures Valid() && pointer == MmioPointer(hhdm, phys)
      ensures ok <==> old(Run(EnvOf(), State(), MmioOps(hhdm, phys, size))).Some?
      ensures ok ==> old(Run(EnvOf(), State(), MmioOps(hhdm, phys, size))) == Some(State())
    {
      var aligned := RoundDown(phys);
      var offset := phys - aligned;
      var bytes := (size + offset + 4095) % WORD64 / 4096 * 4096;
      var virt := Phys2Virt(hhdm, aligned);
      MmioLocals(hhdm, phys, size, aligned, offset, virt);
      var pages;
      ok, pages := MapRange(aligned, virt, bytes, MMIO_FLAGS);
      pointer := (virt + offset) % WORD64;
    }
  }
}
