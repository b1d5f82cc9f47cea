/** Building the kernel's own page tables at boot: the loops over the memory map and the kernel
    image, and the translation they leave behind. */
module Mapper {
  import opened Bits
  import opened Options
  import opened Frames
  import opened PageTables
  import opened Translation
  import opened Ranges
  import opened Paging

  const HHDM_FLAGS: nat := 0x7
  const TEXT_FLAGS: nat := 0x5
  const RODATA_FLAGS: nat := 0x8000_0000_0000_0005
  const DATA_FLAGS: nat := 0x8000_0000_0000_0007

  /** The flag words as the source spells them. */
  lemma FlagValues()
    ensures Or(Or(PAGE_PRESENT, PAGE_WRITE), PAGE_USER) == HHDM_FLAGS
    ensures Or(PAGE_PRESENT, PAGE_USER) == TEXT_FLAGS
    ensures Or(Or(PAGE_PRESENT, PAGE_NX), PAGE_USER) == RODATA_FLAGS
    ensures Or(Or(Or(PAGE_PRESENT, PAGE_WRITE), PAGE_NX), PAGE_USER) == DATA_FLAGS
  {
    assert Or(1, 2) == 3 && Or(1, 4) == 5;
    assert Or(3, 4) == 7;
    TopBit();
    OrByParts(0, 1, 1, 0, 63);
    OrByParts(0, 3, 1, 0, 63);
    OrByParts(1, 1, 0, 4, 63);
    OrByParts(1, 3, 0, 4, 63);
    ShlZero(63);
    assert Or(1, 0) == 1 && Or(3, 0) == 3 && Or(0, 1) == 1;
  }

  datatype Kind = Usable | Reclaimable | Framebuffer | Other
  datatype MemEntry = MemEntry(base: nat, length: nat, kind: Kind)

  /** The linker's symbols around one part of the kernel image. */
  datatype Section = Section(start: nat, end: nat)

  datatype Boot = Boot(entries: seq<MemEntry>, hhdm: nat, kernPhys: nat, kernVirt: nat,
                       text: Section, rodata: Section, data: Section)

  // ----- The requests -----

  function EntryOps(hhdm: nat, e: MemEntry, kind: Kind): seq<Op> {
    if e.kind == kind then RangeOps(e.base, Phys2Virt(hhdm, e.base), e.length / 4096, HHDM_FLAGS) else []
  }

  function KindOps(hhdm: nat, entries: seq<MemEntry>, kind: Kind): seq<Op> {
    if entries == [] then []
    else KindOps(hhdm, entries[..|entries| - 1], kind) + EntryOps(hhdm, entries[|entries| - 1], kind)
  }

  function AlignDown(x: nat): nat {
    x / 4096 * 4096
  }

  function AlignUp(x: nat): nat {
    (x + 4095) / 4096 * 4096
  }

  function SectionPages(s: Section): nat {
    if AlignDown(s.start) < AlignUp(s.end) then (AlignUp(s.end) - AlignDown(s.start)) / 4096 else 0
  }

  function KernelPhys(boot: Boot, virt: nat): nat {
    (virt - boot.kernVirt + boot.kernPhys) % WORD64
  }

  function SectionOps(boot: Boot, s: Section, flags: nat): seq<Op> {
    RangeOps(KernelPhys(boot, AlignDown(s.start)), AlignDown(s.start), SectionPages(s), flags)
  }

  function KernelOps(boot: Boot): seq<Op> {
    SectionOps(boot, boot.text, TEXT_FLAGS) + SectionOps(boot, boot.rodata, RODATA_FLAGS)
    + SectionOps(boot, boot.data, DATA_FLAGS)
  }

  function MemoryOps(boot: Boot): seq<Op> {
    KindOps(boot.hhdm, boot.entries, Reclaimable) + KindOps(boot.hhdm, boot.entries, Framebuffer)
    + KindOps(boot.hhdm, boot.entries, Usable)
  }

  function FullMapOps(boot: Boot): seq<Op> {
    MemoryOps(boot) + KindOps(boot.hhdm, boot.entries, Usable) + KernelOps(boot)
  }

  // ----- What the boot loader and the linker script provide -----

  predicate EntriesOk(entries: seq<MemEntry>) {
    forall i :: 0 <= i < |entries| && entries[i].kind != Other ==>
      entries[i].base % 4096 == 0 && entries[i].base + entries[i].length <= 0x1_0000_0000_0000
  }

  /** The section lies in the image, and the image fits the page numbers and physical memory. */
  predicate SectionOk(boot: Boot, s: Section) {
    && boot.kernVirt <= s.start && s.end <= WORD64 - 4096
    && s.end <= s.start - s.start % 4096 + PAGES * 4096
    && boot.kernPhys + s.end - boot.kernVirt <= ADDRESS_LIMIT
  }

  predicate BootOk(boot: Boot) {
    && boot.hhdm % 4096 == 0 && boot.hhdm < WORD64 && EntriesOk(boot.entries)
    && boot.kernVirt % 4096 == 0 && boot.kernPhys % 4096 == 0
    && SectionOk(boot, boot.text) && SectionOk(boot, boot.rodata) && SectionOk(boot, boot.data)
  }

  // ----- The translation they leave behind -----

  predicate InEntry(e: MemEntry, q: nat) {
    e.base / 4096 <= q < e.base / 4096 + e.length / 4096
  }

  /** Physical page q belongs to an entry of the kind. */
  predicate HasPage(entries: seq<MemEntry>, kind: Kind, q: nat) {
    exists i :: 0 <= i < |entries| && entries[i].kind == kind && InEntry(entries[i], q)
  }

  predicate InSection(s: Section, page: nat) {
    Distance(AlignDown(s.start), page) < SectionPages(s)
  }

  function SectionEntry(boot: Boot, s: Section, flags: nat, page: nat): nat {
    Or(KernelPhys(boot, AlignDown(s.start) + Distance(AlignDown(s.start), page) * 4096), flags)
  }

  predicate InDirectMap(boot: Boot, page: nat) {
    var q := Distance(boot.hhdm, page);
    HasPage(boot.entries, Usable, q) || HasPage(boot.entries, Framebuffer, q) || HasPage(boot.entries, Reclaimable, q)
  }

  /** The entry of each page when all is mapped: kernel image first, then the direct map at an
      offset, and otherwise what was there. */
  function FinalEntry(boot: Boot, page: nat, entry: nat): nat {
    if InSection(boot.data, page) then SectionEntry(boot, boot.data, DATA_FLAGS, page)
    else if InSection(boot.rodata, page) then SectionEntry(boot, boot.rodata, RODATA_FLAGS, page)
    else if InSection(boot.text, page) then SectionEntry(boot, boot.text, TEXT_FLAGS, page)
    else if InDirectMap(boot, page) then Or(Distance(boot.hhdm, page) * 4096, HHDM_FLAGS)
    else entry
  }

  lemma EntryDistance(hhdm: nat, e: MemEntry, page: nat, q: nat, k: nat)
    requires hhdm % 4096 == 0 && page < PAGES && q == Distance(hhdm, page)
    requires e.base % 4096 == 0 && e.base + e.length <= 0x1_0000_0000_0000
    requires k == Distance(Phys2Virt(hhdm, e.base), page)
    ensures k < e.length / 4096 <==> InEntry(e, q)
    ensures k < e.length / 4096 ==> (e.base + k * 4096) % WORD64 == q * 4096
  {
    var b := e.base / 4096;
    assert e.base == b * 4096;
    PageOfOffset(hhdm, b);
    assert k == (page - (PageOf(hhdm) + b) % PAGES) % PAGES;
    DistanceSplits(PageOf(hhdm), b, page);
  }

  lemma DistanceSplits(from: nat, b: nat, page: nat)
    requires from < PAGES && b <= PAGES && page < PAGES
    ensures var q := (page - from) % PAGES;
            (page - (from + b) % PAGES) % PAGES == if b <= q then q - b else q - b + PAGES
  {
  }

  lemma EntryFlat(hhdm: nat, e: MemEntry, kind: Kind, page: nat, q: nat, entry: nat)
    requires hhdm % 4096 == 0 && page < PAGES && q == Distance(hhdm, page)
    requires e.kind == kind ==> e.base % 4096 == 0 && e.base + e.length <= 0x1_0000_0000_0000
    ensures FlatRun(EntryOps(hhdm, e, kind), page, entry)
         == if e.kind == kind && InEntry(e, q) then Or(q * 4096, HHDM_FLAGS) else entry
  {
    if e.kind == kind {
      var virt := Phys2Virt(hhdm, e.base);
      var k := Distance(virt, page);
      EntryDistance(hhdm, e, page, q, k);
      RangeFlat(e.base, virt, e.length / 4096, HHDM_FLAGS, page, k, entry);
    }
  }

  lemma HasPageSplits(entries: seq<MemEntry>, kind: Kind, q: nat)
    requires entries != []
    ensures var front, last := entries[..|entries| - 1], entries[|entries| - 1];
            HasPage(entries, kind, q) <==> HasPage(front, kind, q) || (last.kind == kind && InEntry(last, q))
  {
    if HasPage(entries[..|entries| - 1], kind, q) {
      HasPageOfFront(entries, kind, q);
    }
  }

  lemma {:induction false} KindFlat(hhdm: nat, entries: seq<MemEntry>, kind: Kind, page: nat, q: nat, entry: nat)
    requires hhdm % 4096 == 0 && page < PAGES && q == Distance(hhdm, page)
    requires EntriesOk(entries) && kind != Other
    ensures FlatRun(KindOps(hhdm, entries, kind), page, entry)
         == if HasPage(entries, kind, q) then Or(q * 4096, HHDM_FLAGS) else entry
    decreases |entries|
  {
    if entries != [] {
      var front, last := entries[..|entries| - 1], entries[|entries| - 1];
      KindFlat(hhdm, front, kind, page, q, entry);
      EntryFlat(hhdm, last, kind, page, q, FlatRun(KindOps(hhdm, front, kind), page, entry));
      FlatConcat(KindOps(hhdm, front, kind), EntryOps(hhdm, last, kind), page, entry);
      HasPageSplits(entries, kind, q);
    }
  }

  lemma KernelPhysOffset(boot: Boot, start: nat, i: nat)
    ensures (KernelPhys(boot, start) + i) % WORD64 == KernelPhys(boot, start + i)
  {
    WrapDifference(start - boot.kernVirt + boot.kernPhys, i);
  }

  lemma WrapDifference(x: int, i: nat)
    ensures (x % WORD64 + i) % WORD64 == (x + i) % WORD64
  {
  }

  /** A section in page numbers: from the page of its start to that of its last byte. */
  lemma SectionSpan(s: Section, x: nat, y: nat)
    requires x == s.start / 4096 && y == (s.end + 4095) / 4096
    ensures AlignDown(s.start) == 4096 * x && SectionPages(s) == if x < y then y - x else 0
    ensures s.end <= s.start - s.start % 4096 + PAGES * 4096 ==> SectionPages(s) <= PAGES
  {
  }

  lemma SectionFlat(boot: Boot, s: Section, flags: nat, page: nat, entry: nat)
    requires SectionOk(boot, s) && page < PAGES
    ensures FlatRun(SectionOps(boot, s, flags), page, entry)
         == if InSection(s, page) then SectionEntry(boot, s, flags, page) else entry
  {
    var start := AlignDown(s.start);
    var k := Distance(start, page);
    SectionSpan(s, s.start / 4096, (s.end + 4095) / 4096);
    RangeFlat(KernelPhys(boot, start), start, SectionPages(s), flags, page, k, entry);
    KernelPhysOffset(boot, start, k * 4096);
  }

  lemma KernelFlat(boot: Boot, page: nat, entry: nat)
    requires BootOk(boot) && page < PAGES
    ensures FlatRun(KernelOps(boot), page, entry)
         == if InSection(boot.data, page) then SectionEntry(boot, boot.data, DATA_FLAGS, page)
            else if InSection(boot.rodata, page) then SectionEntry(boot, boot.rodata, RODATA_FLAGS, page)
            else if InSection(boot.text, page) then SectionEntry(boot, boot.text, TEXT_FLAGS, page)
            else entry
  {
    var text := SectionOps(boot, boot.text, TEXT_FLAGS);
    var rodata := SectionOps(boot, boot.rodata, RODATA_FLAGS);
    var data := SectionOps(boot, boot.data, DATA_FLAGS);
    FlatConcat(text + rodata, data, page, entry);
    FlatConcat(text, rodata, page, entry);
    SectionFlat(boot, boot.text, TEXT_FLAGS, page, entry);
    var e1 := FlatRun(text, page, entry);
    SectionFlat(boot, boot.rodata, RODATA_FLAGS, page, e1);
    SectionFlat(boot, boot.data, DATA_FLAGS, page, FlatRun(rodata, page, e1));
  }

  lemma FullMapFlat(boot: Boot, page: nat, entry: nat)
    requires BootOk(boot) && page < PAGES
    ensures FlatRun(FullMapOps(boot), page, entry) == FinalEntry(boot, page, entry)
  {
    var q := Distance(boot.hhdm, page);
    var a := KindOps(boot.hhdm, boot.entries, Reclaimable);
    var b := KindOps(boot.hhdm, boot.entries, Framebuffer);
    var c := KindOps(boot.hhdm, boot.entries, Usable);
    FlatConcat(a + b + c + c, KernelOps(boot), page, entry);
    FlatConcat(a + b + c, c, page, entry);
    FlatConcat(a + b, c, page, entry);
    FlatConcat(a, b, page, entry);
    KindFlat(boot.hhdm, boot.entries, Reclaimable, page, q, entry);
    var e1 := FlatRun(a, page, entry);
    KindFlat(boot.hhdm, boot.entries, Framebuffer, page, q, e1);
    var e2 := FlatRun(b, page, e1);
    KindFlat(boot.hhdm, boot.entries, Usable, page, q, e2);
    var e3 := FlatRun(c, page, e2);
    KindFlat(boot.hhdm, boot.entries, Usable, page, q, e3);
    KernelFlat(boot, page, FlatRun(c, page, e3));
  }

  /** Exactness of `full_map`: each page of usable, reclaimable and framebuffer memory is at its
      direct-map address, each page of the image at its linked address (which wins where the two
      would meet), and every other page is as before. */
  lemma FullMapExact(env: Env, m: Machine, m': Machine, boot: Boot, page: nat)
    requires Sound(env, m) && BootOk(boot) && page < PAGES
    requires Run(env, m, FullMapOps(boot)) == Some(m')
    ensures Sound(env, m')
    ensures Walk(env, m'.mem, page) == FinalEntry(boot, page, Walk(env, m.mem, page))
  {
    RunRefinesFlatMap(env, m, FullMapOps(boot), page);
    FullMapFlat(boot, page, Walk(env, m.mem, page));
  }

  predicate InImage(boot: Boot, page: nat) {
    InSection(boot.text, page) || InSection(boot.rodata, page) || InSection(boot.data, page)
  }

  lemma FinalPresent(boot: Boot, page: nat)
    ensures Present(FinalEntry(boot, page, 0)) <==> InImage(boot, page) || InDirectMap(boot, page)
  {
    OrOdd(Distance(boot.hhdm, page) * 4096, HHDM_FLAGS);
    SectionPresent(boot, boot.text, TEXT_FLAGS, page);
    SectionPresent(boot, boot.rodata, RODATA_FLAGS, page);
    SectionPresent(boot, boot.data, DATA_FLAGS, page);
  }

  lemma SectionPresent(boot: Boot, s: Section, flags: nat, page: nat)
    requires flags % 2 == 1
    ensures Present(SectionEntry(boot, s, flags, page))
  {
    OrOdd(KernelPhys(boot, AlignDown(s.start) + Distance(AlignDown(s.start), page) * 4096), flags);
  }

  /** From the fresh top table on, a page is mapped after `full_map` if and only if it is a page of
      the image or of the direct map. */
  lemma OnlyThesePagesMapped(env: Env, frames: FrameState, m: Machine, m': Machine, boot: Boot, page: nat)
    requires Initial(env, frames, m)
    requires BootOk(boot) && page < PAGES && Run(env, m, FullMapOps(boot)) == Some(m')
    ensures Present(Walk(env, m'.mem, page)) <==> InImage(boot, page) || InDirectMap(boot, page)
  {
    InitSound(env, frames, m);
    FullMapExact(env, m, m', boot, page);
    FinalPresent(boot, page);
  }

  // ----- When there are enough frames -----

  predicate AllPresent(ops: seq<Op>) {
    forall i :: 0 <= i < |ops| ==> ops[i].MapOp? && ops[i].flags % 2 == 1
  }

  ghost predicate Touches(ops: seq<Op>, page: nat) {
    exists i :: 0 <= i < |ops| && ops[i].MapOp? && PageOf(ops[i].virt) == page
  }

  /** The pages that are present afterwards are those that were mapped. */
  lemma {:induction false} TouchedIsPresent(ops: seq<Op>, page: nat)
    requires AllPresent(ops)
    ensures Present(FlatRun(ops, page, 0)) <==> Touches(ops, page)
    decreases |ops|
  {
    if ops != [] {
      var front, op := ops[..|ops| - 1], ops[|ops| - 1];
      TouchedIsPresent(front, page);
      OrOdd(op.phys, op.flags);
      if PageOf(op.virt) != page {
        assert Touches(ops, page) <==> Touches(front, page) by {
          if i: int :| 0 <= i < |front| && front[i].MapOp? && PageOf(front[i].virt) == page {
            assert PageOf(ops[i].virt) == page;
          }
          if i: int :| 0 <= i < |ops| && ops[i].MapOp? && PageOf(ops[i].virt) == page {
            assert PageOf(front[i].virt) == page;
          }
        }
      }
    }
  }

  lemma {:induction false} KindOpsPresent(hhdm: nat, entries: seq<MemEntry>, kind: Kind)
    ensures AllPresent(KindOps(hhdm, entries, kind))
  {
    if entries != [] {
      var front, e := entries[..|entries| - 1], entries[|entries| - 1];
      KindOpsPresent(hhdm, front, kind);
      RangePresent(e.base, Phys2Virt(hhdm, e.base), e.length / 4096, HHDM_FLAGS);
      PresentConcat(KindOps(hhdm, front, kind), EntryOps(hhdm, e, kind));
    }
  }

  lemma PresentConcat(a: seq<Op>, b: seq<Op>)
    requires AllPresent(a) && AllPresent(b)
    ensures AllPresent(a + b)
  {
  }

  lemma RangePresent(phys: nat, virt: nat, n: nat, flags: nat)
    requires flags % 2 == 1
    ensures AllPresent(RangeOps(phys, virt, n, flags))
  {
  }

  lemma SectionsPresent(boot: Boot, s: Section, flags: nat)
    requires flags % 2 == 1
    ensures AllPresent(SectionOps(boot, s, flags))
  {
    RangePresent(KernelPhys(boot, AlignDown(s.start)), AlignDown(s.start), SectionPages(s), flags);
  }

  lemma KernelOpsPresent(boot: Boot)
    ensures AllPresent(KernelOps(boot))
  {
    var text := SectionOps(boot, boot.text, TEXT_FLAGS);
    var rodata := SectionOps(boot, boot.rodata, RODATA_FLAGS);
    var data := SectionOps(boot, boot.data, DATA_FLAGS);
    SectionsPresent(boot, boot.text, TEXT_FLAGS);
    SectionsPresent(boot, boot.rodata, RODATA_FLAGS);
    SectionsPresent(boot, boot.data, DATA_FLAGS);
    PresentConcat(text, rodata);
    PresentConcat(text + rodata, data);
  }

  lemma FullMapPresent(boot: Boot)
    ensures AllPresent(FullMapOps(boot))
  {
    var a := KindOps(boot.hhdm, boot.entries, Reclaimable);
    var b := KindOps(boot.hhdm, boot.entries, Framebuffer);
    var c := KindOps(boot.hhdm, boot.entries, Usable);
    KindOpsPresent(boot.hhdm, boot.entries, Reclaimable);
    KindOpsPresent(boot.hhdm, boot.entries, Framebuffer);
    KindOpsPresent(boot.hhdm, boot.entries, Usable);
    KernelOpsPresent(boot);
    PresentConcat(a, b);
    PresentConcat(a + b, c);
    PresentConcat(MemoryOps(boot), c);
    PresentConcat(MemoryOps(boot) + c, KernelOps(boot));
  }

  /** The tables that `full_map` goes through are those of the image's and the direct map's pages. */
  lemma FullMapNeeds(boot: Boot, n: Node)
    requires BootOk(boot)
    ensures n in Needed(FullMapOps(boot)) <==>
            exists page :: 0 <= page < PAGES && n in PathNodes(page) && (InImage(boot, page) || InDirectMap(boot, page))
  {
    var ops := FullMapOps(boot);
    FullMapPresent(boot);
    NeededAre(ops, n);
    if n in Needed(ops) {
      var i :| 0 <= i < |ops| && n in NeededBy(ops[i]);
      MappedPage(boot, PageOf(ops[i].virt));
    }
    forall page | 0 <= page < PAGES && n in PathNodes(page) && (InImage(boot, page) || InDirectMap(boot, page))
      ensures n in Needed(ops)
    {
      MappedPage(boot, page);
      var i :| 0 <= i < |ops| && ops[i].MapOp? && PageOf(ops[i].virt) == page;
      assert n in NeededBy(ops[i]);
    }
  }

  lemma MappedPage(boot: Boot, page: nat)
    requires BootOk(boot) && page < PAGES
    ensures Touches(FullMapOps(boot), page) <==> InImage(boot, page) || InDirectMap(boot, page)
  {
    FullMapPresent(boot);
    TouchedIsPresent(FullMapOps(boot), page);
    FullMapFlat(boot, page, 0);
    FinalPresent(boot, page);
  }

  /** From the fresh top table on, `full_map` succeeds if and only if the allocator has a frame for
      each of these tables. */
  lemma FullMapSucceeds(env: Env, frames: FrameState, m: Machine, boot: Boot)
    requires Initial(env, frames, m)
    ensures Run(env, m, FullMapOps(boot)).Some? <==> |Needed(FullMapOps(boot))| <= Available(m.frames)
  {
    InitialRunSucceeds(env, frames, m, FullMapOps(boot));
  }

  // ----- No page of the image is both writable and executable -----

  lemma {:induction false} ShrSplit(h: nat, r: nat, k: nat)
    requires r < Shl(1, k)
    ensures Shr(Shl(h, k) + r, k) == h
    decreases k
  {
    if k != 0 {
      assert (Shl(h, k) + r) / 2 == Shl(h, k - 1) + r / 2;
      ShrSplit(h, r / 2, k - 1);
    }
  }

  lemma {:induction false} ShlScales(h: nat, k: nat)
    requires h <= 1
    ensures Shl(h, k) == if h == 0 then 0 else Shl(1, k)
  {
    if k != 0 {
      ShlScales(h, k - 1);
    }
  }

  lemma BitSixtyThree(nx: nat, rest: nat)
    requires nx <= 1 && rest < PAGE_NX
    ensures Bit(nx * PAGE_NX + rest, 63) == (nx == 1)
  {
    TopBit();
    ShrSplit(nx, rest, 63);
    ShlScales(nx, 63);
    assert Shl(nx, 63) == nx * PAGE_NX;
  }

  /** The rights in an aligned address joined with low flags and, perhaps, no-execute. */
  lemma LeafRights(a: nat, low: nat, nx: nat, entry: nat)
    requires a < 0x100_0000_0000 && low < 8 && nx <= 1
    requires entry == Or(4096 * a, nx * PAGE_NX + low)
    ensures entry == nx * PAGE_NX + (4096 * a + low)
    ensures EntryRights(entry).write == (low % 4 / 2 == 1) && EntryRights(entry).execute == (nx == 0)
  {
    OrAlignedFlags(a, low, nx * 2048);
    BitSixtyThree(nx, 4096 * a + low);
    LowBits(1024 * a + nx * 0x2000_0000_0000_0000 + low / 4, low % 4);
  }

  lemma SectionPhys(boot: Boot, s: Section, page: nat, p: nat)
    requires BootOk(boot) && SectionOk(boot, s) && InSection(s, page)
    requires p == KernelPhys(boot, AlignDown(s.start) + Distance(AlignDown(s.start), page) * 4096)
    ensures p == 4096 * (p / 4096) && p / 4096 < 0x100_0000_0000
  {
    var k := Distance(AlignDown(s.start), page);
    var x, y := s.start / 4096, (s.end + 4095) / 4096;
    SectionSpan(s, x, y);
    LastPage(boot.kernPhys, boot.kernVirt, s.end, y);
    SectionPhysAt(x, boot.kernVirt / 4096, boot.kernPhys / 4096, k, SectionPages(s), p);
  }

  lemma LastPage(phys: nat, virt: nat, end: nat, y: nat)
    requires phys % 4096 == 0 && virt % 4096 == 0 && y == (end + 4095) / 4096 && phys + end - virt <= ADDRESS_LIMIT
    ensures 4096 * (phys / 4096) + 4096 * y - 4096 * (virt / 4096) <= ADDRESS_LIMIT
  {
  }

  lemma SectionPhysAt(start: nat, v: nat, p: nat, k: nat, n: nat, phys: nat)
    requires v <= start && k < n && 4096 * p + (4096 * start + 4096 * n - 4096 * v) <= ADDRESS_LIMIT
    requires phys == (4096 * start + k * 4096 - 4096 * v + 4096 * p) % WORD64
    ensures phys == 4096 * (phys / 4096) && phys / 4096 < 0x100_0000_0000
  {
    AlignedImage(start + k, v, p);
  }

  lemma AlignedImage(x: nat, v: nat, p: nat)
    requires v <= x && p + (x - v) < 0x100_0000_0000
    ensures var a := (4096 * x - 4096 * v + 4096 * p) % WORD64; a % 4096 == 0 && a < ADDRESS_LIMIT
  {
  }

  /** W^X over the image, for the rights the hardware combines from all four levels. */
  lemma ImageNeverWritableAndExecutable(env: Env, m: Machine, m': Machine, boot: Boot, page: nat)
    requires Sound(env, m) && BootOk(boot) && page < PAGES
    requires Run(env, m, FullMapOps(boot)) == Some(m')
    requires InImage(boot, page)
    ensures Present(Walk(env, m'.mem, page))
    ensures var r := RightsFrom(m'.mem, env.root, 4, page); !(r.write && r.execute)
  {
    FullMapExact(env, m, m', boot, page);
    var entry := Walk(env, m'.mem, page);
    SectionRights(boot, page, entry);
    SoundRights(env, m', page);
  }

  lemma SectionRights(boot: Boot, page: nat, entry: nat)
    requires BootOk(boot)
    requires InImage(boot, page) && entry == FinalEntry(boot, page, 0)
    ensures Present(entry) && !(EntryRights(entry).write && EntryRights(entry).execute)
  {
    if InSection(boot.data, page) {
      OneSectionRights(boot, boot.data, page, 7, 1, entry);
    } else if InSection(boot.rodata, page) {
      OneSectionRights(boot, boot.rodata, page, 5, 1, entry);
    } else {
      OneSectionRights(boot, boot.text, page, 5, 0, entry);
    }
  }

  lemma OneSectionRights(boot: Boot, s: Section, page: nat, low: nat, nx: nat, entry: nat)
    requires BootOk(boot) && SectionOk(boot, s) && InSection(s, page)
    requires low < 8 && low % 2 == 1 && nx <= 1 && entry == SectionEntry(boot, s, nx * PAGE_NX + low, page)
    ensures Present(entry)
    ensures EntryRights(entry).write == (low % 4 / 2 == 1) && EntryRights(entry).execute == (nx == 0)
  {
    var p := KernelPhys(boot, AlignDown(s.start) + Distance(AlignDown(s.start), page) * 4096);
    SectionPhys(boot, s, page, p);
    SectionLeaf(p / 4096, low, nx, entry);
  }

  lemma OddFlags(nx: nat, low: nat)
    requires low % 2 == 1
    ensures (nx * PAGE_NX + low) % 2 == 1
  {
  }

  lemma SectionLeaf(a: nat, low: nat, nx: nat, entry: nat)
    requires a < 0x100_0000_0000 && low < 8 && low % 2 == 1 && nx <= 1
    requires entry == Or(4096 * a, nx * PAGE_NX + low)
    ensures Present(entry)
    ensures EntryRights(entry).write == (low % 4 / 2 == 1) && EntryRights(entry).execute == (nx == 0)
  {
    LeafRights(a, low, nx, entry);
    OddFlags(nx, low);
    OrOdd(4096 * a, nx * PAGE_NX + low);
  }

  // ----- The second pass over usable memory -----

  /** Operations whose pages already have the entries they would write. */
  ghost predicate AlreadyDone(env: Env, m: Machine, ops: seq<Op>) {
    forall i :: 0 <= i < |ops| ==>
      ops[i].MapOp? && Present(Or(ops[i].phys, ops[i].flags))
      && Walk(env, m.mem, PageOf(ops[i].virt)) == Or(ops[i].phys, ops[i].flags)
  }

  lemma FlushSound(env: Env, m: Machine)
    requires Sound(env, m)
    ensures Sound(env, Flush(m))
  {
    var t :| Tree(env, m, t) && Coherent(m, t);
    forall n
      ensures TableOk(env, Flush(m), t, n)
    {
      assert TableOk(env, m, t, n);
    }
    assert Tree(env, Flush(m), t) && Coherent(Flush(m), t);
  }

  lemma {:induction false} RunAgain(env: Env, m: Machine, ops: seq<Op>)
    requires Sound(env, m) && AlreadyDone(env, m, ops)
    ensures Run(env, m, ops) == Some(if ops == [] then m else Flush(m))
    decreases |ops|
  {
    if ops != [] {
      var front, last := ops[..|ops| - 1], ops[|ops| - 1];
      RunAgain(env, m, front);
      FlushSound(env, m);
      MapAgain(env, if front == [] then m else Flush(m), last.phys, last.virt, last.flags);
    }
  }

  lemma EntryOpsForm(hhdm: nat, e: MemEntry, kind: Kind, k: nat, op: Op, q: nat)
    requires hhdm % 4096 == 0 && e.base % 4096 == 0 && e.base + e.length <= 0x1_0000_0000_0000
    requires k < |EntryOps(hhdm, e, kind)| && op == EntryOps(hhdm, e, kind)[k]
    requires op.MapOp? ==> q == Distance(hhdm, PageOf(op.virt))
    ensures op.MapOp? && op.flags == HHDM_FLAGS && e.kind == kind && InEntry(e, q) && op.phys == q * 4096
  {
    var virt := Phys2Virt(hhdm, e.base);
    RangeOpAt(e.base, virt, e.length / 4096, HHDM_FLAGS, k, k * 4096);
    PageOfOffset(virt, k);
    LandsAt(PageOf(virt), k, PageOf(op.virt));
    EntryDistance(hhdm, e, PageOf(op.virt), q, k);
  }

  lemma HasPageOfFront(entries: seq<MemEntry>, kind: Kind, q: nat)
    requires entries != [] && HasPage(entries[..|entries| - 1], kind, q)
    ensures HasPage(entries, kind, q)
  {
    var front := entries[..|entries| - 1];
    var i :| 0 <= i < |front| && front[i].kind == kind && InEntry(front[i], q);
    assert entries[i] == front[i];
  }

  lemma {:induction false} KindOpsForm(hhdm: nat, entries: seq<MemEntry>, kind: Kind, i: nat, op: Op, q: nat)
    requires hhdm % 4096 == 0 && EntriesOk(entries) && kind != Other
    requires i < |KindOps(hhdm, entries, kind)| && op == KindOps(hhdm, entries, kind)[i]
    requires op.MapOp? ==> q == Distance(hhdm, PageOf(op.virt))
    ensures op.MapOp? && op.flags == HHDM_FLAGS && HasPage(entries, kind, q) && op.phys == q * 4096
    decreases |entries|
  {
    var front, last := entries[..|entries| - 1], entries[|entries| - 1];
    var before := KindOps(hhdm, front, kind);
    if i < |before| {
      KindOpsForm(hhdm, front, kind, i, op, q);
      HasPageOfFront(entries, kind, q);
    } else {
      EntryOpsForm(hhdm, last, kind, i - |before|, op, q);
    }
  }

  lemma DirectMapPresent(phys: nat)
    ensures Present(Or(phys, HHDM_FLAGS))
  {
    OrOdd(phys, HHDM_FLAGS);
  }

  /** `map_hhdm_memory` right after `map_found_memory` changes neither tables nor allocator. */
  lemma SecondPassChangesNothing(env: Env, m: Machine, m1: Machine, boot: Boot)
    requires Sound(env, m) && BootOk(boot)
    requires Run(env, m, KindOps(boot.hhdm, boot.entries, Usable)) == Some(m1)
    ensures var r := Run(env, m1, KindOps(boot.hhdm, boot.entries, Usable));
            r.Some? && r.value.mem == m1.mem && r.value.frames == m1.frames
  {
    var ops := KindOps(boot.hhdm, boot.entries, Usable);
    forall i | 0 <= i < |ops|
      ensures ops[i].MapOp? && Present(Or(ops[i].phys, ops[i].flags))
      ensures Walk(env, m1.mem, PageOf(ops[i].virt)) == Or(ops[i].phys, ops[i].flags)
    {
      KindOpsForm(boot.hhdm, boot.entries, Usable, i, ops[i], if ops[i].MapOp? then Distance(boot.hhdm, PageOf(ops[i].virt)) else 0);
      var page := PageOf(ops[i].virt);
      RunRefinesFlatMap(env, m, ops, page);
      KindFlat(boot.hhdm, boot.entries, Usable, page, Distance(boot.hhdm, page), Walk(env, m.mem, page));
      DirectMapPresent(ops[i].phys);
    }
    RunRefinesFlatMap(env, m, ops, 0);
    RunAgain(env, m1, ops);
  }

  // ----- The loops -----

  lemma {:induction false} KindOpsPrefix(hhdm: nat, entries: seq<MemEntry>, kind: Kind, i: nat)
    requires i <= |entries|
    ensures |KindOps(hhdm, entries[..i], kind)| <= |KindOps(hhdm, entries, kind)|
    ensures KindOps(hhdm, entries[..i], kind)
         == KindOps(hhdm, entries, kind)[..|KindOps(hhdm, entries[..i], kind)|]
    decreases |entries|
  {
    if i < |entries| {
      var front := entries[..|entries| - 1];
      KindOpsPrefix(hhdm, front, kind, i);
      assert front[..i] == entries[..i];
    } else {
      assert entries[..i] == entries;
    }
  }

  lemma KindRunNext(env: Env, start: Machine, m: Machine, hhdm: nat, entries: seq<MemEntry>, kind: Kind, i: nat)
    requires i < |entries| && InRange(start.frames)
    requires Run(env, start, KindOps(hhdm, entries[..i], kind)) == Some(m)
    ensures Run(env, start, KindOps(hhdm, entries[..i + 1], kind)) == Run(env, m, EntryOps(hhdm, entries[i], kind))
    ensures Run(env, m, EntryOps(hhdm, entries[i], kind)).None? ==> Run(env, start, KindOps(hhdm, entries, kind)).None?
  {
    assert entries[..i + 1][..i] == entries[..i];
    KindOpsPrefix(hhdm, entries, kind, i + 1);
    RunPrefix(env, start, KindOps(hhdm, entries, kind), |KindOps(hhdm, entries[..i + 1], kind)|);
    RunConcat(env, start, KindOps(hhdm, entries[..i], kind), EntryOps(hhdm, entries[i], kind));
  }

  lemma SectionEnd(s: Section)
    ensures if AlignDown(s.start) < AlignUp(s.end) then AlignUp(s.end) == AlignDown(s.start) + SectionPages(s) * 4096
            else SectionPages(s) == 0
  {
  }

  lemma SectionOpAt(boot: Boot, s: Section, flags: nat, k: nat, virt: nat)
    requires k < SectionPages(s) && virt == AlignDown(s.start) + k * 4096
    ensures SectionOps(boot, s, flags)[k] == MapOp(KernelPhys(boot, virt), virt % WORD64, flags)
  {
    RangeOpAt(KernelPhys(boot, AlignDown(s.start)), AlignDown(s.start), SectionPages(s), flags, k, k * 4096);
    KernelPhysOffset(boot, AlignDown(s.start), k * 4096);
  }

  /** In all of these `ok` is false when a table is missing and there is no frame for it: the source
      does not check and follows the null pointer. */
  method MapPages(pager: Pager, phys: nat, virt: nat, pages: nat, flags: nat) returns (ok: bool)
    requires pager.Valid()
    modifies pager`mem, pager`tlb, pager`cache, pager.frames`latest, pager.frames.frames
    ensures pager.Valid()
    ensures ok <==> old(Run(pager.EnvOf(), pager.State(), RangeOps(phys, virt, pages, flags))).Some?
    ensures ok ==> old(Run(pager.EnvOf(), pager.State(), RangeOps(phys, virt, pages, flags))) == Some(pager.State())
  {
    ghost var start, ops := pager.State(), RangeOps(phys, virt, pages, flags);
    var page := 0;
    ok := true;
    while page < pages
      invariant page <= pages && pager.Valid() && ok
      invariant Run(pager.EnvOf(), start, ops[..page]) == Some(pager.State())
    {
      var i := page * 4096;
      RangeOpAt(phys, virt, pages, flags, page, i);
      ok := pager.MapNext(start, ops, page, (phys + i) % WORD64, (virt + i) % WORD64, flags);
      if !ok {
        return;
      }
      page := page + 1;
    }
    assert ops[..pages] == ops;
  }

  method MapEntry(pager: Pager, e: MemEntry, kind: Kind) returns (ok: bool)
    requires pager.Valid()
    modifies pager`mem, pager`tlb, pager`cache, pager.frames`latest, pager.frames.frames
    ensures pager.Valid()
    ensures ok <==> old(Run(pager.EnvOf(), pager.State(), EntryOps(pager.hhdm, e, kind))).Some?
    ensures ok ==> old(Run(pager.EnvOf(), pager.State(), EntryOps(pager.hhdm, e, kind))) == Some(pager.State())
  {
    ok := true;
    if e.kind == kind {
      ok := MapPages(pager, e.base, Phys2Virt(pager.hhdm, e.base), e.length / FRAME_SIZE, HHDM_FLAGS);
    }
  }

  /** The memory-map loop, for entries of one kind. */
  method MapKind(pager: Pager, entries: seq<MemEntry>, kind: Kind) returns (ok: bool)
    requires pager.Valid()
    modifies pager`mem, pager`tlb, pager`cache, pager.frames`latest, pager.frames.frames
    ensures pager.Valid()
    ensures ok <==> old(Run(pager.EnvOf(), pager.State(), KindOps(pager.hhdm, entries, kind))).Some?
    ensures ok ==> old(Run(pager.EnvOf(), pager.State(), KindOps(pager.hhdm, entries, kind))) == Some(pager.State())
  {
    ghost var start := pager.State();
    var i := 0;
    ok := true;
    while i < |entries|
      invariant i <= |entries| && pager.Valid() && ok
      invariant Run(pager.EnvOf(), start, KindOps(pager.hhdm, entries[..i], kind)) == Some(pager.State())
    {
      var e := entries[i];
      KindRunNext(pager.EnvOf(), start, pager.State(), pager.hhdm, entries, kind, i);
      ok := MapEntry(pager, e, kind);
      if !ok {
        return;
      }
      i := i + 1;
    }
    assert entries[..i] == entries;
  }

  method MapSection(pager: Pager, boot: Boot, s: Section, flags: nat) returns (ok: bool)
    requires pager.Valid()
    modifies pager`mem, pager`tlb, pager`cache, pager.frames`latest, pager.frames.frames
    ensures pager.Valid()
    ensures ok <==> old(Run(pager.EnvOf(), pager.State(), SectionOps(boot, s, flags))).Some?
    ensures ok ==> old(Run(pager.EnvOf(), pager.State(), SectionOps(boot, s, flags))) == Some(pager.State())
  {
    ghost var start, ops, k := pager.State(), SectionOps(boot, s, flags), 0;
    var virt, end := AlignDown(s.start), AlignUp(s.end);
    ghost var first, n := virt, SectionPages(s);
    SectionEnd(s);
    ok := true;
    while virt < end
      invariant pager.Valid() && ok && virt == first + k * 4096 && k <= n
      invariant if first < end then end == first + n * 4096 else n == 0
      invariant Run(pager.EnvOf(), start, ops[..k]) == Some(pager.State())
      decreases n - k
    {
      SectionOpAt(boot, s, flags, k, virt);
      ok := pager.MapNext(start, ops, k, KernelPhys(boot, virt), virt % WORD64, flags);
      if !ok {
        return;
      }
      virt, k := virt + FRAME_SIZE, k + 1;
    }
    assert ops[..k] == ops;
  }

  method MapKernelCode(pager: Pager, boot: Boot) returns (ok: bool)
    requires pager.Valid()
    modifies pager`mem, pager`tlb, pager`cache, pager.frames`latest, pager.frames.frames
    ensures pager.Valid()
    ensures ok <==> old(Run(pager.EnvOf(), pager.State(), KernelOps(boot))).Some?
    ensures ok ==> old(Run(pager.EnvOf(), pager.State(), KernelOps(boot))) == Some(pager.State())
  {
    ghost var env, start := pager.EnvOf(), pager.State();
    ghost var text := SectionOps(boot, boot.text, TEXT_FLAGS);
    ghost var rodata := SectionOps(boot, boot.rodata, RODATA_FLAGS);
    ghost var data := SectionOps(boot, boot.data, DATA_FLAGS);
    RunConcat(env, start, text + rodata, data);
    RunConcat(env, start, text, rodata);
    ok := MapSection(pager, boot, boot.text, TEXT_FLAGS);
    if !ok {
      return;
    }
    ok := MapSection(pager, boot, boot.rodata, RODATA_FLAGS);
    if !ok {
      return;
    }
    ok := MapSection(pager, boot, boot.data, DATA_FLAGS);
  }

  /** The three passes over memory that come first. */
  method MapMemory(pager: Pager, boot: Boot) returns (ok: bool)
    requires pager.Valid() && boot.hhdm == pager.hhdm
    modifies pager`mem, pager`tlb, pager`cache, pager.frames`latest, pager.frames.frames
    ensures pager.Valid()
    ensures ok <==> old(Run(pager.EnvOf(), pager.State(), MemoryOps(boot))).Some?
    ensures ok ==> old(Run(pager.EnvOf(), pager.State(), MemoryOps(boot))) == Some(pager.State())
  {
    ghost var env, start := pager.EnvOf(), pager.State();
    ghost var a := KindOps(boot.hhdm, boot.entries, Reclaimable);
    ghost var b := KindOps(boot.hhdm, boot.entries, Framebuffer);
    ghost var c := KindOps(boot.hhdm, boot.entries, Usable);
    RunConcat(env, start, a + b, c);
    RunConcat(env, start, a, b);
    ok := MapKind(pager, boot.entries, Reclaimable);
    if !ok {
      return;
    }
    ok := MapKind(pager, boot.entries, Framebuffer);
    if !ok {
      return;
    }
    ok := MapKind(pager, boot.entries, Usable);
  }

  method FullMap(pager: Pager, boot: Boot) returns (ok: bool)
    requires pager.Valid() && boot.hhdm == pager.hhdm
    modifies pager`mem, pager`tlb, pager`cache, pager.frames`latest, pager.frames.frames
    ensures pager.Valid()
    ensures ok <==> old(Run(pager.EnvOf(), pager.State(), FullMapOps(boot))).Some?
    ensures ok ==> old(Run(pager.EnvOf(), pager.State(), FullMapOps(boot))) == Some(pager.State())
  {
    ghost var env, start := pager.EnvOf(), pager.State();
    ghost var memory, again := MemoryOps(boot), KindOps(boot.hhdm, boot.entries, Usable);
    RunConcat(env, start, memory + again, KernelOps(boot));
    RunConcat(env, start, memory, again);
    ok := MapMemory(pager, boot);
    if !ok {
      return;
    }
    ok := MapKind(pager, boot.entries, Usable);
    if !ok {
      return;
    }
    ok := MapKernelCode(pager, boot);
  }
}
