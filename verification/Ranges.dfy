/** Ranges of consecutive pages: what `map_range` and `map_mmio` leave behind. */
module Ranges {
  import opened Bits
  import opened Options
  import opened Frames
  import opened PageTables
  import opened Translation

  const MMIO_FLAGS: nat := 0x13
  const ADDRESS_LIMIT: nat := 0x10_0000_0000_0000

  lemma MmioFlagsValue()
    ensures Or(Or(PAGE_PRESENT, PAGE_WRITE), PAGE_UNCACHE) == MMIO_FLAGS
    ensures Present(MMIO_FLAGS)
  {
    assert Or(1, 2) == 3;
    assert Or(1, 8) == 2 * Or(0, 4) + 1;
    assert Or(3, 16) == 2 * Or(1, 8) + 1;
  }

  function Phys2Virt(hhdm: nat, phys: nat): nat {
    (hhdm + phys) % WORD64
  }

  function Virt2Phys(hhdm: nat, virt: nat): nat {
    (virt - hhdm) % WORD64
  }

  lemma VirtRoundTrip(hhdm: nat, phys: nat, offset: nat)
    requires phys + offset < WORD64
    ensures Virt2Phys(hhdm, Phys2Virt(hhdm, phys) + offset) == phys + offset
  {
    var q := (hhdm + phys) / WORD64;
    assert Phys2Virt(hhdm, phys) + offset - hhdm == (phys + offset) - q * WORD64;
  }

  /** One `map` for each of n pages. */
  function RangeOps(phys: nat, virt: nat, n: nat, flags: nat): (ops: seq<Op>)
    ensures |ops| == n
  {
    seq(n, k requires 0 <= k => MapOp((phys + k * 4096) % WORD64, (virt + k * 4096) % WORD64, flags))
  }

  lemma RangeOpAt(phys: nat, virt: nat, n: nat, flags: nat, k: nat, i: nat)
    requires k < n && i == k * 4096
    ensures RangeOps(phys, virt, n, flags)[k] == MapOp((phys + i) % WORD64, (virt + i) % WORD64, flags)
  {
  }

  /** The pages the loop of `map_range` visits. */
  function PagesFor(size: nat): nat {
    (size + 4095) / 4096
  }

  /** The count that `map_range` returns, a 32-bit quotient, is the number of pages it mapped exactly
      for whole pages below 2^44 bytes. */
  lemma CountIsExact(size: nat)
    ensures size / FRAME_SIZE % WORD32 == PagesFor(size) <==> size % 4096 == 0 && size < 0x1000_0000_0000
  {
    var q := size / 4096;
    assert PagesFor(size) == if size % 4096 == 0 then q else q + 1;
    assert q < WORD32 <==> size < 0x1000_0000_0000;
  }

  /** How far a page is behind the page of an address, going round the 36-bit page numbers. */
  function Distance(virt: nat, page: nat): nat {
    (page - PageOf(virt)) % PAGES
  }

  lemma PageOfOffset(virt: nat, k: nat)
    ensures PageOf((virt + k * 4096) % WORD64) == (PageOf(virt) + k) % PAGES
  {
    var q := (virt + k * 4096) / WORD64;
    assert (virt + k * 4096) % WORD64 == virt + k * 4096 - q * WORD64;
    var v := virt / 4096;
    assert (virt + k * 4096 - q * WORD64) / 4096 == v + k - q * 0x10_0000_0000_0000;
    assert (v + k - q * 0x10_0000_0000_0000) % PAGES == (v + k) % PAGES by {
      ShiftModulus(v + k - q * 0x10_0000_0000_0000, q * 0x1_0000);
    }
    var p := v / PAGES;
    ShiftModulus(v % PAGES + k, p);
    assert v % PAGES + k + p * PAGES == v + k;
  }

  lemma ShiftModulus(x: int, j: int)
    ensures (x + j * PAGES) % PAGES == x % PAGES
  {
    QuotientOfSum(x, j);
  }

  lemma QuotientOfSum(x: int, j: int)
    ensures (x + j * PAGES) / PAGES == x / PAGES + j
  {
    var q, r := x / PAGES, x % PAGES;
    assert x + j * PAGES == (q + j) * PAGES + r;
  }

  /** The closed form of a range: n consecutive pages, counted round the page numbers, get
      consecutive frames, and every other page keeps its entry. */
  lemma {:induction false} RangeFlat(phys: nat, virt: nat, n: nat, flags: nat, page: nat, k: nat, entry: nat)
    requires n <= PAGES && page < PAGES && k == Distance(virt, page)
    ensures FlatRun(RangeOps(phys, virt, n, flags), page, entry)
         == if k < n then Or((phys + k * 4096) % WORD64, flags) else entry
    decreases n
  {
    if n != 0 {
      var ops := RangeOps(phys, virt, n, flags);
      assert ops[..n - 1] == RangeOps(phys, virt, n - 1, flags);
      RangeFlat(phys, virt, n - 1, flags, page, k, entry);
      PageOfOffset(virt, n - 1);
      LandsAt(PageOf(virt), n - 1, page);
    }
  }

  lemma LandsAt(from: nat, k: nat, page: nat)
    requires from < PAGES && k < PAGES && page < PAGES
    ensures (from + k) % PAGES == page <==> k == (page - from) % PAGES
  {
  }

  // ----- A range cannot be longer than the address space -----

  ghost predicate AllTables(t: map<Node, nat>, n: nat) {
    forall q: nat :: q < n ==> Node(1, q) in t
  }

  ghost function FrameIndex(env: Env, t: map<Node, nat>, q: nat): int
    requires Node(1, q) in t
  {
    (t[Node(1, q)] - env.base) / 4096
  }

  ghost function FrameIndices(env: Env, t: map<Node, nat>, n: nat): set<int>
    requires AllTables(t, n)
  {
    if n == 0 then {} else FrameIndices(env, t, n - 1) + {FrameIndex(env, t, n - 1)}
  }

  ghost function Interval(n: nat): (s: set<int>)
    ensures |s| == n && forall i :: i in s <==> 0 <= i < n
  {
    if n == 0 then {} else Interval(n - 1) + {n - 1}
  }

  lemma {:induction false} IndexNotEarlier(env: Env, m: Machine, t: map<Node, nat>, n: nat, q: nat)
    requires Tree(env, m, t) && AllTables(t, n) && n <= q && Node(1, q) in t
    ensures FrameIndex(env, t, q) !in FrameIndices(env, t, n)
    decreases n
  {
    if n != 0 {
      IndexNotEarlier(env, m, t, n - 1, q);
      assert Node(1, n - 1) in t;
      assert TableOk(env, m, t, Node(1, n - 1)) && TableOk(env, m, t, Node(1, q));
    }
  }

  lemma {:induction false} IndicesCount(env: Env, m: Machine, t: map<Node, nat>, n: nat)
    requires Tree(env, m, t) && AllTables(t, n)
    ensures |FrameIndices(env, t, n)| == n
    ensures forall i :: i in FrameIndices(env, t, n) ==> 0 <= i < |m.frames.used|
    decreases n
  {
    if n != 0 {
      IndicesCount(env, m, t, n - 1);
      assert Node(1, n - 1) in t;
      assert TableOk(env, m, t, Node(1, n - 1));
      IndexNotEarlier(env, m, t, n - 1, n - 1);
    }
  }

  /** Each table has its own frame, so there are no more tables than frames. */
  lemma TablesFitFrames(env: Env, m: Machine, t: map<Node, nat>, n: nat)
    requires Tree(env, m, t) && AllTables(t, n)
    ensures n <= |m.frames.used|
  {
    IndicesCount(env, m, t, n);
    SubsetSize(FrameIndices(env, t, n), Interval(|m.frames.used|));
  }

  lemma SubsetSize(a: set<int>, b: set<int>)
    requires a <= b
    ensures |a| <= |b|
  {
    assert b == a + (b - a);
  }

  /** A range that maps without running out of frames never goes round the page numbers: it would
      need a leaf table for every 512 pages of the address space. */
  lemma RangeFits(env: Env, m: Machine, phys: nat, virt: nat, n: nat, flags: nat)
    requires Sound(env, m)
    requires Run(env, m, RangeOps(phys, virt, n, flags)).Some?
    ensures n <= PAGES
  {
    if n > PAGES {
      var ops := RangeOps(phys, virt, PAGES, flags);
      assert RangeOps(phys, virt, n, flags)[..PAGES] == ops;
      RunPrefix(env, m, RangeOps(phys, virt, n, flags), PAGES);
      var t :| Tree(env, m, t) && Coherent(m, t);
      var t' := RunKeepsTree(env, m, t, ops);
      forall q: nat | q < 0x800_0000
        ensures Node(1, q) in t'
      {
        RangeReaches(phys, virt, flags, q, Distance(virt, q * 512));
        assert ops[Distance(virt, q * 512)].MapOp?;
      }
      TablesFitFrames(env, Run(env, m, ops).value, t', 0x800_0000);
    }
  }

  lemma RangeCounter(size: nat, n: nat, i: nat, k: nat)
    requires n == PagesFor(size) && i == k * 4096
    ensures i < size <==> k < n
  {
  }

  /** The loop's 64-bit counter does not wrap while the pages so far could be mapped. */
  lemma RangeSoFar(env: Env, m: Machine, phys: nat, virt: nat, n: nat, flags: nat, i: nat, k: nat)
    requires Sound(env, m) && k < n && i == k * 4096 && Run(env, m, RangeOps(phys, virt, n, flags)[..k + 1]).Some?
    ensures (i + FRAME_SIZE) % WORD64 == (k + 1) * 4096
  {
    assert RangeOps(phys, virt, n, flags)[..k + 1] == RangeOps(phys, virt, k + 1, flags);
    RangeFits(env, m, phys, virt, k + 1, flags);
    CounterStep(i, k);
  }

  lemma CounterStep(i: nat, k: nat)
    requires i == k * 4096 && k < PAGES
    ensures (i + FRAME_SIZE) % WORD64 == (k + 1) * 4096
  {
    assert i + FRAME_SIZE == (k + 1) * 4096 < WORD64;
  }

  lemma RangeReaches(phys: nat, virt: nat, flags: nat, q: nat, k: nat)
    requires q < 0x800_0000 && k == Distance(virt, q * 512)
    ensures var op := RangeOps(phys, virt, PAGES, flags)[k];
            op.MapOp? && At(PageOf(op.virt), 1) == Node(1, q)
  {
    var page := q * 512;
    RangeOpAt(phys, virt, PAGES, flags, k, k * 4096);
    PageOfOffset(virt, k);
    LandsAt(PageOf(virt), k, page);
    assert Prefix(page, 0) == page;
  }

  /** `map_range` maps exactly the pages up to the size rounded up, although it returns the size
      rounded down, and frames every other page. */
  lemma RangeTranslation(env: Env, m: Machine, m': Machine, phys: nat, virt: nat, size: nat, flags: nat,
                         page: nat, k: nat)
    requires Sound(env, m) && page < PAGES
    requires Run(env, m, RangeOps(phys, virt, PagesFor(size), flags)) == Some(m')
    requires k == Distance(virt, page)
    ensures Sound(env, m') && PagesFor(size) <= PAGES
    ensures Walk(env, m'.mem, page)
         == if k * 4096 < size then Or((phys + k * 4096) % WORD64, flags) else Walk(env, m.mem, page)
  {
    RangeFits(env, m, phys, virt, PagesFor(size), flags);
    RunRefinesFlatMap(env, m, RangeOps(phys, virt, PagesFor(size), flags), page);
    RangeFlat(phys, virt, PagesFor(size), flags, page, k, Walk(env, m.mem, page));
  }

  // ----- Memory-mapped registers -----

  function RoundDown(x: nat): nat {
    x - x % 4096
  }

  /** The size that `map_mmio` hands on: the bytes from the page start, rounded up to pages in 64
      bits. */
  function MmioSize(phys: nat, size: nat): nat {
    (size + (phys - RoundDown(phys)) + 4095) % WORD64 / 4096 * 4096
  }

  /** The rounding does not wrap. */
  predicate MmioSizeFits(phys: nat, size: nat) {
    size + phys % 4096 + 4095 < WORD64
  }

  /** When it does wrap, at most one page is mapped, whatever the size. */
  lemma MmioSizeWraps(phys: nat, size: nat)
    requires size < WORD64 && !MmioSizeFits(phys, size)
    ensures PagesFor(MmioSize(phys, size)) <= 1
  {
    var x := size + phys % 4096 + 4095;
    assert phys - RoundDown(phys) == phys % 4096;
    assert x % WORD64 == x - WORD64 < 8190;
  }

  /** The operations of `map_mmio`. */
  function MmioOps(hhdm: nat, phys: nat, size: nat): seq<Op> {
    RangeOps(RoundDown(phys), Phys2Virt(hhdm, RoundDown(phys)), PagesFor(MmioSize(phys, size)), MMIO_FLAGS)
  }

  function MmioPointer(hhdm: nat, phys: nat): nat {
    (Phys2Virt(hhdm, RoundDown(phys)) + (phys - RoundDown(phys))) % WORD64
  }

  lemma MmioLocals(hhdm: nat, phys: nat, size: nat, aligned: nat, offset: nat, virt: nat)
    requires aligned == RoundDown(phys) && offset == phys - aligned && virt == Phys2Virt(hhdm, aligned)
    ensures (virt + offset) % WORD64 == MmioPointer(hhdm, phys)
    ensures (size + offset + 4095) % WORD64 / 4096 * 4096 == MmioSize(phys, size) <= WORD64 - 4096
  {
  }

  /** The address that byte `virt` translates to: the leaf's frame and the offset in the page. */
  function ByteAddress(entry: nat, virt: nat): nat {
    HardwareAddress(entry) + virt % 4096
  }

  lemma ByteOfRange(a: nat, offset: nat)
    requires a % 4096 == 0
    ensures var v := (a + offset) % WORD64;
            v % 4096 == offset % 4096 && PageOf(v) == (PageOf(a) + offset / 4096) % PAGES
  {
    var x, j, r := a / 4096, offset / 4096, offset % 4096;
    assert a + offset == 4096 * (x + j) + r && a + j * 4096 == 4096 * (x + j);
    PageOfOffset(a, j);
    SamePage(x + j, r);
  }

  /** Where a byte behind the returned pointer lies, counted from the start of its range. */
  lemma MmioByteDistance(hhdm: nat, phys: nat, k: nat, virt: nat, v: nat, offset: nat)
    requires hhdm % 4096 == 0 && virt == Phys2Virt(hhdm, RoundDown(phys))
    requires v == (MmioPointer(hhdm, phys) + k) % WORD64 && offset == phys % 4096 + k
    ensures v % 4096 == offset % 4096 && PageOf(v) == (PageOf(virt) + offset / 4096) % PAGES
  {
    assert virt % 4096 == 0 by {
      assert RoundDown(phys) == 4096 * (phys / 4096);
      AlignedModulo(hhdm / 4096, phys / 4096);
    }
    WrapTwice(virt, phys % 4096, k);
    ByteOfRange(virt, offset);
  }

  /** The byte's page is one of those mapped, and holds the frame the byte is in. */
  lemma MmioPages(phys: nat, size: nat, k: nat, aligned: nat, offset: nat, j: nat, bytes: nat)
    requires MmioSizeFits(phys, size) && k < size
    requires aligned == RoundDown(phys) && offset == phys % 4096 + k && j == offset / 4096 && bytes == MmioSize(phys, size)
    ensures (aligned + j * 4096) % 4096 == 0 && j * 4096 < bytes
    ensures aligned + j * 4096 + offset % 4096 == phys + k
  {
    assert aligned == 4096 * (phys / 4096);
    assert offset < size + (phys - aligned);
  }

  lemma AlignedModulo(a: nat, b: nat)
    ensures (4096 * a + 4096 * b) % WORD64 % 4096 == 0
  {
  }

  lemma WrapTwice(a: nat, b: nat, c: nat)
    ensures ((a + b) % WORD64 + c) % WORD64 == (a + (b + c)) % WORD64
  {
  }

  /** Bytes of one page stay in one page when addresses wrap. */
  lemma SamePage(x: nat, offset: nat)
    requires offset < 4096
    ensures (4096 * x + offset) % WORD64 / 4096 == 4096 * x % WORD64 / 4096
    ensures (4096 * x + offset) % WORD64 % 4096 == offset
  {
    var q := x / 0x10_0000_0000_0000;
    var r := x % 0x10_0000_0000_0000;
    assert 4096 * x == q * WORD64 + 4096 * r;
    assert (4096 * x + offset) % WORD64 == 4096 * r + offset;
  }

  /** What a byte of a mapped range translates to. */
  ghost predicate ReachesByte(env: Env, mem: Memory, v: nat, target: nat, flags: nat) {
    var entry := Walk(env, mem, PageOf(v));
    ByteAddress(entry, v) == target && entry == HardwareAddress(entry) + flags
  }

  lemma OrLowFlags(frame: nat, flags: nat)
    requires frame % 4096 == 0 && flags < 4096
    ensures Or(frame, flags) == frame + flags
  {
    var x := frame / 4096;
    OrDisjoint12(x, 0, flags);
    assert Or(x, 0) == x;
  }

  lemma WordOfFrame(x: nat, y: nat, q: nat)
    requires x == q * 0x10_0000_0000_0000 + y && y < 0x10_0000_0000_0000
    ensures 4096 * x % WORD64 == 4096 * y
  {
    assert 4096 * x == q * WORD64 + 4096 * y;
  }

  lemma LowPages(x: nat, y: nat, q: nat)
    requires x == q * 0x10_0000_0000_0000 + y
    ensures x % 0x100_0000_0000 == y % 0x100_0000_0000
  {
    var r, z := y / 0x100_0000_0000, y % 0x100_0000_0000;
    assert x == (q * 4096 + r) * 0x100_0000_0000 + z;
  }

  lemma AddressOfLeaf(y: nat, flags: nat)
    requires flags < 4096
    ensures HardwareAddress(4096 * y + flags) == 4096 * (y % 0x100_0000_0000)
  {
    assert (4096 * y + flags) / 4096 == y;
  }

  /** The entry of a frame: the frame in 64 bits, plus the flags. */
  lemma LeafValue(x: nat, y: nat, flags: nat)
    requires flags < 4096 && y == x % 0x10_0000_0000_0000
    ensures Or(4096 * x % WORD64, flags) == 4096 * y + flags
  {
    WordOfFrame(x, y, x / 0x10_0000_0000_0000);
    OrLowFlags(4096 * y, flags);
  }

  lemma LeafTarget(x: nat, y: nat, z: nat, flags: nat)
    requires flags < 4096 && y == x % 0x10_0000_0000_0000 && z == x % 0x100_0000_0000
    ensures HardwareAddress(4096 * y + flags) == 4096 * z
  {
    LowPages(x, y, x / 0x10_0000_0000_0000);
    AddressOfLeaf(y, flags);
  }

  /** A leaf has room for addresses below 2^52, and the bytes of its page translate to their address
      modulo 2^52: to the address itself exactly below that limit. */
  lemma LeafReaches(x: nat, y: nat, z: nat, flags: nat, rest: nat, entry: nat, target: nat)
    requires rest < 4096 && y == x % 0x10_0000_0000_0000 && z == x % 0x100_0000_0000
    requires entry == 4096 * y + flags && target == 4096 * z
    ensures target + rest == 4096 * x + rest && entry == target + flags <==> 4096 * x + rest < ADDRESS_LIMIT
  {
  }

  lemma FrameReaches(x: nat, frame: nat, flags: nat, entry: nat, rest: nat)
    requires frame == 4096 * x && flags < 4096 && rest < 4096 && entry == Or(frame % WORD64, flags)
    ensures HardwareAddress(entry) + rest == frame + rest && entry == HardwareAddress(entry) + flags
       <==> frame + rest < ADDRESS_LIMIT
  {
    var y, z := x % 0x10_0000_0000_0000, x % 0x100_0000_0000;
    LeafValue(x, y, flags);
    LeafTarget(x, y, z, flags);
    LeafReaches(x, y, z, flags, rest, entry, 4096 * z);
  }

  lemma RangeEntry(env: Env, m: Machine, m': Machine, phys: nat, virt: nat, size: nat, flags: nat, page: nat, j: nat,
                   frame: nat)
    requires Sound(env, m) && j * 4096 < size && page == (PageOf(virt) + j) % PAGES
    requires Run(env, m, RangeOps(phys, virt, PagesFor(size), flags)) == Some(m')
    requires frame == phys + j * 4096
    ensures Walk(env, m'.mem, page) == Or(frame % WORD64, flags)
  {
    RangeFits(env, m, phys, virt, PagesFor(size), flags);
    DistanceOfPage(virt, size, j, page);
    RangeTranslation(env, m, m', phys, virt, size, flags, page, j);
    SameWord(phys, j, frame, flags);
  }

  lemma SameWord(phys: nat, j: nat, frame: nat, flags: nat)
    requires frame == phys + j * 4096
    ensures Or((phys + j * 4096) % WORD64, flags) == Or(frame % WORD64, flags)
  {
  }

  lemma ByteReached(env: Env, mem: Memory, v: nat, frame: nat, flags: nat, rest: nat, target: nat)
    requires frame % 4096 == 0 && flags < 4096 && rest == v % 4096 && target == frame + rest
    requires Walk(env, mem, PageOf(v)) == Or(frame % WORD64, flags)
    ensures ReachesByte(env, mem, v, target, flags) <==> target < ADDRESS_LIMIT
  {
    FrameReaches(frame / 4096, frame, flags, Or(frame % WORD64, flags), rest);
  }

  lemma RangeByte(env: Env, m: Machine, m': Machine, phys: nat, virt: nat, size: nat, flags: nat, v: nat, j: nat,
                  page: nat, frame: nat, rest: nat)
    requires Sound(env, m) && flags < 4096
    requires Run(env, m, RangeOps(phys, virt, PagesFor(size), flags)) == Some(m')
    requires frame == phys + j * 4096 && frame % 4096 == 0 && j * 4096 < size
    requires page == (PageOf(virt) + j) % PAGES && page == PageOf(v) && rest == v % 4096
    ensures ReachesByte(env, m'.mem, v, frame + rest, flags) <==> frame + rest < ADDRESS_LIMIT
  {
    RangeEntry(env, m, m', phys, virt, size, flags, page, j, frame);
    ByteReached(env, m'.mem, v, frame, flags, rest, frame + rest);
  }

  lemma DistanceOfPage(virt: nat, size: nat, j: nat, page: nat)
    requires j * 4096 < size && PagesFor(size) <= PAGES && page == (PageOf(virt) + j) % PAGES
    ensures j == Distance(virt, page)
  {
    LandsAt(PageOf(virt), j, page);
  }

  /** Every byte of the region is reached through the returned pointer, uncached and writable, if and
      only if its address is below 2^52, the highest that an entry has room for. */
  lemma MmioBytes(env: Env, m: Machine, m': Machine, phys: nat, size: nat, k: nat)
    requires Sound(env, m) && env.hhdm % 4096 == 0
    requires MmioSizeFits(phys, size) && k < size
    requires Run(env, m, MmioOps(env.hhdm, phys, size)) == Some(m')
    ensures ReachesByte(env, m'.mem, (MmioPointer(env.hhdm, phys) + k) % WORD64, phys + k, MMIO_FLAGS)
       <==> phys + k < ADDRESS_LIMIT
  {
    MmioByte(env, m, m', phys, size, k, RoundDown(phys), Phys2Virt(env.hhdm, RoundDown(phys)),
             MmioSize(phys, size), (MmioPointer(env.hhdm, phys) + k) % WORD64);
  }

  lemma MmioByte(env: Env, m: Machine, m': Machine, phys: nat, size: nat, k: nat, aligned: nat, virt: nat,
                 bytes: nat, v: nat)
    requires Sound(env, m) && env.hhdm % 4096 == 0
    requires MmioSizeFits(phys, size) && k < size
    requires aligned == RoundDown(phys) && virt == Phys2Virt(env.hhdm, aligned) && bytes == MmioSize(phys, size)
    requires v == (MmioPointer(env.hhdm, phys) + k) % WORD64
    requires Run(env, m, RangeOps(aligned, virt, PagesFor(bytes), MMIO_FLAGS)) == Some(m')
    ensures ReachesByte(env, m'.mem, v, phys + k, MMIO_FLAGS) <==> phys + k < ADDRESS_LIMIT
  {
    var j, frame, page, rest := MmioTarget(env.hhdm, phys, size, k, aligned, virt, bytes, v);
    RangeByte(env, m, m', aligned, virt, bytes, MMIO_FLAGS, v, j, page, frame, rest);
  }

  /** Which page of the range a byte is in. */
  lemma MmioTarget(hhdm: nat, phys: nat, size: nat, k: nat, aligned: nat, virt: nat, bytes: nat,
                   v: nat) returns (j: nat, frame: nat, page: nat, rest: nat)
    requires hhdm % 4096 == 0 && MmioSizeFits(phys, size) && k < size
    requires aligned == RoundDown(phys) && virt == Phys2Virt(hhdm, aligned) && bytes == MmioSize(phys, size)
    requires v == (MmioPointer(hhdm, phys) + k) % WORD64
    ensures j * 4096 < bytes && frame == aligned + j * 4096 && frame % 4096 == 0
    ensures rest == v % 4096 && frame + rest == phys + k
    ensures page == PageOf(v) && page == (PageOf(virt) + j) % PAGES
  {
    var offset := phys % 4096 + k;
    j := offset / 4096;
    frame, page, rest := aligned + j * 4096, PageOf(v), v % 4096;
    MmioPages(phys, size, k, aligned, offset, j, bytes);
    MmioByteDistance(hhdm, phys, k, virt, v, offset);
  }

  // ----- Pages that `map_mmio` leaves alone -----

  /** The pointer is the direct-map address of the region. */
  lemma MmioPointerIs(hhdm: nat, phys: nat)
    ensures MmioPointer(hhdm, phys) == (hhdm + phys) % WORD64
  {
    WrapTwice(hhdm, RoundDown(phys), phys - RoundDown(phys));
  }

  /** A byte of the region on the k-th page of the range. */
  lemma MmioByteOn(phys: nat, size: nat, j: nat, bytes: nat) returns (k: nat)
    requires MmioSizeFits(phys, size) && 0 < size && bytes == MmioSize(phys, size) && j * 4096 < bytes
    ensures k < size && (phys % 4096 + k) / 4096 == j
  {
    var offset := phys % 4096;
    assert bytes == (size + offset + 4095) / 4096 * 4096;
    assert j * 4096 < size + offset;
    k := if j == 0 then 0 else j * 4096 - offset;
  }

  /** The address of byte k of the region, through the pointer. */
  function MmioAddress(hhdm: nat, phys: nat, k: nat): nat {
    (MmioPointer(hhdm, phys) + k) % WORD64
  }

  /** Every page of the range holds a byte of the region. */
  lemma MmioPageHasByte(hhdm: nat, phys: nat, size: nat, page: nat, virt: nat, j: nat)
    requires hhdm % 4096 == 0 && MmioSizeFits(phys, size) && 0 < size && page < PAGES
    requires virt == Phys2Virt(hhdm, RoundDown(phys)) && j == Distance(virt, page)
    requires j * 4096 < MmioSize(phys, size)
    ensures exists k :: 0 <= k < size && PageOf(MmioAddress(hhdm, phys, k)) == page
  {
    var k := MmioByteOn(phys, size, j, MmioSize(phys, size));
    MmioByteDistance(hhdm, phys, k, virt, MmioAddress(hhdm, phys, k), phys % 4096 + k);
    LandsAt(PageOf(virt), j, page);
  }

  /** A page that no byte of the region lies on keeps its entry. */
  lemma MmioOtherPages(env: Env, m: Machine, m': Machine, phys: nat, size: nat, page: nat)
    requires Sound(env, m) && env.hhdm % 4096 == 0 && page < PAGES
    requires MmioSizeFits(phys, size) && 0 < size && Run(env, m, MmioOps(env.hhdm, phys, size)) == Some(m')
    requires forall k :: 0 <= k < size ==> PageOf(MmioAddress(env.hhdm, phys, k)) != page
    ensures Walk(env, m'.mem, page) == Walk(env, m.mem, page)
  {
    var virt, bytes := Phys2Virt(env.hhdm, RoundDown(phys)), MmioSize(phys, size);
    MmioOutside(env.hhdm, phys, size, page, virt, Distance(virt, page));
    RangeOutside(env, m, m', RoundDown(phys), virt, bytes, MMIO_FLAGS, page);
  }

  lemma MmioOutside(hhdm: nat, phys: nat, size: nat, page: nat, virt: nat, j: nat)
    requires hhdm % 4096 == 0 && MmioSizeFits(phys, size) && 0 < size && page < PAGES
    requires virt == Phys2Virt(hhdm, RoundDown(phys)) && j == Distance(virt, page)
    requires forall k :: 0 <= k < size ==> PageOf(MmioAddress(hhdm, phys, k)) != page
    ensures j * 4096 >= MmioSize(phys, size)
  {
    if j * 4096 < MmioSize(phys, size) {
      MmioPageHasByte(hhdm, phys, size, page, virt, j);
    }
  }

  lemma RangeOutside(env: Env, m: Machine, m': Machine, phys: nat, virt: nat, size: nat, flags: nat, page: nat)
    requires Sound(env, m) && page < PAGES && Distance(virt, page) * 4096 >= size
    requires Run(env, m, RangeOps(phys, virt, PagesFor(size), flags)) == Some(m')
    ensures Walk(env, m'.mem, page) == Walk(env, m.mem, page)
  {
    RangeTranslation(env, m, m', phys, virt, size, flags, page, Distance(virt, page));
  }

  lemma RangeFirst(env: Env, m: Machine, m': Machine, phys: nat, virt: nat, size: nat, flags: nat, page: nat)
    requires Sound(env, m) && page < PAGES && 0 < size && Distance(virt, page) == 0
    requires Run(env, m, RangeOps(phys, virt, PagesFor(size), flags)) == Some(m')
    ensures Walk(env, m'.mem, page) == Or(phys % WORD64, flags)
  {
    RangeTranslation(env, m, m', phys, virt, size, flags, page, 0);
  }

  lemma MmioEmptySize(phys: nat)
    ensures MmioSize(phys, 0) == if phys % 4096 == 0 then 0 else 4096
  {
    var offset := phys % 4096;
    assert phys - RoundDown(phys) == offset;
  }

  /** The only page of such a range is the pointer's. */
  lemma MmioEmptyPage(hhdm: nat, phys: nat, page: nat, virt: nat)
    requires hhdm % 4096 == 0 && page < PAGES && virt == Phys2Virt(hhdm, RoundDown(phys))
    ensures Distance(virt, page) == 0 <==> page == PageOf(MmioPointer(hhdm, phys))
  {
    MmioByteDistance(hhdm, phys, 0, virt, MmioPointer(hhdm, phys), phys % 4096);
    LandsAt(PageOf(virt), 0, page);
  }

  /** A region of no bytes: nothing happens at an aligned address, and the page of any other address
      is mapped. */
  lemma MmioEmpty(env: Env, m: Machine, m': Machine, phys: nat, page: nat)
    requires Sound(env, m) && env.hhdm % 4096 == 0 && page < PAGES
    requires Run(env, m, MmioOps(env.hhdm, phys, 0)) == Some(m')
    ensures phys % 4096 == 0 || page != PageOf(MmioPointer(env.hhdm, phys)) ==>
              Walk(env, m'.mem, page) == Walk(env, m.mem, page)
    ensures phys % 4096 != 0 && page == PageOf(MmioPointer(env.hhdm, phys)) ==>
              Walk(env, m'.mem, page) == Or((phys - phys % 4096) % WORD64, MMIO_FLAGS)
  {
    var virt, bytes := Phys2Virt(env.hhdm, RoundDown(phys)), MmioSize(phys, 0);
    MmioEmptySize(phys);
    MmioEmptyPage(env.hhdm, phys, page, virt);
    if Distance(virt, page) * 4096 >= bytes {
      RangeOutside(env, m, m', RoundDown(phys), virt, bytes, MMIO_FLAGS, page);
    } else {
      RangeFirst(env, m, m', RoundDown(phys), virt, bytes, MMIO_FLAGS, page);
    }
  }
}
