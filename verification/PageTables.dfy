/** Four-level page tables in physical memory, as functions on the machine state: the kernel's
    `map` and `unmap`, the hardware's walk, and the tree invariant that ties them together. */
module PageTables {
  import opened Bits
  import opened Options
  import opened Frames

  const PTE_MASK: nat := 0x0000_FFFF_FFFF_F000
  const PAGE_PRESENT: nat := 0x1
  const PAGE_WRITE: nat := 0x2
  const PAGE_USER: nat := 0x4
  const PAGE_UNCACHE: nat := 0x10
  const PAGE_NX: nat := 0x8000_0000_0000_0000
  const PAGES: nat := 0x10_0000_0000

  /** A physical frame that holds a table, by address, and its 512 entries. */
  type Memory = map<nat, seq<nat>>

  /** `base` is the physical address of the frame region, `root` that of the top table, and
      `hhdm` the virtual address at which physical memory starts. */
  datatype Env = Env(hhdm: nat, base: nat, root: nat)

  /** A table or page, by level and by the part of the page number that selects it. Level 4 is
      the top table, level 1 holds the leaves, and level 0 is the page itself. */
  datatype Node = Node(level: nat, prefix: nat)

  /** `tlb` caches leaf entries by page number, `cache` the entries above them. */
  datatype Machine = Machine(mem: Memory, frames: FrameState, tlb: map<nat, nat>, cache: map<Node, nat>)

  // ----- Entries and indices -----

  predicate Present(entry: nat): (r: bool)
    ensures r <==> entry % 2 == 1
  {
    AndHalves(entry, PAGE_PRESENT);
    And(entry, PAGE_PRESENT) != 0
  }

  function PteAddress(entry: nat): (r: nat)
    ensures r == entry / 4096 % PAGES * 4096
  {
    MaskAddress(entry);
    And(entry, PTE_MASK)
  }

  lemma MaskAddress(entry: nat)
    ensures And(entry, PTE_MASK) == entry / 4096 % PAGES * 4096
  {
    ShiftValues(PAGES - 1);
    AndHighMask(entry, PAGES - 1, 12);
    ShiftValues(entry);
    Mask36(entry / 4096);
    ShiftValues(entry / 4096 % PAGES);
  }

  lemma Mask36(x: nat)
    ensures And(x, PAGES - 1) == x % PAGES
  {
    Shift36(1);
    AndLowMask(x, 36);
    Shift36(Shr(x, 36));
  }

  lemma Shift36(x: nat)
    ensures Shl(x, 36) == PAGES * x
  {
    ShiftAdds(x, 12, 12);
    ShiftAdds(x, 24, 12);
    ShiftValues(x);
    ShiftValues(Shl(x, 12));
    ShiftValues(Shl(x, 24));
  }

  function Index(virt: nat, shift: nat): (r: nat)
    ensures r == Shr(virt, shift) % 512
  {
    Mask9(Shr(virt, shift));
    And(Shr(virt, shift), 0x1ff)
  }

  lemma Mask9(x: nat)
    ensures And(x, 0x1ff) == x % 512
  {
    ShiftValues(1);
    ShiftValues(x);
    AndLowMask(x, 9);
    ShiftValues(x / 512);
  }

  /** The entry written for a new table. */
  function TableEntry(address: nat): (r: nat)
    ensures address % 4096 == 0 ==> r == address + PAGE_PRESENT + PAGE_WRITE
  {
    if address % 4096 == 0 then TableEntryValue(address / 4096); Or(Or(address, PAGE_PRESENT), PAGE_WRITE)
    else Or(Or(address, PAGE_PRESENT), PAGE_WRITE)
  }

  lemma TableEntryValue(page: nat)
    ensures Or(Or(4096 * page, 1), 2) == 4096 * page + 3
  {
    ShiftValues(1);
    ShiftValues(page);
    ShlZero(12);
    OrDisjoint12(page, 0, 1);
    assert Or(page, 0) == page && Or(1, 2) == 3;
    OrByParts(page, 1, 0, 2, 12);
  }

  /** The page number of an address: bits 12 to 47. */
  function PageOf(virt: nat): nat {
    virt / 4096 % PAGES
  }

  /** The part of a page number that selects its table at a level. */
  function Prefix(page: nat, level: nat): nat {
    if level == 0 then page else Prefix(page, level - 1) / 512
  }

  function At(page: nat, level: nat): Node {
    Node(level, Prefix(page, level))
  }

  function Parent(n: Node): Node {
    Node(n.level + 1, n.prefix / 512)
  }

  const ROOT := Node(4, 0)

  lemma PathOfPage(page: nat)
    requires page < PAGES
    ensures At(page, 4) == ROOT
    ensures forall level: nat :: Parent(At(page, level)) == At(page, level + 1)
  {
    assert Prefix(page, 2) == Prefix(page, 1) / 512 == page / 512 / 512;
    assert Prefix(page, 4) == Prefix(page, 3) / 512 == Prefix(page, 2) / 512 / 512;
  }

  /** The four indices of the source are the four digits of the page number. */
  lemma IndicesOfAddress(virt: nat)
    ensures Index(virt, 12) == Prefix(PageOf(virt), 0) % 512
    ensures Index(virt, 21) == Prefix(PageOf(virt), 1) % 512
    ensures Index(virt, 30) == Prefix(PageOf(virt), 2) % 512
    ensures Index(virt, 39) == Prefix(PageOf(virt), 3) % 512
  {
    var v := virt / 4096;
    ShiftValues(virt);
    ShiftValues(v);
    ShiftValues(v / 512);
    ShiftValues(v / 512 / 512);
    ShiftAdds(virt, 12, 9);
    ShiftAdds(virt, 21, 9);
    ShiftAdds(virt, 30, 9);
    DigitsOfRemainder(v);
  }

  lemma DigitsOfRemainder(v: nat)
    ensures v % PAGES % 512 == v % 512
    ensures v % PAGES / 512 % 512 == v / 512 % 512
    ensures v % PAGES / 512 / 512 % 512 == v / 512 / 512 % 512
    ensures v % PAGES / 512 / 512 / 512 % 512 == v / 512 / 512 / 512 % 512
  {
    DropDigit(v, v / PAGES, v % PAGES, 0x800_0000);
    DropDigit(v / 512, v / PAGES, v % PAGES / 512, 0x4_0000);
    DropDigit(v / 512 / 512, v / PAGES, v % PAGES / 512 / 512, 512);
  }

  /** Dividing by 512 takes one digit off a number and off its remainder alike. */
  lemma DropDigit(v: nat, q: nat, r: nat, m: nat)
    requires m == 0x800_0000 || m == 0x4_0000 || m == 512
    requires v == q * (512 * m) + r && r < 512 * m
    ensures v / 512 == q * m + r / 512 && r / 512 < m && v % 512 == r % 512
    ensures m == 512 ==> v / 512 % 512 == r / 512 % 512
  {
    assert v == 512 * (q * m + r / 512) + r % 512;
  }

  // ----- Table memory -----

  function Read(mem: Memory, table: nat, i: nat): nat {
    if table in mem && i < |mem[table]| then mem[table][i] else 0
  }

  function Write(mem: Memory, table: nat, i: nat, entry: nat): Memory {
    if table in mem && i < |mem[table]| then
      var row: seq<nat> := mem[table][i := entry];
      mem[table := row]
    else mem
  }

  function Zeroed(): (r: seq<nat>)
    ensures |r| == 512 && forall i :: 0 <= i < 512 ==> r[i] == 0
  {
    seq(512, i => 0)
  }

  // ----- map and unmap -----

  /** One level of `map`: follow the entry, or link a fresh zeroed table. `None` stands for the
      null pointer of an exhausted allocator, which the source would go on to dereference. */
  function Descend(env: Env, m: Machine, table: nat, i: nat): Option<(Machine, nat)>
    requires InRange(m.frames)
  {
    var entry := Read(m.mem, table, i);
    if Present(entry) then Some((m, PteAddress(entry)))
    else
      match AllocSpec(m.frames)
      case (_, None) => None
      case (frames', Some(k)) =>
        var created := env.base + k * FRAME_SIZE;
        var mem' := Write(m.mem[created := Zeroed()], table, i, TableEntry(created));
        Some((m.(mem := mem', frames := frames'), created))
  }

  /** Reloading cr3 drops every cached translation. */
  function Flush(m: Machine): Machine {
    m.(tlb := map[], cache := map[])
  }

  function SetLeaf(m: Machine, table: nat, i: nat, entry: nat, flush: bool): Machine {
    var m' := m.(mem := Write(m.mem, table, i, entry));
    if flush then Flush(m') else m'
  }

  function Tables(env: Env, m: Machine, virt: nat): Option<(Machine, nat)>
    requires InRange(m.frames)
  {
    match Descend(env, m, env.root, Index(virt, 39))
    case None => None
    case Some((m3, pml3)) =>
      match Descend(env, m3, pml3, Index(virt, 30))
      case None => None
      case Some((m2, pml2)) => Descend(env, m2, pml2, Index(virt, 21))
  }

  function MapSpec(env: Env, m: Machine, phys: nat, virt: nat, flags: nat): Option<Machine>
    requires InRange(m.frames)
  {
    match Tables(env, m, virt)
    case None => None
    case Some((m1, pml1)) =>
      var i := Index(virt, 12);
      Some(SetLeaf(m1, pml1, i, Or(phys, flags), Present(Read(m1.mem, pml1, i))))
  }

  /** One level of `unmap`: follow a present entry only. */
  function Follow(m: Machine, table: nat, i: nat): Option<nat> {
    var entry := Read(m.mem, table, i);
    if Present(entry) then Some(PteAddress(entry)) else None
  }

  function UnmapSpec(env: Env, m: Machine, virt: nat): Machine {
    match Follow(m, env.root, Index(virt, 39))
    case None => m
    case Some(pml3) =>
      match Follow(m, pml3, Index(virt, 30))
      case None => m
      case Some(pml2) =>
        match Follow(m, pml2, Index(virt, 21))
        case None => m
        case Some(pml1) => SetLeaf(m, pml1, Index(virt, 12), 0, true)
  }

  // ----- The hardware's walk (section 4.5 of the Intel SDM, volume 3A) -----

  /** The hardware takes the address from bits 12 to 51, the kernel from bits 12 to 47. */
  function HardwareAddress(entry: nat): nat {
    entry / 4096 % 0x100_0000_0000 * 4096
  }

  /** The entry that selects the page's node at level `target`, found from its table at a higher
      level; an entry that is not present when the walk stops early. */
  function WalkFrom(mem: Memory, table: nat, level: nat, page: nat, target: nat): nat
    requires target < level
    decreases level
  {
    var entry := Read(mem, table, Prefix(page, level - 1) % 512);
    if level == target + 1 then entry
    else if Present(entry) then WalkFrom(mem, HardwareAddress(entry), level - 1, page, target)
    else 0
  }

  /** The leaf entry for a page number, or an entry that is not present. */
  function Walk(env: Env, mem: Memory, page: nat): nat {
    WalkFrom(mem, env.root, 4, page, 0)
  }

  function Bit(entry: nat, k: nat): bool {
    Shr(entry, k) % 2 == 1
  }

  datatype Rights = Rights(write: bool, user: bool, execute: bool)

  /** Access rights combine over all levels (section 4.6): writing and user access need the bit
      at every level, execution is refused by a no-execute bit at any level. */
  function RightsFrom(mem: Memory, table: nat, level: nat, page: nat): Rights
    requires 0 < level
    decreases level
  {
    var entry := Read(mem, table, Prefix(page, level - 1) % 512);
    var own := EntryRights(entry);
    if level == 1 || !Present(entry) then own
    else
      var below := RightsFrom(mem, HardwareAddress(entry), level - 1, page);
      Rights(own.write && below.write, own.user && below.user, own.execute && below.execute)
  }

  function EntryRights(entry: nat): Rights {
    Rights(Bit(entry, 1), Bit(entry, 2), !Bit(entry, 63))
  }

  // ----- The tree invariant -----

  predicate OwnedFrame(env: Env, frames: FrameState, address: nat) {
    && env.base <= address && (address - env.base) % 4096 == 0
    && (address - env.base) / 4096 < |frames.used|
    && frames.used[(address - env.base) / 4096]
  }

  predicate EnvOk(env: Env) {
    env.base % 4096 == 0 && env.base + 0x1_0000_0000 <= 0x1_0000_0000_0000
  }

  ghost predicate TableOk(env: Env, m: Machine, t: map<Node, nat>, n: Node) {
    n in t ==>
      && 1 <= n.level <= 4
      && (n.level == 4 ==> n == ROOT)
      && (n.level < 4 ==> Parent(n) in t)
      && t[n] in m.mem && |m.mem[t[n]]| == 512
      && OwnedFrame(env, m.frames, t[n])
  }

  /** The entry that selects a table is exactly its frame address with PRESENT and WRITE, and an
      entry that selects none is zero. */
  ghost predicate SlotOk(mem: Memory, t: map<Node, nat>, n: Node) {
    1 <= n.level <= 3 && Parent(n) in t ==>
      Read(mem, t[Parent(n)], n.prefix % 512)
        == if n in t then t[n] + PAGE_PRESENT + PAGE_WRITE else 0
  }

  ghost predicate Injective(t: map<Node, nat>) {
    forall a, b :: a in t && b in t && t[a] == t[b] ==> a == b
  }

  /** `t` gives the frame of each table in use. No two tables share a frame, at one level or
      across levels. */
  ghost predicate Tree(env: Env, m: Machine, t: map<Node, nat>) {
    && EnvOk(env) && InRange(m.frames) && |m.frames.used| <= 0x10_0000
    && ROOT in t && t[ROOT] == env.root
    && (forall n :: TableOk(env, m, t, n))
    && (forall n :: SlotOk(m.mem, t, n))
    && Injective(t)
  }

  /** The leaf entry of a page, read through `t` instead of through the tables. */
  ghost function Leaf(mem: Memory, t: map<Node, nat>, page: nat): nat {
    if At(page, 1) in t then Read(mem, t[At(page, 1)], page % 512) else 0
  }

  ghost predicate SameLeaves(m: Machine, t: map<Node, nat>, m': Machine, t': map<Node, nat>) {
    forall page: nat :: Leaf(m'.mem, t', page) == Leaf(m.mem, t, page)
  }

  /** A table entry leads both the kernel and the hardware to the table. */
  lemma EntryLeadsToTable(env: Env, m: Machine, t: map<Node, nat>, n: Node)
    requires Tree(env, m, t) && n in t
    ensures var entry := t[n] + PAGE_PRESENT + PAGE_WRITE;
            && Present(entry)
            && PteAddress(entry) == t[n] == HardwareAddress(entry)
            && EntryRights(entry) == Rights(true, false, true)
  {
    assert TableOk(env, m, t, n);
    TableEntryOf(env.base, t[n], t[n] + 3);
  }

  lemma TableEntryOf(base: nat, address: nat, entry: nat)
    requires base % 4096 == 0 && base + 0x1_0000_0000 <= 0x1_0000_0000_0000
    requires base <= address && (address - base) % 4096 == 0 && (address - base) / 4096 < 0x10_0000
    requires entry == address + 3
    ensures Present(entry) && PteAddress(entry) == address == HardwareAddress(entry)
    ensures EntryRights(entry) == Rights(true, false, true)
  {
    var a := base / 4096 + (address - base) / 4096;
    AlignedSum(base, address, a);
    TableEntryAddress(a, entry);
    TableEntryRights(a, entry);
  }

  lemma TableEntryAddress(a: nat, entry: nat)
    requires a < PAGES && entry == 4096 * a + 3
    ensures Present(entry) && PteAddress(entry) == 4096 * a == HardwareAddress(entry)
  {
    assert entry / 4096 == a && entry == 2 * (2048 * a + 1) + 1;
  }

  lemma TableEntryRights(a: nat, entry: nat)
    requires a < PAGES && entry == 4096 * a + 3
    ensures EntryRights(entry) == Rights(true, false, true)
  {
    LowBits(1024 * a, 3);
    NoTopBit(entry);
  }

  lemma NoTopBit(x: nat)
    requires x < PAGE_NX
    ensures !Bit(x, 63)
  {
    TopBit();
    ShrSmall(x, 63);
  }

  lemma LowBits(x: nat, low: nat)
    requires low < 4
    ensures Bit(4 * x + low, 1) == (low / 2 == 1) && Bit(4 * x + low, 2) == (x % 2 == 1)
  {
    var e := 4 * x + low;
    assert Shr(e, 1) == Shr(e / 2, 0) == e / 2 == 2 * x + low / 2;
    assert Shr(e, 2) == Shr(e / 2, 1) == Shr(e / 2 / 2, 0) == x;
  }

  lemma AlignedSum(base: nat, address: nat, a: nat)
    requires base % 4096 == 0 && base <= address && (address - base) % 4096 == 0
    requires base + 0x1_0000_0000 <= 0x1_0000_0000_0000 && (address - base) / 4096 < 0x10_0000
    requires a == base / 4096 + (address - base) / 4096
    ensures address == 4096 * a && a < PAGES
  {
  }

  lemma {:induction false} ShrSmall(x: nat, k: nat)
    requires x < Shl(1, k)
    ensures Shr(x, k) == 0
    decreases k
  {
    if k != 0 {
      ShrSmall(x / 2, k - 1);
    }
  }

  lemma TopBit()
    ensures Shl(1, 63) == PAGE_NX
  {
    Shift36(1);
    ShiftAdds(1, 36, 12);
    ShiftValues(PAGES);
    ShiftAdds(1, 48, 12);
    ShiftValues(4096 * PAGES);
    ShiftAdds(1, 60, 3);
    Shift3(Shl(1, 60));
  }

  /** Every table but the root is selected by an entry of its parent. */
  lemma TableIsSelected(env: Env, m: Machine, t: map<Node, nat>, n: Node)
    requires Tree(env, m, t) && n in t && n != ROOT
    ensures Parent(n) in t
    ensures var entry := Read(m.mem, t[Parent(n)], n.prefix % 512);
            Present(entry) && HardwareAddress(entry) == t[n]
  {
    assert TableOk(env, m, t, n) && SlotOk(m.mem, t, n);
    EntryLeadsToTable(env, m, t, n);
  }

  /** What an entry above the leaves selects, when it is present. */
  lemma EntrySelects(env: Env, m: Machine, t: map<Node, nat>, table: Node, i: nat)
    requires Tree(env, m, t) && table in t && 2 <= table.level && i < 512
    ensures var entry := Read(m.mem, t[table], i);
            var child := Node(table.level - 1, table.prefix * 512 + i);
            Present(entry) ==> child in t && HardwareAddress(entry) == t[child]
  {
    var child := Node(table.level - 1, table.prefix * 512 + i);
    assert Parent(child) == table && child.prefix % 512 == i;
    assert TableOk(env, m, t, table) && SlotOk(m.mem, t, child);
    if child in t {
      EntryLeadsToTable(env, m, t, child);
    }
  }

  /** And by no other: two present entries above the leaves that hold the same address are the same
      entry of the same table. */
  lemma SelectedOnce(env: Env, m: Machine, t: map<Node, nat>, a: Node, i: nat, b: Node, j: nat)
    requires Tree(env, m, t) && a in t && b in t && 2 <= a.level && 2 <= b.level && i < 512 && j < 512
    requires Present(Read(m.mem, t[a], i)) && Present(Read(m.mem, t[b], j))
    requires HardwareAddress(Read(m.mem, t[a], i)) == HardwareAddress(Read(m.mem, t[b], j))
    ensures a == b && i == j
  {
    EntrySelects(env, m, t, a, i);
    EntrySelects(env, m, t, b, j);
  }

  // ----- The walk reads the leaves -----

  /** What the entry that selects a node must hold. */
  ghost function Selecting(mem: Memory, t: map<Node, nat>, n: Node): nat {
    if n.level == 0 then Leaf(mem, t, n.prefix)
    else if n in t then t[n] + PAGE_PRESENT + PAGE_WRITE
    else 0
  }

  lemma {:induction false} WalkFromReads(env: Env, m: Machine, t: map<Node, nat>, level: nat, page: nat, target: nat)
    requires Tree(env, m, t) && target < level <= 4 && At(page, level) in t
    ensures WalkFrom(m.mem, t[At(page, level)], level, page, target) == Selecting(m.mem, t, At(page, target))
    decreases level
  {
    var n := At(page, level - 1);
    assert Parent(n) == At(page, level);
    assert Prefix(page, 0) == page;
    if level > 1 {
      assert SlotOk(m.mem, t, n);
      if level > target + 1 {
        if n in t {
          EntryLeadsToTable(env, m, t, n);
          WalkFromReads(env, m, t, level - 1, page, target);
        } else {
          NoTableBelow(env, m, t, level - 1, page, target);
        }
      }
    }
  }

  lemma {:induction false} NoTableBelow(env: Env, m: Machine, t: map<Node, nat>, level: nat, page: nat, target: nat)
    requires Tree(env, m, t) && target <= level && 1 <= level <= 3 && At(page, level) !in t
    ensures Selecting(m.mem, t, At(page, target)) == 0
    decreases level
  {
    if level > target {
      assert Prefix(page, 0) == page;
      if level > 1 {
        var n := At(page, level - 1);
        assert TableOk(env, m, t, n) && Parent(n) == At(page, level);
        NoTableBelow(env, m, t, level - 1, page, target);
      }
    }
  }

  lemma WalkReadsLeaf(env: Env, m: Machine, t: map<Node, nat>, page: nat)
    requires Tree(env, m, t) && page < PAGES
    ensures Walk(env, m.mem, page) == Leaf(m.mem, t, page)
  {
    PathOfPage(page);
    assert Prefix(page, 0) == page;
    WalkFromReads(env, m, t, 4, page, 0);
  }

  /** The leaf alone decides writing and execution, and no page is accessible to user mode:
      the entries above the leaf never carry the user bit. */
  lemma {:induction false} LeafDecidesRights(env: Env, m: Machine, t: map<Node, nat>, level: nat, page: nat)
    requires Tree(env, m, t) && 1 <= level <= 4 && At(page, level) in t
    requires Present(Leaf(m.mem, t, page))
    ensures var r := RightsFrom(m.mem, t[At(page, level)], level, page);
            var own := EntryRights(Leaf(m.mem, t, page));
            r.write == own.write && r.execute == own.execute && (1 < level ==> !r.user)
    decreases level
  {
    if level > 1 {
      var n := At(page, level - 1);
      assert Parent(n) == At(page, level);
      assert SlotOk(m.mem, t, n);
      if n in t {
        EntryLeadsToTable(env, m, t, n);
        LeafDecidesRights(env, m, t, level - 1, page);
      } else {
        assert Prefix(page, 0) == page;
        NoTableBelow(env, m, t, level - 1, page, 0);
      }
    }
  }

  // ----- What one level of `map` does to the tree -----

  lemma FreshFrame(env: Env, m: Machine, t: map<Node, nat>, k: nat)
    requires Tree(env, m, t) && k < |m.frames.used| && !m.frames.used[k]
    ensures forall n :: n in t ==> t[n] != env.base + k * FRAME_SIZE
  {
    forall n | n in t
      ensures t[n] != env.base + k * FRAME_SIZE
    {
      assert TableOk(env, m, t, n);
    }
  }

  lemma LinkKeepsTables(env: Env, m: Machine, t: map<Node, nat>, t': map<Node, nat>, n: Node, m': Machine,
                        created: nat, k: nat)
    requires Tree(env, m, t) && 1 <= n.level <= 3 && Parent(n) in t && n !in t
    requires k < |m.frames.used| && !m.frames.used[k] && created == env.base + k * FRAME_SIZE
    requires m'.frames.used == m.frames.used[k := true]
    requires m'.mem == Write(m.mem[created := Zeroed()], t[Parent(n)], n.prefix % 512, created + 3)
    requires t' == t[n := created]
    ensures forall x :: TableOk(env, m', t', x)
    ensures Injective(t')
  {
    FreshFrame(env, m, t, k);
    forall x
      ensures TableOk(env, m', t', x)
    {
      assert TableOk(env, m, t, x);
      assert TableOk(env, m, t, Parent(n));
      if x == n {
        assert (created - env.base) / 4096 == k;
      }
    }
  }

  lemma LinkKeepsSlots(env: Env, m: Machine, t: map<Node, nat>, t': map<Node, nat>, n: Node, mem': Memory, created: nat)
    requires Tree(env, m, t) && 1 <= n.level <= 3 && Parent(n) in t && n !in t
    requires forall x :: x in t ==> t[x] != created
    requires mem' == Write(m.mem[created := Zeroed()], t[Parent(n)], n.prefix % 512, created + 3)
    requires t' == t[n := created]
    ensures forall x :: SlotOk(mem', t', x)
  {
    assert TableOk(env, m, t, Parent(n));
    forall x
      ensures SlotOk(mem', t', x)
    {
      if 1 <= x.level <= 3 && Parent(x) in t' {
        if Parent(x) == n {
          assert TableOk(env, m, t, x);
        } else {
          assert SlotOk(m.mem, t, x);
          assert TableOk(env, m, t, Parent(x));
          if t[Parent(x)] == t[Parent(n)] {
            assert Parent(x) == Parent(n);
            assert x.prefix % 512 == n.prefix % 512 ==> x == n;
          }
        }
      }
    }
  }

  lemma LinkKeepsLeaves(env: Env, m: Machine, t: map<Node, nat>, t': map<Node, nat>, n: Node, mem': Memory,
                        created: nat)
    requires Tree(env, m, t) && 1 <= n.level <= 3 && Parent(n) in t && n !in t
    requires forall x :: x in t ==> t[x] != created
    requires mem' == Write(m.mem[created := Zeroed()], t[Parent(n)], n.prefix % 512, created + 3)
    requires t' == t[n := created]
    ensures forall page: nat :: Leaf(mem', t', page) == Leaf(m.mem, t, page)
  {
    assert TableOk(env, m, t, Parent(n));
    forall page: nat
      ensures Leaf(mem', t', page) == Leaf(m.mem, t, page)
    {
      var x := At(page, 1);
      if x in t {
        assert TableOk(env, m, t, x);
        assert t[x] != t[Parent(n)] by {
          assert x != Parent(n);
        }
      }
    }
  }

  /** Every table's frame lies below the allocator's cursor. */
  ghost predicate BelowCursor(env: Env, f: FrameState, t: map<Node, nat>) {
    forall n :: n in t ==> t[n] < env.base + f.latest * FRAME_SIZE
  }

  /** Frames were only taken, the cursor only moved up, and new tables went on frames that were free. */
  ghost predicate Took(env: Env, f: FrameState, t: map<Node, nat>, f': FrameState, t': map<Node, nat>) {
    && |f'.used| == |f.used| && (forall k :: 0 <= k < |f.used| && f.used[k] ==> f'.used[k])
    && (forall n :: n in t' && n !in t ==> !OwnedFrame(env, f, t'[n]))
    && (BelowCursor(env, f, t) ==> BelowCursor(env, f', t'))
  }

  /** From one machine to the next the tree only grew, every leaf and every cached translation is
      as before, and exactly `cost` frames were taken. */
  ghost predicate Grew(env: Env, m: Machine, t: map<Node, nat>, m': Machine, t': map<Node, nat>, cost: nat) {
    && Tree(env, m', t') && SameLeaves(m, t, m', t')
    && (forall n :: n in t ==> n in t' && t'[n] == t[n])
    && InRange(m.frames) && Available(m'.frames) == Available(m.frames) - cost
    && Took(env, m.frames, t, m'.frames, t')
    && (cost == 0 ==> m' == m && t' == t) && |t'| == |t| + cost
    && m'.tlb == m.tlb && m'.cache == m.cache
  }

  /** One level of `map` at a node: afterwards the node has a table, and a frame was taken exactly
      when the node had none. */
  lemma DescendKeepsTree(env: Env, m: Machine, t: map<Node, nat>, n: Node)
    requires Tree(env, m, t) && 1 <= n.level <= 3 && Parent(n) in t
    ensures var d := Descend(env, m, t[Parent(n)], n.prefix % 512);
            var cost := if n in t then 0 else 1;
            && (d.Some? <==> cost <= Available(m.frames))
            && (d.Some? ==> Grew(env, m, t, d.value.0, t[n := d.value.1], cost))
  {
    assert SlotOk(m.mem, t, n);
    if n in t {
      EntryLeadsToTable(env, m, t, n);
      assert t[n := t[n]] == t;
    } else {
      AllocCounts(m.frames);
      match AllocSpec(m.frames)
      case (_, None) =>
      case (frames', Some(k)) =>
        var created := env.base + k * FRAME_SIZE;
        FreshFrame(env, m, t, k);
        var m' := Descend(env, m, t[Parent(n)], n.prefix % 512).value.0;
        var t' := t[n := created];
        LinkKeepsTables(env, m, t, t', n, m', created, k);
        TookOne(env, m.frames, t, n, created, k);
        LinkKeepsSlots(env, m, t, t', n, m'.mem, created);
        LinkKeepsLeaves(env, m, t, t', n, m'.mem, created);
    }
  }

  lemma TookOne(env: Env, f: FrameState, t: map<Node, nat>, n: Node, created: nat, k: nat)
    requires InRange(f) && AllocSpec(f).1 == Some(k) && created == env.base + k * FRAME_SIZE
    ensures Took(env, f, t, AllocSpec(f).0, t[n := created])
  {
    assert (created - env.base) / 4096 == k;
  }

  lemma TookTwice(env: Env, f: FrameState, t: map<Node, nat>, f1: FrameState, t1: map<Node, nat>,
                  f2: FrameState, t2: map<Node, nat>)
    requires Took(env, f, t, f1, t1) && Took(env, f1, t1, f2, t2)
    requires forall n :: n in t1 ==> n in t2 && t2[n] == t1[n]
    ensures Took(env, f, t, f2, t2)
  {
  }

  lemma GrewTwice(env: Env, m: Machine, t: map<Node, nat>, m1: Machine, t1: map<Node, nat>,
                  m2: Machine, t2: map<Node, nat>, cost1: nat, cost2: nat)
    requires Grew(env, m, t, m1, t1, cost1) && Grew(env, m1, t1, m2, t2, cost2)
    ensures Grew(env, m, t, m2, t2, cost1 + cost2)
  {
    TookTwice(env, m.frames, t, m1.frames, t1, m2.frames, t2);
    forall page: nat
      ensures Leaf(m2.mem, t2, page) == Leaf(m.mem, t, page)
    {
      assert Leaf(m1.mem, t1, page) == Leaf(m.mem, t, page);
    }
  }

  // ----- Writing a leaf -----

  lemma SetLeafKeepsTree(env: Env, m: Machine, t: map<Node, nat>, page: nat, entry: nat, flush: bool)
    requires Tree(env, m, t) && At(page, 1) in t
    ensures var m' := SetLeaf(m, t[At(page, 1)], page % 512, entry, flush);
            && Tree(env, m', t)
            && forall p: nat :: Leaf(m'.mem, t, p) == if p == page then entry else Leaf(m.mem, t, p)
  {
    var n := At(page, 1);
    var m' := SetLeaf(m, t[n], page % 512, entry, flush);
    assert TableOk(env, m, t, n);
    forall x
      ensures TableOk(env, m', t, x)
    {
      assert TableOk(env, m, t, x);
    }
    forall x
      ensures SlotOk(m'.mem, t, x)
    {
      assert SlotOk(m.mem, t, x);
      if 1 <= x.level <= 3 && Parent(x) in t {
        assert Parent(x) != n;
        assert t[Parent(x)] != t[n];
      }
    }
    forall p: nat
      ensures Leaf(m'.mem, t, p) == if p == page then entry else Leaf(m.mem, t, p)
    {
      assert Prefix(p, 0) == p && Prefix(page, 0) == page;
      assert At(p, 1) == Node(1, p / 512);
      if At(p, 1) in t && t[At(p, 1)] == t[n] {
        assert At(p, 1) == n;
        assert p % 512 == page % 512 ==> p == page;
      }
    }
  }

  // ----- map and unmap refine a flat map -----

  /** The tables on the path of a page that do not exist yet. */
  ghost function Missing(t: map<Node, nat>, page: nat): nat {
    (if At(page, 3) in t then 0 else 1) + (if At(page, 2) in t then 0 else 1) + (if At(page, 1) in t then 0 else 1)
  }

  /** The tables that `map` goes through below the top one. */
  function PathNodes(page: nat): set<Node> {
    {At(page, 3), At(page, 2), At(page, 1)}
  }

  lemma OneMoreMissing(s: set<Node>, n: Node, keys: set<Node>)
    requires n !in s
    ensures |(s + {n}) - keys| == |s - keys| + if n in keys then 0 else 1
  {
    assert (s + {n}) - keys == if n in keys then s - keys else (s - keys) + {n};
  }

  lemma MissingOfThree(a: Node, b: Node, c: Node, keys: set<Node>)
    requires a != b && a != c && b != c
    ensures |{a, b, c} - keys|
         == (if a in keys then 0 else 1) + (if b in keys then 0 else 1) + (if c in keys then 0 else 1)
  {
    var none: set<Node> := {};
    assert none - keys == none;
    OneMoreMissing(none, a, keys);
    OneMoreMissing(none + {a}, b, keys);
    OneMoreMissing(none + {a} + {b}, c, keys);
    assert none + {a} + {b} + {c} == {a, b, c};
  }

  lemma MissingIsSize(t: map<Node, nat>, page: nat)
    ensures Missing(t, page) == |PathNodes(page) - t.Keys|
  {
    MissingOfThree(At(page, 3), At(page, 2), At(page, 1), t.Keys);
  }

  /** A tree that grew by as many tables as the path of a page missed, and has the page's leaf table,
      grew by exactly that path. */
  lemma GrewByPath(env: Env, m': Machine, t: map<Node, nat>, t': map<Node, nat>, page: nat)
    requires Tree(env, m', t') && At(page, 1) in t' && |t'| == |t| + Missing(t, page)
    requires forall n :: n in t ==> n in t'
    ensures t'.Keys == t.Keys + PathNodes(page)
  {
    MissingTop(env, m', t', page);
    MissingIsSize(t, page);
    SameKeys(t.Keys, PathNodes(page), t'.Keys);
  }

  lemma SameKeys(a: set<Node>, b: set<Node>, c: set<Node>)
    requires a <= c && b <= c && |c| == |a| + |b - a|
    ensures c == a + b
  {
    assert a + b == a + (b - a) && c == (a + b) + (c - (a + b));
  }

  /** The two lower levels of `map`. */
  lemma LowerTables(env: Env, m: Machine, t: map<Node, nat>, page: nat) returns (t': map<Node, nat>)
    requires Tree(env, m, t) && At(page, 3) in t
    ensures var d2 := Descend(env, m, t[At(page, 3)], Prefix(page, 2) % 512);
            var missing := Missing(t, page);
            && (d2.None? ==> Available(m.frames) < missing)
            && (d2.Some? ==>
                  && InRange(d2.value.0.frames)
                  && var d1 := Descend(env, d2.value.0, d2.value.1, Prefix(page, 1) % 512);
                  && (d1.Some? <==> missing <= Available(m.frames))
                  && (d1.Some? ==>
                        && Grew(env, m, t, d1.value.0, t', missing)
                        && At(page, 1) in t' && t'[At(page, 1)] == d1.value.1))
  {
    var n2, n1 := At(page, 2), At(page, 1);
    assert Parent(n2) == At(page, 3) && Parent(n1) == n2;
    MissingTop(env, m, t, page);
    t' := t;
    DescendKeepsTree(env, m, t, n2);
    var d2 := Descend(env, m, t[At(page, 3)], Prefix(page, 2) % 512);
    if d2.Some? {
      var (m2, pml2) := d2.value;
      var t2 := t[n2 := pml2];
      DescendKeepsTree(env, m2, t2, n1);
      var d1 := Descend(env, m2, pml2, Prefix(page, 1) % 512);
      if d1.Some? {
        t' := t2[n1 := d1.value.1];
        GrewTwice(env, m, t, m2, t2, d1.value.0, t', if n2 in t then 0 else 1, if n1 in t then 0 else 1);
      }
    }
  }

  lemma TablesKeepsTree(env: Env, m: Machine, t: map<Node, nat>, virt: nat) returns (t': map<Node, nat>)
    requires Tree(env, m, t)
    ensures var r := Tables(env, m, virt); var page := PageOf(virt);
            && (r.Some? <==> Missing(t, page) <= Available(m.frames))
            && (r.Some? ==>
                  && Grew(env, m, t, r.value.0, t', Missing(t, page))
                  && At(page, 1) in t' && t'[At(page, 1)] == r.value.1)
  {
    var page := PageOf(virt);
    PathOfPage(page);
    IndicesOfAddress(virt);
    MissingTop(env, m, t, page);
    t' := t;
    var n3 := At(page, 3);
    assert Parent(n3) == ROOT;
    DescendKeepsTree(env, m, t, n3);
    var d3 := Descend(env, m, t[ROOT], Index(virt, 39));
    if d3.Some? {
      var (m3, pml3) := d3.value;
      var t3 := t[n3 := pml3];
      t' := LowerTables(env, m3, t3, page);
      var r := Tables(env, m, virt);
      if r.Some? {
        GrewTwice(env, m, t, m3, t3, r.value.0, t', if n3 in t then 0 else 1, Missing(t3, page));
      }
    }
  }

  /** A missing table is missing all the way down. */
  lemma MissingTop(env: Env, m: Machine, t: map<Node, nat>, page: nat)
    requires Tree(env, m, t)
    ensures At(page, 3) !in t ==> At(page, 2) !in t
    ensures At(page, 2) !in t ==> At(page, 1) !in t
  {
    assert TableOk(env, m, t, At(page, 2)) && TableOk(env, m, t, At(page, 1));
    assert Parent(At(page, 2)) == At(page, 3) && Parent(At(page, 1)) == At(page, 2);
  }
}
