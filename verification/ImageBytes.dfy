/** The translation that `full_map` leaves, byte by byte: where each byte of the kernel image and of
    memory is found, with which rights, and which pages are left alone. */
module ImageBytes {
  import opened Bits
  import opened Options
  import opened Frames
  import opened PageTables
  import opened Translation
  import opened Ranges
  import opened Mapper

  // ----- The pages of a section -----

  /** Some byte of the page lies between the start of the section's first page and its end. */
  ghost predicate Covers(s: Section, page: nat) {
    exists w: nat :: s.start - s.start % 4096 <= w < s.end && PageOf(w) == page
  }

  lemma AddPages(x: nat, k: nat)
    ensures (x % PAGES + k) % PAGES == (x + k) % PAGES
  {
    ShiftModulus(x % PAGES + k, x / PAGES);
  }

  /** Page number x + k is k pages behind page number x. */
  lemma PageBehind(x: nat, k: nat, page: nat)
    requires k < PAGES && page < PAGES
    ensures page == (x + k) % PAGES <==> k == Distance(4096 * x, page)
  {
    AddPages(x, k);
    assert PageOf(4096 * x) == x % PAGES;
    LandsAt(x % PAGES, k, page);
  }

  lemma CoversIs(boot: Boot, s: Section, page: nat)
    requires SectionOk(boot, s) && page < PAGES
    ensures InSection(s, page) <==> Covers(s, page)
  {
    var x, y := s.start / 4096, (s.end + 4095) / 4096;
    SectionSpan(s, x, y);
    if InSection(s, page) {
      var k := Distance(4096 * x, page);
      PageBehind(x, k, page);
      FirstByte(s, x, y, k);
      assert PageOf(4096 * (x + k)) == (x + k) % PAGES;
    }
    if Covers(s, page) {
      var w: nat :| s.start - s.start % 4096 <= w < s.end && PageOf(w) == page;
      PageBehind(x, w / 4096 - x, page);
    }
  }

  lemma FirstByte(s: Section, x: nat, y: nat, k: nat)
    requires x == s.start / 4096 && y == (s.end + 4095) / 4096 && x + k < y
    ensures s.start - s.start % 4096 <= 4096 * (x + k) < s.end
  {
  }

  /** A section that is not empty is mapped exactly on the pages that hold a byte of it. */
  lemma SectionHasBytes(boot: Boot, s: Section, page: nat)
    requires SectionOk(boot, s) && s.start < s.end && page < PAGES
    ensures InSection(s, page) <==> exists v: nat :: s.start <= v < s.end && PageOf(v) == page
  {
    CoversIs(boot, s, page);
    if Covers(s, page) {
      var w: nat :| s.start - s.start % 4096 <= w < s.end && PageOf(w) == page;
      var v := if w < s.start then s.start else w;
      assert v / 4096 == w / 4096;
      assert PageOf(v) == page;
    }
  }

  // ----- Bytes of the image -----

  datatype Part = Text | Rodata | Data

  function SectionOf(boot: Boot, part: Part): Section {
    match part
    case Text => boot.text
    case Rodata => boot.rodata
    case Data => boot.data
  }

  /** Code can be executed and data written, constants neither, and user mode has no access. */
  function PartRights(part: Part): Rights {
    Rights(part == Data, false, part == Text)
  }

  /** A section that is mapped later takes the page. */
  ghost predicate TakenLater(boot: Boot, part: Part, page: nat) {
    (part != Data && Covers(boot.data, page)) || (part == Text && Covers(boot.rodata, page))
  }

  lemma BytePhys(boot: Boot, v: nat, x: nat, k: nat, a: nat)
    requires boot.kernVirt % 4096 == 0 && boot.kernPhys % 4096 == 0 && boot.kernVirt <= v
    requires v - boot.kernVirt + boot.kernPhys < ADDRESS_LIMIT && v / 4096 == x + k
    requires a == x + k - boot.kernVirt / 4096 + boot.kernPhys / 4096
    ensures KernelPhys(boot, 4096 * x + k * 4096) == 4096 * a && a < 0x100_0000_0000
    ensures 4096 * a + v % 4096 == v - boot.kernVirt + boot.kernPhys
  {
  }

  lemma ByteEntry(a: nat, low: nat, nx: nat, entry: nat)
    requires a < 0x100_0000_0000 && low < 8 && low % 2 == 1 && nx <= 1
    requires entry == Or(4096 * a, nx * PAGE_NX + low)
    ensures Present(entry) && HardwareAddress(entry) == 4096 * a
    ensures EntryRights(entry).write == (low % 4 / 2 == 1) && EntryRights(entry).execute == (nx == 0)
  {
    SectionLeaf(a, low, nx, entry);
    LeafRights(a, low, nx, entry);
    AddressField(a, low, nx * 2048, entry);
  }

  lemma AddressField(a: nat, low: nat, high: nat, entry: nat)
    requires a < 0x100_0000_0000 && low < 4096 && entry == 4096 * a + 0x10_0000_0000_0000 * high + low
    ensures HardwareAddress(entry) == 4096 * a
  {
    assert entry / 4096 == a + 0x100_0000_0000 * high;
  }

  /** The entry that a section gives to the page of one of its bytes. */
  lemma SectionByte(boot: Boot, s: Section, v: nat, low: nat, nx: nat, entry: nat)
    requires BootOk(boot) && SectionOk(boot, s) && s.start <= v < s.end
    requires low < 8 && low % 2 == 1 && nx <= 1 && entry == SectionEntry(boot, s, nx * PAGE_NX + low, PageOf(v))
    ensures Present(entry) && ByteAddress(entry, v) == v - boot.kernVirt + boot.kernPhys
    ensures EntryRights(entry).write == (low % 4 / 2 == 1) && EntryRights(entry).execute == (nx == 0)
  {
    var x, y := s.start / 4096, (s.end + 4095) / 4096;
    var k := v / 4096 - x;
    SectionSpan(s, x, y);
    PageBehind(x, k, PageOf(v));
    var a := x + k - boot.kernVirt / 4096 + boot.kernPhys / 4096;
    BytePhys(boot, v, x, k, a);
    ByteEntry(a, low, nx, entry);
  }

  lemma OwnSectionCovers(s: Section, v: nat)
    requires s.start <= v < s.end
    ensures Covers(s, PageOf(v))
  {
    assert s.start - s.start % 4096 <= v;
  }

  /** Which section gives the page its entry. */
  lemma PartDecides(boot: Boot, part: Part, page: nat, was: nat)
    requires BootOk(boot) && page < PAGES && Covers(SectionOf(boot, part), page) && !TakenLater(boot, part, page)
    ensures FinalEntry(boot, page, was) == match part
              case Text => SectionEntry(boot, boot.text, 0 * PAGE_NX + 5, page)
              case Rodata => SectionEntry(boot, boot.rodata, 1 * PAGE_NX + 5, page)
              case Data => SectionEntry(boot, boot.data, 1 * PAGE_NX + 7, page)
  {
    CoversIs(boot, boot.text, page);
    CoversIs(boot, boot.rodata, page);
    CoversIs(boot, boot.data, page);
  }

  lemma PartEntry(boot: Boot, part: Part, v: nat, entry: nat, was: nat)
    requires BootOk(boot) && SectionOf(boot, part).start <= v < SectionOf(boot, part).end
    requires !TakenLater(boot, part, PageOf(v)) && entry == FinalEntry(boot, PageOf(v), was)
    ensures Present(entry) && ByteAddress(entry, v) == v - boot.kernVirt + boot.kernPhys
    ensures EntryRights(entry).write == PartRights(part).write && EntryRights(entry).execute == PartRights(part).execute
  {
    OwnSectionCovers(SectionOf(boot, part), v);
    PartDecides(boot, part, PageOf(v), was);
    match part
    case Text => SectionByte(boot, boot.text, v, 5, 0, entry);
    case Rodata => SectionByte(boot, boot.rodata, v, 5, 1, entry);
    case Data => SectionByte(boot, boot.data, v, 7, 1, entry);
  }

  /** Every byte of the kernel image is found where it was loaded, with the rights of its section,
      unless a later section takes its page. */
  lemma ImageBytesMapped(env: Env, m: Machine, m': Machine, boot: Boot, part: Part, v: nat)
    requires Sound(env, m) && BootOk(boot) && Run(env, m, FullMapOps(boot)) == Some(m')
    requires SectionOf(boot, part).start <= v < SectionOf(boot, part).end && !TakenLater(boot, part, PageOf(v))
    ensures ByteAddress(Walk(env, m'.mem, PageOf(v)), v) == v - boot.kernVirt + boot.kernPhys
    ensures RightsFrom(m'.mem, env.root, 4, PageOf(v)) == PartRights(part)
  {
    FullMapExact(env, m, m', boot, PageOf(v));
    PartEntry(boot, part, v, Walk(env, m'.mem, PageOf(v)), Walk(env, m.mem, PageOf(v)));
    SoundRights(env, m', PageOf(v));
  }

  // ----- Bytes of memory -----

  ghost predicate CoveredByImage(boot: Boot, page: nat) {
    Covers(boot.text, page) || Covers(boot.rodata, page) || Covers(boot.data, page)
  }

  lemma NotOfImage(boot: Boot, page: nat, was: nat)
    requires BootOk(boot) && page < PAGES && !CoveredByImage(boot, page)
    ensures FinalEntry(boot, page, was)
         == if InDirectMap(boot, page) then Or(Distance(boot.hhdm, page) * 4096, HHDM_FLAGS) else was
  {
    CoversIs(boot, boot.text, page);
    CoversIs(boot, boot.rodata, page);
    CoversIs(boot, boot.data, page);
  }

  /** The whole page of a physical byte lies in an entry that is mapped. */
  predicate InMemory(e: MemEntry, b: nat) {
    e.kind != Other && e.base <= b - b % 4096 && b - b % 4096 + 4096 <= e.base + e.length
  }

  lemma InMemoryIs(boot: Boot, i: nat, b: nat, q: nat)
    requires BootOk(boot) && i < |boot.entries| && q == b / 4096
    ensures InMemory(boot.entries[i], b) ==> InEntry(boot.entries[i], q) && q < PAGES
    ensures boot.entries[i].kind != Other && InEntry(boot.entries[i], q) ==> InMemory(boot.entries[i], b)
  {
  }

  /** The direct-map address of a physical byte. */
  lemma DirectPage(hhdm: nat, b: nat, v: nat)
    requires hhdm % 4096 == 0 && v == (hhdm + b) % WORD64 && b / 4096 < PAGES
    ensures v % 4096 == b % 4096 && Distance(hhdm, PageOf(v)) == b / 4096
  {
    ByteOfRange(hhdm, b);
    LandsAt(PageOf(hhdm), b / 4096, PageOf(v));
  }

  /** Every byte of usable, reclaimable and framebuffer memory, on pages that lie in it wholly, is
      found at its direct-map address, writable and executable, unless the image takes the page. */
  lemma MemoryBytesMapped(env: Env, m: Machine, m': Machine, boot: Boot, i: nat, b: nat, v: nat)
    requires Sound(env, m) && BootOk(boot) && Run(env, m, FullMapOps(boot)) == Some(m')
    requires i < |boot.entries| && InMemory(boot.entries[i], b)
    requires v == (boot.hhdm + b) % WORD64 && !CoveredByImage(boot, PageOf(v))
    ensures ByteAddress(Walk(env, m'.mem, PageOf(v)), v) == b
    ensures RightsFrom(m'.mem, env.root, 4, PageOf(v)) == Rights(true, false, true)
  {
    FullMapExact(env, m, m', boot, PageOf(v));
    MemoryEntry(boot, i, b, v, Walk(env, m'.mem, PageOf(v)), Walk(env, m.mem, PageOf(v)));
    SoundRights(env, m', PageOf(v));
  }

  lemma MemoryEntry(boot: Boot, i: nat, b: nat, v: nat, entry: nat, was: nat)
    requires BootOk(boot) && i < |boot.entries| && InMemory(boot.entries[i], b)
    requires v == (boot.hhdm + b) % WORD64 && !CoveredByImage(boot, PageOf(v))
    requires entry == FinalEntry(boot, PageOf(v), was)
    ensures Present(entry) && ByteAddress(entry, v) == b
    ensures EntryRights(entry).write && EntryRights(entry).execute
  {
    var q := b / 4096;
    InMemoryIs(boot, i, b, q);
    DirectPage(boot.hhdm, b, v);
    MemoryDecides(boot, i, PageOf(v), q, was);
    MemoryByte(q, b, v, entry);
  }

  lemma MemoryByte(q: nat, b: nat, v: nat, entry: nat)
    requires q == b / 4096 && q < PAGES && v % 4096 == b % 4096 && entry == Or(4096 * q, 0 * PAGE_NX + 7)
    ensures Present(entry) && ByteAddress(entry, v) == b && EntryRights(entry).write && EntryRights(entry).execute
  {
    ByteEntry(q, 7, 0, entry);
  }

  lemma MemoryDecides(boot: Boot, i: nat, page: nat, q: nat, was: nat)
    requires BootOk(boot) && page < PAGES && !CoveredByImage(boot, page) && q == Distance(boot.hhdm, page)
    requires i < |boot.entries| && boot.entries[i].kind != Other && InEntry(boot.entries[i], q)
    ensures FinalEntry(boot, page, was) == Or(4096 * q, 0 * PAGE_NX + 7)
  {
    NotOfImage(boot, page, was);
    assert HasPage(boot.entries, boot.entries[i].kind, q);
  }

  // ----- All other pages -----

  /** A page that holds no byte of the image and no direct-map address of memory is left alone. */
  lemma OtherPagesUntouched(env: Env, m: Machine, m': Machine, boot: Boot, page: nat)
    requires Sound(env, m) && BootOk(boot) && Run(env, m, FullMapOps(boot)) == Some(m') && page < PAGES
    requires !CoveredByImage(boot, page)
    requires forall i, b: nat :: 0 <= i < |boot.entries| && InMemory(boot.entries[i], b) ==>
               PageOf((boot.hhdm + b) % WORD64) != page
    ensures Walk(env, m'.mem, page) == Walk(env, m.mem, page)
  {
    FullMapExact(env, m, m', boot, page);
    NotOfImage(boot, page, Walk(env, m.mem, page));
    NotOfMemory(boot, page, Distance(boot.hhdm, page));
  }

  lemma NotOfMemory(boot: Boot, page: nat, q: nat)
    requires BootOk(boot) && page < PAGES && q == Distance(boot.hhdm, page)
    requires forall i, b: nat :: 0 <= i < |boot.entries| && InMemory(boot.entries[i], b) ==>
               PageOf((boot.hhdm + b) % WORD64) != page
    ensures !InDirectMap(boot, page)
  {
    DirectPageBack(boot.hhdm, q, page);
    forall i | 0 <= i < |boot.entries| && boot.entries[i].kind != Other
      ensures !InEntry(boot.entries[i], q)
    {
      InMemoryIs(boot, i, 4096 * q, q);
    }
  }

  lemma DirectPageBack(hhdm: nat, q: nat, page: nat)
    requires hhdm % 4096 == 0 && page < PAGES && q == Distance(hhdm, page)
    ensures PageOf((hhdm + 4096 * q) % WORD64) == page
  {
    ByteOfRange(hhdm, 4096 * q);
    LandsAt(PageOf(hhdm), q, page);
  }
}
