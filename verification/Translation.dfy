/** Runs of `map`, `unmap` and the hardware's own cache fills: the four-level tables behave as one
    flat map from page numbers to leaf entries, and no cached translation is ever stale. */
module Translation {
  import opened Bits
  import opened Options
  import opened Frames
  import opened PageTables

  // ----- Single operations -----

  /** What an operation that sets one leaf does, seen through the tree. */
  ghost predicate SetsLeaf(env: Env, m: Machine, t: map<Node, nat>, m': Machine, t': map<Node, nat>, page: nat,
                           entry: nat) {
    && Tree(env, m', t')
    && (forall n :: n in t ==> n in t' && t'[n] == t[n])
    && Took(env, m.frames, t, m'.frames, t')
    && forall p: nat :: Leaf(m'.mem, t', p) == if p == page then entry else Leaf(m.mem, t, p)
  }

  /** `map` succeeds exactly when the allocator has the missing tables' frames, takes exactly
      those, sets exactly the page's leaf, and flushes exactly when that leaf was present. */
  lemma MapSetsLeaf(env: Env, m: Machine, t: map<Node, nat>, phys: nat, virt: nat,
                    flags: nat) returns (t': map<Node, nat>)
    requires Tree(env, m, t)
    ensures var r := MapSpec(env, m, phys, virt, flags);
            var page := PageOf(virt);
            && (r.Some? <==> Missing(t, page) <= Available(m.frames))
            && (r.Some? ==>
                  var m' := r.value;
                  && SetsLeaf(env, m, t, m', t', page, Or(phys, flags)) && At(page, 1) in t'
                  && |t'| == |t| + Missing(t, page)
                  && Available(m'.frames) == Available(m.frames) - Missing(t, page)
                  && Missing(t, page) <= 3
                  && (m'.tlb, m'.cache) == if Present(Leaf(m.mem, t, page)) then (map[], map[]) else (m.tlb, m.cache))
  {
    var page := PageOf(virt);
    t' := TablesKeepsTree(env, m, t, virt);
    var r := Tables(env, m, virt);
    if r.Some? {
      var (m1, pml1) := r.value;
      IndicesOfAddress(virt);
      assert Prefix(page, 0) == page;
      assert Leaf(m1.mem, t', page) == Leaf(m.mem, t, page);
      SetLeafKeepsTree(env, m1, t', page, Or(phys, flags), Present(Read(m1.mem, pml1, page % 512)));
    }
  }

  lemma FollowNode(env: Env, m: Machine, t: map<Node, nat>, n: Node)
    requires Tree(env, m, t) && 1 <= n.level <= 3 && Parent(n) in t
    ensures Follow(m, t[Parent(n)], n.prefix % 512) == if n in t then Some(t[n]) else None
  {
    assert SlotOk(m.mem, t, n);
    if n in t {
      EntryLeadsToTable(env, m, t, n);
    }
  }

  /** `unmap` clears exactly the page's leaf; it flushes unless the page had no table, and then
      the leaf was not present to begin with. */
  lemma UnmapClearsLeaf(env: Env, m: Machine, t: map<Node, nat>, virt: nat)
    requires Tree(env, m, t)
    ensures var m' := UnmapSpec(env, m, virt); var page := PageOf(virt);
            && SetsLeaf(env, m, t, m', t, page, 0)
            && m'.frames == m.frames
            && (if At(page, 1) in t then m'.tlb == map[] && m'.cache == map[] else m' == m)
  {
    var page := PageOf(virt);
    PathOfPage(page);
    IndicesOfAddress(virt);
    MissingTop(env, m, t, page);
    assert Prefix(page, 0) == page;
    FollowNode(env, m, t, At(page, 3));
    if At(page, 3) in t {
      FollowNode(env, m, t, At(page, 2));
      if At(page, 2) in t {
        FollowNode(env, m, t, At(page, 1));
        if At(page, 1) in t {
          SetLeafKeepsTree(env, m, t, page, 0, true);
        }
      }
    }
  }

  // ----- Caches (section 4.10 of the Intel SDM, volume 3A) -----

  /** An operation of the kernel, or a fill that the hardware may do at any time. A fill of the
      TLB may start from a cached entry at `level` instead of from the top. */
  datatype Op =
    | MapOp(phys: nat, virt: nat, flags: nat)
    | UnmapOp(virt: nat)
    | TlbFill(page: nat, level: nat)
    | CacheFill(page: nat, level: nat)

  /** The leaf entry as the hardware finds it when it looks into the cache at `level` first. */
  function CachedWalk(env: Env, m: Machine, page: nat, level: nat): nat {
    if 1 <= level <= 3 && At(page, level) in m.cache
    then WalkFrom(m.mem, HardwareAddress(m.cache[At(page, level)]), level, page, 0)
    else Walk(env, m.mem, page)
  }

  /** What the processor uses to translate a page. */
  function Translate(env: Env, m: Machine, page: nat, level: nat): nat {
    if page in m.tlb then m.tlb[page] else CachedWalk(env, m, page, level)
  }

  /** Only present entries are cached. */
  function Step(env: Env, m: Machine, op: Op): Option<Machine>
    requires InRange(m.frames)
  {
    match op
    case MapOp(phys, virt, flags) => MapSpec(env, m, phys, virt, flags)
    case UnmapOp(virt) => Some(UnmapSpec(env, m, virt))
    case TlbFill(page, level) =>
      var entry := CachedWalk(env, m, page, level);
      Some(if page < PAGES && Present(entry) then m.(tlb := m.tlb[page := entry]) else m)
    case CacheFill(page, level) =>
      if page < PAGES && 1 <= level <= 3 then
        var entry := WalkFrom(m.mem, env.root, 4, page, level);
        Some(if Present(entry) then m.(cache := m.cache[At(page, level) := entry]) else m)
      else Some(m)
  }

  /** Every cached translation is the one the tables give now. */
  ghost predicate Coherent(m: Machine, t: map<Node, nat>) {
    && (forall page :: page in m.tlb ==>
          page < PAGES && Present(m.tlb[page]) && m.tlb[page] == Leaf(m.mem, t, page))
    && (forall n :: n in m.cache ==> n in t && m.cache[n] == t[n] + PAGE_PRESENT + PAGE_WRITE)
  }

  lemma CachedWalkReadsLeaf(env: Env, m: Machine, t: map<Node, nat>, page: nat, level: nat)
    requires Tree(env, m, t) && Coherent(m, t) && page < PAGES
    ensures CachedWalk(env, m, page, level) == Walk(env, m.mem, page) == Leaf(m.mem, t, page)
  {
    WalkReadsLeaf(env, m, t, page);
    if 1 <= level <= 3 && At(page, level) in m.cache {
      EntryLeadsToTable(env, m, t, At(page, level));
      assert Prefix(page, 0) == page;
      WalkFromReads(env, m, t, level, page, 0);
    }
  }

  /** Whatever the processor has cached, it translates a page as the tables do. */
  lemma TranslateIsWalk(env: Env, m: Machine, t: map<Node, nat>, page: nat, level: nat)
    requires Tree(env, m, t) && Coherent(m, t) && page < PAGES
    ensures Translate(env, m, page, level) == Walk(env, m.mem, page)
  {
    CachedWalkReadsLeaf(env, m, t, page, level);
  }

  /** The flat map: what a page's entry is after one operation. */
  function FlatStep(op: Op, page: nat, entry: nat): nat {
    match op
    case MapOp(phys, virt, flags) => if PageOf(virt) == page then Or(phys, flags) else entry
    case UnmapOp(virt) => if PageOf(virt) == page then 0 else entry
    case TlbFill(_, _) => entry
    case CacheFill(_, _) => entry
  }

  /** The tables below the top one that an operation goes through. */
  function NeededBy(op: Op): set<Node> {
    if op.MapOp? then PathNodes(PageOf(op.virt)) else {}
  }

  /** The tree grew by the tables that were missing, the caches are coherent, and each leaf moved as
      in the flat map. */
  ghost predicate Refined(env: Env, m: Machine, t: map<Node, nat>, op: Op, m': Machine, t': map<Node, nat>) {
    && Tree(env, m', t') && Coherent(m', t')
    && (if op.MapOp? then At(PageOf(op.virt), 1) in t' && |t'| == |t| + Missing(t, PageOf(op.virt)) else t' == t)
    && Took(env, m.frames, t, m'.frames, t')
    && (forall n :: n in t ==> n in t' && t'[n] == t[n])
    && forall page: nat :: Leaf(m'.mem, t', page) == FlatStep(op, page, Leaf(m.mem, t, page))
  }

  /** `map` leaves the caches alone when the leaf was not present; nothing about the page can have
      been cached then, and the entries above it are only ever added. */
  lemma SetsLeafCoherent(env: Env, m: Machine, t: map<Node, nat>, m': Machine, t': map<Node, nat>, page: nat,
                         entry: nat)
    requires Coherent(m, t) && SetsLeaf(env, m, t, m', t', page, entry)
    requires (m'.tlb == map[] && m'.cache == map[])
          || (m'.tlb == m.tlb && m'.cache == m.cache && !Present(Leaf(m.mem, t, page)))
    ensures Coherent(m', t')
  {
    forall p | p in m'.tlb
      ensures p < PAGES && Present(m'.tlb[p]) && m'.tlb[p] == Leaf(m'.mem, t', p)
    {
      assert p != page;
    }
  }

  lemma MapRefines(env: Env, m: Machine, t: map<Node, nat>, op: Op) returns (t': map<Node, nat>)
    requires Tree(env, m, t) && Coherent(m, t) && op.MapOp?
    ensures Step(env, m, op).Some? ==> Refined(env, m, t, op, Step(env, m, op).value, t')
  {
    t' := MapSetsLeaf(env, m, t, op.phys, op.virt, op.flags);
    var r := Step(env, m, op);
    if r.Some? {
      MapRefined(env, m, t, op, r.value, t', PageOf(op.virt), Or(op.phys, op.flags));
    }
  }

  lemma MapRefined(env: Env, m: Machine, t: map<Node, nat>, op: Op, m': Machine, t': map<Node, nat>, page: nat,
                   entry: nat)
    requires op.MapOp? && page == PageOf(op.virt) && entry == Or(op.phys, op.flags) && Coherent(m, t)
    requires SetsLeaf(env, m, t, m', t', page, entry) && At(page, 1) in t' && |t'| == |t| + Missing(t, page)
    requires (m'.tlb == map[] && m'.cache == map[])
          || (m'.tlb == m.tlb && m'.cache == m.cache && !Present(Leaf(m.mem, t, page)))
    ensures Refined(env, m, t, op, m', t')
  {
    SetsLeafCoherent(env, m, t, m', t', page, entry);
  }

  lemma UnmapRefines(env: Env, m: Machine, t: map<Node, nat>, op: Op)
    requires Tree(env, m, t) && Coherent(m, t) && op.UnmapOp?
    ensures Refined(env, m, t, op, Step(env, m, op).value, t)
  {
    UnmapClearsLeaf(env, m, t, op.virt);
    WalkReadsLeaf(env, m, t, PageOf(op.virt));
    SetsLeafCoherent(env, m, t, UnmapSpec(env, m, op.virt), t, PageOf(op.virt), 0);
  }

  /** Filling a cache leaves the tables alone. */
  lemma CachesApart(env: Env, m: Machine, t: map<Node, nat>, m': Machine)
    requires Tree(env, m, t) && m'.mem == m.mem && m'.frames == m.frames
    ensures Tree(env, m', t)
  {
    forall n
      ensures TableOk(env, m', t, n)
    {
      assert TableOk(env, m, t, n);
    }
  }

  lemma TlbFillRefines(env: Env, m: Machine, t: map<Node, nat>, op: Op)
    requires Tree(env, m, t) && Coherent(m, t) && op.TlbFill?
    ensures Refined(env, m, t, op, Step(env, m, op).value, t)
  {
    CachesApart(env, m, t, Step(env, m, op).value);
    if op.page < PAGES {
      CachedWalkReadsLeaf(env, m, t, op.page, op.level);
    }
  }

  lemma CacheFillRefines(env: Env, m: Machine, t: map<Node, nat>, op: Op)
    requires Tree(env, m, t) && Coherent(m, t) && op.CacheFill?
    ensures Refined(env, m, t, op, Step(env, m, op).value, t)
  {
    CachesApart(env, m, t, Step(env, m, op).value);
    if op.page < PAGES && 1 <= op.level <= 3 {
      PathOfPage(op.page);
      WalkFromReads(env, m, t, 4, op.page, op.level);
    }
  }

  lemma StepRefines(env: Env, m: Machine, t: map<Node, nat>, op: Op) returns (t': map<Node, nat>)
    requires Tree(env, m, t) && Coherent(m, t)
    ensures Step(env, m, op).Some? ==> Refined(env, m, t, op, Step(env, m, op).value, t')
  {
    t' := t;
    if op.MapOp? {
      t' := MapRefines(env, m, t, op);
    } else if op.UnmapOp? {
      UnmapRefines(env, m, t, op);
    } else if op.TlbFill? {
      TlbFillRefines(env, m, t, op);
    } else {
      CacheFillRefines(env, m, t, op);
    }
  }

  // ----- Runs -----

  function Run(env: Env, m: Machine, ops: seq<Op>): (r: Option<Machine>)
    requires InRange(m.frames)
    ensures r.Some? ==> InRange(r.value.frames)
  {
    if ops == [] then Some(m)
    else
      match Run(env, m, ops[..|ops| - 1])
      case None => None
      case Some(m') => StepInRange(env, m', ops[|ops| - 1]); Step(env, m', ops[|ops| - 1])
  }

  lemma StepInRange(env: Env, m: Machine, op: Op)
    requires InRange(m.frames)
    ensures Step(env, m, op).Some? ==> InRange(Step(env, m, op).value.frames)
  {
  }

  /** The flat map over a run: the last operation on the page decides. */
  function FlatRun(ops: seq<Op>, page: nat, entry: nat): nat {
    if ops == [] then entry
    else FlatStep(ops[|ops| - 1], page, FlatRun(ops[..|ops| - 1], page, entry))
  }

  /** What a run does, seen through the tree: it grew, has a leaf table for every page that was
      mapped, is matched by the caches, and each leaf moved as in the flat map. */
  ghost predicate RunRefined(env: Env, m: Machine, t: map<Node, nat>, ops: seq<Op>, m': Machine, t': map<Node, nat>) {
    && Tree(env, m', t') && Coherent(m', t')
    && (forall n :: n in t ==> n in t' && t'[n] == t[n])
    && (forall k :: 0 <= k < |ops| && ops[k].MapOp? ==> At(PageOf(ops[k].virt), 1) in t')
    && forall page: nat :: Leaf(m'.mem, t', page) == FlatRun(ops, page, Leaf(m.mem, t, page))
  }

  lemma RunRefinedStep(env: Env, m: Machine, t: map<Node, nat>, ops: seq<Op>, m1: Machine, t1: map<Node, nat>,
                       m': Machine, t': map<Node, nat>)
    requires ops != [] && RunRefined(env, m, t, ops[..|ops| - 1], m1, t1)
    requires Refined(env, m1, t1, ops[|ops| - 1], m', t')
    ensures RunRefined(env, m, t, ops, m', t')
  {
    forall k | 0 <= k < |ops| && ops[k].MapOp?
      ensures At(PageOf(ops[k].virt), 1) in t'
    {
      if k < |ops| - 1 {
        assert ops[..|ops| - 1][k] == ops[k];
      }
    }
  }

  lemma {:induction false} RunKeepsTree(env: Env, m: Machine, t: map<Node, nat>,
                                        ops: seq<Op>) returns (t': map<Node, nat>)
    requires Tree(env, m, t) && Coherent(m, t)
    ensures Run(env, m, ops).Some? ==> RunRefined(env, m, t, ops, Run(env, m, ops).value, t')
    decreases |ops|
  {
    t' := t;
    if ops != [] {
      var front := ops[..|ops| - 1];
      var t1 := RunKeepsTree(env, m, t, front);
      if Run(env, m, front).Some? {
        var m1 := Run(env, m, front).value;
        t' := StepRefines(env, m1, t1, ops[|ops| - 1]);
        if Run(env, m, ops).Some? {
          RunRefinedStep(env, m, t, ops, m1, t1, Run(env, m, ops).value, t');
        }
      }
    }
  }

  /** The invariant of every run: some tree describes the tables, and the caches are coherent with
      it. */
  ghost predicate Sound(env: Env, m: Machine) {
    exists t :: Tree(env, m, t) && Coherent(m, t)
  }

  /** The state `init` starts from: the top table is a fresh zeroed frame and nothing is cached. */
  ghost predicate Initial(env: Env, frames: FrameState, m: Machine) {
    && EnvOk(env) && InRange(frames) && |frames.used| <= 0x10_0000
    && AllocSpec(frames).1.Some?
    && env.root == env.base + AllocSpec(frames).1.value * FRAME_SIZE
    && m == Machine(map[env.root := Zeroed()], AllocSpec(frames).0, map[], map[])
  }

  lemma InitialTree(env: Env, frames: FrameState, m: Machine)
    requires Initial(env, frames, m)
    ensures Tree(env, m, map[ROOT := env.root]) && Coherent(m, map[ROOT := env.root])
  {
    var t := map[ROOT := env.root];
    assert (env.root - env.base) / 4096 == AllocSpec(frames).1.value;
    forall n
      ensures TableOk(env, m, t, n)
    {
    }
    forall n
      ensures SlotOk(m.mem, t, n)
    {
    }
  }

  lemma InitSound(env: Env, frames: FrameState, m: Machine)
    requires Initial(env, frames, m)
    ensures Sound(env, m)
    ensures forall page :: 0 <= page < PAGES ==> Walk(env, m.mem, page) == 0
  {
    InitialTree(env, frames, m);
    forall page | 0 <= page < PAGES
      ensures Walk(env, m.mem, page) == 0
    {
      WalkReadsLeaf(env, m, map[ROOT := env.root], page);
    }
  }

  /** A state that some run from the initial state ends in. */
  ghost predicate Reachable(env: Env, m: Machine) {
    exists frames, m0, ops :: Initial(env, frames, m0) && Run(env, m0, ops) == Some(m)
  }

  lemma ReachableIsSound(env: Env, m: Machine)
    requires Reachable(env, m)
    ensures Sound(env, m)
  {
    var frames, m0, ops :| Initial(env, frames, m0) && Run(env, m0, ops) == Some(m);
    InitialTree(env, frames, m0);
    var t := RunKeepsTree(env, m0, map[ROOT := env.root], ops);
  }

  /** Refinement over every run: from any sound state, however `map`, `unmap` and the
      hardware's fills interleave, the walk of each page is the flat map's entry. */
  lemma RunRefinesFlatMap(env: Env, m: Machine, ops: seq<Op>, page: nat)
    requires Sound(env, m) && page < PAGES && Run(env, m, ops).Some?
    ensures Sound(env, Run(env, m, ops).value)
    ensures Walk(env, Run(env, m, ops).value.mem, page) == FlatRun(ops, page, Walk(env, m.mem, page))
  {
    var t :| Tree(env, m, t) && Coherent(m, t);
    var t' := RunKeepsTree(env, m, t, ops);
    WalkReadsLeaf(env, m, t, page);
    WalkReadsLeaf(env, Run(env, m, ops).value, t', page);
  }

  /** TLB coherence over every run: the processor never uses a translation that differs from the
      current walk, although `map` flushes only when it replaces a present leaf. */
  lemma RunNeverStale(env: Env, m: Machine, ops: seq<Op>, page: nat, level: nat)
    requires Sound(env, m) && page < PAGES && Run(env, m, ops).Some?
    ensures var m' := Run(env, m, ops).value;
            && Translate(env, m', page, level) == Walk(env, m'.mem, page) == FlatRun(ops, page, Walk(env, m.mem, page))
            && (page in m'.tlb ==> Present(m'.tlb[page]))
  {
    RunRefinesFlatMap(env, m, ops, page);
    var m' := Run(env, m, ops).value;
    var t :| Tree(env, m', t) && Coherent(m', t);
    TranslateIsWalk(env, m', t, page, level);
  }

  /** In every sound state the leaf alone decides the effective write and execute rights of a
      present page, and user mode has none. */
  lemma SoundRights(env: Env, m: Machine, page: nat)
    requires Sound(env, m) && page < PAGES && Present(Walk(env, m.mem, page))
    ensures var r := RightsFrom(m.mem, env.root, 4, page); var leaf := EntryRights(Walk(env, m.mem, page));
            r == Rights(leaf.write, false, leaf.execute)
  {
    var t :| Tree(env, m, t) && Coherent(m, t);
    PathOfPage(page);
    WalkReadsLeaf(env, m, t, page);
    LeafDecidesRights(env, m, t, 4, page);
  }

  /** Mapping a page to the entry it already has changes neither memory nor the allocator. */
  lemma MapAgain(env: Env, m: Machine, phys: nat, virt: nat, flags: nat)
    requires Sound(env, m) && Present(Or(phys, flags))
    requires Walk(env, m.mem, PageOf(virt)) == Or(phys, flags)
    ensures MapSpec(env, m, phys, virt, flags) == Some(Flush(m))
  {
    var t :| Tree(env, m, t) && Coherent(m, t);
    var page := PageOf(virt);
    WalkReadsLeaf(env, m, t, page);
    MissingTop(env, m, t, page);
    var t' := TablesKeepsTree(env, m, t, virt);
    IndicesOfAddress(virt);
    assert Prefix(page, 0) == page;
    var (m1, pml1) := Tables(env, m, virt).value;
    assert m1 == m && t' == t;
    assert TableOk(env, m, t, At(page, 1));
    assert m.mem[pml1][page % 512 := Or(phys, flags)] == m.mem[pml1];
    assert Write(m.mem, pml1, page % 512, Or(phys, flags)) == m.mem;
  }

  // ----- When a run succeeds -----

  /** The tables that a run goes through, each once. */
  function Needed(ops: seq<Op>): set<Node> {
    if ops == [] then {} else Needed(ops[..|ops| - 1]) + NeededBy(ops[|ops| - 1])
  }

  /** A step succeeds exactly when there are frames for the tables it misses, and takes just those. */
  lemma StepSucceeds(env: Env, m: Machine, t: map<Node, nat>, op: Op)
    requires Tree(env, m, t)
    ensures var missing := |NeededBy(op) - t.Keys|;
            && (Step(env, m, op).Some? <==> missing <= Available(m.frames))
            && (Step(env, m, op).Some? ==>
                  && InRange(Step(env, m, op).value.frames)
                  && Available(Step(env, m, op).value.frames) == Available(m.frames) - missing)
  {
    if op.MapOp? {
      MissingIsSize(t, PageOf(op.virt));
      var t' := MapSetsLeaf(env, m, t, op.phys, op.virt, op.flags);
    } else {
      assert NeededBy(op) - t.Keys == {};
      if op.UnmapOp? {
        UnmapClearsLeaf(env, m, t, op.virt);
      }
    }
  }

  lemma MissingSplits(a: set<Node>, b: set<Node>, keys: set<Node>)
    ensures |(a + b) - keys| == |a - keys| + |b - (keys + a)|
  {
    assert (a + b) - keys == (a - keys) + (b - (keys + a));
    assert (a - keys) !! (b - (keys + a));
  }

  /** What a run that succeeded leaves: the tables it needed, and the frames it did not. */
  ghost predicate Grown(env: Env, m: Machine, t: map<Node, nat>, nodes: set<Node>, m': Machine, t': map<Node, nat>)
    requires InRange(m.frames)
  {
    && Tree(env, m', t') && Coherent(m', t') && t'.Keys == t.Keys + nodes
    && Available(m'.frames) == Available(m.frames) - |nodes - t.Keys|
  }

  lemma StepKeys(env: Env, m: Machine, t: map<Node, nat>, op: Op, m': Machine, t': map<Node, nat>)
    requires Refined(env, m, t, op, m', t')
    ensures t'.Keys == t.Keys + NeededBy(op)
  {
    if op.MapOp? {
      GrewByPath(env, m', t, t', PageOf(op.virt));
    } else {
      assert t.Keys + NeededBy(op) == t.Keys;
    }
  }

  lemma KeysTwice(keys: set<Node>, a: set<Node>, b: set<Node>, keys1: set<Node>, keys2: set<Node>)
    requires keys1 == keys + a && keys2 == keys1 + b
    ensures keys2 == keys + (a + b)
  {
  }

  lemma GrownStep(env: Env, m: Machine, t: map<Node, nat>, nodes: set<Node>, m1: Machine, t1: map<Node, nat>,
                  op: Op) returns (t': map<Node, nat>)
    requires InRange(m.frames) && Grown(env, m, t, nodes, m1, t1)
    ensures Step(env, m1, op).Some? <==> |(nodes + NeededBy(op)) - t.Keys| <= Available(m.frames)
    ensures Step(env, m1, op).Some? ==> Grown(env, m, t, nodes + NeededBy(op), Step(env, m1, op).value, t')
  {
    MissingSplits(nodes, NeededBy(op), t.Keys);
    StepSucceeds(env, m1, t1, op);
    t' := StepRefines(env, m1, t1, op);
    if Step(env, m1, op).Some? {
      StepKeys(env, m1, t1, op, Step(env, m1, op).value, t');
      KeysTwice(t.Keys, nodes, NeededBy(op), t1.Keys, t'.Keys);
    }
  }

  lemma NothingGrown(env: Env, m: Machine, t: map<Node, nat>)
    requires Tree(env, m, t) && Coherent(m, t)
    ensures Grown(env, m, t, {}, m, t) && |{} - t.Keys| <= Available(m.frames)
  {
    var none: set<Node> := {};
    assert none - t.Keys == {} && t.Keys + none == t.Keys;
  }

  /** A run succeeds if and only if there are frames for all the tables that it goes through and that
      do not exist yet, each counted once. */
  lemma {:induction false} RunSucceeds(env: Env, m: Machine, t: map<Node, nat>,
                                       ops: seq<Op>) returns (t': map<Node, nat>)
    requires Tree(env, m, t) && Coherent(m, t)
    ensures Run(env, m, ops).Some? <==> |Needed(ops) - t.Keys| <= Available(m.frames)
    ensures Run(env, m, ops).Some? ==> Grown(env, m, t, Needed(ops), Run(env, m, ops).value, t')
    decreases |ops|
  {
    t' := t;
    if ops == [] {
      NothingGrown(env, m, t);
    } else {
      var front, op := ops[..|ops| - 1], ops[|ops| - 1];
      var t1 := RunSucceeds(env, m, t, front);
      MissingSplits(Needed(front), NeededBy(op), t.Keys);
      if Run(env, m, front).Some? {
        t' := GrownStep(env, m, t, Needed(front), Run(env, m, front).value, t1, op);
      }
    }
  }

  /** From the initial state: exactly when the allocator has a frame for every table of the run. */
  lemma InitialRunSucceeds(env: Env, frames: FrameState, m: Machine, ops: seq<Op>)
    requires Initial(env, frames, m)
    ensures Run(env, m, ops).Some? <==> |Needed(ops)| <= Available(m.frames)
  {
    var t := map[ROOT := env.root];
    InitialTree(env, frames, m);
    var t' := RunSucceeds(env, m, t, ops);
    NeededBelowRoot(ops);
    assert Needed(ops) - t.Keys == Needed(ops);
  }

  lemma {:induction false} NeededBelowRoot(ops: seq<Op>)
    ensures ROOT !in Needed(ops)
  {
    if ops != [] {
      NeededBelowRoot(ops[..|ops| - 1]);
    }
  }

  /** The tables a run goes through are those of the pages that it maps. */
  lemma {:induction false} NeededAre(ops: seq<Op>, n: Node)
    ensures n in Needed(ops) <==> exists i :: 0 <= i < |ops| && n in NeededBy(ops[i])
    decreases |ops|
  {
    if ops != [] {
      var front := ops[..|ops| - 1];
      NeededAre(front, n);
      if n in Needed(front) {
        var i :| 0 <= i < |front| && n in NeededBy(front[i]);
        assert n in NeededBy(ops[i]);
      }
      if i: int :| 0 <= i < |ops| && n in NeededBy(ops[i]) && i < |ops| - 1 {
        assert n in NeededBy(front[i]);
      }
    }
  }

  // ----- Composing runs -----

  lemma {:induction false} RunConcat(env: Env, m: Machine, a: seq<Op>, b: seq<Op>)
    requires InRange(m.frames)
    ensures Run(env, m, a + b) == match Run(env, m, a)
                                  case None => None
                                  case Some(m') => Run(env, m', b)
    decreases |b|
  {
    if b == [] {
      assert a + b == a;
    } else {
      RunConcat(env, m, a, b[..|b| - 1]);
      assert (a + b)[..|a + b| - 1] == a + b[..|b| - 1];
    }
  }

  lemma {:induction false} FlatConcat(a: seq<Op>, b: seq<Op>, page: nat, entry: nat)
    ensures FlatRun(a + b, page, entry) == FlatRun(b, page, FlatRun(a, page, entry))
    decreases |b|
  {
    if b == [] {
      assert a + b == a;
    } else {
      FlatConcat(a, b[..|b| - 1], page, entry);
      assert (a + b)[..|a + b| - 1] == a + b[..|b| - 1];
    }
  }

  lemma RunPrefix(env: Env, m: Machine, ops: seq<Op>, k: nat)
    requires InRange(m.frames) && k <= |ops|
    ensures Run(env, m, ops).Some? ==> Run(env, m, ops[..k]).Some?
  {
    RunConcat(env, m, ops[..k], ops[k..]);
    assert ops[..k] + ops[k..] == ops;
  }
}
