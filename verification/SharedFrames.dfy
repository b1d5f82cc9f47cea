/** The frame allocator shared by the page tables and by other clients, such as the heap and the
    interrupt stacks: blocks handed to one client may overlap those of another, and a table exactly
    when it lies at or above the cursor. */
module SharedFrames {
  import opened Bits
  import opened Options
  import opened Frames
  import opened PageTables
  import opened Translation

  /** An operation on the page tables, or one of another client: taking a frame, taking a block,
      writing what it likes to a frame that it was handed, and giving such a frame back. */
  datatype SharedOp =
    | Tables(op: Op)
    | TakeFrame
    | TakeBlock(count: nat)
    | Store(frame: nat, row: seq<nat>)
    | Release(frame: nat)

  /** The machine and the frames handed to other clients, by index, as often as they were. */
  datatype Shared = Shared(m: Machine, clients: multiset<nat>)

  function Address(env: Env, k: nat): nat {
    env.base + k * FRAME_SIZE
  }

  /** Memory with the frames of a block cleared, as both allocation functions do. */
  function Cleared(env: Env, mem: Memory, s: nat, count: nat): Memory {
    if count == 0 then mem else Cleared(env, mem, s, count - 1)[Address(env, s + count - 1) := Zeroed()]
  }

  function Handed(env: Env, x: Shared, f: FrameState, s: nat, count: nat): Shared {
    Shared(x.m.(frames := f, mem := Cleared(env, x.m.mem, s, count)), x.clients + Block(s, count))
  }

  function Released(x: Shared, k: nat): Shared
    requires k < |x.m.frames.used|
  {
    Shared(x.m.(frames := FreeSpec(x.m.frames, k)), x.clients - multiset{k})
  }

  /** `None` where the source fails: a table without a frame, a block of no frames at the very end,
      or the use of a frame that the client was not handed. */
  function SharedStep(env: Env, x: Shared, op: SharedOp): Option<Shared>
    requires InRange(x.m.frames)
  {
    match op
    case Tables(o) =>
      (match Step(env, x.m, o)
       case None => None
       case Some(m) => Some(x.(m := m)))
    case TakeFrame =>
      (match AllocSpec(x.m.frames)
       case (f, None) => Some(x.(m := x.m.(frames := f)))
       case (f, Some(k)) => Some(Handed(env, x, f, k, 1)))
    case TakeBlock(count) =>
      if count == 0 && x.m.frames.latest == |x.m.frames.used| then None
      else
        (match AllocsSpec(x.m.frames, count)
         case (_, None) => Some(x)
         case (f, Some(s)) => Some(Handed(env, x, f, s, count)))
    case Store(k, row) =>
      if k in x.clients then Some(x.(m := x.m.(mem := x.m.mem[Address(env, k) := row]))) else None
    case Release(k) =>
      if k in x.clients && k < |x.m.frames.used| then Some(Released(x, k)) else None
  }

  /** The tables form a tree below the cursor, and no client was handed the frame of a table. */
  ghost predicate Separate(env: Env, x: Shared, t: map<Node, nat>) {
    && Tree(env, x.m, t) && Coherent(x.m, t) && BelowCursor(env, x.m.frames, t)
    && (forall k :: k in x.clients ==> OwnedFrame(env, x.m.frames, Address(env, k)))
    && forall n, k :: n in t && k in x.clients ==> t[n] != Address(env, k)
  }

  // ----- Steps -----

  lemma {:induction false} ClearedElsewhere(env: Env, mem: Memory, s: nat, count: nat, a: nat)
    requires a in mem && forall k :: s <= k < s + count ==> a != Address(env, k)
    ensures a in Cleared(env, mem, s, count) && Cleared(env, mem, s, count)[a] == mem[a]
    decreases count
  {
    if count != 0 {
      ClearedElsewhere(env, mem, s, count - 1, a);
    }
  }

  /** Memory that changes outside the tables, and a bitmap that keeps their frames, keep the tree. */
  lemma ElsewhereKeepsTree(env: Env, m: Machine, t: map<Node, nat>, mem': Memory, f': FrameState)
    requires Tree(env, m, t) && Coherent(m, t) && InRange(f') && |f'.used| == |m.frames.used|
    requires forall n :: n in t ==> OwnedFrame(env, f', t[n])
    requires forall n :: n in t ==> t[n] in m.mem && t[n] in mem' && mem'[t[n]] == m.mem[t[n]]
    ensures var m' := m.(mem := mem', frames := f');
            Tree(env, m', t) && Coherent(m', t) && SameLeaves(m, t, m', t)
  {
    var m' := m.(mem := mem', frames := f');
    forall n
      ensures TableOk(env, m', t, n) && SlotOk(mem', t, n)
    {
      assert TableOk(env, m, t, n) && SlotOk(m.mem, t, n);
      assert TableOk(env, m, t, Parent(n));
    }
    forall page: nat
      ensures Leaf(mem', t, page) == Leaf(m.mem, t, page)
    {
      assert TableOk(env, m, t, At(page, 1));
    }
  }

  /** Every table has its memory and its frame. */
  lemma TablesInPlace(env: Env, m: Machine, t: map<Node, nat>)
    requires Tree(env, m, t)
    ensures forall n :: n in t ==> t[n] in m.mem && OwnedFrame(env, m.frames, t[n])
  {
    forall n | n in t
      ensures t[n] in m.mem && OwnedFrame(env, m.frames, t[n])
    {
      assert TableOk(env, m, t, n);
    }
  }

  /** What either allocation does to the bitmap: a block at or above the cursor is taken. */
  ghost predicate Takes(f: FrameState, f': FrameState, s: nat, count: nat) {
    && InRange(f') && |f'.used| == |f.used| && f.latest <= f'.latest
    && (0 < count ==> f.latest <= s) && s + count <= |f.used|
    && forall k :: 0 <= k < |f.used| ==> (f'.used[k] <==> f.used[k] || s <= k < s + count)
  }

  lemma HandedKeepsSeparate(env: Env, x: Shared, t: map<Node, nat>, f: FrameState, s: nat, count: nat)
    requires Separate(env, x, t) && Takes(x.m.frames, f, s, count)
    ensures Separate(env, Handed(env, x, f, s, count), t)
    ensures SameLeaves(x.m, t, Handed(env, x, f, s, count).m, t)
  {
    var mem' := Cleared(env, x.m.mem, s, count);
    forall n, k | n in t && s <= k < s + count
      ensures t[n] != Address(env, k)
    {
      assert t[n] < Address(env, x.m.frames.latest);
    }
    TablesInPlace(env, x.m, t);
    forall n | n in t
      ensures t[n] in mem' && mem'[t[n]] == x.m.mem[t[n]]
    {
      ClearedElsewhere(env, x.m.mem, s, count, t[n]);
    }
    ElsewhereKeepsTree(env, x.m, t, mem', f);
    HandedAreOwned(env, x, f, s, count);
    InBlock(s, count);
  }

  lemma InBlock(s: nat, count: nat)
    ensures forall k :: k in Block(s, count) <==> s <= k < s + count
  {
    BlockCounts(s, count);
  }

  lemma HandedAreOwned(env: Env, x: Shared, f: FrameState, s: nat, count: nat)
    requires Takes(x.m.frames, f, s, count)
    requires forall k :: k in x.clients ==> OwnedFrame(env, x.m.frames, Address(env, k))
    ensures forall k :: k in Handed(env, x, f, s, count).clients ==> OwnedFrame(env, f, Address(env, k))
  {
    InBlock(s, count);
    forall k | k in x.clients || s <= k < s + count
      ensures OwnedFrame(env, f, Address(env, k))
    {
      FrameIndexOf(env, k);
    }
  }

  lemma FrameIndexOf(env: Env, k: nat)
    ensures (Address(env, k) - env.base) % 4096 == 0 && (Address(env, k) - env.base) / 4096 == k
  {
  }

  lemma AllocTakes(f: FrameState)
    requires InRange(f) && AllocSpec(f).1.Some?
    ensures Takes(f, AllocSpec(f).0, AllocSpec(f).1.value, 1)
  {
  }

  lemma AllocsTakes(f: FrameState, count: nat)
    requires InRange(f) && (0 < count || f.latest < |f.used|) && AllocsSpec(f, count).1.Some?
    ensures Takes(f, AllocsSpec(f, count).0, AllocsSpec(f, count).1.value, count)
  {
    if count == 0 {
      AllocsOfNone(f);
    } else {
      AllocsLaw(f, count);
    }
  }

  lemma StoreKeepsSeparate(env: Env, x: Shared, t: map<Node, nat>, k: nat, row: seq<nat>)
    requires Separate(env, x, t) && k in x.clients
    ensures var m' := x.m.(mem := x.m.mem[Address(env, k) := row]);
            Separate(env, x.(m := m'), t) && SameLeaves(x.m, t, m', t)
  {
    TablesInPlace(env, x.m, t);
    ElsewhereKeepsTree(env, x.m, t, x.m.mem[Address(env, k) := row], x.m.frames);
  }

  lemma FailedAllocKeepsSeparate(env: Env, x: Shared, t: map<Node, nat>)
    requires Separate(env, x, t) && AllocSpec(x.m.frames).1.None?
    ensures var m' := x.m.(frames := AllocSpec(x.m.frames).0);
            Separate(env, x.(m := m'), t) && SameLeaves(x.m, t, m', t)
  {
    TablesInPlace(env, x.m, t);
    ElsewhereKeepsTree(env, x.m, t, x.m.mem, AllocSpec(x.m.frames).0);
  }

  /** Every table lies below a frame. */
  ghost predicate TablesBelow(env: Env, t: map<Node, nat>, k: nat) {
    forall n :: n in t ==> t[n] < Address(env, k)
  }

  lemma ReleaseKeepsSeparate(env: Env, x: Shared, t: map<Node, nat>, k: nat)
    requires Separate(env, x, t) && x.clients[k] == 1 && k < |x.m.frames.used| && TablesBelow(env, t, k)
    ensures Separate(env, Released(x, k), t) && SameLeaves(x.m, t, Released(x, k).m, t)
  {
    TablesInPlace(env, x.m, t);
    var f := FreeSpec(x.m.frames, k);
    FrameIndexOf(env, k);
    forall n | n in t
      ensures OwnedFrame(env, f, t[n])
    {
      assert k in x.clients && t[n] != Address(env, k);
    }
    forall j | j in Released(x, k).clients
      ensures OwnedFrame(env, f, Address(env, j))
    {
      assert j in x.clients && j != k;
      FrameIndexOf(env, j);
    }
    ElsewhereKeepsTree(env, x.m, t, x.m.mem, f);
  }

  lemma TablesKeepSeparate(env: Env, x: Shared, t: map<Node, nat>, op: Op) returns (t': map<Node, nat>)
    requires Separate(env, x, t) && Step(env, x.m, op).Some?
    ensures var m' := Step(env, x.m, op).value;
            && Separate(env, x.(m := m'), t')
            && forall page: nat :: Leaf(m'.mem, t', page) == FlatStep(op, page, Leaf(x.m.mem, t, page))
  {
    t' := StepRefines(env, x.m, t, op);
    var m' := Step(env, x.m, op).value;
    forall k | k in x.clients
      ensures OwnedFrame(env, m'.frames, Address(env, k))
    {
      assert OwnedFrame(env, x.m.frames, Address(env, k));
    }
    forall n, k | n in t' && k in x.clients
      ensures t'[n] != Address(env, k)
    {
      assert OwnedFrame(env, x.m.frames, Address(env, k));
    }
  }

  /** What a step does to the entry of a page: clients do nothing to it. */
  function SharedFlatStep(op: SharedOp, page: nat, entry: nat): nat {
    if op.Tables? then FlatStep(op.op, page, entry) else entry
  }

  /** A client may give back a frame that no other one was handed too and that no table lies behind. */
  ghost predicate SafeStep(env: Env, x: Shared, op: SharedOp) {
    op.Release? ==> x.clients[op.frame] == 1 && exists t :: Tree(env, x.m, t) && TablesBelow(env, t, op.frame)
  }

  lemma StepKeepsSeparate(env: Env, x: Shared, t: map<Node, nat>, op: SharedOp) returns (t': map<Node, nat>)
    requires Separate(env, x, t) && SharedStep(env, x, op).Some? && SafeStep(env, x, op)
    ensures var x' := SharedStep(env, x, op).value;
            && Separate(env, x', t')
            && forall page: nat :: Leaf(x'.m.mem, t', page) == SharedFlatStep(op, page, Leaf(x.m.mem, t, page))
  {
    t' := t;
    match op
    case Tables(o) => t' := TablesKeepSeparate(env, x, t, o);
    case Store(k, row) => StoreKeepsSeparate(env, x, t, k, row);
    case Release(k) =>
      var t1 :| Tree(env, x.m, t1) && TablesBelow(env, t1, k);
      OneTree(env, x.m, t, t1);
      ReleaseKeepsSeparate(env, x, t, k);
    case TakeFrame =>
      var (f, r) := AllocSpec(x.m.frames);
      if r.Some? {
        AllocTakes(x.m.frames);
        HandedKeepsSeparate(env, x, t, f, r.value, 1);
      } else {
        FailedAllocKeepsSeparate(env, x, t);
      }
    case TakeBlock(count) =>
      var (f, r) := AllocsSpec(x.m.frames, count);
      if r.Some? {
        AllocsTakes(x.m.frames, count);
        HandedKeepsSeparate(env, x, t, f, r.value, count);
      }
  }

  /** The tables that memory holds are the same however they are described. */
  lemma {:induction false} SameTable(env: Env, m: Machine, t: map<Node, nat>, t': map<Node, nat>, n: Node)
    requires Tree(env, m, t) && Tree(env, m, t') && n in t
    ensures n in t' && t'[n] == t[n]
    decreases 4 - n.level
  {
    assert TableOk(env, m, t, n) && SlotOk(m.mem, t, n) && SlotOk(m.mem, t', n);
    if n.level < 4 {
      SameTable(env, m, t, t', Parent(n));
    }
  }

  lemma OneTree(env: Env, m: Machine, t: map<Node, nat>, t': map<Node, nat>)
    requires Tree(env, m, t) && Tree(env, m, t')
    ensures t == t'
  {
    forall n
      ensures n in t <==> n in t'
      ensures n in t ==> t'[n] == t[n]
    {
      if n in t {
        SameTable(env, m, t, t', n);
      } else if n in t' {
        SameTable(env, m, t', t, n);
      }
    }
  }

  // ----- Runs -----

  function SharedRun(env: Env, x: Shared, ops: seq<SharedOp>): Option<Shared>
    requires InRange(x.m.frames)
    decreases |ops|
  {
    if ops == [] then Some(x)
    else match SharedStep(env, x, ops[0])
         case None => None
         case Some(y) => if InRange(y.m.frames) then SharedRun(env, y, ops[1..]) else None
  }

  function SharedFlat(ops: seq<SharedOp>, page: nat, entry: nat): nat
    decreases |ops|
  {
    if ops == [] then entry else SharedFlat(ops[1..], page, SharedFlatStep(ops[0], page, entry))
  }

  ghost predicate SafeRun(env: Env, x: Shared, ops: seq<SharedOp>)
    requires InRange(x.m.frames)
    decreases |ops|
  {
    ops != [] ==>
      && SafeStep(env, x, ops[0])
      && match SharedStep(env, x, ops[0])
         case None => true
         case Some(y) => InRange(y.m.frames) ==> SafeRun(env, y, ops[1..])
  }

  lemma {:induction false} RunKeepsSeparate(env: Env, x: Shared, t: map<Node, nat>,
                                            ops: seq<SharedOp>) returns (t': map<Node, nat>)
    requires Separate(env, x, t) && SharedRun(env, x, ops).Some? && SafeRun(env, x, ops)
    ensures var x' := SharedRun(env, x, ops).value;
            && Separate(env, x', t')
            && forall page: nat :: Leaf(x'.m.mem, t', page) == SharedFlat(ops, page, Leaf(x.m.mem, t, page))
    decreases |ops|
  {
    t' := t;
    if ops != [] {
      var t1 := StepKeepsSeparate(env, x, t, ops[0]);
      t' := RunKeepsSeparate(env, SharedStep(env, x, ops[0]).value, t1, ops[1..]);
    }
  }

  /** The frames that clients hold already when paging starts, as the interrupt stacks do. */
  predicate TakenBefore(frames: FrameState, early: multiset<nat>) {
    forall k :: k in early ==> k < |frames.used| && frames.used[k]
  }

  lemma InitialSeparate(env: Env, frames: FrameState, m: Machine, early: multiset<nat>)
    requires Initial(env, frames, m) && TakenBefore(frames, early)
    ensures Separate(env, Shared(m, early), map[ROOT := env.root])
  {
    InitialTree(env, frames, m);
    forall k | k in early
      ensures OwnedFrame(env, m.frames, Address(env, k)) && env.root != Address(env, k)
    {
      FrameIndexOf(env, k);
    }
  }

  /** Isolation over every run from `init`: whatever other clients take, write and safely give back,
      each page's walk, cached or not, is decided by the operations on the tables alone, and no
      client was handed the frame of a table. */
  lemma ClientsNeverTouchTables(env: Env, frames: FrameState, m: Machine, early: multiset<nat>, ops: seq<SharedOp>,
                                x: Shared, page: nat, level: nat)
    requires Initial(env, frames, m) && TakenBefore(frames, early) && page < PAGES
    requires SharedRun(env, Shared(m, early), ops) == Some(x) && SafeRun(env, Shared(m, early), ops)
    ensures Walk(env, x.m.mem, page) == SharedFlat(ops, page, 0)
    ensures Translate(env, x.m, page, level) == Walk(env, x.m.mem, page)
    ensures exists t :: Separate(env, x, t)
  {
    var t := map[ROOT := env.root];
    InitialSeparate(env, frames, m, early);
    var t' := RunKeepsSeparate(env, Shared(m, early), t, ops);
    WalkReadsLeaf(env, m, t, page);
    InitSound(env, frames, m);
    WalkReadsLeaf(env, x.m, t', page);
    TranslateIsWalk(env, x.m, t', page, level);
  }

  // ----- Exactly when a table is handed out -----

  predicate NoRelease(ops: seq<SharedOp>) {
    forall i :: 0 <= i < |ops| ==> !ops[i].Release?
  }

  /** No client holds the frame of a table. */
  ghost predicate NotHeld(env: Env, x: Shared, t: map<Node, nat>) {
    forall n, k :: n in t && k in x.clients ==> t[n] != Address(env, k)
  }

  /** However the run goes on, as long as nothing is given back, no table of t is handed out. */
  ghost predicate NeverHandedOut(env: Env, x: Shared, t: map<Node, nat>)
    requires InRange(x.m.frames)
  {
    forall ops, y :: NoRelease(ops) && SharedRun(env, x, ops) == Some(y) ==> NotHeld(env, y, t)
  }

  /** Without a release the cursor only moves up, and what is handed out lies at or above it. */
  ghost predicate Climbs(x: Shared, y: Shared) {
    && InRange(x.m.frames) && InRange(y.m.frames) && x.m.frames.latest <= y.m.frames.latest
    && forall k :: k in y.clients ==> k in x.clients || x.m.frames.latest <= k
  }

  lemma DescendClimbs(env: Env, m: Machine, table: nat, i: nat)
    requires InRange(m.frames)
    ensures var d := Descend(env, m, table, i);
            d.Some? ==> InRange(d.value.0.frames) && m.frames.latest <= d.value.0.frames.latest
  {
  }

  lemma TablesClimb(env: Env, m: Machine, op: Op)
    requires InRange(m.frames) && Step(env, m, op).Some?
    ensures var m' := Step(env, m, op).value;
            InRange(m'.frames) && m.frames.latest <= m'.frames.latest
  {
    if op.MapOp? {
      var d3 := Descend(env, m, env.root, Index(op.virt, 39));
      DescendClimbs(env, m, env.root, Index(op.virt, 39));
      var (m3, pml3) := d3.value;
      DescendClimbs(env, m3, pml3, Index(op.virt, 30));
      var (m2, pml2) := Descend(env, m3, pml3, Index(op.virt, 30)).value;
      DescendClimbs(env, m2, pml2, Index(op.virt, 21));
    }
  }

  lemma StepClimbs(env: Env, x: Shared, op: SharedOp)
    requires InRange(x.m.frames) && SharedStep(env, x, op).Some? && !op.Release?
    ensures Climbs(x, SharedStep(env, x, op).value)
  {
    match op
    case Tables(o) => TablesClimb(env, x.m, o);
    case Store(k, row) =>
    case TakeFrame =>
      var (f, r) := AllocSpec(x.m.frames);
      if r.Some? {
        AllocTakes(x.m.frames);
        InBlock(r.value, 1);
      }
    case TakeBlock(count) =>
      var (f, r) := AllocsSpec(x.m.frames, count);
      if r.Some? {
        AllocsTakes(x.m.frames, count);
        InBlock(r.value, count);
      }
  }

  lemma {:induction false} RunClimbs(env: Env, x: Shared, ops: seq<SharedOp>)
    requires InRange(x.m.frames) && NoRelease(ops) && SharedRun(env, x, ops).Some?
    ensures Climbs(x, SharedRun(env, x, ops).value)
    decreases |ops|
  {
    if ops != [] {
      StepClimbs(env, x, ops[0]);
      RunClimbs(env, SharedStep(env, x, ops[0]).value, ops[1..]);
    }
  }

  /** A block of one is always the cursor's frame, taken or not. */
  lemma OneTakesCursor(env: Env, x: Shared)
    requires x.m.frames.latest < |x.m.frames.used|
    ensures SharedStep(env, x, TakeBlock(1)).Some?
    ensures var y := SharedStep(env, x, TakeBlock(1)).value;
            && x.m.frames.latest in y.clients && (forall k :: k in x.clients ==> k in y.clients)
            && y.m.frames.latest == x.m.frames.latest + 1 && |y.m.frames.used| == |x.m.frames.used|
  {
    InBlock(x.m.frames.latest, 1);
  }

  function Ones(n: nat): (ops: seq<SharedOp>)
    ensures NoRelease(ops)
  {
    if n == 0 then [] else [TakeBlock(1)] + Ones(n - 1)
  }

  lemma RunFirst(env: Env, x: Shared, op: SharedOp, ops: seq<SharedOp>, y: Shared)
    requires InRange(x.m.frames) && SharedStep(env, x, op) == Some(y) && InRange(y.m.frames)
    ensures SharedRun(env, x, [op] + ops) == SharedRun(env, y, ops)
  {
    assert ([op] + ops)[1..] == ops;
  }

  /** So blocks of one, taken one after the other, reach every frame from the cursor on. */
  lemma {:induction false} OnesReach(env: Env, x: Shared, n: nat, j: nat)
    requires j == x.m.frames.latest + n < |x.m.frames.used|
    ensures SharedRun(env, x, Ones(n + 1)).Some? && j in SharedRun(env, x, Ones(n + 1)).value.clients
    decreases n
  {
    OneTakesCursor(env, x);
    var y := SharedStep(env, x, TakeBlock(1)).value;
    RunFirst(env, x, TakeBlock(1), Ones(n), y);
    if n > 0 {
      OnesReach(env, y, n - 1, j);
    }
  }

  /** The exact condition: no table is ever handed out if and only if all lie below the cursor. */
  lemma BelowCursorExactly(env: Env, x: Shared, t: map<Node, nat>)
    requires Tree(env, x.m, t) && NotHeld(env, x, t)
    ensures NeverHandedOut(env, x, t) <==> BelowCursor(env, x.m.frames, t)
  {
    if BelowCursor(env, x.m.frames, t) {
      forall ops, y | NoRelease(ops) && SharedRun(env, x, ops) == Some(y)
        ensures NotHeld(env, y, t)
      {
        RunClimbs(env, x, ops);
      }
    } else {
      var n :| n in t && t[n] >= env.base + x.m.frames.latest * FRAME_SIZE;
      ReachesTable(env, x, t, n);
    }
  }

  /** A table at or above the cursor is handed out by a run of blocks of one. */
  lemma ReachesTable(env: Env, x: Shared, t: map<Node, nat>, n: Node)
    requires Tree(env, x.m, t) && n in t && t[n] >= Address(env, x.m.frames.latest)
    ensures !NeverHandedOut(env, x, t)
  {
    assert TableOk(env, x.m, t, n);
    var j := (t[n] - env.base) / 4096;
    assert t[n] == Address(env, j);
    OnesReach(env, x, j - x.m.frames.latest, j);
    var ops := Ones(j - x.m.frames.latest + 1);
    assert !NotHeld(env, SharedRun(env, x, ops).value, t);
  }

  /** Giving back a frame is safe for the tables that exist if and only if all of them lie below it,
      and for those to come if and only if no other client was handed it too: it is what the next
      table gets. */
  lemma ReleaseExactly(env: Env, x: Shared, t: map<Node, nat>, k: nat)
    requires Separate(env, x, t) && k in x.clients
    ensures k < |x.m.frames.used| && SharedStep(env, x, Release(k)) == Some(Released(x, k))
    ensures NeverHandedOut(env, Released(x, k), t) <==> TablesBelow(env, t, k)
    ensures AllocSpec(Released(x, k).m.frames).1 == Some(k)
    ensures k in Released(x, k).clients <==> x.clients[k] > 1
  {
    FrameIndexOf(env, k);
    ReleasedTree(env, x, t, k);
    BelowCursorExactly(env, Released(x, k), t);
  }

  lemma ReleasedTree(env: Env, x: Shared, t: map<Node, nat>, k: nat)
    requires Separate(env, x, t) && k in x.clients && k < |x.m.frames.used|
    ensures Tree(env, Released(x, k).m, t) && NotHeld(env, Released(x, k), t)
  {
    FrameIndexOf(env, k);
    TablesInPlace(env, x.m, t);
    var f := FreeSpec(x.m.frames, k);
    forall n | n in t
      ensures OwnedFrame(env, f, t[n])
    {
      assert t[n] != Address(env, k);
    }
    ElsewhereKeepsTree(env, x.m, t, x.m.mem, f);
  }

  // ----- A run that erases the tables -----

  /** From `init`: a client that gives back the frame in front of the top table and takes a block of
      two is handed the top table, and every page is unmapped. */
  lemma FreeLetsBlockEraseTables(env: Env, frames: FrameState, m: Machine, early: multiset<nat>, k: nat, page: nat)
    requires Initial(env, frames, m) && TakenBefore(frames, early)
    requires k in early && AllocSpec(frames).1 == Some(k + 1) && k + 2 < |frames.used| && !frames.used[k + 2]
    ensures var r := SharedRun(env, Shared(m, early), [Release(k), TakeBlock(2)]);
            r.Some? && k + 1 in r.value.clients && env.root == Address(env, k + 1) && Walk(env, r.value.m.mem, page) == 0
  {
    var x := Shared(m, early);
    var y := Released(x, k);
    var z := BlockErases(env, y, k, page);
    RunFirst(env, y, TakeBlock(2), [], z);
    RunFirst(env, x, Release(k), [TakeBlock(2)] + [], y);
    assert [Release(k)] + ([TakeBlock(2)] + []) == [Release(k), TakeBlock(2)];
  }

  /** A block of two behind a free frame and a taken one starts on the taken one and clears it. */
  lemma BlockErases(env: Env, y: Shared, k: nat, page: nat) returns (z: Shared)
    requires y.m.frames.latest == k && env.root == Address(env, k + 1) && k + 2 < |y.m.frames.used|
    requires !y.m.frames.used[k] && y.m.frames.used[k + 1] && !y.m.frames.used[k + 2]
    ensures SharedStep(env, y, TakeBlock(2)) == Some(z) && InRange(z.m.frames)
    ensures k + 1 in z.clients && Walk(env, z.m.mem, page) == 0
  {
    BlockBehindGap(y.m.frames.used, k);
    InBlock(k + 1, 2);
    z := SharedStep(env, y, TakeBlock(2)).value;
    assert z.m.mem == Cleared(env, y.m.mem, k + 1, 1)[Address(env, k + 2) := Zeroed()];
    assert z.m.mem[env.root] == Zeroed();
  }

  lemma BlockBehindGap(used: seq<bool>, k: nat)
    requires k + 2 < |used| && !used[k] && used[k + 1] && !used[k + 2]
    ensures FindRun(used, k, k, 0, 2) == Some(k + 1)
  {
    assert FindRun(used, k, k, 0, 2) == FindRun(used, k + 1, k, 1, 2) == FindRun(used, k + 2, k + 1, 1, 2);
  }

  /** The frames of the blocks that equal calls of `allocs` hand out. */
  function BlocksHeld(from: nat, c: nat, n: nat): multiset<nat>
    requires 0 < c
  {
    if n == 0 then multiset{} else BlocksHeld(from, c, n - 1) + Block(BlockStart(from, c, n - 1), c)
  }

  lemma {:induction false} BlocksHeldAre(from: nat, c: nat, n: nat)
    requires 1 < c && 0 < n
    ensures forall k :: k in BlocksHeld(from, c, n) <==> from <= k < BlockStart(from, c, n - 1) + c
  {
    InBlock(BlockStart(from, c, n - 1), c);
    if n > 1 {
      BlocksHeldAre(from, c, n - 1);
    }
  }

  lemma NextFreeIs(used: seq<bool>, i: nat, k: nat)
    requires i <= k < |used| && (forall j :: i <= j < k ==> used[j]) && !used[k]
    ensures NextFree(used, i) == k
  {
  }

  /** The allocator after n interrupt stacks of c frames each. */
  lemma StacksTaken(f: FrameState, c: nat, n: nat, frames: FrameState, last: nat)
    requires InRange(f) && f.latest == 0 && 1 < c && 0 < n && frames == AllocsTimes(f, c, n)
    requires last == BlockStart(0, c, n) && last < |f.used| && AllFree(f.used, 0, |f.used|)
    ensures |frames.used| == |f.used| && frames.latest == n <= last
    ensures forall k :: 0 <= k < |f.used| ==> (frames.used[k] <==> k <= last)
  {
    EqualBlocks(f, c, n - 1);
    BlockStartsGrow(0, c, 0, n);
  }

  /** The kernel's own start is such a run. After n interrupt stacks of c frames the top table lies
      right behind the last of them, and giving back that stack's last frame exposes it: the seven
      stacks of four frames end at frame 21, and the top table is frame 22. */
  lemma StackFreedErasesTables(env: Env, f: FrameState, c: nat, n: nat, frames: FrameState, m: Machine, last: nat,
                               page: nat)
    requires InRange(f) && f.latest == 0 && 1 < c && 0 < n && frames == AllocsTimes(f, c, n)
    requires last == BlockStart(0, c, n) && last + 2 < |f.used| && AllFree(f.used, 0, |f.used|)
    requires Initial(env, frames, m)
    ensures last == n * (c - 1) && env.root == Address(env, last + 1) && TakenBefore(frames, BlocksHeld(0, c, n))
    ensures var r := SharedRun(env, Shared(m, BlocksHeld(0, c, n)), [Release(last), TakeBlock(2)]);
            r.Some? && last + 1 in r.value.clients && Walk(env, r.value.m.mem, page) == 0
  {
    StacksTaken(f, c, n, frames, last);
    NextFreeIs(frames.used, n, last + 1);
    BlockStartValue(0, c, n);
    BlocksHeldAre(0, c, n);
    FreeLetsBlockEraseTables(env, frames, m, BlocksHeld(0, c, n), last, page);
  }
}
