/** The physical frame allocator: a bitmap and a cursor that moves over it. */
module Frames {
  import opened Bits
  import opened Options

  const FRAME_SIZE: nat := 0x1000

  /** `used` has one flag for each available frame; `latest` is where the next search starts. */
  datatype FrameState = FrameState(used: seq<bool>, latest: nat)

  predicate InRange(f: FrameState) {
    f.latest <= |f.used|
  }

  // ----- One frame at a time -----

  /** The least free frame at or above i, or the number of frames when there is none. */
  function NextFree(used: seq<bool>, i: nat): (r: nat)
    requires i <= |used|
    ensures i <= r <= |used|
    ensures forall k :: i <= k < r ==> used[k]
    ensures r < |used| ==> !used[r]
    decreases |used| - i
  {
    if i < |used| && used[i] then NextFree(used, i + 1) else i
  }

  function AllocSpec(f: FrameState): (r: (FrameState, Option<nat>))
    requires InRange(f)
    ensures InRange(r.0) && |r.0.used| == |f.used|
    ensures r.1.Some? ==> r.1.value < |f.used| && !f.used[r.1.value] && r.0.used == f.used[r.1.value := true]
    ensures r.1.None? ==> r.0.used == f.used && forall k :: f.latest <= k < |f.used| ==> f.used[k]
  {
    var n := NextFree(f.used, f.latest);
    if n == |f.used| then (f.(latest := n), None)
    else (FrameState(f.used[n := true], n + 1), Some(n))
  }

  function FreeSpec(f: FrameState, i: nat): FrameState
    requires i < |f.used|
  {
    FrameState(f.used[i := false], i)
  }

  /** Index to address is 32-bit arithmetic, and so is the way back. */
  function AddressOf(base: nat, i: nat): nat {
    base + i * FRAME_SIZE % WORD32
  }

  function IndexOf(base: nat, address: nat): nat {
    (address - base) % WORD32 / FRAME_SIZE
  }

  /** The way back finds the frame again exactly below 2^20. */
  lemma AddressRoundTrip(base: nat, i: nat)
    ensures IndexOf(base, AddressOf(base, i)) == i <==> i < 0x10_0000
  {
    var offset := i * FRAME_SIZE % WORD32;
    assert AddressOf(base, i) - base == offset && offset % WORD32 == offset;
    if i < 0x10_0000 {
      assert offset == i * FRAME_SIZE;
    }
  }

  /** How many frames a run of single allocations can still deliver. */
  function FreeFrom(used: seq<bool>, i: nat): nat
    requires i <= |used|
    decreases |used| - i
  {
    if i == |used| then 0
    else (if used[i] then 0 else 1) + FreeFrom(used, i + 1)
  }

  function Available(f: FrameState): nat
    requires InRange(f)
  {
    FreeFrom(f.used, f.latest)
  }

  lemma {:induction false} FreeFromNext(used: seq<bool>, i: nat)
    requires i <= |used|
    ensures var n := NextFree(used, i);
            FreeFrom(used, i) == if n == |used| then 0 else 1 + FreeFrom(used, n + 1)
    decreases |used| - i
  {
    if i < |used| && used[i] {
      FreeFromNext(used, i + 1);
    }
  }

  lemma {:induction false} FreeFromFrame(used: seq<bool>, n: nat, i: nat)
    requires n < i <= |used|
    ensures FreeFrom(used[n := true], i) == FreeFrom(used, i)
    decreases |used| - i
  {
    if i < |used| {
      FreeFromFrame(used, n, i + 1);
    }
  }

  /** An allocation succeeds exactly when a frame is available, and uses up exactly one. */
  lemma AllocCounts(f: FrameState)
    requires InRange(f)
    ensures AllocSpec(f).1.Some? <==> 0 < Available(f)
    ensures AllocSpec(f).1.Some? ==> Available(AllocSpec(f).0) == Available(f) - 1
  {
    FreeFromNext(f.used, f.latest);
    var n := NextFree(f.used, f.latest);
    if n < |f.used| {
      FreeFromFrame(f.used, n, n + 1);
    }
  }

  // ----- Several adjacent frames -----

  /** The scan of `allocs`: it restarts at an occupied frame, counting that frame as the first. */
  function FindRun(used: seq<bool>, i: nat, start: nat, got: nat, count: nat): Option<nat>
    decreases |used| - i
  {
    if i >= |used| then (if got < count then None else Some(start))
    else
      var (start', got') := if used[i] then (i, 1) else (start, got + 1);
      if got' == count then Some(start') else FindRun(used, i + 1, start', got', count)
  }

  predicate AllFree(used: seq<bool>, lo: nat, hi: nat) {
    hi <= |used| && forall k :: lo <= k < hi ==> !used[k]
  }

  /** The caller's check under which the frames handed out were all free. */
  predicate Clean(f: FrameState, count: nat) {
    AllFree(f.used, f.latest, f.latest + count)
  }

  function Marked(used: seq<bool>, lo: nat, hi: nat): (r: seq<bool>)
    requires lo <= hi
    ensures |r| == |used|
  {
    seq(|used|, k requires 0 <= k < |used| => used[k] || lo <= k < hi)
  }

  function AllocsSpec(f: FrameState, count: nat): (FrameState, Option<nat>) {
    match FindRun(f.used, f.latest, f.latest, 0, count)
    case None => (f, None)
    case Some(s) => (FrameState(Marked(f.used, s, s + count), f.latest + 1), Some(s))
  }

  /** What the loop has established when it is about to look at frame i. */
  predicate Scanned(used: seq<bool>, from: nat, i: nat, start: nat, got: nat) {
    && from <= start <= i <= |used|
    && got == i - start
    && (forall k :: start < k < i ==> !used[k])
    && (start < i && !used[start] ==> start == from)
    && (got == 0 ==> start == from == i)
  }

  /** A run the scan would accept: its frames after the first are free, and either the first is
      occupied or nothing before it was looked at. */
  predicate Acceptable(used: seq<bool>, from: nat, s: nat, count: nat) {
    && 0 < count && from <= s && s + count <= |used|
    && (s == from || used[s])
    && forall k :: s < k < s + count ==> !used[k]
  }

  lemma {:induction false} FindRunLaw(used: seq<bool>, from: nat, i: nat, start: nat, got: nat, count: nat)
    requires Scanned(used, from, i, start, got) && got < count
    ensures var r := FindRun(used, i, start, got, count);
            && (r.Some? ==> Acceptable(used, from, r.value, count) && start <= r.value)
            && (r.Some? && used[r.value] ==> exists k :: from <= k < r.value + count && used[k])
            && (r.Some? && !used[r.value] ==> r.value == from && AllFree(used, from, from + count))
            && forall s :: start <= s && Acceptable(used, from, s, count) ==> r.Some? && r.value <= s
    decreases |used| - i
  {
    if i == |used| {
    } else {
      var start' := if used[i] then i else start;
      var got' := if used[i] then 1 else got + 1;
      if got' == count {
        assert Acceptable(used, from, start', count);
        forall s | start <= s && Acceptable(used, from, s, count)
          ensures start' <= s
        {
          assert s < i < s + count ==> !used[i];
        }
      } else {
        FindRunLaw(used, from, i + 1, start', got', count);
        forall s | start <= s && Acceptable(used, from, s, count)
          ensures start' <= s
        {
          assert s < i < s + count ==> !used[i];
        }
      }
    }
  }

  /** The exact law of `allocs`: it takes the first acceptable run, fails only when there is
      none, and the frames it hands out were all free exactly when the caller's check `Clean` holds. */
  lemma AllocsLaw(f: FrameState, count: nat)
    requires InRange(f) && 0 < count
    ensures var (f', r) := AllocsSpec(f, count);
            && InRange(f')
            && (r.Some? <==> exists s :: Acceptable(f.used, f.latest, s, count))
            && (r.None? ==> f' == f)
            && (r.Some? ==> Acceptable(f.used, f.latest, r.value, count))
            && (r.Some? ==> forall s :: Acceptable(f.used, f.latest, s, count) ==> r.value <= s)
            && (r.Some? ==> forall k :: 0 <= k < |f.used| ==>
                  (f'.used[k] <==> f.used[k] || r.value <= k < r.value + count))
            && (r.Some? ==> (AllFree(f.used, r.value, r.value + count) <==> Clean(f, count)))
            && (Clean(f, count) ==> r == Some(f.latest))
  {
    FindRunLaw(f.used, f.latest, f.latest, f.latest, 0, count);
    if Clean(f, count) {
      assert Acceptable(f.used, f.latest, f.latest, count);
    }
  }

  lemma {:induction false} ScanOccupied(used: seq<bool>, i: nat, j: nat, start: nat, got: nat, count: nat)
    requires i < j <= |used| && 1 < count && forall k :: i <= k < j ==> used[k]
    ensures FindRun(used, i, start, got, count) == FindRun(used, j, j - 1, 1, count)
    decreases j - i
  {
    if i + 1 < j {
      ScanOccupied(used, i + 1, j, i, 1, count);
    }
  }

  lemma {:induction false} ScanFree(used: seq<bool>, i: nat, start: nat, got: nat, count: nat)
    requires got < count && AllFree(used, i, i + count - got)
    ensures FindRun(used, i, start, got, count) == Some(start)
    decreases count - got
  {
    if got + 1 < count {
      ScanFree(used, i + 1, start, got + 1, count);
    }
  }

  /** Two calls in a row overlap whenever the first one asked for more than one frame, however
      many free frames there are: the cursor only moved by one. */
  lemma AllocsTwiceOverlaps(f: FrameState, first: nat, second: nat)
    requires InRange(f) && 0 < first && 0 < second
    requires AllFree(f.used, f.latest, f.latest + first + second)
    ensures var (f1, r1) := AllocsSpec(f, first);
            var (f2, r2) := AllocsSpec(f1, second);
            && r1 == Some(f.latest) && r2.Some?
            && r2.value == (if first == 1 || second == 1 then f.latest + 1 else f.latest + first - 1)
            && (r2.value < r1.value + first <==> 1 < first)
  {
    var L := f.latest;
    ScanFree(f.used, L, L, 0, first);
    var used1 := Marked(f.used, L, L + first);
    if first == 1 {
      assert AllFree(used1, L + 1, L + 1 + second);
      ScanFree(used1, L + 1, L + 1, 0, second);
    } else if second == 1 {
      assert used1[L + 1];
    } else {
      ScanOccupied(used1, L + 1, L + first, L + 1, 0, second);
      ScanFree(used1, L + first, L + first - 1, 1, second);
    }
  }

  /** Where the scan ends that is asked for no frames: on the last occupied frame that it saw. */
  lemma {:induction false} ScanForNone(used: seq<bool>, i: nat, start: nat, got: nat)
    requires start <= i <= |used|
    ensures var r := FindRun(used, i, start, got, 0);
            && r.Some? && start <= r.value <= |used|
            && (if AllFree(used, i, |used|) then r.value == start
                else i <= r.value < |used| && used[r.value] && AllFree(used, r.value + 1, |used|))
    decreases |used| - i
  {
    if i < |used| {
      ScanForNone(used, i + 1, if used[i] then i else start, if used[i] then 1 else got + 1);
    }
  }

  /** A call for no frames marks nothing, answers with the last occupied frame at or above the cursor, or
      with the cursor when there is none, and moves the cursor. */
  lemma AllocsOfNone(f: FrameState)
    requires InRange(f)
    ensures var (f', r) := AllocsSpec(f, 0);
            && f' == FrameState(f.used, f.latest + 1) && r.Some?
            && (if AllFree(f.used, f.latest, |f.used|) then r.value == f.latest
                else f.latest <= r.value < |f.used| && f.used[r.value] && AllFree(f.used, r.value + 1, |f.used|))
  {
    ScanForNone(f.used, f.latest, f.latest, 0);
    var s := FindRun(f.used, f.latest, f.latest, 0, 0).value;
    assert Marked(f.used, s, s) == f.used;
  }

  /** The allocator after n calls of `allocs` for c frames each. */
  function AllocsTimes(f: FrameState, c: nat, n: nat): FrameState
    decreases n
  {
    if n == 0 then f else AllocsSpec(AllocsTimes(f, c, n - 1), c).0
  }

  /** One more call, when the frames from the cursor to the last one handed out are taken. */
  lemma NextBlock(f: FrameState, c: nat, last: nat)
    requires InRange(f) && 1 < c && f.latest <= last < |f.used| && (forall k :: f.latest <= k <= last ==> f.used[k])
    requires AllFree(f.used, last + 1, last + c)
    ensures AllocsSpec(f, c) == (FrameState(Marked(f.used, last, last + c), f.latest + 1), Some(last))
  {
    ScanOccupied(f.used, f.latest, last + 1, f.latest, 0, c);
    ScanFree(f.used, last + 1, last, 1, c);
  }

  lemma MarkedTwice(used: seq<bool>, a: nat, b: nat, c: nat)
    requires a < b <= c
    ensures Marked(Marked(used, a, b), b - 1, c) == Marked(used, a, c)
  {
  }

  /** Where the i-th of several blocks of c frames starts, each on the last frame of the one before. */
  function BlockStart(from: nat, c: nat, i: nat): (start: nat)
    requires 0 < c
    ensures from <= start
  {
    if i == 0 then from else BlockStart(from, c, i - 1) + (c - 1)
  }

  lemma {:induction false} BlockStartValue(from: nat, c: nat, i: nat)
    requires 0 < c
    ensures BlockStart(from, c, i) == from + i * (c - 1)
  {
    if i != 0 {
      BlockStartValue(from, c, i - 1);
      assert i * (c - 1) == (i - 1) * (c - 1) + (c - 1);
    }
  }

  lemma {:induction false} BlockStartsGrow(from: nat, c: nat, i: nat, n: nat)
    requires 1 < c && i <= n
    ensures BlockStart(from, c, i) + (n - i) <= BlockStart(from, c, n)
    decreases n
  {
    if i < n {
      BlockStartsGrow(from, c, i, n - 1);
    }
  }

  /** The i-th of several calls for c > 1 frames each, from a cursor with free frames behind it, and
      the state that it leaves. */
  lemma {:induction false} EqualBlocks(f: FrameState, c: nat, i: nat)
    requires InRange(f) && 1 < c && AllFree(f.used, f.latest, BlockStart(f.latest, c, i) + c)
    ensures AllocsSpec(AllocsTimes(f, c, i), c)
         == (FrameState(Marked(f.used, f.latest, BlockStart(f.latest, c, i) + c), f.latest + i + 1),
             Some(BlockStart(f.latest, c, i)))
    decreases i
  {
    if i == 0 {
      ScanFree(f.used, f.latest, f.latest, 0, c);
    } else {
      var last := BlockStart(f.latest, c, i);
      EqualBlocks(f, c, i - 1);
      BlockStartsGrow(f.latest, c, 0, i);
      NextBlock(AllocsTimes(f, c, i), c, last);
      MarkedTwice(f.used, f.latest, last + 1, last + c);
    }
  }

  /** Equal block allocations in a row: the i-th starts at L + i(c - 1), on the last frame of the
      one before. The seven interrupt stacks of four frames are such calls. */
  lemma EqualBlocksOverlap(f: FrameState, c: nat, n: nat, i: nat)
    requires InRange(f) && 1 < c && i < n && AllFree(f.used, f.latest, f.latest + n * (c - 1) + 1)
    ensures AllocsSpec(AllocsTimes(f, c, i), c).1 == Some(f.latest + i * (c - 1))
  {
    BlockStartValue(f.latest, c, n);
    BlockStartValue(f.latest, c, i);
    BlockStartsGrow(f.latest, c, i + 1, n);
    EqualBlocks(f, c, i);
  }

  // ----- Runs -----

  datatype FrameOp = AllocOp | AllocsOp(count: nat) | FreeOp(frame: nat)

  /** The allocator together with the frames handed out and not yet given back. */
  datatype Ledger = Ledger(state: FrameState, out: multiset<nat>)

  function Block(s: nat, count: nat): multiset<nat> {
    if count == 0 then multiset{} else Block(s, count - 1) + multiset{s + count - 1}
  }

  predicate Legal(l: Ledger, op: FrameOp) {
    match op
    case AllocOp => true
    case AllocsOp(count) => 0 < count && (FindRun(l.state.used, l.state.latest, l.state.latest, 0, count).Some? ==> Clean(l.state, count))
    case FreeOp(i) => i in l.out
  }

  ghost predicate Exclusive(l: Ledger) {
    && InRange(l.state)
    && forall i :: i in l.out ==> l.out[i] == 1 && i < |l.state.used| && l.state.used[i]
  }

  function LedgerStep(l: Ledger, op: FrameOp): Ledger
    requires Exclusive(l) && Legal(l, op)
  {
    match op
    case AllocOp =>
      var (f, r) := AllocSpec(l.state);
      Ledger(f, if r.Some? then l.out + multiset{r.value} else l.out)
    case AllocsOp(count) =>
      var (f, r) := AllocsSpec(l.state, count);
      Ledger(f, if r.Some? then l.out + Block(r.value, count) else l.out)
    case FreeOp(i) => Ledger(FreeSpec(l.state, i), l.out - multiset{i})
  }

  lemma {:induction false} BlockCounts(s: nat, count: nat)
    ensures forall i :: Block(s, count)[i] == if s <= i < s + count then 1 else 0
  {
    if count != 0 {
      BlockCounts(s, count - 1);
    }
  }

  /** No step can hand out a frame that is already out. */
  lemma StepExclusive(l: Ledger, op: FrameOp)
    requires Exclusive(l) && Legal(l, op)
    ensures Exclusive(LedgerStep(l, op))
    ensures |LedgerStep(l, op).state.used| == |l.state.used|
  {
    match op
    case AllocOp =>
    case FreeOp(i) =>
    case AllocsOp(count) =>
      AllocsLaw(l.state, count);
      var (f, r) := AllocsSpec(l.state, count);
      if r.Some? {
        BlockCounts(r.value, count);
      }
  }

  predicate LegalRun(l: Ledger, ops: seq<FrameOp>)
    requires Exclusive(l)
    decreases |ops|
  {
    ops == [] ||
    (Legal(l, ops[0]) && (StepExclusive(l, ops[0]); LegalRun(LedgerStep(l, ops[0]), ops[1..])))
  }

  function RunLedger(l: Ledger, ops: seq<FrameOp>): Ledger
    requires Exclusive(l) && LegalRun(l, ops)
    decreases |ops|
  {
    if ops == [] then l
    else StepExclusive(l, ops[0]); RunLedger(LedgerStep(l, ops[0]), ops[1..])
  }

  /** Frame exclusivity: from any bitmap, every run of allocations, clean block allocations and
      frees of outstanding frames keeps each frame outstanding at most once and the cursor in
      range, and what the next allocation returns is not outstanding. */
  lemma {:induction false} RunExclusive(l: Ledger, ops: seq<FrameOp>)
    requires Exclusive(l) && LegalRun(l, ops)
    ensures var l' := RunLedger(l, ops);
            && Exclusive(l') && |l'.state.used| == |l.state.used|
            && (forall i :: l'.out[i] <= 1)
            && (AllocSpec(l'.state).1.Some? ==> AllocSpec(l'.state).1.value !in l'.out)
    decreases |ops|
  {
    if ops != [] {
      StepExclusive(l, ops[0]);
      RunExclusive(LedgerStep(l, ops[0]), ops[1..]);
    } else {
      forall i
        ensures l.out[i] <= 1
      {
        assert i !in l.out ==> l.out[i] == 0;
      }
    }
  }

  /** The condition on block allocations is needed: when every occupied frame is outstanding, a
      successful call that is not clean hands out a frame for the second time. */
  lemma UncleanHandsOutTwice(l: Ledger, count: nat)
    requires Exclusive(l) && 0 < count && !Clean(l.state, count)
    requires forall i :: 0 <= i < |l.state.used| && l.state.used[i] ==> i in l.out
    requires AllocsSpec(l.state, count).1.Some?
    ensures var s := AllocsSpec(l.state, count).1.value; (l.out + Block(s, count))[s] == 2
  {
    FindRunLaw(l.state.used, l.state.latest, l.state.latest, l.state.latest, 0, count);
    BlockCounts(AllocsSpec(l.state, count).1.value, count);
  }

  /** A frame freed just before a higher one is out of reach once the frames above are taken:
      allocation then fails although that frame is free. */
  lemma FreedFrameOutOfReach(f: FrameState, i: nat, j: nat)
    requires i < j < |f.used| && f.used[i] && f.used[j]
    requires forall k :: j < k < |f.used| ==> f.used[k]
    ensures var (f', r) := AllocSpec(FreeSpec(FreeSpec(f, i), j));
            && r == Some(j)
            && !f'.used[i] && AllocSpec(f').1 == None
  {
    var g := FreeSpec(FreeSpec(f, i), j);
    assert NextFree(g.used, g.latest) == j;
    var (g', r) := AllocSpec(g);
    assert NextFree(g'.used, j + 1) == |f.used|;
  }

  // ----- The allocator object -----

  class FrameAllocator {
    const frames: array<bool>
    var latest: nat
    const base: nat

    ghost predicate Valid()
      reads this, frames
    {
      latest <= frames.Length <= 0x10_0000 && 0 < base
    }

    ghost function State(): FrameState
      reads this, frames
    {
      FrameState(frames[..], latest)
    }

    constructor (bitmap: array<bool>, baseAddr: nat)
      requires bitmap.Length <= 0x10_0000 && 0 < baseAddr
      ensures Valid() && frames == bitmap && base == baseAddr && latest == 0
    {
      frames, base, latest := bitmap, baseAddr, 0;
    }

    /** Returns 0, the null pointer, when no frame at or above the cursor is free. */
    method Alloc() returns (frame: nat)
      requires Valid()
      modifies this`latest, frames
      ensures Valid()
      ensures State() == old(AllocSpec(State())).0
      ensures frame == match old(AllocSpec(State())).1
                       case None => 0
                       case Some(i) => base + i * FRAME_SIZE
    {
      ghost var f := State();
      while latest < frames.Length && frames[latest]
        invariant Valid() && frames[..] == f.used
        invariant NextFree(f.used, latest) == NextFree(f.used, f.latest)
        decreases frames.Length - latest
      {
        latest := latest + 1;
      }
      if latest == frames.Length {
        return 0;
      }
      frames[latest] := true;
      frame := base + latest * FRAME_SIZE % WORD32;
      latest := latest + 1;
    }

    /** Returns 0 when no run is found. A call for no frames at all moves the cursor too, and when it
        is at the end already past the end, where `Alloc` no longer stops. */
    method Allocs(count: nat) returns (frame: nat)
      requires Valid()
      modifies this`latest, frames
      ensures Valid() <==> 0 < count || old(latest) < frames.Length
      ensures State() == old(AllocsSpec(State(), count)).0
      ensures frame == match old(AllocsSpec(State(), count)).1
                       case None => 0
                       case Some(s) => AddressOf(base, s)
    {
      ghost var f := State();
      var start, got := latest, 0;
      var i := start;
      ghost var found := FindRun(f.used, i, start, got, count);
      while i < frames.Length
        invariant latest <= start <= i <= frames.Length && frames[..] == f.used && latest == f.latest
        invariant latest < frames.Length ==> start < frames.Length
        invariant got == i - start && (0 < count ==> got < count)
        invariant FindRun(f.used, i, start, got, count) == found
      {
        if frames[i] {
          start, got := i, 1;
        } else {
          got := got + 1;
        }
        if got == count {
          break;
        }
        i := i + 1;
      }
      if got < count {
        return 0;
      }
      assert found == Some(start);
      var j := start;
      while j < start + count
        invariant start <= j <= start + count && start + count <= frames.Length
        invariant latest == f.latest
        invariant forall k :: 0 <= k < frames.Length ==> frames[k] == (f.used[k] || start <= k < j)
      {
        frames[j] := true;
        j := j + 1;
      }
      latest := latest + 1;
      frame := base + start * FRAME_SIZE % WORD32;
    }

    /** The pointer must be one of this allocator's frames. */
    method Free(frame: nat)
      requires Valid() && base <= frame < base + frames.Length * FRAME_SIZE
      modifies this`latest, frames
      ensures Valid()
      ensures State() == old(FreeSpec(State(), (frame - base) / FRAME_SIZE))
    {
      var i := (frame - base) % WORD32 / FRAME_SIZE;
      frames[i] := false;
      latest := i;
    }
  }
}
