/** The heap with the frame allocator as its supplier, over whole runs: exactly when its pages stay
    apart, and that it is safe then. */
module HeapGrants {
  import opened Bits
  import opened Options
  import opened HeapModel
  import opened HeapRuns
  import F = Frames

  // ----- Blocks taken one after the other -----

  datatype Granted = Granted(frames: F.FrameState, starts: seq<nat>)

  /** Calls of `allocs` in a row: where each block starts; `None` when one of them fails. */
  function Grants(f: F.FrameState, counts: seq<nat>): (r: Option<Granted>)
    ensures r.Some? ==> |r.value.starts| == |counts|
  {
    if counts == [] then Some(Granted(f, []))
    else
      match Grants(f, counts[..|counts| - 1])
      case None => None
      case Some(g) =>
        match F.AllocsSpec(g.frames, counts[|counts| - 1])
        case (_, None) => None
        case (f', Some(s)) => Some(Granted(f', g.starts + [s]))
  }

  predicate Positive(counts: seq<nat>) {
    forall i :: 0 <= i < |counts| ==> 0 < counts[i]
  }

  predicate OnesButLast(counts: seq<nat>) {
    forall i :: 0 <= i < |counts| - 1 ==> counts[i] == 1
  }

  predicate Disjoint(s: nat, c: nat, s': nat, c': nat) {
    s + c <= s' || s' + c' <= s
  }

  predicate BlocksApart(counts: seq<nat>, starts: seq<nat>)
    requires |starts| == |counts|
  {
    forall i, k :: 0 <= i < k < |counts| ==> Disjoint(starts[i], counts[i], starts[k], counts[k])
  }

  lemma {:induction false} GrantsPrefix(f: F.FrameState, counts: seq<nat>, n: nat)
    requires n <= |counts| && Grants(f, counts).Some?
    ensures Grants(f, counts[..n]).Some? && Grants(f, counts[..n]).value.starts == Grants(f, counts).value.starts[..n]
    decreases |counts|
  {
    if n == |counts| {
      assert counts[..n] == counts;
    } else {
      var front := counts[..|counts| - 1];
      GrantsPrefix(f, front, n);
      assert front[..n] == counts[..n];
      var starts := Grants(f, front).value.starts;
      assert (starts + [Grants(f, counts).value.starts[|starts|]])[..n] == starts[..n];
    }
  }

  /** A block of any size, when the frames from the cursor on are free. */
  lemma NextIsClean(f: F.FrameState, c: nat)
    requires F.InRange(f) && 0 < c && F.AllFree(f.used, f.latest, |f.used|) && F.AllocsSpec(f, c).1.Some?
    ensures f.latest + c <= |f.used|
    ensures F.AllocsSpec(f, c) == (F.FrameState(F.Marked(f.used, f.latest, f.latest + c), f.latest + 1), Some(f.latest))
  {
    F.AllocsLaw(f, c);
  }

  /** When the cursor stands on a taken frame, the block starts on a taken frame. */
  lemma NextIsTaken(f: F.FrameState, c: nat, end: nat)
    requires F.InRange(f) && 0 < c && F.AllocsSpec(f, c).1.Some?
    requires f.latest < end <= |f.used| && f.used[f.latest] && F.AllFree(f.used, end, |f.used|)
    ensures f.latest <= F.AllocsSpec(f, c).1.value < end
  {
    F.AllocsLaw(f, c);
  }

  /** While all blocks but the last are of one frame, each starts right behind the one before. */
  lemma {:induction false} OnesInARow(f: F.FrameState, counts: seq<nat>, n: nat)
    requires F.InRange(f) && F.AllFree(f.used, f.latest, |f.used|)
    requires n + 1 == |counts| && Positive(counts) && OnesButLast(counts) && Grants(f, counts).Some?
    ensures var g := Grants(f, counts).value; var end := f.latest + n + counts[n];
            && end <= |f.used|
            && g.frames == F.FrameState(F.Marked(f.used, f.latest, end), f.latest + n + 1)
            && forall i :: 0 <= i <= n ==> g.starts[i] == f.latest + i
    decreases n
  {
    var front := counts[..n];
    if n == 0 {
      assert Grants(f, front) == Some(Granted(f, []));
      NextIsClean(f, counts[0]);
    } else {
      OnesInARow(f, front, n - 1);
      var g := Grants(f, front).value;
      NextIsClean(g.frames, counts[n]);
      MarkedOn(f.used, f.latest, f.latest + n, f.latest + n + counts[n]);
    }
  }

  lemma MarkedOn(used: seq<bool>, a: nat, b: nat, c: nat)
    requires a <= b <= c
    ensures F.Marked(F.Marked(used, a, b), b, c) == F.Marked(used, a, c)
  {
  }

  /** A block of several frames is met by the next one. */
  lemma BlockIsMet(f: F.FrameState, counts: seq<nat>, j: nat)
    requires F.InRange(f) && F.AllFree(f.used, f.latest, |f.used|)
    requires Positive(counts) && Grants(f, counts).Some? && j + 1 < |counts|
    requires 1 < counts[j] && forall i :: 0 <= i < j ==> counts[i] == 1
    ensures var starts := Grants(f, counts).value.starts;
            !Disjoint(starts[j], counts[j], starts[j + 1], counts[j + 1])
  {
    var before := counts[..j + 1];
    GrantsPrefix(f, counts, j + 1);
    GrantsPrefix(f, counts, j + 2);
    assert counts[..j + 2][..j + 1] == before;
    OnesInARow(f, before, j);
    var g := Grants(f, before).value;
    NextIsTaken(g.frames, counts[j + 1], f.latest + j + counts[j]);
    var starts := Grants(f, counts).value.starts;
    assert starts[..j + 1][j] == starts[j] && starts[..j + 2][j + 1] == starts[j + 1];
  }

  /** From frames that are all free behind the cursor: the blocks are pairwise disjoint if and only if
      all but the last are of one frame. */
  lemma BlocksApartExactly(f: F.FrameState, counts: seq<nat>)
    requires F.InRange(f) && F.AllFree(f.used, f.latest, |f.used|) && Positive(counts) && Grants(f, counts).Some?
    ensures BlocksApart(counts, Grants(f, counts).value.starts) <==> OnesButLast(counts)
  {
    if OnesButLast(counts) {
      if counts != [] {
        OnesInARow(f, counts, |counts| - 1);
      }
    } else {
      var j := FirstLarge(counts, 0);
      BlockIsMet(f, counts, j);
    }
  }

  lemma {:induction false} FirstLarge(counts: seq<nat>, from: nat) returns (j: nat)
    requires Positive(counts) && !OnesButLast(counts)
    requires from <= |counts| && forall i :: 0 <= i < from ==> counts[i] == 1
    ensures j + 1 < |counts| && 1 < counts[j] && forall i :: 0 <= i < j ==> counts[i] == 1
    decreases |counts| - from
  {
    if from < |counts| - 1 && counts[from] == 1 {
      j := FirstLarge(counts, from + 1);
    } else {
      j := from;
    }
  }

  // ----- The heap and its supplier -----

  datatype Request = Malloc(size: nat) | Free(address: nat)

  /** The heap, its live blocks, and the frame allocator, which has no other client. */
  datatype Supplied = Supplied(session: Session, frames: F.FrameState)

  function PageFrames(size: nat): nat {
    NewPage(0, size).frames
  }

  /** What the frame allocator answers: it is asked only when nothing fits. */
  function Supply(base: nat, f: F.FrameState, h: seq<Page>, size: nat): (F.FrameState, seq<nat>) {
    if FirstPage(h, size, 0) < |h| then (f, [])
    else
      match F.AllocsSpec(f, PageFrames(size))
      case (_, None) => (f, [])
      case (f', Some(s)) => (f', [base + s * FRAME])
  }

  /** `None` when the call does not return, or frees what is not live. */
  function SuppliedStep(base: nat, x: Supplied, r: Request): Option<Supplied> {
    match r
    case Malloc(size) =>
      if size >= WORD32 then None
      else
        var (f, grants) := Supply(base, x.frames, x.session.heap, size);
        (match SessionStep(x.session, MallocOp(size, grants))
         case None => None
         case Some(y) => Some(Supplied(y, f)))
    case Free(address) =>
      if address !in x.session.live then None
      else
        (match SessionStep(x.session, FreeOp(address))
         case None => None
         case Some(y) => Some(Supplied(y, x.frames)))
  }

  function SuppliedRun(base: nat, x: Supplied, rs: seq<Request>): Option<Supplied> {
    if rs == [] then Some(x)
    else
      match SuppliedRun(base, x, rs[..|rs| - 1])
      case None => None
      case Some(y) => SuppliedStep(base, y, rs[|rs| - 1])
  }

  /** The pages lie on the blocks that were taken. */
  ghost predicate PagesOn(base: nat, h: seq<Page>, counts: seq<nat>, starts: seq<nat>) {
    && |h| == |counts| == |starts|
    && forall i :: 0 <= i < |h| ==> h[i].frames == counts[i] && h[i].at == base + starts[i] * FRAME
  }

  lemma MallocPages(h: seq<Page>, size: nat, grants: seq<nat>)
    requires size < WORD32 && Kmalloc(h, size, grants).Some?
    ensures var h' := Kmalloc(h, size, grants).value.heap;
            && (forall i :: 0 <= i < |h| ==> i < |h'| && h'[i].at == h[i].at && h'[i].frames == h[i].frames)
            && (FirstPage(h, size, 0) < |h| ==> |h'| == |h|)
            && (FirstPage(h, size, 0) == |h| ==>
                  && grants != [] && |h'| == |h| + 1 && h'[|h|].at == grants[0]
                  && h'[|h|].frames == PageFrames(size))
  {
    if FirstPage(h, size, 0) == |h| {
      KmallocGrows(h, size, grants);
    }
  }

  /** A page has one frame exactly when the request leaves room for both headers in it. */
  lemma OneFramePage(size: nat)
    requires size < WORD32
    ensures 0 < PageFrames(size) && (PageFrames(size) == 1 <==> size <= 4032)
  {
    var bytes := 2 * HEADER + size;
    assert bytes > FRAME ==> 2 <= (bytes + (FRAME - 1)) / FRAME < WORD32;
  }

  /** A step keeps the pages where they are, and takes one more block when it makes one. */
  lemma StepPages(base: nat, f: F.FrameState, x: Supplied, r: Request, y: Supplied,
                  counts: seq<nat>) returns (counts': seq<nat>)
    requires SuppliedStep(base, x, r) == Some(y) && Positive(counts)
    requires Grants(f, counts).Some? && Grants(f, counts).value.frames == x.frames
    requires PagesOn(base, x.session.heap, counts, Grants(f, counts).value.starts)
    ensures Positive(counts') && counts <= counts'
    ensures Grants(f, counts').Some? && Grants(f, counts').value.frames == y.frames
    ensures PagesOn(base, y.session.heap, counts', Grants(f, counts').value.starts)
  {
    counts' := counts;
    var h := x.session.heap;
    if r.Malloc? {
      var (f', grants) := Supply(base, x.frames, h, r.size);
      MallocPages(h, r.size, grants);
      if FirstPage(h, r.size, 0) == |h| {
        OneFramePage(r.size);
        counts' := counts + [PageFrames(r.size)];
        assert counts'[..|counts|] == counts;
      }
    }
  }

  lemma {:induction false} RunPages(base: nat, f: F.FrameState, rs: seq<Request>, x: Supplied) returns (counts: seq<nat>)
    requires SuppliedRun(base, Supplied(Session([], map[]), f), rs) == Some(x)
    ensures Positive(counts) && Grants(f, counts).Some? && Grants(f, counts).value.frames == x.frames
    ensures PagesOn(base, x.session.heap, counts, Grants(f, counts).value.starts)
    decreases |rs|
  {
    counts := [];
    if rs != [] {
      var y := SuppliedRun(base, Supplied(Session([], map[]), f), rs[..|rs| - 1]).value;
      counts := RunPages(base, f, rs[..|rs| - 1], y);
      counts := StepPages(base, f, y, rs[|rs| - 1], x, counts);
    }
  }

  ghost predicate PagesApart(h: seq<Page>) {
    forall i, k :: 0 <= i < k < |h| ==> Apart(h[i], h[k])
  }

  predicate SmallButLast(h: seq<Page>) {
    forall i :: 0 <= i < |h| - 1 ==> h[i].frames == 1
  }

  lemma ApartIsDisjoint(base: nat, p: Page, q: Page, s: nat, s': nat)
    requires p.at == base + s * FRAME && q.at == base + s' * FRAME && 0 < p.frames && 0 < q.frames
    ensures Apart(p, q) <==> Disjoint(s, p.frames, s', q.frames)
  {
  }

  /** Over every run of the heap on frames that were all free: its pages are pairwise apart if and only
      if every page but the last has one frame. */
  lemma PagesApartExactly(base: nat, f: F.FrameState, rs: seq<Request>, x: Supplied)
    requires F.InRange(f) && F.AllFree(f.used, f.latest, |f.used|)
    requires SuppliedRun(base, Supplied(Session([], map[]), f), rs) == Some(x)
    ensures PagesApart(x.session.heap) <==> SmallButLast(x.session.heap)
  {
    var counts := RunPages(base, f, rs, x);
    var h, starts := x.session.heap, Grants(f, counts).value.starts;
    BlocksApartExactly(f, counts);
    forall i, k | 0 <= i < k < |h|
      ensures Apart(h[i], h[k]) <==> Disjoint(starts[i], counts[i], starts[k], counts[k])
    {
      ApartIsDisjoint(base, h[i], h[k], starts[i], starts[k]);
    }
    assert PagesApart(h) <==> BlocksApart(counts, starts);
    assert SmallButLast(h) <==> OnesButLast(counts);
  }

  // ----- Safety without an assumption on the grants -----

  /** The pages before a step are there after it, with the same frames. */
  lemma StepKeepsPages(base: nat, x: Supplied, r: Request, y: Supplied)
    requires SuppliedStep(base, x, r) == Some(y)
    ensures var h, h' := x.session.heap, y.session.heap;
            |h| <= |h'| && forall i :: 0 <= i < |h| ==> h'[i].at == h[i].at && h'[i].frames == h[i].frames
  {
    if r.Malloc? {
      var (f, grants) := Supply(base, x.frames, x.session.heap, r.size);
      MallocPages(x.session.heap, r.size, grants);
    }
  }

  /** When the pages are apart after the step, the operation was legal. */
  lemma ApartIsLegal(base: nat, x: Supplied, r: Request, y: Supplied)
    requires SuppliedStep(base, x, r) == Some(y) && SessionOk(x.session) && PagesApart(y.session.heap)
    ensures SessionOk(y.session)
  {
    var h := x.session.heap;
    match r
    case Free(address) => StepKeepsSession(x.session, FreeOp(address));
    case Malloc(size) =>
      var (f, grants) := Supply(base, x.frames, h, size);
      var op := MallocOp(size, grants);
      MallocPages(h, size, grants);
      forall i | 0 <= i < |h| && grants != []
        ensures Apart(h[i], NewPage(grants[0], size))
      {
        assert Apart(y.session.heap[i], y.session.heap[|h|]);
      }
      StepKeepsSession(x.session, op);
  }

  /** The heap is safe after every run in which all pages but the last are of one frame, so made for
      requests of at most 4032 bytes. */
  lemma {:induction false} SuppliedRunIsSafe(base: nat, f: F.FrameState, rs: seq<Request>, x: Supplied)
    requires F.InRange(f) && F.AllFree(f.used, f.latest, |f.used|)
    requires SuppliedRun(base, Supplied(Session([], map[]), f), rs) == Some(x) && SmallButLast(x.session.heap)
    ensures SessionOk(x.session) && Safe(x.session)
    decreases |rs|
  {
    if rs != [] {
      var y := SuppliedRun(base, Supplied(Session([], map[]), f), rs[..|rs| - 1]).value;
      StepKeepsPages(base, y, rs[|rs| - 1], x);
      SuppliedRunIsSafe(base, f, rs[..|rs| - 1], y);
      PagesApartExactly(base, f, rs, x);
      ApartIsLegal(base, y, rs[|rs| - 1], x);
    }
    SessionIsSafe(x.session);
  }
}
