/** Runs of `kmalloc` and of `kfree` on live blocks: tiling, disjointness and accounting hold in
    every state such a run can reach. */
module HeapRuns {
  import opened Bits
  import opened Options
  import opened HeapModel

  /** A request with what the frame allocator would grant, or the release of a block. */
  datatype HeapOp = MallocOp(size: nat, grants: seq<nat>) | FreeOp(address: nat)

  /** The heap together with the blocks handed out and not yet freed: payload address to size. */
  datatype Session = Session(heap: seq<Page>, live: map<nat, nat>)

  ghost predicate Holds(h: seq<Page>, s: Segment) {
    exists i, j :: 0 <= i < |h| && 0 <= j < |h[i].segments| && h[i].segments[j] == s
  }

  /** A live block is a segment in use, at the address and with the size it was handed out with. */
  ghost predicate LiveBlock(h: seq<Page>, address: nat, size: nat) {
    HEADER <= address && Holds(h, Segment(address - HEADER, size, false))
  }

  ghost predicate SessionOk(x: Session) {
    && HeapOk(x.heap)
    && (forall i :: 0 <= i < |x.heap| ==> Accounted(x.heap[i]))
    && forall a :: a in x.live ==> LiveBlock(x.heap, a, x.live[a])
  }

  /** The caller frees live blocks only, and the frame allocator grants regions of its own. */
  predicate LegalOp(x: Session, op: HeapOp) {
    match op
    case MallocOp(size, grants) => size < WORD64 && GrantApart(x.heap, size, grants)
    case FreeOp(address) => address in x.live
  }

  /** The payload size of the segment that a call took. */
  function TakenSize(h: seq<Page>, size: nat, grants: seq<nat>): nat {
    var i := FirstPage(h, size, 0);
    var s := if i < |h| then h[i].segments[FirstFit(h[i].segments, size, 0)]
             else if grants != [] then NewPage(grants[0], size).segments[0]
             else Segment(0, size, true);
    if Splits(s, size) then size else s.size
  }

  /** One call; `None` when it halts. */
  function SessionStep(x: Session, op: HeapOp): Option<Session> {
    match op
    case MallocOp(size, grants) =>
      (match Kmalloc(x.heap, size, grants)
       case None => None
       case Some(b) => Some(Session(b.heap, x.live[b.address := TakenSize(x.heap, size, grants)])))
    case FreeOp(address) =>
      if x.heap == [] then None
      else Some(Session(Kfree(x.heap, address).1, x.live - {address}))
  }

  // ----- Segments that stay -----

  lemma AllocKeepsUsed(p: Page, j: nat, size: nat, s: Segment)
    requires j < |p.segments| && Fits(p.segments[j], size) && s in p.segments && !s.free
    ensures s in AllocSegment(p, j, size).segments
  {
    var k :| 0 <= k < |p.segments| && p.segments[k] == s;
    var q := AllocSegment(p, j, size);
    if k < j {
      assert q.segments[k] == s;
    } else {
      assert k > j;
      if Splits(p.segments[j], size) {
        assert q.segments[k + 1] == s;
      } else {
        assert q.segments[k] == s;
      }
    }
  }

  lemma FreeKeepsUsed(p: Page, j: nat, k: nat)
    requires j < |p.segments| && k < |p.segments| && k != j && !p.segments[k].free
    ensures p.segments[k] in FreeSegment(p, j).segments
  {
    var q := FreeSegment(p, j);
    if k < j {
      assert q.segments[k] == p.segments[k];
    } else if j + 1 < |p.segments| && p.segments[j + 1].free {
      assert q.segments[k - 1] == p.segments[k];
    } else {
      assert q.segments[k] == p.segments[k];
    }
  }

  /** Changing one page keeps a segment that the page keeps. */
  lemma HoldsAfterUpdate(h: seq<Page>, i: nat, p: Page, s: Segment)
    requires i < |h| && Holds(h, s) && (s in h[i].segments ==> s in p.segments)
    ensures Holds(h[i := p], s)
  {
    var k, j :| 0 <= k < |h| && 0 <= j < |h[k].segments| && h[k].segments[j] == s;
    var h' := h[i := p];
    if k == i {
      assert s in p.segments;
      var j' :| 0 <= j' < |p.segments| && p.segments[j'] == s;
      assert h'[i].segments[j'] == s;
    } else {
      assert h'[k].segments[j] == s;
    }
  }

  // ----- Steps -----

  lemma MallocInPage(x: Session, size: nat, grants: seq<nat>)
    requires SessionOk(x) && size < WORD32 && FirstPage(x.heap, size, 0) < |x.heap|
    ensures var b := Kmalloc(x.heap, size, grants).value;
            && LiveBlock(b.heap, b.address, TakenSize(x.heap, size, grants))
            && (forall i :: 0 <= i < |b.heap| ==> Accounted(b.heap[i]))
            && forall a :: a in x.live ==> LiveBlock(b.heap, a, x.live[a])
  {
    KmallocLaw(x.heap, size, grants);
    var i := FirstPage(x.heap, size, 0);
    var p := x.heap[i];
    var j := FirstFit(p.segments, size, 0);
    var q := AllocSegment(p, j, size);
    AllocKeepsAccount(p, j, size);
    var b := Kmalloc(x.heap, size, grants).value;
    assert b.heap[i].segments[j] == Segment(p.segments[j].at, TakenSize(x.heap, size, grants), false);
    forall a | a in x.live
      ensures LiveBlock(b.heap, a, x.live[a])
    {
      var s := Segment(a - HEADER, x.live[a], false);
      if s in p.segments {
        AllocKeepsUsed(p, j, size, s);
      }
      HoldsAfterUpdate(x.heap, i, q, s);
    }
  }

  lemma MallocNewPage(x: Session, size: nat, grants: seq<nat>)
    requires SessionOk(x) && size < WORD32 && FirstPage(x.heap, size, 0) == |x.heap| && grants != []
    ensures Kmalloc(x.heap, size, grants).Some?
    ensures var b := Kmalloc(x.heap, size, grants).value;
            && LiveBlock(b.heap, b.address, TakenSize(x.heap, size, grants))
            && (forall i :: 0 <= i < |b.heap| ==> Accounted(b.heap[i]))
            && forall a :: a in x.live ==> LiveBlock(b.heap, a, x.live[a])
  {
    KmallocLaw(x.heap, size, grants);
    var p := NewPage(grants[0], size);
    NewPageFits(grants[0], size);
    BytesOfOne(p.segments[0]);
    AllocKeepsAccount(p, 0, size);
    var b := Kmalloc(x.heap, size, grants).value;
    var n := |x.heap|;
    assert b.heap[n].segments[0] == Segment(grants[0] + HEADER, TakenSize(x.heap, size, grants), false);
    forall a | a in x.live
      ensures LiveBlock(b.heap, a, x.live[a])
    {
      var s := Segment(a - HEADER, x.live[a], false);
      var i, j :| 0 <= i < n && 0 <= j < |x.heap[i].segments| && x.heap[i].segments[j] == s;
      assert b.heap[i].segments[j] == s;
    }
  }

  lemma FreeKeepsLive(h: seq<Page>, j: nat, address: nat, a: nat, size: nat)
    requires h != [] && j < |h[0].segments| && h[0].segments[j].at + HEADER == address
    requires LiveBlock(h, a, size) && a != address
    ensures LiveBlock(h[0 := FreeSegment(h[0], j)], a, size)
  {
    var p, s := h[0], Segment(a - HEADER, size, false);
    if s in p.segments {
      var k :| 0 <= k < |p.segments| && p.segments[k] == s;
      FreeKeepsUsed(p, j, k);
    }
    HoldsAfterUpdate(h, 0, FreeSegment(p, j), s);
  }

  lemma FreeLive(x: Session, address: nat)
    requires SessionOk(x) && address in x.live && x.heap != []
    ensures SessionOk(SessionStep(x, FreeOp(address)).value)
  {
    KfreeKeepsHeap(x.heap, address);
    var p := x.heap[0];
    var j := FindAddress(p.segments, address, 0);
    var y := SessionStep(x, FreeOp(address)).value;
    if j < |p.segments| {
      LiveIsUsed(x.heap, address, x.live[address], j);
      FreeKeepsAccount(p, j);
      assert y.heap == x.heap[0 := FreeSegment(p, j)];
      forall a | a in y.live
        ensures LiveBlock(y.heap, a, y.live[a])
      {
        FreeKeepsLive(x.heap, j, address, a, x.live[a]);
      }
    }
  }

  /** The segment of the first page that starts at a live address is that block's, so in use. */
  lemma LiveIsUsed(h: seq<Page>, address: nat, size: nat, j: nat)
    requires HeapOk(h) && h != [] && LiveBlock(h, address, size)
    requires j < |h[0].segments| && h[0].segments[j].at + HEADER == address
    ensures h[0].segments[j] == Segment(address - HEADER, size, false)
  {
    var s := Segment(address - HEADER, size, false);
    var i, k :| 0 <= i < |h| && 0 <= k < |h[i].segments| && h[i].segments[k] == s;
    SegmentInPage(h[0], j);
    SegmentInPage(h[i], k);
    if i == 0 {
      FindSegment(h[0], j);
      FindSegment(h[0], k);
    }
  }

  lemma StepKeepsSession(x: Session, op: HeapOp)
    requires SessionOk(x) && LegalOp(x, op)
    ensures SessionStep(x, op).Some? ==> SessionOk(SessionStep(x, op).value)
  {
    match op
    case FreeOp(address) =>
      if x.heap != [] {
        FreeLive(x, address);
      }
    case MallocOp(size, grants) =>
      if Kmalloc(x.heap, size, grants).Some? {
        MallocKeepsSession(x, size, grants);
      }
  }

  lemma MallocKeepsSession(x: Session, size: nat, grants: seq<nat>)
    requires SessionOk(x) && LegalOp(x, MallocOp(size, grants)) && Kmalloc(x.heap, size, grants).Some?
    ensures SessionOk(SessionStep(x, MallocOp(size, grants)).value)
  {
    KmallocLaw(x.heap, size, grants);
    KmallocKeepsHeap(x.heap, size, grants);
    if FirstPage(x.heap, size, 0) < |x.heap| {
      MallocInPage(x, size, grants);
    } else {
      MallocNewPage(x, size, grants);
    }
  }

  // ----- A block is never handed out while it is live -----

  /** The segment that a call takes is free, and a live block's segment is in use. */
  lemma FreeIsNotLive(h: seq<Page>, k: nat, l: nat, a: nat, size: nat)
    requires HeapOk(h) && k < |h| && l < |h[k].segments| && h[k].segments[l].free && LiveBlock(h, a, size)
    ensures h[k].segments[l].at + HEADER != a
  {
    var i, j :| 0 <= i < |h| && 0 <= j < |h[i].segments| && h[i].segments[j] == Segment(a - HEADER, size, false);
    SegmentsApart(h, k, l, i, j);
  }

  /** A live block lies inside one of the pages, and a new page is apart from them all. */
  lemma GrantIsNotLive(h: seq<Page>, p: Page, a: nat, size: nat)
    requires HeapOk(h) && Tiled(p) && (forall i :: 0 <= i < |h| ==> Apart(h[i], p)) && LiveBlock(h, a, size)
    ensures p.at + 2 * HEADER != a
  {
    var i, j :| 0 <= i < |h| && 0 <= j < |h[i].segments| && h[i].segments[j] == Segment(a - HEADER, size, false);
    SegmentInPage(h[i], j);
    SegmentInPage(p, 0);
  }

  lemma MallocIsFresh(x: Session, size: nat, grants: seq<nat>)
    requires SessionOk(x) && LegalOp(x, MallocOp(size, grants)) && Kmalloc(x.heap, size, grants).Some?
    ensures Kmalloc(x.heap, size, grants).value.address !in x.live
  {
    KmallocLaw(x.heap, size, grants);
    var h, i := x.heap, FirstPage(x.heap, size, 0);
    if i == |h| {
      NewPageFits(grants[0], size);
    }
    forall a | a in x.live
      ensures Kmalloc(h, size, grants).value.address != a
    {
      if i < |h| {
        FreeIsNotLive(h, i, FirstFit(h[i].segments, size, 0), a, x.live[a]);
      } else {
        GrantIsNotLive(h, NewPage(grants[0], size), a, x.live[a]);
      }
    }
  }

  lemma StepKeepsBlock(x: Session, op: HeapOp, a: nat)
    requires SessionOk(x) && LegalOp(x, op) && SessionStep(x, op).Some? && a in x.live && op != FreeOp(a)
    ensures var y := SessionStep(x, op).value;
            a in y.live && y.live[a] == x.live[a]
  {
    if op.MallocOp? {
      MallocIsFresh(x, op.size, op.grants);
    }
  }

  // ----- Runs -----

  /** The session after a run, when every operation in it was legal and returned. */
  function RunSession(x: Session, ops: seq<HeapOp>): Option<Session>
    decreases |ops|
  {
    if ops == [] then Some(x)
    else if !LegalOp(x, ops[0]) then None
    else match SessionStep(x, ops[0])
         case None => None
         case Some(y) => RunSession(y, ops[1..])
  }

  lemma {:induction false} RunKeepsSession(x: Session, ops: seq<HeapOp>)
    requires SessionOk(x)
    ensures RunSession(x, ops).Some? ==> SessionOk(RunSession(x, ops).value)
    decreases |ops|
  {
    if ops != [] && LegalOp(x, ops[0]) && SessionStep(x, ops[0]).Some? {
      StepKeepsSession(x, ops[0]);
      RunKeepsSession(SessionStep(x, ops[0]).value, ops[1..]);
    }
  }

  /** Two different blocks, headers included, do not meet, and each lies in granted frames. */
  lemma LiveBlocksDisjoint(h: seq<Page>, a: nat, sizeA: nat, b: nat, sizeB: nat)
    requires HeapOk(h) && LiveBlock(h, a, sizeA) && LiveBlock(h, b, sizeB) && a != b
    ensures a + sizeA <= b - HEADER || b + sizeB <= a - HEADER
  {
    var i, j :| 0 <= i < |h| && 0 <= j < |h[i].segments| && h[i].segments[j] == Segment(a - HEADER, sizeA, false);
    var k, l :| 0 <= k < |h| && 0 <= l < |h[k].segments| && h[k].segments[l] == Segment(b - HEADER, sizeB, false);
    SegmentsApart(h, i, j, k, l);
  }

  lemma SegmentsApart(h: seq<Page>, i: nat, j: nat, k: nat, l: nat)
    requires HeapOk(h) && i < |h| && k < |h| && j < |h[i].segments| && l < |h[k].segments| && (i != k || j != l)
    ensures End(h[i].segments[j]) <= h[k].segments[l].at || End(h[k].segments[l]) <= h[i].segments[j].at
  {
    if i != k {
      SegmentInPage(h[i], j);
      SegmentInPage(h[k], l);
      assert Apart(h[if i < k then i else k], h[if i < k then k else i]);
    } else if j < l {
      SegmentsInOrder(h[i].segments, j, l);
    } else {
      SegmentsInOrder(h[i].segments, l, j);
    }
  }

  /** A state that a run from the empty heap can reach. */
  ghost predicate RunReaches(ops: seq<HeapOp>, x: Session) {
    RunSession(Session([], map[]), ops) == Some(x)
  }

  /** The block lies inside the frames granted for one page, behind both headers. */
  ghost predicate InGrant(h: seq<Page>, address: nat, size: nat) {
    exists i :: 0 <= i < |h| && h[i].at + 2 * HEADER <= address && address + size <= h[i].at + h[i].frames * FRAME
  }

  /** Heap safety: pages are tiled and apart, live blocks are segments in use with the size they were
      handed out with, pairwise disjoint, and inside granted frames; and no further request is
      answered with the address of a live block. */
  ghost predicate Safe(x: Session) {
    && HeapOk(x.heap)
    && (forall a :: a in x.live ==> LiveBlock(x.heap, a, x.live[a]))
    && (forall a :: a in x.live ==> InGrant(x.heap, a, x.live[a]))
    && (forall a, b :: a in x.live && b in x.live && a != b ==>
          a + x.live[a] <= b - HEADER || b + x.live[b] <= a - HEADER)
    && forall size, grants :: LegalOp(x, MallocOp(size, grants)) && Kmalloc(x.heap, size, grants).Some? ==>
         Kmalloc(x.heap, size, grants).value.address !in x.live
  }

  lemma SessionIsSafe(x: Session)
    requires SessionOk(x)
    ensures Safe(x)
  {
    forall size, grants | LegalOp(x, MallocOp(size, grants)) && Kmalloc(x.heap, size, grants).Some?
      ensures Kmalloc(x.heap, size, grants).value.address !in x.live
    {
      MallocIsFresh(x, size, grants);
    }
    forall a, b | a in x.live && b in x.live && a != b
      ensures a + x.live[a] <= b - HEADER || b + x.live[b] <= a - HEADER
    {
      LiveBlocksDisjoint(x.heap, a, x.live[a], b, x.live[b]);
    }
    forall a | a in x.live
      ensures InGrant(x.heap, a, x.live[a])
    {
      LiveInGrant(x.heap, a, x.live[a]);
    }
  }

  lemma LiveInGrant(h: seq<Page>, a: nat, size: nat)
    requires HeapOk(h) && LiveBlock(h, a, size)
    ensures InGrant(h, a, size)
  {
    var i, j :| 0 <= i < |h| && 0 <= j < |h[i].segments| && h[i].segments[j] == Segment(a - HEADER, size, false);
    SegmentInPage(h[i], j);
  }

  /** It holds after every run that frees live blocks only and is granted regions of its own. */
  lemma RunIsSafe(ops: seq<HeapOp>, x: Session)
    requires RunReaches(ops, x)
    ensures Safe(x)
  {
    RunKeepsSession(Session([], map[]), ops);
    SessionIsSafe(x);
  }

  /** A run that never frees a live block leaves it live, at its address and with its size. */
  lemma {:induction false} RunKeepsBlocks(x: Session, ops: seq<HeapOp>, a: nat)
    requires SessionOk(x) && RunSession(x, ops).Some? && a in x.live && FreeOp(a) !in ops
    ensures var y := RunSession(x, ops).value;
            a in y.live && y.live[a] == x.live[a] && LiveBlock(y.heap, a, x.live[a])
    decreases |ops|
  {
    if ops != [] {
      var op, y := ops[0], SessionStep(x, ops[0]).value;
      StepKeepsSession(x, op);
      StepKeepsBlock(x, op, a);
      RunKeepsBlocks(y, ops[1..], a);
    }
  }

  /** Exact accounting over every run: the stored count is the free payload plus a header for each
      split ever made, modulo 2^32. */
  lemma RunIsAccounted(ops: seq<HeapOp>, x: Session, i: nat)
    requires RunReaches(ops, x) && i < |x.heap|
    ensures x.heap[i].freeSize == (FreeBytes(x.heap[i].segments) + HEADER * x.heap[i].splits) % WORD32
  {
    RunKeepsSession(Session([], map[]), ops);
  }

  lemma SameExtentSameBytes(p: Page, q: Page)
    requires Tiled(p) && Tiled(q) && SameExtent(p, q)
    ensures AllBytes(q.segments) == AllBytes(p.segments)
  {
    TilesCoverPage(p.segments);
    TilesCoverPage(q.segments);
  }

  /** Conservation: whatever a run does to a page, its payloads and segment headers add up to the
      same total as before. */
  lemma {:induction false} RunConservesBytes(x: Session, ops: seq<HeapOp>, i: nat)
    requires SessionOk(x) && i < |x.heap| && RunSession(x, ops).Some?
    ensures var y := RunSession(x, ops).value;
            && i < |y.heap| && y.heap[i].at == x.heap[i].at
            && AllBytes(y.heap[i].segments) == AllBytes(x.heap[i].segments)
    decreases |ops|
  {
    if ops != [] {
      var y := SessionStep(x, ops[0]).value;
      StepKeepsSession(x, ops[0]);
      match ops[0] {
        case MallocOp(size, grants) => KmallocKeepsHeap(x.heap, size, grants);
        case FreeOp(address) => KfreeKeepsHeap(x.heap, address);
      }
      SameExtentSameBytes(x.heap[i], y.heap[i]);
      RunConservesBytes(y, ops[1..], i);
    }
  }

  /** A request is served with at least its size, and at most a header's worth more. */
  lemma MallocServes(x: Session, size: nat, grants: seq<nat>)
    requires SessionOk(x) && size < WORD64 && Kmalloc(x.heap, size, grants).Some?
    ensures var taken := TakenSize(x.heap, size, grants);
            size <= taken <= size + HEADER
  {
    KmallocLaw(x.heap, size, grants);
    var i := FirstPage(x.heap, size, 0);
    if i < |x.heap| {
      AllocSegmentShape(x.heap[i], FirstFit(x.heap[i].segments, size, 0), size);
    } else {
      NewPageFits(grants[0], size);
      AllocSegmentShape(NewPage(grants[0], size), 0, size);
    }
  }
}
