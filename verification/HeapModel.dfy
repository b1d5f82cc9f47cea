/** The kernel heap as a list of pages, each a list of segments: first-fit allocation with
    splitting, freeing with one forward merge, and growth by whole pages. */
module HeapModel {
  import opened Bits
  import opened Options
  import Frames

  /** Both headers, of a page and of a segment, take 32 bytes. */
  const HEADER: nat := 32
  const FRAME: nat := Frames.FRAME_SIZE

  /** A segment by the address of its header; the payload starts right behind the header. */
  datatype Segment = Segment(at: nat, size: nat, free: bool)

  /** `frames` is the number of frames granted for the page and `splits` counts the splits ever
      made on it; neither is stored by the source. */
  datatype Page = Page(at: nat, frames: nat, segments: seq<Segment>, freeSize: nat, splits: nat)

  function End(s: Segment): nat {
    s.at + HEADER + s.size
  }

  // ----- Operations -----

  function NewPage(at: nat, size: nat): Page {
    var one := (size + 2 * HEADER) % WORD64 <= FRAME;
    var bytes := if one then FRAME else (2 * HEADER + size) % WORD64;
    var frames := if one then 1 else (bytes + (FRAME - 1)) % WORD64 / FRAME % WORD32;
    var freeSize := ((bytes - HEADER) % WORD32 - HEADER) % WORD32;
    Page(at, frames, [Segment(at + HEADER, freeSize, true)], freeSize, 0)
  }

  predicate Fits(s: Segment, size: nat) {
    s.free && s.size >= size
  }

  /** The first segment at or after index j that fits, or the number of segments. */
  function FirstFit(segments: seq<Segment>, size: nat, j: nat): (r: nat)
    requires j <= |segments|
    ensures j <= r <= |segments|
    ensures forall k :: j <= k < r ==> !Fits(segments[k], size)
    ensures r < |segments| ==> Fits(segments[r], size)
    decreases |segments| - j
  {
    if j < |segments| && !Fits(segments[j], size) then FirstFit(segments, size, j + 1) else j
  }

  /** The first page at or after index i with a segment that fits, or the number of pages. */
  function FirstPage(h: seq<Page>, size: nat, i: nat): (r: nat)
    requires i <= |h|
    ensures i <= r <= |h|
    ensures forall k :: i <= k < r ==> FirstFit(h[k].segments, size, 0) == |h[k].segments|
    ensures r < |h| ==> FirstFit(h[r].segments, size, 0) < |h[r].segments|
    decreases |h| - i
  {
    if i < |h| && FirstFit(h[i].segments, size, 0) == |h[i].segments| then FirstPage(h, size, i + 1) else i
  }

  predicate Splits(s: Segment, size: nat) {
    s.size > (size + HEADER) % WORD64
  }

  function AllocSegment(p: Page, j: nat, size: nat): Page
    requires j < |p.segments| && Fits(p.segments[j], size)
  {
    var s := p.segments[j];
    if Splits(s, size) then
      p.(segments := p.segments[..j]
                     + [Segment(s.at, size, false), Segment(s.at + HEADER + size, (s.size - size - HEADER) % WORD64, true)]
                     + p.segments[j + 1..],
         freeSize := (p.freeSize - size) % WORD32,
         splits := p.splits + 1)
    else
      p.(segments := p.segments[j := s.(free := false)],
         freeSize := (p.freeSize - s.size) % WORD32)
  }

  /** Releasing segment j, and merging it with its successor when that one is free. */
  function FreeSegment(p: Page, j: nat): Page
    requires j < |p.segments|
  {
    var s := p.segments[j];
    if j + 1 < |p.segments| && p.segments[j + 1].free then
      p.(segments := p.segments[..j]
                     + [Segment(s.at, s.size + p.segments[j + 1].size + HEADER, true)]
                     + p.segments[j + 2..],
         freeSize := (p.freeSize + s.size + HEADER) % WORD32)
    else
      p.(segments := p.segments[j := s.(free := true)],
         freeSize := (p.freeSize + s.size) % WORD32)
  }

  function Release(p: Page, j: nat): Page
    requires j < |p.segments|
  {
    p.(segments := p.segments[j := p.segments[j].(free := true)],
       freeSize := (p.freeSize + p.segments[j].size) % WORD32)
  }

  function TryMerge(p: Page, j: nat): Page
    requires j < |p.segments|
  {
    if j + 1 < |p.segments| && p.segments[j + 1].free then
      var s := p.segments[j];
      p.(segments := p.segments[..j]
                     + [s.(size := s.size + p.segments[j + 1].size + HEADER)]
                     + p.segments[j + 2..],
         freeSize := (p.freeSize + HEADER) % WORD32)
    else p
  }

  lemma FreeInTwoSteps(p: Page, j: nat)
    requires j < |p.segments|
    ensures TryMerge(Release(p, j), j) == FreeSegment(p, j)
  {
    var q := Release(p, j);
    WrapSum(p.freeSize + p.segments[j].size, HEADER);
    if j + 1 < |p.segments| && p.segments[j + 1].free {
      assert q.segments[..j] == p.segments[..j] && q.segments[j + 2..] == p.segments[j + 2..];
    }
  }

  datatype Block = Block(heap: seq<Page>, address: nat, grants: seq<nat>)

  /** `grants` are the addresses that the frame allocator will answer with, in order. When they
      run out the source logs and halts: there is no result then. */
  function Kmalloc(h: seq<Page>, size: nat, grants: seq<nat>): Option<Block>
    decreases |grants|
  {
    var i := FirstPage(h, size, 0);
    if i < |h| then
      var j := FirstFit(h[i].segments, size, 0);
      Some(Block(h[i := AllocSegment(h[i], j, size)], h[i].segments[j].at + HEADER, grants))
    else if grants == [] then None
    else Kmalloc(h + [NewPage(grants[0], size)], size, grants[1..])
  }

  /** The first segment at or after index j whose payload starts at the address. */
  function FindAddress(segments: seq<Segment>, address: nat, j: nat): (r: nat)
    requires j <= |segments|
    ensures j <= r <= |segments|
    ensures forall k :: j <= k < r ==> segments[k].at + HEADER != address
    ensures r < |segments| ==> segments[r].at + HEADER == address
    decreases |segments| - j
  {
    if j < |segments| && segments[j].at + HEADER != address then FindAddress(segments, address, j + 1) else j
  }

  /** The search only ever looks at the first page: the segment pointer is not reset. */
  function Kfree(h: seq<Page>, address: nat): (bool, seq<Page>)
    requires h != []
  {
    var j := FindAddress(h[0].segments, address, 0);
    if j == |h[0].segments| then (false, h) else (true, h[0 := FreeSegment(h[0], j)])
  }

  // ----- Tiling -----

  predicate Chained(segments: seq<Segment>) {
    forall j, k :: 0 <= j && k == j + 1 < |segments| ==> segments[k].at == End(segments[j])
  }

  function PageEnd(p: Page): nat
    requires p.segments != []
  {
    End(p.segments[|p.segments| - 1])
  }

  /** Headers and payloads follow one another from the page header to the end of the page, in
      list order and without a gap, inside the granted frames. */
  predicate Tiled(p: Page) {
    && p.segments != [] && p.segments[0].at == p.at + HEADER
    && Chained(p.segments)
    && PageEnd(p) <= p.at + p.frames * FRAME
    && PageEnd(p) < p.at + 2 * HEADER + WORD32
  }

  predicate Apart(p: Page, q: Page) {
    p.at + p.frames * FRAME <= q.at || q.at + q.frames * FRAME <= p.at
  }

  predicate HeapOk(h: seq<Page>) {
    && (forall i :: 0 <= i < |h| ==> Tiled(h[i]))
    && forall i, k :: 0 <= i < k < |h| ==> Apart(h[i], h[k])
  }

  lemma {:induction false} SegmentsInOrder(segments: seq<Segment>, j: nat, k: nat)
    requires Chained(segments) && j < k < |segments|
    ensures End(segments[j]) <= segments[k].at
    decreases k
  {
    if j + 1 < k {
      SegmentsInOrder(segments, j, k - 1);
    }
  }

  lemma {:induction false} SegmentInPage(p: Page, j: nat)
    requires Tiled(p) && j < |p.segments|
    ensures p.at + HEADER <= p.segments[j].at && End(p.segments[j]) <= PageEnd(p)
    ensures p.segments[j].size < WORD32
  {
    if j > 0 {
      SegmentsInOrder(p.segments, 0, j);
    }
    if j < |p.segments| - 1 {
      SegmentsInOrder(p.segments, j, |p.segments| - 1);
    }
  }

  lemma FindSegment(p: Page, j: nat)
    requires Tiled(p) && j < |p.segments|
    ensures FindAddress(p.segments, p.segments[j].at + HEADER, 0) == j
  {
    var r := FindAddress(p.segments, p.segments[j].at + HEADER, 0);
    if r < j {
      SegmentsInOrder(p.segments, r, j);
    }
  }

  lemma AllocSegmentShape(p: Page, j: nat, size: nat)
    requires Tiled(p) && j < |p.segments| && Fits(p.segments[j], size)
    ensures Splits(p.segments[j], size) <==> size + HEADER < p.segments[j].size
    ensures Splits(p.segments[j], size) ==>
              (p.segments[j].size - size - HEADER) % WORD64 == p.segments[j].size - size - HEADER
  {
    SegmentInPage(p, j);
    assert size + HEADER < WORD64;
  }

  lemma AllocKeepsTiling(p: Page, j: nat, size: nat)
    requires Tiled(p) && j < |p.segments| && Fits(p.segments[j], size)
    ensures Tiled(AllocSegment(p, j, size)) && PageEnd(AllocSegment(p, j, size)) == PageEnd(p)
  {
    AllocSegmentShape(p, j, size);
    var q := AllocSegment(p, j, size);
    if Splits(p.segments[j], size) {
      forall k | 0 <= k < |q.segments| - 1
        ensures q.segments[k + 1].at == End(q.segments[k])
      {
        if k > j + 1 {
          assert q.segments[k] == p.segments[k - 1] && q.segments[k + 1] == p.segments[k];
        } else if k == j + 1 {
          assert q.segments[k + 1] == p.segments[k];
        } else if k + 1 == j {
          assert q.segments[k] == p.segments[k];
        }
      }
    }
  }

  lemma ReleaseKeepsTiling(p: Page, j: nat)
    requires Tiled(p) && j < |p.segments|
    ensures Tiled(Release(p, j)) && PageEnd(Release(p, j)) == PageEnd(p)
  {
  }

  lemma MergeKeepsTiling(p: Page, j: nat)
    requires Tiled(p) && j < |p.segments|
    ensures Tiled(TryMerge(p, j)) && PageEnd(TryMerge(p, j)) == PageEnd(p)
  {
    var q := TryMerge(p, j);
    if j + 1 < |p.segments| && p.segments[j + 1].free {
      forall k | 0 <= k < |q.segments| - 1
        ensures q.segments[k + 1].at == End(q.segments[k])
      {
        if k > j {
          assert q.segments[k] == p.segments[k + 1] && q.segments[k + 1] == p.segments[k + 2];
        } else if k == j {
          assert q.segments[k + 1] == p.segments[k + 2];
        } else if k + 1 == j {
          assert q.segments[k] == p.segments[k];
        }
      }
    }
  }

  lemma FreeKeepsTiling(p: Page, j: nat)
    requires Tiled(p) && j < |p.segments|
    ensures Tiled(FreeSegment(p, j)) && PageEnd(FreeSegment(p, j)) == PageEnd(p)
  {
    ReleaseKeepsTiling(p, j);
    MergeKeepsTiling(Release(p, j), j);
    FreeInTwoSteps(p, j);
  }

  // ----- Growth -----

  /** A fresh page holds the request exactly when the size is below 2^32: the segment's size is
      stored through a 32-bit field. */
  lemma NewPageFits(at: nat, size: nat)
    requires size < WORD64
    ensures Fits(NewPage(at, size).segments[0], size) <==> size < WORD32
    ensures size < WORD32 ==> Tiled(NewPage(at, size))
  {
    if size + 2 * HEADER > FRAME && size < WORD32 {
      var bytes := 2 * HEADER + size;
      assert ((bytes - HEADER) % WORD32 - HEADER) % WORD32 == size;
      assert (bytes + (FRAME - 1)) / FRAME * FRAME >= bytes;
    }
  }

  /** What a new page is: one free segment, of the size asked for but of the rest of a frame at least,
      on the least number of frames that hold it and both headers. */
  lemma NewPageIs(at: nat, size: nat)
    requires size < WORD32
    ensures var p := NewPage(at, size); var bytes := if size < 4032 then 4032 else size;
            && p.at == at && p.segments == [Segment(at + 32, bytes, true)] && p.freeSize == bytes
            && (p.frames - 1) * 4096 < bytes + 64 <= p.frames * 4096
  {
    var all := 2 * HEADER + size;
    if all > FRAME {
      assert ((all - HEADER) % WORD32 - HEADER) % WORD32 == size;
      assert ((all + 4095) / 4096 - 1) * 4096 < all <= (all + 4095) / 4096 * 4096;
    }
  }

  ghost predicate AllSmaller(h: seq<Page>, size: nat) {
    forall i :: 0 <= i < |h| ==> forall j :: 0 <= j < |h[i].segments| ==> h[i].segments[j].size < size
  }

  lemma NoPageFits(h: seq<Page>, size: nat)
    requires AllSmaller(h, size)
    ensures FirstPage(h, size, 0) == |h|
  {
  }

  lemma {:induction false} TooLargeNeverReturns(h: seq<Page>, size: nat, grants: seq<nat>)
    requires AllSmaller(h, size) && WORD32 <= size < WORD64
    ensures Kmalloc(h, size, grants) == None
    decreases |grants|
  {
    NoPageFits(h, size);
    if grants != [] {
      var p := NewPage(grants[0], size);
      NewPageFits(grants[0], size);
      TooLargeNeverReturns(h + [p], size, grants[1..]);
    }
  }

  /** The exact law of growth. Below 2^32 a call makes at most one page, only when nothing in the
      heap fits, and takes the first fit in page and then segment order; from 2^32 on it never
      returns, however many pages are granted. */
  lemma KmallocLaw(h: seq<Page>, size: nat, grants: seq<nat>)
    requires HeapOk(h) && size < WORD64
    ensures size >= WORD32 ==> Kmalloc(h, size, grants) == None
    ensures size < WORD32 && FirstPage(h, size, 0) < |h| ==>
              var i := FirstPage(h, size, 0);
              var j := FirstFit(h[i].segments, size, 0);
              Kmalloc(h, size, grants)
                == Some(Block(h[i := AllocSegment(h[i], j, size)], h[i].segments[j].at + HEADER, grants))
    ensures size < WORD32 && FirstPage(h, size, 0) == |h| ==>
              Kmalloc(h, size, grants) == if grants == [] then None
                else Some(Block(h + [AllocSegment(NewPage(grants[0], size), 0, size)], grants[0] + 2 * HEADER, grants[1..]))
  {
    if size >= WORD32 {
      forall i, j | 0 <= i < |h| && 0 <= j < |h[i].segments|
        ensures h[i].segments[j].size < size
      {
        SegmentInPage(h[i], j);
      }
      TooLargeNeverReturns(h, size, grants);
    } else if FirstPage(h, size, 0) == |h| && grants != [] {
      KmallocGrows(h, size, grants);
    }
  }

  /** When nothing fits, one new page is made for the request and serves it. */
  lemma {:induction false} KmallocGrows(h: seq<Page>, size: nat, grants: seq<nat>)
    requires size < WORD32 && FirstPage(h, size, 0) == |h| && grants != []
    ensures Fits(NewPage(grants[0], size).segments[0], size)
    ensures Kmalloc(h, size, grants)
         == Some(Block(h + [AllocSegment(NewPage(grants[0], size), 0, size)], grants[0] + 2 * HEADER, grants[1..]))
  {
    var p := NewPage(grants[0], size);
    NewPageFits(grants[0], size);
    var h' := h + [p];
    FirstPageOfGrown(h, p, size);
    assert h'[|h| := AllocSegment(p, 0, size)] == h + [AllocSegment(p, 0, size)];
  }

  /** What a request leaves of the page that was made for it: below a frame the block and the rest as
      a free segment, when there is room for a header; from 4000 bytes on one block and no free byte. */
  lemma GrownPage(h: seq<Page>, size: nat, grants: seq<nat>)
    requires size < WORD32 && FirstPage(h, size, 0) == |h| && grants != []
    ensures Kmalloc(h, size, grants).Some? && |Kmalloc(h, size, grants).value.heap| == |h| + 1
    ensures Kmalloc(h, size, grants).value.address == grants[0] + 64
    ensures var p := Kmalloc(h, size, grants).value.heap[|h|]; var at := grants[0];
            && p.at == at
            && (size < 4000 ==>
                  && p.segments == [Segment(at + 32, size, false), Segment(at + 64 + size, 4000 - size, true)]
                  && p.freeSize == 4032 - size)
            && (4000 <= size <= 4032 ==> p.segments == [Segment(at + 32, 4032, false)] && p.freeSize == 0)
            && (4032 < size ==> p.segments == [Segment(at + 32, size, false)] && p.freeSize == 0)
  {
    NewPageIs(grants[0], size);
    KmallocGrows(h, size, grants);
  }

  lemma FirstPageOfGrown(h: seq<Page>, p: Page, size: nat)
    requires FirstPage(h, size, 0) == |h| && |p.segments| == 1 && Fits(p.segments[0], size)
    ensures FirstPage(h + [p], size, 0) == |h| && FirstFit(p.segments, size, 0) == 0
  {
    var h' := h + [p];
    assert h'[|h|] == p && forall k :: 0 <= k < |h| ==> h'[k] == h[k];
  }

  /** What is assumed of the frame allocator: the region it grants is clear of the heap's pages. */
  predicate GrantApart(h: seq<Page>, size: nat, grants: seq<nat>) {
    grants != [] ==> forall i :: 0 <= i < |h| ==> Apart(h[i], NewPage(grants[0], size))
  }

  /** The page is the same region, cut up differently. */
  predicate SameExtent(p: Page, q: Page) {
    q.at == p.at && q.frames == p.frames && p.segments != [] && q.segments != [] && PageEnd(q) == PageEnd(p)
  }

  lemma UpdateKeepsHeap(h: seq<Page>, i: nat, q: Page)
    requires HeapOk(h) && i < |h| && Tiled(q) && SameExtent(h[i], q)
    ensures HeapOk(h[i := q])
    ensures forall k :: 0 <= k < |h| ==> SameExtent(h[k], h[i := q][k])
  {
  }

  lemma GrowKeepsHeap(h: seq<Page>, p: Page, q: Page)
    requires HeapOk(h) && Tiled(q) && SameExtent(p, q) && forall i :: 0 <= i < |h| ==> Apart(h[i], p)
    ensures HeapOk(h + [q])
    ensures forall k :: 0 <= k < |h| ==> SameExtent(h[k], (h + [q])[k])
  {
  }

  lemma KmallocKeepsHeap(h: seq<Page>, size: nat, grants: seq<nat>)
    requires HeapOk(h) && size < WORD64 && GrantApart(h, size, grants)
    ensures Kmalloc(h, size, grants).Some? ==>
              var h' := Kmalloc(h, size, grants).value.heap;
              HeapOk(h') && |h| <= |h'| && forall k :: 0 <= k < |h| ==> SameExtent(h[k], h'[k])
  {
    KmallocLaw(h, size, grants);
    var i := FirstPage(h, size, 0);
    if size < WORD32 && i < |h| {
      var j := FirstFit(h[i].segments, size, 0);
      AllocKeepsTiling(h[i], j, size);
      UpdateKeepsHeap(h, i, AllocSegment(h[i], j, size));
    } else if size < WORD32 && grants != [] {
      var p := NewPage(grants[0], size);
      NewPageFits(grants[0], size);
      AllocKeepsTiling(p, 0, size);
      GrowKeepsHeap(h, p, AllocSegment(p, 0, size));
    }
  }

  lemma KfreeKeepsHeap(h: seq<Page>, address: nat)
    requires HeapOk(h) && h != []
    ensures var h' := Kfree(h, address).1;
            HeapOk(h') && |h'| == |h| && forall k :: 0 <= k < |h| ==> SameExtent(h[k], h'[k])
  {
    var j := FindAddress(h[0].segments, address, 0);
    if j < |h[0].segments| {
      FreeKeepsTiling(h[0], j);
      UpdateKeepsHeap(h, 0, FreeSegment(h[0], j));
    }
  }

  /** `kfree` succeeds exactly on the payload starts of the first page. */
  lemma KfreeSucceedsExactly(h: seq<Page>, address: nat)
    requires h != []
    ensures Kfree(h, address).0 <==> exists j :: 0 <= j < |h[0].segments| && h[0].segments[j].at + HEADER == address
    ensures !Kfree(h, address).0 ==> Kfree(h, address).1 == h
  {
  }

  // ----- Round trip -----

  lemma WrapSum(x: int, y: int)
    ensures (x % WORD32 + y) % WORD32 == (x + y) % WORD32
  {
  }

  /** Freeing at once what a call on the first page returned. A call that split a segment is
      undone in full; one that took a whole segment is undone exactly when the segment behind it
      was not free. The free-byte count gains the header of a split. */
  lemma FreeUndoesMalloc(h: seq<Page>, size: nat, grants: seq<nat>, b: Block, ok: bool, h': seq<Page>, j: nat,
                         split: bool, nextFree: bool)
    requires HeapOk(h) && size < WORD32 && h != [] && FirstPage(h, size, 0) == 0
    requires Kmalloc(h, size, grants) == Some(b) && b.heap != [] && Kfree(b.heap, b.address) == (ok, h')
    requires j == FirstFit(h[0].segments, size, 0) && split == Splits(h[0].segments[j], size)
    requires nextFree == (j + 1 < |h[0].segments| && h[0].segments[j + 1].free)
    ensures ok && |h'| == |h| && h'[1..] == h[1..]
    ensures h'[0].segments == h[0].segments <==> split || !nextFree
    ensures split || !nextFree ==> h'[0].freeSize == (h[0].freeSize + if split then HEADER else 0) % WORD32
  {
    KmallocOnFirstPage(h, size, grants, j);
    FindTaken(h[0], j, size);
    KfreeOfTaken(h, AllocSegment(h[0], j, size), h[0].segments[j].at + HEADER, j);
    FreeUndoesAlloc(h[0], j, size);
    if split || !nextFree {
      FreeUndoesCount(h[0], j, size);
    }
  }

  lemma KmallocOnFirstPage(h: seq<Page>, size: nat, grants: seq<nat>, j: nat)
    requires h != [] && FirstPage(h, size, 0) == 0 && j == FirstFit(h[0].segments, size, 0)
    ensures Kmalloc(h, size, grants) == Some(Block(h[0 := AllocSegment(h[0], j, size)], h[0].segments[j].at + HEADER, grants))
  {
  }

  lemma KfreeOfTaken(h: seq<Page>, q: Page, address: nat, j: nat)
    requires h != [] && j < |q.segments| && FindAddress(q.segments, address, 0) == j
    ensures Kfree(h[0 := q], address) == (true, h[0 := FreeSegment(q, j)])
  {
    assert h[0 := q][0 := FreeSegment(q, j)] == h[0 := FreeSegment(q, j)];
  }

  lemma FindTaken(p: Page, j: nat, size: nat)
    requires Tiled(p) && j < |p.segments| && Fits(p.segments[j], size)
    ensures FindAddress(AllocSegment(p, j, size).segments, p.segments[j].at + HEADER, 0) == j
  {
    AllocKeepsTiling(p, j, size);
    var q := AllocSegment(p, j, size);
    assert q.segments[j].at == p.segments[j].at;
    FindSegment(q, j);
  }

  lemma FreeUndoesAlloc(p: Page, j: nat, size: nat)
    requires Tiled(p) && j < |p.segments| && Fits(p.segments[j], size)
    ensures var r := FreeSegment(AllocSegment(p, j, size), j);
            var nextFree := j + 1 < |p.segments| && p.segments[j + 1].free;
            r.segments == p.segments <==> Splits(p.segments[j], size) || !nextFree
  {
    AllocSegmentShape(p, j, size);
    var s, a, b := p.segments[j], p.segments[..j], p.segments[j + 1..];
    assert p.segments == a + [s] + b;
    var q := AllocSegment(p, j, size);
    var r := FreeSegment(q, j);
    if Splits(s, size) {
      assert q.segments[..j] == a && q.segments[j + 2..] == b;
      assert r.segments == a + [s] + b;
    } else if j + 1 < |p.segments| && p.segments[j + 1].free {
      assert |r.segments| == |p.segments| - 1;
    }
  }

  lemma FreeUndoesCount(p: Page, j: nat, size: nat)
    requires Tiled(p) && j < |p.segments| && Fits(p.segments[j], size)
    requires Splits(p.segments[j], size) || !(j + 1 < |p.segments| && p.segments[j + 1].free)
    ensures FreeSegment(AllocSegment(p, j, size), j).freeSize
         == (p.freeSize + if Splits(p.segments[j], size) then HEADER else 0) % WORD32
  {
    var q := AllocSegment(p, j, size);
    if Splits(p.segments[j], size) {
      assert q.segments[j].size == size && q.segments[j + 1].free;
      WrapSum(p.freeSize - size, size + HEADER);
    } else {
      WrapSum(p.freeSize - p.segments[j].size, p.segments[j].size);
    }
  }

  // ----- Accounting -----

  function FreeBytes(segments: seq<Segment>): nat {
    if segments == [] then 0
    else FreeBytes(segments[..|segments| - 1]) + (var s := segments[|segments| - 1]; if s.free then s.size else 0)
  }

  /** Payload and segment headers together. */
  function AllBytes(segments: seq<Segment>): nat {
    if segments == [] then 0
    else AllBytes(segments[..|segments| - 1]) + HEADER + segments[|segments| - 1].size
  }

  lemma {:induction false} BytesConcat(a: seq<Segment>, b: seq<Segment>)
    ensures FreeBytes(a + b) == FreeBytes(a) + FreeBytes(b)
    decreases |b|
  {
    if b == [] {
      assert a + b == a;
    } else {
      assert (a + b)[..|a + b| - 1] == a + b[..|b| - 1];
      BytesConcat(a, b[..|b| - 1]);
    }
  }

  /** Tiling fixes the total: what a page holds in headers and payloads is its extent. */
  lemma {:induction false} TilesCoverPage(segments: seq<Segment>)
    requires segments != [] && Chained(segments)
    ensures AllBytes(segments) == End(segments[|segments| - 1]) - segments[0].at
    decreases |segments|
  {
    var front := segments[..|segments| - 1];
    if front != [] {
      TilesCoverPage(front);
    } else {
      assert AllBytes(front) == 0;
    }
  }

  /** The stored count is the free payload plus a header for every split ever made, modulo 2^32. */
  predicate Accounted(p: Page) {
    p.freeSize == (FreeBytes(p.segments) + HEADER * p.splits) % WORD32
  }

  lemma BytesOfOne(s: Segment)
    ensures FreeBytes([s]) == if s.free then s.size else 0
  {
    assert [s][..0] == [];
  }

  /** Replacing the middle of a list changes the free bytes by the difference of the middles. */
  lemma BytesReplace(a: seq<Segment>, m: seq<Segment>, m': seq<Segment>, b: seq<Segment>)
    ensures FreeBytes(a + m' + b) - FreeBytes(a + m + b) == FreeBytes(m') - FreeBytes(m)
  {
    BytesConcat(a + m, b);
    BytesConcat(a, m);
    BytesConcat(a + m', b);
    BytesConcat(a, m');
  }

  lemma AllocFreeBytes(p: Page, j: nat, size: nat)
    requires Tiled(p) && j < |p.segments| && Fits(p.segments[j], size)
    ensures FreeBytes(AllocSegment(p, j, size).segments)
         == FreeBytes(p.segments) - if Splits(p.segments[j], size) then size + HEADER else p.segments[j].size
  {
    AllocSegmentShape(p, j, size);
    var s, a, b := p.segments[j], p.segments[..j], p.segments[j + 1..];
    var q := AllocSegment(p, j, size);
    assert p.segments == a + [s] + b;
    BytesOfOne(s);
    BytesOfOne(q.segments[j]);
    if Splits(s, size) {
      var used, rest := q.segments[j], q.segments[j + 1];
      BytesOfOne(rest);
      BytesConcat([used], [rest]);
      assert [used] + [rest] == [used, rest];
      BytesReplace(a, [s], [used, rest], b);
    } else {
      assert q.segments == a + [q.segments[j]] + b;
      BytesReplace(a, [s], [q.segments[j]], b);
    }
  }

  lemma AllocKeepsAccount(p: Page, j: nat, size: nat)
    requires Tiled(p) && Accounted(p) && j < |p.segments| && Fits(p.segments[j], size)
    ensures Accounted(AllocSegment(p, j, size))
  {
    AllocFreeBytes(p, j, size);
    var total := FreeBytes(p.segments) + HEADER * p.splits;
    var taken: int := if Splits(p.segments[j], size) then size else p.segments[j].size;
    WrapSum(total, 0 - taken);
  }

  lemma FreeFreeBytes(p: Page, j: nat)
    requires j < |p.segments| && !p.segments[j].free
    ensures FreeBytes(FreeSegment(p, j).segments) == FreeBytes(p.segments) + p.segments[j].size
            + if j + 1 < |p.segments| && p.segments[j + 1].free then HEADER else 0
  {
    var s, a := p.segments[j], p.segments[..j];
    var q := FreeSegment(p, j);
    BytesOfOne(s);
    BytesOfOne(q.segments[j]);
    if j + 1 < |p.segments| && p.segments[j + 1].free {
      var next, c := p.segments[j + 1], p.segments[j + 2..];
      assert p.segments == a + [s, next] + c;
      BytesOfOne(next);
      BytesConcat([s], [next]);
      assert [s] + [next] == [s, next];
      BytesReplace(a, [s, next], [q.segments[j]], c);
    } else {
      var b := p.segments[j + 1..];
      assert p.segments == a + [s] + b && q.segments == a + [q.segments[j]] + b;
      BytesReplace(a, [s], [q.segments[j]], b);
    }
  }

  lemma FreeKeepsAccount(p: Page, j: nat)
    requires Accounted(p) && j < |p.segments| && !p.segments[j].free
    ensures Accounted(FreeSegment(p, j))
  {
    FreeFreeBytes(p, j);
    var s := p.segments[j];
    WrapSum(FreeBytes(p.segments) + HEADER * p.splits, s.size);
    WrapSum(FreeBytes(p.segments) + HEADER * p.splits, s.size + HEADER);
  }
}
