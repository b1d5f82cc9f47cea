/** The heap as it lies in memory: headers written in place and linked by address, searched by
    following the links. */
module Heap {
  import opened Bits
  import opened Options
  import opened HeapModel

  /** 0 is the null pointer. */
  datatype SegmentHeader = SegmentHeader(addr: nat, size: nat, free: bool, next: nat)
  datatype PageHeader = PageHeader(addr: nat, first: nat, freeSize: nat, next: nat)

  ghost function SegmentAt(list: seq<Segment>, j: nat): nat {
    if j < |list| then list[j].at else 0
  }

  ghost function PageAt(h: seq<Page>, i: nat): nat {
    if i < |h| then h[i].at else 0
  }

  ghost predicate HeaderAt(mem: map<nat, SegmentHeader>, s: Segment, next: nat) {
    s.at in mem && mem[s.at] == SegmentHeader(s.at + HEADER, s.size, s.free, next)
  }

  ghost predicate LinkedAt(mem: map<nat, SegmentHeader>, list: seq<Segment>, j: nat)
    requires j < |list|
  {
    HeaderAt(mem, list[j], SegmentAt(list, j + 1))
  }

  /** The headers in memory are linked in the order of the list. */
  ghost predicate Linked(mem: map<nat, SegmentHeader>, list: seq<Segment>) {
    forall j :: 0 <= j < |list| ==> LinkedAt(mem, list, j)
  }

  ghost predicate PageInMemory(mem: map<nat, PageHeader>, h: seq<Page>, i: nat)
    requires i < |h|
  {
    && 0 < h[i].at && h[i].at in mem
    && mem[h[i].at] == PageHeader(h[i].at + HEADER, SegmentAt(h[i].segments, 0), h[i].freeSize, PageAt(h, i + 1))
  }

  /** Headers written inside one page leave the links of another alone. */
  lemma OtherPageLinked(mem: map<nat, SegmentHeader>, mem': map<nat, SegmentHeader>, p: Page, q: Page)
    requires Tiled(p) && Tiled(q) && Apart(p, q) && Linked(mem, q.segments)
    requires forall a :: a in mem && !(p.at + HEADER <= a < PageEnd(p)) ==> a in mem' && mem'[a] == mem[a]
    ensures Linked(mem', q.segments)
  {
    forall j | 0 <= j < |q.segments|
      ensures LinkedAt(mem', q.segments, j)
    {
      assert LinkedAt(mem, q.segments, j);
      SegmentInPage(q, j);
    }
  }

  /** No other header lies inside a segment. */
  lemma HeaderOutside(p: Page, j: nat, k: nat)
    requires Tiled(p) && j < |p.segments| && k < |p.segments| && k != j
    ensures p.segments[k].at < p.segments[j].at || End(p.segments[j]) <= p.segments[k].at
  {
    if k < j {
      SegmentsInOrder(p.segments, k, j);
    } else {
      SegmentsInOrder(p.segments, j, k);
    }
  }

  /** Splitting a segment in memory links the new header in behind it. */
  lemma SplitLinks(mem: map<nat, SegmentHeader>, mem': map<nat, SegmentHeader>, p: Page, j: nat, size: nat,
                   s: Segment, fragment: nat, rest: nat)
    requires Tiled(p) && j < |p.segments| && Fits(p.segments[j], size) && Linked(mem, p.segments)
    requires Splits(p.segments[j], size) && s == p.segments[j]
    requires fragment == s.at + HEADER + size && s.size == size + HEADER + rest
    requires mem' == mem[fragment := SegmentHeader(fragment + HEADER, rest, true, SegmentAt(p.segments, j + 1))]
                        [s.at := SegmentHeader(s.at + HEADER, size, false, fragment)]
    ensures Linked(mem', AllocSegment(p, j, size).segments)
  {
    AllocSegmentShape(p, j, size);
    var q := AllocSegment(p, j, size).segments;
    assert q[j] == Segment(s.at, size, false) && q[j + 1] == Segment(fragment, rest, true);
    forall k | 0 <= k < |q|
      ensures LinkedAt(mem', q, k)
    {
      if k < j {
        assert q[k] == p.segments[k] && LinkedAt(mem, p.segments, k);
        HeaderOutside(p, j, k);
      } else if k > j + 1 {
        assert q[k] == p.segments[k - 1] && LinkedAt(mem, p.segments, k - 1);
        HeaderOutside(p, j, k - 1);
      }
    }
  }

  /** Merging drops the successor's header from the links. */
  lemma MergeLinks(mem: map<nat, SegmentHeader>, mem': map<nat, SegmentHeader>, p: Page, j: nat, s: Segment, n: Segment)
    requires Tiled(p) && j + 1 < |p.segments| && p.segments[j + 1].free && Linked(mem, p.segments)
    requires s == p.segments[j] && n == p.segments[j + 1]
    requires mem' == mem[s.at := SegmentHeader(s.at + HEADER, s.size + n.size + HEADER, s.free, SegmentAt(p.segments, j + 2))]
    ensures Linked(mem', TryMerge(p, j).segments)
  {
    var q := TryMerge(p, j).segments;
    assert q[j] == Segment(s.at, s.size + n.size + HEADER, s.free);
    forall k | 0 <= k < |q|
      ensures LinkedAt(mem', q, k)
    {
      if k < j {
        assert q[k] == p.segments[k] && LinkedAt(mem, p.segments, k);
        HeaderOutside(p, j, k);
      } else if k > j {
        assert q[k] == p.segments[k + 1] && LinkedAt(mem, p.segments, k + 1);
        HeaderOutside(p, j, k + 1);
      }
    }
  }

  /** Setting the free flag of one segment keeps the links. */
  lemma FlagLinks(mem: map<nat, SegmentHeader>, mem': map<nat, SegmentHeader>, p: Page, j: nat, s: Segment, free: bool)
    requires Tiled(p) && j < |p.segments| && Linked(mem, p.segments) && s == p.segments[j]
    requires mem' == mem[s.at := SegmentHeader(s.at + HEADER, s.size, free, SegmentAt(p.segments, j + 1))]
    ensures Linked(mem', p.segments[j := s.(free := free)])
  {
    var q := p.segments[j := s.(free := free)];
    forall k | 0 <= k < |q|
      ensures LinkedAt(mem', q, k)
    {
      assert LinkedAt(mem, p.segments, k);
      if k != j {
        HeaderOutside(p, j, k);
      }
    }
  }

  /** Memory was written inside the page only. */
  ghost predicate WrittenInside(mem: map<nat, SegmentHeader>, mem': map<nat, SegmentHeader>, p: Page)
    requires p.segments != []
  {
    forall a :: a in mem && !(p.at + HEADER <= a < PageEnd(p)) ==> a in mem' && mem'[a] == mem[a]
  }

  /** The page was cut up differently, in memory as in the list. */
  ghost predicate Recut(mem: map<nat, SegmentHeader>, mem': map<nat, SegmentHeader>, p: Page, q: Page) {
    && Tiled(p) && Tiled(q) && SameExtent(p, q) && SegmentAt(q.segments, 0) == SegmentAt(p.segments, 0)
    && Linked(mem', q.segments) && WrittenInside(mem, mem', q)
  }

  /** What `alloc_segment` leaves in memory. */
  ghost function AllocMemory(mem: map<nat, SegmentHeader>, p: Page, j: nat, size: nat): map<nat, SegmentHeader>
    requires j < |p.segments|
  {
    var s, next := p.segments[j], SegmentAt(p.segments, j + 1);
    if size + HEADER < s.size then
      var fragment := s.at + HEADER + size;
      mem[fragment := SegmentHeader(fragment + HEADER, s.size - size - HEADER, true, next)]
         [s.at := SegmentHeader(s.at + HEADER, size, false, fragment)]
    else mem[s.at := SegmentHeader(s.at + HEADER, s.size, false, next)]
  }

  /** The header that a segment is split off into, when the request leaves room for one. */
  function SplitOff(mem: map<nat, SegmentHeader>, segment: nat, size: nat): map<nat, SegmentHeader>
    requires segment in mem
  {
    var header := mem[segment];
    if header.size > (size + HEADER) % WORD64 then
      var fragment := header.addr + size;
      mem[fragment := SegmentHeader(fragment + HEADER, (header.size - size - HEADER) % WORD64, true, header.next)]
         [segment := header.(size := size, next := fragment)]
    else mem
  }

  /** Splitting and then clearing the flag is what the allocation leaves, and the segment then has
      the size that the page's count goes down by. */
  lemma SplitThenTake(mem: map<nat, SegmentHeader>, p: Page, j: nat, size: nat, segment: nat)
    requires Tiled(p) && j < |p.segments| && Fits(p.segments[j], size) && LinkedAt(mem, p.segments, j)
    requires segment == p.segments[j].at
    ensures var mem1 := SplitOff(mem, segment, size);
            && segment in mem1 && mem1[segment := mem1[segment].(free := false)] == AllocMemory(mem, p, j, size)
            && mem1[segment].addr == segment + HEADER
            && AllocSegment(p, j, size).freeSize == (p.freeSize - mem1[segment].size) % WORD32
  {
    AllocSegmentShape(p, j, size);
  }

  lemma AllocRecuts(mem: map<nat, SegmentHeader>, p: Page, j: nat, size: nat)
    requires Tiled(p) && j < |p.segments| && Fits(p.segments[j], size) && Linked(mem, p.segments)
    ensures Recut(mem, AllocMemory(mem, p, j, size), p, AllocSegment(p, j, size))
  {
    var s := p.segments[j];
    AllocSegmentShape(p, j, size);
    AllocKeepsTiling(p, j, size);
    SegmentInPage(p, j);
    if Splits(s, size) {
      SplitLinks(mem, AllocMemory(mem, p, j, size), p, j, size, s, s.at + HEADER + size, s.size - size - HEADER);
    } else {
      FlagLinks(mem, AllocMemory(mem, p, j, size), p, j, s, false);
    }
  }

  lemma ReleaseRecuts(mem: map<nat, SegmentHeader>, mem': map<nat, SegmentHeader>, p: Page, j: nat)
    requires Tiled(p) && j < |p.segments| && Linked(mem, p.segments)
    requires p.segments[j].at in mem && mem' == mem[p.segments[j].at := mem[p.segments[j].at].(free := true)]
    ensures Recut(mem, mem', p, Release(p, j))
  {
    assert LinkedAt(mem, p.segments, j);
    ReleaseKeepsTiling(p, j);
    SegmentInPage(p, j);
    FlagLinks(mem, mem', p, j, p.segments[j], true);
  }

  lemma MergeRecuts(mem: map<nat, SegmentHeader>, mem': map<nat, SegmentHeader>, p: Page, j: nat, s: Segment,
                    n: Segment)
    requires Tiled(p) && j + 1 < |p.segments| && p.segments[j + 1].free && Linked(mem, p.segments)
    requires s == p.segments[j] && n == p.segments[j + 1]
    requires mem' == mem[s.at := SegmentHeader(s.at + HEADER, s.size + n.size + HEADER, s.free, SegmentAt(p.segments, j + 2))]
    ensures Recut(mem, mem', p, TryMerge(p, j))
  {
    MergeKeepsTiling(p, j);
    SegmentInPage(p, j);
    MergeLinks(mem, mem', p, j, s, n);
  }

  class KernelHeap {
    var heap: nat
    var pages: map<nat, PageHeader>
    var segments: map<nat, SegmentHeader>
    ghost var model: seq<Page>

    ghost predicate Valid()
      reads this
    {
      && HeapOk(model)
      && heap == PageAt(model, 0)
      && (forall i :: 0 <= i < |model| ==> PageInMemory(pages, model, i))
      && forall i :: 0 <= i < |model| ==> Linked(segments, model[i].segments)
    }

    constructor ()
      ensures Valid() && model == []
    {
      heap, pages, segments, model := 0, map[], map[], [];
    }

    /** Re-establishes the invariant when one page was cut up differently in place. */
    lemma PageRecut(h: seq<Page>, i: nat, q: Page, mem: map<nat, SegmentHeader>, headers: map<nat, PageHeader>)
      requires HeapOk(h) && i < |h| && Recut(mem, segments, h[i], q)
      requires forall k :: 0 <= k < |h| ==> PageInMemory(headers, h, k)
      requires forall k :: 0 <= k < |h| ==> Linked(mem, h[k].segments)
      requires model == h[i := q] && heap == PageAt(h, 0)
      requires q.at in headers && pages == headers[q.at := headers[q.at].(freeSize := q.freeSize)]
      ensures Valid()
    {
      UpdateKeepsHeap(h, i, q);
      forall k | 0 <= k < |model|
        ensures PageInMemory(pages, model, k)
      {
        assert PageInMemory(headers, h, k);
        assert PageAt(model, k + 1) == PageAt(h, k + 1);
        if k != i {
          assert h[k].at != q.at by { DistinctPages(h, i, k); }
        }
      }
      forall k | 0 <= k < |model|
        ensures Linked(segments, model[k].segments)
      {
        if k != i {
          assert Apart(h[if i < k then i else k], h[if i < k then k else i]);
          OtherPageLinked(mem, segments, q, h[k]);
        }
      }
    }

    static lemma DistinctPages(h: seq<Page>, i: nat, k: nat)
      requires HeapOk(h) && i < |h| && k < |h| && i != k
      ensures h[i].at != h[k].at
    {
      SegmentInPage(h[i], 0);
      SegmentInPage(h[k], 0);
      assert Apart(h[if i < k then i else k], h[if i < k then k else i]);
    }

    method AllocSegment(page: nat, segment: nat, size: nat, ghost i: nat, ghost j: nat) returns (address: nat)
      requires Valid() && i < |model| && page == model[i].at
      requires j < |model[i].segments| && segment == model[i].segments[j].at && Fits(model[i].segments[j], size)
      modifies this`pages, this`segments, this`model
      ensures Valid() && model == old(model[i := HeapModel.AllocSegment(model[i], j, size)])
      ensures address == segment + HEADER
    {
      ghost var h, mem, headers, p := model, segments, pages, model[i];
      AllocRecuts(mem, p, j, size);
      assert PageInMemory(headers, h, i) && LinkedAt(mem, p.segments, j);
      SplitThenTake(mem, p, j, size, segment);
      SplitSegment(segment, size);
      pages := pages[page := pages[page].(freeSize := (pages[page].freeSize - segments[segment].size) % WORD32)];
      segments := segments[segment := segments[segment].(free := false)];
      address := segments[segment].addr;
      ghost var q := HeapModel.AllocSegment(p, j, size);
      model := model[i := q];
      PageRecut(h, i, q, mem, headers);
    }

    /** The first part of `alloc_segment`. */
    method SplitSegment(segment: nat, size: nat)
      requires segment in segments
      modifies this`segments
      ensures segments == old(SplitOff(segments, segment, size))
    {
      if segments[segment].size > (size + HEADER) % WORD64 {
        var fragment := segments[segment].addr + size;
        var header := segments[segment];
        segments := segments[fragment := SegmentHeader(fragment + HEADER, (header.size - size - HEADER) % WORD64,
                                                       true, header.next)];
        segments := segments[segment := header.(size := size, next := fragment)];
      }
    }

    method TrySegmentMerge(page: nat, segment: nat, ghost i: nat, ghost j: nat)
      requires Valid() && i < |model| && page == model[i].at
      requires j < |model[i].segments| && segment == model[i].segments[j].at
      modifies this`pages, this`segments, this`model
      ensures Valid() && model == old(model[i := TryMerge(model[i], j)])
    {
      ghost var h, mem, headers, p := model, segments, pages, model[i];
      assert PageInMemory(headers, h, i) && LinkedAt(mem, p.segments, j);
      if j + 1 < |p.segments| {
        assert LinkedAt(mem, p.segments, j + 1);
        SegmentInPage(p, j + 1);
      }
      var next := segments[segment].next;
      if next != 0 && segments[next].free {
        segments := segments[segment := segments[segment].(size := segments[segment].size + segments[next].size + HEADER,
                                                           next := segments[next].next)];
        pages := pages[page := pages[page].(freeSize := (pages[page].freeSize + HEADER) % WORD32)];
        MergeRecuts(mem, segments, p, j, p.segments[j], p.segments[j + 1]);
        model := model[i := TryMerge(p, j)];
        PageRecut(h, i, TryMerge(p, j), mem, headers);
      }
    }

    /** The part of `kfree` that runs once the segment is found. */
    method FreeSegment(page: nat, segment: nat, ghost i: nat, ghost j: nat)
      requires Valid() && i < |model| && page == model[i].at
      requires j < |model[i].segments| && segment == model[i].segments[j].at
      modifies this`pages, this`segments, this`model
      ensures Valid() && model == old(model[i := HeapModel.FreeSegment(model[i], j)])
    {
      ghost var h, mem, headers, p := model, segments, pages, model[i];
      assert PageInMemory(headers, h, i) && LinkedAt(mem, p.segments, j);
      segments := segments[segment := segments[segment].(free := true)];
      pages := pages[page := pages[page].(freeSize := (pages[page].freeSize + segments[segment].size) % WORD32)];
      ReleaseRecuts(mem, segments, p, j);
      model := model[i := Release(p, j)];
      PageRecut(h, i, Release(p, j), mem, headers);
      TrySegmentMerge(page, segment, i, j);
      FreeInTwoSteps(p, j);
    }

    /** Looks for the payload address in the first page only, as the source does: the inner
        pointer is null once that page is done. The heap must not be empty. */
    method Kfree(address: nat) returns (ok: bool)
      requires Valid() && heap != 0
      modifies this`pages, this`segments, this`model
      ensures Valid() && model != []
      ensures (ok, model) == old(HeapModel.Kfree(model, address))
    {
      var page := heap;
      ghost var i, j, first := 0, 0, model[0].segments;
      assert PageInMemory(pages, model, 0);
      var segment := pages[page].first;
      while page != 0
        invariant Valid() && model == old(model) && i <= |model| && page == PageAt(model, i)
        invariant segment == SegmentAt(first, j) && (0 < i ==> j == |first|)
        invariant j <= |first| && FindAddress(first, address, j) == FindAddress(first, address, 0)
        decreases |model| - i
      {
        while segment != 0
          invariant Valid() && model == old(model) && page == PageAt(model, i) && i < |model|
          invariant segment == SegmentAt(first, j) && (0 < i ==> j == |first|)
          invariant j <= |first| && FindAddress(first, address, j) == FindAddress(first, address, 0)
          decreases |first| - j
        {
          assert i == 0 && Linked(segments, model[0].segments) && LinkedAt(segments, first, j);
          if segments[segment].addr == address {
            FreeSegment(page, segment, 0, j);
            return true;
          }
          segment, j := segments[segment].next, j + 1;
        }
        assert j == |first| by { SegmentInPage(model[0], if j < |first| then j else 0); }
        assert PageInMemory(pages, model, i);
        page, i := pages[page].next, i + 1;
      }
      return false;
    }

    lemma HeapIsNull()
      requires Valid()
      ensures heap == 0 <==> model == []
    {
      if model != [] {
        assert PageInMemory(pages, model, 0);
      }
    }

    lemma NextIsNull(i: nat)
      requires Valid() && i < |model|
      ensures model[i].at in pages && (pages[model[i].at].next == 0 <==> i + 1 == |model|)
    {
      assert PageInMemory(pages, model, i);
      if i + 1 < |model| {
        assert PageInMemory(pages, model, i + 1);
      }
    }

    /** Writes the headers of a page of its own at the granted address. */
    method CreateHeapPage(at: nat, size: nat)
      requires size < WORD64
      modifies this`pages, this`segments
      ensures var freeSize := NewPage(at, size).freeSize;
              && pages == old(pages)[at := PageHeader(at + HEADER, at + HEADER, freeSize, 0)]
              && segments == old(segments)[at + HEADER := SegmentHeader(at + 2 * HEADER, freeSize, true, 0)]
    {
      var bytes := (2 * HEADER + size) % WORD64;
      if (size + 2 * HEADER) % WORD64 <= FRAME {
        bytes := FRAME;
      }
      var header := PageHeader(at + HEADER, 0, (bytes - HEADER) % WORD32, 0);
      header := header.(freeSize := (header.freeSize - HEADER) % WORD32);
      var segment := header.addr;
      segments := segments[segment := SegmentHeader(segment + HEADER, header.freeSize, true, 0)];
      pages := pages[at := header.(first := segment)];
    }

    /** Re-establishes the invariant when a new page was linked in at the end. */
    lemma PageLinked(h: seq<Page>, p: Page, mem: map<nat, SegmentHeader>, headers: map<nat, PageHeader>)
      requires HeapOk(h) && Tiled(p) && 0 < p.at && (forall k :: 0 <= k < |h| ==> Apart(h[k], p))
      requires |p.segments| == 1 && p.segments[0].free
      requires forall k :: 0 <= k < |h| ==> PageInMemory(headers, h, k)
      requires forall k :: 0 <= k < |h| ==> Linked(mem, h[k].segments)
      requires model == h + [p] && heap == PageAt(model, 0)
      requires segments == mem[p.at + HEADER := SegmentHeader(p.at + 2 * HEADER, p.segments[0].size, true, 0)]
      requires forall a :: a in headers && a != p.at && (h != [] ==> a != h[|h| - 1].at) ==> a in pages && pages[a] == headers[a]
      requires p.at in pages && pages[p.at] == PageHeader(p.at + HEADER, p.at + HEADER, p.freeSize, 0)
      requires h != [] ==> h[|h| - 1].at in headers && h[|h| - 1].at in pages
      requires h != [] ==> pages[h[|h| - 1].at] == headers[h[|h| - 1].at].(next := p.at)
      ensures Valid()
    {
      GrowKeepsHeap(h, p, p);
      forall k | 0 <= k < |model|
        ensures PageInMemory(pages, model, k)
      {
        if k < |h| {
          assert PageInMemory(headers, h, k);
          DistinctPages(model, k, |h|);
          if k < |h| - 1 {
            DistinctPages(model, k, |h| - 1);
          }
        }
      }
      forall k | 0 <= k < |model|
        ensures Linked(segments, model[k].segments)
      {
        if k < |h| {
          OtherPageLinked(mem, segments, p, h[k]);
        } else {
          assert LinkedAt(segments, p.segments, 0);
        }
      }
    }

    /** The search of `kmalloc`: the first fit in page and then segment order, or 0. */
    method SearchPages(size: nat) returns (found: bool, page: nat, segment: nat, ghost i: nat, ghost j: nat)
      requires Valid() && heap != 0
      ensures i == FirstPage(model, size, 0) && (found <==> i < |model|)
      ensures found ==> j == FirstFit(model[i].segments, size, 0) && page == model[i].at && segment == model[i].segments[j].at
      ensures !found ==> page == model[|model| - 1].at
    {
      page, i := heap, 0;
      while true
        invariant i < |model| && page == model[i].at
        invariant FirstPage(model, size, i) == FirstPage(model, size, 0)
        decreases |model| - i
      {
        ghost var list := model[i].segments;
        assert PageInMemory(pages, model, i) && Linked(segments, list);
        segment, j := pages[page].first, 0;
        while segment != 0
          invariant j <= |list| && segment == SegmentAt(list, j)
          invariant FirstFit(list, size, j) == FirstFit(list, size, 0)
          decreases |list| - j
        {
          assert LinkedAt(segments, list, j);
          if segments[segment].free && segments[segment].size >= size {
            found := true;
            return;
          }
          segment, j := segments[segment].next, j + 1;
        }
        assert j == |list| by { SegmentInPage(model[i], if j < |list| then j else 0); }
        NextIsNull(i);
        if pages[page].next == 0 {
          found, i := false, i + 1;
          return;
        }
        page, i := pages[page].next, i + 1;
      }
    }

    /** `grants` are the frame allocator's answers. A new page is only made when nothing fits, and
        then its region must be clear of the others; the recursion ends because the new page fits.
        `ok` is false when the frame allocator has nothing to grant, where the source halts. */
    method Kmalloc(size: nat, grants: seq<nat>) returns (ok: bool, address: nat, rest: seq<nat>)
      requires Valid() && size < WORD32
      requires FirstPage(model, size, 0) == |model| && grants != [] ==> GrantApart(model, size, grants) && 0 < grants[0]
      modifies this
      ensures Valid() && (ok <==> old(HeapModel.Kmalloc(model, size, grants)).Some?)
      ensures ok ==> old(HeapModel.Kmalloc(model, size, grants)) == Some(Block(model, address, rest))
      ensures !ok ==> model == old(model)
      decreases |grants|
    {
      ok, address, rest := true, 0, grants;
      KmallocLaw(model, size, rest);
      if heap == 0 {
        HeapIsNull();
        if rest == [] {
          ok := false;
          return;
        }
        Grow(size, rest[0], 0);
        rest := rest[1..];
        assert [] + [NewPage(grants[0], size)] == model;
      }
      var found, page, segment, i, j := SearchPages(size);
      if found {
        address := AllocSegment(page, segment, size, i, j);
        return;
      }
      if rest == [] {
        ok := false;
        return;
      }
      Grow(size, rest[0], page);
      ok, address, rest := Kmalloc(size, rest[1..]);
    }

    /** Makes a page and links it in behind the last one, or as the first. */
    method Grow(size: nat, at: nat, tail: nat)
      requires Valid() && tail == (if model == [] then 0 else model[|model| - 1].at)
      requires size < WORD32 && 0 < at && FirstPage(model, size, 0) == |model|
      requires forall i :: 0 <= i < |model| ==> Apart(model[i], NewPage(at, size))
      modifies this
      ensures Valid() && heap != 0 && model == old(model) + [NewPage(at, size)]
      ensures FirstPage(model, size, 0) == |model| - 1
    {
      ghost var h, mem, headers, p := model, segments, pages, NewPage(at, size);
      NewPageFits(at, size);
      FirstPageOfGrown(h, p, size);
      if h != [] {
        assert PageInMemory(headers, h, |h| - 1) && Apart(h[|h| - 1], p);
        SegmentInPage(h[|h| - 1], 0);
        SegmentInPage(p, 0);
      }
      CreateHeapPage(at, size);
      if tail == 0 {
        heap := at;
      } else {
        pages := pages[tail := pages[tail].(next := at)];
      }
      model := h + [p];
      PageLinked(h, p, mem, headers);
      HeapIsNull();
    }
  }
}
