/** The heap on top of the frame allocator: when a page granted by `allocs` is clear of the others. */
module HeapFrames {
  import opened Bits
  import opened Options
  import opened HeapModel
  import F = Frames

  /** The page lies on frames of the region that are marked as taken. */
  ghost predicate Backed(f: F.FrameState, base: nat, p: Page) {
    && base <= p.at && (p.at - base) % FRAME == 0 && 0 < p.frames
    && (p.at - base) / FRAME + p.frames <= |f.used|
    && forall k :: (p.at - base) / FRAME <= k < (p.at - base) / FRAME + p.frames ==> f.used[k]
  }

  ghost predicate AllBacked(f: F.FrameState, base: nat, h: seq<Page>) {
    forall i :: 0 <= i < |h| ==> Backed(f, base, h[i])
  }

  /** Frame k belongs to the page. */
  predicate Owns(base: nat, p: Page, k: nat) {
    base <= p.at && (p.at - base) / FRAME <= k < (p.at - base) / FRAME + p.frames
  }

  lemma GrantFrames(base: nat, s: nat, size: nat)
    ensures (NewPage(base + s * FRAME, size).at - base) / FRAME == s
    ensures (NewPage(base + s * FRAME, size).at - base) % FRAME == 0
  {
  }

  /** Two pages on whole frames are apart exactly when they share no frame. */
  lemma ApartByFrames(base: nat, p: Page, q: Page)
    requires base <= p.at && base <= q.at && (p.at - base) % FRAME == 0 && (q.at - base) % FRAME == 0
    requires 0 < p.frames && 0 < q.frames
    ensures var a, b := (p.at - base) / FRAME, (q.at - base) / FRAME;
            Apart(p, q) <==> (a + p.frames <= b || b + q.frames <= a)
  {
    var a, b := (p.at - base) / FRAME, (q.at - base) / FRAME;
    assert p.at == base + a * FRAME && q.at == base + b * FRAME;
  }

  /** A clean grant is clear of every page of the heap, and all pages stay on taken frames. */
  lemma CleanGrantIsApart(f: F.FrameState, base: nat, h: seq<Page>, size: nat, s: nat)
    requires F.InRange(f) && AllBacked(f, base, h)
    requires var n := NewPage(base + s * FRAME, size).frames;
             0 < n && F.Clean(f, n) && F.AllocsSpec(f, n).1 == Some(s)
    ensures GrantApart(h, size, [base + s * FRAME])
    ensures var p := NewPage(base + s * FRAME, size);
            AllBacked(F.AllocsSpec(f, p.frames).0, base, h + [p])
  {
    var p := NewPage(base + s * FRAME, size);
    GrantFrames(base, s, size);
    F.AllocsLaw(f, p.frames);
    var f' := F.AllocsSpec(f, p.frames).0;
    forall i | 0 <= i < |h|
      ensures Apart(h[i], p)
    {
      ApartByFrames(base, h[i], p);
      NoSharedFrame(f, base, h[i], s, p.frames);
    }
    forall i | 0 <= i < |h + [p]|
      ensures Backed(f', base, (h + [p])[i])
    {
      if i < |h| {
        assert Backed(f, base, h[i]);
      }
    }
  }

  lemma NoSharedFrame(f: F.FrameState, base: nat, p: Page, s: nat, n: nat)
    requires Backed(f, base, p) && 0 < n && F.AllFree(f.used, s, s + n)
    ensures var a := (p.at - base) / FRAME; a + p.frames <= s || s + n <= a
  {
    var a := (p.at - base) / FRAME;
    assert f.used[a] && !f.used[s];
  }

  /** When every taken frame is the heap's, a grant that is not clean lands on one of its pages. */
  lemma UncleanGrantOverlaps(f: F.FrameState, base: nat, h: seq<Page>, size: nat, s: nat)
    requires F.InRange(f) && AllBacked(f, base, h)
    requires forall k :: 0 <= k < |f.used| && f.used[k] ==> exists i :: 0 <= i < |h| && Owns(base, h[i], k)
    requires var n := NewPage(base + s * FRAME, size).frames;
             0 < n && !F.Clean(f, n) && F.AllocsSpec(f, n).1 == Some(s)
    ensures !GrantApart(h, size, [base + s * FRAME])
  {
    var p := NewPage(base + s * FRAME, size);
    GrantFrames(base, s, size);
    F.FindRunLaw(f.used, f.latest, f.latest, f.latest, 0, p.frames);
    assert f.used[s];
    var i :| 0 <= i < |h| && Owns(base, h[i], s);
    assert Backed(f, base, h[i]);
    ApartByFrames(base, h[i], p);
    assert !Apart(h[i], NewPage([base + s * FRAME][0], size));
  }

  /** Two requests of which the first needs a page of several frames, on a heap that is empty and
      frames that are all free: the second page starts on the last or second frame of the first. */
  lemma SecondPageOverlaps(f: F.FrameState, base: nat, size1: nat, size2: nat)
    requires F.InRange(f) && size1 < WORD32 && size2 < WORD32
    requires var n1, n2 := NewPage(0, size1).frames, NewPage(0, size2).frames;
             1 < n1 && F.AllFree(f.used, f.latest, f.latest + n1 + n2)
    ensures var n1, n2 := NewPage(0, size1).frames, NewPage(0, size2).frames;
            var (f1, r1) := F.AllocsSpec(f, n1);
            var (f2, r2) := F.AllocsSpec(f1, n2);
            && r1.Some? && r2.Some?
            && !Apart(NewPage(base + r1.value * FRAME, size1), NewPage(base + r2.value * FRAME, size2))
  {
    var n1, n2 := NewPage(0, size1).frames, NewPage(0, size2).frames;
    NewPageFits(0, size2);
    assert 0 < n2;
    F.AllocsTwiceOverlaps(f, n1, n2);
    var r1 := F.AllocsSpec(f, n1).1.value;
    var r2 := F.AllocsSpec(F.AllocsSpec(f, n1).0, n2).1.value;
    GrantFrames(base, r1, size1);
    GrantFrames(base, r2, size2);
    ApartByFrames(base, NewPage(base + r1 * FRAME, size1), NewPage(base + r2 * FRAME, size2));
  }
}
