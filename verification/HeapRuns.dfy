/** Whole runs of the heap: exactly when an allocation is sound, and that a run of sound steps
    refines a plain ledger of which bytes belong to whom. */
module HeapRuns {
  import opened Common
  import opened HeapModel
  import opened HeapTheorems
  import opened HeapGrowth

  // ---------- one allocation ----------

  /** A header at `a` shares no byte with a block in use. */
  predicate Clear(s: seq<Seg>, a: nat) {
    forall i :: 0 <= i < |s| && !s[i].free ==> !Overlap(s[i].Start(), s[i].want, a, HEADER)
  }

  /** Nor with a listed header. */
  predicate Spare(s: seq<Seg>, a: nat) {
    Clear(s, a) && forall i :: 0 <= i < |s| ==> !Overlap(s[i].addr, HEADER, a, HEADER)
  }

  /** Nor with a listed header, unless it is one. */
  predicate Harmless(s: seq<Seg>, a: nat) {
    Clear(s, a) && forall i :: 0 <= i < |s| ==> s[i].addr == a || !Overlap(s[i].addr, HEADER, a, HEADER)
  }

  /** Behind an unlisted LastSegment: the first listed header on the ladder is that of a segment from which on
      everything is free, and all rungs before it are spare. */
  predicate Climbs(h: Heap, r: nat, k: nat) {
    && Arrives(h, r, k)
    && (forall i :: 0 <= i < k ==> Spare(h.segs, Rung(h, r, i)))
    && forall j :: Find(h.segs, Rung(h, r, k)) <= j < |h.segs| ==> h.segs[j].free
  }

  /** The guard of Allocate(n), read off the heap before the call. */
  ghost predicate Admissible(h: Heap, n: nat)
    requires 0 < n < WORD
  {
    var r := RoundUp(n, 64);
    var i := FirstFit(h.segs, r);
    if i < |h.segs| then FitsCleanly(h.segs[i].size, r)
    else if LastListed(h) then
      r != 0 && Grows(h, r) && NothingCutOff(h.segs, Find(h.segs, h.last))
    else
      r != 0 && exists k :: Climbs(h, r, k)
  }

  /** The allocation did what a caller relies on: there is a result, the heap is well formed, the block handed
      out was nobody's, apart from it the live blocks are the same, and no header that was touched on the way,
      listed or not, has a byte in common with any of them or, unless it is one, with a listed header. */
  ghost predicate Served(h: Heap, n: nat)
    requires 0 < n < WORD
  {
    && Allocate(h, n).Some?
    && Serves(h, n, Allocate(h, n).value.0, Allocate(h, n).value.1)
    && forall a :: a in Touched(h, n) ==> Harmless(Allocate(h, n).value.0.segs, a)
  }

  ghost predicate Serves(h: Heap, n: nat, h': Heap, p: nat) {
    && Layout(h'.segs)
    && Live(h'.segs) == Live(h.segs) + {(p, n)}
    && forall m: nat :: (p, m) !in Live(h.segs)
  }

  lemma ListedHarmless(s: seq<Seg>, j: nat)
    requires Layout(s) && j < |s|
    ensures Harmless(s, s[j].addr)
  {
    forall i | 0 <= i < |s| && !s[i].free ensures !Overlap(s[i].Start(), s[i].want, s[j].addr, HEADER) {
      LiveBlocksDisjoint(s, i, j);
    }
    forall i | 0 <= i < |s| ensures s[i].addr == s[j].addr || !Overlap(s[i].addr, HEADER, s[j].addr, HEADER) {
      if i < j { Ordered(s, i, j); assert SegOk(s, i); }
      if j < i { Ordered(s, j, i); assert SegOk(s, j); }
    }
  }

  lemma FreshStart(s: seq<Seg>, i: nat, m: nat)
    requires Layout(s) && i < |s| && s[i].free
    ensures (s[i].Start(), m) !in Live(s)
  {
    if (s[i].Start(), m) in Live(s) {
      var j :| 0 <= j < |s| && !s[j].free && (s[i].Start(), m) == (s[j].Start(), s[j].want);
      LiveBlocksDisjoint(s, j, i);
    }
  }

  /** Null is no block. */
  lemma NullServesNobody(h: Heap, n: nat, h': Heap)
    ensures !Serves(h, n, h', 0)
  {
    assert (0, n) !in Live(h'.segs);
    assert (0, n) in Live(h.segs) + {(0, n)};
  }

  /** Taking the last segment of a list with the same live blocks, when it fits cleanly. */
  lemma TakeServes(h: Heap, h1: Heap, k: nat, r: nat, n: nat)
    requires Layout(h1.segs) && Live(h1.segs) == Live(h.segs) && k < |h1.segs| && h1.segs[k].free
    requires 0 < n < r && HEADER < r && FitsCleanly(h1.segs[k].size, r)
    ensures Serves(h, n, Place(h1, k, r, n), h1.segs[k].Start())
  {
    PlaceClean(h1, k, r, n);
    forall m: nat ensures (h1.segs[k].Start(), m) !in Live(h.segs) { FreshStart(h1.segs, k, m); }
  }

  /** The converse: if the caller is served, the live blocks were those of the list the segment was taken from. */
  lemma TakeUndone(h: Heap, h1: Heap, k: nat, r: nat, n: nat)
    requires Layout(h1.segs) && k < |h1.segs| && h1.segs[k].free
    requires 0 < n < r && HEADER < r && FitsCleanly(h1.segs[k].size, r)
    requires Serves(h, n, Place(h1, k, r, n), h1.segs[k].Start())
    ensures Live(h1.segs) == Live(h.segs)
  {
    PlaceClean(h1, k, r, n);
    FreshStart(h1.segs, k, n);
    var block := (h1.segs[k].Start(), n);
    var t' := Live(Place(h1, k, r, n).segs);
    assert Live(h1.segs) == t' - {block} == Live(h.segs);
  }

  /** If taking the new tail gives a well-formed list, the list was well formed before. */
  lemma GrownPrefix(h1: Heap, r1: nat, n: nat)
    requires |h1.segs| > 0
    requires var x := h1.segs[|h1.segs| - 1];
             x.free && HEADER < r1 && x.size < WORD && x.addr < WORD && FitsCleanly(x.size, r1)
    requires Layout(Place(h1, |h1.segs| - 1, r1, n).segs)
    ensures Layout(h1.segs)
  {
    var k := |h1.segs| - 1;
    var t, t' := h1.segs, Place(h1, k, r1, n).segs;
    PlaceBefore(h1, k, r1, n);
    GrownTail(h1, r1, n);
    hide Place, FitsCleanly;
    forall j | 0 <= j < k ensures SegOk(t, j) {
      assert SegOk(t', j);
    }
  }

  lemma PlaceBefore(h: Heap, i: nat, r: nat, n: nat)
    requires i < |h.segs|
    ensures var t := Place(h, i, r, n).segs;
            |t| > i && t[i].addr == h.segs[i].addr && forall j :: 0 <= j < i ==> t[j] == h.segs[j]
  {
  }

  lemma GrownTail(h1: Heap, r1: nat, n: nat)
    requires |h1.segs| > 0
    requires var x := h1.segs[|h1.segs| - 1];
             x.free && HEADER < r1 && x.size < WORD && x.addr < WORD && FitsCleanly(x.size, r1)
    requires Layout(Place(h1, |h1.segs| - 1, r1, n).segs)
    ensures SegOk(h1.segs, |h1.segs| - 1)
  {
    var k := |h1.segs| - 1;
    var t' := Place(h1, k, r1, n).segs;
    assert SegOk(t', k);
    if |t'| == k + 2 { assert SegOk(t', k + 1); }
  }

  /** With no fit and LastSegment listed: the new segment serves the caller exactly when it cuts nothing off. */
  lemma GrownServesIff(h: Heap, n: nat)
    requires Layout(h.segs) && 0 < n < WORD && LastListed(h) && RoundUp(n, 64) != 0 && Grows(h, RoundUp(n, 64))
    requires FirstFit(h.segs, RoundUp(n, 64)) == |h.segs|
    ensures Served(h, n) <==> NothingCutOff(h.segs, Find(h.segs, h.last))
  {
    var r := RoundUp(n, 64);
    var h1, r1 := Reserve(h, r), RoundUp(r, 64);
    var k := |h1.segs| - 1;
    GrowsNumbers(h, n);
    RetryFits(h, n, n);
    TailShape(h, r);
    hide RoundUp, Reserve, FirstFit, Place, Layout, Live, AllocateFor;
    assert Allocate(h, n) == Some((Place(h1, k, r1, n), h1.segs[k].Start()));
    if NothingCutOff(h.segs, Find(h.segs, h.last)) {
      ReserveClean(h, r);
      TakeServes(h, h1, k, r1, n);
      GrownTouches(h, n, h1, Place(h1, k, r1, n).segs);
    }
    if Served(h, n) {
      GrownPrefix(h1, r1, n);
      TakeUndone(h, h1, k, r1, n);
      ReserveSafeIff(h, r);
    }
  }

  /** Growing touches the header of LastSegment and the new one, which are listed. */
  lemma GrownTouches(h: Heap, n: nat, h1: Heap, t: seq<Seg>)
    requires LastListed(h) && 0 < n < WORD && RoundUp(n, 64) != 0 && Grows(h, RoundUp(n, 64))
    requires FirstFit(h.segs, RoundUp(n, 64)) == |h.segs| && h1 == Reserve(h, RoundUp(n, 64))
    requires Layout(t) && |t| >= |h1.segs| && forall i :: 0 <= i < |h1.segs| ==> t[i].addr == h1.segs[i].addr
    ensures forall a :: a in Touched(h, n) ==> Harmless(t, a)
  {
    var r := RoundUp(n, 64);
    var k := Find(h.segs, h.last);
    TouchedOnce(h, n);
    TailShape(h, r);
    GrowsNumbers(h, n);
    hide RoundUp, FirstFit, Wrap, LastEnd, Grows, AllocateFor, Layout, Harmless, Touched, FitsCleanly;
    assert h1.segs[k].addr == h1.segs[..k + 1][k].addr == h.last;
    ListedHarmless(t, k);
    ListedHarmless(t, k + 1);
  }

  lemma TouchedOnce(h: Heap, n: nat)
    requires LastListed(h) && 0 < n < WORD && RoundUp(n, 64) != 0 && Grows(h, RoundUp(n, 64))
    requires FirstFit(h.segs, RoundUp(n, 64)) == |h.segs|
    ensures Touched(h, n) == {h.last, LastEnd(h)}
  {
    var r := RoundUp(n, 64);
    RetryFits(h, n, n);
    GrowsNumbers(h, n);
    hide RoundUp, FirstFit, Wrap, LastEnd, Grows, AllocateFor, Reserve, LastListed;
    assert Touched(Reserve(h, r), r) == {};
  }

  lemma TailShape(h: Heap, r: nat)
    requires LastListed(h) && Grows(h, r)
    ensures var h1 := Reserve(h, r);
            && |h1.segs| == Find(h.segs, h.last) + 2 && h1.splits == h.splits
            && h1.segs[..Find(h.segs, h.last) + 1] == h.segs[..Find(h.segs, h.last) + 1]
            && h1.segs[|h1.segs| - 1] == Seg(Wrap(LastEnd(h)), RoundUp(r, 4096), true, 0)
            && Wrap(LastEnd(h)) < WORD && RoundUp(r, 4096) < WORD
    ensures HasRoom(h.segs, Find(h.segs, h.last), r)
  {
  }

  /** With no fit and LastSegment not listed: the caller is served exactly when the ladder is climbed. */
  lemma StaleServesIff(h: Heap, n: nat)
    requires Layout(h.segs) && 0 < n < WORD && !LastListed(h) && RoundUp(n, 64) != 0
    requires FirstFit(h.segs, RoundUp(n, 64)) == |h.segs|
    ensures Served(h, n) <==> exists k :: Climbs(h, RoundUp(n, 64), k)
  {
    var r := RoundUp(n, 64);
    if k :| Arrives(h, r, k) {
      ArrivedServesIff(h, n, k);
      forall k' | Arrives(h, r, k') ensures k' == k { OneArrival(h, r, k, k'); }
      hide Served, Arrives;
    } else {
      NeverArriving(h, n, n);
    }
  }

  lemma OneArrival(h: Heap, r: nat, k: nat, k': nat)
    requires Arrives(h, r, k) && Arrives(h, r, k')
    ensures k == k'
  {
    hide Rung, Find, Room;
  }

  lemma ArrivedServesIff(h: Heap, n: nat, k: nat)
    requires Layout(h.segs) && 0 < n < WORD && !LastListed(h) && RoundUp(n, 64) != 0
    requires FirstFit(h.segs, RoundUp(n, 64)) == |h.segs| && Arrives(h, RoundUp(n, 64), k)
    ensures Served(h, n) <==> Climbs(h, RoundUp(n, 64), k)
  {
    hide *;
    var h1, r1 := ArrivingAllocates(h, n, n, k);
    var r := RoundUp(n, 64);
    var t, p := LandedGrant(h, n, Find(h.segs, Rung(h, r, k)), Supply(r, k), h1, r1);
    ServedIff(h, n, t, p);
    ClimbsIff(h, r, k, n, t, p);
  }

  lemma ClimbsIff(h: Heap, r: nat, k: nat, n: nat, t: Heap, p: nat)
    requires Layout(h.segs) && Arrives(h, r, k) && !LastListed(h)
    requires var j := Find(h.segs, Rung(h, r, k));
             && p == h.segs[j].Start() && |t.segs| > j && t.segs[..j] == h.segs[..j] && t.segs[j].addr == h.segs[j].addr
             && (Serves(h, n, t, p) <==> forall i :: j <= i < |h.segs| ==> h.segs[i].free)
    ensures Climbs(h, r, k) <==> Serves(h, n, t, p) && forall a :: a in Rungs(h, r, k) ==> Harmless(t.segs, a)
  {
    hide Layout, Live, Find, LastListed, Arrives, Harmless, Spare;
    if Serves(h, n, t, p) {
      assert Landing(h, r, k, t.segs, p, n);
      RungsHarmlessIff(h, r, k, t.segs, p, n);
      if Climbs(h, r, k) {
        assert forall i :: 0 <= i < k ==> Spare(h.segs, Rung(h, r, i));
        assert forall a :: a in Rungs(h, r, k) ==> Harmless(t.segs, a);
      }
      if forall a :: a in Rungs(h, r, k) ==> Harmless(t.segs, a) {
        assert forall i :: 0 <= i < k ==> Spare(h.segs, Rung(h, r, i));
        assert Climbs(h, r, k);
      }
    } else {
      assert !Climbs(h, r, k);
    }
  }

  lemma LandedGrant(h: Heap, n: nat, j: nat, supply: nat, h1: Heap, r1: nat) returns (t: Heap, p: nat)
    requires Layout(h.segs) && 0 < n && Landed(h, n, j, supply, h1, r1)
    ensures (t, p) == Grant(h1, r1, n) && p == h.segs[j].Start()
    ensures |t.segs| > j && t.segs[..j] == h.segs[..j] && t.segs[j].addr == h.segs[j].addr
    ensures Serves(h, n, t, p) <==> forall i :: j <= i < |h.segs| ==> h.segs[i].free
  {
    t, p := Place(h1, j, r1, n), h1.segs[j].Start();
    PlaceBefore(h1, j, r1, n);
    LandedServesIff(h, h1, j, supply, r1, n);
    hide Layout, Serves, Place, FirstFit;
    assert forall i :: 0 <= i < j ==> t.segs[i] == h1.segs[i] == h1.segs[..j][i] == h.segs[..j][i];
  }

  lemma ServedIff(h: Heap, n: nat, h': Heap, p: nat)
    requires 0 < n < WORD && AllocateFor(h, n, n) == Some((h', p))
    ensures Served(h, n) <==> Serves(h, n, h', p) && forall a :: a in Touched(h, n) ==> Harmless(h'.segs, a)
  {
    hide AllocateFor, Serves, Harmless, Touched;
  }

  /** The new list after landing, as far as the ladder is concerned. */
  ghost predicate Landing(h: Heap, r: nat, k: nat, t: seq<Seg>, p: nat, n: nat) {
    var j := Find(h.segs, Rung(h, r, k));
    && Layout(h.segs) && Arrives(h, r, k) && !LastListed(h)
    && |t| > j && t[..j] == h.segs[..j] && t[j].addr == h.segs[j].addr && p == h.segs[j].Start()
    && Layout(t) && Live(t) == Live(h.segs) + {(p, n)}
  }

  /** The rungs before the landing lie below it, so they are harmless to the new list exactly when they are
      spare in the old one; the landing itself is listed. */
  lemma RungsHarmlessIff(h: Heap, r: nat, k: nat, t: seq<Seg>, p: nat, n: nat)
    requires Landing(h, r, k, t, p, n)
    ensures (forall a :: a in Rungs(h, r, k) ==> Harmless(t, a)) <==> forall i :: 0 <= i < k ==> Spare(h.segs, Rung(h, r, i))
  {
    if forall a :: a in Rungs(h, r, k) ==> Harmless(t, a) {
      forall i | 0 <= i < k ensures Spare(h.segs, Rung(h, r, i)) {
        RungIn(h, r, k, i);
        OneRungIff(h, r, k, t, p, n, i);
      }
    } else {
      var a :| a in Rungs(h, r, k) && !Harmless(t, a);
      var i := RungOf(h, r, k, a);
      if i == k { ListedHarmless(t, Find(h.segs, Rung(h, r, k))); }
      OneRungIff(h, r, k, t, p, n, i);
    }
  }

  lemma OneRungIff(h: Heap, r: nat, k: nat, t: seq<Seg>, p: nat, n: nat, i: nat)
    requires Landing(h, r, k, t, p, n) && i < k
    ensures Harmless(t, Rung(h, r, i)) <==> Spare(h.segs, Rung(h, r, i))
  {
    RungsAscend(h, r, i, k);
    FirstRungs(h, r);
    hide Rung, Harmless, Spare, Layout, Live, Room;
    assert Find(h.segs, Rung(h, r, i)) == |h.segs|;
    RungHarmlessIff(h.segs, t, Find(h.segs, Rung(h, r, k)), p, n, Rung(h, r, i));
  }

  lemma RungHarmlessIff(s: seq<Seg>, t: seq<Seg>, j: nat, p: nat, n: nat, a: nat)
    requires Layout(s) && Layout(t) && j < |s| && j < |t| && t[..j] == s[..j] && t[j].addr == s[j].addr && p == s[j].Start()
    requires Live(t) == Live(s) + {(p, n)} && a + HEADER <= s[j].addr && Find(s, a) == |s|
    ensures Harmless(t, a) <==> Spare(s, a)
  {
    ClearIff(s, a);
    ClearIff(t, a);
    assert !Overlap(p, n, a, HEADER);
    hide Live, Clear;
    forall i | 0 <= i < j ensures s[i] == t[i] { assert s[i] == s[..j][i] == t[..j][i]; }
    forall i | j <= i < |s| ensures !Overlap(s[i].addr, HEADER, a, HEADER) { if j < i { Ordered(s, j, i); assert SegOk(s, j); } }
    forall i | j <= i < |t| ensures !Overlap(t[i].addr, HEADER, a, HEADER) { if j < i { Ordered(t, j, i); assert SegOk(t, j); } }
    assert forall i :: 0 <= i < |s| ==> s[i].addr != a;
    hide Layout;
  }

  lemma ClearIff(s: seq<Seg>, a: nat)
    ensures Clear(s, a) <==> forall b :: b in Live(s) ==> !Overlap(b.0, b.1, a, HEADER)
  {
    if forall b :: b in Live(s) ==> !Overlap(b.0, b.1, a, HEADER) {
      forall i | 0 <= i < |s| && !s[i].free ensures !Overlap(s[i].Start(), s[i].want, a, HEADER) {
        assert (s[i].Start(), s[i].want) in Live(s);
      }
    }
  }

  lemma LandedServesIff(h: Heap, h1: Heap, j: nat, supply: nat, r1: nat, n: nat)
    requires Layout(h.segs) && 0 < n && Landed(h, n, j, supply, h1, r1)
    ensures Serves(h, n, Place(h1, j, r1, n), h1.segs[j].Start()) <==> forall i :: j <= i < |h.segs| ==> h.segs[i].free
  {
    hide Layout, Live, FirstFit, Place, Serves;
    LandedLayout(h.segs, h1.segs, j);
    LandedLive(h.segs, h1.segs, j);
    if Live(h1.segs) == Live(h.segs) {
      TakeServes(h, h1, j, r1, n);
    } else if Serves(h, n, Place(h1, j, r1, n), h1.segs[j].Start()) {
      TakeUndone(h, h1, j, r1, n);
    }
  }

  lemma LandedLayout(s: seq<Seg>, t: seq<Seg>, j: nat)
    requires Layout(s) && j < |s| && |t| == j + 1 && t[..j] == s[..j]
    requires t[j].addr == s[j].addr && t[j].free && t[j].End() <= WORD
    ensures Layout(t)
  {
    assert forall i :: 0 <= i < j ==> t[i] == t[..j][i] == s[i];
    forall i | 0 <= i < |t| ensures SegOk(t, i) { assert SegOk(s, i); }
  }

  lemma LandedLive(s: seq<Seg>, t: seq<Seg>, j: nat)
    requires Layout(s) && j < |s| && |t| == j + 1 && t[..j] == s[..j] && t[j].free
    ensures Live(t) == Live(s) <==> forall i :: j <= i < |s| ==> s[i].free
  {
    assert forall i :: 0 <= i < j ==> t[i] == t[..j][i] == s[i];
    forall x | x in Live(t) ensures x in Live(s) {
      var i :| 0 <= i < |t| && !t[i].free && x == (t[i].Start(), t[i].want);
      assert s[i] == t[i];
    }
    if forall i :: j <= i < |s| ==> s[i].free {
      forall x | x in Live(s) ensures x in Live(t) {
        var i :| 0 <= i < |s| && !s[i].free && x == (s[i].Start(), s[i].want);
        assert s[i] == t[i];
      }
    }
    if Live(t) == Live(s) {
      forall i | j <= i < |s| ensures s[i].free {
        if !s[i].free {
          assert (s[i].Start(), s[i].want) in Live(t);
          var m :| 0 <= m < |t| && !t[m].free && (s[i].Start(), s[i].want) == (t[m].Start(), t[m].want);
          LiveBlocksDisjoint(s, i, m);
        }
      }
    }
  }

  /** Main result for a single call, for every well-formed heap: Allocate serves its caller exactly when the
      first fit is exact or has a header to spare; with no fit and LastSegment listed, when there is room behind
      it and nothing in use is cut off there; and with LastSegment not listed, when the attempts happen to
      overwrite a listed header behind which nothing is in use, and no header they touch before lies in a block
      in use or partly over a listed header. */
  lemma AllocateSafeIff(h: Heap, n: nat)
    requires Layout(h.segs) && 0 < n < WORD
    ensures Served(h, n) <==> Admissible(h, n)
  {
    var r := RoundUp(n, 64);
    var i := FirstFit(h.segs, r);
    if i == |h.segs| {
      NoFitSafeIff(h, n);
    } else {
      PlaceSafeIff(h, i, n);
      Rounded(n);
      if FitsCleanly(h.segs[i].size, r) {
        assert r % 64 == 0;
        TakeServes(h, h, i, r, n);
        assert Touched(h, n) == {};
      }
    }
  }

  lemma AdmissibleLayout(h: Heap, n: nat)
    requires Layout(h.segs) && 0 < n < WORD && Admissible(h, n)
    ensures Allocate(h, n).Some? && Layout(Allocate(h, n).value.0.segs)
  {
    AllocateSafeIff(h, n);
  }

  lemma NoFitSafeIff(h: Heap, n: nat)
    requires Layout(h.segs) && 0 < n < WORD && FirstFit(h.segs, RoundUp(n, 64)) == |h.segs|
    ensures Served(h, n) <==> Admissible(h, n)
  {
    var r := RoundUp(n, 64);
    if r == 0 {
      NullServesNobody(h, n, Reserve(h, r));
      assert AllocateFor(Reserve(h, r), r, n) == Some((Reserve(h, r), 0));
      assert Allocate(h, n) == if Grows(h, r) then Some((Reserve(h, r), 0)) else None;
      hide Serves, Reserve, AllocateFor, FirstFit;
      assert !Served(h, n);
    } else if !LastListed(h) {
      StaleServesIff(h, n);
    } else if Grows(h, r) {
      GrownServesIff(h, n);
    }
  }

  // ---------- one release ----------

  predicate LiveAt(s: seq<Seg>, a: nat) {
    a >= HEADER && Find(s, a - HEADER) < |s| && !s[Find(s, a - HEADER)].free
  }

  /** Setting one free flag takes one block off the live set and changes nothing else. */
  lemma Released(s: seq<Seg>, i: nat, t: seq<Seg>)
    requires Layout(s) && i < |s| && !s[i].free && t == s[i := s[i].(free := true)]
    ensures Layout(t) && Live(t) == Live(s) - {(s[i].Start(), s[i].want)}
    ensures Total(t) == Total(s)
  {
    forall j | 0 <= j < |t| ensures SegOk(t, j) { assert SegOk(s, j); }
    forall x | x in Live(s) && x != (s[i].Start(), s[i].want) ensures x in Live(t) {
      var j :| 0 <= j < |s| && !s[j].free && x == (s[j].Start(), s[j].want);
      assert t[j] == s[j];
    }
    forall x | x in Live(t) ensures x in Live(s) && x != (s[i].Start(), s[i].want) {
      var j :| 0 <= j < |t| && !t[j].free && x == (t[j].Start(), t[j].want);
      assert t[j] == s[j];
      LiveBlocksDisjoint(s, j, i);
    }
    TotalSplice(s, i, [t[i]]);
    assert t == s[..i] + [t[i]] + s[i + 1..];
    assert Total([t[i]]) == t[i].size + HEADER;
  }

  /** Free keeps the layout and takes exactly the freed block off the live set. */
  lemma FreeKeeps(h: Heap, a: nat)
    requires Layout(h.segs) && LiveAt(h.segs, a)
    ensures Layout(Free(h, a).segs) && Free(h, a).segs[0].addr == h.segs[0].addr
    ensures Live(Free(h, a).segs) == Live(h.segs) - {(a, h.segs[Find(h.segs, a - HEADER)].want)}
    ensures Ledger(Free(h, a)) == Ledger(h)
  {
    var i, s := Find(h.segs, a - HEADER), h.segs;
    var t := s[i := s[i].(free := true)];
    Released(s, i, t);
    CoalesceKeeps(t);
    CoalesceTotal(t);
    TotalIsBytes(s);
    TotalIsBytes(Coalesce(t));
  }

  // ---------- the ledger ----------

  /** Allocate leaves the ledger alone, unless it had to grow the arena: then what is cut off behind the new segment
      goes out, headers included, and that segment and its header come in. */
  lemma AllocateLedger(h: Heap, n: nat) returns (kept: nat, supply: nat)
    requires Layout(h.segs) && 0 < n < WORD && Admissible(h, n)
    ensures Allocate(h, n).Some? && kept <= |h.segs|
    ensures var r, s, new_ := RoundUp(n, 64), h.segs, Allocate(h, n).value.0;
            if FirstFit(s, r) < |s| then
              Ledger(new_) == Ledger(h)
            else
              && Ledger(new_) + Total(s[kept..]) == Ledger(h) + HEADER + supply
              && (LastListed(h) ==> kept == Find(s, h.last) + 1 && supply == RoundUp(r, 4096))
              && (!LastListed(h) ==> exists k :: Climbs(h, r, k) && kept == Find(s, Rung(h, r, k)) && supply == Supply(r, k))
  {
    var r := RoundUp(n, 64);
    var i := FirstFit(h.segs, r);
    kept, supply := |h.segs|, 0;
    if i < |h.segs| {
      Rounded(n);
      PlaceLedger(h, i, r, n);
    } else if LastListed(h) {
      kept, supply := Find(h.segs, h.last) + 1, RoundUp(r, 4096);
      GrownLedger(h, n);
    } else {
      var k :| Climbs(h, r, k);
      kept, supply := Find(h.segs, Rung(h, r, k)), Supply(r, k);
      ClimbedLedger(h, n, k);
    }
  }

  lemma GrownLedger(h: Heap, n: nat)
    requires Layout(h.segs) && 0 < n < WORD && LastListed(h) && RoundUp(n, 64) != 0 && Grows(h, RoundUp(n, 64))
    requires FirstFit(h.segs, RoundUp(n, 64)) == |h.segs| && NothingCutOff(h.segs, Find(h.segs, h.last))
    ensures var r := RoundUp(n, 64);
            && Allocate(h, n).Some?
            && Ledger(Allocate(h, n).value.0) + Total(h.segs[Find(h.segs, h.last) + 1..]) == Ledger(h) + HEADER + RoundUp(r, 4096)
  {
    var r := RoundUp(n, 64);
    var h1 := Reserve(h, r);
    GrowsNumbers(h, n);
    RetryFits(h, n, n);
    TailShape(h, r);
    ReserveClean(h, r);
    hide FitsCleanly, RoundUp, Wrap, Reserve, Ledger, Place, AllocateFor, Layout, Live, Total;
    CutLedger(h, h1, Find(h.segs, h.last) + 1, RoundUp(r, 4096));
    PlaceLedger(h1, |h1.segs| - 1, RoundUp(r, 64), n);
  }

  lemma ClimbedLedger(h: Heap, n: nat, k: nat)
    requires Layout(h.segs) && 0 < n < WORD && !LastListed(h) && RoundUp(n, 64) != 0
    requires FirstFit(h.segs, RoundUp(n, 64)) == |h.segs| && Climbs(h, RoundUp(n, 64), k)
    ensures var r := RoundUp(n, 64);
            && k > 0 && Allocate(h, n).Some?
            && Ledger(Allocate(h, n).value.0) + Total(h.segs[Find(h.segs, Rung(h, r, k))..])
               == Ledger(h) + HEADER + Supply(r, k)
  {
    var r := RoundUp(n, 64);
    var j, supply := Find(h.segs, Rung(h, r, k)), Supply(r, k);
    hide RoundUp, Reserve, Ledger, Place, AllocateFor, Layout, Find, Total, FirstFit, Rung, Supply, LastListed, Touched;
    var h1, r1 := ArrivingAllocates(h, n, n, k);
    LandedLedger(h, n, j, supply, h1, r1);
  }

  lemma LandedLedger(h: Heap, n: nat, j: nat, supply: nat, h1: Heap, r1: nat)
    requires Layout(h.segs) && 0 < n && Landed(h, n, j, supply, h1, r1)
    ensures Ledger(Grant(h1, r1, n).0) + Total(h.segs[j..]) == Ledger(h) + HEADER + supply
  {
    hide Ledger, Place, Layout, Total, FirstFit;
    LandedLayout(h.segs, h1.segs, j);
    CutLedger(h, h1, j, supply);
    PlaceLedger(h1, j, r1, n);
  }

  /** The list cut off at `j` and continued with a segment of `supply` bytes. */
  lemma CutLedger(h: Heap, h1: Heap, j: nat, supply: nat)
    requires j <= |h.segs| && |h1.segs| == j + 1 && h1.segs[..j] == h.segs[..j] && h1.segs[j].size == supply
    requires h1.splits == h.splits
    ensures Ledger(h1) + Total(h.segs[j..]) == Ledger(h) + HEADER + supply
  {
    TotalIsBytes(h.segs);
    TotalIsBytes(h1.segs);
    assert h.segs == h.segs[..j] + h.segs[j..] && h1.segs == h.segs[..j] + [h1.segs[j]];
    TotalConcat(h.segs[..j], h.segs[j..]);
    TotalConcat(h.segs[..j], [h1.segs[j]]);
    assert Total([h1.segs[j]]) == supply + HEADER;
  }

  /** What GetUsedSize answers goes up by the size of the segment that is handed out. */
  lemma AllocateUsed(h: Heap, n: nat) returns (j: nat)
    requires Layout(h.segs) && 0 < n < WORD && Admissible(h, n)
    ensures Allocate(h, n).Some?
    ensures var t, p := Allocate(h, n).value.0.segs, Allocate(h, n).value.1;
            && j < |t| && !t[j].free && t[j].Start() == p && t[j].want == n
            && Bytes(t, false) == Bytes(h.segs, false) + t[j].size
  {
    var r := RoundUp(n, 64);
    j := FirstFit(h.segs, r);
    if j < |h.segs| {
      Rounded(n);
      TakenUsed(h, h.segs, j, r, n);
    } else if LastListed(h) {
      j := Find(h.segs, h.last) + 1;
      GrownUsed(h, n);
    } else {
      var k :| Climbs(h, r, k);
      j := Find(h.segs, Rung(h, r, k));
      var h1, r1 := ArrivingAllocates(h, n, n, k);
      LandedUsed(h, n, j, Supply(r, k), h1, r1);
    }
  }

  lemma TakenUsed(h: Heap, s: seq<Seg>, j: nat, r: nat, n: nat)
    requires Layout(h.segs) && j < |h.segs| && h.segs[j].free && HEADER < r && FitsCleanly(h.segs[j].size, r)
    requires Bytes(h.segs, false) == Bytes(s, false)
    ensures var t := Place(h, j, r, n).segs;
            && j < |t| && t[j].addr == h.segs[j].addr && !t[j].free && t[j].want == n
            && Bytes(t, false) == Bytes(s, false) + t[j].size
  {
    assert SegOk(h.segs, j);
    PlaceUsed(h, j, r, n);
  }

  lemma GrownUsed(h: Heap, n: nat)
    requires Layout(h.segs) && 0 < n < WORD && LastListed(h) && RoundUp(n, 64) != 0 && Grows(h, RoundUp(n, 64))
    requires FirstFit(h.segs, RoundUp(n, 64)) == |h.segs| && NothingCutOff(h.segs, Find(h.segs, h.last))
    ensures Allocate(h, n).Some?
    ensures var t, p, j := Allocate(h, n).value.0.segs, Allocate(h, n).value.1, Find(h.segs, h.last) + 1;
            && j < |t| && !t[j].free && t[j].Start() == p && t[j].want == n
            && Bytes(t, false) == Bytes(h.segs, false) + t[j].size
  {
    var r := RoundUp(n, 64);
    var h1, j := Reserve(h, r), Find(h.segs, h.last) + 1;
    GrowsNumbers(h, n);
    RetryFits(h, n, n);
    TailShape(h, r);
    ReserveClean(h, r);
    hide FitsCleanly, RoundUp, Wrap, Reserve, Place, AllocateFor, Layout, Live, Bytes;
    CutUsed(h.segs, h1.segs, j);
    TakenUsed(h1, h.segs, j, RoundUp(r, 64), n);
  }

  lemma LandedUsed(h: Heap, n: nat, j: nat, supply: nat, h1: Heap, r1: nat)
    requires Layout(h.segs) && 0 < n && Landed(h, n, j, supply, h1, r1) && forall i :: j <= i < |h.segs| ==> h.segs[i].free
    ensures var (h', p) := Grant(h1, r1, n);
            var t := h'.segs;
            && j < |t| && !t[j].free && t[j].Start() == p && t[j].want == n
            && Bytes(t, false) == Bytes(h.segs, false) + t[j].size
  {
    hide Place, Layout, Bytes, FirstFit;
    LandedLayout(h.segs, h1.segs, j);
    CutUsed(h.segs, h1.segs, j);
    TakenUsed(h1, h.segs, j, r1, n);
  }

  /** And down by the size of the segment that is given back. */
  lemma FreeUsed(h: Heap, a: nat)
    requires Layout(h.segs) && LiveAt(h.segs, a)
    ensures Bytes(Free(h, a).segs, false) == Bytes(h.segs, false) - h.segs[Find(h.segs, a - HEADER)].size
  {
    var i, s := Find(h.segs, a - HEADER), h.segs;
    var x := s[i].(free := true);
    CoalesceUsed(s[i := x]);
    hide Coalesce, Bytes, Find;
    BytesSplice(s, i, [x], false);
    BytesOne(x, false);
    assert s[i := x] == s[..i] + [x] + s[i + 1..];
  }

  // ---------- runs ----------

  /** An admissible call returns, whether the heap is well formed or not. */
  lemma AdmissibleReturns(h: Heap, n: nat)
    requires 0 < n < WORD && Admissible(h, n)
    ensures Allocate(h, n).Some?
  {
    var r := RoundUp(n, 64);
    if FirstFit(h.segs, r) == |h.segs| {
      if LastListed(h) {
        RetryFits(h, n, n);
      } else {
        var k :| Climbs(h, r, k);
        var h1, r1 := ArrivingAllocates(h, n, n, k);
      }
    }
  }

  /** Besides the two calls: while the header LastSegment points at is unlisted and lies in a block in use, or partly
      under a listed header, what is written there may change the size it is taken to hold. */
  datatype Op = Get(n: nat) | Put(a: nat) | Overwrite(size: nat)

  ghost predicate CanStep(h: Heap, op: Op) {
    match op
    case Get(n) => n == 0 || (n < WORD && Admissible(h, n))
    case Put(a) => LiveAt(h.segs, a)
    case Overwrite(size) => size < WORD && !LastListed(h) && !Spare(h.segs, h.last)
  }

  function Step(h: Heap, op: Op): Heap
    requires CanStep(h, op)
  {
    match op
    case Get(n) =>
      if n > 0 then AdmissibleReturns(h, n); Allocate(h, n).value.0 else h
    case Put(a) => Free(h, a)
    case Overwrite(size) => h.(stale := size)
  }

  /** Who owns which bytes, kept by an outside observer of the calls. */
  function Book(books: set<(nat, nat)>, h: Heap, op: Op): set<(nat, nat)>
    requires CanStep(h, op)
  {
    match op
    case Get(n) =>
      if n > 0 then AdmissibleReturns(h, n); books + {(Allocate(h, n).value.1, n)} else books
    case Put(a) => set b | b in books && b.0 != a
    case Overwrite(size) => books
  }

  ghost predicate CanRun(h: Heap, ops: seq<Op>)
    decreases |ops|
  {
    ops == [] || (CanStep(h, ops[0]) && CanRun(Step(h, ops[0]), ops[1..]))
  }

  function Run(h: Heap, ops: seq<Op>): Heap
    requires CanRun(h, ops)
    decreases |ops|
  {
    if ops == [] then h else Run(Step(h, ops[0]), ops[1..])
  }

  function Books(books: set<(nat, nat)>, h: Heap, ops: seq<Op>): set<(nat, nat)>
    requires CanRun(h, ops)
    decreases |ops|
  {
    if ops == [] then books else Books(Book(books, h, ops[0]), Step(h, ops[0]), ops[1..])
  }

  lemma StepKeeps(h: Heap, op: Op)
    requires Layout(h.segs) && CanStep(h, op)
    ensures Layout(Step(h, op).segs)
    ensures Live(Step(h, op).segs) == Book(Live(h.segs), h, op)
  {
    hide Layout, Live, Coalesce, AllocateFor, FirstFit, RoundUp;
    match op {
      case Get(n) =>
        if n > 0 { AllocateSafeIff(h, n); }
      case Put(a) =>
        FreeKeeps(h, a);
        OneBlockAt(h.segs, Find(h.segs, a - HEADER));
      case Overwrite(size) =>
    }
  }

  /** No two live blocks start at the same address. */
  lemma OneBlockAt(s: seq<Seg>, i: nat)
    requires Layout(s) && i < |s| && !s[i].free
    ensures forall b :: b in Live(s) && b.0 == s[i].Start() ==> b == (s[i].Start(), s[i].want)
    ensures Live(s) - {(s[i].Start(), s[i].want)} == set b | b in Live(s) && b.0 != s[i].Start()
  {
    forall b | b in Live(s) && b.0 == s[i].Start() ensures b == (s[i].Start(), s[i].want) {
      var j :| 0 <= j < |s| && !s[j].free && b == (s[j].Start(), s[j].want);
      LiveBlocksDisjoint(s, j, i);
    }
  }

  /** Main result for runs: whatever calls are made, as long as each is admissible, the heap stays
      well formed and its live blocks are exactly the blocks handed out and not given back. */
  lemma {:induction false} RunSafe(h: Heap, ops: seq<Op>)
    requires Layout(h.segs) && CanRun(h, ops)
    ensures Layout(Run(h, ops).segs)
    ensures Live(Run(h, ops).segs) == Books(Live(h.segs), h, ops)
    decreases |ops|
  {
    if ops != [] {
      StepKeeps(h, ops[0]);
      RunSafe(Step(h, ops[0]), ops[1..]);
    }
  }

  /** From the state Init leaves: any two blocks on the books are apart, and none touches a listed header. */
  lemma BlocksNeverOverlap(ops: seq<Op>, b: (nat, nat), c: (nat, nat), k: nat)
    requires CanRun(INITIAL_HEAP, ops)
    requires b in Books({}, INITIAL_HEAP, ops) && c in Books({}, INITIAL_HEAP, ops)
    ensures b != c ==> !Overlap(b.0, b.1, c.0, c.1)
    ensures k < |Run(INITIAL_HEAP, ops).segs| ==> !Overlap(b.0, b.1, Run(INITIAL_HEAP, ops).segs[k].addr, HEADER)
  {
    FromInit(ops);
    var s := Run(INITIAL_HEAP, ops).segs;
    var i :| 0 <= i < |s| && !s[i].free && b == (s[i].Start(), s[i].want);
    var j :| 0 <= j < |s| && !s[j].free && c == (s[j].Start(), s[j].want);
    LiveBlocksDisjoint(s, i, j);
    if k < |s| { LiveBlocksDisjoint(s, i, k); }
  }

  lemma FromInit(ops: seq<Op>)
    requires CanRun(INITIAL_HEAP, ops)
    ensures var h := Run(INITIAL_HEAP, ops); Layout(h.segs) && Live(h.segs) == Books({}, INITIAL_HEAP, ops)
  {
    assert SegOk(INITIAL_HEAP.segs, 0);
    assert Live(INITIAL_HEAP.segs) == {};
    RunSafe(INITIAL_HEAP, ops);
  }

  /** The headers a step writes: those that are listed after it, and those touched in growing the arena. */
  ghost predicate Writes(h: Heap, op: Op, a: nat)
    requires CanStep(h, op)
  {
    || (exists i :: 0 <= i < |Step(h, op).segs| && a == Step(h, op).segs[i].addr)
    || (op.Get? && 0 < op.n && a in Touched(h, op.n))
  }

  /** From the state Init leaves, after any run: the next step writes no header into a block that is on the books
      before it or after it. */
  lemma HeadersNeverInBlocks(ops: seq<Op>, op: Op, a: nat, b: (nat, nat))
    requires CanRun(INITIAL_HEAP, ops) && CanStep(Run(INITIAL_HEAP, ops), op) && Writes(Run(INITIAL_HEAP, ops), op, a)
    requires var books := Books({}, INITIAL_HEAP, ops); b in books || b in Book(books, Run(INITIAL_HEAP, ops), op)
    ensures !Overlap(b.0, b.1, a, HEADER)
  {
    FromInit(ops);
    HeadersInStep(Run(INITIAL_HEAP, ops), op, a, b);
  }

  lemma HeadersInStep(h: Heap, op: Op, a: nat, b: (nat, nat))
    requires Layout(h.segs) && CanStep(h, op) && Writes(h, op, a)
    requires b in Live(h.segs) || b in Book(Live(h.segs), h, op)
    ensures !Overlap(b.0, b.1, a, HEADER)
  {
    var t := Step(h, op).segs;
    StepKeeps(h, op);
    if b in Live(t) {
      ClearIff(t, a);
      if i :| 0 <= i < |t| && a == t[i].addr {
        ListedHarmless(t, i);
      } else {
        AllocateSafeIff(h, op.n);
      }
    } else {
      assert op.Put?;
      FreedHeaders(h, op.a, a);
      ClearIff(h.segs, a);
    }
  }

  /** Free writes no header anew. */
  lemma FreedHeaders(h: Heap, p: nat, a: nat)
    requires Layout(h.segs) && LiveAt(h.segs, p) && exists i :: 0 <= i < |Free(h, p).segs| && a == Free(h, p).segs[i].addr
    ensures Clear(h.segs, a)
  {
    var k := Find(h.segs, p - HEADER);
    var t := h.segs[k := h.segs[k].(free := true)];
    var i :| 0 <= i < |Free(h, p).segs| && a == Free(h, p).segs[i].addr;
    var j := CoalesceAddresses(t, i);
    assert h.segs[j].addr == t[j].addr;
    ListedHarmless(h.segs, j);
  }

  lemma {:induction false} CoalesceAddresses(s: seq<Seg>, i: nat) returns (j: nat)
    requires i < |Coalesce(s)|
    ensures j < |s| && s[j].addr == Coalesce(s)[i].addr
    decreases |s|
  {
    if |s| < 2 || i == 0 {
      j := i;
    } else if s[0].free && s[1].free {
      j := CoalesceAddresses(s[2..], i - 1);
      j := j + 2;
    } else {
      j := CoalesceAddresses(s[1..], i - 1);
      j := j + 1;
    }
  }
}
