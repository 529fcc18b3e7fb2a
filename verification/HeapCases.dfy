/** Runs of the heap after Init that end where an allocation is not sound. */
module HeapCases {
  import opened Common
  import opened HeapModel
  import opened HeapTheorems
  import opened HeapGrowth
  import opened HeapRuns

  /** Three allocations after Init are enough: the third finds a free segment 16 bytes too large for
      an exact fit and too small for a header, the subtraction in Split wraps, and the heap is lost. */
  lemma GuardFailsAfterInit()
    ensures var ops := [Get(1), Get(1)];
            && CanRun(INITIAL_HEAP, ops)
            && Layout(Run(INITIAL_HEAP, ops).segs) && !Served(Run(INITIAL_HEAP, ops), 65343)
  {
    var h1 := FirstGet();
    var h2 := SmallGet(h1);
    RunTwo(INITIAL_HEAP, Get(1), Get(1));
    RunSafe(INITIAL_HEAP, [Get(1), Get(1)]);
    hide CanRun, Run, CanStep, Step;
    GuardFails(h2);
  }

  /** What the two sizes are after the first allocation. */
  lemma SizesAfterFirstGet()
    ensures CanRun(INITIAL_HEAP, [Get(1)])
    ensures var s := Run(INITIAL_HEAP, [Get(1)]).segs; Bytes(s, false) == 40 && Bytes(s, true) == 65448
  {
    var h1 := FirstGet();
    RunSnoc(INITIAL_HEAP, [], Get(1));
    assert [] + [Get(1)] == [Get(1)];
    hide CanStep, Step, Bytes;
    var x, y := h1.segs[0], h1.segs[1];
    assert h1.segs == [x] + [y];
    BytesConcat([x], [y], false);
    BytesConcat([x], [y], true);
    BytesOne(x, false);
    BytesOne(y, false);
    BytesOne(x, true);
    BytesOne(y, true);
  }

  lemma SmallGet(h1: Heap) returns (h2: Heap)
    requires h1 == Heap([Seg(HEAP_START, 40, false, 1), Seg(HEAP_START + 88, 65448, true, 0)], HEAP_START, 1, 0)
    ensures CanStep(h1, Get(1)) && h2 == Step(h1, Get(1))
    ensures h2.segs == [Seg(HEAP_START, 40, false, 1), Seg(HEAP_START + 88, 40, false, 1), Seg(HEAP_START + 176, 65360, true, 0)]
  {
    assert FirstFit(h1.segs[1..], 64) == 0;
    assert FirstFit(h1.segs, 64) == 1;
    hide FirstFit;
    h2 := Step(h1, Get(1));
  }

  lemma GuardFails(h2: Heap)
    requires h2.segs == [Seg(HEAP_START, 40, false, 1), Seg(HEAP_START + 88, 40, false, 1), Seg(HEAP_START + 176, 65360, true, 0)]
    requires Layout(h2.segs)
    ensures !Served(h2, 65343)
  {
    FitAt(h2.segs, 2, 65344);
    assert RoundUp(65343, 64) == 65344;
    hide FirstFit, Layout, Served, AllocateFor, Reserve, RoundUp, Climbs, Find;
    AllocateSafeIff(h2, 65343);
  }

  /** Another three: LastSegment still points at the first segment when the third finds no fit, and Reserve
      cuts the second block off the list. */
  lemma LiveBlockCutOff()
    ensures var ops := [Get(1), Get(65343)];
            && CanRun(INITIAL_HEAP, ops)
            && Layout(Run(INITIAL_HEAP, ops).segs) && !Served(Run(INITIAL_HEAP, ops), 1)
  {
    var h1 := FirstGet();
    var h2 := LargeGet(h1);
    RunTwo(INITIAL_HEAP, Get(1), Get(65343));
    RunSafe(INITIAL_HEAP, [Get(1), Get(65343)]);
    hide CanRun, Run, CanStep, Step;
    CutsOff(h2);
  }

  lemma LargeGet(h1: Heap) returns (h2: Heap)
    requires h1 == Heap([Seg(HEAP_START, 40, false, 1), Seg(HEAP_START + 88, 65448, true, 0)], HEAP_START, 1, 0)
    ensures CanStep(h1, Get(65343)) && h2 == Step(h1, Get(65343))
    ensures h2.segs == [Seg(HEAP_START, 40, false, 1), Seg(HEAP_START + 88, 65448, false, 65343)] && h2.last == HEAP_START
  {
    assert FirstFit(h1.segs[1..], 65344) == 0;
    assert FirstFit(h1.segs, 65344) == 1;
    hide FirstFit;
    h2 := Step(h1, Get(65343));
  }

  lemma CutsOff(h2: Heap)
    requires h2.segs == [Seg(HEAP_START, 40, false, 1), Seg(HEAP_START + 88, 65448, false, 65343)] && h2.last == HEAP_START
    requires Layout(h2.segs)
    ensures !Served(h2, 1)
  {
    assert FirstFit(h2.segs[1..][1..], 64) == 0;
    assert FirstFit(h2.segs[1..], 64) == 1;
    assert FirstFit(h2.segs, 64) == 2;
    hide FirstFit, Layout, Served, AllocateFor, Reserve;
    AllocateSafeIff(h2, 1);
  }

  lemma FirstGet() returns (h1: Heap)
    ensures CanStep(INITIAL_HEAP, Get(1)) && h1 == Step(INITIAL_HEAP, Get(1)) && Layout(INITIAL_HEAP.segs)
    ensures h1 == Heap([Seg(HEAP_START, 40, false, 1), Seg(HEAP_START + 88, 65448, true, 0)], HEAP_START, 1, 0)
  {
    assert SegOk(INITIAL_HEAP.segs, 0);
    assert FirstFit(INITIAL_HEAP.segs, 64) == 0;
    h1 := Step(INITIAL_HEAP, Get(1));
  }

  lemma RunTwo(h: Heap, op: Op, then_: Op)
    requires CanStep(h, op) && CanStep(Step(h, op), then_)
    ensures CanRun(h, [op, then_]) && Run(h, [op, then_]) == Step(Step(h, op), then_)
  {
    var h1 := Step(h, op);
    assert [op, then_][1..] == [then_] && [then_][1..] == [];
    assert CanRun(Step(h1, then_), []) && CanRun(h1, [then_]);
    assert Run(h1, [then_]) == Step(h1, then_);
  }

  /** Four calls make LastSegment point at a segment that Free has absorbed. From then on a request that finds
      no fit extends that forgotten header again and again: there is no result, although the heap is well
      formed and the address space is nearly empty. */
  lemma LastSegmentForgotten()
    ensures var ops := [Get(1), Get(70000), Put(HEAP_START + 24), Put(HEAP_START + 88)];
            && CanRun(INITIAL_HEAP, ops)
            && Layout(Run(INITIAL_HEAP, ops).segs) && !LastListed(Run(INITIAL_HEAP, ops))
            && Allocate(Run(INITIAL_HEAP, ops), 100000).None? && !Served(Run(INITIAL_HEAP, ops), 100000)
  {
    var a := HEAP_START;
    var h1 := FirstGet();
    var h2 := SecondGet(h1);
    var h3 := FirstPut(h2);
    var h4 := SecondPut(h3);
    RunTwo(INITIAL_HEAP, Get(1), Get(70000));
    RunTwo(h2, Put(a + 24), Put(a + 88));
    hide CanStep, Step;
    RunsJoin(INITIAL_HEAP, [Get(1), Get(70000)], [Put(a + 24), Put(a + 88)]);
    assert [Get(1), Get(70000)] + [Put(a + 24), Put(a + 88)] == [Get(1), Get(70000), Put(a + 24), Put(a + 88)];
    RunSafe(INITIAL_HEAP, [Get(1), Get(70000), Put(a + 24), Put(a + 88)]);
    Forgotten(h4);
  }

  lemma Forgotten(h: Heap)
    requires h == Heap([Seg(HEAP_START, 73792, true, 1)], HEAP_START + 64, 1, 73728)
    ensures !LastListed(h) && Allocate(h, 100000).None?
  {
    NotFound(h.segs, h.last);
    NoFitIn(h.segs, 100032);
    BehindEverything(h, 100000);
  }

  lemma SecondGet(h1: Heap) returns (h2: Heap)
    requires h1 == Heap([Seg(HEAP_START, 40, false, 1), Seg(HEAP_START + 88, 65448, true, 0)], HEAP_START, 1, 0)
    ensures CanStep(h1, Get(70000)) && h2 == Step(h1, Get(70000))
    ensures h2 == Heap([Seg(HEAP_START, 40, false, 1), Seg(HEAP_START + 64, 73728, false, 70000)], HEAP_START + 64, 1, 73728)
  {
    assert RoundUp(70000, 64) == 70016 && RoundUp(70016, 64) == 70080 && RoundUp(70016, 4096) == 73728;
    assert Unsplit(73728, 70080);
    assert FirstFit(h1.segs[1..][1..], 70016) == 0;
    assert FirstFit(h1.segs[1..], 70016) == 1;
    assert FirstFit(h1.segs, 70016) == 2;
    assert Find(h1.segs, HEAP_START) == 0;
    assert Wrap(LastEnd(h1)) == HEAP_START + 64;
    hide RoundUp, Wrap, Unsplit, Find, FirstFit;
    RetryFits(h1, 70000, 70000);
    hide AllocateFor;
    h2 := Step(h1, Get(70000));
  }

  lemma FirstPut(h2: Heap) returns (h3: Heap)
    requires h2 == Heap([Seg(HEAP_START, 40, false, 1), Seg(HEAP_START + 64, 73728, false, 70000)], HEAP_START + 64, 1, 73728)
    ensures CanStep(h2, Put(HEAP_START + 24)) && h3 == Step(h2, Put(HEAP_START + 24))
    ensures h3 == Heap([Seg(HEAP_START, 40, true, 1), Seg(HEAP_START + 64, 73728, false, 70000)], HEAP_START + 64, 1, 73728)
  {
    var s := [Seg(HEAP_START, 40, true, 1), Seg(HEAP_START + 64, 73728, false, 70000)];
    Skips(s);
    h3 := PutStep(h2, 0, s, s);
  }

  lemma SecondPut(h3: Heap) returns (h4: Heap)
    requires h3 == Heap([Seg(HEAP_START, 40, true, 1), Seg(HEAP_START + 64, 73728, false, 70000)], HEAP_START + 64, 1, 73728)
    ensures CanStep(h3, Put(HEAP_START + 88)) && h4 == Step(h3, Put(HEAP_START + 88))
    ensures h4 == Heap([Seg(HEAP_START, 73792, true, 1)], HEAP_START + 64, 1, 73728)
  {
    var s := [Seg(HEAP_START, 40, true, 1), Seg(HEAP_START + 64, 73728, true, 70000)];
    Merges(s, [Seg(HEAP_START, 73792, true, 1)]);
    h4 := PutStep(h3, 1, s, [Seg(HEAP_START, 73792, true, 1)]);
  }

  // ---------- a header in a block ----------

  /** Nine calls make LastSegment point into a block in use. A request that finds no fit then comes to a good end as
      far as the list goes, but on the way it leads the header in the block on and writes another one behind it. */
  lemma HeaderInBlock()
    ensures var a := HEAP_START;
            var ops := [Get(1), Get(70000), Put(a + 88), Get(1), Put(a + 24), Put(a + 88), Get(1), Put(a + 24), Get(65650)];
            && CanRun(INITIAL_HEAP, ops)
            && var h := Run(INITIAL_HEAP, ops);
               && Layout(h.segs) && (a + 24, 65650) in Live(h.segs) && !LastListed(h)
               && Allocate(h, 62000).Some? && Serves(h, 62000, Allocate(h, 62000).value.0, Allocate(h, 62000).value.1)
               && a + 0x40 in Touched(h, 62000) && Overlap(a + 24, 65650, a + 0x40, HEADER)
               && a + 0x80 in Touched(h, 62000) && Overlap(a + 24, 65650, a + 0x80, HEADER)
               && !Served(h, 62000) && !Admissible(h, 62000)
  {
    var a := HEAP_START;
    var h1 := FirstGet();
    var h2 := SecondGet(h1);
    var h5 := ThreeMore(h2);
    var h9 := FourMore(h5);
    RunTwo(INITIAL_HEAP, Get(1), Get(70000));
    hide CanStep, Step;
    var first, more, last := [Get(1), Get(70000)], [Put(a + 88), Get(1), Put(a + 24)], [Put(a + 88), Get(1), Put(a + 24), Get(65650)];
    RunsJoin(INITIAL_HEAP, first, more);
    RunsJoin(INITIAL_HEAP, first + more, last);
    assert (first + more) + last
           == [Get(1), Get(70000), Put(a + 88), Get(1), Put(a + 24), Put(a + 88), Get(1), Put(a + 24), Get(65650)];
    FromInit((first + more) + last);
    hide CanRun, Run;
    InBlock(h9);
  }

  lemma ThreeMore(h2: Heap) returns (h5: Heap)
    requires h2 == Heap([Seg(HEAP_START, 40, false, 1), Seg(HEAP_START + 64, 73728, false, 70000)], HEAP_START + 64, 1, 73728)
    ensures var ops := [Put(HEAP_START + 88), Get(1), Put(HEAP_START + 24)];
            CanRun(h2, ops) && h5 == Run(h2, ops)
    ensures h5 == Heap([Seg(HEAP_START, 40, true, 1), Seg(HEAP_START + 64, 40, false, 1), Seg(HEAP_START + 152, 73640, true, 0)],
                       HEAP_START + 64, 2, 40)
  {
    var a := HEAP_START;
    var x, y, z := Seg(a, 40, false, 1), Seg(a + 64, 40, false, 1), Seg(a + 152, 73640, true, 0);
    var s := [x, Seg(a + 64, 73728, true, 70000)];
    Skips(s);
    var h3 := PutStep(h2, 1, s, s);
    var h4 := GetStep(h3, 1, 1, 64, [x, y, z], 2);
    var t := [x.(free := true), y, z];
    Skips([y, z]);
    Skips(t);
    h5 := PutStep(h4, 0, t, t);
    RunTwo(h2, Put(a + 88), Get(1));
    hide CanStep, Step;
    RunSnoc(h2, [Put(a + 88), Get(1)], Put(a + 24));
    assert [Put(a + 88), Get(1)] + [Put(a + 24)] == [Put(a + 88), Get(1), Put(a + 24)];
  }

  lemma FourMore(h5: Heap) returns (h9: Heap)
    requires h5 == Heap([Seg(HEAP_START, 40, true, 1), Seg(HEAP_START + 64, 40, false, 1), Seg(HEAP_START + 152, 73640, true, 0)],
                        HEAP_START + 64, 2, 40)
    ensures var ops := [Put(HEAP_START + 88), Get(1), Put(HEAP_START + 24), Get(65650)];
            CanRun(h5, ops) && h9 == Run(h5, ops)
    ensures h9 == Heap([Seg(HEAP_START, 65640, false, 65650), Seg(HEAP_START + 65688, 8080, true, 0)], HEAP_START + 64, 3, 40)
  {
    var a := HEAP_START;
    var h7 := MergeAndTake(h5);
    h9 := MergeAndTakeMore(h7);
    hide CanStep, Step;
    RunsJoin(h5, [Put(a + 88), Get(1)], [Put(a + 24), Get(65650)]);
    assert [Put(a + 88), Get(1)] + [Put(a + 24), Get(65650)] == [Put(a + 88), Get(1), Put(a + 24), Get(65650)];
  }

  lemma MergeAndTake(h5: Heap) returns (h7: Heap)
    requires h5 == Heap([Seg(HEAP_START, 40, true, 1), Seg(HEAP_START + 64, 40, false, 1), Seg(HEAP_START + 152, 73640, true, 0)],
                        HEAP_START + 64, 2, 40)
    ensures CanRun(h5, [Put(HEAP_START + 88), Get(1)]) && h7 == Run(h5, [Put(HEAP_START + 88), Get(1)])
    ensures h7 == Heap([Seg(HEAP_START, 104, false, 1), Seg(HEAP_START + 152, 73640, true, 0)], HEAP_START + 64, 2, 40)
  {
    var a := HEAP_START;
    var x, y, z := Seg(a, 40, true, 1), Seg(a + 64, 40, true, 1), Seg(a + 152, 73640, true, 0);
    Skips([z]);
    assert [x, y, z][2..] == [z];
    Merges([x, y, z], [Seg(a, 104, true, 1), z]);
    var h6 := PutStep(h5, 1, [x, y, z], [Seg(a, 104, true, 1), z]);
    h7 := GetStep(h6, 0, 1, 64, [Seg(a, 104, false, 1), z], 2);
    hide CanStep, Step;
    RunTwo(h5, Put(a + 88), Get(1));
  }

  lemma MergeAndTakeMore(h7: Heap) returns (h9: Heap)
    requires h7 == Heap([Seg(HEAP_START, 104, false, 1), Seg(HEAP_START + 152, 73640, true, 0)], HEAP_START + 64, 2, 40)
    ensures CanRun(h7, [Put(HEAP_START + 24), Get(65650)]) && h9 == Run(h7, [Put(HEAP_START + 24), Get(65650)])
    ensures h9 == Heap([Seg(HEAP_START, 65640, false, 65650), Seg(HEAP_START + 65688, 8080, true, 0)], HEAP_START + 64, 3, 40)
  {
    var a := HEAP_START;
    var x, z := Seg(a, 104, true, 1), Seg(a + 152, 73640, true, 0);
    Merges([x, z], [Seg(a, 73768, true, 1)]);
    var h8 := PutStep(h7, 0, [x, z], [Seg(a, 73768, true, 1)]);
    h9 := GetStep(h8, 0, 65650, 65664, [Seg(a, 65640, false, 65650), Seg(a + 65688, 8080, true, 0)], 3);
    hide CanStep, Step;
    RunTwo(h7, Put(a + 24), Get(65650));
  }

  lemma InBlock(h: Heap)
    requires h == Heap([Seg(HEAP_START, 65640, false, 65650), Seg(HEAP_START + 65688, 8080, true, 0)], HEAP_START + 64, 3, 40)
    requires Layout(h.segs)
    ensures (HEAP_START + 24, 65650) in Live(h.segs) && !LastListed(h)
    ensures Allocate(h, 62000).Some? && Serves(h, 62000, Allocate(h, 62000).value.0, Allocate(h, 62000).value.1)
    ensures HEAP_START + 0x40 in Touched(h, 62000) && HEAP_START + 0x80 in Touched(h, 62000)
    ensures !Served(h, 62000) && !Admissible(h, 62000)
  {
    var a, r := HEAP_START, RoundUp(62000, 64);
    assert (h.segs[0].Start(), h.segs[0].want) in Live(h.segs);
    Ladder(h);
    hide RoundUp, Supply, Rung, Rungs, Find, FirstFit, Live, Layout, Touched, AllocateFor, Place, Arrives, Harmless;
    RungIn(h, r, 2, 0);
    RungIn(h, r, 2, 1);
    var h1, r1 := ArrivingAllocates(h, 62000, 62000, 2);
    var t, p := LandedGrant(h, 62000, 1, 65536, h1, r1);
    forall k ensures !Climbs(h, r, k) { BlockedAtOnce(h, r, k); }
    AllocateSafeIff(h, 62000);
  }

  lemma BlockedAtOnce(h: Heap, r: nat, k: nat)
    requires !Clear(h.segs, h.last)
    ensures !Climbs(h, r, k)
  {
    FirstRungs(h, r);
    assert !Spare(h.segs, Rung(h, r, 0));
  }

  lemma Ladder(h: Heap)
    requires h == Heap([Seg(HEAP_START, 65640, false, 65650), Seg(HEAP_START + 65688, 8080, true, 0)], HEAP_START + 64, 3, 40)
    ensures var r := RoundUp(62000, 64);
            && r == 62016 && FirstFit(h.segs, r) == 2 && !LastListed(h) && !Clear(h.segs, h.last)
            && Rung(h, r, 0) == HEAP_START + 64 && Rung(h, r, 1) == HEAP_START + 128
            && Find(h.segs, Rung(h, r, 2)) == 1 && Arrives(h, r, 2) && Supply(r, 2) == 65536
  {
    var a, r := HEAP_START, 62016;
    assert RoundUp(62000, 64) == r && Supply(r, 1) == 65536 && Supply(r, 2) == 65536;
    NotFound(h.segs, a + 64);
    NotFound(h.segs, a + 128);
    FoundAt(h.segs, 1, a + 65688);
    NoFitIn(h.segs, r);
    assert LastEnd(h) == a + 128;
    hide Find, FirstFit, Supply, RoundUp, LastEnd;
    FirstRungs(h, r);
    assert Rung(h, r, 2) == a + 65688;
    hide Rung;
    assert Overlap(h.segs[0].Start(), h.segs[0].want, h.last, HEADER);
  }

  // ---------- single steps ----------

  lemma PutStep(h: Heap, i: nat, t: seq<Seg>, c: seq<Seg>) returns (h': Heap)
    requires i < |h.segs| && !h.segs[i].free && forall j :: 0 <= j < i ==> h.segs[j].addr != h.segs[i].addr
    requires t == h.segs[i := h.segs[i].(free := true)] && c == Coalesce(t)
    ensures CanStep(h, Put(h.segs[i].Start())) && h' == Step(h, Put(h.segs[i].Start()))
    ensures h' == h.(segs := c, stale := LastSize(h))
  {
    FoundAt(h.segs, i, h.segs[i].addr);
    hide Find, Coalesce, LastSize;
    h' := Step(h, Put(h.segs[i].Start()));
  }

  lemma GetStep(h: Heap, i: nat, n: nat, r: nat, t: seq<Seg>, splits: nat) returns (h': Heap)
    requires 0 < n < WORD && r == RoundUp(n, 64) && i < |h.segs| && h.segs[i].free && FitsCleanly(h.segs[i].size, r)
    requires forall j :: 0 <= j < i ==> !(h.segs[j].free && h.segs[j].size >= r)
    requires h.(segs := t, splits := splits) == Place(h, i, r, n)
    ensures CanStep(h, Get(n)) && h' == Step(h, Get(n)) == h.(segs := t, splits := splits)
  {
    FitAt(h.segs, i, r);
    hide FirstFit, Place, RoundUp;
    h' := Step(h, Get(n));
  }

  lemma FoundAt(s: seq<Seg>, i: nat, a: nat)
    requires i < |s| && s[i].addr == a && forall j :: 0 <= j < i ==> s[j].addr != a
    ensures Find(s, a) == i
  {
  }

  lemma NotFound(s: seq<Seg>, a: nat)
    requires forall j :: 0 <= j < |s| ==> s[j].addr != a
    ensures Find(s, a) == |s|
  {
  }

  lemma FitAt(s: seq<Seg>, i: nat, r: nat)
    requires i < |s| && s[i].free && s[i].size >= r && forall j :: 0 <= j < i ==> !(s[j].free && s[j].size >= r)
    ensures FirstFit(s, r) == i
  {
  }

  lemma NoFitIn(s: seq<Seg>, r: nat)
    requires forall j :: 0 <= j < |s| ==> !(s[j].free && s[j].size >= r)
    ensures FirstFit(s, r) == |s|
  {
  }

  /** The pass where the first two segments are not both free, or are. */
  lemma Skips(s: seq<Seg>)
    requires 0 < |s| && (|s| > 1 ==> !(s[0].free && s[1].free) && Coalesce(s[1..]) == s[1..])
    ensures Coalesce(s) == s
  {
  }

  lemma Merges(s: seq<Seg>, t: seq<Seg>)
    requires |s| > 1 && s[0].free && s[1].free && t == [Merge(s[0], s[1])] + s[2..] && Coalesce(s[2..]) == s[2..]
    ensures Coalesce(s) == t
  {
  }

  lemma RunSnoc(h: Heap, ops: seq<Op>, op: Op)
    requires CanRun(h, ops) && CanStep(Run(h, ops), op)
    ensures CanRun(h, ops + [op]) && Run(h, ops + [op]) == Step(Run(h, ops), op)
  {
    hide CanStep, Step;
    var h1 := Run(h, ops);
    assert [op][1..] == [];
    assert CanRun(Step(h1, op), []) && CanRun(h1, [op]) && Run(h1, [op]) == Step(h1, op);
    RunsJoin(h, ops, [op]);
  }

  lemma {:induction false} RunsJoin(h: Heap, ops: seq<Op>, later: seq<Op>)
    requires CanRun(h, ops) && CanRun(Run(h, ops), later)
    ensures CanRun(h, ops + later) && Run(h, ops + later) == Run(Run(h, ops), later)
    decreases |ops|
  {
    hide CanStep, Step;
    if ops == [] {
      assert ops + later == later;
    } else {
      assert (ops + later)[1..] == ops[1..] + later;
      RunsJoin(Step(h, ops[0]), ops[1..], later);
    }
  }
}
