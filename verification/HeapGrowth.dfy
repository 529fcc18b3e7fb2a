/** Growing the arena behind a LastSegment that is not listed any more: Free has absorbed the segment it pointed
    at, and Reserve goes on extending the header it left behind. */
module HeapGrowth {
  import opened Common
  import opened HeapModel
  import opened HeapTheorems

  // ---------- the ladder ----------

  /** The headers that the attempts of a request rounded to `r` touch: LastSegment's, the one behind it, and
      from then on each behind what the attempt before supplied, 64 bytes more being asked for every time. */
  function Rung(h: Heap, r: nat, i: nat): nat {
    if i == 0 then h.last
    else if i == 1 then LastEnd(h)
    else Rung(h, r, i - 1) + HEADER + Supply(r, i - 1)
  }

  /** The bytes attempt `k` supplies; the first is attempt 1. */
  function Supply(r: nat, k: nat): nat {
    if k == 0 then 0 else RoundUp(r + 64 * (k - 1), 4096)
  }

  /** The address space has room for them. */
  predicate Room(h: Heap, r: nat, k: nat) {
    k > 0 && r + 64 * (k - 1) + 4096 < WORD && Rung(h, r, k) + HEADER + Supply(r, k) <= WORD
  }

  /** Attempt `k` is the first to overwrite a listed header. */
  predicate Arrives(h: Heap, r: nat, k: nat) {
    && k > 0 && Room(h, r, k) && Find(h.segs, Rung(h, r, k)) < |h.segs|
    && forall i :: 0 < i < k ==> Find(h.segs, Rung(h, r, i)) == |h.segs|
  }

  lemma {:induction false} RungsAscend(h: Heap, r: nat, i: nat, k: nat)
    requires i < k
    ensures Rung(h, r, i) + HEADER <= Rung(h, r, k)
    decreases k
  {
    hide RoundUp, LastSize;
    if i < k - 1 { RungsAscend(h, r, i, k - 1); }
  }

  /** The rungs up to `k`. */
  function Rungs(h: Heap, r: nat, k: nat): set<nat> {
    (if k == 0 then {} else Rungs(h, r, k - 1)) + {Rung(h, r, k)}
  }

  lemma {:induction false} RungIn(h: Heap, r: nat, k: nat, i: nat)
    requires i <= k
    ensures Rung(h, r, i) in Rungs(h, r, k)
  {
    hide Rung;
    if i < k { RungIn(h, r, k - 1, i); }
  }

  lemma {:induction false} RungOf(h: Heap, r: nat, k: nat, a: nat) returns (i: nat)
    requires a in Rungs(h, r, k)
    ensures i <= k && a == Rung(h, r, i)
  {
    hide Rung;
    i := k;
    if a != Rung(h, r, k) { i := RungOf(h, r, k - 1, a); }
  }

  lemma FirstRungs(h: Heap, r: nat)
    ensures Rung(h, r, 0) == h.last && Rung(h, r, 1) == LastEnd(h) && Rungs(h, r, 1) == {h.last, LastEnd(h)}
  {
  }

  /** After an attempt that overwrote nothing listed, the ladder is the same but for its first rung. */
  predicate Follows(h: Heap, r: nat, h1: Heap, r1: nat) {
    h1.segs == h.segs && h1.last == LastEnd(h) && LastSize(h1) == RoundUp(r, 4096) && r1 == r + 64
  }

  lemma {:induction false} RungShift(h: Heap, r: nat, h1: Heap, r1: nat, i: nat)
    requires Follows(h, r, h1, r1)
    ensures Rung(h1, r1, i) == Rung(h, r, i + 1)
    ensures i > 0 ==> (Room(h1, r1, i) <==> Room(h, r, i + 1)) && Supply(r1, i) == Supply(r, i + 1)
  {
    hide RoundUp, LastSize;
    if i > 0 {
      RungShift(h, r, h1, r1, i - 1);
      assert r1 + 64 * (i - 1) == r + 64 * (i + 1 - 1);
    }
  }

  lemma {:induction false} RungsShift(h: Heap, r: nat, h1: Heap, r1: nat, k: nat)
    requires Follows(h, r, h1, r1)
    ensures {h.last} + Rungs(h1, r1, k) == Rungs(h, r, k + 1)
  {
    hide Rung, Follows;
    RungShift(h, r, h1, r1, k);
    FirstRungs(h, r);
    if k > 0 { RungsShift(h, r, h1, r1, k - 1); }
  }

  lemma ArrivesShift(h: Heap, r: nat, h1: Heap, r1: nat, k: nat)
    requires Follows(h, r, h1, r1) && Find(h.segs, LastEnd(h)) == |h.segs| && k > 0
    ensures Arrives(h1, r1, k) <==> Arrives(h, r, k + 1)
  {
    hide Rung, Room, Find;
    FirstRungs(h, r);
    RungShift(h, r, h1, r1, k);
    forall i: nat ensures Rung(h1, r1, i) == Rung(h, r, i + 1) { RungShift(h, r, h1, r1, i); }
    if Arrives(h1, r1, k) {
      forall i | 0 < i < k + 1 ensures Find(h.segs, Rung(h, r, i)) == |h.segs| {
        assert Rung(h1, r1, i - 1) == Rung(h, r, i - 1 + 1);
      }
    }
  }

  // ---------- the attempts ----------

  /** Every header that growing reads or writes, attempt by attempt: LastSegment's, which is led to the new one. */
  function Touched(h: Heap, size: nat): set<nat>
    decreases WORD - h.last
  {
    var r := RoundUp(size, 64);
    if size == 0 || FirstFit(h.segs, r) < |h.segs| || !Grows(h, r) then {}
    else MovesOn(h, r); {h.last, LastEnd(h)} + Touched(Reserve(h, r), r)
  }

  /** One failed attempt: the list is as it was, no segment fits the next request either, and LastSegment
      has moved on to another header that is not listed. */
  lemma AttemptFails(h: Heap, size: nat)
    requires !Links(h) && 0 < size < WORD && RoundUp(size, 64) != 0 && Grows(h, RoundUp(size, 64))
    requires FirstFit(h.segs, RoundUp(size, 64)) == |h.segs|
    ensures var r := RoundUp(size, 64);
            var h1 := Reserve(h, r);
            && Follows(h, r, h1, RoundUp(r, 64)) && !LastListed(h1) && h.last < h1.last < WORD && h1.splits == h.splits
            && size < r < WORD && FirstFit(h1.segs, RoundUp(r, 64)) == |h.segs| && Find(h.segs, LastEnd(h)) == |h.segs|
            && (forall n :: AllocateFor(h, size, n) == AllocateFor(h1, r, n))
            && Touched(h, size) == {h.last, LastEnd(h)} + Touched(h1, r)
  {
    var r := RoundUp(size, 64);
    GrowsNumbers(h, size);
    hide RoundUp, Wrap, FirstFit;
    NoFit(h.segs, r, RoundUp(r, 64));
  }

  /** The list `h1` after landing on segment `j` with a segment of `supply` bytes, and the request `r1` of the
      attempt that follows: nothing is listed behind what was written there, and that is the first fit. */
  predicate Landed(h: Heap, size: nat, j: nat, supply: nat, h1: Heap, r1: nat) {
    && j < |h.segs| && |h1.segs| == j + 1 && h1.segs[..j] == h.segs[..j]
    && h1.segs[j] == Seg(h.segs[j].addr, supply, true, 0) && h1.segs[j].End() <= WORD && h1.splits == h.splits
    && r1 % 64 == 0 && size < r1 && FitsCleanly(supply, r1) && FirstFit(h1.segs, r1) == j
  }

  /** When attempt `k` arrives, the one after it takes the segment that was written there; the headers touched
      are the first rungs of the ladder. */
  lemma {:induction false} ArrivingAllocates(h: Heap, size: nat, n: nat, k: nat) returns (h1: Heap, r1: nat)
    requires !LastListed(h) && 0 < size < WORD && RoundUp(size, 64) != 0
    requires FirstFit(h.segs, RoundUp(size, 64)) == |h.segs| && Arrives(h, RoundUp(size, 64), k)
    ensures var r := RoundUp(size, 64);
            && k > 0 && Landed(h, size, Find(h.segs, Rung(h, r, k)), Supply(r, k), h1, r1)
            && AllocateFor(h, size, n) == Some(Grant(h1, r1, n))
            && Touched(h, size) == Rungs(h, r, k)
    decreases k
  {
    hide *;
    if k == 1 {
      h1, r1 := LandsNow(h, size, n);
    } else {
      var r := RoundUp(size, 64);
      var h0 := Reserve(h, r);
      FirstFails(h, size, n, k);
      h1, r1 := ArrivingAllocates(h0, r, n, k - 1);
      LandedLater(h, h0, size, r, k, h1, r1);
    }
  }

  /** The attempts left after the first, when a later one arrives. */
  lemma FirstFails(h: Heap, size: nat, n: nat, k: nat)
    requires !LastListed(h) && 0 < size < WORD && RoundUp(size, 64) != 0
    requires FirstFit(h.segs, RoundUp(size, 64)) == |h.segs| && k != 1 && Arrives(h, RoundUp(size, 64), k)
    ensures var r := RoundUp(size, 64);
            var h0 := Reserve(h, r);
            && !LastListed(h0) && size < r < WORD && RoundUp(r, 64) != 0 && Follows(h, r, h0, RoundUp(r, 64)) && h0.splits == h.splits
            && FirstFit(h0.segs, RoundUp(r, 64)) == |h0.segs| && Arrives(h0, RoundUp(r, 64), k - 1)
            && k > 1 && AllocateFor(h, size, n) == AllocateFor(h0, r, n)
            && Touched(h, size) == {h.last, LastEnd(h)} + Touched(h0, r)
  {
    var r := RoundUp(size, 64);
    ArrivingGrows(h, r, k);
    ArrivesLater(h, r, k);
    AttemptFails(h, size);
    hide Reserve, Find, RoundUp, Grows, Wrap, FirstFit, LastSize, LastEnd, LastListed, Touched, AllocateFor, Arrives, Follows;
    ArrivesShift(h, r, Reserve(h, r), RoundUp(r, 64), k - 1);
  }

  lemma LandedLater(h: Heap, h0: Heap, size: nat, r: nat, k: nat, h1: Heap, r1: nat)
    requires k > 1 && size < r && Follows(h, r, h0, RoundUp(r, 64)) && h0.splits == h.splits
    requires var r0 := RoundUp(r, 64);
             Landed(h0, r, Find(h0.segs, Rung(h0, r0, k - 1)), Supply(r0, k - 1), h1, r1)
    ensures Landed(h, size, Find(h.segs, Rung(h, r, k)), Supply(r, k), h1, r1)
    ensures {h.last, LastEnd(h)} + Rungs(h0, RoundUp(r, 64), k - 1) == Rungs(h, r, k)
  {
    hide Find, RoundUp, Rung, Rungs, Landed, Supply;
    var r0 := RoundUp(r, 64);
    RungShift(h, r, h0, r0, k - 1);
    RungsShift(h, r, h0, r0, k - 1);
    FirstRung(h0, r0, k - 1);
    LandedAlike(h, h0, size, r, Find(h.segs, Rung(h, r, k)), Supply(r, k), h1, r1);
  }

  lemma FirstRung(h: Heap, r: nat, k: nat)
    ensures h.last in Rungs(h, r, k)
  {
  }

  lemma LandedAlike(h: Heap, h0: Heap, size: nat, r: nat, j: nat, supply: nat, h1: Heap, r1: nat)
    requires size < r && h0.segs == h.segs && h0.splits == h.splits && Landed(h0, r, j, supply, h1, r1)
    ensures Landed(h, size, j, supply, h1, r1)
  {
  }

  lemma ArrivesLater(h: Heap, r: nat, k: nat)
    requires !LastListed(h) && Arrives(h, r, k) && k > 1 && Grows(h, r)
    ensures Find(h.segs, LastEnd(h)) == |h.segs| && !Links(h)
  {
    FirstRungs(h, r);
    GrowsRoom(h, r);
    SmallWrap(LastEnd(h));
    hide Rung, Find, RoundUp, LastEnd, Wrap;
  }

  /** The first attempt arrives if it links its segment in. */
  lemma OneAttempt(h: Heap, r: nat)
    requires Grows(h, r) && !LastListed(h)
    ensures Arrives(h, r, 1) <==> Links(h)
  {
    FirstRungs(h, r);
    GrowsRoom(h, r);
    SmallWrap(LastEnd(h));
    hide Rung, Find, LastEnd, Wrap;
  }

  lemma ArrivingGrows(h: Heap, r: nat, k: nat)
    requires Arrives(h, r, k)
    ensures Grows(h, r)
  {
    if k > 1 {
      assert Rung(h, r, 2) == LastEnd(h) + HEADER + RoundUp(r, 4096);
      if k > 2 { RungsAscend(h, r, 2, k); }
    }
  }

  lemma LandsNow(h: Heap, size: nat, n: nat) returns (h1: Heap, r1: nat)
    requires !LastListed(h) && 0 < size < WORD && RoundUp(size, 64) != 0
    requires FirstFit(h.segs, RoundUp(size, 64)) == |h.segs| && Arrives(h, RoundUp(size, 64), 1)
    ensures var r := RoundUp(size, 64);
            && Landed(h, size, Find(h.segs, Rung(h, r, 1)), Supply(r, 1), h1, r1)
            && AllocateFor(h, size, n) == Some(Grant(h1, r1, n))
            && Touched(h, size) == Rungs(h, r, 1)
  {
    var r := RoundUp(size, 64);
    h1, r1 := Reserve(h, r), RoundUp(r, 64);
    FirstRungs(h, r);
    ArrivingGrows(h, r, 1);
    OneAttempt(h, r);
    GrowsNumbers(h, size);
    RetryFits(h, size, n);
    WhereItLands(h, r);
    assert Touched(h1, r) == {};
    hide FirstFit, AllocateFor, RoundUp, Wrap, Reserve, Find, LastEnd, Grows, Links, LastListed, FitsCleanly, Rung, Rungs;
  }

  lemma WhereItLands(h: Heap, r: nat)
    requires !LastListed(h) && Links(h) && Wrap(LastEnd(h)) == LastEnd(h)
    ensures var j := Find(h.segs, LastEnd(h));
            var h1 := Reserve(h, r);
            && j < |h.segs| && h.segs[j].addr == LastEnd(h) && h1.splits == h.splits
            && |h1.segs| == j + 1 && h1.segs[..j] == h.segs[..j] && h1.segs[j] == Seg(LastEnd(h), RoundUp(r, 4096), true, 0)
  {
    hide RoundUp, Wrap, LastEnd;
  }

  /** When no attempt arrives there is no result. */
  lemma {:induction false} NeverArriving(h: Heap, size: nat, n: nat)
    requires !LastListed(h) && 0 < size < WORD && RoundUp(size, 64) != 0
    requires FirstFit(h.segs, RoundUp(size, 64)) == |h.segs|
    requires forall k :: !Arrives(h, RoundUp(size, 64), k)
    ensures AllocateFor(h, size, n).None?
    decreases WORD - h.last
  {
    var r := RoundUp(size, 64);
    if Grows(h, r) {
      FirstRungs(h, r);
      GrowsNumbers(h, size);
      OneAttempt(h, r);
      if !Links(h) {
        AttemptFails(h, size);
        var h1, r1 := Reserve(h, r), RoundUp(r, 64);
        hide Reserve, Find, RoundUp, Grows, FirstFit, Rung, LastSize, AllocateFor, Arrives, LastEnd, Follows;
        forall k ensures !Arrives(h1, r1, k) {
          if Arrives(h1, r1, k) { ArrivesShift(h, r, h1, r1, k); }
        }
        NeverArriving(h1, r, n);
      }
    }
  }

  /** Behind a header that ends after every listed one, no attempt ever arrives, so there is no result. */
  lemma BehindEverything(h: Heap, size: nat)
    requires !LastListed(h) && 0 < size < WORD && RoundUp(size, 64) != 0
    requires FirstFit(h.segs, RoundUp(size, 64)) == |h.segs|
    requires forall j :: 0 <= j < |h.segs| ==> h.segs[j].addr < LastEnd(h)
    ensures forall n :: AllocateFor(h, size, n).None?
  {
    var r := RoundUp(size, 64);
    forall k ensures !Arrives(h, r, k) {
      FirstRungs(h, r);
      if k > 1 { RungsAscend(h, r, 1, k); }
    }
    forall n ensures AllocateFor(h, size, n).None? { NeverArriving(h, size, n); }
  }
}
