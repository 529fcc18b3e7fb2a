/** What the heap keeps: the layout and the bytes of every live block, over every run. */
module HeapTheorems {
  import opened Common
  import opened HeapModel

  // ---------- disjointness ----------

  lemma {:induction false} Ordered(s: seq<Seg>, i: nat, j: nat)
    requires Layout(s) && i < j < |s|
    ensures Limit(s, i) <= s[j].addr
    decreases j - i
  {
    assert SegOk(s, i);
    if i + 1 < j {
      Ordered(s, i + 1, j);
      assert SegOk(s, i + 1);
    }
  }

  predicate Overlap(a: nat, m: nat, b: nat, n: nat) {
    a < b + n && b < a + m
  }

  /** In a well-formed list the bytes a live block asked for touch no header (its own included) and
      no byte another live block asked for, and distinct live blocks start at distinct addresses. */
  lemma LiveBlocksDisjoint(s: seq<Seg>, i: nat, j: nat)
    requires Layout(s) && i < |s| && j < |s| && !s[i].free
    ensures !Overlap(s[i].Start(), s[i].want, s[j].addr, HEADER)
    ensures i != j && !s[j].free ==> !Overlap(s[i].Start(), s[i].want, s[j].Start(), s[j].want)
    ensures i != j ==> s[i].addr != s[j].addr
  {
    assert SegOk(s, i) && SegOk(s, j);
    if i < j { Ordered(s, i, j); }
    if j < i { Ordered(s, j, i); }
  }

  // ---------- taking a segment ----------

  /** The guard a caller can check: the segment fits exactly, or has at least a header to spare. */
  predicate FitsCleanly(size: nat, r: nat) {
    r > 0 && (size == r || size >= r + HEADER)
  }

  /** Replacing segment `i` by segments that tile its room keeps the layout. */
  lemma SpliceLayout(s: seq<Seg>, i: nat, mid: seq<Seg>, t: seq<Seg>)
    requires Layout(s) && i < |s| && t == s[..i] + mid + s[i + 1..] && |mid| > 0
    requires mid[0].addr == s[i].addr && Layout(mid)
    requires mid[|mid| - 1].End() == s[i].End()
    requires !mid[|mid| - 1].free ==> mid[|mid| - 1].Start() + mid[|mid| - 1].want <= Limit(s, i)
    ensures Layout(t) && ArenaEnd(t) == ArenaEnd(s)
  {
    var d := |mid| - 1;
    assert forall j :: 0 <= j < i ==> t[j] == s[j];
    assert forall j :: i < j < |s| ==> t[j + d] == s[j];
    forall j | 0 <= j < |t| ensures SegOk(t, j) {
      if j < i {
        assert SegOk(s, j);
      } else if j > i + d {
        assert SegOk(s, j - d);
      } else {
        assert SegOk(mid, j - i) && SegOk(s, i);
        assert j < i + d ==> t[j + 1] == mid[j + 1 - i];
        assert i + 1 < |s| ==> t[i + d + 1] == s[i + 1];
      }
    }
  }

  /** What taking a segment does when no subtraction wraps. */
  function Taken(x: Seg, r: nat, n: nat): seq<Seg>
    requires HEADER < r <= x.size
  {
    if x.size == r || Unsplit(x.size, r) then [x.(free := false, want := n)]
    else [x.(size := r - HEADER, free := false, want := n), Seg(x.Start() + r, Wrap(x.size - r - HEADER), true, 0)]
  }

  lemma PlaceShape(h: Heap, i: nat, r: nat, n: nat)
    requires i < |h.segs| && HEADER < r <= h.segs[i].size && h.segs[i].End() <= WORD
    ensures Place(h, i, r, n).segs == h.segs[..i] + Taken(h.segs[i], r, n) + h.segs[i + 1..]
    ensures Place(h, i, r, n).splits == h.splits + |Taken(h.segs[i], r, n)| - 1
  {
  }

  lemma TakenTiles(s: seq<Seg>, i: nat, r: nat, n: nat)
    requires i < |s| && SegOk(s, i) && 0 < n < r && HEADER < r && FitsCleanly(s[i].size, r)
    ensures var mid := Taken(s[i], r, n);
            && Layout(mid) && mid[|mid| - 1].End() == s[i].End()
            && (|mid| == 1 ==> mid[0].Start() + n <= Limit(s, i))
  {
  }

  lemma PlaceClean(h: Heap, i: nat, r: nat, n: nat)
    requires Layout(h.segs) && i < |h.segs| && h.segs[i].free
    requires 0 < n < r && HEADER < r && FitsCleanly(h.segs[i].size, r)
    ensures Layout(Place(h, i, r, n).segs)
    ensures Live(Place(h, i, r, n).segs) == Live(h.segs) + {(h.segs[i].Start(), n)}
    ensures ArenaEnd(Place(h, i, r, n).segs) == ArenaEnd(h.segs)
  {
    var s := h.segs;
    assert SegOk(s, i);
    PlaceShape(h, i, r, n);
    TakenTiles(s, i, r, n);
    var mid := Taken(s[i], r, n);
    SpliceLayout(s, i, mid, Place(h, i, r, n).segs);
    PlaceLive(s, mid, i, n, Place(h, i, r, n).segs);
  }

  lemma PlaceLive(s: seq<Seg>, mid: seq<Seg>, i: nat, n: nat, t: seq<Seg>)
    requires i < |s| && s[i].free && t == s[..i] + mid + s[i + 1..] && 1 <= |mid| <= 2
    requires !mid[0].free && mid[0].addr == s[i].addr && mid[0].want == n
    requires |mid| == 2 ==> mid[1].free
    ensures Live(t) == Live(s) + {(s[i].Start(), n)}
  {
    var d := |mid| - 1;
    assert t[i] == mid[0] && (d == 1 ==> t[i + 1] == mid[1]);
    assert forall j :: i < j < |s| ==> t[j + d] == s[j];
    forall x | x in Live(t) ensures x in Live(s) + {(s[i].Start(), n)} {
      var j :| 0 <= j < |t| && !t[j].free && x == (t[j].Start(), t[j].want);
      if j > i + d { assert t[j] == s[j - d]; }
    }
    forall x | x in Live(s) + {(s[i].Start(), n)} ensures x in Live(t) {
      if x == (s[i].Start(), n) {
        assert x == (t[i].Start(), t[i].want);
      } else {
        var j :| 0 <= j < |s| && !s[j].free && x == (s[j].Start(), s[j].want);
        if j < i { assert t[j] == s[j]; } else { assert t[j + d] == s[j]; }
      }
    }
  }

  /** When Split's unsigned subtraction wraps, the result is not a heap any more. */
  lemma PlaceBroken(h: Heap, i: nat, r: nat, n: nat)
    requires Layout(h.segs) && i < |h.segs| && h.segs[i].free && h.segs[i].size >= r
    requires 0 < n < WORD && (r == 0 ==> n + 64 >= WORD) && r % 64 == 0
    requires !FitsCleanly(h.segs[i].size, r)
    ensures !Layout(Place(h, i, r, n).segs)
  {
    var t := Place(h, i, r, n).segs;
    var size := h.segs[i].size;
    assert SegOk(h.segs, i);
    if r > 0 {
      assert Wrap(size - r - HEADER) == size - r - HEADER + WORD;
      assert t[i + 1].size == Wrap(size - r - HEADER);
      assert !SegOk(t, i + 1);
    } else {
      assert !SegOk(t, i);
    }
  }

  /** Exactly when taking the first fit keeps the heap well formed and adds the block to the live ones. */
  lemma PlaceSafeIff(h: Heap, i: nat, n: nat)
    requires Layout(h.segs) && 0 < n < WORD && i < |h.segs|
    requires i == FirstFit(h.segs, RoundUp(n, 64))
    ensures Layout(Place(h, i, RoundUp(n, 64), n).segs) <==> FitsCleanly(h.segs[i].size, RoundUp(n, 64))
    ensures FitsCleanly(h.segs[i].size, RoundUp(n, 64)) ==>
              Live(Place(h, i, RoundUp(n, 64), n).segs) == Live(h.segs) + {(h.segs[i].Start(), n)}
  {
    var r := RoundUp(n, 64);
    Rounded(n);
    if FitsCleanly(h.segs[i].size, r) {
      assert r % 64 == 0;
      PlaceClean(h, i, r, n);
    } else {
      PlaceBroken(h, i, r, n);
    }
  }

  /** What is handed out, in numbers: the request goes up to the next multiple of 64. An exact fit, and a larger one
      whose rest would have less than 4096 bytes, is given away whole. Any other is cut: its rest starts that many bytes
      past its start, and it keeps 24 bytes less than that as its size. */
  lemma PlaceForm(h: Heap, i: nat, n: nat)
    requires Layout(h.segs) && i < |h.segs| && n + 64 < WORD
    requires var r := n + 64 - n % 64; h.segs[i].size == r || h.segs[i].size >= r + 24
    ensures var r, x := n + 64 - n % 64, h.segs[i];
            Place(h, i, RoundUp(n, 64), n).segs ==
            if x.size == r || x.size - r - 24 < 4096 then h.segs[i := x.(free := false, want := n)]
            else h.segs[..i] + [Seg(x.addr, r - 24, false, n), Seg(x.addr + 24 + r, x.size - r - 24, true, 0)] + h.segs[i + 1..]
  {
    var r := n + 64 - n % 64;
    assert SegOk(h.segs, i);
    RoundedUp(n);
    hide RoundUp;
    PlaceShape(h, i, r, n);
    if h.segs[i].size > r { SmallWrap(h.segs[i].size - r - 24); }
  }

  lemma RoundedUp(n: nat)
    requires n + 64 < WORD
    ensures RoundUp(n, 64) == n + 64 - n % 64 && n % 64 < 64
  {
  }

  // ---------- growing the arena ----------

  /** Whether the address space has room for a segment of the rounded size behind segment `k`. */
  predicate HasRoom(s: seq<Seg>, k: nat, r: nat)
    requires k < |s|
  {
    s[k].End() + HEADER + RoundUp(r, 4096) <= WORD
  }

  /** The guard of Reserve, on the segment LastSegment points at: everything behind it is free, and
      its own owner, if any, asked for no more than `size`. */
  predicate NothingCutOff(s: seq<Seg>, k: nat)
    requires k < |s|
  {
    && (s[k].free || s[k].want <= s[k].size)
    && forall j :: k < j < |s| ==> s[j].free
  }

  lemma ReserveSafeIff(h: Heap, r: nat)
    requires Layout(h.segs) && LastListed(h) && r + 4096 < WORD
    ensures var k := Find(h.segs, h.last);
            Layout(Reserve(h, r).segs) && Live(Reserve(h, r).segs) == Live(h.segs)
            <==> HasRoom(h.segs, k, r) && NothingCutOff(h.segs, k)
  {
    var k, s, t := Find(h.segs, h.last), h.segs, Reserve(h, r).segs;
    assert forall j :: 0 <= j <= k ==> t[j] == s[j];
    assert SegOk(s, k);
    if Layout(t) && Live(t) == Live(s) {
      assert SegOk(t, k + 1) && SegOk(t, k);
      forall j | k < j < |s| ensures s[j].free {
        if !s[j].free {
          assert (s[j].Start(), s[j].want) in Live(t);
          var m :| 0 <= m < |t| && !t[m].free && (s[j].Start(), s[j].want) == (t[m].Start(), t[m].want);
          LiveBlocksDisjoint(s, j, m);
        }
      }
    }
    if HasRoom(s, k, r) && NothingCutOff(s, k) {
      ReserveClean(h, r);
    }
  }

  lemma ReserveClean(h: Heap, r: nat)
    requires Layout(h.segs) && LastListed(h) && r + 4096 < WORD
    requires HasRoom(h.segs, Find(h.segs, h.last), r) && NothingCutOff(h.segs, Find(h.segs, h.last))
    ensures Layout(Reserve(h, r).segs) && Live(Reserve(h, r).segs) == Live(h.segs)
  {
    var k, s, t := Find(h.segs, h.last), h.segs, Reserve(h, r).segs;
    assert SegOk(s, k);
    assert forall j :: 0 <= j <= k ==> t[j] == s[j];
    forall j | 0 <= j < |t| ensures SegOk(t, j) {
      if j <= k { assert SegOk(s, j); }
    }
    forall x | x in Live(s) ensures x in Live(t) {
      var j :| 0 <= j < |s| && !s[j].free && x == (s[j].Start(), s[j].want);
      assert t[j] == s[j];
    }
    forall x | x in Live(t) ensures x in Live(s) {
      var j :| 0 <= j < |t| && !t[j].free && x == (t[j].Start(), t[j].want);
      assert t[j] == s[j];
    }
  }

  /** In numbers: the new segment starts where the one LastSegment points at ends, with the request taken up to the
      next multiple of 4096. */
  lemma ReserveForm(h: Heap, r: nat)
    requires Layout(h.segs) && LastListed(h) && r + 4096 < WORD && HasRoom(h.segs, Find(h.segs, h.last), r)
    ensures var k := Find(h.segs, h.last);
            var end := h.last + 24 + h.segs[k].size;
            && Reserve(h, r).segs == h.segs[..k + 1] + [Seg(end, r + 4096 - r % 4096, true, 0)]
            && Reserve(h, r).last == end && Reserve(h, r).splits == h.splits
  {
    assert SegOk(h.segs, Find(h.segs, h.last));
  }

  /** On the tail the only question is room: a block at the tail always has its bytes within `size`. */
  lemma TailCutsOffNothing(h: Heap)
    requires Layout(h.segs) && LastIsTail(h)
    ensures NothingCutOff(h.segs, Find(h.segs, h.last))
  {
    assert SegOk(h.segs, |h.segs| - 1);
  }

  /** The numbers of an attempt. */
  lemma GrowsNumbers(h: Heap, size: nat)
    requires 0 < size < WORD && RoundUp(size, 64) != 0 && Grows(h, RoundUp(size, 64))
    ensures var r := RoundUp(size, 64);
            && size < r < WORD && r % 64 == 0 && RoundUp(r, 64) % 64 == 0 && RoundUp(r, 64) == r + 64 <= RoundUp(r, 4096)
            && FitsCleanly(RoundUp(r, 4096), RoundUp(r, 64))
            && Wrap(LastEnd(h)) == LastEnd(h) < WORD && LastEnd(h) + HEADER + RoundUp(r, 4096) <= WORD
  {
    var r := RoundUp(size, 64);
    Rounded(size);
    GrowsRoom(h, r);
    hide RoundUp, Wrap, Grows, LastEnd;
    ReserveSuffices(r);
    Rounded(r);
    SmallWrap(LastEnd(h));
  }

  lemma GrowsRoom(h: Heap, r: nat)
    requires Grows(h, r)
    ensures r + 4096 < WORD && LastEnd(h) + HEADER + RoundUp(r, 4096) <= WORD
  {
  }

  lemma SmallWrap(x: nat)
    ensures x < WORD ==> Wrap(x) == x
  {
  }

  /** What does not fit a request does not fit a larger one. */
  lemma NoFit(s: seq<Seg>, r: nat, larger: nat)
    requires r <= larger && FirstFit(s, r) == |s|
    ensures FirstFit(s, larger) == |s|
  {
  }

  // ---------- the coalescing pass ----------

  lemma ConsLayout(x: Seg, t: seq<Seg>)
    requires Layout(t) && HEAP_START <= x.addr && x.End() <= t[0].addr
    requires !x.free ==> 0 < x.want && x.Start() + x.want <= t[0].addr
    ensures Layout([x] + t) && ArenaEnd([x] + t) == ArenaEnd(t)
  {
    var s := [x] + t;
    assert SegOk(t, 0);
    forall i | 0 <= i < |s| ensures SegOk(s, i) {
      if i > 0 {
        assert SegOk(t, i - 1) && s[i] == t[i - 1];
        assert i + 1 < |s| ==> s[i + 1] == t[i];
      }
    }
  }

  lemma TailLayout(s: seq<Seg>)
    requires Layout(s) && |s| > 1
    ensures Layout(s[1..]) && ArenaEnd(s[1..]) == ArenaEnd(s)
  {
    forall i | 0 <= i < |s| - 1 ensures SegOk(s[1..], i) {
      assert SegOk(s, i + 1);
    }
  }

  lemma LiveCons(x: Seg, t: seq<Seg>)
    ensures Live([x] + t) == (if x.free then {} else {(x.Start(), x.want)}) + Live(t)
  {
    var s := [x] + t;
    forall p | p in Live(t) ensures p in Live(s) {
      var j :| 0 <= j < |t| && !t[j].free && p == (t[j].Start(), t[j].want);
      assert s[j + 1] == t[j];
    }
    if !x.free { assert s[0] == x; }
  }

  /** Merging two neighbouring free segments in place keeps the layout. */
  lemma MergeLayout(s: seq<Seg>, i: nat)
    requires Layout(s) && i + 1 < |s| && s[i].free && s[i + 1].free
    ensures Layout(s[..i] + [Merge(s[i], s[i + 1])] + s[i + 2..])
  {
    var t := s[..i] + [Merge(s[i], s[i + 1])] + s[i + 2..];
    assert SegOk(s, i) && SegOk(s, i + 1);
    forall j | 0 <= j < |t| ensures SegOk(t, j) {
      if j < i { assert SegOk(s, j); }
      if j > i { assert SegOk(s, j + 1) && t[j] == s[j + 1]; }
      assert i + 1 < |t| ==> t[i + 1] == s[i + 2];
    }
  }

  /** One pass of Free keeps the layout, the first address and every live block. The arena can end
      earlier afterwards: when the tail is absorbed, what a split left between the two is given up. */
  lemma {:induction false} CoalesceKeeps(s: seq<Seg>)
    requires Layout(s)
    ensures Layout(Coalesce(s)) && Live(Coalesce(s)) == Live(s)
    ensures Coalesce(s)[0].addr == s[0].addr && ArenaEnd(Coalesce(s)) <= ArenaEnd(s)
    decreases |s|
  {
    if |s| >= 2 {
      assert SegOk(s, 0) && SegOk(s, 1);
      TailLayout(s);
      assert [s[0]] + s[1..] == s && [s[1]] + s[2..] == s[1..];
      LiveCons(s[0], s[1..]);
      LiveCons(s[1], s[2..]);
      if s[0].free && s[1].free {
        var m := Merge(s[0], s[1]);
        if |s| == 2 {
          assert Coalesce(s) == [m] && Layout([m]);
          LiveCons(m, []);
        } else {
          assert s[1..][1..] == s[2..];
          TailLayout(s[1..]);
          CoalesceKeeps(s[2..]);
          ConsLayout(m, Coalesce(s[2..]));
          LiveCons(m, Coalesce(s[2..]));
        }
      } else {
        CoalesceKeeps(s[1..]);
        ConsLayout(s[0], Coalesce(s[1..]));
        LiveCons(s[0], Coalesce(s[1..]));
      }
    }
  }

  function AllFree(s: seq<Seg>): bool {
    forall i :: 0 <= i < |s| ==> s[i].free
  }

  /** A run of n free segments becomes ceil(n/2) free segments. */
  lemma {:induction false} RunHalves(s: seq<Seg>)
    requires AllFree(s)
    ensures AllFree(Coalesce(s)) && |Coalesce(s)| == (|s| + 1) / 2
    decreases |s|
  {
    if |s| >= 2 {
      RunHalves(s[2..]);
    }
  }

  /** The pass works on either side of a used segment separately, and leaves the used segment as it is. */
  lemma {:induction false} RunsSeparate(pre: seq<Seg>, u: Seg, post: seq<Seg>)
    requires !u.free
    ensures Coalesce(pre + [u] + post) == Coalesce(pre) + [u] + Coalesce(post)
    decreases |pre|
  {
    hide Coalesce;
    if pre == [] {
      assert pre + [u] + post == [u] + post;
      Stepped(u, post);
      NothingLeft();
    } else if |pre| >= 2 && pre[0].free && pre[1].free {
      var rest := pre[2..];
      assert pre == [pre[0], pre[1]] + rest && pre + [u] + post == [pre[0], pre[1]] + (rest + [u] + post);
      RunsSeparate(rest, u, post);
      Merged(pre[0], pre[1], rest);
      Merged(pre[0], pre[1], rest + [u] + post);
    } else {
      var rest := pre[1..];
      assert pre == [pre[0]] + rest && pre + [u] + post == [pre[0]] + (rest + [u] + post);
      RunsSeparate(rest, u, post);
      Stepped(pre[0], rest);
      Stepped(pre[0], rest + [u] + post);
    }
  }

  /** One turn of the pass: a step over a segment, or a merge. */
  lemma Stepped(x: Seg, t: seq<Seg>)
    requires t != [] ==> !(x.free && t[0].free)
    ensures Coalesce([x] + t) == [x] + Coalesce(t)
  {
    assert ([x] + t)[1..] == t;
  }

  lemma Merged(x: Seg, y: Seg, t: seq<Seg>)
    requires x.free && y.free
    ensures Coalesce([x, y] + t) == [Merge(x, y)] + Coalesce(t)
  {
    assert ([x, y] + t)[2..] == t;
  }

  lemma NothingLeft()
    ensures Coalesce([]) == []
  {
  }

  /** Runs of free segments, some perhaps empty, with the used segments between them: every list has this form. */
  function Woven(runs: seq<seq<Seg>>, used: seq<Seg>): seq<Seg>
    requires |runs| == |used| + 1
  {
    if used == [] then runs[0] else runs[0] + [used[0]] + Woven(runs[1..], used[1..])
  }

  /** The lengths of the runs after the pass. */
  predicate Halved(runs: seq<seq<Seg>>, halves: seq<seq<Seg>>) {
    && |halves| == |runs|
    && forall i :: 0 <= i < |runs| ==> AllFree(halves[i]) && |halves[i]| == (|runs[i]| + 1) / 2
  }

  /** One pass turns each maximal run of n free segments into ceil(n/2) free segments, and the used segments
      between the runs stay as they are and in order. */
  lemma {:induction false} EveryRunHalves(runs: seq<seq<Seg>>, used: seq<Seg>) returns (halves: seq<seq<Seg>>)
    requires |runs| == |used| + 1
    requires forall i :: 0 <= i < |runs| ==> AllFree(runs[i])
    requires forall i :: 0 <= i < |used| ==> !used[i].free
    ensures Halved(runs, halves) && Coalesce(Woven(runs, used)) == Woven(halves, used)
  {
    RunHalves(runs[0]);
    if used == [] {
      halves := [Coalesce(runs[0])];
    } else {
      var rest := EveryRunHalves(runs[1..], used[1..]);
      halves := [Coalesce(runs[0])] + rest;
      RunsSeparate(runs[0], used[0], Woven(runs[1..], used[1..]));
      hide Coalesce, AllFree;
      assert halves[1..] == rest;
      assert forall i :: 0 < i < |runs| ==> runs[i] == runs[1..][i - 1] && halves[i] == rest[i - 1];
    }
  }

  /** The form is there for every list. */
  lemma {:induction false} WovenForm(s: seq<Seg>) returns (runs: seq<seq<Seg>>, used: seq<Seg>)
    ensures |runs| == |used| + 1 && s == Woven(runs, used) && used == InUse(s)
    ensures forall i :: 0 <= i < |runs| ==> AllFree(runs[i])
    ensures forall i :: 0 <= i < |used| ==> !used[i].free
  {
    if s == [] {
      runs, used := [[]], [];
    } else {
      var rest, later := WovenForm(s[1..]);
      if s[0].free {
        runs, used := [[s[0]] + rest[0]] + rest[1..], later;
        assert s == [s[0]] + s[1..] && runs[1..] == rest[1..];
      } else {
        runs, used := [[]] + rest, [s[0]] + later;
        assert runs[1..] == rest && used[1..] == later;
      }
    }
  }

  function InUse(s: seq<Seg>): seq<Seg> {
    if s == [] then [] else (if s[0].free then [] else [s[0]]) + InUse(s[1..])
  }

  /** Segments in use come out of the pass as they were: address, size and order. */
  lemma {:induction false} CoalesceKeepsInUse(s: seq<Seg>)
    ensures InUse(Coalesce(s)) == InUse(s)
    decreases |s|
  {
    if |s| >= 2 {
      assert s[1..][1..] == s[2..];
      if s[0].free && s[1].free {
        CoalesceKeepsInUse(s[2..]);
      } else {
        CoalesceKeepsInUse(s[1..]);
      }
    }
  }

  // ---------- the ledger ----------

  /** The bytes held by segments in use (`free` false) or by free ones. */
  function Bytes(s: seq<Seg>, free: bool): nat {
    if s == [] then 0 else (if s[0].free == free then s[0].size else 0) + Bytes(s[1..], free)
  }

  /** Used bytes, free bytes, one header a segment, and one header's worth that each split leaves
      behind for good. */
  function Ledger(h: Heap): nat {
    Bytes(h.segs, false) + Bytes(h.segs, true) + HEADER * |h.segs| + HEADER * h.splits
  }

  function Total(s: seq<Seg>): nat {
    if s == [] then 0 else s[0].size + HEADER + Total(s[1..])
  }

  /** The used bytes are those of the used segments, the free bytes the rest. */
  lemma {:induction false} BytesExact(s: seq<Seg>)
    ensures Bytes(s, false) + HEADER * |InUse(s)| == Total(InUse(s))
    ensures Bytes(s, true) + HEADER * (|s| - |InUse(s)|) == Total(s) - Total(InUse(s))
  {
    if s != [] {
      BytesExact(s[1..]);
      var here := if s[0].free then [] else [s[0]];
      assert InUse(s) == here + InUse(s[1..]);
      TotalConcat(here, InUse(s[1..]));
      assert Total([s[0]]) == s[0].size + HEADER;
    }
  }

  lemma {:induction false} BytesConcat(a: seq<Seg>, b: seq<Seg>, free: bool)
    ensures Bytes(a + b, free) == Bytes(a, free) + Bytes(b, free)
  {
    if a == [] {
      assert a + b == b;
    } else {
      assert (a + b)[1..] == a[1..] + b;
      BytesConcat(a[1..], b, free);
    }
  }

  lemma BytesOne(x: Seg, free: bool)
    ensures Bytes([x], free) == if x.free == free then x.size else 0
  {
    assert [x][1..] == [];
  }

  /** The pass changes nothing about the used bytes. */
  lemma {:induction false} CoalesceUsed(s: seq<Seg>)
    ensures Bytes(Coalesce(s), false) == Bytes(s, false)
    decreases |s|
  {
    if |s| < 2 {
    } else if s[0].free && s[1].free {
      CoalesceUsed(s[2..]);
      assert s == [s[0], s[1]] + s[2..] && [s[0], s[1]] == [s[0]] + [s[1]];
      BytesConcat([s[0], s[1]], s[2..], false);
      BytesConcat([s[0]], [s[1]], false);
      BytesConcat([Merge(s[0], s[1])], Coalesce(s[2..]), false);
      BytesOne(s[0], false);
      BytesOne(s[1], false);
      BytesOne(Merge(s[0], s[1]), false);
    } else {
      CoalesceUsed(s[1..]);
      assert s == [s[0]] + s[1..];
      BytesConcat([s[0]], s[1..], false);
      BytesConcat([s[0]], Coalesce(s[1..]), false);
    }
  }

  /** Exchanging one segment for others. */
  lemma BytesSplice(s: seq<Seg>, i: nat, mid: seq<Seg>, free: bool)
    requires i < |s|
    ensures Bytes(s[..i] + mid + s[i + 1..], free)
            == Bytes(s, free) - (if s[i].free == free then s[i].size else 0) + Bytes(mid, free)
  {
    hide Bytes;
    assert s == s[..i] + [s[i]] + s[i + 1..];
    BytesConcat(s[..i] + [s[i]], s[i + 1..], free);
    BytesConcat(s[..i], [s[i]], free);
    BytesConcat(s[..i] + mid, s[i + 1..], free);
    BytesConcat(s[..i], mid, free);
    BytesOne(s[i], free);
  }

  /** Taking a segment raises the used bytes by the size it keeps. */
  lemma PlaceUsed(h: Heap, i: nat, r: nat, n: nat)
    requires i < |h.segs| && h.segs[i].free && HEADER < r <= h.segs[i].size && h.segs[i].End() <= WORD
    ensures var t := Place(h, i, r, n).segs;
            && i < |t| && t[i].addr == h.segs[i].addr && !t[i].free && t[i].want == n
            && Bytes(t, false) == Bytes(h.segs, false) + t[i].size
  {
    PlaceShape(h, i, r, n);
    var mid := Taken(h.segs[i], r, n);
    BytesSplice(h.segs, i, mid, false);
    BytesOne(mid[0], false);
    if |mid| == 2 {
      BytesConcat([mid[0]], [mid[1]], false);
      BytesOne(mid[1], false);
      assert mid == [mid[0]] + [mid[1]];
    } else {
      assert mid == [mid[0]];
    }
  }

  lemma {:induction false} FreeBytes(s: seq<Seg>)
    requires forall i :: 0 <= i < |s| ==> s[i].free
    ensures Bytes(s, false) == 0
  {
    if s != [] { FreeBytes(s[1..]); }
  }

  /** A list whose free end is exchanged for a free segment. */
  lemma CutUsed(s: seq<Seg>, t: seq<Seg>, j: nat)
    requires j <= |s| && |t| == j + 1 && t[..j] == s[..j] && t[j].free && forall i :: j <= i < |s| ==> s[i].free
    ensures Bytes(t, false) == Bytes(s, false)
  {
    assert s == s[..j] + s[j..] && t == s[..j] + [t[j]];
    BytesConcat(s[..j], s[j..], false);
    BytesConcat(s[..j], [t[j]], false);
    FreeBytes(s[j..]);
    BytesOne(t[j], false);
  }

  lemma TotalIsBytes(s: seq<Seg>)
    ensures Total(s) == Bytes(s, false) + Bytes(s, true) + HEADER * |s|
  {
  }

  lemma {:induction false} TotalConcat(a: seq<Seg>, b: seq<Seg>)
    ensures Total(a + b) == Total(a) + Total(b)
  {
    if a == [] {
      assert a + b == b;
    } else {
      assert (a + b)[1..] == a[1..] + b;
      TotalConcat(a[1..], b);
    }
  }

  lemma TotalSplice(s: seq<Seg>, i: nat, mid: seq<Seg>)
    requires i < |s|
    ensures Total(s[..i] + mid + s[i + 1..]) == Total(s) - s[i].size - HEADER + Total(mid)
  {
    TotalConcat(s[..i] + mid, s[i + 1..]);
    TotalConcat(s[..i], mid);
    assert s == s[..i] + ([s[i]] + s[i + 1..]);
    TotalConcat(s[..i], [s[i]] + s[i + 1..]);
  }

  lemma PlaceLedger(h: Heap, i: nat, r: nat, n: nat)
    requires Layout(h.segs) && i < |h.segs| && h.segs[i].free
    requires HEADER < r && FitsCleanly(h.segs[i].size, r)
    ensures Ledger(Place(h, i, r, n)) == Ledger(h)
  {
    assert SegOk(h.segs, i);
    TakenTotal(h.segs[i], r, n);
    PlaceShape(h, i, r, n);
    hide Place, Taken, Total, Bytes, FitsCleanly, SegOk, Layout;
    TotalSplice(h.segs, i, Taken(h.segs[i], r, n));
    TotalIsBytes(h.segs);
    TotalIsBytes(Place(h, i, r, n).segs);
  }

  /** What a segment is cut into; a split leaves one header's worth behind. */
  lemma TakenTotal(x: Seg, r: nat, n: nat)
    requires HEADER < r <= x.size < WORD && FitsCleanly(x.size, r)
    ensures var mid := Taken(x, r, n);
            |mid| in [1, 2] && Total(mid) + HEADER * (|mid| - 1) == x.size + HEADER
  {
    var mid := Taken(x, r, n);
    assert mid[1..] == if |mid| == 1 then [] else [mid[1]];
    if |mid| == 2 {
      assert Total([mid[1]]) == mid[1].size + HEADER;
    }
  }

  lemma TotalTwo(s: seq<Seg>)
    requires |s| >= 2
    ensures Total(s) == s[0].size + s[1].size + 2 * HEADER + Total(s[2..])
  {
  }

  lemma {:induction false} CoalesceTotal(s: seq<Seg>)
    requires Layout(s)
    ensures Total(Coalesce(s)) == Total(s)
    decreases |s|
  {
    if |s| >= 2 {
      MergedSize(s, 0);
      TotalTwo(s);
      TailLayout(s);
      if !(s[0].free && s[1].free) {
        CoalesceTotal(s[1..]);
      } else if |s| > 2 {
        TailLayout(s[1..]);
        assert s[1..][1..] == s[2..];
        CoalesceTotal(s[2..]);
      }
    }
  }
}
