/** The heap as src/Memory/Heap.cpp runs it: headers in memory, rewritten in place while loops follow
    the Next pointers. Each method is proved against the list function of the same name. */
module KernelHeap {
  import opened Common
  import M = HeapModel
  import T = HeapTheorems
  import R = HeapRuns

  const NULL: nat := 0

  datatype Header = Header(Next: nat, Size: nat, Free: bool)

  type Memory = map<nat, Header>

  // ---------- lists of headers ----------

  function NextOf(s: seq<M.Seg>, i: nat): nat
    requires i < |s|
  {
    if i + 1 < |s| then s[i + 1].addr else NULL
  }

  predicate LinkOk(m: Memory, s: seq<M.Seg>, i: nat)
    requires i < |s|
  {
    && s[i].addr != NULL && s[i].addr in m
    && m[s[i].addr] == Header(NextOf(s, i), s[i].size, s[i].free)
  }

  /** The headers in memory spell out the list `s`. */
  ghost predicate Spells(m: Memory, s: seq<M.Seg>) {
    |s| > 0 && forall i :: 0 <= i < |s| ==> LinkOk(m, s, i)
  }

  /** Only one segment of the list starts where the `i`-th does. */
  ghost predicate Alone(s: seq<M.Seg>, i: nat)
    requires i < |s|
  {
    forall j :: 0 <= j < |s| && j != i ==> s[j].addr != s[i].addr
  }

  lemma {:induction false} Increasing(s: seq<M.Seg>, i: nat, j: nat)
    requires M.Tiled(s) && i < j < |s|
    ensures s[i].End() <= s[j].addr
    decreases j - i
  {
    assert M.TileOk(s, i);
    if i + 1 < j {
      Increasing(s, i + 1, j);
      assert M.TileOk(s, i + 1);
    }
  }

  lemma TiledAlone(s: seq<M.Seg>, i: nat)
    requires M.Tiled(s) && i < |s|
    ensures Alone(s, i)
  {
    forall j | 0 <= j < |s| && j != i ensures s[j].addr != s[i].addr {
      if i < j { Increasing(s, i, j); } else { Increasing(s, j, i); }
    }
  }

  /** An address inside the body of one segment is no segment's address. */
  lemma InnerAddressIsNew(s: seq<M.Seg>, i: nat, a: nat)
    requires M.Tiled(s) && i < |s| && s[i].addr < a < s[i].End()
    ensures forall j :: 0 <= j < |s| ==> s[j].addr != a
  {
    forall j | 0 <= j < |s| ensures s[j].addr != a {
      if i < j { Increasing(s, i, j); } else if j < i { Increasing(s, j, i); }
    }
  }

  /** Rewriting one header, its link kept. */
  lemma Rewrite(m: Memory, s: seq<M.Seg>, i: nat, x: M.Seg)
    requires Spells(m, s) && i < |s| && Alone(s, i) && x.addr == s[i].addr
    ensures Spells(m[x.addr := Header(NextOf(s, i), x.size, x.free)], s[i := x])
  {
    var m', t := m[x.addr := Header(NextOf(s, i), x.size, x.free)], s[i := x];
    forall j | 0 <= j < |t| ensures LinkOk(m', t, j) {
      assert LinkOk(m, s, j);
    }
  }

  /** Writing a header `b` behind the `i`-th one and rewriting that one to `a` leading to it. */
  lemma Insert(m: Memory, s: seq<M.Seg>, i: nat, a: M.Seg, b: M.Seg)
    requires Spells(m, s) && i < |s| && Alone(s, i) && a.addr == s[i].addr
    requires b.addr != NULL && forall j :: 0 <= j < |s| ==> s[j].addr != b.addr
    ensures var t := s[..i] + [a, b] + s[i + 1..];
            && Spells(m[b.addr := Header(NextOf(s, i), b.size, b.free)][a.addr := Header(b.addr, a.size, a.free)], t)
            && Alone(t, i)
  {
    var t := s[..i] + [a, b] + s[i + 1..];
    var m' := m[b.addr := Header(NextOf(s, i), b.size, b.free)][a.addr := Header(b.addr, a.size, a.free)];
    assert LinkOk(m, s, i);
    forall j | 0 <= j < i ensures LinkOk(m', t, j) {
      assert LinkOk(m, s, j);
    }
    forall j | i + 1 < j < |t| ensures LinkOk(m', t, j) {
      assert LinkOk(m, s, j - 1) && t[j] == s[j - 1];
      assert NextOf(t, j) == NextOf(s, j - 1);
    }
  }

  /** Writing a last header `b` and leading the `k`-th one to it; what followed is cut off. */
  lemma Append(m: Memory, s: seq<M.Seg>, k: nat, b: M.Seg)
    requires Spells(m, s) && k < |s| && Alone(s, k)
    requires b.addr != NULL && forall j :: 0 <= j <= k ==> s[j].addr != b.addr
    ensures Spells(m[b.addr := Header(NULL, b.size, b.free)][s[k].addr := Header(b.addr, s[k].size, s[k].free)], s[..k + 1] + [b])
  {
    var t := s[..k + 1] + [b];
    var m' := m[b.addr := Header(NULL, b.size, b.free)][s[k].addr := Header(b.addr, s[k].size, s[k].free)];
    assert LinkOk(m, s, k);
    forall j | 0 <= j < k ensures LinkOk(m', t, j) {
      assert LinkOk(m, s, j);
    }
  }

  /** Writing a last header over the `j`-th one. */
  lemma Overwrite(m: Memory, s: seq<M.Seg>, j: nat, b: M.Seg)
    requires Spells(m, s) && j < |s| && Alone(s, j) && b.addr == s[j].addr
    ensures Spells(m[b.addr := Header(NULL, b.size, b.free)], s[..j] + [b])
  {
    var t := s[..j] + [b];
    var m' := m[b.addr := Header(NULL, b.size, b.free)];
    assert LinkOk(m, s, j);
    forall i | 0 <= i < j ensures LinkOk(m', t, i) {
      assert LinkOk(m, s, i);
    }
  }

  /** No segment of the list starts at `a`. */
  ghost predicate Unlisted(s: seq<M.Seg>, a: nat) {
    forall j :: 0 <= j < |s| ==> s[j].addr != a
  }

  /** Writing a header that is not listed leaves the list as it is. */
  lemma WriteElsewhere(m: Memory, s: seq<M.Seg>, a: nat, h: Header)
    requires Spells(m, s) && Unlisted(s, a)
    ensures Spells(m[a := h], s)
  {
    var m' := m[a := h];
    forall i | 0 <= i < |s| ensures LinkOk(m', s, i) {
      assert LinkOk(m, s, i);
    }
  }

  /** Leading the `i`-th header past its successor. */
  lemma Absorb(m: Memory, s: seq<M.Seg>, i: nat, a: M.Seg)
    requires Spells(m, s) && i + 1 < |s| && Alone(s, i) && a.addr == s[i].addr
    ensures Spells(m[a.addr := Header(NextOf(s, i + 1), a.size, a.free)], s[..i] + [a] + s[i + 2..])
  {
    var t := s[..i] + [a] + s[i + 2..];
    var m' := m[a.addr := Header(NextOf(s, i + 1), a.size, a.free)];
    assert LinkOk(m, s, i);
    forall j | 0 <= j < i ensures LinkOk(m', t, j) {
      assert LinkOk(m, s, j);
    }
    forall j | i < j < |t| ensures LinkOk(m', t, j) {
      assert LinkOk(m, s, j + 1) && t[j] == s[j + 1];
    }
  }

  /** One step of the walk settles the `i`-th segment. */
  lemma PassMerges(s: seq<M.Seg>, i: nat, m: M.Seg)
    requires i + 1 < |s| && s[i].free && s[i + 1].free && m == M.Merge(s[i], s[i + 1])
    ensures var t := s[..i] + [m] + s[i + 2..];
            t[..i + 1] + M.Coalesce(t[i + 1..]) == s[..i] + M.Coalesce(s[i..])
  {
  }

  lemma PassSkips(s: seq<M.Seg>, i: nat)
    requires i + 1 < |s| && !(s[i].free && s[i + 1].free)
    ensures s[..i + 1] + M.Coalesce(s[i + 1..]) == s[..i] + M.Coalesce(s[i..])
  {
  }

  /** The addresses of a list are still there after a split. */
  lemma StillStale(s: seq<M.Seg>, t: seq<M.Seg>, i: nat)
    requires i < |s| && |t| == |s| + 1 && t[..i] == s[..i] && t[i].addr == s[i].addr && t[i + 2..] == s[i + 1..]
    ensures forall a :: Unlisted(t, a) ==> Unlisted(s, a) && a != t[i].addr && a != t[i + 1].addr
  {
    forall a | Unlisted(t, a) ensures Unlisted(s, a) && a != t[i].addr && a != t[i + 1].addr {
      forall j | 0 <= j < |s| ensures s[j].addr != a {
        if j < i { assert s[j] == t[..i][j]; } else if j > i { assert s[j] == t[i + 2..][j - i - 1] == t[j + 1]; }
      }
    }
  }

  lemma CutTiled(s: seq<M.Seg>, j: nat, b: M.Seg)
    requires M.Tiled(s) && j < |s| && b.addr == s[j].addr && b.End() <= M.WORD
    ensures M.Tiled(s[..j] + [b])
  {
    var t := s[..j] + [b];
    forall i | 0 <= i < |t| ensures M.TileOk(t, i) { assert M.TileOk(s, i); }
  }

  ghost predicate StaleOk(m: Memory, s: seq<M.Seg>, last: nat, stale: nat) {
    Unlisted(s, last) ==> last in m && m[last].Size == stale
  }

  lemma StaleRewritten(m: Memory, s: seq<M.Seg>, i: nat, x: M.Seg, hd: Header, last: nat, stale: nat)
    requires i < |s| && x.addr == s[i].addr && StaleOk(m, s, last, stale)
    ensures StaleOk(m[x.addr := hd], s[i := x], last, stale)
  {
    var t := s[i := x];
    assert forall j :: 0 <= j < |s| ==> t[j].addr == s[j].addr;
    if Unlisted(t, last) {
      assert Unlisted(s, last) && last != t[i].addr;
    }
  }

  /** The absorbed header is left as it was. */
  lemma StaleAbsorbed(m: Memory, s: seq<M.Seg>, i: nat, x: M.Seg, hd: Header, last: nat, stale: nat)
    requires i + 1 < |s| && x.addr == s[i].addr != s[i + 1].addr && StaleOk(m, s, last, stale) && LinkOk(m, s, i + 1)
    requires s[i + 1].addr == last ==> s[i + 1].size == stale
    ensures StaleOk(m[x.addr := hd], s[..i] + [x] + s[i + 2..], last, stale)
  {
    var t := s[..i] + [x] + s[i + 2..];
    if Unlisted(t, last) {
      assert last != t[i].addr;
      if s[i + 1].addr != last {
        forall j | 0 <= j < |s| ensures s[j].addr != last {
          if j < i { assert t[j] == s[j]; }
          if j > i + 1 { assert t[j - 1] == s[j]; }
        }
      }
    }
  }

  /** The size that Free remembers is that of the segment LastSegment points at. */
  lemma StaleRemembered(m: Memory, s: seq<M.Seg>, h: M.Heap)
    requires M.Tiled(s) && h.segs == s && StaleOk(m, s, h.last, h.stale)
    ensures StaleOk(m, s, h.last, M.LastSize(h))
    ensures forall j :: 0 <= j < |s| && s[j].addr == h.last ==> s[j].size == M.LastSize(h)
  {
    var k := M.Find(s, h.last);
    if k < |s| { TiledAlone(s, k); }
  }

  /** The header at LastSegment, listed or not, holds the size the model says. */
  lemma LastHeader(m: Memory, s: seq<M.Seg>, h: M.Heap)
    requires Spells(m, s) && StaleOk(m, s, h.last, h.stale) && h.segs == s
    ensures h.last in m && m[h.last].Size == M.LastSize(h)
  {
    var k := M.Find(s, h.last);
    if k < |s| {
      assert LinkOk(m, s, k);
    } else {
      assert Unlisted(s, h.last);
    }
  }

  /** The two header writes of Reserve spell out the list that the list function gives. */
  lemma ReserveKeeps(m: Memory, s: seq<M.Seg>, last: nat, stale: nat, size: nat, splits: nat)
    requires Spells(m, s) && M.Tiled(s) && StaleOk(m, s, last, stale) && M.Grows(M.Heap(s, last, splits, stale), size)
    ensures var h := M.Heap(s, last, splits, stale);
            var h' := M.Reserve(h, size);
            && h'.splits == splits && last in m && m[last].Size == M.LastSize(h) && M.Wrap(M.LastEnd(h)) == h'.last
            && var m1 := m[h'.last := Header(NULL, M.RoundUp(size, 4096), true)];
               var m2 := m1[last := m1[last].(Next := h'.last)];
               && Spells(m2, h'.segs) && M.Tiled(h'.segs) && h'.segs[0].addr == s[0].addr
               && StaleOk(m2, h'.segs, h'.last, h'.stale)
  {
    var h := M.Heap(s, last, splits, stale);
    var k := M.Find(s, last);
    T.SmallWrap(M.LastEnd(h));
    if k < |s| {
      LinkedIn(m, s, k, h, size);
    } else {
      assert Unlisted(s, last);
      LinkedToForgotten(m, s, h, size);
    }
  }

  lemma LinkedIn(m: Memory, s: seq<M.Seg>, k: nat, h: M.Heap, size: nat)
    requires Spells(m, s) && M.Tiled(s) && h.segs == s && k == M.Find(s, h.last) < |s|
    requires M.LastEnd(h) + M.HEADER + M.RoundUp(size, 4096) <= M.WORD && M.Wrap(M.LastEnd(h)) == M.LastEnd(h)
    ensures h.last in m && m[h.last].Size == M.LastSize(h)
    ensures var b := M.Seg(M.LastEnd(h), M.RoundUp(size, 4096), true, 0);
            var t := s[..k + 1] + [b];
            var m1 := m[b.addr := Header(NULL, b.size, true)];
            && M.Reserve(h, size).segs == t && M.Tiled(t)
            && Spells(m1[h.last := m1[h.last].(Next := b.addr)], t) && t[k + 1].addr == b.addr
  {
    var b := M.Seg(M.LastEnd(h), M.RoundUp(size, 4096), true, 0);
    var t := s[..k + 1] + [b];
    assert M.TileOk(s, k) && LinkOk(m, s, k);
    forall j | 0 <= j <= k ensures s[j].addr != b.addr {
      if j < k { Increasing(s, j, k); }
    }
    TiledAlone(s, k);
    Append(m, s, k, b);
    forall j | 0 <= j < |t| ensures M.TileOk(t, j) {
      if j < |t| - 1 { assert M.TileOk(s, j); }
    }
  }

  /** Linking to a header that is not listed: the list does not change, unless the new header happens to be
      written over a listed one. */
  lemma LinkedToForgotten(m: Memory, s: seq<M.Seg>, h: M.Heap, size: nat)
    requires Spells(m, s) && M.Tiled(s) && h.segs == s && Unlisted(s, h.last) && h.last in m
    requires M.LastEnd(h) + M.HEADER + M.RoundUp(size, 4096) <= M.WORD && M.Wrap(M.LastEnd(h)) == M.LastEnd(h)
    ensures var b := M.Seg(M.LastEnd(h), M.RoundUp(size, 4096), true, 0);
            var j := M.Find(s, b.addr);
            var t := if j < |s| then s[..j] + [b] else s;
            var m1 := m[b.addr := Header(NULL, b.size, true)];
            && M.Reserve(h, size).segs == t && M.Tiled(t) && t[0].addr == s[0].addr
            && Spells(m1[h.last := m1[h.last].(Next := b.addr)], t)
            && (j < |s| ==> t[j].addr == b.addr)
  {
    var b := M.Seg(M.LastEnd(h), M.RoundUp(size, 4096), true, 0);
    var j := M.Find(s, b.addr);
    var m1 := m[b.addr := Header(NULL, b.size, true)];
    if j < |s| {
      TiledAlone(s, j);
      Overwrite(m, s, j, b);
      CutTiled(s, j, b);
      WriteElsewhere(m1, s[..j] + [b], h.last, m1[h.last].(Next := b.addr));
    } else {
      WriteElsewhere(m, s, b.addr, Header(NULL, b.size, true));
      WriteElsewhere(m1, s, h.last, m1[h.last].(Next := b.addr));
    }
  }

  class Arena {
    var FirstSegment: nat
    var LastSegment: nat
    var headers: Memory

    ghost var segs: seq<M.Seg>
    ghost var splits: nat
    ghost var stale: nat

    /** `segs` is the list that the headers spell out from FirstSegment on; a header at LastSegment that is
        not listed is still there. */
    ghost predicate Linked()
      reads this
    {
      Spells(headers, segs) && segs[0].addr == FirstSegment && StaleOk(headers, segs, LastSegment, stale)
    }

    ghost predicate Valid()
      reads this
    {
      Linked() && M.Tiled(segs)
    }

    ghost function View(): M.Heap
      reads this
    {
      M.Heap(segs, LastSegment, splits, stale)
    }

    constructor Init()
      ensures Valid() && View() == M.INITIAL_HEAP
    {
      FirstSegment := M.HEAP_START;
      headers := map[M.HEAP_START := Header(NULL, M.HEAP_STARTSIZE, true)];
      LastSegment := M.HEAP_START;
      segs := M.INITIAL_HEAP.segs;
      splits, stale := 0, 0;
      new;
      assert M.TileOk(segs, 0) && LinkOk(headers, segs, 0);
    }

    method GetUsedSize() returns (usedSize: nat)
      requires Linked()
      ensures usedSize == T.Bytes(segs, false)
    {
      usedSize := 0;
      var currentSegment := FirstSegment;
      ghost var i := 0;
      while true
        invariant 0 <= i < |segs| && currentSegment == segs[i].addr
        invariant usedSize + T.Bytes(segs[i..], false) == T.Bytes(segs, false)
        decreases |segs| - i
      {
        assert LinkOk(headers, segs, i) && segs[i..][1..] == segs[i + 1..];
        assert i + 1 < |segs| ==> LinkOk(headers, segs, i + 1);
        if !headers[currentSegment].Free {
          usedSize := usedSize + headers[currentSegment].Size;
        }
        if headers[currentSegment].Next == NULL {
          break;
        }
        currentSegment := headers[currentSegment].Next;
        i := i + 1;
      }
    }

    method GetFreeSize() returns (freeSize: nat)
      requires Linked()
      ensures freeSize == T.Bytes(segs, true)
    {
      freeSize := 0;
      var currentSegment := FirstSegment;
      ghost var i := 0;
      while true
        invariant 0 <= i < |segs| && currentSegment == segs[i].addr
        invariant freeSize + T.Bytes(segs[i..], true) == T.Bytes(segs, true)
        decreases |segs| - i
      {
        assert LinkOk(headers, segs, i) && segs[i..][1..] == segs[i + 1..];
        assert i + 1 < |segs| ==> LinkOk(headers, segs, i + 1);
        if headers[currentSegment].Free {
          freeSize := freeSize + headers[currentSegment].Size;
        }
        if headers[currentSegment].Next == NULL {
          break;
        }
        currentSegment := headers[currentSegment].Next;
        i := i + 1;
      }
    }

    method GetSegmentAmount() returns (segmentAmount: nat)
      requires Linked()
      ensures segmentAmount == |segs|
    {
      segmentAmount := 0;
      var currentSegment := FirstSegment;
      while true
        invariant segmentAmount < |segs| && currentSegment == segs[segmentAmount].addr
        decreases |segs| - segmentAmount
      {
        assert LinkOk(headers, segs, segmentAmount);
        segmentAmount := segmentAmount + 1;
        assert segmentAmount < |segs| ==> LinkOk(headers, segs, segmentAmount);
        if headers[currentSegment].Next == NULL {
          break;
        }
        currentSegment := headers[currentSegment].Next;
      }
    }

    /** Segment::Split on the segment at `segment`, the `i`-th of the list. */
    method Split(segment: nat, newSize: nat, ghost i: nat)
      requires Valid() && i < |segs| && segs[i].addr == segment && LinkOk(headers, segs, i)
      requires newSize < segs[i].size
      modifies this
      ensures Linked() && segs == M.Split(old(segs), i, newSize) && Alone(segs, i) && LinkOk(headers, segs, i)
      ensures segs[i].addr == segment && FirstSegment == old(FirstSegment) && LastSegment == old(LastSegment) && stale == old(stale)
      ensures splits == old(splits) + if M.Unsplit(old(segs[i].size), newSize) then 0 else 1
    {
      TiledAlone(segs, i);
      var splitSize := M.Wrap(headers[segment].Size - newSize - M.HEADER);
      if headers[segment].Size < 64 || splitSize < 4096 {
        return;
      }
      assert M.TileOk(segs, i);
      var newSegment := M.Wrap(segment + M.HEADER + newSize);
      InnerAddressIsNew(segs, i, newSegment);
      ghost var a := segs[i].(size := M.Wrap(newSize - M.HEADER));
      Insert(headers, segs, i, a, M.Seg(newSegment, splitSize, true, 0));
      headers := headers[newSegment := Header(headers[segment].Next, splitSize, true)];
      headers := headers[segment := Header(newSegment, M.Wrap(newSize - M.HEADER), headers[segment].Free)];
      segs := M.Split(segs, i, newSize);
      splits := splits + 1;
      StillStale(old(segs), segs, i);
    }

    /** Reserve: two header writes, at the end of what LastSegment holds and at LastSegment. Whether that one is listed
        or not, the list becomes what the list function says, if the address space has room. */
    method Reserve(size: nat)
      requires Valid()
      modifies this
      ensures LastSegment == old(M.Wrap(M.LastEnd(View())))
      ensures old(LastSegment) in old(headers)
      ensures var m1 := old(headers)[LastSegment := Header(NULL, M.RoundUp(size, 4096), true)];
              headers == m1[old(LastSegment) := m1[old(LastSegment)].(Next := LastSegment)]
      ensures old(M.Grows(View(), size)) ==> Valid() && View() == M.Reserve(old(View()), size)
    {
      LastHeader(headers, segs, View());
      hide Spells, StaleOk, M.Tiled, M.Reserve, M.Grows, M.LastSize, M.RoundUp, M.Wrap;
      ghost var room, h := M.Grows(View(), size), M.Reserve(View(), size);
      if room {
        ReserveKeeps(headers, segs, LastSegment, stale, size, splits);
      }
      var rounded := M.RoundUp(size, 4096);
      var newSegment := M.Wrap(LastSegment + M.HEADER + headers[LastSegment].Size);
      headers := headers[newSegment := Header(NULL, rounded, true)];
      headers := headers[LastSegment := headers[LastSegment].(Next := newSegment)];
      LastSegment := newSegment;
      if room {
        segs, stale := h.segs, h.stale;
      }
    }

    /** What happens to the header of an unlisted LastSegment while its bytes belong to somebody else. */
    method Overwritten(size: nat)
      requires Valid() && !M.LastListed(View())
      modifies this
      ensures Valid() && View() == old(View()).(stale := size)
    {
      assert Unlisted(segs, LastSegment);
      WriteElsewhere(headers, segs, LastSegment, headers[LastSegment].(Size := size));
      headers := headers[LastSegment := headers[LastSegment].(Size := size)];
      stale := size;
    }

    /** Takes the `i`-th segment for a request rounded to `Size`: the two branches of the search loop. */
    method Take(segment: nat, size: nat, ghost i: nat, ghost n: nat)
      requires Valid() && i < |segs| && segs[i].addr == segment && LinkOk(headers, segs, i)
      requires segs[i].free && segs[i].size >= size
      modifies this
      ensures Linked() && View() == M.Place(old(View()), i, size, n)
    {
      TiledAlone(segs, i);
      if headers[segment].Size != size {
        Split(segment, size, i);
      }
      ghost var x := segs[i].(free := false, want := n);
      Rewrite(headers, segs, i, x);
      StaleRewritten(headers, segs, i, x, headers[segment].(Free := false), LastSegment, stale);
      headers := headers[segment := headers[segment].(Free := false)];
      segs := segs[i := segs[i].(free := false, want := n)];
    }

    /** The search loop of Allocate: take the first free segment that is large enough. */
    method Search(rounded: nat, ghost n: nat) returns (found: bool, start: nat)
      requires Valid()
      modifies this
      ensures found <==> M.FirstFit(old(segs), rounded) < |old(segs)|
      ensures found ==> Linked() && (View(), start) == M.Grant(old(View()), rounded, n)
      ensures !found ==> unchanged(this)
    {
      var currentSegment := FirstSegment;
      ghost var i := 0;
      while true
        invariant 0 <= i < |segs| && currentSegment == segs[i].addr
        invariant forall j :: 0 <= j < i ==> !(segs[j].free && segs[j].size >= rounded)
        invariant unchanged(this)
        decreases |segs| - i
      {
        assert LinkOk(headers, segs, i);
        if headers[currentSegment].Free && headers[currentSegment].Size >= rounded {
          assert i == M.FirstFit(segs, rounded);
          Take(currentSegment, rounded, i, n);
          return true, currentSegment + M.HEADER;
        }
        if headers[currentSegment].Next == NULL {
          assert i + 1 < |segs| ==> LinkOk(headers, segs, i + 1);
          return false, NULL;
        }
        currentSegment := headers[currentSegment].Next;
        i := i + 1;
      }
    }

    /** The search; if it fails, Reserve and another attempt. The measure is how far LastSegment can still move
        up; when Reserve links its segment into the list there is only one more attempt (see RetryFits). */
    method Allocate(size: nat, ghost n: nat) returns (start: nat)
      requires Valid() && size < M.WORD && M.AllocateFor(View(), size, n).Some?
      modifies this
      ensures Linked() && Some((View(), start)) == old(M.AllocateFor(View(), size, n))
      ensures size != 0 && n == size && M.Layout(old(segs)) && R.Admissible(old(View()), size) ==> M.Layout(segs)
      decreases M.WORD - LastSegment
    {
      if size == 0 {
        return 0;
      }
      if n == size && M.Layout(segs) && R.Admissible(View(), size) {
        R.AdmissibleLayout(View(), size);
      }
      var rounded := M.RoundUp(size, 64);
      ghost var h := View();
      var found;
      found, start := Search(rounded, n);
      if found {
        return;
      }
      assert M.FirstFit(segs, rounded) == |segs|;
      M.TriesAgain(h, size, n);
      hide M.AllocateFor, R.Admissible, M.Layout, M.Reserve, M.FirstFit, M.RoundUp, M.Grows, Spells, StaleOk;
      Reserve(rounded);
      start := Allocate(rounded, n);
    }

    /** Marks the block's segment free, then walks the list once. */
    method Free(address: nat)
      requires Linked() && M.Layout(segs) && R.LiveAt(segs, address)
      modifies this
      ensures Linked() && M.Layout(segs) && View() == M.Free(old(View()), address)
    {
      MarkFree(address - M.HEADER, M.Find(segs, address - M.HEADER));
      hide Spells, StaleOk, M.Layout, M.LastSize;
      Pass();
    }

    method MarkFree(segment: nat, ghost k: nat)
      requires Linked() && M.Layout(segs) && k < |segs| && segs[k].addr == segment && !segs[k].free
      modifies this
      ensures Linked() && M.Layout(segs) && SizesFrom(0)
      ensures segs == old(segs)[k := old(segs)[k].(free := true)] && stale == old(M.LastSize(View()))
      ensures LastSegment == old(LastSegment) && splits == old(splits)
    {
      ghost var t := segs[k := segs[k].(free := true)];
      R.Released(segs, k, t);
      M.LayoutTiled(segs);
      TiledAlone(segs, k);
      assert LinkOk(headers, segs, k);
      Rewrite(headers, segs, k, t[k]);
      StaleRemembered(headers, segs, View());
      stale := M.LastSize(View());
      StaleRewritten(headers, segs, k, t[k], headers[segment].(Free := true), LastSegment, stale);
      hide M.Layout, M.Live, M.LastSize, Spells, StaleOk;
      assert forall j :: 0 <= j < |t| ==> t[j].addr == segs[j].addr && t[j].size == segs[j].size;
      headers := headers[segment := headers[segment].(Free := true)];
      segs := t;
    }

    /** Size += Next->Size + sizeof(Segment); Next = Next->Next. */
    method AbsorbNext(segment: nat, ghost i: nat)
      requires Linked() && M.Layout(segs) && i + 1 < |segs| && segs[i].addr == segment
      requires LinkOk(headers, segs, i) && LinkOk(headers, segs, i + 1)
      requires segs[i].free && segs[i + 1].free && (segs[i + 1].addr == LastSegment ==> segs[i + 1].size == stale)
      modifies this
      ensures Linked() && M.Layout(segs) && stale == old(stale)
      ensures segs == old(segs)[..i] + [M.Merge(old(segs)[i], old(segs)[i + 1])] + old(segs)[i + 2..]
      ensures FirstSegment == old(FirstSegment) && LastSegment == old(LastSegment) && splits == old(splits)
    {
      ghost var m := M.Merge(segs[i], segs[i + 1]);
      M.MergedSize(segs, i);
      T.MergeLayout(segs, i);
      M.LayoutTiled(segs);
      TiledAlone(segs, i);
      Absorb(headers, segs, i, m);
      var next := headers[segment].Next;
      assert next == segs[i + 1].addr != segment;
      StaleAbsorbed(headers, segs, i, m, Header(NextOf(segs, i + 1), m.size, m.free), LastSegment, stale);
      headers := headers[segment := headers[segment].(Size := headers[segment].Size + headers[next].Size + M.HEADER)];
      headers := headers[segment := headers[segment].(Next := headers[next].Next)];
      assert headers == old(headers)[segment := Header(NextOf(segs, i + 1), m.size, m.free)];
      segs := segs[..i] + [m] + segs[i + 2..];
    }

    /** From position `i` on the pass has not touched anything: if LastSegment points there, it is at a segment
        of size `stale`. */
    ghost predicate SizesFrom(i: nat)
      reads this
    {
      forall j :: i <= j < |segs| && segs[j].addr == LastSegment ==> segs[j].size == stale
    }

    /** The walk of Free, merging free neighbours in pairs. */
    method Pass()
      requires Linked() && M.Layout(segs) && SizesFrom(0)
      modifies this
      ensures Linked() && M.Layout(segs) && segs == M.Coalesce(old(segs))
      ensures LastSegment == old(LastSegment) && splits == old(splits) && stale == old(stale)
    {
      var currentSegment := FirstSegment;
      ghost var i := 0;
      while true
        invariant Linked() && M.Layout(segs) && 0 <= i <= |segs|
        invariant currentSegment == if i < |segs| then segs[i].addr else NULL
        invariant segs[..i] + M.Coalesce(segs[i..]) == M.Coalesce(old(segs))
        invariant FirstSegment == old(FirstSegment) && LastSegment == old(LastSegment) && splits == old(splits)
        invariant stale == old(stale) && SizesFrom(i)
        decreases |segs| - i
      {
        assert i < |segs| ==> LinkOk(headers, segs, i);
        assert i + 1 < |segs| ==> LinkOk(headers, segs, i + 1);
        if currentSegment == NULL || headers[currentSegment].Next == NULL {
          assert |segs[i..]| < 2;
          break;
        }
        if headers[currentSegment].Free && headers[headers[currentSegment].Next].Free {
          PassMerges(segs, i, M.Merge(segs[i], segs[i + 1]));
          AbsorbNext(currentSegment, i);
        } else {
          PassSkips(segs, i);
        }
        assert i < |segs| && LinkOk(headers, segs, i);
        currentSegment := headers[currentSegment].Next;
        i := i + 1;
      }
      assert segs[..i] + segs[i..] == segs;
    }
  }
}
