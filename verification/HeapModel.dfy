/** The kernel heap as a value: the list of segments that src/Memory/Heap.cpp threads through
    memory, and what each heap operation does to that list. Addresses and sizes are 64-bit, and
    every subtraction that can wrap in the source is written with its wrap. */
module HeapModel {
  import opened Common

  const HEADER: nat := 24              // sizeof(Segment)
  const HEAP_START: nat := 0x1000_0000_0000
  const HEAP_STARTSIZE: nat := 0x10 * 4096
  const WORD: nat := 0x1_0000_0000_0000_0000

  function Wrap(x: int): nat {
    x % WORD
  }

  /** One segment header. `want` is the number of bytes the caller asked for; the source does not
      store it, it only has to respect it. It is meaningful while the segment is in use. */
  datatype Seg = Seg(addr: nat, size: nat, free: bool, want: nat) {
    function Start(): nat { addr + HEADER }
    function End(): nat { addr + HEADER + size }
  }

  /** `last` is the pointer LastSegment. It need not be the tail, nor even be listed: Free may absorb the
      segment it points at. The header then stays behind in memory, and `stale` is the size it holds. */
  datatype Heap = Heap(segs: seq<Seg>, last: nat, splits: nat, stale: nat)

  // ---------- well-formed lists ----------

  /** Where segment `i` has to stop: the next header, or its own end if it is the tail. */
  function Limit(s: seq<Seg>, i: nat): nat
    requires i < |s|
  {
    if i + 1 < |s| then s[i + 1].addr else s[i].End()
  }

  /** A segment lies in the arena and ends before the next header. */
  predicate TileOk(s: seq<Seg>, i: nat)
    requires i < |s|
  {
    HEAP_START <= s[i].addr && s[i].End() <= Limit(s, i) <= WORD
  }

  ghost predicate Tiled(s: seq<Seg>) {
    |s| > 0 && forall i :: 0 <= i < |s| ==> TileOk(s, i)
  }

  /** Besides, a block in use has the room its owner asked for. The room reaches to the next header,
      not to `size`. */
  predicate SegOk(s: seq<Seg>, i: nat)
    requires i < |s|
  {
    TileOk(s, i) && (!s[i].free ==> 0 < s[i].want && s[i].Start() + s[i].want <= Limit(s, i))
  }

  ghost predicate Layout(s: seq<Seg>) {
    |s| > 0 && forall i :: 0 <= i < |s| ==> SegOk(s, i)
  }

  lemma LayoutTiled(s: seq<Seg>)
    requires Layout(s)
    ensures Tiled(s)
  {
    forall i | 0 <= i < |s| ensures TileOk(s, i) { assert SegOk(s, i); }
  }

  /** The live blocks: start address and requested length. */
  ghost function Live(s: seq<Seg>): set<(nat, nat)> {
    set i | 0 <= i < |s| && !s[i].free :: (s[i].Start(), s[i].want)
  }

  function ArenaEnd(s: seq<Seg>): nat
    requires |s| > 0
  {
    s[|s| - 1].End()
  }

  // ---------- what the operations do ----------

  const INITIAL_HEAP := Heap([Seg(HEAP_START, HEAP_STARTSIZE, true, 0)], HEAP_START, 0, 0)

  /** Size + (64 - (Size % 64)): always rounds up, even a multiple of 64. */
  function RoundUp(n: nat, unit: nat): nat
    requires unit > 0
  {
    Wrap(n + (unit - n % unit))
  }

  /** The index of the first free segment of at least `r` bytes, or |s|. */
  function FirstFit(s: seq<Seg>, r: nat): (i: nat)
    ensures i <= |s|
    ensures i < |s| ==> s[i].free && s[i].size >= r
    ensures forall j :: 0 <= j < i ==> !(s[j].free && s[j].size >= r)
  {
    if s == [] then 0
    else if s[0].free && s[0].size >= r then 0
    else 1 + FirstFit(s[1..], r)
  }

  /** Whether Segment::Split returns without splitting. The subtraction wraps. */
  predicate Unsplit(size: nat, r: nat) {
    size < 64 || Wrap(size - r - HEADER) < 4096
  }

  /** Segment::Split: the new header goes `r` bytes past the start; the old segment keeps
      r - 24 bytes, so one header's worth of bytes belongs to nobody. */
  function Split(s: seq<Seg>, i: nat, r: nat): seq<Seg>
    requires i < |s|
  {
    if Unsplit(s[i].size, r) then s
    else s[..i] + [s[i].(size := Wrap(r - HEADER)),
                   Seg(Wrap(s[i].Start() + r), Wrap(s[i].size - r - HEADER), true, 0)] + s[i + 1..]
  }

  /** The found segment is taken, split first unless it fits exactly. */
  function Place(h: Heap, i: nat, r: nat, n: nat): Heap
    requires i < |h.segs|
  {
    var exact := h.segs[i].size == r;
    var s := if exact then h.segs else Split(h.segs, i, r);
    h.(segs := s[i := s[i].(free := false, want := n)],
       splits := if exact || Unsplit(h.segs[i].size, r) then h.splits else h.splits + 1)
  }

  /** The index of the segment at address `a`, or |s|. */
  function Find(s: seq<Seg>, a: nat): (i: nat)
    ensures i <= |s|
    ensures i < |s| ==> s[i].addr == a
    ensures forall j :: 0 <= j < i ==> s[j].addr != a
  {
    if s == [] || s[0].addr == a then 0 else 1 + Find(s[1..], a)
  }

  predicate LastListed(h: Heap) {
    Find(h.segs, h.last) < |h.segs|
  }

  predicate LastIsTail(h: Heap) {
    |h.segs| > 0 && Find(h.segs, h.last) == |h.segs| - 1
  }

  /** The size in the header LastSegment points at. */
  function LastSize(h: Heap): nat {
    var k := Find(h.segs, h.last);
    if k < |h.segs| then h.segs[k].size else h.stale
  }

  function LastEnd(h: Heap): nat {
    h.last + HEADER + LastSize(h)
  }

  /** Reserve: a new segment right after the one LastSegment points at, which becomes LastSegment. Whatever
      was listed behind that one is cut off. If that one is not listed, the new segment is linked to
      something that cannot be reached: it is listed only if its header happens to overwrite a listed one. */
  function Reserve(h: Heap, r: nat): Heap {
    var k := Find(h.segs, h.last);
    var new_ := Seg(Wrap(LastEnd(h)), RoundUp(r, 4096), true, 0);
    var j := Find(h.segs, new_.addr);
    h.(segs := if k < |h.segs| then h.segs[..k + 1] + [new_] else if j < |h.segs| then h.segs[..j] + [new_] else h.segs,
       last := new_.addr, stale := new_.size)
  }

  /** Reserve links its segment into the list. */
  predicate Links(h: Heap) {
    LastListed(h) || Find(h.segs, Wrap(LastEnd(h))) < |h.segs|
  }

  /** The address space has room for a segment of the rounded size where Reserve puts it. */
  predicate Grows(h: Heap, r: nat) {
    r + 4096 < WORD && LastEnd(h) + HEADER + RoundUp(r, 4096) <= WORD
  }

  /** Every attempt moves LastSegment on. */
  lemma MovesOn(h: Heap, r: nat)
    requires Grows(h, r)
    ensures h.last < Reserve(h, r).last == LastEnd(h) < WORD && r < WORD
  {
    hide Find, RoundUp;
  }

  /** The first fit is taken and its start returned. */
  function Grant(h: Heap, r: nat, n: nat): (Heap, nat)
    requires FirstFit(h.segs, r) < |h.segs|
  {
    var i := FirstFit(h.segs, r);
    (Place(h, i, r, n), h.segs[i].Start())
  }

  /** Allocate(size) on behalf of a caller who needs n bytes: the first fit if there is one, and otherwise
      another attempt after Reserve, which rounds the rounded size again; if rounding wrapped to 0, the
      answer is null. There is no result when the arena would have to leave the address space. */
  function AllocateFor(h: Heap, size: nat, n: nat): Option<(Heap, nat)>
    decreases WORD - h.last
  {
    if size == 0 then Some((h, 0))
    else
      var r := RoundUp(size, 64);
      if FirstFit(h.segs, r) < |h.segs| then Some(Grant(h, r, n))
      else if !Grows(h, r) then None
      else MovesOn(h, r); AllocateFor(Reserve(h, r), r, n)
  }

  function Allocate(h: Heap, n: nat): Option<(Heap, nat)> {
    AllocateFor(h, n, n)
  }

  /** The pass of Free: merge a free segment with its free successor, then step over the result. */
  function Coalesce(s: seq<Seg>): seq<Seg> {
    if |s| < 2 then s
    else if s[0].free && s[1].free then [Merge(s[0], s[1])] + Coalesce(s[2..])
    else [s[0]] + Coalesce(s[1..])
  }

  function Merge(a: Seg, b: Seg): Seg {
    a.(size := Wrap(a.size + b.size + HEADER))
  }

  /** In a well-formed list the merged size does not wrap. */
  lemma MergedSize(s: seq<Seg>, i: nat)
    requires Layout(s) && i + 1 < |s|
    ensures Merge(s[i], s[i + 1]).size == s[i].size + s[i + 1].size + HEADER
  {
    assert SegOk(s, i) && SegOk(s, i + 1);
  }

  function Free(h: Heap, a: nat): Heap
    requires a >= HEADER && Find(h.segs, a - HEADER) < |h.segs|
  {
    var i := Find(h.segs, a - HEADER);
    h.(segs := Coalesce(h.segs[i := h.segs[i].(free := true)]), stale := LastSize(h))
  }

  // ---------- Allocate recurses at most once ----------

  /** Rounding to 64 twice asks for no more than Reserve supplies. */
  lemma ReserveSuffices(r: nat)
    requires r % 64 == 0 && r + 4096 < WORD
    ensures RoundUp(r, 64) == r + 64 <= RoundUp(r, 4096)
    ensures RoundUp(r, 4096) == RoundUp(r, 64) || RoundUp(r, 4096) >= RoundUp(r, 64) + 64
  {
  }

  lemma Rounded(n: nat)
    requires n < WORD
    ensures RoundUp(n, 64) % 64 == 0
    ensures RoundUp(n, 64) == if n + 64 - n % 64 < WORD then n + 64 - n % 64 else 0
  {
  }

  /** If Reserve links its segment in, the retry finds it, so Allocate recurses at most once. */
  lemma RetryFits(h: Heap, size: nat, n: nat)
    requires 0 < size < WORD && RoundUp(size, 64) != 0 && Links(h) && Grows(h, RoundUp(size, 64))
    requires FirstFit(h.segs, RoundUp(size, 64)) == |h.segs|
    ensures var r := RoundUp(size, 64);
            var h1 := Reserve(h, r);
            && |h1.segs| > 0 && FirstFit(h1.segs, RoundUp(r, 64)) == |h1.segs| - 1
            && AllocateFor(h, size, n) == Some(Grant(h1, RoundUp(r, 64), n))
  {
    var r := RoundUp(size, 64);
    var h1 := Reserve(h, r);
    Rounded(size);
    ReserveSuffices(r);
    assert h1.segs[|h1.segs| - 1].size >= RoundUp(r, 64);
    assert forall j :: 0 <= j < |h1.segs| - 1 ==> h1.segs[j] == h.segs[j];
    assert FirstFit(h1.segs, RoundUp(r, 64)) == |h1.segs| - 1;
    assert AllocateFor(h, size, n) == AllocateFor(h1, r, n);
  }

  /** A call that finds no fit but returns has grown the arena and tried again. */
  lemma TriesAgain(h: Heap, size: nat, n: nat)
    requires 0 < size && FirstFit(h.segs, RoundUp(size, 64)) == |h.segs| && AllocateFor(h, size, n).Some?
    ensures var r := RoundUp(size, 64);
            && Grows(h, r) && AllocateFor(h, size, n) == AllocateFor(Reserve(h, r), r, n)
            && h.last < Reserve(h, r).last && h.last < WORD && r < WORD
  {
    var r := RoundUp(size, 64);
    if Grows(h, r) { MovesOn(h, r); }
    hide Reserve, RoundUp, FirstFit, Grant;
  }
}
