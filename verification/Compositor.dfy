/** The incremental repaint of src/ProcessHandler/Compositor.cpp, for processes that have no frame. The
    compositor only reads the processes, so here it is handed their views. */
module Compositor {
  import opened Processes
  import opened Canvas

  /** What the compositor reads of a process. */
  function ViewOf(p: Process): View
    reads p`Pos, p`Base
  {
    View(p.Pos.X, p.Pos.Y, p.Width, p.Height, p.Base)
  }

  predicate Unframed(p: Process)
    reads p`Type
  {
    p.Type == FULLSCREEN || p.Type == FRAMELESSWINDOW
  }

  /** For processes without frames the overlap test of Process is that of their views. */
  lemma MeetsIsMeet(p: Process, q: Process)
    requires Unframed(p) && Unframed(q)
    ensures p.Meets(q) == Meet(ViewOf(p), ViewOf(q))
  {
  }

  /** A process without a frame that SetPos has placed is one Render copies. */
  lemma PlacedIsCopied(p: Process, newPos: Point, screen: Point, g: Geometry)
    requires Unframed(p) && p.Pos == p.Placed(newPos, screen) && screen == Point(g.Width, g.Height)
    requires p.Width <= g.Width && p.Height <= g.Height
    ensures !ViewOf(p).Skipped(g)
  {
  }

  predicate Overlapped(vs: seq<View>, i: nat)
    requires i < |vs|
  {
    exists j :: i < j < |vs| && Meet(vs[i], vs[j])
  }

  /** By one that is rendered later and has a point in common with it. */
  lemma OverlappedIff(vs: seq<View>, i: nat)
    requires i < |vs|
    ensures Overlapped(vs, i) <==>
            exists j, q :: i < j < |vs| && InRect(Point(vs[i].X, vs[i].Y), Point(vs[i].Width, vs[i].Height), q)
                           && InRect(Point(vs[j].X, vs[j].Y), Point(vs[j].Width, vs[j].Height), q)
  {
    forall j | i < j < |vs|
      ensures Meet(vs[i], vs[j]) <==>
              exists q :: InRect(Point(vs[i].X, vs[i].Y), Point(vs[i].Width, vs[i].Height), q)
                          && InRect(Point(vs[j].X, vs[j].Y), Point(vs[j].Width, vs[j].Height), q)
    {
      MeetIff(Point(vs[i].X, vs[i].Y), Point(vs[i].Width, vs[i].Height), Point(vs[j].X, vs[j].Y), Point(vs[j].Width, vs[j].Height));
    }
    hide InRect, RectsMeet;
  }

  /** Every row lies in the buffer, with a column to spare. */
  predicate Copyable(vs: seq<View>, g: Geometry, n: nat) {
    AllFit(vs, g, n) && forall k :: 0 <= k < |vs| ==> SpareColumn(vs[k], g)
  }

  /** The buffer is what a full repaint would leave. */
  predicate UpToDate(b: seq<ARGB>, vs: seq<View>, g: Geometry)
    requires AllFit(vs, g, |b|)
  {
    Repaint(b, vs, g) == b
  }

  /** New pixels for a window, from its procedure. */
  datatype Drawing = Drawing(i: nat, pixels: seq<ARGB>)

  predicate Drawable(vs: seq<View>, d: Drawing) {
    d.i < |vs| && |d.pixels| >= Area(vs[d.i].Width, vs[d.i].Height)
  }

  function Drawn(vs: seq<View>, d: Drawing): seq<View>
    requires Drawable(vs, d)
  {
    vs[d.i := vs[d.i].(Pixels := d.pixels)]
  }

  function AllDrawn(vs: seq<View>, ds: seq<Drawing>): (r: seq<View>)
    requires forall k :: 0 <= k < |ds| ==> Drawable(vs, ds[k])
    ensures |r| == |vs| && forall k :: 0 <= k < |vs| ==> r[k].SameShape(vs[k])
  {
    if ds == [] then vs
    else
      var n := |ds| - 1;
      var before := AllDrawn(vs, ds[..n]);
      assert Drawable(vs, ds[n]) && before[ds[n].i].SameShape(vs[ds[n].i]);
      Drawn(before, ds[n])
  }

  lemma DrawnFits(vs: seq<View>, d: Drawing, g: Geometry, n: nat)
    requires Copyable(vs, g, n) && Drawable(vs, d)
    ensures Copyable(Drawn(vs, d), g, n) && Drawn(vs, d)[d.i].SameShape(vs[d.i])
    ensures Drawn(vs, d)[d.i].Valid() && Drawn(vs, d)[d.i].InBuffer(g, n)
  {
    var v, w := vs[d.i], Drawn(vs, d)[d.i];
    assert w.InBuffer(g, n) by { assert forall r :: w.Start(g, r) == v.Start(g, r); }
  }

  lemma DrawnOverlap(vs: seq<View>, d: Drawing)
    requires Drawable(vs, d)
    ensures Overlapped(Drawn(vs, d), d.i) == Overlapped(vs, d.i)
  {
    assert forall j :: 0 <= j < |vs| ==> Meet(Drawn(vs, d)[d.i], Drawn(vs, d)[j]) == Meet(vs[d.i], vs[j]);
  }

  /** Rendering a changed window over the full repaint of the old contents. */
  lemma RenderAgain(base: seq<ARGB>, was: seq<View>, g: Geometry, i: nat, w: View)
    requires Copyable(was, g, |base|) && i < |was| && w.SameShape(was[i]) && w.Valid() && w.InBuffer(g, |base|)
    requires !Overlapped(was[i := w], i)
    ensures AllFit(was[i := w], g, |base|)
    ensures Paint(Repaint(base, was, g), w, g) == Repaint(base, was[i := w], g)
  {
    assert forall j :: i < j < |was| ==> was[i := w][j] == was[j];
    assert forall j :: i < j < |was| ==> Meet(was[i], was[j]) == Meet(w, was[j]);
    OnTopIfNotMeeting(was, g, |base|, i);
    RenderIsRepaint(base, was, g, i, w);
  }

  method CopyRow(dest: array<ARGB>, at: nat, source: seq<ARGB>, from: nat, n: nat)
    requires at + n <= dest.Length && from + n <= |source|
    modifies dest
    ensures dest[..] == Blit(old(dest[..]), at, source[from..from + n])
  {
    forall k | 0 <= k < n {
      dest[at + k] := source[from + k];
    }
  }

  class Screen {
    const g: Geometry
    const Backbuffer: array<ARGB>
    const Frontbuffer: array<ARGB>
    var RedrawRequest: bool
    var BufferSwapRequest: bool

    ghost predicate Valid() {
      Backbuffer != Frontbuffer && Backbuffer.Length == Frontbuffer.Length
    }

    constructor (g: Geometry, back: array<ARGB>, front: array<ARGB>)
      requires back != front && back.Length == front.Length
      ensures Valid() && this.g == g && Backbuffer == back && Frontbuffer == front && !RedrawRequest && !BufferSwapRequest
    {
      this.g, Backbuffer, Frontbuffer := g, back, front;
      RedrawRequest, BufferSwapRequest := false, false;
    }

    /** Process::Render of a process without a frame. */
    method Render(v: View)
      requires v.Valid() && v.InBuffer(g, Backbuffer.Length)
      modifies Backbuffer
      ensures Backbuffer[..] == Paint(old(Backbuffer[..]), v, g)
    {
      if v.X < 0 || v.X + v.Width > g.Width || v.Y < 0 || v.Y + v.Height > g.Height {
        return;
      }
      AllRows(Backbuffer[..], v, g);
      CopyRows(v);
    }

    /** Its loop over the rows. */
    method CopyRows(v: View)
      requires v.Valid() && v.InBuffer(g, Backbuffer.Length) && !v.Skipped(g)
      modifies Backbuffer
      ensures Backbuffer[..] == Rows(old(Backbuffer[..]), v, g, v.Height)
    {
      ghost var before := Backbuffer[..];
      var source, dest := 0, v.X + g.PixelsPerScanline * v.Y;
      FirstRow(before, v, g);
      hide *;
      for y := 0 to v.Height
        invariant source == v.Offset(y) && dest == v.Start(g, y)
        invariant Backbuffer[..] == Rows(before, v, g, y)
      {
        NextRow(before, v, g, y, dest, source, v.Width + 1);
        CopyRow(Backbuffer, dest, v.Pixels, source, v.Width + 1);
        source := source + (v.Width + 1);
        dest := dest + g.PixelsPerScanline;
      }
    }

    /** Compositor::Update(i), after window `i` has changed its pixels: asks for a redraw if a later window
        meets it, else renders it over what is there. Where that was the full repaint of the old contents
        from whatever lay below, it then is the full repaint of the new ones. */
    method Update(vs: seq<View>, i: nat, ghost base: seq<ARGB>, ghost was: seq<View>)
      requires i < |vs| && Copyable(vs, g, Backbuffer.Length)
      requires |base| == Backbuffer.Length && |was| == |vs| && Copyable(was, g, |base|)
      requires vs[i].SameShape(was[i]) && vs == was[i := vs[i]]
      modifies `RedrawRequest, `BufferSwapRequest, Backbuffer
      ensures RedrawRequest == (old(RedrawRequest) || Overlapped(vs, i))
      ensures BufferSwapRequest == (old(BufferSwapRequest) || !Overlapped(vs, i))
      ensures Overlapped(vs, i) ==> Backbuffer[..] == old(Backbuffer[..])
      ensures !Overlapped(vs, i) ==> Backbuffer[..] == Paint(old(Backbuffer[..]), vs[i], g)
      ensures !Overlapped(vs, i) && old(Backbuffer[..]) == Repaint(base, was, g) ==> Backbuffer[..] == Repaint(base, vs, g)
    {
      for j := i + 1 to |vs|
        invariant forall k :: i < k < j ==> !Meet(vs[i], vs[k])
        invariant RedrawRequest == old(RedrawRequest) && BufferSwapRequest == old(BufferSwapRequest)
        invariant Backbuffer[..] == old(Backbuffer[..])
      {
        if Meet(vs[i], vs[j]) {
          RedrawRequest := true;
          return;
        }
      }
      assert !Overlapped(vs, i);
      RenderAgain(base, was, g, i, vs[i]);
      Render(vs[i]);
      BufferSwapRequest := true;
    }

    /** Copies the back buffer to the screen, without the cursor. */
    method SwapBuffers()
      requires Valid()
      modifies Frontbuffer
      ensures Frontbuffer[..] == Backbuffer[..]
    {
      forall k | 0 <= k < Backbuffer.Length {
        Frontbuffer[k] := Backbuffer[k];
      }
    }

    method RenderAll(vs: seq<View>)
      requires AllFit(vs, g, Backbuffer.Length)
      modifies Backbuffer
      ensures Backbuffer[..] == Repaint(old(Backbuffer[..]), vs, g)
    {
      ghost var before := Backbuffer[..];
      NextPaintNone(before, vs, g);
      for i := 0 to |vs|
        invariant AllFit(vs[..i], g, |before|) && Backbuffer[..] == Repaint(before, vs[..i], g)
      {
        NextPaint(before, vs, g, i);
        Render(vs[i]);
      }
      assert vs[..|vs|] == vs;
    }

    /** Compositor::Update(): the full repaint if one was asked for. */
    method UpdateAll(vs: seq<View>)
      requires Valid() && AllFit(vs, g, Backbuffer.Length)
      modifies `RedrawRequest, `BufferSwapRequest, Backbuffer, Frontbuffer
      ensures !RedrawRequest && !BufferSwapRequest
      ensures Backbuffer[..] == if old(RedrawRequest) then Repaint(old(Backbuffer[..]), vs, g) else old(Backbuffer[..])
      ensures Frontbuffer[..] == if old(RedrawRequest || BufferSwapRequest) then Backbuffer[..] else old(Frontbuffer[..])
    {
      if RedrawRequest {
        RenderAll(vs);
        SwapBuffers();
        RedrawRequest, BufferSwapRequest := false, false;
      } else if BufferSwapRequest {
        SwapBuffers();
        BufferSwapRequest := false;
      }
    }

    /** A window draws, and the change is brought to the back buffer. */
    method Draw(vs: seq<View>, d: Drawing) returns (now: seq<View>)
      requires Copyable(vs, g, Backbuffer.Length) && Drawable(vs, d)
      requires RedrawRequest || UpToDate(Backbuffer[..], vs, g)
      modifies `RedrawRequest, `BufferSwapRequest, Backbuffer
      ensures now == Drawn(vs, d) && Copyable(now, g, Backbuffer.Length)
      ensures RedrawRequest == (old(RedrawRequest) || Overlapped(vs, d.i))
      ensures BufferSwapRequest == (old(BufferSwapRequest) || !Overlapped(vs, d.i))
      ensures RedrawRequest || UpToDate(Backbuffer[..], now, g)
    {
      ghost var base := Backbuffer[..];
      now := vs[d.i := vs[d.i].(Pixels := d.pixels)];
      DrawnFits(vs, d, g, |base|);
      DrawnOverlap(vs, d);
      Update(now, d.i, base, vs);
      RepaintTwice(base, now, g);
    }

    /** One round of the request loop and the update that ends it: whatever is drawn in whatever order, the
        buffers end up as a full repaint of the windows as drawn would leave them. */
    method Round(vs: seq<View>, drawings: seq<Drawing>) returns (now: seq<View>)
      requires Valid() && Copyable(vs, g, Backbuffer.Length)
      requires RedrawRequest || UpToDate(Backbuffer[..], vs, g)
      requires forall k :: 0 <= k < |drawings| ==> Drawable(vs, drawings[k])
      modifies `RedrawRequest, `BufferSwapRequest, Backbuffer, Frontbuffer
      ensures now == AllDrawn(vs, drawings) && Copyable(now, g, Backbuffer.Length)
      ensures UpToDate(Backbuffer[..], now, g) && !RedrawRequest && !BufferSwapRequest
      ensures drawings != [] || old(RedrawRequest || BufferSwapRequest) ==> Frontbuffer[..] == Backbuffer[..]
      ensures drawings == [] && old(!RedrawRequest && !BufferSwapRequest) ==> Frontbuffer[..] == old(Frontbuffer[..])
    {
      now := vs;
      for n := 0 to |drawings|
        invariant now == AllDrawn(vs, drawings[..n]) && Copyable(now, g, Backbuffer.Length)
        invariant RedrawRequest || UpToDate(Backbuffer[..], now, g)
        invariant (n > 0 || old(RedrawRequest || BufferSwapRequest)) == (RedrawRequest || BufferSwapRequest)
        invariant Frontbuffer[..] == old(Frontbuffer[..])
      {
        assert drawings[..n + 1][..n] == drawings[..n];
        now := Draw(now, drawings[n]);
      }
      assert drawings[..|drawings|] == drawings;
      RepaintTwice(Backbuffer[..], now, g);
      UpdateAll(now);
    }
  }

  /** The copy starts at the first row, with nothing copied. */
  lemma FirstRow(b: seq<ARGB>, v: View, g: Geometry)
    requires v.Valid() && v.InBuffer(g, |b|) && !v.Skipped(g)
    ensures v.Offset(0) == 0 && v.Start(g, 0) == v.X + g.PixelsPerScanline * v.Y
    ensures Rows(b, v, g, 0) == b
  {
  }

  lemma AllRows(b: seq<ARGB>, v: View, g: Geometry)
    requires v.Valid() && v.InBuffer(g, |b|) && !v.Skipped(g)
    ensures Paint(b, v, g) == Rows(b, v, g, v.Height)
  {
  }

  /** One row more. */
  lemma NextRow(b: seq<ARGB>, v: View, g: Geometry, r: nat, at: int, from: nat, n: nat)
    requires v.Valid() && v.InBuffer(g, |b|) && !v.Skipped(g) && r < v.Height
    requires at == v.Start(g, r) && from == v.Offset(r) && n == v.Width + 1
    ensures 0 <= at && at + n <= |b| && v.Start(g, r + 1) == at + g.PixelsPerScanline
    ensures from + n <= |v.Pixels| && v.Offset(r + 1) == from + n
    ensures Rows(b, v, g, r + 1) == Blit(Rows(b, v, g, r), at, v.Pixels[from..from + n])
  {
    RowBounds(v.Width, v.Height, r);
    NextStart(g.PixelsPerScanline, v.Y + r);
    TimesNext(r, v.Width + 1);
    hide Blit;
  }

  lemma NextStart(p: nat, y: int)
    ensures p * (y + 1) == p * y + p
  {
  }

  lemma NextPaintNone(b: seq<ARGB>, vs: seq<View>, g: Geometry)
    ensures AllFit(vs[..0], g, |b|) && Repaint(b, vs[..0], g) == b
  {
  }

  lemma NextPaint(b: seq<ARGB>, vs: seq<View>, g: Geometry, i: nat)
    requires AllFit(vs, g, |b|) && i < |vs|
    ensures vs[i].Valid() && vs[i].InBuffer(g, |b|) && AllFit(vs[..i], g, |b|) && AllFit(vs[..i + 1], g, |b|)
    ensures Repaint(b, vs[..i + 1], g) == Paint(Repaint(b, vs[..i], g), vs[i], g)
  {
    assert vs[..i + 1][..i] == vs[..i];
  }
}
