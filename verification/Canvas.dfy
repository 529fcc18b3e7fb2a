/** What rendering windows one after another leaves in a buffer of pixels: the bottom-to-top repaint of
    src/ProcessHandler/Compositor.cpp, for windows that Render just copies. */
module Canvas {
  import opened Processes

  /** The back buffer: its visible size and the length of a scan line. */
  datatype Geometry = Geometry(Width: nat, Height: nat, PixelsPerScanline: nat)

  /** A window: its place, its size and its own pixels, in rows of one pixel more than its width. */
  datatype View = View(X: int, Y: int, Width: nat, Height: nat, Pixels: seq<ARGB>) {
    predicate Valid() {
      |Pixels| >= Height * (Width + 1)
    }

    /** Render gives up on a window that leaves the visible area. */
    predicate Skipped(g: Geometry) {
      X < 0 || X + Width > g.Width || Y < 0 || Y + Height > g.Height
    }

    /** Where row `r` of the window goes. */
    function Start(g: Geometry, r: int): int {
      g.PixelsPerScanline * (Y + r) + X
    }

    predicate RowCovers(g: Geometry, r: int, k: int) {
      Start(g, r) <= k <= Start(g, r) + Width
    }

    predicate Covers(g: Geometry, k: int) {
      !Skipped(g) && exists r :: 0 <= r < Height && RowCovers(g, r, k)
    }

    /** Every row lies in a buffer of `n` pixels. */
    predicate InBuffer(g: Geometry, n: nat) {
      Skipped(g) || forall r :: 0 <= r < Height ==> 0 <= Start(g, r) && Start(g, r) + Width < n
    }

    predicate SameShape(o: View) {
      X == o.X && Y == o.Y && Width == o.Width && Height == o.Height
    }

    /** Where row `r` is in the window's own pixels. */
    function Offset(r: nat): nat {
      r * (Width + 1)
    }

    function Row(r: nat): (s: seq<ARGB>)
      requires Valid() && r < Height
      ensures |s| == Width + 1
    {
      RowBounds(Width, Height, r);
      Pixels[Offset(r)..Offset(r) + Width + 1]
    }
  }

  lemma RowBounds(width: nat, height: nat, r: nat)
    requires r < height
    ensures 0 <= r * (width + 1) && r * (width + 1) + width + 1 <= height * (width + 1)
  {
    TimesMonotone(r + 1, height, width + 1);
    TimesNext(r, width + 1);
  }

  lemma TimesNext(a: nat, w: nat)
    ensures (a + 1) * w == a * w + w && a * w >= 0
  {
  }

  lemma TimesMonotone(a: nat, b: nat, w: nat)
    requires a <= b
    ensures a * w <= b * w
  {
  }

  // ---------- painting ----------

  /** A row copied into the buffer. */
  function Blit(b: seq<ARGB>, at: nat, row: seq<ARGB>): (r: seq<ARGB>)
    requires at + |row| <= |b|
    ensures |r| == |b|
  {
    b[..at] + row + b[at + |row|..]
  }

  /** The buffer after the first `n` rows. */
  function Rows(b: seq<ARGB>, v: View, g: Geometry, n: nat): (r: seq<ARGB>)
    requires v.Valid() && !v.Skipped(g) && v.InBuffer(g, |b|) && n <= v.Height
    ensures |r| == |b|
  {
    if n == 0 then b else Blit(Rows(b, v, g, n - 1), v.Start(g, n - 1), v.Row(n - 1))
  }

  function Paint(b: seq<ARGB>, v: View, g: Geometry): (r: seq<ARGB>)
    requires v.Valid() && v.InBuffer(g, |b|)
    ensures |r| == |b|
  {
    if v.Skipped(g) then b else Rows(b, v, g, v.Height)
  }

  predicate AllFit(vs: seq<View>, g: Geometry, n: nat) {
    forall i :: 0 <= i < |vs| ==> vs[i].Valid() && vs[i].InBuffer(g, n)
  }

  /** The full repaint, bottom to top. */
  function Repaint(b: seq<ARGB>, vs: seq<View>, g: Geometry): (r: seq<ARGB>)
    requires AllFit(vs, g, |b|)
    ensures |r| == |b|
  {
    if vs == [] then b else Paint(Repaint(b, vs[..|vs| - 1], g), vs[|vs| - 1], g)
  }

  // ---------- one pixel ----------

  /** A painted pixel depends on the window alone, any other on the buffer alone. */
  lemma {:induction false} RowsPixel(b: seq<ARGB>, c: seq<ARGB>, v: View, g: Geometry, n: nat, k: nat)
    requires v.Valid() && !v.Skipped(g) && v.InBuffer(g, |b|) && n <= v.Height && k < |b| == |c|
    ensures (exists r :: 0 <= r < n && v.RowCovers(g, r, k)) || b[k] == c[k] ==> Rows(b, v, g, n)[k] == Rows(c, v, g, n)[k]
    ensures !(exists r :: 0 <= r < n && v.RowCovers(g, r, k)) ==> Rows(b, v, g, n)[k] == b[k]
  {
    if n > 0 {
      RowsPixel(b, c, v, g, n - 1, k);
      var at, row := v.Start(g, n - 1), v.Row(n - 1);
      BlitPixel(Rows(b, v, g, n - 1), at, row, k);
      BlitPixel(Rows(c, v, g, n - 1), at, row, k);
      hide View.Start, View.Row, View.InBuffer, Blit;
      assert v.RowCovers(g, n - 1, k) <==> at <= k < at + |row|;
    }
  }

  lemma BlitPixel(b: seq<ARGB>, at: nat, row: seq<ARGB>, k: nat)
    requires at + |row| <= |b| && k < |b|
    ensures Blit(b, at, row)[k] == if at <= k < at + |row| then row[k - at] else b[k]
  {
  }

  lemma PaintPixel(b: seq<ARGB>, c: seq<ARGB>, v: View, g: Geometry, k: nat)
    requires v.Valid() && v.InBuffer(g, |b|) && k < |b| == |c|
    ensures v.Covers(g, k) || b[k] == c[k] ==> Paint(b, v, g)[k] == Paint(c, v, g)[k]
    ensures !v.Covers(g, k) ==> Paint(b, v, g)[k] == b[k]
  {
    if !v.Skipped(g) {
      RowsPixel(b, c, v, g, v.Height, k);
    }
  }

  /** A copied window shows its own pixels, row by row, where it stands. */
  lemma {:induction false} RowsShow(b: seq<ARGB>, v: View, g: Geometry, n: nat, r: nat, x: nat)
    requires v.Valid() && !v.Skipped(g) && v.InBuffer(g, |b|) && v.Width < g.PixelsPerScanline
    requires r < n <= v.Height && x <= v.Width
    ensures 0 <= v.Start(g, r) + x < |b| && Rows(b, v, g, n)[v.Start(g, r) + x] == v.Row(r)[x]
    decreases n
  {
    var k := v.Start(g, r) + x;
    BlitPixel(Rows(b, v, g, n - 1), v.Start(g, n - 1), v.Row(n - 1), k);
    if r < n - 1 {
      RowsShow(b, v, g, n - 1, r, x);
      hide Rows, Blit, View.InBuffer, View.Valid;
      LaterLine(g.PixelsPerScanline, v.Y + r, v.Y + (n - 1));
    }
  }

  lemma PaintShows(b: seq<ARGB>, v: View, g: Geometry, r: nat, x: nat)
    requires v.Valid() && v.InBuffer(g, |b|) && v.Width < g.PixelsPerScanline && r < v.Height && x <= v.Width
    requires 0 <= v.X && v.X + v.Width <= g.Width && 0 <= v.Y && v.Y + v.Height <= g.Height
    ensures var k, from := g.PixelsPerScanline * (v.Y + r) + v.X + x, r * (v.Width + 1) + x;
            0 <= k < |b| && 0 <= from < |v.Pixels| && Paint(b, v, g)[k] == v.Pixels[from]
  {
    RowBounds(v.Width, v.Height, r);
    RowsShow(b, v, g, v.Height, r, x);
    hide Rows;
  }

  /** Column `x` of row `r` of the window falls on pixel `k`. */
  predicate Falls(v: View, g: Geometry, r: int, x: int, k: int) {
    k == g.PixelsPerScanline * (v.Y + r) + v.X + x
  }

  /** Only such pixels change, and only if the window lies in the visible area. */
  lemma PaintLeaves(b: seq<ARGB>, v: View, g: Geometry, k: nat)
    requires v.Valid() && v.InBuffer(g, |b|) && k < |b|
    ensures Paint(b, v, g)[k] != b[k] ==>
              && 0 <= v.X && v.X + v.Width <= g.Width && 0 <= v.Y && v.Y + v.Height <= g.Height
              && exists r, x :: 0 <= r < v.Height && 0 <= x <= v.Width && Falls(v, g, r, x, k)
  {
    PaintPixel(b, b, v, g, k);
    if v.Covers(g, k) {
      var r :| 0 <= r < v.Height && v.RowCovers(g, r, k);
      assert Falls(v, g, r, k - v.Start(g, r), k);
    }
  }

  lemma {:induction false} RepaintPixel(b: seq<ARGB>, c: seq<ARGB>, vs: seq<View>, g: Geometry, k: nat)
    requires AllFit(vs, g, |b|) && k < |b| == |c|
    ensures b[k] == c[k] || (exists j :: 0 <= j < |vs| && vs[j].Covers(g, k)) ==> Repaint(b, vs, g)[k] == Repaint(c, vs, g)[k]
    ensures !(exists j :: 0 <= j < |vs| && vs[j].Covers(g, k)) ==> Repaint(b, vs, g)[k] == b[k]
  {
    if vs != [] {
      var n := |vs| - 1;
      hide View.Covers, View.InBuffer, View.Valid;
      RepaintPixel(b, c, vs[..n], g, k);
      PaintPixel(Repaint(b, vs[..n], g), Repaint(c, vs[..n], g), vs[n], g, k);
      if j :| 0 <= j < |vs| && vs[j].Covers(g, k) && !vs[n].Covers(g, k) {
        assert vs[..n][j].Covers(g, k);
      }
      if j :| 0 <= j < n && vs[..n][j].Covers(g, k) {
        assert vs[j].Covers(g, k);
      }
    }
  }

  lemma {:induction false} RepaintConcat(b: seq<ARGB>, us: seq<View>, vs: seq<View>, g: Geometry)
    requires AllFit(us, g, |b|) && AllFit(vs, g, |b|)
    ensures AllFit(us + vs, g, |b|) && Repaint(b, us + vs, g) == Repaint(Repaint(b, us, g), vs, g)
    decreases |vs|
  {
    hide View.InBuffer, View.Valid;
    if vs == [] {
      assert us + vs == us;
    } else {
      var n := |vs| - 1;
      RepaintConcat(b, us, vs[..n], g);
      assert (us + vs)[..|us + vs| - 1] == us + vs[..n];
    }
  }

  /** Repainting a repainted buffer changes nothing. */
  lemma RepaintTwice(b: seq<ARGB>, vs: seq<View>, g: Geometry)
    requires AllFit(vs, g, |b|)
    ensures Repaint(Repaint(b, vs, g), vs, g) == Repaint(b, vs, g)
  {
    var once := Repaint(b, vs, g);
    hide Repaint;
    forall k | 0 <= k < |b| ensures Repaint(once, vs, g)[k] == once[k] {
      RepaintPixel(once, b, vs, g, k);
    }
  }

  // ---------- rendering one window again ----------

  /** No later window covers a pixel of window `i`. */
  predicate OnTop(vs: seq<View>, g: Geometry, n: nat, i: nat)
    requires i < |vs|
  {
    forall j, k :: i < j < |vs| && 0 <= k < n && vs[i].Covers(g, k) ==> !vs[j].Covers(g, k)
  }

  lemma Around(b: seq<ARGB>, vs: seq<View>, g: Geometry, i: nat)
    requires AllFit(vs, g, |b|) && i < |vs|
    ensures AllFit(vs[..i], g, |b|) && AllFit(vs[i + 1..], g, |b|)
    ensures Repaint(b, vs, g) == Repaint(Paint(Repaint(b, vs[..i], g), vs[i], g), vs[i + 1..], g)
  {
    hide View.InBuffer, View.Valid;
    assert vs == (vs[..i] + [vs[i]]) + vs[i + 1..];
    RepaintConcat(b, vs[..i] + [vs[i]], vs[i + 1..], g);
    RepaintConcat(b, vs[..i], [vs[i]], g);
    assert [vs[i]][..0] == [];
  }

  lemma SameCover(v: View, w: View, g: Geometry, k: int)
    requires v.SameShape(w)
    ensures v.Covers(g, k) == w.Covers(g, k)
  {
    assert forall r :: v.RowCovers(g, r, k) == w.RowCovers(g, r, k);
  }

  /** When window `i` alone changes its pixels and no later window covers it, rendering it again turns the
      full repaint of the old windows into the full repaint of the new ones. */
  lemma RenderIsRepaint(b: seq<ARGB>, vs: seq<View>, g: Geometry, i: nat, w: View)
    requires AllFit(vs, g, |b|) && i < |vs| && w.SameShape(vs[i]) && w.Valid() && w.InBuffer(g, |b|)
    requires OnTop(vs, g, |b|, i)
    ensures AllFit(vs[i := w], g, |b|)
    ensures Paint(Repaint(b, vs, g), w, g) == Repaint(b, vs[i := w], g)
  {
    var ws := vs[i := w];
    assert AllFit(ws, g, |b|);
    forall k | 0 <= k < |b| ensures Paint(Repaint(b, vs, g), w, g)[k] == Repaint(b, ws, g)[k] {
      RenderPixel(b, vs, g, i, w, k);
    }
  }

  lemma RenderPixel(b: seq<ARGB>, vs: seq<View>, g: Geometry, i: nat, w: View, k: nat)
    requires AllFit(vs, g, |b|) && i < |vs| && w.SameShape(vs[i]) && w.Valid() && w.InBuffer(g, |b|)
    requires OnTop(vs, g, |b|, i) && AllFit(vs[i := w], g, |b|) && k < |b|
    ensures Paint(Repaint(b, vs, g), w, g)[k] == Repaint(b, vs[i := w], g)[k]
  {
    var ws := vs[i := w];
    hide View.Covers, View.InBuffer, View.Valid, Paint, Repaint;
    Around(b, vs, g, i);
    Around(b, ws, g, i);
    assert ws[..i] == vs[..i] && ws[i + 1..] == vs[i + 1..];
    SameCover(vs[i], w, g, k);
    var below, above := Repaint(b, vs[..i], g), vs[i + 1..];
    PaintPixel(Repaint(b, vs, g), below, w, g, k);
    PaintPixel(below, below, vs[i], g, k);
    RepaintPixel(Paint(below, vs[i], g), Paint(below, w, g), above, g, k);
    if w.Covers(g, k) {
      assert forall j :: 0 <= j < |above| ==> above[j] == vs[i + 1 + j];
      RepaintPixel(Paint(below, w, g), Paint(below, w, g), above, g, k);
    }
  }

  /** Rendering window `i` with new pixels gives the full repaint. */
  predicate RendersRight(b: seq<ARGB>, vs: seq<View>, g: Geometry, i: nat, w: View)
    requires AllFit(vs, g, |b|) && i < |vs|
  {
    w.SameShape(vs[i]) && w.Valid() && w.InBuffer(g, |b|) ==>
      AllFit(vs[i := w], g, |b|) && Paint(Repaint(b, vs, g), w, g) == Repaint(b, vs[i := w], g)
  }

  /** The condition is exact: it does so for all pixels the window may show only if no later window covers
      one of its pixels. */
  lemma RenderIsRepaintIff(b: seq<ARGB>, vs: seq<View>, g: Geometry, i: nat)
    requires AllFit(vs, g, |b|) && i < |vs|
    ensures OnTop(vs, g, |b|, i) <==> forall w :: RendersRight(b, vs, g, i, w)
  {
    if OnTop(vs, g, |b|, i) {
      forall w ensures RendersRight(b, vs, g, i, w) {
        if w.SameShape(vs[i]) && w.Valid() && w.InBuffer(g, |b|) {
          RenderIsRepaint(b, vs, g, i, w);
        }
      }
    } else {
      var j, k :| i < j < |vs| && 0 <= k < |b| && vs[i].Covers(g, k) && vs[j].Covers(g, k);
      CoveredStays(b, vs, g, i, j, k);
    }
  }

  function Solid(v: View, c: ARGB): (w: View)
    ensures w.Valid() && w.SameShape(v)
  {
    v.(Pixels := seq(Area(v.Width, v.Height), n => c))
  }

  function Area(width: nat, height: nat): nat {
    height * (width + 1)
  }

  lemma {:induction false} SolidRows(b: seq<ARGB>, v: View, c: ARGB, g: Geometry, n: nat, k: nat)
    requires !v.Skipped(g) && Solid(v, c).InBuffer(g, |b|) && n <= v.Height && k < |b|
    requires exists r :: 0 <= r < n && v.RowCovers(g, r, k)
    ensures Rows(b, Solid(v, c), g, n)[k] == c
  {
    var w := Solid(v, c);
    var at, row := w.Start(g, n - 1), w.Row(n - 1);
    SolidRow(v, c, n - 1);
    BlitPixel(Rows(b, w, g, n - 1), at, row, k);
    assert w.Start(g, n - 1) == v.Start(g, n - 1);
    hide View.Row, View.Start, View.InBuffer, Solid, Blit;
    if !v.RowCovers(g, n - 1, k) {
      SolidRows(b, v, c, g, n - 1, k);
    }
  }

  lemma SolidRow(v: View, c: ARGB, r: nat)
    requires r < v.Height
    ensures forall x :: 0 <= x < |Solid(v, c).Row(r)| ==> Solid(v, c).Row(r)[x] == c
  {
    RowBounds(v.Width, v.Height, r);
  }

  lemma CoveredStays(b: seq<ARGB>, vs: seq<View>, g: Geometry, i: nat, j: nat, k: nat)
    requires AllFit(vs, g, |b|) && i < j < |vs| && k < |b| && vs[i].Covers(g, k) && vs[j].Covers(g, k)
    ensures exists w :: !RendersRight(b, vs, g, i, w)
  {
    var above := vs[i + 1..];
    assert above[j - i - 1] == vs[j];
    var c := Repaint(b, vs, g)[k] + 1;
    var w := Solid(vs[i], c);
    assert w.InBuffer(g, |b|) by { assert forall r :: w.Start(g, r) == vs[i].Start(g, r); }
    var ws := vs[i := w];
    assert AllFit(ws, g, |b|);
    SolidRows(Repaint(b, vs, g), vs[i], c, g, vs[i].Height, k);
    assert Paint(Repaint(b, vs, g), w, g)[k] == c;
    hide View.Covers, View.InBuffer, View.Valid, Paint, Repaint, Solid;
    Around(b, vs, g, i);
    Around(b, ws, g, i);
    assert ws[..i] == vs[..i] && ws[i + 1..] == above;
    var below := Repaint(b, vs[..i], g);
    RepaintPixel(Paint(below, vs[i], g), Paint(below, w, g), above, g, k);
    assert !RendersRight(b, vs, g, i, w);
  }

  // ---------- the overlap test ----------

  /** Contains(Process*), on views. */
  predicate Meet(v: View, w: View) {
    RectsMeet(Point(v.X, v.Y), Point(v.Width, v.Height), Point(w.X, w.Y), Point(w.Width, w.Height))
  }

  /** The window, with the extra pixel of its rows, ends before the scan line does. */
  predicate SpareColumn(v: View, g: Geometry) {
    v.X + v.Width < g.PixelsPerScanline
  }

  /** With a spare column, windows that do not meet cover no pixel in common. */
  lemma ApartIfNotMeeting(v: View, w: View, g: Geometry, k: int)
    requires SpareColumn(v, g) && SpareColumn(w, g) && v.Covers(g, k) && w.Covers(g, k)
    ensures Meet(v, w)
  {
    var r :| 0 <= r < v.Height && v.RowCovers(g, r, k);
    var q :| 0 <= q < w.Height && w.RowCovers(g, q, k);
    SameLine(g.PixelsPerScanline, v.Y + r, k - v.Start(g, r) + v.X, w.Y + q, k - w.Start(g, q) + w.X);
  }

  /** A pixel has one line and one column. */
  lemma SameLine(p: nat, y: int, x: int, y': int, x': int)
    requires p * y + x == p * y' + x' && 0 <= x < p && 0 <= x' < p
    ensures y == y' && x == x'
  {
    if y < y' {
      LaterLine(p, y, y');
    } else if y' < y {
      LaterLine(p, y', y);
    }
  }

  lemma LaterLine(p: nat, y: int, y': int)
    requires y < y'
    ensures p * y' >= p * y + p
  {
    assert p * y' == p * y + p * (y' - y);
    assert p * (y' - y - 1) >= 0;
    assert p * (y' - y) == p * (y' - y - 1) + p;
  }

  lemma OnTopIfNotMeeting(vs: seq<View>, g: Geometry, n: nat, i: nat)
    requires i < |vs| && forall j :: i <= j < |vs| ==> SpareColumn(vs[j], g)
    requires forall j :: i < j < |vs| ==> !Meet(vs[i], vs[j])
    ensures OnTop(vs, g, n, i)
  {
    hide View.Covers, SpareColumn, Meet;
    forall j, k | i < j < |vs| && 0 <= k < n && vs[i].Covers(g, k) ensures !vs[j].Covers(g, k) {
      if vs[j].Covers(g, k) {
        ApartIfNotMeeting(vs[i], vs[j], g, k);
      }
    }
  }

  /** Without one they may: the extra pixel of a window at the right edge falls on the next line, under a
      window at the left edge that the test does not see. */
  lemma NoSpareColumn()
    ensures var g, v, w := Geometry(4, 4, 4), View(3, 0, 1, 1, [7, 7]), View(0, 1, 1, 1, [5, 5]);
            && !Meet(v, w) && !v.Skipped(g) && !w.Skipped(g) && !SpareColumn(v, g)
            && v.Covers(g, 4) && w.Covers(g, 4) && !OnTop([v, w], g, 16, 0)
  {
    var g, v, w := Geometry(4, 4, 4), View(3, 0, 1, 1, [7, 7]), View(0, 1, 1, 1, [5, 5]);
    assert v.Start(g, 0) == 3 && v.RowCovers(g, 0, 4);
    assert w.Start(g, 0) == 4 && w.RowCovers(g, 0, 4);
    assert [v, w][0].Covers(g, 4) && [v, w][1].Covers(g, 4);
  }
}
