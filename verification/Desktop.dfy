/** Which changes of a list of windows are seen: when a back buffer that is what a full repaint of the list would
    leave is that of the changed list too. For windows without a frame. */
module Desktop {
  import opened Processes
  import opened Canvas
  import Compositor

  // ---------- what is seen of a list of windows ----------

  /** The topmost window that covers pixel `k`, or -1. */
  function Topmost(vs: seq<View>, g: Geometry, k: int): (t: int)
    ensures -1 <= t < |vs| && (t >= 0 ==> vs[t].Covers(g, k))
    ensures forall j :: t < j < |vs| && j >= 0 ==> !vs[j].Covers(g, k)
  {
    if vs == [] then -1
    else if vs[|vs| - 1].Covers(g, k) then |vs| - 1 else Topmost(vs[..|vs| - 1], g, k)
  }

  lemma TopmostIs(vs: seq<View>, g: Geometry, k: int, t: nat)
    requires t < |vs| && vs[t].Covers(g, k) && forall j :: t < j < |vs| ==> !vs[j].Covers(g, k)
    ensures Topmost(vs, g, k) == t
  {
  }

  /** The pixel a window shows at `k`. */
  function Colour(v: View, g: Geometry, n: nat, k: nat): ARGB
    requires v.Valid() && v.InBuffer(g, n) && k < n
  {
    Paint(seq(n, x => 0), v, g)[k]
  }

  /** The full repaint, pixel by pixel: the topmost window there. */
  lemma {:induction false} RepaintTopmost(b: seq<ARGB>, vs: seq<View>, g: Geometry, k: nat)
    requires AllFit(vs, g, |b|) && k < |b|
    ensures var t := Topmost(vs, g, k);
            Repaint(b, vs, g)[k] == if t < 0 then b[k] else Colour(vs[t], g, |b|, k)
  {
    if vs != [] {
      var below, v := vs[..|vs| - 1], vs[|vs| - 1];
      hide View.Covers, View.InBuffer, View.Valid, Paint;
      RepaintTopmost(b, below, g, k);
      PaintPixel(Repaint(b, below, g), seq(|b|, x => 0), v, g, k);
    }
  }

  lemma UpToDateIff(b: seq<ARGB>, vs: seq<View>, g: Geometry)
    requires AllFit(vs, g, |b|)
    ensures Compositor.UpToDate(b, vs, g) <==>
            forall k :: 0 <= k < |b| && Topmost(vs, g, k) >= 0 ==> b[k] == Colour(vs[Topmost(vs, g, k)], g, |b|, k)
  {
    hide Repaint, Colour, Topmost, View.InBuffer, View.Valid;
    forall k | 0 <= k < |b|
      ensures Repaint(b, vs, g)[k] == if Topmost(vs, g, k) < 0 then b[k] else Colour(vs[Topmost(vs, g, k)], g, |b|, k)
    {
      RepaintTopmost(b, vs, g, k);
    }
  }

  /** Every pixel where `ws` shows a window is covered by `vs` too, and shows the same. */
  predicate SeenAlike(vs: seq<View>, ws: seq<View>, g: Geometry, n: nat)
    requires AllFit(vs, g, n) && AllFit(ws, g, n)
  {
    forall k :: 0 <= k < n && Topmost(ws, g, k) >= 0 ==> AlikeAt(vs, ws, g, n, k)
  }

  predicate AlikeAt(vs: seq<View>, ws: seq<View>, g: Geometry, n: nat, k: nat)
    requires AllFit(vs, g, n) && AllFit(ws, g, n) && k < n && Topmost(ws, g, k) >= 0
  {
    var t, u := Topmost(vs, g, k), Topmost(ws, g, k);
    t >= 0 && Colour(vs[t], g, n, k) == Colour(ws[u], g, n, k)
  }

  /** A step from `vs` to `ws` that leaves the buffer alone leaves a right buffer right, whatever it holds. */
  ghost predicate Keeps(vs: seq<View>, ws: seq<View>, g: Geometry, n: nat)
    requires AllFit(vs, g, n) && AllFit(ws, g, n)
  {
    forall b: seq<ARGB> :: |b| == n && Compositor.UpToDate(b, vs, g) ==> Compositor.UpToDate(b, ws, g)
  }

  /** It does so exactly when the two lists are seen alike. */
  lemma KeepsIff(vs: seq<View>, ws: seq<View>, g: Geometry, n: nat)
    requires AllFit(vs, g, n) && AllFit(ws, g, n)
    ensures Keeps(vs, ws, g, n) <==> SeenAlike(vs, ws, g, n)
  {
    hide Repaint, Colour, Topmost, View.InBuffer, View.Valid;
    if SeenAlike(vs, ws, g, n) {
      forall b: seq<ARGB> | |b| == n && Compositor.UpToDate(b, vs, g) ensures Compositor.UpToDate(b, ws, g) {
        AlikeKeeps(b, vs, ws, g);
      }
    }
    if Keeps(vs, ws, g, n) {
      forall k | 0 <= k < n && Topmost(ws, g, k) >= 0 ensures AlikeAt(vs, ws, g, n, k) {
        KeepsAt(vs, ws, g, n, k);
      }
    }
  }

  lemma AlikeKeeps(b: seq<ARGB>, vs: seq<View>, ws: seq<View>, g: Geometry)
    requires AllFit(vs, g, |b|) && AllFit(ws, g, |b|) && SeenAlike(vs, ws, g, |b|) && Compositor.UpToDate(b, vs, g)
    ensures Compositor.UpToDate(b, ws, g)
  {
    UpToDateIff(b, vs, g);
    UpToDateIff(b, ws, g);
    hide Compositor.UpToDate, Colour, Topmost, View.InBuffer, View.Valid;
    assert forall k :: 0 <= k < |b| && Topmost(ws, g, k) >= 0 ==> AlikeAt(vs, ws, g, |b|, k);
  }

  lemma KeepsAt(vs: seq<View>, ws: seq<View>, g: Geometry, n: nat, k: nat)
    requires AllFit(vs, g, n) && AllFit(ws, g, n) && Keeps(vs, ws, g, n) && k < n && Topmost(ws, g, k) >= 0
    ensures AlikeAt(vs, ws, g, n, k)
  {
    var c := Colour(ws[Topmost(ws, g, k)], g, n, k) + 1;
    var other := seq(n, x => c);
    var b := Repaint(other, vs, g);
    RepaintTwice(other, vs, g);
    assert Compositor.UpToDate(b, vs, g) && Compositor.UpToDate(b, ws, g);
    hide Repaint, Colour, Topmost, View.InBuffer, View.Valid, Compositor.UpToDate;
    UpToDateIff(b, ws, g);
    RepaintTopmost(other, vs, g, k);
  }

  /** For a given buffer: where `ws` covers nothing new, the buffer stays right exactly when they are. */
  lemma StaysRightIff(b: seq<ARGB>, vs: seq<View>, ws: seq<View>, g: Geometry)
    requires AllFit(vs, g, |b|) && AllFit(ws, g, |b|) && Compositor.UpToDate(b, vs, g)
    requires forall k :: 0 <= k < |b| && Topmost(ws, g, k) >= 0 ==> Topmost(vs, g, k) >= 0
    ensures Compositor.UpToDate(b, ws, g) <==> SeenAlike(vs, ws, g, |b|)
  {
    hide Colour, Topmost, View.InBuffer, View.Valid;
    if SeenAlike(vs, ws, g, |b|) {
      AlikeKeeps(b, vs, ws, g);
    }
    if Compositor.UpToDate(b, ws, g) {
      forall k | 0 <= k < |b| && Topmost(ws, g, k) >= 0 ensures AlikeAt(vs, ws, g, |b|, k) {
        RepaintTopmost(b, vs, g, k);
        RepaintTopmost(b, ws, g, k);
      }
    }
  }

  // ---------- a window is raised ----------

  /** The window at `i` changes places with the topmost one, as SetDepth does it. */
  function Raised<T>(vs: seq<T>, i: nat): (ws: seq<T>)
    requires i < |vs|
    ensures |ws| == |vs|
    ensures forall j :: 0 <= j < |vs| ==> ws[j] == if j == |vs| - 1 then vs[i] else if j == i then vs[|vs| - 1] else vs[j]
  {
    vs[i := vs[|vs| - 1]][|vs| - 1 := vs[i]]
  }

  /** Nothing covers the window that comes up, and what went down to its place is covered by nothing between. */
  predicate Unseen(vs: seq<View>, i: nat, g: Geometry, n: nat)
    requires i < |vs|
  {
    && OnTop(vs, g, n, i)
    && forall j, k :: i < j < |vs| - 1 && 0 <= k < n && vs[|vs| - 1].Covers(g, k) ==> !vs[j].Covers(g, k)
  }

  /** The same windows with any pixels of their own. */
  predicate SameShapes(us: seq<View>, vs: seq<View>) {
    |us| == |vs| && forall j :: 0 <= j < |vs| ==> us[j].SameShape(vs[j])
  }

  /** The window on top at a pixel is the same one after raising. */
  lemma RaisedTopmost(vs: seq<View>, i: nat, g: Geometry, n: nat, k: nat)
    requires i < |vs| && Unseen(vs, i, g, n) && k < n
    ensures var t, u := Topmost(vs, g, k), Topmost(Raised(vs, i), g, k);
            (t < 0 <==> u < 0) && (t >= 0 ==> Raised(vs, i)[u] == vs[t])
  {
    hide View.Covers, Topmost;
    var ws, top := Raised(vs, i), |vs| - 1;
    if vs[i].Covers(g, k) {
      TopmostIs(vs, g, k, i);
      TopmostIs(ws, g, k, top);
    } else if vs[top].Covers(g, k) {
      TopmostIs(vs, g, k, top);
      TopmostIs(ws, g, k, i);
    } else if Topmost(vs, g, k) >= 0 {
      TopmostIs(ws, g, k, Topmost(vs, g, k));
    } else {
      assert forall j :: 0 <= j < |vs| ==> !vs[j].Covers(g, k);
    }
  }

  lemma UnseenShapes(us: seq<View>, vs: seq<View>, i: nat, g: Geometry, n: nat)
    requires SameShapes(us, vs) && i < |vs|
    ensures Unseen(us, i, g, n) == Unseen(vs, i, g, n)
  {
    forall j, k | 0 <= j < |vs| ensures us[j].Covers(g, k) == vs[j].Covers(g, k) {
      SameCover(us[j], vs[j], g, k);
    }
    hide View.Covers;
  }

  /** Raising window `i` without a redraw keeps every right buffer right, whatever the windows show, exactly
      when it is not seen. */
  lemma RaiseKeepsIff(vs: seq<View>, i: nat, g: Geometry, n: nat)
    requires AllFit(vs, g, n) && i < |vs|
    ensures Unseen(vs, i, g, n) <==>
            forall us :: SameShapes(us, vs) && AllFit(us, g, n) ==> Keeps(us, Raised(us, i), g, n)
  {
    hide View.Covers, View.InBuffer, View.Valid, OnTop;
    if Unseen(vs, i, g, n) {
      forall us | SameShapes(us, vs) && AllFit(us, g, n) ensures Keeps(us, Raised(us, i), g, n) {
        UnseenShapes(us, vs, i, g, n);
        UnseenAlike(us, i, g, n);
        KeepsIff(us, Raised(us, i), g, n);
      }
    } else {
      var us := Numbered(vs, g, n);
      NumberedSeen(vs, i, g, n);
      KeepsIff(us, Raised(us, i), g, n);
    }
  }

  lemma UnseenAlike(us: seq<View>, i: nat, g: Geometry, n: nat)
    requires AllFit(us, g, n) && i < |us| && Unseen(us, i, g, n)
    ensures SeenAlike(us, Raised(us, i), g, n)
  {
    hide View.Covers, View.InBuffer, View.Valid, Colour, Unseen, Topmost;
    forall k | 0 <= k < n && Topmost(Raised(us, i), g, k) >= 0 ensures AlikeAt(us, Raised(us, i), g, n, k) {
      RaisedTopmost(us, i, g, n, k);
    }
  }

  /** The windows painted with their numbers. */
  function Numbered(vs: seq<View>, g: Geometry, n: nat): (us: seq<View>)
    requires AllFit(vs, g, n)
    ensures SameShapes(us, vs) && AllFit(us, g, n)
  {
    var us := seq(|vs|, j requires 0 <= j < |vs| => Solid(vs[j], j));
    assert forall j, r :: 0 <= j < |vs| ==> us[j].Start(g, r) == vs[j].Start(g, r);
    us
  }

  lemma NumberedColour(vs: seq<View>, g: Geometry, n: nat, j: nat, k: nat)
    requires AllFit(vs, g, n) && j < |vs| && k < n && vs[j].Covers(g, k)
    ensures Numbered(vs, g, n)[j].Covers(g, k) && Colour(Numbered(vs, g, n)[j], g, n, k) == j
  {
    SameCover(Numbered(vs, g, n)[j], vs[j], g, k);
    SolidRows(seq(n, x => 0), vs[j], j, g, vs[j].Height, k);
  }

  lemma NumberedSeen(vs: seq<View>, i: nat, g: Geometry, n: nat)
    requires AllFit(vs, g, n) && i < |vs| && !Unseen(vs, i, g, n)
    ensures !SeenAlike(Numbered(vs, g, n), Raised(Numbered(vs, g, n), i), g, n)
  {
    var j, k := Uncovers(vs, i, g, n);
    var us := Numbered(vs, g, n);
    var ws := Raised(us, i);
    forall m | 0 <= m < |us| ensures us[m].Covers(g, k) == vs[m].Covers(g, k) {
      SameCover(us[m], vs[m], g, k);
    }
    var t, u := Topmost(us, g, k), Topmost(ws, g, k);
    hide View.Covers, View.InBuffer, View.Valid, Numbered, Topmost, Colour;
    assert t >= 0 && u >= 0 by {
      assert us[j].Covers(g, k);
      assert ws[if j == |vs| - 1 then i else j] == us[j];
    }
    NumberedColour(vs, g, n, t, k);
    if vs[i].Covers(g, k) {
      assert ws[|vs| - 1] == us[i];
      assert u == |vs| - 1 && t >= j;
      NumberedColour(vs, g, n, i, k);
    } else {
      assert t == |vs| - 1 && j <= u < t && ws[u] == us[u];
      NumberedColour(vs, g, n, u, k);
    }
    assert !AlikeAt(us, ws, g, n, k);
  }

  /** Where raising is seen: something covers the window that comes up, or the one that goes down. */
  lemma Uncovers(vs: seq<View>, i: nat, g: Geometry, n: nat) returns (j: nat, k: nat)
    requires i < |vs| && !Unseen(vs, i, g, n)
    ensures i < j < |vs| && k < n && vs[j].Covers(g, k)
    ensures vs[i].Covers(g, k) || (j < |vs| - 1 && vs[|vs| - 1].Covers(g, k))
  {
    hide View.Covers;
    if !OnTop(vs, g, n, i) {
      j, k :| i < j < |vs| && 0 <= k < n && vs[i].Covers(g, k) && vs[j].Covers(g, k);
    } else {
      j, k :| i < j < |vs| - 1 && 0 <= k < n && vs[|vs| - 1].Covers(g, k) && vs[j].Covers(g, k);
    }
  }

  /** Raising neither covers nor uncovers a pixel. */
  lemma RaisedCovers(vs: seq<View>, i: nat, g: Geometry, k: int)
    requires i < |vs|
    ensures Topmost(Raised(vs, i), g, k) >= 0 <==> Topmost(vs, g, k) >= 0
  {
    hide View.Covers, Topmost;
    var ws, top := Raised(vs, i), |vs| - 1;
    var t, u := Topmost(vs, g, k), Topmost(ws, g, k);
    if t >= 0 { assert ws[if t == i then top else if t == top then i else t] == vs[t]; }
    if u >= 0 { assert vs[if u == i then top else if u == top then i else u] == ws[u]; }
  }

  /** The smallest case: of two windows on the same pixel the lower one is raised. */
  lemma RaiseIsSeen()
    ensures var g, vs := Geometry(1, 1, 1), [View(0, 0, 0, 1, [1]), View(0, 0, 0, 1, [2])];
            && Compositor.Copyable(vs, g, 1) && Compositor.UpToDate([2], vs, g)
            && AllFit(Raised(vs, 0), g, 1) && !Compositor.UpToDate([2], Raised(vs, 0), g)
  {
    var g, v, w := Geometry(1, 1, 1), View(0, 0, 0, 1, [1]), View(0, 0, 0, 1, [2]);
    OnePixel(1);
    OnePixel(2);
    TwoWindows([2], v, w, g);
    TwoWindows([2], w, v, g);
    assert Raised([v, w], 0) == [w, v];
  }

  lemma OnePixel(c: ARGB)
    ensures var g, v := Geometry(1, 1, 1), View(0, 0, 0, 1, [c]);
            AllFit([v], g, 1) && forall x :: Paint([x], v, g) == [c]
  {
    var g, v := Geometry(1, 1, 1), View(0, 0, 0, 1, [c]);
    assert v.Row(0) == [c] && v.Start(g, 0) == 0;
    assert [v][0].Valid() && [v][0].InBuffer(g, 1);
    hide View.Row, View.Start, View.InBuffer;
    forall x ensures Paint([x], v, g) == [c] {
      assert Rows([x], v, g, 0) == [x] && Blit([x], 0, [c]) == [c];
    }
  }

  lemma TwoWindows(b: seq<ARGB>, v: View, w: View, g: Geometry)
    requires AllFit([v], g, |b|) && AllFit([w], g, |b|)
    ensures AllFit([v, w], g, |b|) && v.Valid() && v.InBuffer(g, |b|) && w.Valid() && w.InBuffer(g, |b|)
    ensures Repaint(b, [v, w], g) == Paint(Paint(b, v, g), w, g)
  {
    hide View.InBuffer, View.Valid, Paint;
    assert [v][0] == v && [w][0] == w && [v, w][..1] == [v] && [v][..0] == [];
    assert Repaint(b, [v], g) == Paint(b, v, g);
  }

  // ---------- a window joins ----------

  /** In place of a window that has not drawn itself yet. */
  const BLANK: View := View(0, 0, 0, 0, [])

  lemma BlankCovers(g: Geometry, n: nat, k: int)
    ensures BLANK.Valid() && BLANK.InBuffer(g, n) && !BLANK.Covers(g, k)
  {
  }

  /** On top of a list it changes nothing. */
  lemma BlankOnTop(b: seq<ARGB>, vs: seq<View>, g: Geometry)
    requires AllFit(vs, g, |b|)
    ensures AllFit(vs + [BLANK], g, |b|) && Repaint(b, vs + [BLANK], g) == Repaint(b, vs, g)
  {
    BlankCovers(g, |b|, 0);
    hide View.Valid, View.InBuffer;
    assert (vs + [BLANK])[..|vs|] == vs;
    assert Repaint(b, vs + [BLANK], g) == Paint(Repaint(b, vs, g), BLANK, g);
  }

  /** A new window takes a place below the top, and the one that was there goes to the top. Before the new one draws
      itself, that keeps every right buffer right, whatever the windows show, exactly when no later window covers
      the one that was brought up. */
  lemma JoinKeepsIff(vs: seq<View>, d: nat, g: Geometry, n: nat)
    requires AllFit(vs, g, n) && d < |vs|
    ensures OnTop(vs, g, n, d) <==>
            forall us :: SameShapes(us, vs + [BLANK]) && AllFit(us, g, n) ==> Keeps(us, Raised(us, d), g, n)
  {
    var all := vs + [BLANK];
    BlankCovers(g, n, 0);
    forall k ensures !BLANK.Covers(g, k) { BlankCovers(g, n, k); }
    hide View.Covers, View.InBuffer, View.Valid;
    assert forall j :: 0 <= j < |vs| ==> all[j] == vs[j];
    assert Unseen(all, d, g, n) <==> OnTop(vs, g, n, d);
    RaiseKeepsIff(all, d, g, n);
  }

  /** It can be seen: the window at the bottom is covered, and a new one takes its place. */
  lemma JoinIsSeen()
    ensures var g, vs := Geometry(3, 1, 4), [View(0, 0, 0, 1, [1]), View(0, 0, 0, 1, [2])];
            && Compositor.Copyable(vs, g, 4)
            && exists us :: SameShapes(us, vs + [BLANK]) && AllFit(us, g, 4) && !Keeps(us, Raised(us, 0), g, 4)
  {
    var g, vs := Geometry(3, 1, 4), [View(0, 0, 0, 1, [1]), View(0, 0, 0, 1, [2])];
    assert vs[0].RowCovers(g, 0, 0) && vs[1].RowCovers(g, 0, 0);
    assert vs[0].Covers(g, 0) && vs[1].Covers(g, 0) && !OnTop(vs, g, 4, 0);
    JoinKeepsIff(vs, 0, g, 4);
  }

  // ---------- a window draws ----------

  /** A window that no later one covers is rendered with what it has drawn, for the first time or not: a right buffer
      is right for the new contents. */
  lemma DrawnOnTop(b: seq<ARGB>, vs: seq<View>, i: nat, w: View, g: Geometry)
    requires AllFit(vs, g, |b|) && i < |vs| && w.Valid() && w.InBuffer(g, |b|) && AllFit(vs[i := w], g, |b|)
    requires (vs[i] == BLANK || w.SameShape(vs[i])) && OnTop(vs[i := w], g, |b|, i) && Compositor.UpToDate(b, vs, g)
    ensures Compositor.UpToDate(Paint(b, w, g), vs[i := w], g)
  {
    var ws, c := vs[i := w], Paint(b, w, g);
    UpToDateIff(b, vs, g);
    UpToDateIff(c, ws, g);
    hide Repaint, Paint, View.Covers, View.InBuffer, View.Valid, Compositor.UpToDate, Topmost, Colour;
    forall k | 0 <= k < |b| && Topmost(ws, g, k) >= 0 ensures c[k] == Colour(ws[Topmost(ws, g, k)], g, |b|, k) {
      DrawnPixel(b, vs, i, w, g, k);
    }
  }

  lemma DrawnPixel(b: seq<ARGB>, vs: seq<View>, i: nat, w: View, g: Geometry, k: nat)
    requires AllFit(vs, g, |b|) && i < |vs| && w.Valid() && w.InBuffer(g, |b|) && AllFit(vs[i := w], g, |b|)
    requires (vs[i] == BLANK || w.SameShape(vs[i])) && OnTop(vs[i := w], g, |b|, i)
    requires k < |b| && Topmost(vs[i := w], g, k) >= 0
    requires Topmost(vs, g, k) >= 0 ==> b[k] == Colour(vs[Topmost(vs, g, k)], g, |b|, k)
    ensures Paint(b, w, g)[k] == Colour(vs[i := w][Topmost(vs[i := w], g, k)], g, |b|, k)
  {
    hide View.Covers, View.InBuffer, View.Valid, Topmost, Paint, Colour;
    PaintedAt(b, w, g, k);
    DrawnTopmost(vs, i, w, g, |b|, k);
  }

  lemma PaintedAt(b: seq<ARGB>, w: View, g: Geometry, k: nat)
    requires w.Valid() && w.InBuffer(g, |b|) && k < |b|
    ensures Paint(b, w, g)[k] == if w.Covers(g, k) then Colour(w, g, |b|, k) else b[k]
  {
    PaintPixel(b, seq(|b|, x => 0), w, g, k);
  }

  lemma DrawnTopmost(vs: seq<View>, i: nat, w: View, g: Geometry, n: nat, k: nat)
    requires i < |vs| && (vs[i] == BLANK || w.SameShape(vs[i])) && OnTop(vs[i := w], g, n, i)
    requires k < n && Topmost(vs[i := w], g, k) >= 0
    ensures Topmost(vs[i := w], g, k) == if w.Covers(g, k) then i else Topmost(vs, g, k)
    ensures !w.Covers(g, k) ==> Topmost(vs, g, k) != i
  {
    BlankCovers(g, n, k);
    if vs[i] != BLANK { SameCover(w, vs[i], g, k); }
    hide View.Covers, Topmost;
    var ws := vs[i := w];
    var t := Topmost(ws, g, k);
    if w.Covers(g, k) {
      TopmostIs(ws, g, k, i);
    } else {
      forall j | t < j < |vs| ensures !vs[j].Covers(g, k) {
        if j != i { assert !ws[j].Covers(g, k); }
      }
      TopmostIs(vs, g, k, t);
    }
  }

  // ---------- a window goes ----------

  /** Nothing clears the back buffer: after the full repaint of a list that has lost window `i`, that window is still
      seen at exactly the pixels where it was on top and where no other window is. */
  lemma GoneIsStillSeen(b: seq<ARGB>, vs: seq<View>, i: nat, g: Geometry, k: nat)
    requires AllFit(vs, g, |b|) && i < |vs| && Compositor.UpToDate(b, vs, g) && k < |b|
    ensures var ws := vs[..i] + vs[i + 1..];
            && AllFit(ws, g, |b|)
            && (Topmost(ws, g, k) >= 0 ==> Repaint(b, ws, g)[k] == Colour(ws[Topmost(ws, g, k)], g, |b|, k))
            && (Topmost(ws, g, k) < 0 ==> Repaint(b, ws, g)[k] == b[k])
            && (vs[i].Covers(g, k) && Topmost(ws, g, k) < 0 ==> Repaint(b, ws, g)[k] == Colour(vs[i], g, |b|, k))
            && (Topmost(ws, g, k) < 0 <==> forall j :: 0 <= j < |vs| && j != i ==> !vs[j].Covers(g, k))
  {
    var ws := vs[..i] + vs[i + 1..];
    hide Repaint, View.Covers, View.InBuffer, View.Valid, Compositor.UpToDate, Topmost, Colour;
    GoneTopmost(vs, i, g, k);
    assert forall j :: 0 <= j < |ws| ==> ws[j] == vs[if j < i then j else j + 1];
    RepaintTopmost(b, ws, g, k);
    if vs[i].Covers(g, k) && Topmost(ws, g, k) < 0 { UpToDateIff(b, vs, g); }
  }

  lemma GoneTopmost(vs: seq<View>, i: nat, g: Geometry, k: int)
    requires i < |vs|
    ensures var ws := vs[..i] + vs[i + 1..];
            && (Topmost(ws, g, k) < 0 <==> forall j :: 0 <= j < |vs| && j != i ==> !vs[j].Covers(g, k))
            && (vs[i].Covers(g, k) && Topmost(ws, g, k) < 0 ==> Topmost(vs, g, k) == i)
  {
    hide View.Covers, Topmost;
    var ws := vs[..i] + vs[i + 1..];
    forall j | 0 <= j < |vs| && j != i ensures vs[j] == ws[if j < i then j else j - 1] {}
    if Topmost(ws, g, k) < 0 {
      forall j | 0 <= j < |vs| && j != i ensures !vs[j].Covers(g, k) {
        assert !ws[if j < i then j else j - 1].Covers(g, k);
      }
      if vs[i].Covers(g, k) { TopmostIs(vs, g, k, i); }
    } else {
      var t := Topmost(ws, g, k);
      assert ws[t] == vs[if t < i then t else t + 1];
    }
  }
}
