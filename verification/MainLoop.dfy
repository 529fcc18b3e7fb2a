/** The handler and the compositor together: what every step of the kernel's main loop and of its interrupts does to
    the screen. For processes without a frame. */
module MainLoop {
  import opened Processes
  import opened ProcessHandler
  import opened Canvas
  import opened Desktop
  import Compositor

  // ---------- windows ----------

  /** What the compositor sees of a process, whether it has drawn itself yet, and whether it has no frame. */
  datatype Window = Window(view: View, drawn: bool, unframed: bool) {
    /** In place of one that has not drawn itself there is none. */
    function Seen(): View {
      if drawn then view else BLANK
    }
  }

  function WindowOf(p: Process, undrawn: set<Process>): Window
    reads p`Type, p`Pos, p`Base
  {
    Window(Compositor.ViewOf(p), p !in undrawn, Compositor.Unframed(p))
  }

  function Windows(ps: seq<Process>, undrawn: set<Process>): (ws: seq<Window>)
    reads ps`Type, ps`Pos, ps`Base
    ensures |ws| == |ps| && forall j :: 0 <= j < |ps| ==> ws[j] == WindowOf(ps[j], undrawn)
  {
    if ps == [] then [] else Windows(ps[..|ps| - 1], undrawn) + [WindowOf(ps[|ps| - 1], undrawn)]
  }

  function Views(ws: seq<Window>): (vs: seq<View>)
    ensures |vs| == |ws| && forall j :: 0 <= j < |ws| ==> vs[j] == ws[j].view
  {
    seq(|ws|, j requires 0 <= j < |ws| => ws[j].view)
  }

  function Shown(ws: seq<Window>): (vs: seq<View>)
    ensures |vs| == |ws| && forall j :: 0 <= j < |ws| ==> vs[j] == ws[j].Seen()
  {
    seq(|ws|, j requires 0 <= j < |ws| => ws[j].Seen())
  }

  lemma RaisedWindows(ws: seq<Window>, i: nat)
    requires i < |ws|
    ensures Shown(Raised(ws, i)) == Raised(Shown(ws), i)
  {
  }

  /** They have no frame and can be copied. */
  predicate AllCopyable(ws: seq<Window>, g: Geometry, n: nat) {
    forall j :: 0 <= j < |ws| ==> ws[j].unframed && Compositor.Copyable([ws[j].view], g, n)
  }

  lemma CopyableViews(ws: seq<Window>, g: Geometry, n: nat)
    requires AllCopyable(ws, g, n)
    ensures Compositor.Copyable(Views(ws), g, n) && AllFit(Shown(ws), g, n)
  {
    BlankCovers(g, n, 0);
    hide View.Valid, View.InBuffer, SpareColumn;
    forall j | 0 <= j < |ws|
      ensures ws[j].view.Valid() && ws[j].view.InBuffer(g, n) && SpareColumn(ws[j].view, g)
    {
      assert [ws[j].view][0] == ws[j].view;
    }
  }

  /** A buffer of whole scan lines holds every window that leaves a column to spare. */
  lemma LinesHold(v: View, g: Geometry)
    requires v.Valid() && SpareColumn(v, g)
    ensures Compositor.Copyable([v], g, g.PixelsPerScanline * g.Height)
  {
    var n := g.PixelsPerScanline * g.Height;
    if !v.Skipped(g) {
      forall r | 0 <= r < v.Height ensures 0 <= v.Start(g, r) && v.Start(g, r) + v.Width < n {
        LaterLine(g.PixelsPerScanline, v.Y + r, g.Height);
        TimesMonotone(0, v.Y + r, g.PixelsPerScanline);
      }
    }
  }

  /** Processes that SetPos has placed, on a screen with a column to spare, can be copied. */
  lemma PlacedIsCopyable(p: Process, newPos: Point, screen: Point, g: Geometry)
    requires Compositor.Unframed(p) && p.Valid() && p.Pos == p.Placed(newPos, screen) && screen == Point(g.Width, g.Height)
    requires p.Width <= g.Width < g.PixelsPerScanline && p.Height <= g.Height
    ensures Compositor.Copyable([Compositor.ViewOf(p)], g, g.PixelsPerScanline * g.Height) && !Compositor.ViewOf(p).Skipped(g)
  {
    Compositor.PlacedIsCopied(p, newPos, screen, g);
    ViewIsValid(p);
    LinesHold(Compositor.ViewOf(p), g);
  }

  lemma ViewIsValid(p: Process)
    requires p.Valid()
    ensures Compositor.ViewOf(p).Valid()
  {
    TimesMonotone(p.Height, p.Height + 1, p.Width + 1);
  }

  // ---------- changes of the list ----------

  lemma MovedIsRaised(ps: seq<Process>, undrawn: set<Process>, i: nat)
    requires Distinct(ps) && i < |ps|
    ensures Windows(Moved(ps, ps[i], |ps| - 1), undrawn) == Raised(Windows(ps, undrawn), i)
  {
    hide WindowOf, Windows;
    MovedIsSwapped(ps, i);
    var qs := Swapped(ps, i, |ps| - 1);
    forall j | 0 <= j < |ps| ensures qs[j] == ps[if j == |ps| - 1 then i else if j == i then |ps| - 1 else j] {}
    hide Raised, Swapped;
  }

  lemma MovedIsSwapped(ps: seq<Process>, i: nat)
    requires Distinct(ps) && i < |ps|
    ensures Moved(ps, ps[i], |ps| - 1) == Swapped(ps, i, |ps| - 1)
  {
    FoundAt(ps, ps[i], i);
  }

  lemma WindowsWithout(ps: seq<Process>, undrawn: set<Process>, i: nat)
    requires i < |ps|
    ensures Windows(Without(ps, i), undrawn) == Windows(ps, undrawn)[..i] + Windows(ps, undrawn)[i + 1..]
  {
    hide WindowOf, Windows;
    var qs := Without(ps, i);
    forall j | 0 <= j < |qs| ensures qs[j] == ps[if j < i then j else j + 1] {}
    hide Without;
    ListWithout(Windows(ps, undrawn), Windows(qs, undrawn), i);
  }

  lemma ListWithout(vs: seq<Window>, ws: seq<Window>, i: nat)
    requires i < |vs| && |ws| == |vs| - 1 && forall j :: 0 <= j < |ws| ==> ws[j] == vs[if j < i then j else j + 1]
    ensures ws == vs[..i] + vs[i + 1..]
  {
  }

  /** What StartProcess does to the windows. */
  lemma JoinedIsRaised(ps: seq<Process>, undrawn: set<Process>, p: Process, d: nat)
    requires p !in ps
    ensures var all := Windows(ps, undrawn) + [WindowOf(p, {p})];
            Windows(Joined(ps, p, d), undrawn + {p}) == if d <= |ps| then Raised(all, d) else all
  {
    hide Compositor.ViewOf, Windows, Raised, Compositor.Unframed;
    assert Windows(ps + [p], undrawn + {p}) == Windows(ps, undrawn) + [WindowOf(p, {p})];
    if d <= |ps| {
      var qs := Swapped(ps + [p], |ps|, d);
      forall j | 0 <= j <= |ps| ensures qs[j] == (ps + [p])[if j == |ps| then d else if j == d then |ps| else j] {}
    }
  }

  /** The overlap test of the handler is that of the compositor. */
  lemma OverlapAgrees(ps: seq<Process>, undrawn: set<Process>, i: nat)
    requires i < |ps| && forall w :: w in Windows(ps, undrawn) ==> w.unframed
    ensures Overlapped(ps, i) == Compositor.Overlapped(Views(Windows(ps, undrawn)), i)
  {
    hide Windows;
    var ws := Windows(ps, undrawn);
    forall j | i < j < |ps| ensures ps[i].Meets(ps[j]) == Meet(ws[i].view, ws[j].view) {
      assert ws[i] in ws && ws[j] in ws;
      Compositor.MeetsIsMeet(ps[i], ps[j]);
    }
    hide Meet;
  }

  // ---------- what is kept ----------

  /** A back buffer that needs no redraw is right, and it is on the screen unless a swap is due. */
  ghost predicate Right(s: Compositor.Screen, ws: seq<Window>)
    reads s, s.Backbuffer, s.Frontbuffer
  {
    && s.Valid() && s.Backbuffer.Length == s.g.PixelsPerScanline * s.g.Height
    && AllCopyable(ws, s.g, s.Backbuffer.Length) && AllFit(Shown(ws), s.g, s.Backbuffer.Length)
    && (s.RedrawRequest || Compositor.UpToDate(s.Backbuffer[..], Shown(ws), s.g))
    && (s.RedrawRequest || s.BufferSwapRequest || s.Frontbuffer[..] == s.Backbuffer[..])
  }

  /** Who has not drawn yet has a request to be served. */
  ghost predicate Owing(ps: seq<Process>, undrawn: set<Process>)
    reads ps`Type, ps`RequestAmount, ps`Requests, ps`Base
  {
    forall p :: p in ps && p in undrawn ==> Wants(p) != SUCCESS
  }

  /** Another answer does not change that. */
  lemma StillWants(pending: seq<PROR>, kind: PROT, reply: PROR)
    requires pending != [] && pending[|pending| - 1] != SUCCESS
    ensures Pushed(pending, kind, reply) != []
    ensures Pushed(pending, kind, reply)[|Pushed(pending, kind, reply)| - 1] != SUCCESS
  {
  }

  /** What the main loop relies on: the compositor shares its flags with the handler, and shows its processes. */
  ghost predicate InStep(h: Handler, s: Compositor.Screen, undrawn: set<Process>)
    reads h, h.Processes, s, s.Backbuffer, s.Frontbuffer
  {
    && h.Valid() && h.MovingWindow == null && Owing(h.Processes, undrawn)
    && h.RedrawRequest == s.RedrawRequest && h.BufferSwapRequest == s.BufferSwapRequest
    && Right(s, Windows(h.Processes, undrawn))
  }

  lemma InStepMeans(h: Handler, s: Compositor.Screen, undrawn: set<Process>)
    requires InStep(h, s, undrawn)
    ensures h.Valid() && h.MovingWindow == null && Owing(h.Processes, undrawn) && Right(s, Windows(h.Processes, undrawn))
    ensures h.RedrawRequest == s.RedrawRequest && h.BufferSwapRequest == s.BufferSwapRequest
  {
  }

  lemma InStepIff(h: Handler, s: Compositor.Screen, undrawn: set<Process>, ws: seq<Window>)
    requires h.Valid() && h.MovingWindow == null && Owing(h.Processes, undrawn) && ws == Windows(h.Processes, undrawn)
    requires h.RedrawRequest == s.RedrawRequest && h.BufferSwapRequest == s.BufferSwapRequest
    ensures InStep(h, s, undrawn) <==> Right(s, ws)
  {
  }

  lemma RightMeans(s: Compositor.Screen, ws: seq<Window>)
    requires Right(s, ws)
    ensures s.Valid() && s.Backbuffer.Length == s.g.PixelsPerScanline * s.g.Height
    ensures AllCopyable(ws, s.g, s.Backbuffer.Length) && AllFit(Shown(ws), s.g, s.Backbuffer.Length)
    ensures Compositor.Copyable(Views(ws), s.g, s.Backbuffer.Length)
    ensures s.RedrawRequest || Compositor.UpToDate(s.Backbuffer[..], Shown(ws), s.g)
  {
    CopyableViews(ws, s.g, s.Backbuffer.Length);
  }

  /** A redraw repairs every list. */
  lemma RedrawIsRight(s: Compositor.Screen, ws: seq<Window>)
    requires s.Valid() && s.Backbuffer.Length == s.g.PixelsPerScanline * s.g.Height
    requires AllCopyable(ws, s.g, s.Backbuffer.Length)
    ensures s.RedrawRequest ==> Right(s, ws)
  {
    CopyableViews(ws, s.g, s.Backbuffer.Length);
  }

  /** The list changes, with nothing new shown, and the buffer does not. */
  lemma ListChange(s: Compositor.Screen, ws: seq<Window>, ws': seq<Window>)
    requires Right(s, ws) && AllCopyable(ws', s.g, s.Backbuffer.Length)
    requires forall k :: 0 <= k < s.Backbuffer.Length && Topmost(Shown(ws'), s.g, k) >= 0 ==> Topmost(Shown(ws), s.g, k) >= 0
    ensures AllFit(Shown(ws), s.g, s.Backbuffer.Length) && AllFit(Shown(ws'), s.g, s.Backbuffer.Length)
    ensures Right(s, ws') <==> s.RedrawRequest || SeenAlike(Shown(ws), Shown(ws'), s.g, s.Backbuffer.Length)
  {
    CopyableViews(ws', s.g, s.Backbuffer.Length);
    hide View.Valid, View.InBuffer, Topmost, Compositor.UpToDate, SeenAlike, Compositor.Copyable, Shown, Views;
    if !s.RedrawRequest { StaysRightIff(s.Backbuffer[..], Shown(ws), Shown(ws'), s.g); }
  }

  lemma RaisedIsRight(s: Compositor.Screen, ws: seq<Window>, i: nat)
    requires Right(s, ws) && i < |ws|
    ensures AllFit(Shown(ws), s.g, s.Backbuffer.Length) && AllFit(Shown(Raised(ws, i)), s.g, s.Backbuffer.Length)
    ensures Right(s, Raised(ws, i)) <==> s.RedrawRequest || SeenAlike(Shown(ws), Shown(Raised(ws, i)), s.g, s.Backbuffer.Length)
  {
    CopyableRaised(ws, i, s.g, s.Backbuffer.Length);
    RaisedWindows(ws, i);
    forall k | 0 <= k < s.Backbuffer.Length && Topmost(Shown(Raised(ws, i)), s.g, k) >= 0 ensures Topmost(Shown(ws), s.g, k) >= 0 {
      RaisedCovers(Shown(ws), i, s.g, k);
    }
    hide Right;
    ListChange(s, ws, Raised(ws, i));
  }

  lemma CopyableRaised(ws: seq<Window>, i: nat, g: Geometry, n: nat)
    requires i < |ws| && AllCopyable(ws, g, n)
    ensures AllCopyable(Raised(ws, i), g, n)
  {
    hide Compositor.Copyable;
  }

  lemma CopyableWithout(ws: seq<Window>, i: nat, g: Geometry, n: nat)
    requires i < |ws| && AllCopyable(ws, g, n)
    ensures AllCopyable(ws[..i] + ws[i + 1..], g, n)
  {
    hide Compositor.Copyable;
  }

  // ---------- focus and kill ----------

  lemma NoFrames(h: Handler, undrawn: set<Process>, g: Geometry, n: nat)
    requires h.Valid() && AllCopyable(Windows(h.Processes, undrawn), g, n)
    ensures Distinct(h.Processes) && forall p :: p in h.Processes ==> Compositor.Unframed(p)
    ensures h.FocusedProcess != null ==> Compositor.Unframed(h.FocusedProcess)
  {
    hide Windows, Compositor.Copyable;
    forall p | p in h.Processes ensures Compositor.Unframed(p) {
      var j :| 0 <= j < |h.Processes| && h.Processes[j] == p;
      assert Windows(h.Processes, undrawn)[j].unframed;
    }
  }

  lemma OwingSome(ps: seq<Process>, qs: seq<Process>, undrawn: set<Process>)
    requires Owing(ps, undrawn) && forall q :: q in qs ==> q in ps
    ensures Owing(qs, undrawn)
  {
  }

  /** SetFocusedProcess on a desktop without frames: nothing is redrawn, and the back buffer stays right exactly
      when the windows are seen alike before and after. */
  method Focus(h: Handler, s: Compositor.Screen, p: Process, i: nat, ghost undrawn: set<Process>)
    requires InStep(h, s, undrawn) && i < |h.Processes| && h.Processes[i] == p && p.Type == FRAMELESSWINDOW
    modifies h`Processes, h`FocusedProcess, h`RedrawRequest, h.Processes`Depth
    ensures h.Valid() && h.FocusedProcess == p && h.RedrawRequest == old(h.RedrawRequest)
    ensures Windows(h.Processes, undrawn) == Raised(old(Windows(h.Processes, undrawn)), i)
    ensures var n, ws, ws' := s.Backbuffer.Length, old(Windows(h.Processes, undrawn)), Windows(h.Processes, undrawn);
            && AllFit(Shown(ws), s.g, n) && AllFit(Shown(ws'), s.g, n)
            && (InStep(h, s, undrawn) <==> s.RedrawRequest || SeenAlike(Shown(ws), Shown(ws'), s.g, n))
  {
    hide *;
    InStepMeans(h, s, undrawn);
    ghost var ws := Windows(h.Processes, undrawn);
    RightMeans(s, ws);
    RaisedIsRight(s, ws, i);
    NoFrames(h, undrawn, s.g, s.Backbuffer.Length);
    Raise(h, p, i, undrawn);
    InStepIff(h, s, undrawn, Raised(ws, i));
  }

  /** The handler's side of it. */
  method Raise(h: Handler, p: Process, i: nat, ghost undrawn: set<Process>)
    requires h.Valid() && Owing(h.Processes, undrawn) && forall q :: q in h.Processes ==> Compositor.Unframed(q)
    requires i < |h.Processes| && h.Processes[i] == p && p.Type == FRAMELESSWINDOW
    modifies h`Processes, h`FocusedProcess, h`RedrawRequest, h.Processes`Depth
    ensures h.Valid() && h.FocusedProcess == p && h.RedrawRequest == old(h.RedrawRequest) && Owing(h.Processes, undrawn)
    ensures Windows(h.Processes, undrawn) == Raised(old(Windows(h.Processes, undrawn)), i)
  {
    hide Handler.Valid, Windows, WindowOf, Raised, Owing, IndexOf, Process.Valid, Process.Pending;
    ghost var ps, qs, ws := h.Processes, Moved(h.Processes, p, |h.Processes| - 1), Windows(h.Processes, undrawn);
    FocusListed(h);
    MovedIsRaised(ps, undrawn, i);
    MovedFacts(ps, p, |ps| - 1);
    OwingSome(ps, qs, undrawn);
    h.SetFocusedProcess(p);
    assert h.Processes == qs && Windows(qs, undrawn) == Raised(ws, i) && Owing(qs, undrawn);
  }

  lemma FocusListed(h: Handler)
    requires h.Valid()
    ensures Distinct(h.Processes) && (h.FocusedProcess != null ==> h.FocusedProcess in h.Processes)
  {
  }

  /** KillProcess always asks for a redraw. */
  method Kill(h: Handler, s: Compositor.Screen, id: nat, reply: PROR, ghost undrawn: set<Process>)
    requires InStep(h, s, undrawn)
    modifies h`Processes, h`FocusedProcess, h`MovingWindow, h`LastMessagedProcess, h`RedrawRequest, s`RedrawRequest
    modifies h.Processes`RequestAmount, h.Processes`Requests
    ensures InStep(h, s, undrawn)
    ensures var ps := old(h.Processes); var i := WhereID(ps, id);
            && h.Processes == (if i < |ps| then Without(ps, i) else ps)
            && s.RedrawRequest == (old(s.RedrawRequest) || i < |ps|)
    ensures forall q :: q in h.Processes ==> q in old(h.Processes)
  {
    hide *;
    ghost var ws, i := Windows(h.Processes, undrawn), WhereID(h.Processes, id);
    InStepMeans(h, s, undrawn);
    RightMeans(s, ws);
    ghost var rest := ws;
    if i < |ws| {
      CopyableWithout(ws, i, s.g, s.Backbuffer.Length);
      rest := ws[..i] + ws[i + 1..];
    }
    var killed := Remove(h, id, reply, undrawn);
    if killed {
      s.RedrawRequest := true;
      RedrawIsRight(s, rest);
      InStepIff(h, s, undrawn, rest);
    } else {
      InStepIff(h, s, undrawn, ws);
    }
  }

  /** The handler's side of it. */
  method Remove(h: Handler, id: nat, reply: PROR, ghost undrawn: set<Process>) returns (killed: bool)
    requires h.Valid() && h.MovingWindow == null && Owing(h.Processes, undrawn)
    modifies h`Processes, h`FocusedProcess, h`MovingWindow, h`LastMessagedProcess, h`RedrawRequest
    modifies h.Processes`RequestAmount, h.Processes`Requests
    ensures h.Valid() && h.MovingWindow == null && Owing(h.Processes, undrawn)
    ensures var ps, ws := old(h.Processes), old(Windows(h.Processes, undrawn));
            var i := WhereID(ps, id);
            && (killed <==> i < |ps|)
            && h.Processes == (if killed then Without(ps, i) else ps)
            && Windows(h.Processes, undrawn) == (if killed then ws[..i] + ws[i + 1..] else ws)
            && h.RedrawRequest == (old(h.RedrawRequest) || killed)
    ensures forall q :: q in h.Processes ==> q in old(h.Processes)
  {
    hide Handler.Valid, Without, WhereID, Windows, WindowOf, Wants;
    ghost var ps, i, ws := h.Processes, WhereID(h.Processes, id), Windows(h.Processes, undrawn);
    ghost var qs := if i < |ps| then Without(ps, i) else ps;
    ghost var ws' := Windows(qs, undrawn);
    FocusListed(h);
    if i < |ps| {
      WithoutFacts(ps, i);
      WindowsWithout(ps, undrawn, i);
    }
    killed := h.KillProcess(id, reply);
    assert h.Processes == qs && Windows(qs, undrawn) == ws';
    forall p | p in qs && p in undrawn ensures Wants(p) != SUCCESS {
      assert unchanged(p) && old(Wants(p)) != SUCCESS;
    }
  }

  // ---------- interrupts ----------

  /** A key or a tick changes nothing that is shown. */
  method Key(h: Handler, s: Compositor.Screen, reply: PROR, ghost undrawn: set<Process>)
    requires InStep(h, s, undrawn) && reply != RESET
    modifies h`LastMessagedProcess, h.Processes`RequestAmount, h.Processes`Requests
    ensures InStep(h, s, undrawn)
  {
    hide Windows, Right, Process.Valid, Process.Pending, Handler.Valid, Pushed;
    h.KeyBoardInterupt(reply);
    forall p | p in h.Processes && p in undrawn ensures Wants(p) != SUCCESS {
      assert old(Wants(p)) != SUCCESS;
      if p == h.FocusedProcess { StillWants(old(p.Pending()), p.Type, reply); } else { assert unchanged(p); }
    }
  }

  method Tick(h: Handler, s: Compositor.Screen, replies: seq<PROR>, ghost undrawn: set<Process>)
    requires InStep(h, s, undrawn) && |replies| >= |h.Processes| && RESET !in replies
    modifies h`LastMessagedProcess, h.Processes`RequestAmount, h.Processes`Requests
    ensures InStep(h, s, undrawn)
  {
    hide Windows, Right, Process.Valid, Process.Pending, Handler.Valid, Pushed;
    h.PITInterupt(replies);
    forall p | p in h.Processes && p in undrawn ensures Wants(p) != SUCCESS {
      assert old(Wants(p)) != SUCCESS;
      var k :| 0 <= k < |h.Processes| && h.Processes[k] == p;
      StillWants(old(p.Pending()), p.Type, replies[k]);
    }
  }

  /** The mouse tells the topmost window it is on, and a press raises it: then the back buffer stays right exactly when
      the windows are seen alike. */
  method Mouse(h: Handler, s: Compositor.Screen, position: Point, left: bool, reply: PROR, killReply: PROR,
               ghost undrawn: set<Process>)
    requires InStep(h, s, undrawn) && reply != RESET
    modifies h`Processes, h`FocusedProcess, h`MovingWindow, h`MovingWindowPosDelta, h`LastMessagedProcess, h`RedrawRequest
    modifies h`LeftHeld, h`MousePosition
    modifies h.Processes`Type, h.Processes`Pos, h.Processes`Depth, h.Processes`RequestAmount, h.Processes`Requests
    ensures h.RedrawRequest == old(h.RedrawRequest) && forall q :: q in h.Processes ==> q in old(h.Processes)
    ensures var t, ws, n := old(Target(h.Processes, left, position)), old(Windows(h.Processes, undrawn)), s.Backbuffer.Length;
            if left && t >= 0 && old(h.Processes[t].Type) == FRAMELESSWINDOW then
              && AllFit(Shown(ws), s.g, n) && AllFit(Shown(Raised(ws, t)), s.g, n)
              && (InStep(h, s, undrawn) <==> s.RedrawRequest || SeenAlike(Shown(ws), Shown(Raised(ws, t)), s.g, n))
            else
              InStep(h, s, undrawn)
  {
    hide *;
    InStepMeans(h, s, undrawn);
    ghost var t, ws := Target(h.Processes, left, position), Windows(h.Processes, undrawn);
    RightMeans(s, ws);
    NoFrames(h, undrawn, s.g, s.Backbuffer.Length);
    if t >= 0 { RaisedIsRight(s, ws, t); }
    ghost var ws' := if left && t >= 0 && h.Processes[t].Type == FRAMELESSWINDOW then Raised(ws, t) else ws;
    ghost var right := Right(s, ws');
    Touch(h, position, left, reply, killReply, undrawn);
    assert Right(s, ws') == right;
    InStepIff(h, s, undrawn, ws');
  }

  /** The handler's side of it. */
  method Touch(h: Handler, position: Point, left: bool, reply: PROR, killReply: PROR, ghost undrawn: set<Process>)
    requires h.Valid() && h.MovingWindow == null && Owing(h.Processes, undrawn) && reply != RESET
    requires forall p :: p in h.Processes ==> Compositor.Unframed(p)
    modifies h`Processes, h`FocusedProcess, h`MovingWindow, h`MovingWindowPosDelta, h`LastMessagedProcess, h`RedrawRequest
    modifies h`LeftHeld, h`MousePosition
    modifies h.Processes`Type, h.Processes`Pos, h.Processes`Depth, h.Processes`RequestAmount, h.Processes`Requests
    ensures h.Valid() && h.MovingWindow == null && h.RedrawRequest == old(h.RedrawRequest) && Owing(h.Processes, undrawn)
    ensures forall q :: q in h.Processes ==> q in old(h.Processes)
    ensures var ps, t, ws := old(h.Processes), old(Target(h.Processes, left, position)), old(Windows(h.Processes, undrawn));
            Windows(h.Processes, undrawn)
            == if left && t >= 0 && old(ps[t].Type) == FRAMELESSWINDOW then Raised(ws, t) else ws
  {
    hide Windows, WindowOf, Owing, Handler.Valid, Target, IndexOf, Raised, Process.Valid, Process.Pending;
    ghost var ps, t := h.Processes, Target(h.Processes, left, position);
    ghost var raises := left && t >= 0 && ps[t].Type == FRAMELESSWINDOW;
    FocusListed(h);
    MovesNothing(h, position, left, reply, killReply, undrawn);
    if raises {
      MovedIsRaised(ps, undrawn, t);
      MovedFacts(ps, ps[t], |ps| - 1);
    }
    OwingSome(ps, h.Processes, undrawn);
  }

  /** It leaves every process where it is. */
  method MovesNothing(h: Handler, position: Point, left: bool, reply: PROR, killReply: PROR, ghost undrawn: set<Process>)
    requires h.Valid() && h.MovingWindow == null && Owing(h.Processes, undrawn) && reply != RESET
    requires forall p :: p in h.Processes ==> Compositor.Unframed(p)
    modifies h`Processes, h`FocusedProcess, h`MovingWindow, h`MovingWindowPosDelta, h`LastMessagedProcess, h`RedrawRequest
    modifies h`LeftHeld, h`MousePosition
    modifies h.Processes`Type, h.Processes`Pos, h.Processes`Depth, h.Processes`RequestAmount, h.Processes`Requests
    ensures h.Valid() && h.MovingWindow == null && h.RedrawRequest == old(h.RedrawRequest)
    ensures Owing(old(h.Processes), undrawn) && Windows(old(h.Processes), undrawn) == old(Windows(h.Processes, undrawn))
    ensures var ps, t := old(h.Processes), old(Target(h.Processes, left, position));
            h.Processes == if left && t >= 0 && old(ps[t].Type) == FRAMELESSWINDOW then Moved(ps, ps[t], |ps| - 1) else ps
  {
    hide Wants, Process.Valid, Process.Pending, Handler.Valid, Target, Moved, Compositor.Unframed, Windows, Pushed;
    ghost var ps, t, ws := h.Processes, Target(h.Processes, left, position), Windows(h.Processes, undrawn);
    MouseOnly(h, position, left, reply, killReply);
    forall q | q in ps ensures q.Type == old(q.Type) && q.Pos == old(q.Pos) && (q in undrawn ==> Wants(q) != SUCCESS) {
      assert q in undrawn ==> old(Wants(q)) != SUCCESS;
      if t < 0 || q != ps[t] {
        assert unchanged(q);
      }
    }
    assert Owing(ps, undrawn) && Windows(ps, undrawn) == ws;
  }

  /** MouseInterupt where no window has a title bar. */
  method MouseOnly(h: Handler, position: Point, left: bool, reply: PROR, killReply: PROR)
    requires h.Valid() && h.MovingWindow == null && reply != RESET
    requires forall p :: p in h.Processes ==> Compositor.Unframed(p)
    modifies h`Processes, h`FocusedProcess, h`MovingWindow, h`MovingWindowPosDelta, h`LastMessagedProcess, h`RedrawRequest
    modifies h`LeftHeld, h`MousePosition
    modifies h.Processes`Type, h.Processes`Pos, h.Processes`Depth, h.Processes`RequestAmount, h.Processes`Requests
    ensures h.Valid() && h.MovingWindow == null && h.RedrawRequest == old(h.RedrawRequest)
    ensures var ps, t := old(h.Processes), old(Target(h.Processes, left, position));
            && h.Processes == (if left && t >= 0 && old(ps[t].Type) == FRAMELESSWINDOW then Moved(ps, ps[t], |ps| - 1) else ps)
            && (forall q :: q in ps && (t < 0 || q != ps[t]) ==> unchanged(q))
            && (t >= 0 ==>
                  && ps[t].Type == old(ps[t].Type) && ps[t].Pos == old(ps[t].Pos)
                  && (old(Wants(ps[t])) != SUCCESS ==> Wants(ps[t]) != SUCCESS))
  {
    hide Process.Valid, Process.Pending, Handler.Valid, Target, IndexOf, OnTitle, Compositor.Unframed, Handler.TitlePressed, Pushed;
    ghost var ps, t := h.Processes, Target(h.Processes, left, position);
    FocusListed(h);
    NoWindow(h);
    if t >= 0 { NoTitle(ps, t, position); }
    h.MousePosition, h.LeftHeld := position, left;
    assert t == Target(h.Processes, h.LeftHeld, h.MousePosition) && (t >= 0 ==> !OnTitle(ps[t], h.MousePosition));
    h.MouseInterupt(reply, killReply);
    if t >= 0 && old(Wants(ps[t])) != SUCCESS { StillWants(old(ps[t].Pending()), ps[t].Type, reply); }
  }

  lemma NoWindow(h: Handler)
    requires h.Valid() && forall p :: p in h.Processes ==> Compositor.Unframed(p)
    ensures h.FocusedProcess != null ==> h.FocusedProcess.Type != WINDOWED
  {
  }

  lemma NoTitle(ps: seq<Process>, t: nat, pos: Point)
    requires t < |ps| && forall p :: p in ps ==> Compositor.Unframed(p)
    ensures !OnTitle(ps[t], pos) && (ps[t].Type == FULLSCREEN || ps[t].Type == FRAMELESSWINDOW)
  {
    assert ps[t] in ps && Compositor.Unframed(ps[t]);
  }

  // ---------- start ----------

  /** A window that has not drawn itself joins the list: it changes what is shown only by the window it brings up. */
  lemma JoinIsRight(s: Compositor.Screen, ws: seq<Window>, new_: Window, d: nat)
    requires Right(s, ws) && new_.unframed && !new_.drawn && Compositor.Copyable([new_.view], s.g, s.Backbuffer.Length)
    ensures var shown, n := Shown(ws) + [BLANK], s.Backbuffer.Length;
            && AllFit(shown, s.g, n) && (d <= |ws| ==> AllFit(Raised(shown, d), s.g, n))
            && (Right(s, if d <= |ws| then Raised(ws + [new_], d) else ws + [new_])
                <==> s.RedrawRequest || d > |ws| || SeenAlike(shown, Raised(shown, d), s.g, n))
  {
    var all := ws + [new_];
    RightMeans(s, ws);
    JoinCopyable(ws, new_, s.g, s.Backbuffer.Length);
    assert Shown(all) == Shown(ws) + [BLANK];
    BlankOnTop(s.Backbuffer[..], Shown(ws), s.g);
    hide Shown, AllCopyable, AllFit, SeenAlike, Raised;
    StillUpToDate(s.Backbuffer[..], Shown(ws), s.g);
    assert Right(s, all);
    if d <= |ws| {
      RaisedIsRight(s, all, d);
      RaisedWindows(all, d);
    }
  }

  lemma StillUpToDate(b: seq<ARGB>, vs: seq<View>, g: Geometry)
    requires AllFit(vs, g, |b|) && AllFit(vs + [BLANK], g, |b|) && Repaint(b, vs + [BLANK], g) == Repaint(b, vs, g)
    ensures Compositor.UpToDate(b, vs + [BLANK], g) <==> Compositor.UpToDate(b, vs, g)
  {
  }

  lemma JoinCopyable(ws: seq<Window>, new_: Window, g: Geometry, n: nat)
    requires AllCopyable(ws, g, n) && new_.unframed && Compositor.Copyable([new_.view], g, n)
    ensures AllCopyable(ws + [new_], g, n)
    ensures forall d: nat :: d <= |ws| ==> AllCopyable(Raised(ws + [new_], d), g, n)
  {
    hide Compositor.Copyable;
    forall d: nat | d <= |ws| ensures AllCopyable(Raised(ws + [new_], d), g, n) { CopyableRaised(ws + [new_], d, g, n); }
  }

  /** Where a new process puts its window. */
  function StartView(info: PINFO, screen: Point): View {
    if info.Type == FULLSCREEN then View(0, 0, Span(screen.X), Span(screen.Y), [])
    else View(info.Left, info.Top, info.Width, info.Height, [])
  }

  /** StartProcess among windows without frames. The new window has not drawn itself, but has the request to do so; the
      back buffer stays right exactly when a fullscreen process had to go, when the new window is on top, or when
      nothing is seen of the window that it brings up. */
  method Start(h: Handler, s: Compositor.Screen, procedure: PROC, info: PINFO, junk: Junk, reply: PROR, killReply: PROR,
               ghost undrawn: set<Process>)
    returns (id: nat, p: Process?)
    requires InStep(h, s, undrawn) && reply != RESET && (info.Type == FULLSCREEN || info.Type == FRAMELESSWINDOW)
    requires !Running(h.Processes, procedure) ==>
               && StartDepth(info, junk, |h.Processes|) != |Vacated(h.Processes, info.Type)| + 1
               && SpareColumn(StartView(info, h.ScreenSize), s.g)
    modifies h`Processes, h`FocusedProcess, h`MovingWindow, h`LastMessagedProcess, h`RedrawRequest, h`NewID
    modifies h.Processes`RequestAmount, h.Processes`Requests, s`RedrawRequest
    ensures old(Running(h.Processes, procedure)) ==> p == null && InStep(h, s, undrawn) && h.Processes == old(h.Processes)
    ensures old(!Running(h.Processes, procedure)) ==>
              var d, n := StartDepth(info, junk, |old(h.Processes)|), s.Backbuffer.Length;
              var shown := old(Shown(Windows(h.Processes, undrawn))) + [BLANK];
              && p != null && fresh(p) && p in h.Processes && p.ID == id
              && h.Processes == Joined(old(Vacated(h.Processes, info.Type)), p, d)
              && (forall q :: q in h.Processes ==> q in old(h.Processes) || q == p)
              && s.RedrawRequest == (old(s.RedrawRequest) || old(Vacated(h.Processes, info.Type) != h.Processes))
              && AllFit(shown, s.g, n) && (d < |shown| ==> AllFit(Raised(shown, d), s.g, n))
              && (InStep(h, s, undrawn + {p}) <==> s.RedrawRequest || d >= |shown| || SeenAlike(shown, Raised(shown, d), s.g, n))
  {
    hide *;
    InStepMeans(h, s, undrawn);
    ghost var ws, d := Windows(h.Processes, undrawn), StartDepth(info, junk, |h.Processes|);
    RightMeans(s, ws);
    ghost var new_: Window, others: seq<Window>;
    id, p, new_, others := Launch(h, procedure, info, junk, reply, killReply, undrawn, s.g, s.Backbuffer.Length);
    if p != null {
      JoinIsRight(s, ws, new_, d);
      JoinCopyable(others, new_, s.g, s.Backbuffer.Length);
    }
    if h.RedrawRequest {
      s.RedrawRequest := true;
      RedrawIsRight(s, Windows(h.Processes, if p == null then undrawn else undrawn + {p}));
    }
    ghost var now := if p == null then undrawn else undrawn + {p};
    InStepIff(h, s, now, Windows(h.Processes, now));
  }

  /** The handler's side of it: `others` are the windows of those that stay. */
  method Launch(h: Handler, procedure: PROC, info: PINFO, junk: Junk, reply: PROR, killReply: PROR,
                ghost undrawn: set<Process>, ghost g: Geometry, ghost n: nat)
    returns (id: nat, p: Process?, ghost new_: Window, ghost others: seq<Window>)
    requires h.Valid() && h.MovingWindow == null && Owing(h.Processes, undrawn) && reply != RESET
    requires info.Type == FULLSCREEN || info.Type == FRAMELESSWINDOW
    requires AllCopyable(Windows(h.Processes, undrawn), g, n) && n == g.PixelsPerScanline * g.Height
    requires !Running(h.Processes, procedure) ==>
               && StartDepth(info, junk, |h.Processes|) != |Vacated(h.Processes, info.Type)| + 1
               && SpareColumn(StartView(info, h.ScreenSize), g)
    modifies h`Processes, h`FocusedProcess, h`MovingWindow, h`LastMessagedProcess, h`RedrawRequest, h`NewID
    modifies h.Processes`RequestAmount, h.Processes`Requests
    ensures h.Valid() && h.MovingWindow == null
    ensures old(Running(h.Processes, procedure)) ==>
              && p == null && Owing(h.Processes, undrawn) && h.RedrawRequest == old(h.RedrawRequest)
              && h.Processes == old(h.Processes)
              && Windows(h.Processes, undrawn) == old(Windows(h.Processes, undrawn))
    ensures old(!Running(h.Processes, procedure)) ==>
              var d := StartDepth(info, junk, |old(h.Processes)|);
              && p != null && fresh(p) && p in h.Processes && p.ID == id && Owing(h.Processes, undrawn + {p})
              && h.Processes == Joined(old(Vacated(h.Processes, info.Type)), p, d)
              && (forall q :: q in h.Processes ==> q in old(h.Processes) || q == p)
              && h.RedrawRequest == (old(h.RedrawRequest) || old(Vacated(h.Processes, info.Type) != h.Processes))
              && AllCopyable(others, g, n)
              && (old(Vacated(h.Processes, info.Type) == h.Processes) ==> others == old(Windows(h.Processes, undrawn)))
              && new_.unframed && !new_.drawn && Compositor.Copyable([new_.view], g, n)
              && Windows(h.Processes, undrawn + {p}) == if d <= |others| then Raised(others + [new_], d) else others + [new_]
  {
    hide Handler.Valid, Windows, WindowOf, Raised, AllCopyable, Running, StartDepth, SpareColumn, Joined;
    hide Process.Valid, Process.Pending, WhereFull, StartRequests, Wants;
    ghost var ps, rest, d := h.Processes, Vacated(h.Processes, info.Type), StartDepth(info, junk, |h.Processes|);
    others, new_ := Windows(rest, undrawn), Window(BLANK, false, true);
    FocusListed(h);
    VacatedFacts(ps, info.Type, undrawn, g, n);
    id, p := h.StartProcess(procedure, info, junk, reply, killReply, null);
    if p != null {
      Started(p, info, junk, reply, h.ScreenSize, g, n);
      new_ := WindowOf(p, {p});
      JoinedFacts(rest, p, d);
      JoinedIsRaised(rest, undrawn, p, d);
      assert Windows(rest, undrawn) == others;
    }
    forall q | q in h.Processes && q in undrawn && q != p ensures Wants(q) != SUCCESS {
      assert unchanged(q) && old(Wants(q)) != SUCCESS;
    }
  }

  lemma VacatedFacts(ps: seq<Process>, kind: PROT, undrawn: set<Process>, g: Geometry, n: nat)
    requires Distinct(ps) && AllCopyable(Windows(ps, undrawn), g, n)
    ensures Distinct(Vacated(ps, kind)) && AllCopyable(Windows(Vacated(ps, kind), undrawn), g, n)
    ensures forall q :: q in Vacated(ps, kind) ==> q in ps
  {
    hide Windows, AllCopyable, Distinct, Without;
    var i := WhereFull(ps);
    if i < |ps| {
      WithoutFacts(ps, i);
      WindowsWithout(ps, undrawn, i);
      CopyableWithout(Windows(ps, undrawn), i, g, n);
    }
  }

  lemma Started(p: Process, info: PINFO, junk: Junk, reply: PROR, screen: Point, g: Geometry, n: nat)
    requires p.Valid() && p.Type == info.Type && (info.Type == FULLSCREEN || info.Type == FRAMELESSWINDOW)
    requires p.Pos == (if info.Type == FULLSCREEN then Point(0, 0) else Point(info.Left, info.Top))
    requires p.Width == (if info.Type == FULLSCREEN then Span(screen.X) else info.Width)
    requires p.Height == (if info.Type == FULLSCREEN then Span(screen.Y) else info.Height)
    requires SpareColumn(StartView(info, screen), g) && n == g.PixelsPerScanline * g.Height
    requires p.Pending() == StartRequests(info, junk, reply)
    ensures var w := WindowOf(p, {p}); w.unframed && !w.drawn && Compositor.Copyable([w.view], g, n)
    ensures Wants(p) == DRAW
  {
    ViewIsValid(p);
    LinesHold(Compositor.ViewOf(p), g);
  }

  /** What Loop does when no process is left: it starts one and gives it the focus. */
  method Restart(h: Handler, s: Compositor.Screen, procedure: PROC, info: PINFO, junk: Junk, reply: PROR, killReply: PROR,
                 ghost undrawn: set<Process>)
    returns (p: Process)
    requires InStep(h, s, undrawn) && h.Processes == [] && reply != RESET && StartDepth(info, junk, 0) != 1
    requires (info.Type == FULLSCREEN || info.Type == FRAMELESSWINDOW) && SpareColumn(StartView(info, h.ScreenSize), s.g)
    modifies h`Processes, h`FocusedProcess, h`MovingWindow, h`LastMessagedProcess, h`RedrawRequest, h`NewID, s`RedrawRequest
    ensures InStep(h, s, undrawn + {p}) && fresh(p) && h.Processes == [p] && h.FocusedProcess == p
  {
    hide InStep, Windows, Shown, Raised, SeenAlike, AllFit, Running, StartDepth, Vacated, SpareColumn, Joined;
    ghost var shown := Shown(Windows(h.Processes, undrawn)) + [BLANK];
    NobodyRuns(h.Processes, procedure, info.Type);
    AlikeItself(shown, s.g, s.Backbuffer.Length);
    var id, q := Start(h, s, procedure, info, junk, reply, killReply, undrawn);
    p := q;
    JoinedAlone(p, StartDepth(info, junk, 0));
    GiveFocus(h, s, p, undrawn + {p});
  }

  method GiveFocus(h: Handler, s: Compositor.Screen, p: Process, ghost undrawn: set<Process>)
    requires InStep(h, s, undrawn) && p in h.Processes
    modifies h`FocusedProcess
    ensures InStep(h, s, undrawn) && h.FocusedProcess == p
  {
    hide Right, Windows, Owing, Sound, Apart, Distinct;
    h.FocusedProcess := p;
  }

  lemma AlikeItself(vs: seq<View>, g: Geometry, n: nat)
    requires |vs| == 1
    ensures AllFit(vs, g, n) ==> SeenAlike(vs, Raised(vs, 0), g, n)
  {
    assert Raised(vs, 0) == vs;
    hide Topmost, Colour;
  }

  lemma NobodyRuns(ps: seq<Process>, procedure: PROC, kind: PROT)
    requires ps == []
    ensures !Running(ps, procedure) && Vacated(ps, kind) == ps
  {
  }
  // ---------- the request loop ----------

  /** One turn of the request loop: a window that was asked to draws `pixels`, and the change is brought to the back
      buffer. Whoever is served has drawn, or is gone. */
  method Turn(h: Handler, s: Compositor.Screen, i: nat, reply: PROR, killReply: PROR, pixels: seq<ARGB>,
              ghost undrawn: set<Process>)
    returns (request: PROR)
    requires InStep(h, s, undrawn) && i < |h.Processes| && reply != RESET && |pixels| == |h.Processes[i].Base|
    modifies h`Processes, h`FocusedProcess, h`MovingWindow, h`LastMessagedProcess, h`RedrawRequest, h`BufferSwapRequest
    modifies {h.Processes[i]}`RequestAmount, {h.Processes[i]}`Requests, {h.Processes[i]}`Base
    modifies s`RedrawRequest, s`BufferSwapRequest, s.Backbuffer
    ensures InStep(h, s, undrawn - {old(h.Processes[i])})
    ensures request == old(Wants(h.Processes[i]))
    ensures h.Processes == if request == KILL then Without(old(h.Processes), i) else old(h.Processes)
    ensures request == CLEAR || request == DRAW ==> h.Processes[i].Base == pixels
  {
    hide *;
    InStepMeans(h, s, undrawn);
    ghost var p, ws := h.Processes[i], Windows(h.Processes, undrawn);
    RightMeans(s, ws);
    CopyableWithout(ws, i, s.g, s.Backbuffer.Length);
    request := Answer(h, i, reply, killReply, undrawn);
    if request == KILL {
      s.RedrawRequest := true;
      RedrawIsRight(s, ws[..i] + ws[i + 1..]);
      InStepIff(h, s, undrawn - {p}, ws[..i] + ws[i + 1..]);
    } else if request == CLEAR || request == DRAW {
      ShowDrawing(h, s, i, pixels, undrawn);
    } else {
      InStepIff(h, s, undrawn - {p}, ws);
    }
  }

  /** The handler's side of it. */
  method Answer(h: Handler, i: nat, reply: PROR, killReply: PROR, ghost undrawn: set<Process>) returns (request: PROR)
    requires h.Valid() && h.MovingWindow == null && Owing(h.Processes, undrawn) && i < |h.Processes| && reply != RESET
    modifies h`Processes, h`FocusedProcess, h`MovingWindow, h`LastMessagedProcess, h`RedrawRequest, h`BufferSwapRequest
    modifies {h.Processes[i]}`RequestAmount, {h.Processes[i]}`Requests
    ensures h.Valid() && h.MovingWindow == null && Owing(h.Processes, undrawn - {old(h.Processes[i])})
    ensures request == old(Wants(h.Processes[i])) != RESET
    ensures h.Processes == if request == KILL then Without(old(h.Processes), i) else old(h.Processes)
    ensures var ws := old(Windows(h.Processes, undrawn));
            if request == KILL then
              && Windows(h.Processes, undrawn - {old(h.Processes[i])}) == ws[..i] + ws[i + 1..]
              && h.RedrawRequest && h.BufferSwapRequest == old(h.BufferSwapRequest)
            else
              && Windows(h.Processes, undrawn) == ws
              && h.RedrawRequest == (old(h.RedrawRequest) || (request != SUCCESS && Overlapped(h.Processes, i)))
              && h.BufferSwapRequest == (old(h.BufferSwapRequest) || (request != SUCCESS && !Overlapped(h.Processes, i)))
    ensures request == SUCCESS ==> Windows(h.Processes, undrawn - {old(h.Processes[i])}) == Windows(h.Processes, undrawn)
  {
    hide Without, Handler.Valid, Windows, WindowOf, Overlapped, Wants, Served, Holds;
    ghost var ps, p := h.Processes, h.Processes[i];
    ghost var ws, rest := Windows(ps, undrawn), Windows(Without(ps, i), undrawn);
    FocusListed(h);
    WithoutFacts(ps, i);
    WindowsWithout(ps, undrawn, i);
    request := h.Serve(i, reply, killReply);
    assert Windows(ps, undrawn) == ws && Windows(Without(ps, i), undrawn) == rest;
    SameUndrawn(Without(ps, i), undrawn, p);
    if request == SUCCESS { SameUndrawn(ps, undrawn, p); }
    forall q | q in h.Processes && q in undrawn - {p} ensures Wants(q) != SUCCESS {
      assert unchanged(q) && old(Wants(q)) != SUCCESS;
    }
  }

  lemma SameUndrawn(ps: seq<Process>, undrawn: set<Process>, p: Process)
    requires p !in ps || p !in undrawn
    ensures Windows(ps, undrawn - {p}) == Windows(ps, undrawn)
  {
    hide Windows;
  }

  /** Draw and Compositor::Update(i), when the handler has already raised the flags. */
  method ShowDrawing(h: Handler, s: Compositor.Screen, i: nat, pixels: seq<ARGB>, ghost undrawn: set<Process>)
    requires h.Valid() && h.MovingWindow == null && i < |h.Processes| && |pixels| == |h.Processes[i].Base|
    requires Right(s, Windows(h.Processes, undrawn)) && Owing(h.Processes, undrawn - {h.Processes[i]})
    requires h.RedrawRequest == (s.RedrawRequest || Overlapped(h.Processes, i))
    requires h.BufferSwapRequest == (s.BufferSwapRequest || !Overlapped(h.Processes, i))
    modifies {h.Processes[i]}`Base, s`RedrawRequest, s`BufferSwapRequest, s.Backbuffer
    ensures InStep(h, s, undrawn - {h.Processes[i]}) && h.Processes[i].Base == pixels
  {
    hide Handler.Valid, Windows, WindowOf, Shown, Views, Right, Owing, Overlapped, Compositor.Overlapped, AllCopyable, Compositor.Copyable, AllFit;
    hide Compositor.UpToDate, Paint, View.Valid, View.InBuffer, InStep;
    ghost var b, p, ws := s.Backbuffer[..], h.Processes[i], Windows(h.Processes, undrawn);
    RightMeans(s, ws);
    OverlapAgrees(h.Processes, undrawn, i);
    Enough(h, i, pixels, undrawn);
    var was := Views(Windows(h.Processes, {}));
    SameViews(h.Processes, undrawn);
    DrawnWindow(b, ws, i, pixels, s.g);
    DrawPixels(h, i, pixels, undrawn);
    s.Update(was[i := was[i].(Pixels := pixels)], i, b, was);
    ghost var ws' := ws[i := Window(ws[i].view.(Pixels := pixels), true, ws[i].unframed)];
    assert Windows(h.Processes, undrawn - {p}) == ws';
    DrawnIsRight(s, ws');
    InStepIff(h, s, undrawn - {p}, ws');
  }

  lemma Enough(h: Handler, i: nat, pixels: seq<ARGB>, undrawn: set<Process>)
    requires h.Valid() && i < |h.Processes| && |pixels| == |h.Processes[i].Base|
    ensures Windows(h.Processes, undrawn)[i].view.(Pixels := pixels).Valid()
  {
    var p := h.Processes[i];
    SoundIsValid(p, h.NewID);
    ViewIsValid(p);
  }

  lemma SameViews(ps: seq<Process>, undrawn: set<Process>)
    ensures Views(Windows(ps, undrawn)) == Views(Windows(ps, {}))
  {
    hide Windows;
  }

  /** A window with new pixels: if no later one meets it, rendering it is right. */
  lemma DrawnWindow(b: seq<ARGB>, ws: seq<Window>, i: nat, pixels: seq<ARGB>, g: Geometry)
    requires AllCopyable(ws, g, |b|) && i < |ws| && ws[i].view.(Pixels := pixels).Valid()
    ensures var w := ws[i].view.(Pixels := pixels);
            var ws' := ws[i := Window(w, true, ws[i].unframed)];
            && AllCopyable(ws', g, |b|) && Compositor.Copyable(Views(ws'), g, |b|) && Compositor.Copyable(Views(ws), g, |b|)
            && AllFit(Shown(ws), g, |b|) && AllFit(Shown(ws'), g, |b|) && w.InBuffer(g, |b|)
            && Views(ws') == Views(ws)[i := w] && Compositor.Overlapped(Views(ws'), i) == Compositor.Overlapped(Views(ws), i)
            && (!Compositor.Overlapped(Views(ws), i) && Compositor.UpToDate(b, Shown(ws), g) ==>
                  Compositor.UpToDate(Paint(b, w, g), Shown(ws'), g))
  {
    var w := ws[i].view.(Pixels := pixels);
    var ws' := ws[i := Window(w, true, ws[i].unframed)];
    SameFit(ws[i].view, w, g, |b|);
    CopyableDrawn(ws, i, w, g, |b|);
    CopyableViews(ws, g, |b|);
    CopyableViews(ws', g, |b|);
    assert Views(ws') == Views(ws)[i := w] && Shown(ws') == Shown(ws)[i := w];
    assert forall j :: 0 <= j < |ws| ==> Meet(Views(ws')[i], Views(ws')[j]) == Meet(Views(ws)[i], Views(ws)[j]);
    hide View.Valid, View.InBuffer, SpareColumn, Meet, Compositor.UpToDate, Paint, AllCopyable;
    if !Compositor.Overlapped(Views(ws), i) && Compositor.UpToDate(b, Shown(ws), g) {
      OnTopIfNotMeeting(Views(ws'), g, |b|, i);
      OnTopShown(ws', g, |b|, i);
      DrawnOnTop(b, Shown(ws), i, w, g);
    }
  }

  lemma SameFit(v: View, w: View, g: Geometry, n: nat)
    requires w.SameShape(v) && w.Valid() && Compositor.Copyable([v], g, n)
    ensures Compositor.Copyable([w], g, n)
  {
    assert [v][0] == v && [w][0] == w;
    assert forall r :: w.Start(g, r) == v.Start(g, r);
  }

  lemma CopyableDrawn(ws: seq<Window>, i: nat, w: View, g: Geometry, n: nat)
    requires AllCopyable(ws, g, n) && i < |ws| && Compositor.Copyable([w], g, n)
    ensures AllCopyable(ws[i := Window(w, true, ws[i].unframed)], g, n)
  {
    hide Compositor.Copyable;
  }

  lemma OnTopShown(ws: seq<Window>, g: Geometry, n: nat, i: nat)
    requires i < |ws| && OnTop(Views(ws), g, n, i)
    ensures OnTop(Shown(ws), g, n, i)
  {
    forall k ensures !BLANK.Covers(g, k) { BlankCovers(g, n, k); }
    hide View.Covers;
    forall j, k | i < j < |ws| && 0 <= k < n && Shown(ws)[i].Covers(g, k) ensures !Shown(ws)[j].Covers(g, k) {
      assert Views(ws)[i].Covers(g, k) && !Views(ws)[j].Covers(g, k);
    }
  }

  lemma DrawnIsRight(s: Compositor.Screen, ws: seq<Window>)
    requires s.Valid() && s.Backbuffer.Length == s.g.PixelsPerScanline * s.g.Height
    requires AllCopyable(ws, s.g, s.Backbuffer.Length) && AllFit(Shown(ws), s.g, s.Backbuffer.Length)
    requires s.RedrawRequest || (s.BufferSwapRequest && Compositor.UpToDate(s.Backbuffer[..], Shown(ws), s.g))
    ensures Right(s, ws)
  {
  }

  /** A listed window draws into its own pixels. */
  method DrawPixels(h: Handler, i: nat, pixels: seq<ARGB>, ghost undrawn: set<Process>)
    requires h.Valid() && i < |h.Processes| && |pixels| == |h.Processes[i].Base| && Owing(h.Processes, undrawn - {h.Processes[i]})
    modifies {h.Processes[i]}`Base
    ensures h.Valid() && h.Processes[i].Base == pixels && Owing(h.Processes, undrawn - {h.Processes[i]})
    ensures var ws := old(Windows(h.Processes, undrawn));
            Windows(h.Processes, undrawn - {h.Processes[i]}) == ws[i := Window(ws[i].view.(Pixels := pixels), true, ws[i].unframed)]
  {
    hide Apart, Windows;
    ghost var p, ws := h.Processes[i], Windows(h.Processes, undrawn);
    h.Processes[i].Base := pixels;
    forall q | q in h.Processes ensures Sound(q, h.NewID) {
      assert old(Sound(q, h.NewID));
    }
    assert forall j :: 0 <= j < |h.Processes| && j != i ==> h.Processes[j] != p;
    assert Windows(h.Processes, undrawn - {p}) == ws[i := Window(ws[i].view.(Pixels := pixels), true, ws[i].unframed)];
  }

  /** Compositor::Update(). */
  method Show(h: Handler, s: Compositor.Screen)
    requires InStep(h, s, {})
    modifies h`RedrawRequest, h`BufferSwapRequest, s`RedrawRequest, s`BufferSwapRequest, s.Backbuffer, s.Frontbuffer
    ensures InStep(h, s, {}) && !s.RedrawRequest && !s.BufferSwapRequest
    ensures old(s.RedrawRequest) ==>
              var vs, g, n := Views(Windows(h.Processes, {})), s.g, s.Backbuffer.Length;
              && AllFit(vs, g, n)
              && forall k :: 0 <= k < n ==>
                   s.Backbuffer[k] == if Topmost(vs, g, k) < 0 then old(s.Backbuffer[k]) else Colour(vs[Topmost(vs, g, k)], g, n, k)
  {
    hide Handler.Valid, Windows, WindowOf, Owing, Compositor.UpToDate, Compositor.Copyable, Repaint, Topmost, Colour, View.Valid, View.InBuffer;
    ghost var b, ws := s.Backbuffer[..], Windows(h.Processes, {});
    RightMeans(s, ws);
    AllDrawn(h.Processes);
    var vs := Views(Windows(h.Processes, {}));
    RepaintRight(b, vs, s.g);
    forall k | 0 <= k < |b|
      ensures Repaint(b, vs, s.g)[k] == if Topmost(vs, s.g, k) < 0 then b[k] else Colour(vs[Topmost(vs, s.g, k)], s.g, |b|, k)
    {
      RepaintTopmost(b, vs, s.g, k);
    }
    s.UpdateAll(vs);
    h.RedrawRequest, h.BufferSwapRequest := false, false;
  }

  lemma AllDrawn(ps: seq<Process>)
    ensures Shown(Windows(ps, {})) == Views(Windows(ps, {}))
  {
    hide Windows;
  }

  lemma RepaintRight(b: seq<ARGB>, vs: seq<View>, g: Geometry)
    requires AllFit(vs, g, |b|)
    ensures Compositor.UpToDate(Repaint(b, vs, g), vs, g)
  {
    RepaintTwice(b, vs, g);
  }

  /** A pass of the main loop, request loop and update: whatever the processes ask for and draw, and whoever had not
      drawn before, afterwards the screen shows the back buffer, and that is what a full repaint of those that stay
      would leave. */
  method Pass(h: Handler, s: Compositor.Screen, replies: seq<PROR>, killReply: PROR, pixels: seq<seq<ARGB>>,
              ghost undrawn: set<Process>)
    requires InStep(h, s, undrawn) && |replies| == |pixels| == |h.Processes| && RESET !in replies
    requires forall k :: 0 <= k < |pixels| ==> |pixels[k]| == |h.Processes[k].Base|
    modifies h`Processes, h`FocusedProcess, h`MovingWindow, h`LastMessagedProcess, h`RedrawRequest, h`BufferSwapRequest
    modifies h.Processes`RequestAmount, h.Processes`Requests, h.Processes`Base
    modifies s`RedrawRequest, s`BufferSwapRequest, s.Backbuffer, s.Frontbuffer
    ensures InStep(h, s, {}) && !s.RedrawRequest && !s.BufferSwapRequest
    ensures h.Processes == Staying(old(h.Processes), old(AllWants(h.Processes)))
    ensures forall q :: q in h.Processes ==> q in old(h.Processes)
    ensures var vs := Views(Windows(h.Processes, {}));
            && s.Valid() && Compositor.Copyable(vs, s.g, s.Backbuffer.Length)
            && Compositor.UpToDate(s.Backbuffer[..], vs, s.g) && s.Frontbuffer[..] == s.Backbuffer[..]
  {
    hide *;
    ghost var ps, wants := h.Processes, AllWants(h.Processes);
    Starts(h, s, ps, wants, pixels, undrawn);
    ServeEach(h, s, replies, killReply, pixels, ps, wants, undrawn);
    Show(h, s);
    NothingDue(h, s);
  }

  /** The request loop, over the list `ps`. */
  method ServeEach(h: Handler, s: Compositor.Screen, replies: seq<PROR>, killReply: PROR, pixels: seq<seq<ARGB>>,
                   ghost ps: seq<Process>, ghost wants: seq<PROR>, ghost undrawn: set<Process>)
    requires |replies| == |pixels| == |wants| == |ps| == |h.Processes| && RESET !in replies
    requires Passing(h, s, [], 0, ps, wants, pixels, undrawn)
    modifies h`Processes, h`FocusedProcess, h`MovingWindow, h`LastMessagedProcess, h`RedrawRequest, h`BufferSwapRequest
    modifies ps`RequestAmount, ps`Requests, ps`Base
    modifies s`RedrawRequest, s`BufferSwapRequest, s.Backbuffer
    ensures InStep(h, s, {}) && h.Processes == Staying(ps, wants) && forall q :: q in h.Processes ==> q in ps
  {
    hide *;
    ghost var head: seq<Process>, left := [], undrawn;
    var i, n := 0, 0;
    while i < |h.Processes|
      invariant n <= |ps| && i == |head| && |h.Processes| == i + |ps| - n
      invariant Passing(h, s, head, n, ps, wants, pixels, left)
      decreases |ps| - n
    {
      assert replies[n] in replies && ps[n] in ps;
      var stays := PassTurn(h, s, i, n, replies[n], killReply, head, ps, wants, pixels, left);
      if stays {
        head := head + [ps[n]];
        i := i + 1;
      }
      left := left - {ps[n]};
      n := n + 1;
    }
    Passed(h, s, head, ps, wants, pixels, left);
  }

  /** The pass in the middle: `head` are those that stayed of the first `n`, and all of those have drawn. */
  ghost predicate Passing(h: Handler, s: Compositor.Screen, head: seq<Process>, n: nat,
                          ps: seq<Process>, wants: seq<PROR>, pixels: seq<seq<ARGB>>, undrawn: set<Process>)
    requires |wants| == |pixels| == |ps| && n <= |ps|
    reads h, h.Processes, s, s.Backbuffer, s.Frontbuffer, ps
  {
    && InStep(h, s, undrawn) && h.Processes == head + ps[n..] && head == Staying(ps[..n], wants[..n])
    && Waiting(ps, wants, pixels, n) && forall k :: 0 <= k < n ==> ps[k] !in undrawn
  }

  method PassTurn(h: Handler, s: Compositor.Screen, i: nat, n: nat, reply: PROR, killReply: PROR,
                  ghost head: seq<Process>, ghost ps: seq<Process>, ghost wants: seq<PROR>, pixels: seq<seq<ARGB>>,
                  ghost undrawn: set<Process>)
    returns (stays: bool)
    requires |wants| == |pixels| == |ps| && n < |ps| && i == |head| && reply != RESET
    requires Passing(h, s, head, n, ps, wants, pixels, undrawn)
    modifies h`Processes, h`FocusedProcess, h`MovingWindow, h`LastMessagedProcess, h`RedrawRequest, h`BufferSwapRequest
    modifies {ps[n]}`RequestAmount, {ps[n]}`Requests, {ps[n]}`Base
    modifies s`RedrawRequest, s`BufferSwapRequest, s.Backbuffer
    ensures var head' := if stays then head + [ps[n]] else head;
            && |h.Processes| == |head'| + |ps| - n - 1
            && Passing(h, s, head', n + 1, ps, wants, pixels, undrawn - {ps[n]})
  {
    hide Wants, InStep, Waiting, Staying, Without;
    WaitingNext(ps, wants, pixels, n);
    StayingStep(ps, wants, n);
    CutOut(h.Processes, i, head, ps[n..]);
    NextOne(head, ps, n);
    var request := Turn(h, s, i, reply, killReply, pixels[n], undrawn);
    stays := request != KILL;
  }

  lemma NextOne(head: seq<Process>, ps: seq<Process>, n: nat)
    requires n < |ps|
    ensures (head + ps[n..])[|head|] == ps[n] && ps[n..][1..] == ps[n + 1..]
    ensures head + ps[n..] == (head + [ps[n]]) + ps[n + 1..]
  {
  }

  lemma Passed(h: Handler, s: Compositor.Screen, head: seq<Process>,
               ps: seq<Process>, wants: seq<PROR>, pixels: seq<seq<ARGB>>, undrawn: set<Process>)
    requires |wants| == |pixels| == |ps| && Passing(h, s, head, |ps|, ps, wants, pixels, undrawn)
    ensures InStep(h, s, {}) && h.Processes == Staying(ps, wants) && forall q :: q in h.Processes ==> q in ps
  {
    hide Waiting, Staying, Handler.Valid, Right, Windows, Wants;
    assert ps[..|ps|] == ps && wants[..|ps|] == wants;
    StayingSome(ps, wants);
    forall p | p in h.Processes ensures p !in undrawn {
      assert p in ps;
      var k :| 0 <= k < |ps| && ps[k] == p;
    }
    NoneUndrawn(h.Processes, undrawn);
  }

  lemma NoneUndrawn(ps: seq<Process>, undrawn: set<Process>)
    requires forall p :: p in ps ==> p !in undrawn
    ensures Windows(ps, undrawn) == Windows(ps, {})
  {
    hide Windows;
  }

  /** The processes from `n` on have not been served yet. */
  ghost predicate Waiting(ps: seq<Process>, wants: seq<PROR>, pixels: seq<seq<ARGB>>, n: nat)
    requires |wants| == |pixels| == |ps| && n <= |ps|
    reads ps[n..]`Type, ps[n..]`RequestAmount, ps[n..]`Requests, ps[n..]`Base
  {
    var rest := ps[n..];
    Distinct(ps) && forall k :: 0 <= k < |rest| ==> Wants(rest[k]) == wants[n + k] && |rest[k].Base| == |pixels[n + k]|
  }

  lemma WaitingNext(ps: seq<Process>, wants: seq<PROR>, pixels: seq<seq<ARGB>>, n: nat)
    requires |wants| == |pixels| == |ps| && n < |ps| && Waiting(ps, wants, pixels, n)
    ensures Waiting(ps, wants, pixels, n + 1) && Wants(ps[n]) == wants[n] && |ps[n].Base| == |pixels[n]|
    ensures ps[n] !in ps[n + 1..]
  {
    hide Wants;
    var rest, later := ps[n..], ps[n + 1..];
    assert rest[0] == ps[n] && forall k :: 0 <= k < |later| ==> later[k] == rest[k + 1];
  }

  lemma Starts(h: Handler, s: Compositor.Screen, ps: seq<Process>, wants: seq<PROR>, pixels: seq<seq<ARGB>>, undrawn: set<Process>)
    requires InStep(h, s, undrawn) && ps == h.Processes && wants == AllWants(ps) && |pixels| == |ps|
    requires forall k :: 0 <= k < |ps| ==> |pixels[k]| == |ps[k].Base|
    ensures Passing(h, s, [], 0, ps, wants, pixels, undrawn)
  {
    hide Wants, Right;
    assert ps[0..] == ps == [] + ps[0..];
  }

  lemma NothingDue(h: Handler, s: Compositor.Screen)
    requires InStep(h, s, {}) && !s.RedrawRequest && !s.BufferSwapRequest
    ensures var vs := Views(Windows(h.Processes, {}));
            && s.Valid() && Compositor.Copyable(vs, s.g, s.Backbuffer.Length)
            && Compositor.UpToDate(s.Backbuffer[..], vs, s.g) && s.Frontbuffer[..] == s.Backbuffer[..]
  {
    RightMeans(s, Windows(h.Processes, {}));
    AllDrawn(h.Processes);
  }

  // ---------- every run ----------

  /** A step of the handler, and for a pass what each process draws if it is asked to. */
  datatype Act = Act(event: Event, pixels: seq<seq<ARGB>>)

  /** A step can be taken, and no process with a frame or without a column to spare comes in. */
  predicate Possible(h: Handler, s: Compositor.Screen, a: Act)
    reads h, h.Processes, s
  {
    && h.Admissible(a.event)
    && match a.event {
      case Start(procedure, info, _, _, _) => Joinable(info, h.ScreenSize, s.g)
      case Restart(procedure, info, _, _, _) => Joinable(info, h.ScreenSize, s.g)
      case Loop(replies, _) =>
        && |replies| == |a.pixels| == |h.Processes|
        && forall k :: 0 <= k < |a.pixels| ==> |a.pixels[k]| == |h.Processes[k].Base|
      case _ => true
    }
  }

  predicate Joinable(info: PINFO, screen: Point, g: Geometry) {
    (info.Type == FULLSCREEN || info.Type == FRAMELESSWINDOW) && SpareColumn(StartView(info, screen), g)
  }

  /** The exceptions: a press raises a window, or a new window brings one up, and that is seen although no redraw is
      due. */
  predicate Unnoticed(h: Handler, s: Compositor.Screen, a: Act, undrawn: set<Process>)
    reads h, h.Processes, s, s.Backbuffer
  {
    var shown := Shown(Windows(h.Processes, undrawn));
    s.RedrawRequest
    || match a.event {
         case Mouse(position, left, _, _) =>
           var t := Target(h.Processes, left, position);
           left && t >= 0 && h.Processes[t].Type == FRAMELESSWINDOW ==> LooksAlike(s, shown, Raised(shown, t))
         case Start(procedure, info, junk, _, _) =>
           var d := StartDepth(info, junk, |h.Processes|);
           || Running(h.Processes, procedure) || Vacated(h.Processes, info.Type) != h.Processes || d >= |shown| + 1
           || LooksAlike(s, shown + [BLANK], Raised(shown + [BLANK], d))
         case _ => true
       }
  }

  predicate LooksAlike(s: Compositor.Screen, vs: seq<View>, ws: seq<View>)
    reads s, s.Backbuffer
  {
    var n := s.Backbuffer.Length;
    AllFit(vs, s.g, n) && AllFit(ws, s.g, n) && SeenAlike(vs, ws, s.g, n)
  }

  /** A single step: it keeps the two in step if and only if it is not one of the exceptions. */
  method Take(h: Handler, s: Compositor.Screen, a: Act, undrawn: set<Process>) returns (undrawn': set<Process>)
    requires InStep(h, s, undrawn) && Possible(h, s, a)
    modifies h, h.Processes, s, s.Backbuffer, s.Frontbuffer
    ensures InStep(h, s, undrawn') <==> old(Unnoticed(h, s, a, undrawn))
    ensures forall q :: q in h.Processes ==> q in old(h.Processes) || fresh(q)
  {
    hide InStep, Windows, Shown, Raised, SeenAlike, AllFit, Running, StartDepth, Vacated, Target, SpareColumn, Staying, AllWants, Without, WhereID, Joined;
    hide LooksAlike;
    undrawn' := undrawn;
    match a.event {
      case Start(procedure, info, junk, reply, killReply) =>
        undrawn' := TakeStart(h, s, a, undrawn);
      case Kill(id, reply) =>
        Kill(h, s, id, reply, undrawn);
      case Mouse(position, left, reply, killReply) =>
        TakeMouse(h, s, a, undrawn);
      case Key(reply) =>
        Key(h, s, reply, undrawn);
      case Tick(replies) =>
        Tick(h, s, replies, undrawn);
      case Loop(replies, killReply) =>
        Pass(h, s, replies, killReply, a.pixels, undrawn);
        undrawn' := {};
      case Restart(procedure, info, junk, reply, killReply) =>
        var p := Restart(h, s, procedure, info, junk, reply, killReply, undrawn);
        undrawn' := undrawn + {p};
    }
  }

  method TakeStart(h: Handler, s: Compositor.Screen, a: Act, undrawn: set<Process>) returns (undrawn': set<Process>)
    requires InStep(h, s, undrawn) && Possible(h, s, a) && a.event.Start?
    modifies h, h.Processes, s
    ensures InStep(h, s, undrawn') <==> old(Unnoticed(h, s, a, undrawn))
    ensures forall q :: q in h.Processes ==> q in old(h.Processes) || fresh(q)
  {
    hide InStep, Windows, Shown, Raised, SeenAlike, AllFit, Running, StartDepth, Vacated, SpareColumn, Joined;
    undrawn' := undrawn;
    var e := a.event;
    var id, p := Start(h, s, e.procedure, e.info, e.junk, e.reply, e.killReply, undrawn);
    if p != null { undrawn' := undrawn + {p}; }
  }

  method TakeMouse(h: Handler, s: Compositor.Screen, a: Act, undrawn: set<Process>)
    requires InStep(h, s, undrawn) && Possible(h, s, a) && a.event.Mouse?
    modifies h, h.Processes, s
    ensures InStep(h, s, undrawn) <==> old(Unnoticed(h, s, a, undrawn))
    ensures forall q :: q in h.Processes ==> q in old(h.Processes)
  {
    hide InStep, Windows, Shown, Raised, SeenAlike, AllFit, Target;
    var e := a.event;
    ghost var ws, t := Windows(h.Processes, undrawn), Target(h.Processes, e.left, e.position);
    if t >= 0 { RaisedWindows(ws, t); }
    Mouse(h, s, e.position, e.left, e.reply, e.killReply, undrawn);
  }

  /** Any run: as long as every step is possible and none is one of the exceptions, handler and compositor stay in
      step, so that each pass of the main loop leaves on the screen what a full repaint would. */
  method Run(h: Handler, s: Compositor.Screen, acts: seq<Act>, before: set<Process>) returns (n: nat, undrawn: set<Process>)
    requires InStep(h, s, before)
    modifies h, h.Processes, s, s.Backbuffer, s.Frontbuffer
    ensures InStep(h, s, undrawn)
    ensures n <= |acts| && (n < |acts| ==> !Possible(h, s, acts[n]) || !Unnoticed(h, s, acts[n], undrawn))
  {
    hide InStep, Possible, Unnoticed;
    n, undrawn := 0, before;
    while n < |acts| && Possible(h, s, acts[n]) && Unnoticed(h, s, acts[n], undrawn)
      invariant n <= |acts| && InStep(h, s, undrawn)
      invariant forall q :: q in h.Processes ==> q in old(h.Processes) || fresh(q)
    {
      assert forall k :: 0 <= k < |h.Processes| ==> h.Processes[k] in old(h.Processes) || fresh(h.Processes[k]);
      undrawn := Take(h, s, acts[n], undrawn);
      n := n + 1;
    }
  }
}
