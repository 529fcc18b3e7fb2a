/** A process of src/ProcessHandler/Process.cpp: its window, its place on the screen, and the stack of
    requests its procedure has made. */
module Processes {

  // Process requests and process types of src/STL/Process/Process.h.
  datatype PROR = SUCCESS | RESET | CLEAR | DRAW | KILL
  datatype PROT = FULLSCREEN | WINDOWED | FRAMELESSWINDOW | MINIMIZED

  type PROC = nat     // the address of a procedure
  type ARGB = nat     // a pixel

  const MAX_REQUESTS: nat := 16
  const RAISED_WIDTH: int := 4
  const MINIMIZED_WINDOW_WIDTH: nat := 200
  const FRAME_OFFSET: Point := Point(0, 30)
  const CLOSE_BUTTON_SIZE: Point := Point(16, 16)
  const CLOSE_BUTTON_OFFSET: Point := Point(-24, -23)
  const MINIMIZE_BUTTON_SIZE: Point := Point(16, 16)
  const MINIMIZE_BUTTON_OFFSET: Point := Point(-52, -23)

  datatype Point = Point(X: int, Y: int) {
    function Plus(o: Point): Point {
      Point(X + o.X, Y + o.Y)
    }

    function Minus(o: Point): Point {
      Point(X - o.X, Y - o.Y)
    }
  }

  /** STL::Clamp, a sum of corrections: with the bounds crossed both can apply. */
  function Clamp(n: int, lower: int, upper: int): int {
    n + (if n < lower then lower - n else 0) + (if n > upper then upper - n else 0)
  }

  function Distance(a: int, b: int): nat {
    if a < b then b - a else a - b
  }

  /** STL::Contains: strictly inside. */
  predicate Inside(topLeft: Point, bottomRight: Point, pos: Point) {
    topLeft.X < pos.X < bottomRight.X && topLeft.Y < pos.Y < bottomRight.Y
  }

  /** Two rectangles meet, edges included. */
  predicate RectsMeet(pos: Point, size: Point, otherPos: Point, otherSize: Point) {
    && pos.X <= otherPos.X + otherSize.X && pos.X + size.X >= otherPos.X
    && pos.Y <= otherPos.Y + otherSize.Y && pos.Y + size.Y >= otherPos.Y
  }

  /** A point of a rectangle, its edges included. */
  predicate InRect(pos: Point, size: Point, q: Point) {
    0 <= q.X - pos.X <= size.X && 0 <= q.Y - pos.Y <= size.Y
  }

  /** Rectangles meet exactly if they have a point in common. */
  lemma MeetIff(pos: Point, size: Point, otherPos: Point, otherSize: Point)
    requires size.X >= 0 && size.Y >= 0 && otherSize.X >= 0 && otherSize.Y >= 0
    ensures RectsMeet(pos, size, otherPos, otherSize) <==> exists q :: InRect(pos, size, q) && InRect(otherPos, otherSize, q)
  {
    var q := Point(if pos.X < otherPos.X then otherPos.X else pos.X, if pos.Y < otherPos.Y then otherPos.Y else pos.Y);
    assert RectsMeet(pos, size, otherPos, otherSize) ==> InRect(pos, size, q) && InRect(otherPos, otherSize, q);
  }

  /** What PushRequest makes of the pending requests. */
  function Pushed(pending: seq<PROR>, kind: PROT, request: PROR): seq<PROR> {
    if kind != MINIMIZED && request != SUCCESS && |pending| < MAX_REQUESTS then pending + [request] else pending
  }

  class Process {
    const ID: nat
    const Procedure: PROC
    const Width: nat
    const Height: nat
    var Type: PROT
    var Pos: Point
    var Depth: nat
    var RequestAmount: nat
    var Requests: seq<PROR>
    var Base: seq<ARGB>    // the window's own pixels, rows of Width + 1

    ghost predicate Valid()
      reads this`RequestAmount, this`Requests, this`Base
    {
      && |Requests| == MAX_REQUESTS && RequestAmount <= MAX_REQUESTS
      && |Base| == (Height + 1) * (Width + 1)
    }

    /** The requests still to be served, the latest last. */
    ghost function Pending(): seq<PROR>
      requires Valid()
      reads this`RequestAmount, this`Requests, this`Base
    {
      Requests[..RequestAmount]
    }

    /** The fields the constructor sets before the procedure is asked; `junkType` and `junkDepth` are what
        the memory held, which the first PushRequest and a refused SetDepth leave in place. */
    constructor (id: nat, procedure: PROC, width: nat, height: nat, junkType: PROT, junkDepth: nat)
      ensures ID == id && Procedure == procedure && Width == width && Height == height
      ensures Type == junkType && Depth == junkDepth && Valid() && Pending() == []
    {
      ID, Procedure, Width, Height := id, procedure, width, height;
      Type, Depth, Pos := junkType, junkDepth, Point(0, 0);
      RequestAmount := 0;
      Requests := seq(MAX_REQUESTS, i => SUCCESS);
      Base := seq((height + 1) * (width + 1), i => 0);
    }

    method PushRequest(request: PROR)
      requires Valid()
      modifies this`RequestAmount, this`Requests
      ensures Valid() && Pending() == Pushed(old(Pending()), Type, request)
      ensures var p := old(Pending());
              Pending() == if Type != MINIMIZED && request != SUCCESS && |p| < 16 then p + [request] else p
    {
      if Type != MINIMIZED && request != SUCCESS && RequestAmount < MAX_REQUESTS {
        Requests := Requests[RequestAmount := request];
        RequestAmount := RequestAmount + 1;
      }
    }

    /** The latest request is served first; a minimized process keeps its requests for later. */
    method PopRequest() returns (r: PROR)
      requires Valid()
      modifies this`RequestAmount
      ensures Valid()
      ensures var p := old(Pending());
              if Type != MINIMIZED && p != [] then r == p[|p| - 1] && Pending() == p[..|p| - 1]
              else r == SUCCESS && Pending() == p
    {
      if Type != MINIMIZED && RequestAmount > 0 {
        RequestAmount := RequestAmount - 1;
        return Requests[RequestAmount];
      }
      return SUCCESS;
    }

    /** The request pushed is the one popped, and nothing else changes; if it was refused, the one before it is
        popped. */
    method PushThenPop(request: PROR) returns (r: PROR)
      requires Valid()
      modifies this`RequestAmount, this`Requests
      ensures Valid()
      ensures var p := old(Pending());
              if Type == MINIMIZED then r == SUCCESS && Pending() == p
              else if request != SUCCESS && |p| < 16 then r == request && Pending() == p
              else if p != [] then p == Pending() + [r]
              else r == SUCCESS && Pending() == []
    {
      PushRequest(request);
      r := PopRequest();
    }

    function GetSize(): Point
      reads this`Type
    {
      if Type == MINIMIZED then Point(MINIMIZED_WINDOW_WIDTH, 0) else Point(Width, Height)
    }

    function GetCloseButtonPos(): Point
      reads this`Type, this`Pos
    {
      CLOSE_BUTTON_OFFSET.Plus(Point(GetSize().X, 0)).Plus(Pos)
    }

    function GetMinimizeButtonPos(): Point
      reads this`Type, this`Pos
    {
      MINIMIZE_BUTTON_OFFSET.Plus(Point(GetSize().X, 0)).Plus(Pos)
    }

    /** Where SetPos puts a window of this size and type. */
    function Placed(newPos: Point, screen: Point): Point
      reads this`Type
    {
      match Type
      case WINDOWED =>
        Point(Clamp(newPos.X, RAISED_WIDTH, screen.X - Width - RAISED_WIDTH),
              Clamp(newPos.Y, RAISED_WIDTH + FRAME_OFFSET.Y, screen.Y - Height - RAISED_WIDTH))
      case MINIMIZED =>
        Point(Clamp(newPos.X, RAISED_WIDTH, screen.X - RAISED_WIDTH),
              Clamp(newPos.Y, RAISED_WIDTH + FRAME_OFFSET.Y, screen.Y - RAISED_WIDTH))
      case _ =>
        Point(Clamp(newPos.X, 0, screen.X - Width), Clamp(newPos.Y, 0, screen.Y - Height))
    }

    /** Where SetPos leaves a window of this type. For a minimized one only the corner of the title bar counts, not
        its width. */
    predicate Allowed(pos: Point, screen: Point)
      reads this`Type
    {
      match Type
      case WINDOWED =>
        && RAISED_WIDTH <= pos.X <= screen.X - Width - RAISED_WIDTH
        && RAISED_WIDTH + FRAME_OFFSET.Y <= pos.Y <= screen.Y - Height - RAISED_WIDTH
      case MINIMIZED =>
        && RAISED_WIDTH <= pos.X <= screen.X - RAISED_WIDTH
        && RAISED_WIDTH + FRAME_OFFSET.Y <= pos.Y <= screen.Y - RAISED_WIDTH
      case _ =>
        0 <= pos.X <= screen.X - Width && 0 <= pos.Y <= screen.Y - Height
    }

    /** What Render draws at `pos` lies on the screen, the title bar and the raised edges of a frame included. */
    predicate OnScreen(pos: Point, screen: Point)
      reads this`Type
    {
      var size := GetSize();
      if Type == WINDOWED || Type == MINIMIZED then
        && 0 <= pos.X - RAISED_WIDTH && pos.X + size.X + RAISED_WIDTH <= screen.X
        && 0 <= pos.Y - FRAME_OFFSET.Y - RAISED_WIDTH && pos.Y + size.Y + RAISED_WIDTH <= screen.Y
      else
        0 <= pos.X && pos.X + size.X <= screen.X && 0 <= pos.Y && pos.Y + size.Y <= screen.Y
    }

    /** If there is an allowed position at all, `pos` is one, and along both axes the nearest to `newPos`; so it
        is `newPos` if that is allowed. */
    ghost predicate Nearest(pos: Point, newPos: Point, screen: Point)
      reads this`Type
    {
      && (Allowed(newPos, screen) ==> pos == newPos)
      && forall q :: Allowed(q, screen) ==>
           && Allowed(pos, screen)
           && Distance(pos.X, newPos.X) <= Distance(q.X, newPos.X) && Distance(pos.Y, newPos.Y) <= Distance(q.Y, newPos.Y)
    }

    /** Clamping finds the nearest allowed position. */
    lemma PlacedNearest(newPos: Point, screen: Point)
      ensures Nearest(Placed(newPos, screen), newPos, screen)
    {
    }

    method SetPos(newPos: Point, screen: Point)
      modifies this`Pos
      ensures Nearest(Pos, newPos, screen) && Pos == Placed(newPos, screen)
    {
      PlacedNearest(newPos, screen);
      hide Nearest;
      Pos := newPos;
      match Type {
        case WINDOWED =>
          Pos := Point(Clamp(Pos.X, RAISED_WIDTH, screen.X - Width - RAISED_WIDTH), Pos.Y);
          Pos := Point(Pos.X, Clamp(Pos.Y, RAISED_WIDTH + FRAME_OFFSET.Y, screen.Y - Height - RAISED_WIDTH));
        case MINIMIZED =>
          Pos := Point(Clamp(Pos.X, RAISED_WIDTH, screen.X - RAISED_WIDTH), Pos.Y);
          Pos := Point(Pos.X, Clamp(Pos.Y, RAISED_WIDTH + FRAME_OFFSET.Y, screen.Y - RAISED_WIDTH));
        case _ =>
          Pos := Point(Clamp(Pos.X, 0, screen.X - Width), Pos.Y);
          Pos := Point(Pos.X, Clamp(Pos.Y, 0, screen.Y - Height));
      }
    }

    /** Only a window with a frame can be minimized, and only back to one. */
    method Minimize(screen: Point)
      modifies this`Type, this`Pos
      ensures Type == (match old(Type) case MINIMIZED => WINDOWED case WINDOWED => MINIMIZED case t => t)
      ensures Nearest(Pos, old(Pos), screen) && Pos == Placed(old(Pos), screen)
    {
      if Type == MINIMIZED {
        Type := WINDOWED;
      } else if Type == WINDOWED {
        Type := MINIMIZED;
      }
      SetPos(Pos, screen);
    }

    /** Contains(Point): strictly inside the window. */
    predicate Contains(other: Point)
      reads this`Type, this`Pos
    {
      Inside(Pos, Pos.Plus(GetSize()), other)
    }

    /** Contains(Process*): the windows meet, edges included. */
    predicate Meets(other: Process)
      reads this`Type, this`Pos, other`Type, other`Pos
    {
      RectsMeet(Pos, GetSize(), other.Pos, other.GetSize())
    }
  }

  /** What is inside a window: nothing inside a minimized one, which has only its title bar. */
  lemma ContainsIff(p: Process, pos: Point)
    ensures p.Contains(pos) <==>
            p.Type != MINIMIZED && p.Pos.X < pos.X < p.Pos.X + p.Width && p.Pos.Y < pos.Y < p.Pos.Y + p.Height
  {
  }

  /** Windows meet exactly if they have a point in common, where a minimized one is a line of 200 pixels. */
  lemma MeetsIff(p: Process, o: Process)
    ensures var pSize := if p.Type == MINIMIZED then Point(200, 0) else Point(p.Width, p.Height);
            var oSize := if o.Type == MINIMIZED then Point(200, 0) else Point(o.Width, o.Height);
            p.Meets(o) <==> exists q :: InRect(p.Pos, pSize, q) && InRect(o.Pos, oSize, q)
  {
    MeetIff(p.Pos, p.GetSize(), o.Pos, o.GetSize());
    hide InRect, RectsMeet;
  }

  /** An allowed position keeps everything that is drawn on the screen, except that the title bar of a minimized
      window may reach beyond the right edge. */
  lemma AllowedOnScreenIff(p: Process, pos: Point, screen: Point)
    requires p.Allowed(pos, screen)
    ensures p.OnScreen(pos, screen) <==> (p.Type == MINIMIZED ==> pos.X <= screen.X - MINIMIZED_WINDOW_WIDTH - RAISED_WIDTH)
  {
  }

  /** A window that fits the screen with its frame ends up on it, unless it is minimized and asked for a place too far
      to the right. */
  lemma PlacedOnScreenIff(p: Process, newPos: Point, screen: Point)
    requires var size, framed := p.GetSize(), p.Type == WINDOWED || p.Type == MINIMIZED;
             && size.X + (if framed then 2 * RAISED_WIDTH else 0) <= screen.X
             && size.Y + (if framed then 2 * RAISED_WIDTH + FRAME_OFFSET.Y else 0) <= screen.Y
    ensures p.OnScreen(p.Placed(newPos, screen), screen)
            <==> (p.Type == MINIMIZED ==> newPos.X <= screen.X - MINIMIZED_WINDOW_WIDTH - RAISED_WIDTH)
  {
  }

  /** It happens: a window of 100 pixels at the right edge of a screen of 1024 by 768, minimized, stays where it is, and
      its title bar ends 100 pixels off the screen. */
  lemma TitleBarOffScreen(p: Process)
    requires p.Type == MINIMIZED
    ensures var pos, screen := Point(920, 34), Point(1024, 768);
            && pos.X + 100 + RAISED_WIDTH == screen.X && p.Allowed(pos, screen) && p.Placed(pos, screen) == pos
            && pos.X + p.GetSize().X + RAISED_WIDTH == screen.X + 100 && !p.OnScreen(pos, screen)
  {
    AllowedOnScreenIff(p, Point(920, 34), Point(1024, 768));
  }
}
