/** The process list of src/ProcessHandler/ProcessHandler.cpp with its focus and window-moving pointers,
    and the depth order Process.cpp keeps in it. What a procedure answers to a message is a parameter. */
module ProcessHandler {
  import opened Processes

  /** What a procedure fills in when it is asked to initialise. */
  datatype PINFO = PINFO(Type: PROT, Depth: nat, Width: nat, Height: nat, Left: int, Top: int)

  /** What the memory of a new process held before its constructor ran. */
  datatype Junk = Junk(Type: PROT, Depth: nat)

  // ---------- the list ----------

  /** The list with entries `i` and `d` exchanged. */
  function Swapped(ps: seq<Process>, i: nat, d: nat): (r: seq<Process>)
    requires i < |ps| && d < |ps|
    ensures |r| == |ps|
  {
    ps[i := ps[d]][d := ps[i]]
  }

  function Without(ps: seq<Process>, i: nat): seq<Process>
    requires i < |ps|
  {
    ps[..i] + ps[i + 1..]
  }

  predicate Distinct(ps: seq<Process>) {
    forall i, j :: 0 <= i < j < |ps| ==> ps[i] != ps[j]
  }

  function IndexOf(ps: seq<Process>, p: Process): (i: nat)
    requires p in ps
    ensures i < |ps| && ps[i] == p
  {
    if ps[0] == p then 0 else 1 + IndexOf(ps[1..], p)
  }

  /** The effect of SetDepth on the list. */
  function Moved(ps: seq<Process>, p: Process, d: nat): seq<Process>
    requires p in ps ==> d < |ps|
  {
    if p in ps then Swapped(ps, IndexOf(ps, p), d) else ps
  }

  /** The list after SetDepth, whatever the depth: beyond the length nothing happens, and at the length the
      process is written behind the list and what stood there comes in. */
  function AfterSetDepth(ps: seq<Process>, p: Process, d: nat, beyond: Process): seq<Process> {
    if d > |ps| || p !in ps then ps
    else if d < |ps| then Moved(ps, p, d)
    else ps[IndexOf(ps, p) := beyond]
  }

  /** SetDepth permutes the list exactly when a listed process does not ask for the length as its depth. */
  lemma PermutesIff(ps: seq<Process>, p: Process, d: nat, beyond: Process)
    requires beyond != p
    ensures multiset(AfterSetDepth(ps, p, d, beyond)) == multiset(ps) <==> !(p in ps && d == |ps|)
  {
    if p in ps && d == |ps| {
      var i := IndexOf(ps, p);
      assert multiset(ps[i := beyond]) == multiset(ps) - multiset{p} + multiset{beyond};
      assert multiset(ps[i := beyond])[p] == multiset(ps)[p] - 1;
    }
  }

  lemma SwappedMembers(ps: seq<Process>, i: nat, d: nat)
    requires i < |ps| && d < |ps|
    ensures forall p :: p in Swapped(ps, i, d) <==> p in ps
    ensures Distinct(ps) ==> Distinct(Swapped(ps, i, d))
  {
    var r := Swapped(ps, i, d);
    assert forall k :: 0 <= k < |ps| ==> ps[k] == r[if k == i then d else if k == d then i else k];
    assert forall k :: 0 <= k < |ps| ==> r[k] == ps[if k == i then d else if k == d then i else k];
  }

  /** Changing a depth permutes the list, and leaves the process at that depth. */
  lemma MovedFacts(ps: seq<Process>, p: Process, d: nat)
    requires p in ps && d < |ps|
    ensures |Moved(ps, p, d)| == |ps| && Moved(ps, p, d)[d] == p
    ensures forall q :: q in Moved(ps, p, d) <==> q in ps
    ensures Distinct(ps) ==> Distinct(Moved(ps, p, d))
  {
  }

  /** The process and the one at that depth change places, and no other moves. */
  lemma MovedPlaces(ps: seq<Process>, p: Process, d: nat, i: nat)
    requires Distinct(ps) && i < |ps| && ps[i] == p && d < |ps|
    ensures Moved(ps, p, d) == seq(|ps|, k requires 0 <= k < |ps| => if k == d then p else if k == i then ps[d] else ps[k])
  {
    FoundAt(ps, p, i);
  }

  lemma WithoutFacts(ps: seq<Process>, i: nat)
    requires Distinct(ps) && i < |ps|
    ensures |Without(ps, i)| == |ps| - 1 && Distinct(Without(ps, i))
    ensures forall q :: q in Without(ps, i) ==> q in ps && q != ps[i]
    ensures forall q :: q in ps && q != ps[i] ==> q in Without(ps, i)
  {
  }

  /** Where the process with this ID is, or the length of the list. */
  function WhereID(ps: seq<Process>, id: nat): (i: nat)
    ensures i <= |ps| && (i < |ps| ==> ps[i].ID == id)
    ensures forall k :: 0 <= k < i ==> ps[k].ID != id
  {
    if ps == [] || ps[0].ID == id then 0 else 1 + WhereID(ps[1..], id)
  }

  /** Where the first fullscreen process is, or the length of the list. */
  function WhereFull(ps: seq<Process>): (i: nat)
    reads ps`Type
    ensures i <= |ps| && (i < |ps| ==> ps[i].Type == FULLSCREEN)
    ensures forall k :: 0 <= k < i ==> ps[k].Type != FULLSCREEN
  {
    if ps == [] || ps[0].Type == FULLSCREEN then 0 else 1 + WhereFull(ps[1..])
  }

  predicate Running(ps: seq<Process>, procedure: PROC) {
    exists i :: 0 <= i < |ps| && ps[i].Procedure == procedure
  }

  /** No two processes share an ID or a procedure, and at most one is fullscreen. */
  ghost predicate Apart(ps: seq<Process>)
    reads ps`Type
  {
    forall p, q :: p in ps && q in ps && p != q ==>
                     p.ID != q.ID && p.Procedure != q.Procedure && !(p.Type == FULLSCREEN && q.Type == FULLSCREEN)
  }

  lemma ApartSome(ps: seq<Process>, qs: seq<Process>)
    requires Apart(ps) && forall p :: p in qs ==> p in ps
    ensures Apart(qs)
  {
  }

  twostate lemma ApartStays(ps: seq<Process>)
    requires old(Apart(ps)) && forall p :: p in ps ==> p.Type == old(p.Type)
    ensures Apart(ps)
  {
  }

  ghost predicate Sound(p: Process, newID: nat)
    reads p`RequestAmount, p`Requests, p`Base
  {
    p.Valid() && 0 < p.ID <= newID && RESET !in p.Pending()
  }

  lemma {:induction false} FoundAt(ps: seq<Process>, p: Process, i: nat)
    requires i < |ps| && ps[i] == p && p !in ps[..i]
    ensures IndexOf(ps, p) == i
    decreases i
  {
    if i > 0 {
      assert ps[..i] == [ps[0]] + ps[1..][..i - 1];
      FoundAt(ps[1..], p, i - 1);
    }
  }

  lemma SoundIsValid(p: Process, newID: nat)
    requires Sound(p, newID)
    ensures p.Valid() && RESET !in p.Pending() && 0 < p.ID <= newID
  {
  }

  // ---------- starting ----------

  function Span(n: int): nat {
    if n < 0 then 0 else n
  }

  /** The depth a new process holds: what it asked for, if SetDepth took it, or what was there before. */
  function StartDepth(info: PINFO, junk: Junk, length: nat): nat {
    if info.Depth > length then junk.Depth else info.Depth
  }

  /** Its requests: what it answered, if the old Type byte did not read as minimized, and a draw. */
  function StartRequests(info: PINFO, junk: Junk, reply: PROR): seq<PROR> {
    Pushed(Pushed([], junk.Type, reply), info.Type, DRAW)
  }

  /** A draw is on top, so that a new process is rendered first. */
  lemma StartsWithDraw(info: PINFO, junk: Junk, reply: PROR)
    requires info.Type != MINIMIZED
    ensures StartRequests(info, junk, reply) == (if junk.Type == MINIMIZED || reply == SUCCESS then [] else [reply]) + [DRAW]
  {
  }

  /** The list a process of this type joins. */
  function Vacated(ps: seq<Process>, kind: PROT): seq<Process>
    reads ps`Type
  {
    if kind == FULLSCREEN && WhereFull(ps) < |ps| then Without(ps, WhereFull(ps)) else ps
  }

  /** The depth of a new process is the new length, and so no index, in exactly two cases: the depth it asked
      for was refused and its memory happened to hold that number; or it asked for the top of the list and is
      a fullscreen process that makes another one leave it. */
  lemma TooDeepIff(ps: seq<Process>, info: PINFO, junk: Junk)
    ensures StartDepth(info, junk, |ps|) == |Vacated(ps, info.Type)| + 1
            <==> var evicts := info.Type == FULLSCREEN && exists p :: p in ps && p.Type == FULLSCREEN;
                 if info.Depth > |ps| then junk.Depth == |ps| + (if evicts then 0 else 1)
                 else info.Depth == |ps| && evicts
  {
    var w := WhereFull(ps);
    if w < |ps| {
      assert ps[w] in ps;
    }
  }

  /** Both cases occur: a refused depth over a list of one, and a second fullscreen process on top. */
  lemma TooDeepTwice(first: Process)
    requires first.Type == FULLSCREEN
    ensures var refused, junk := PINFO(FRAMELESSWINDOW, 2, 10, 10, 0, 0), Junk(WINDOWED, 2);
            StartDepth(refused, junk, 1) == |Vacated([first], refused.Type)| + 1
    ensures var onTop, junk := PINFO(FULLSCREEN, 1, 10, 10, 0, 0), Junk(WINDOWED, 0);
            StartDepth(onTop, junk, 1) == |Vacated([first], onTop.Type)| + 1
  {
    assert first in [first];
    TooDeepIff([first], PINFO(FULLSCREEN, 1, 10, 10, 0, 0), Junk(WINDOWED, 0));
    TooDeepIff([first], PINFO(FRAMELESSWINDOW, 2, 10, 10, 0, 0), Junk(WINDOWED, 2));
  }

  /** A fullscreen process finds nobody fullscreen, any other the whole list. */
  lemma VacatedExact(ps: seq<Process>, kind: PROT)
    requires Distinct(ps) && Apart(ps)
    ensures forall q :: q in Vacated(ps, kind) <==> q in ps && !(kind == FULLSCREEN && q.Type == FULLSCREEN)
  {
    var w := WhereFull(ps);
    if w < |ps| {
      NoOtherFull(ps, w);
      WithoutFacts(ps, w);
    }
  }

  function Joined(ps: seq<Process>, p: Process, d: nat): seq<Process> {
    if d <= |ps| then Swapped(ps + [p], |ps|, d) else ps + [p]
  }

  /** An ID leads back to its process. */
  lemma OwnID(ps: seq<Process>, i: nat)
    requires Distinct(ps) && Apart(ps) && i < |ps|
    ensures WhereID(ps, ps[i].ID) == i
    ensures forall q :: q in ps && q.ID == ps[i].ID ==> q == ps[i]
  {
    var w := WhereID(ps, ps[i].ID);
    assert w <= i;
    ApartIDs(ps);
    hide Apart, WhereID;
    assert ps[w] in ps && ps[i] in ps;
  }

  lemma ApartIDs(ps: seq<Process>)
    requires Apart(ps)
    ensures forall p, q :: p in ps && q in ps && p.ID == q.ID ==> p == q
  {
  }

  lemma NoOtherFull(ps: seq<Process>, i: nat)
    requires Distinct(ps) && Apart(ps) && i < |ps| && ps[i].Type == FULLSCREEN
    ensures forall q :: q in ps && q != ps[i] ==> q.Type != FULLSCREEN
  {
  }

  /** The joined list is the old one and the new process, in some order. */
  lemma JoinedFacts(ps: seq<Process>, p: Process, d: nat)
    requires Distinct(ps) && p !in ps && d != |ps| + 1
    ensures Joined(ps, p, d) == if d <= |ps| then Moved(ps + [p], p, d) else ps + [p]
    ensures Distinct(Joined(ps, p, d))
    ensures forall q :: q in Joined(ps, p, d) ==> q in ps || q == p
    ensures p in Joined(ps, p, d) && forall q :: q in ps ==> q in Joined(ps, p, d)
  {
    FoundAt(ps + [p], p, |ps|);
    assert Distinct(ps + [p]);
    if d <= |ps| {
      SwappedMembers(ps + [p], |ps|, d);
    }
  }

  /** SetDepth, on a list to which the process has just been pushed. */
  lemma JoinedSetDepth(ps: seq<Process>, p: Process, d: nat, beyond: Process)
    requires p !in ps
    ensures d != |ps| + 1 ==> AfterSetDepth(ps + [p], p, d, beyond) == Joined(ps, p, d)
    ensures d == |ps| + 1 ==> AfterSetDepth(ps + [p], p, d, beyond) == ps + [beyond]
  {
    FoundAt(ps + [p], p, |ps|);
    hide IndexOf;
    assert (ps + [p])[|ps| := beyond] == ps + [beyond];
  }

  lemma StillSound(qs: seq<Process>, ps: seq<Process>, p: Process, newID: nat)
    requires Sound(p, newID) && (forall q :: q in ps ==> Sound(q, newID)) && forall q :: q in qs ==> q in ps || q == p
    ensures forall q :: q in qs ==> Sound(q, newID)
  {
  }

  lemma ValidIsSound(p: Process, newID: nat)
    requires p.Valid() && RESET !in p.Pending() && 0 < p.ID <= newID
    ensures Sound(p, newID)
  {
  }

  lemma TitleFramed(p: Process, pos: Point)
    requires OnTitle(p, pos)
    ensures Framed(p)
  {
  }

  lemma SoundLater(ps: seq<Process>, newID: nat, later: nat)
    requires newID <= later && forall p :: p in ps ==> Sound(p, newID)
    ensures forall p :: p in ps ==> Sound(p, later) && p.ID < later + 1
    ensures newID < later ==> forall p :: p in ps ==> p.ID < later
  {
  }

  lemma StartSound(p: Process, newID: nat, info: PINFO, junk: Junk, reply: PROR)
    requires p.Valid() && 0 < p.ID <= newID && reply != RESET && p.Pending() == StartRequests(info, junk, reply)
    ensures Sound(p, newID)
  {
  }

  lemma StillNotRunning(ps: seq<Process>, qs: seq<Process>, procedure: PROC)
    requires !Running(ps, procedure) && forall q :: q in qs ==> q in ps
    ensures !Running(qs, procedure)
  {
    forall k | 0 <= k < |qs| ensures qs[k].Procedure != procedure {
      assert qs[k] in ps;
    }
  }

  /** A process with a new ID and a procedure that does not run may join, unless it would be a second
      fullscreen one. */
  lemma ApartJoined(ps: seq<Process>, p: Process, qs: seq<Process>)
    requires Apart(ps) && !Running(ps, p.Procedure) && forall q :: q in ps ==> q.ID < p.ID
    requires p.Type == FULLSCREEN ==> forall q :: q in ps ==> q.Type != FULLSCREEN
    requires forall q :: q in qs ==> q in ps || q == p
    ensures Apart(qs)
  {
  }

  // ---------- what the mouse is on ----------

  /** Has a title bar. */
  predicate Framed(p: Process)
    reads p`Type
  {
    p.Type == WINDOWED || p.Type == MINIMIZED
  }

  predicate OnTitle(p: Process, pos: Point)
    reads p`Type, p`Pos
  {
    Framed(p) && Inside(p.Pos.Minus(FRAME_OFFSET), p.Pos.Plus(Point(p.GetSize().X, 0)), pos)
  }

  /** Measured from the right end of the bar and upward from the window, the bar is 30 pixels high, and the buttons are
      the insides of two squares of 16 pixels, 8 and 36 pixels from the end; so no place is on both. */
  lemma TitleBar(p: Process, pos: Point)
    requires Framed(p)
    ensures var width := if p.Type == MINIMIZED then 200 else p.Width;
            var x, y := p.Pos.X + width - pos.X, p.Pos.Y - pos.Y;
            && (OnTitle(p, pos) <==> 0 < x < width && 0 < y < 30)
            && (Inside(p.GetCloseButtonPos(), p.GetCloseButtonPos().Plus(CLOSE_BUTTON_SIZE), pos) <==> 8 < x < 24 && 7 < y < 23)
            && (Inside(p.GetMinimizeButtonPos(), p.GetMinimizeButtonPos().Plus(MINIMIZE_BUTTON_SIZE), pos)
                <==> 36 < x < 52 && 7 < y < 23)
  {
  }

  predicate Hit(p: Process, left: bool, pos: Point)
    reads p`Type, p`Pos
  {
    (left && OnTitle(p, pos)) || p.Contains(pos)
  }

  /** The topmost process the mouse is on; a title bar counts only while the button is held. */
  function Target(ps: seq<Process>, left: bool, pos: Point): (t: int)
    reads ps`Type, ps`Pos
    ensures -1 <= t < |ps| && (t >= 0 ==> (left && OnTitle(ps[t], pos)) || ps[t].Contains(pos))
    ensures forall k :: t < k < |ps| ==> !(left && OnTitle(ps[k], pos)) && !ps[k].Contains(pos)
  {
    if ps == [] then -1
    else if Hit(ps[|ps| - 1], left, pos) then |ps| - 1
    else Target(ps[..|ps| - 1], left, pos)
  }

  // ---------- requests ----------

  /** The request PopRequest would hand out. */
  ghost function Wants(p: Process): PROR
    reads p`Type, p`RequestAmount, p`Requests, p`Base
  {
    if p.Type != MINIMIZED && p.Valid() && p.Pending() != [] then p.Pending()[|p.Pending()| - 1] else SUCCESS
  }

  /** The requests left when the latest is served; serving a clear or a draw gets an answer. */
  ghost function Served(p: Process, reply: PROR): seq<PROR>
    reads p`Type, p`RequestAmount, p`Requests, p`Base
  {
    if Wants(p) in [CLEAR, DRAW] then Pushed(Rest(p), p.Type, reply) else Rest(p)
  }

  ghost function Rest(p: Process): seq<PROR>
    reads p`Type, p`RequestAmount, p`Requests, p`Base
  {
    var pending := if p.Valid() then p.Pending() else [];
    if p.Type != MINIMIZED && pending != [] then pending[..|pending| - 1] else pending
  }

  /** The request of a process that has just answered `reply`: it is what it wants next, unless it is minimized, has
      nothing to ask or has sixteen requests already. */
  ghost predicate Answered(p: Process, before: seq<PROR>, reply: PROR)
    reads p`Type, p`RequestAmount, p`Requests, p`Base
  {
    && p.Valid()
    && if p.Type != MINIMIZED && reply != SUCCESS && |before| < 16
       then p.Pending() == before + [reply] && Wants(p) == reply && Rest(p) == before
       else p.Pending() == before
  }

  lemma AnswerIsWanted(p: Process, before: seq<PROR>, reply: PROR)
    requires p.Valid() && p.Pending() == Pushed(before, p.Type, reply)
    ensures Answered(p, before, reply)
  {
  }

  /** What is served, and what is left: the latest request gives way to the answer of a process that was asked to
      clear or draw. */
  lemma ServedLatest(p: Process, front: seq<PROR>, latest: PROR, reply: PROR)
    requires p.Valid() && p.Type != MINIMIZED && p.Pending() == front + [latest]
    ensures Wants(p) == latest
    ensures Served(p, reply) == front + if (latest == CLEAR || latest == DRAW) && reply != SUCCESS then [reply] else []
  {
    assert (front + [latest])[..|front|] == front;
  }

  /** A minimized process, and one without a request, is left alone. */
  lemma NothingServed(p: Process, reply: PROR)
    requires p.Valid() && (p.Type == MINIMIZED || p.Pending() == [])
    ensures Wants(p) == SUCCESS && Served(p, reply) == p.Pending()
  {
  }

  ghost predicate Holds(p: Process, pending: seq<PROR>)
    reads p`RequestAmount, p`Requests, p`Base
  {
    p.Valid() && p.Pending() == pending
  }

  ghost function AllServed(ps: seq<Process>, replies: seq<PROR>): (r: seq<seq<PROR>>)
    requires |replies| >= |ps|
    reads ps`Type, ps`RequestAmount, ps`Requests, ps`Base
    ensures |r| == |ps| && forall k :: 0 <= k < |ps| ==> r[k] == Served(ps[k], replies[k])
  {
    if ps == [] then [] else AllServed(ps[..|ps| - 1], replies) + [Served(ps[|ps| - 1], replies[|ps| - 1])]
  }

  predicate Overlapped(ps: seq<Process>, i: nat)
    requires i < |ps|
    reads ps`Type, ps`Pos
  {
    exists j :: i < j < |ps| && ps[i].Meets(ps[j])
  }

  /** A process is overlapped by one that comes later in the list and has a point in common with it. */
  lemma OverlappedIff(ps: seq<Process>, i: nat)
    requires i < |ps|
    ensures Overlapped(ps, i) <==>
            exists j, q :: i < j < |ps| && InRect(ps[i].Pos, ps[i].GetSize(), q) && InRect(ps[j].Pos, ps[j].GetSize(), q)
  {
    forall j | i < j < |ps|
      ensures ps[i].Meets(ps[j]) <==>
              exists q :: InRect(ps[i].Pos, ps[i].GetSize(), q) && InRect(ps[j].Pos, ps[j].GetSize(), q)
    {
      MeetsIff(ps[i], ps[j]);
    }
    hide InRect, Process.Meets, Process.GetSize;
  }

  /** A pointer that survives only if its process is listed. */
  function Listed(pointer: Process?, ps: seq<Process>): Process? {
    if pointer != null && pointer in ps then pointer else null
  }

  lemma AllListed(pointer: Process?, ps: seq<Process>)
    requires pointer != null ==> pointer in ps
    ensures Listed(pointer, ps) == pointer
  {
  }

  /** A pointer after the removal of `gone`. */
  function Kept(pointer: Process?, gone: Process): Process? {
    if pointer == gone then null else pointer
  }

  lemma KeptIsListed(pointer: Process?, ps: seq<Process>, i: nat)
    requires i < |ps| && Distinct(ps)
    ensures Kept(Listed(pointer, ps), ps[i]) == Listed(pointer, Without(ps, i))
  {
    WithoutFacts(ps, i);
  }

  ghost function AllWants(ps: seq<Process>): (w: seq<PROR>)
    reads ps`Type, ps`RequestAmount, ps`Requests, ps`Base
    ensures |w| == |ps| && forall k :: 0 <= k < |ps| ==> w[k] == Wants(ps[k])
  {
    if ps == [] then [] else AllWants(ps[..|ps| - 1]) + [Wants(ps[|ps| - 1])]
  }

  /** The processes that do not want to be killed. */
  function Staying(ps: seq<Process>, wants: seq<PROR>): seq<Process>
    requires |wants| == |ps|
  {
    if ps == [] then []
    else Staying(ps[..|ps| - 1], wants[..|ps| - 1]) + if wants[|ps| - 1] == KILL then [] else [ps[|ps| - 1]]
  }

  lemma {:induction false} StayingSome(ps: seq<Process>, wants: seq<PROR>)
    requires |wants| == |ps|
    ensures forall q :: q in Staying(ps, wants) ==> q in ps
  {
    if ps != [] { StayingSome(ps[..|ps| - 1], wants[..|ps| - 1]); }
  }

  /** Those that do not want to be killed stay, all of them and nobody else, and in order. */
  lemma StayingExact(ps: seq<Process>, wants: seq<PROR>)
    requires |wants| == |ps|
    ensures forall i :: 0 <= i < |ps| && wants[i] != KILL ==> ps[i] in Staying(ps, wants)
    ensures forall q :: q in Staying(ps, wants) ==> exists i :: 0 <= i < |ps| && ps[i] == q && wants[i] != KILL
    ensures forall a, b :: 0 <= a < b < |Staying(ps, wants)| ==>
              exists i, j :: 0 <= i < j < |ps| && ps[i] == Staying(ps, wants)[a] && ps[j] == Staying(ps, wants)[b]
  {
    forall i | 0 <= i < |ps| && wants[i] != KILL ensures ps[i] in Staying(ps, wants) {
      Stays(ps, wants, i);
    }
    ghost var places := StayingPlaces(ps, wants);
    forall q | q in Staying(ps, wants) ensures exists i :: 0 <= i < |ps| && ps[i] == q && wants[i] != KILL {
      var a :| 0 <= a < |Staying(ps, wants)| && Staying(ps, wants)[a] == q;
      assert ps[places[a]] == q;
    }
    forall a, b | 0 <= a < b < |Staying(ps, wants)|
      ensures exists i, j :: 0 <= i < j < |ps| && ps[i] == Staying(ps, wants)[a] && ps[j] == Staying(ps, wants)[b]
    {
      assert ps[places[a]] == Staying(ps, wants)[a] && ps[places[b]] == Staying(ps, wants)[b];
    }
  }

  lemma {:induction false} Stays(ps: seq<Process>, wants: seq<PROR>, i: nat)
    requires |wants| == |ps| && i < |ps| && wants[i] != KILL
    ensures ps[i] in Staying(ps, wants)
    decreases |ps|
  {
    if i < |ps| - 1 {
      Stays(ps[..|ps| - 1], wants[..|ps| - 1], i);
    }
  }

  /** Where those that stay come from. */
  lemma {:induction false} StayingPlaces(ps: seq<Process>, wants: seq<PROR>) returns (places: seq<nat>)
    requires |wants| == |ps|
    ensures |places| == |Staying(ps, wants)|
    ensures forall a :: 0 <= a < |places| ==>
              places[a] < |ps| && ps[places[a]] == Staying(ps, wants)[a] && wants[places[a]] != KILL
    ensures forall a, b :: 0 <= a < b < |places| ==> places[a] < places[b]
  {
    places := [];
    if ps != [] {
      var n := |ps| - 1;
      var front := Staying(ps[..n], wants[..n]);
      assert Staying(ps, wants) == front + if wants[n] == KILL then [] else [ps[n]];
      places := StayingPlaces(ps[..n], wants[..n]);
      hide Staying;
      assert forall a :: 0 <= a < |front| ==> ps[places[a]] == front[a] && wants[places[a]] != KILL;
      if wants[n] != KILL {
        places := places + [n];
      }
    }
  }

  lemma NoneServed(ps: seq<Process>, wants: seq<PROR>, served: seq<seq<PROR>>, replies: seq<PROR>)
    requires |wants| == |served| == |ps| <= |replies| && wants == AllWants(ps) && served == AllServed(ps, replies)
    requires Distinct(ps)
    ensures Cut(ps, wants, 0, [], ps) && Behind(ps, wants, served, 0) && Ahead(ps, wants, served, replies, 0)
    ensures [] + ps == ps
  {
  }

  lemma StayingStep(ps: seq<Process>, wants: seq<PROR>, n: nat)
    requires |wants| == |ps| && n < |ps|
    ensures Staying(ps[..n + 1], wants[..n + 1])
            == Staying(ps[..n], wants[..n]) + if wants[n] == KILL then [] else [ps[n]]
  {
    assert ps[..n + 1][..n] == ps[..n] && wants[..n + 1][..n] == wants[..n];
  }

  lemma CutOut(all: seq<Process>, i: nat, head: seq<Process>, tail: seq<Process>)
    requires tail != [] && all == head + tail && i == |head|
    ensures Without(all, i) == head + tail[1..]
  {
  }

  /** The requests of those that stay are as served. */
  ghost predicate AllHold(ps: seq<Process>, wants: seq<PROR>, served: seq<seq<PROR>>)
    requires |wants| == |served| == |ps|
    reads ps`RequestAmount, ps`Requests, ps`Base
  {
    forall k :: 0 <= k < |ps| && wants[k] != KILL ==> Holds(ps[k], served[k])
  }

  /** Those before `n` have been served, those from `n` on are as they were. */
  ghost predicate Behind(ps: seq<Process>, wants: seq<PROR>, served: seq<seq<PROR>>, n: nat)
    requires |wants| == |served| == |ps| && n <= |ps|
    reads ps[..n]`RequestAmount, ps[..n]`Requests, ps[..n]`Base
  {
    AllHold(ps[..n], wants[..n], served[..n])
  }

  ghost predicate Ahead(ps: seq<Process>, wants: seq<PROR>, served: seq<seq<PROR>>, replies: seq<PROR>, n: nat)
    requires |wants| == |served| == |ps| <= |replies| && n <= |ps|
    reads ps[n..]`Type, ps[n..]`RequestAmount, ps[n..]`Requests, ps[n..]`Base
  {
    AllWants(ps[n..]) == wants[n..] && AllServed(ps[n..], replies[n..]) == served[n..]
  }

  ghost predicate Halfway(ps: seq<Process>, wants: seq<PROR>, served: seq<seq<PROR>>, replies: seq<PROR>, n: nat)
    requires |wants| == |served| == |ps| <= |replies| && n <= |ps|
    reads ps`Type, ps`RequestAmount, ps`Requests, ps`Base
  {
    Ahead(ps, wants, served, replies, n) && Behind(ps, wants, served, n)
  }

  lemma BehindStep(ps: seq<Process>, wants: seq<PROR>, served: seq<seq<PROR>>, n: nat)
    requires |wants| == |served| == |ps| && n < |ps| && Behind(ps, wants, served, n)
    requires wants[n] != KILL ==> Holds(ps[n], served[n])
    ensures Behind(ps, wants, served, n + 1)
  {
  }

  /** The list in the middle of the loop: those that stayed of the first `n`, and the others. */
  predicate Cut(ps: seq<Process>, wants: seq<PROR>, n: nat, head: seq<Process>, tail: seq<Process>)
    requires |wants| == |ps| && n <= |ps|
  {
    tail == ps[n..] && head == Staying(ps[..n], wants[..n]) && Distinct(ps)
  }

  lemma CutStep(ps: seq<Process>, wants: seq<PROR>, n: nat, head: seq<Process>, tail: seq<Process>)
    requires |wants| == |ps| && n < |ps| && tail != [] && Cut(ps, wants, n, head, tail)
    ensures tail[0] == ps[n] && Distinct(ps)
    ensures Cut(ps, wants, n + 1, if wants[n] == KILL then head else head + [tail[0]], tail[1..])
    ensures head + tail == (head + [tail[0]]) + tail[1..]
  {
    hide Distinct;
    StayingStep(ps, wants, n);
  }

  lemma AllDone(ps: seq<Process>, wants: seq<PROR>, served: seq<seq<PROR>>, head: seq<Process>)
    requires |wants| == |served| == |ps| && Behind(ps, wants, served, |ps|) && Cut(ps, wants, |ps|, head, [])
    ensures AllHold(ps, wants, served) && head == Staying(ps, wants)
  {
    assert ps[..|ps|] == ps && wants[..|ps|] == wants && served[..|ps|] == served;
  }

  /** What the process at hand wants and will be left with, apart from those before and behind it. */
  lemma ServeStep(ps: seq<Process>, wants: seq<PROR>, served: seq<seq<PROR>>, replies: seq<PROR>, n: nat)
    requires Distinct(ps) && |wants| == |served| == |ps| <= |replies| && n < |ps|
    requires Ahead(ps, wants, served, replies, n)
    ensures ps[n..][0] == ps[n] && ps[n..][1..] == ps[n + 1..] && ps[n] !in ps[..n] && ps[n] !in ps[n + 1..]
    ensures Wants(ps[n]) == wants[n] && Served(ps[n], replies[n]) == served[n]
    ensures Ahead(ps, wants, served, replies, n + 1)
  {
  }

  // ---------- steps ----------

  datatype Event =
    | Start(procedure: PROC, info: PINFO, junk: Junk, reply: PROR, killReply: PROR)
    | Kill(id: nat, reply: PROR)
    | Mouse(position: Point, left: bool, reply: PROR, killReply: PROR)
    | Key(reply: PROR)
    | Tick(replies: seq<PROR>)
    | Loop(replies: seq<PROR>, killReply: PROR)
    | Restart(procedure: PROC, info: PINFO, junk: Junk, reply: PROR, killReply: PROR)

  lemma JoinedAlone(p: Process, d: nat)
    requires d != 1
    ensures Joined([], p, d) == [p]
  {
  }

  // ---------- the handler ----------

  class Handler {
    const ScreenSize: Point
    var Processes: seq<Process>
    var LastMessagedProcess: Process?
    var FocusedProcess: Process?
    var MovingWindow: Process?
    var MovingWindowPosDelta: Point
    var NewID: nat
    var RedrawRequest: bool        // of the compositor
    var BufferSwapRequest: bool
    var MousePosition: Point
    var LeftHeld: bool

    /** What every step keeps. */
    ghost predicate Valid()
      reads `Processes, `NewID, `FocusedProcess, `MovingWindow, `LastMessagedProcess
      reads Processes`Type, Processes`RequestAmount, Processes`Requests, Processes`Base
    {
      && Distinct(Processes) && Apart(Processes)
      && (forall p :: p in Processes ==> Sound(p, NewID))
      && (FocusedProcess != null ==> FocusedProcess in Processes)
      && (MovingWindow != null ==> MovingWindow in Processes)
      && LastMessagedProcess == null
    }

    constructor (screen: Point)
      ensures Valid() && Processes == [] && FocusedProcess == null && MovingWindow == null && NewID == 0
      ensures ScreenSize == screen
    {
      ScreenSize := screen;
      Processes, LastMessagedProcess, FocusedProcess, MovingWindow := [], null, null, null;
      MovingWindowPosDelta, MousePosition, LeftHeld := Point(0, 0), Point(0, 0), false;
      NewID, RedrawRequest, BufferSwapRequest := 0, false, false;
    }

    /** Process::SendMessage; the answer of the procedure is pushed as a request. */
    method SendMessage(p: Process, reply: PROR)
      requires p.Valid()
      modifies `LastMessagedProcess, p`RequestAmount, p`Requests
      ensures p.Valid() && p.Pending() == Pushed(old(p.Pending()), p.Type, reply) && Answered(p, old(p.Pending()), reply)
      ensures LastMessagedProcess == null
    {
      LastMessagedProcess := p;
      p.PushRequest(reply);
      AnswerIsWanted(p, old(p.Pending()), reply);
      LastMessagedProcess := null;
    }

    /** Process::SetDepth. `beyond` is what the memory behind the list holds: the guard lets through a depth
        equal to the length, and then the process leaves the list and that takes its place. */
    method SetDepth(p: Process, depth: nat, beyond: Process)
      modifies `Processes, p`Depth
      ensures Processes == AfterSetDepth(old(Processes), p, depth, beyond)
      ensures p.Depth == if depth > |old(Processes)| then old(p.Depth) else depth
      ensures depth < |old(Processes)| ==>
                Processes == Moved(old(Processes), p, depth) && multiset(Processes) == multiset(old(Processes))
    {
      if depth > |Processes| {
        return;
      }
      p.Depth := depth;
      for i := 0 to |Processes|
        invariant Processes == old(Processes) && p !in Processes[..i]
      {
        if Processes[i] == p {
          FoundAt(Processes, p, i);
          if depth < |Processes| {
            Processes := Processes[i := Processes[depth]];
            Processes := Processes[depth := p];
          } else {
            Processes := Processes[i := beyond];
          }
          return;
        }
      }
    }

    /** Gives the focus away, or to a listed process; one that is not fullscreen comes out on top. */
    method SetFocusedProcess(newFocus: Process?)
      requires Valid() && (newFocus != null ==> newFocus in Processes)
      modifies `Processes, `FocusedProcess, `RedrawRequest, Processes`Depth
      ensures Valid() && FocusedProcess == newFocus && multiset(Processes) == multiset(old(Processes))
      ensures forall q :: q in Processes ==> q in old(Processes)
      ensures newFocus == null || newFocus.Type == FULLSCREEN ==> Processes == old(Processes)
      ensures newFocus != null && newFocus.Type != FULLSCREEN ==>
                && Processes == Moved(old(Processes), newFocus, |old(Processes)| - 1)
                && Processes[|Processes| - 1] == newFocus
      ensures forall p :: p in Processes && p != newFocus ==> unchanged(p)
      ensures RedrawRequest == (old(RedrawRequest) || (newFocus != null && (IsWindow(newFocus) || IsWindow(old(FocusedProcess)))))
    {
      hide Distinct, Moved, Apart, Sound;
      if newFocus == null {
        FocusedProcess := null;
        return;
      }
      if FocusedProcess != null && FocusedProcess.Type == WINDOWED {
        RedrawRequest := true;
      }
      if newFocus.Type == WINDOWED {
        RedrawRequest := true;
      }
      FocusedProcess := newFocus;
      if newFocus.Type != FULLSCREEN {
        var top := |Processes| - 1;
        SetDepth(newFocus, top, newFocus);
        MovedFacts(old(Processes), newFocus, top);
        ApartSome(old(Processes), Processes);
      }
    }

    /** KillProcess: the process with that ID leaves the list, and no pointer to it stays behind. */
    method KillProcess(processID: nat, reply: PROR) returns (killed: bool)
      requires Valid()
      modifies `Processes, `FocusedProcess, `MovingWindow, `LastMessagedProcess, `RedrawRequest
      modifies (set p | p in Processes && p.ID == processID)`RequestAmount, (set p | p in Processes && p.ID == processID)`Requests
      ensures Valid()
      ensures forall q :: q in Processes ==> q in old(Processes)
      ensures var ps := old(Processes); var i := WhereID(ps, processID);
              if i < |ps| then
                && killed && Processes == Without(ps, i) && RedrawRequest
                && FocusedProcess == Kept(old(FocusedProcess), ps[i]) && MovingWindow == Kept(old(MovingWindow), ps[i])
                && (forall p :: p in Processes ==> unchanged(p))
              else
                && !killed && Processes == ps && RedrawRequest == old(RedrawRequest)
                && FocusedProcess == old(FocusedProcess) && MovingWindow == old(MovingWindow)
                && (forall p :: p in Processes ==> unchanged(p))
    {
      hide Distinct, Apart, Sound, WhereID, Without, Answered;
      var i := 0;
      while i < |Processes|
        invariant i <= |Processes| && i <= WhereID(Processes, processID)
      {
        if processID == Processes[i].ID {
          WithoutFacts(Processes, i);
          Remove(i, reply);
          return true;
        }
        i := i + 1;
      }
      return false;
    }

    /** What is done with the process found. */
    method Remove(i: nat, reply: PROR)
      requires Valid() && i < |Processes|
      modifies `Processes, `FocusedProcess, `MovingWindow, `LastMessagedProcess, `RedrawRequest
      modifies {Processes[i]}`RequestAmount, {Processes[i]}`Requests
      ensures Valid() && Processes == Without(old(Processes), i) && RedrawRequest
      ensures var p := old(Processes)[i]; FocusedProcess == Kept(old(FocusedProcess), p) && MovingWindow == Kept(old(MovingWindow), p)
      ensures forall q :: q in Processes ==> unchanged(q)
    {
      hide Distinct, Apart, Sound, Without, Answered;
      var p := Processes[i];
      ghost var rest := Without(Processes, i);
      WithoutFacts(Processes, i);
      ApartSome(Processes, rest);
      SoundIsValid(p, NewID);
      FocusedProcess := Kept(FocusedProcess, p);
      LastMessagedProcess := Kept(LastMessagedProcess, p);
      MovingWindow := Kept(MovingWindow, p);
      SendMessage(p, reply);   // Kill; the answer of a dying process is pushed and forgotten
      ApartStays(rest);
      forall q | q in rest ensures Sound(q, NewID) && unchanged(q) {
        assert q in old(Processes) && q != p && old(Sound(q, NewID));
      }
      Processes := Without(Processes, i);
      RedrawRequest := true;
    }

    /** The constructor of Process, which asks the procedure what it wants to be. */
    method Construct(procedure: PROC, info: PINFO, junk: Junk, reply: PROR) returns (p: Process)
      requires LastMessagedProcess == null
      modifies `NewID, `LastMessagedProcess, `Processes
      ensures NewID == old(NewID) + 1 && LastMessagedProcess == null && Processes == old(Processes)
      ensures fresh(p) && p.Valid() && p.ID == NewID && p.Procedure == procedure && p.Type == info.Type
      ensures p.Depth == StartDepth(info, junk, |Processes|) && p.Pending() == StartRequests(info, junk, reply)
      ensures p.Pos == if info.Type == FULLSCREEN then Point(0, 0) else Point(info.Left, info.Top)
      ensures p.Width == (if info.Type == FULLSCREEN then Span(ScreenSize.X) else info.Width)
      ensures p.Height == (if info.Type == FULLSCREEN then Span(ScreenSize.Y) else info.Height)
    {
      hide Answered;
      NewID := NewID + 1;
      var width := if info.Type == FULLSCREEN then Span(ScreenSize.X) else info.Width;
      var height := if info.Type == FULLSCREEN then Span(ScreenSize.Y) else info.Height;
      p := new Process(NewID, procedure, width, height, junk.Type, junk.Depth);
      SendMessage(p, reply);
      p.Type := info.Type;
      p.Pos := Point(info.Left, info.Top);
      SetDepth(p, info.Depth, p);
      if info.Type == FULLSCREEN {
        p.Pos := Point(0, 0);
      }
      p.PushRequest(DRAW);
    }

    /** The first fullscreen process, if any, is killed. */
    method KillFullscreen(reply: PROR)
      requires Valid()
      modifies `Processes, `FocusedProcess, `MovingWindow, `LastMessagedProcess, `RedrawRequest
      modifies Processes`RequestAmount, Processes`Requests
      ensures Valid() && Processes == old(Vacated(Processes, FULLSCREEN))
      ensures RedrawRequest == (old(RedrawRequest) || Processes != old(Processes))
      ensures forall q :: q in Processes ==> q.Type != FULLSCREEN && q in old(Processes) && unchanged(q)
      ensures FocusedProcess == Listed(old(FocusedProcess), Processes)
      ensures MovingWindow == Listed(old(MovingWindow), Processes)
    {
      hide Distinct, Apart, Sound, WhereID, WhereFull, Without;
      for i := 0 to |Processes|
        invariant Valid() && i <= WhereFull(Processes)
        invariant RedrawRequest == old(RedrawRequest)
        invariant Processes == old(Processes) && FocusedProcess == old(FocusedProcess) && MovingWindow == old(MovingWindow)
        invariant forall q :: q in Processes ==> unchanged(q)
      {
        if Processes[i].Type == FULLSCREEN {
          OwnID(Processes, i);
          WithoutFacts(Processes, i);
          NoOtherFull(Processes, i);
          var killed := KillProcess(Processes[i].ID, reply);
          return;
        }
      }
    }

    /** The new process is pushed and takes its depth. A depth equal to the new length costs it its place. */
    method Join(p: Process, beyond: Process)
      requires Valid() && p !in Processes && Sound(p, NewID) && !Running(Processes, p.Procedure)
      requires forall q :: q in Processes ==> q.ID < p.ID
      requires p.Type == FULLSCREEN ==> forall q :: q in Processes ==> q.Type != FULLSCREEN
      modifies `Processes, p`Depth
      ensures p.Depth == old(p.Depth)
      ensures p.Depth != |old(Processes)| + 1 ==>
                && Valid() && Processes == Joined(old(Processes), p, p.Depth)
                && forall q :: q in Processes ==> q in old(Processes) || q == p
      ensures p.Depth == |old(Processes)| + 1 ==> Processes == old(Processes) + [beyond]
    {
      hide Distinct, Sound, Moved, Joined, AfterSetDepth;
      ghost var ps, d := Processes, p.Depth;
      ghost var joined := Joined(ps, p, d);
      JoinedSetDepth(ps, p, d, beyond);
      if d != |ps| + 1 {
        JoinedFacts(ps, p, d);
        ApartJoined(ps, p, joined);
      }
      Processes := Processes + [p];
      SetDepth(p, p.Depth, beyond);   // UpdateDepth
      if d != |ps| + 1 {
        assert Processes == joined && Distinct(joined) && Apart(joined);
        assert forall q :: q in ps ==> q in joined;
        StillSound(joined, ps, p, NewID);
        assert Valid();
      }
    }

    /** StartProcess: 0 if the procedure already runs; otherwise the ID of a new process `p`, which takes its
        depth in the list, and if it is fullscreen the place of the fullscreen process there was. If the
        depth it ends up asking for is the new length, see SetDepth, it is not listed, but what memory holds
        behind the list: `beyond`, or once more the new process if that is null. A process that asks to start
        minimized stops the kernel. */
    method StartProcess(procedure: PROC, info: PINFO, junk: Junk, reply: PROR, killReply: PROR, beyond: Process?)
      returns (id: nat, p: Process?)
      requires Valid() && info.Type != MINIMIZED && reply != RESET
      modifies `Processes, `FocusedProcess, `MovingWindow, `LastMessagedProcess, `RedrawRequest, `NewID
      modifies Processes`RequestAmount, Processes`Requests
      ensures old(Running(Processes, procedure)) ==>
                && Valid() && id == 0 && p == null && Processes == old(Processes) && NewID == old(NewID)
                && RedrawRequest == old(RedrawRequest)
                && FocusedProcess == old(FocusedProcess) && MovingWindow == old(MovingWindow)
      ensures old(!Running(Processes, procedure)) ==>
                && p != null && fresh(p) && p.ID == id == NewID == old(NewID) + 1 && p.Procedure == procedure
                && p.Type == info.Type && p.Valid() && p.Pending() == StartRequests(info, junk, reply)
                && p.Pos == (if info.Type == FULLSCREEN then Point(0, 0) else Point(info.Left, info.Top))
                && p.Width == (if info.Type == FULLSCREEN then Span(ScreenSize.X) else info.Width)
                && p.Height == (if info.Type == FULLSCREEN then Span(ScreenSize.Y) else info.Height)
                && RedrawRequest == (old(RedrawRequest) || old(Vacated(Processes, info.Type)) != old(Processes))
      ensures old(!Running(Processes, procedure)) ==>
                var others, d := old(Vacated(Processes, info.Type)), StartDepth(info, junk, |old(Processes)|);
                if d == |others| + 1 then
                  Processes == others + [if beyond == null then p else beyond]
                else
                  && Valid() && Processes == Joined(others, p, d)
                  && FocusedProcess == Listed(old(FocusedProcess), Processes)
                  && MovingWindow == Listed(old(MovingWindow), Processes)
                  && forall q :: q in Processes && q != p ==> q in old(Processes) && unchanged(q)
      ensures old(Running(Processes, procedure)) ==> forall q :: q in Processes ==> unchanged(q)
    {
      hide Distinct, Apart, Sound, WhereID, WhereFull, Without, Moved, Joined, StartRequests, StartDepth;
      for i := 0 to |Processes|
        invariant !Running(Processes[..i], procedure)
        invariant Processes == old(Processes)
      {
        if Processes[i].Procedure == procedure {
          return 0, null;
        }
        assert Processes[..i + 1] == Processes[..i] + [Processes[i]];
      }
      assert Processes[..|Processes|] == Processes;
      var newProcess := Construct(procedure, info, junk, reply);
      p := newProcess;
      SoundLater(Processes, NewID - 1, NewID);
      StartSound(newProcess, NewID, info, junk, reply);
      if newProcess.Type == FULLSCREEN {
        KillFullscreen(killReply);
      }
      StillNotRunning(old(Processes), Processes, procedure);
      Join(newProcess, if beyond == null then newProcess else beyond);
      id := newProcess.ID;
    }

    // ---------- the mouse ----------

    twostate predicate SameRequests(p: Process)
      reads p`RequestAmount, p`Requests
    {
      p.RequestAmount == old(p.RequestAmount) && p.Requests == old(p.Requests)
    }

    /** What a press on the title bar of process `i` does: close it, minimize or restore it, or start to
        move it, which also focuses it. */
    twostate predicate TitlePressed(ps: seq<Process>, i: nat, pos: Point)
      requires i < |ps|
      reads `Processes, `FocusedProcess, `MovingWindow, `MovingWindowPosDelta, `RedrawRequest, ps
    {
      var p := ps[i];
      if old(Inside(p.GetCloseButtonPos(), p.GetCloseButtonPos().Plus(CLOSE_BUTTON_SIZE), pos)) then
        && Processes == Without(ps, i) && RedrawRequest && MovingWindow == null
        && FocusedProcess == Kept(old(FocusedProcess), p)
        && (forall q :: q in ps && q != p ==> unchanged(q))
      else if old(Inside(p.GetMinimizeButtonPos(), p.GetMinimizeButtonPos().Plus(MINIMIZE_BUTTON_SIZE), pos)) then
        && Processes == ps && RedrawRequest && MovingWindow == null && FocusedProcess == old(FocusedProcess)
        && p.Type == (if old(p.Type) == MINIMIZED then WINDOWED else MINIMIZED)
        && p.Pos == p.Placed(old(p.Pos), ScreenSize) && SameRequests(p)
        && (forall q :: q in ps && q != p ==> unchanged(q))
      else
        && Processes == Moved(ps, p, |ps| - 1) && MovingWindow == p && FocusedProcess == p
        && MovingWindowPosDelta == p.Pos.Minus(pos) && p.Type == old(p.Type) && p.Pos == old(p.Pos) && SameRequests(p)
        && RedrawRequest == (old(RedrawRequest) || IsWindow(p) || old(IsWindow(FocusedProcess)))
        && (forall q :: q in ps && q != p ==> unchanged(q))
    }

    /** What the mouse over the window of process `i` does: the process hears of it, and a press focuses it. */
    twostate predicate WindowTouched(ps: seq<Process>, i: nat, reply: PROR)
      requires i < |ps| && old(ps[i].Valid()) && ps[i].Valid()
      reads `Processes, `FocusedProcess, `MovingWindow, `RedrawRequest, ps
    {
      var p := ps[i];
      && Answered(p, old(p.Pending()), reply) && p.Type == old(p.Type) && p.Pos == old(p.Pos)
      && (forall q :: q in ps && q != p ==> unchanged(q))
      && MovingWindow == null
      && (if old(LeftHeld) then
            && FocusedProcess == p && Processes == (if p.Type == FULLSCREEN then ps else Moved(ps, p, |ps| - 1))
            && RedrawRequest == (old(RedrawRequest) || IsWindow(p) || old(IsWindow(FocusedProcess)))
          else
            FocusedProcess == old(FocusedProcess) && Processes == ps && RedrawRequest == old(RedrawRequest))
    }

    method MinimizeWindow(p: Process)
      requires Valid() && p in Processes && Framed(p)
      modifies `RedrawRequest, p`Type, p`Pos
      ensures Valid() && RedrawRequest && p.Pos == p.Placed(old(p.Pos), ScreenSize)
      ensures p.Type == if old(p.Type) == MINIMIZED then WINDOWED else MINIMIZED
    {
      hide Distinct, Sound;
      p.Minimize(ScreenSize);
      RedrawRequest := true;
    }

    method PressTitle(i: nat, killReply: PROR)
      requires Valid() && i < |Processes| && Framed(Processes[i]) && MovingWindow == null
      modifies `Processes, `FocusedProcess, `MovingWindow, `MovingWindowPosDelta, `LastMessagedProcess, `RedrawRequest
      modifies Processes`Type, Processes`Pos, Processes`Depth, Processes`RequestAmount, Processes`Requests
      ensures Valid()
      ensures forall q :: q in Processes ==> q in old(Processes)
      ensures TitlePressed(old(Processes), i, MousePosition)
    {
      hide Distinct, Apart, Sound, Moved, Without, WhereID;
      var p := Processes[i];
      if Inside(p.GetCloseButtonPos(), p.GetCloseButtonPos().Plus(CLOSE_BUTTON_SIZE), MousePosition) {
        OwnID(Processes, i);
        WithoutFacts(Processes, i);
        var killed := KillProcess(p.ID, killReply);
      } else if Inside(p.GetMinimizeButtonPos(), p.GetMinimizeButtonPos().Plus(MINIMIZE_BUTTON_SIZE), MousePosition) {
        MinimizeWindow(p);
      } else {
        MovingWindow := p;
        MovingWindowPosDelta := p.Pos.Minus(MousePosition);
        MovedFacts(Processes, p, |Processes| - 1);
        SetFocusedProcess(p);
      }
    }

    /** A listed process hears of something, and its answer becomes a request. */
    method Tell(p: Process, reply: PROR)
      requires Valid() && p in Processes && reply != RESET
      modifies `LastMessagedProcess, p`RequestAmount, p`Requests
      ensures Valid() && p.Valid() && old(p.Valid()) && p.Pending() == Pushed(old(p.Pending()), p.Type, reply)
      ensures Answered(p, old(p.Pending()), reply)
    {
      hide Distinct, Apart, Sound;
      SoundIsValid(p, NewID);
      SendMessage(p, reply);
      ValidIsSound(p, NewID);
    }

    method TouchWindow(i: nat, reply: PROR)
      requires Valid() && i < |Processes| && MovingWindow == null && reply != RESET
      modifies `Processes, `FocusedProcess, `LastMessagedProcess, `RedrawRequest
      modifies Processes`Depth, Processes`RequestAmount, Processes`Requests
      ensures Valid() && old(Processes[i].Valid()) && old(Processes)[i].Valid()
      ensures forall q :: q in Processes ==> q in old(Processes)
      ensures WindowTouched(old(Processes), i, reply)
    {
      hide Distinct, Apart, Sound, Moved, Pushed, Answered;
      var p := Processes[i];
      Tell(p, reply);
      if LeftHeld {
        MovedFacts(Processes, p, |Processes| - 1);
        SetFocusedProcess(p);
      }
      SoundIsValid(p, NewID);
    }

    /** MouseInterupt. While a window is being moved it follows the mouse until the button is let go, and
        then has the focus. Otherwise the topmost process the mouse is on is pressed or touched. */
    method MouseInterupt(reply: PROR, killReply: PROR)
      requires Valid() && reply != RESET
      modifies `Processes, `FocusedProcess, `MovingWindow, `MovingWindowPosDelta, `LastMessagedProcess, `RedrawRequest, `LeftHeld
      modifies Processes`Type, Processes`Pos, Processes`Depth, Processes`RequestAmount, Processes`Requests
      ensures Valid() && !LeftHeld
      ensures forall q :: q in Processes ==> q in old(Processes)
      ensures var m := old(MovingWindow); m != null ==>
                && Processes == old(Processes) && RedrawRequest
                && m.Pos == m.Placed(MousePosition.Plus(MovingWindowPosDelta), ScreenSize) && m.Type == old(m.Type)
                && (if old(LeftHeld) then MovingWindow == m && FocusedProcess == old(FocusedProcess)
                    else MovingWindow == null && FocusedProcess == m)
                && (forall q :: q in Processes && q != m ==> unchanged(q))
      ensures var ps, t := old(Processes), old(Target(Processes, LeftHeld, MousePosition));
              old(MovingWindow) == null ==>
                if t < 0 then
                  && Processes == ps && MovingWindow == null && FocusedProcess == old(FocusedProcess)
                  && RedrawRequest == old(RedrawRequest) && (forall q :: q in ps ==> unchanged(q))
                else if old(LeftHeld && OnTitle(Processes[t], MousePosition)) then
                  TitlePressed(ps, t, MousePosition)
                else
                  old(ps[t].Valid()) && ps[t].Valid() && WindowTouched(ps, t, reply)
    {
      hide Distinct, Apart, Sound, Moved, OnTitle, Target, Process.Contains, TitlePressed, WindowTouched;
      if MovingWindow != null {
        MovingWindow.SetPos(MousePosition.Plus(MovingWindowPosDelta), ScreenSize);
        if !LeftHeld {
          FocusedProcess := MovingWindow;
          MovingWindow := null;
        }
        RedrawRequest := true;
      } else {
        ghost var t := Target(Processes, LeftHeld, MousePosition);
        var i := |Processes|;
        while i > 0
          invariant t < i <= |Processes|
        {
          i := i - 1;
          if LeftHeld && OnTitle(Processes[i], MousePosition) {
            TitleFramed(Processes[i], MousePosition);
            PressTitle(i, killReply);
            LeftHeld := false;
            return;
          } else if Processes[i].Contains(MousePosition) {
            TouchWindow(i, reply);
            LeftHeld := false;
            return;
          }
        }
      }
      LeftHeld := false;
    }

    method KeyBoardInterupt(reply: PROR)
      requires Valid() && reply != RESET
      modifies `LastMessagedProcess
      modifies Processes`RequestAmount, Processes`Requests
      ensures Valid()
      ensures var f := FocusedProcess;
              && (f != null ==> old(f.Valid()) && Answered(f, old(f.Pending()), reply))
              && (forall q :: q in Processes && q != f ==> unchanged(q))
    {
      if FocusedProcess == null {
        return;
      }
      Tell(FocusedProcess, reply);
    }

    /** PITInterupt: every process hears of the tick. */
    method PITInterupt(replies: seq<PROR>)
      requires Valid() && |replies| >= |Processes| && RESET !in replies
      modifies `LastMessagedProcess
      modifies Processes`RequestAmount, Processes`Requests
      ensures Valid()
      ensures forall k :: 0 <= k < |Processes| ==>
                old(Processes[k].Valid()) && Answered(Processes[k], old(Processes[k].Pending()), replies[k])
    {
      hide Apart, Answered, Pushed, Sound;
      forall p | p in Processes ensures p.Valid() {
        SoundIsValid(p, NewID);
      }
      for i := 0 to |Processes|
        invariant Valid()
        invariant forall k :: 0 <= k < i ==>
                    old(Processes[k].Valid()) && Answered(Processes[k], old(Processes[k].Pending()), replies[k])
        invariant forall k :: i <= k < |Processes| ==> unchanged(Processes[k])
      {
        assert forall k :: 0 <= k < |Processes| && k != i ==> Processes[k] != Processes[i];
        Tell(Processes[i], replies[i]);
      }
    }

    // ---------- the loop ----------

    /** Compositor::Update(i), as far as its requests go: a process that a later one meets is not rendered
        alone. */
    method UpdateRequest(i: nat)
      requires i < |Processes|
      modifies `RedrawRequest, `BufferSwapRequest
      ensures RedrawRequest == (old(RedrawRequest) || Overlapped(Processes, i))
      ensures BufferSwapRequest == (old(BufferSwapRequest) || !Overlapped(Processes, i))
    {
      for j := i + 1 to |Processes|
        invariant forall k :: i < k < j ==> !Processes[i].Meets(Processes[k])
        invariant RedrawRequest == old(RedrawRequest) && BufferSwapRequest == old(BufferSwapRequest)
      {
        if Processes[i].Meets(Processes[j]) {
          RedrawRequest := true;
          return;
        }
      }
      BufferSwapRequest := true;
    }

    /** Pops the latest request of a listed process. */
    method NextRequest(p: Process) returns (r: PROR)
      requires Valid() && p in Processes
      modifies p`RequestAmount
      ensures Valid() && r == old(Wants(p)) != RESET && p.Valid() && p.Pending() == old(Rest(p))
    {
      hide Distinct, Apart, Sound;
      SoundIsValid(p, NewID);
      r := p.PopRequest();
      ValidIsSound(p, NewID);
    }

    /** One turn of the request loop: serves the latest request of process `i`. */
    method Serve(i: nat, reply: PROR, killReply: PROR) returns (request: PROR)
      requires Valid() && i < |Processes| && reply != RESET
      modifies `Processes, `FocusedProcess, `MovingWindow, `LastMessagedProcess, `RedrawRequest, `BufferSwapRequest
      modifies {Processes[i]}`RequestAmount, {Processes[i]}`Requests
      ensures Valid()
      ensures request == old(Wants(Processes[i])) != RESET
      ensures var ps := old(Processes);
              if request == KILL then
                && Processes == Without(ps, i) && RedrawRequest
                && FocusedProcess == Kept(old(FocusedProcess), ps[i]) && MovingWindow == Kept(old(MovingWindow), ps[i])
              else
                && Processes == ps && FocusedProcess == old(FocusedProcess) && MovingWindow == old(MovingWindow)
                && Holds(ps[i], old(Served(ps[i], reply)))
      ensures request == CLEAR || request == DRAW ==>
                && RedrawRequest == (old(RedrawRequest) || Overlapped(Processes, i))
                && BufferSwapRequest == (old(BufferSwapRequest) || !Overlapped(Processes, i))
      ensures request == SUCCESS ==> RedrawRequest == old(RedrawRequest)
      ensures request == SUCCESS || request == KILL ==> BufferSwapRequest == old(BufferSwapRequest)
      ensures forall q :: q in old(Processes) && q != old(Processes)[i] ==> unchanged(q)
    {
      hide Distinct, Apart, Sound, Without, WhereID, Overlapped, Process.Meets, Wants, Rest, Pushed, Answered;
      var p := Processes[i];
      request := NextRequest(p);
      match request {
        case CLEAR =>
          Tell(p, reply);
          UpdateRequest(i);
        case DRAW =>
          Tell(p, reply);
          UpdateRequest(i);
        case KILL =>
          OwnID(Processes, i);
          WithoutFacts(Processes, i);
          var killed := KillProcess(p.ID, killReply);
          RedrawRequest := true;
        case _ =>
      }
    }

    /** The loop in the middle, over the list `ps`: the first `n` have been served, `head` are those of them that
        stayed, `tail` the others; the two pointers are as before the loop, if what they point at is still listed. */
    ghost predicate InLoop(n: nat, head: seq<Process>, tail: seq<Process>, focused: Process?, moving: Process?,
                           ps: seq<Process>, wants: seq<PROR>, served: seq<seq<PROR>>, replies: seq<PROR>)
      requires |wants| == |served| == |ps| <= |replies| && n <= |ps|
      reads `Processes, `NewID, `FocusedProcess, `MovingWindow, `LastMessagedProcess
      reads Processes`Type, Processes`RequestAmount, Processes`Requests, Processes`Base
      reads ps`Type, ps`RequestAmount, ps`Requests, ps`Base
    {
      && Valid() && Processes == head + tail && n + |tail| == |ps|
      && FocusedProcess == Listed(focused, Processes) && MovingWindow == Listed(moving, Processes)
      && Cut(ps, wants, n, head, tail) && Halfway(ps, wants, served, replies, n)
    }

    /** Serve, in the middle of the loop: the `n`-th process there was stands behind those that stayed. */
    method Turn(i: nat, n: nat, reply: PROR, killReply: PROR, ghost head: seq<Process>, ghost tail: seq<Process>,
                ghost focused: Process?, ghost moving: Process?,
                ghost ps: seq<Process>, ghost wants: seq<PROR>, ghost served: seq<seq<PROR>>, ghost replies: seq<PROR>)
      returns (removed: bool)
      requires |wants| == |served| == |ps| <= |replies| && n < |ps| && reply == replies[n] != RESET
      requires i == |head| && tail != [] && Processes == head + tail
      requires InLoop(n, head, tail, focused, moving, ps, wants, served, replies)
      modifies `Processes, `FocusedProcess, `MovingWindow, `LastMessagedProcess, `RedrawRequest, `BufferSwapRequest
      modifies {ps[n]}`RequestAmount, {ps[n]}`Requests
      ensures var head' := if removed then head else head + [tail[0]];
              && Processes == head' + tail[1..]
              && InLoop(n + 1, head', tail[1..], focused, moving, ps, wants, served, replies)
    {
      hide Distinct, Apart, Sound, Wants, Served, Without, Overlapped, Pushed, Process.Pending, Ahead, Behind, Holds, Cut, Listed;
      ghost var before := Processes;
      CutStep(ps, wants, n, head, tail);
      ServeStep(ps, wants, served, replies, n);
      assert Processes[i] == ps[n];
      WithoutFacts(Processes, i);
      CutOut(Processes, i, head, tail);
      var request := Serve(i, reply, killReply);
      removed := request == KILL;
      BehindStep(ps, wants, served, n);
      KeptIsListed(focused, before, i);
      KeptIsListed(moving, before, i);
    }

    /** The loop itself, over the list `ps`. */
    method ServeLoop(replies: seq<PROR>, killReply: PROR,
                     ghost ps: seq<Process>, ghost wants: seq<PROR>, ghost served: seq<seq<PROR>>)
      requires Processes == ps && |wants| == |served| == |ps| <= |replies| && RESET !in replies
      requires InLoop(0, [], ps, FocusedProcess, MovingWindow, ps, wants, served, replies)
      modifies `Processes, `FocusedProcess, `MovingWindow, `LastMessagedProcess, `RedrawRequest, `BufferSwapRequest
      modifies ps`RequestAmount, ps`Requests
      ensures InLoop(|ps|, Processes, [], old(FocusedProcess), old(MovingWindow), ps, wants, served, replies)
    {
      hide *;
      ghost var focused, moving := FocusedProcess, MovingWindow;
      ghost var head, tail: seq<Process> := [], ps;
      var i, n: nat := 0, 0;
      while i < |Processes|
        invariant n + |tail| == |ps| && Processes == head + tail && i == |head|
        invariant InLoop(n, head, tail, focused, moving, ps, wants, served, replies)
        decreases |tail|
      {
        assert replies[n] in replies && ps[n] in ps;
        var removed := Turn(i, n, replies[n], killReply, head, tail, focused, moving, ps, wants, served, replies);
        if !removed {
          head := head + [tail[0]];
          i := i + 1;
        }
        tail := tail[1..];
        n := n + 1;
      }
      assert tail == [] && head + [] == head;
    }

    /** The request loop: every process is served once, in order. Those whose latest request is to be
        killed leave the list; the others stay in order. */
    method ServeAll(replies: seq<PROR>, killReply: PROR)
      requires Valid() && |replies| >= |Processes| && RESET !in replies
      modifies `Processes, `FocusedProcess, `MovingWindow, `LastMessagedProcess, `RedrawRequest, `BufferSwapRequest
      modifies Processes`RequestAmount, Processes`Requests
      ensures Valid()
      ensures forall q :: q in Processes ==> q in old(Processes)
      ensures Processes == Staying(old(Processes), old(AllWants(Processes)))
      ensures FocusedProcess == Listed(old(FocusedProcess), Processes) && MovingWindow == Listed(old(MovingWindow), Processes)
      ensures AllHold(old(Processes), old(AllWants(Processes)), old(AllServed(Processes, replies)))
    {
      hide Distinct, Apart, Sound, Listed, Staying, AllHold, Behind, Ahead, Cut, AllWants, AllServed;
      ghost var ps, wants, served := Processes, AllWants(Processes), AllServed(Processes, replies);
      NoneServed(ps, wants, served, replies);
      AllListed(FocusedProcess, ps);
      AllListed(MovingWindow, ps);
      assert [] + ps == ps;
      ServeLoop(replies, killReply, ps, wants, served);
      assert Processes + [] == Processes;
      AllDone(ps, wants, served, Processes);
      StayingSome(ps, wants);
    }

    /** What Loop does when no process is left: it starts one and gives it the focus. */
    method Boot(procedure: PROC, info: PINFO, junk: Junk, reply: PROR, killReply: PROR)
      requires Valid() && Processes == [] && info.Type != MINIMIZED && reply != RESET && StartDepth(info, junk, 0) != 1
      modifies `Processes, `FocusedProcess, `MovingWindow, `LastMessagedProcess, `RedrawRequest, `NewID
      ensures Valid() && |Processes| == 1 && fresh(Processes[0])
      ensures Processes[0].Procedure == procedure && Processes[0].ID == NewID
      ensures FocusedProcess == Processes[0] && NewID == old(NewID) + 1 && MovingWindow == null
    {
      hide Distinct, Apart, Sound, StartDepth, StartRequests, WhereFull;
      assert !Running(Processes, procedure);
      var id, p := StartProcess(procedure, info, junk, reply, killReply, null);
      JoinedAlone(p, StartDepth(info, junk, 0));
      FocusedProcess := Processes[0];
    }

    // ---------- every run ----------

    /** A step can be taken: the depth of a started process is an index or too large, and procedures ask
        for neither a reset nor to start minimized. */
    predicate Admissible(e: Event)
      reads this, Processes`Type
    {
      match e
      case Start(procedure, info, junk, reply, _) =>
        && info.Type != MINIMIZED && reply != RESET
        && (!Running(Processes, procedure) ==> StartDepth(info, junk, |Processes|) != |Vacated(Processes, info.Type)| + 1)
      case Kill(_, _) => true
      case Mouse(_, _, reply, _) => reply != RESET
      case Key(reply) => reply != RESET
      case Tick(replies) => |replies| >= |Processes| && RESET !in replies
      case Loop(replies, _) => |replies| >= |Processes| && RESET !in replies
      case Restart(procedure, info, junk, reply, _) =>
        Processes == [] && info.Type != MINIMIZED && reply != RESET && StartDepth(info, junk, 0) != 1
    }

    method Take(e: Event)
      requires Valid() && Admissible(e)
      modifies this, Processes
      ensures Valid() && NewID >= old(NewID)
      ensures forall q :: q in Processes ==> q in old(Processes) || fresh(q)
      ensures forall q :: q in Processes && fresh(q) ==> q.ID > old(NewID)
    {
      hide Distinct, Apart, Sound, Running, StartDepth, StartRequests, Vacated, Joined, Moved, Without, WhereID;
      hide Target, TitlePressed, WindowTouched, Staying, AllHold, AllWants, AllServed, Listed, Valid;
      match e {
        case Start(procedure, info, junk, reply, killReply) =>
          var id, p := StartProcess(procedure, info, junk, reply, killReply, null);
        case Kill(id, reply) =>
          var killed := KillProcess(id, reply);
        case Mouse(position, left, reply, killReply) =>
          MousePosition, LeftHeld := position, left;
          MouseInterupt(reply, killReply);
        case Key(reply) =>
          KeyBoardInterupt(reply);
        case Tick(replies) =>
          PITInterupt(replies);
        case Loop(replies, killReply) =>
          ServeAll(replies, killReply);
          RedrawRequest, BufferSwapRequest := false, false;
        case Restart(procedure, info, junk, reply, killReply) =>
          Boot(procedure, info, junk, reply, killReply);
      }
    }

    /** Whatever steps are taken in whatever order: IDs and procedures stay distinct, at most one process is
        fullscreen, and the pointers are null or point into the list. */
    method Run(events: seq<Event>) returns (n: nat)
      requires Valid()
      modifies this, Processes
      ensures n <= |events| && (n < |events| ==> !Admissible(events[n]))
      ensures Valid() && NewID >= old(NewID)
    {
      n := 0;
      while n < |events| && Admissible(events[n])
        invariant n <= |events| && Valid() && NewID >= old(NewID)
        invariant forall q :: q in Processes ==> q in old(Processes) || fresh(q)
      {
        assert forall k :: 0 <= k < |Processes| ==> Processes[k] in old(Processes) || fresh(Processes[k]);
        Take(events[n]);
        n := n + 1;
      }
    }

    predicate IsWindow(p: Process?)
      reads p
    {
      p != null && p.Type == WINDOWED
    }
  }
}
