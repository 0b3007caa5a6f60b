/** The control skeleton of NavMesh::findPath: a corridor search, then a
    walk along the corridor that emits waypoints, bounded by a fixed budget,
    with special handling at the end of the path and at off-mesh
    connections. Every Detour query and all of the vector arithmetic are
    answers of the `Detour` oracle; what is modelled is which points are
    appended, in which order, and how the polygon corridor is cut when an
    off-mesh connection is crossed. */
module PathFollow {
  import opened Wrappers
  import opened Geometry
  import Slots

  type PolyRef = nat

  /** Capacity of the polygon corridor. */
  const MAX_POLYS: nat := 256
  /** Budget of waypoints one call may append. */
  const MAX_SMOOTH: nat := 2048

  type Corridor = s: seq<PolyRef> | |s| <= MAX_POLYS
  /** The corridor as the surface walk and its fix-ups return it: they keep
      at least the polygon the walk started on. */
  type LiveCorridor = s: seq<PolyRef> | 1 <= |s| <= MAX_POLYS witness [0]

  /** The answer of getSteerTarget: where to steer, and what lies there. */
  datatype Steer = Steer(pos: Vec3, endOfPath: bool, offMeshConnection: bool, ref: PolyRef)

  /** The result of moveAlongSurface followed by fixupCorridor and fixupShortcuts. */
  datatype Move = Move(pos: Vec3, corridor: LiveCorridor)

  datatype Detour = Detour(
    /** findNearestPoly with the fixed search extent; 0 when nothing is near. */
    nearestPoly: Vec3 -> PolyRef,
    /** dtNavMeshQuery::findPath between two references. */
    findCorridor: (PolyRef, PolyRef, Vec3, Vec3) -> Corridor,
    closestPointOnPoly: (PolyRef, Vec3) -> Vec3,
    /** getSteerTarget with its slop; None when no target is found. */
    steerTarget: (Vec3, Vec3, seq<PolyRef>) -> Option<Steer>,
    /** The step of fixed length towards the steer target, clamped when the
        target is the end or an off-mesh link and closer than one step. */
    moveTarget: (Vec3, Vec3, bool) -> Vec3,
    moveAlongSurface: (seq<PolyRef>, Vec3, Vec3) -> Move,
    /** The position with its height replaced by the floor of the polygon. */
    polyHeight: (PolyRef, Vec3) -> Vec3,
    /** inRange with the slop and the fixed height tolerance. */
    inRange: (Vec3, Vec3) -> bool,
    /** The entry and exit points of an off-mesh connection, if it resolves. */
    offMeshEndPoints: (PolyRef, PolyRef) -> Option<(Vec3, Vec3)>)

  /** Why a point was appended. The source appends bare positions; the kind
      is the model's record of which statement appended it. */
  datatype Kind =
    | Start
    | Step
    | OffMeshEntry
    /** The point stored right after a resolved off-mesh connection: its
        far end, put on the floor of the corridor's first polygon. */
    | Exit
    | End

  datatype Waypoint = Waypoint(pos: Vec3, kind: Kind)

  function Positions(ws: seq<Waypoint>): (r: seq<Vec3>)
    ensures |r| == |ws|
    ensures forall k :: 0 <= k < |ws| ==> r[k] == ws[k].pos
  {
    seq(|ws|, k requires 0 <= k < |ws| => ws[k].pos)
  }

  /** What crossing an off-mesh connection does to the corridor: the
      entries scanned, the corridor that remains, the two references handed
      to the connection lookup, and the reference left in the first array
      slot (the shift does not run when everything was scanned). */
  datatype Advance = Advance(consumed: nat, rest: seq<PolyRef>, prevRef: PolyRef, polyRef: PolyRef, head: PolyRef)

  /** The scan of the corridor for the steer polygon. It reads the first
      entry twice, so when the steer polygon first occurs at j >= 1 it
      stops after j+1 entries with the pair (polys[j-1], polys[j]); when
      it is the first entry it scans nothing and the previous reference
      stays 0; when it is absent it scans everything. */
  method ScanCorridor(polys: seq<PolyRef>, steerRef: PolyRef) returns (npos: nat, prevRef: PolyRef, polyRef: PolyRef)
    requires |polys| >= 1
    ensures npos <= |polys|
    ensures polys[0] == steerRef ==> npos == 0 && prevRef == 0 && polyRef == steerRef
    ensures forall j :: 1 <= j < |polys| && polys[j] == steerRef && steerRef !in polys[..j] ==>
      npos == j + 1 && prevRef == polys[j - 1] && polyRef == steerRef
    ensures steerRef !in polys ==>
      npos == |polys| && polyRef == polys[|polys| - 1]
      && prevRef == polys[if |polys| >= 2 then |polys| - 2 else 0]
  {
    prevRef := 0;
    polyRef := polys[0];
    npos := 0;
    while npos < |polys| && polyRef != steerRef
      invariant npos <= |polys|
      invariant npos == 0 ==> prevRef == 0 && polyRef == polys[0]
      invariant npos >= 1 ==> polyRef == polys[npos - 1] && prevRef == polys[if npos >= 2 then npos - 2 else 0]
      invariant npos >= 1 ==> polys[0] != steerRef
      invariant forall k :: 0 <= k < npos - 1 ==> polys[k] != steerRef
    {
      prevRef := polyRef;
      polyRef := polys[npos];
      npos := npos + 1;
    }
  }

  /** The shift loop: the entries from `npos` on move, one at a time, to
      the front of the array; the entries behind them keep their old
      values. */
  method ShiftCorridor(polys: seq<PolyRef>, npos: nat) returns (shifted: seq<PolyRef>)
    requires npos <= |polys|
    ensures |shifted| == |polys|
    ensures shifted[..|polys| - npos] == polys[npos..]
    ensures shifted[|polys| - npos..] == polys[|polys| - npos..]
  {
    shifted := polys;
    var i := npos;
    while i < |polys|
      invariant npos <= i <= |polys|
      invariant |shifted| == |polys|
      invariant forall k :: 0 <= k < i - npos ==> shifted[k] == polys[k + npos]
      invariant forall k :: i - npos <= k < |polys| ==> shifted[k] == polys[k]
    {
      shifted := shifted[i - npos := shifted[i]];
      i := i + 1;
    }
  }

  /** Moving the corridor past an off-mesh connection: the scanned entries
      are dropped and the rest becomes the corridor. The first array slot,
      which the re-heighting reads, keeps its old value when nothing is
      left to shift. */
  method AdvanceOverOffMesh(polys: seq<PolyRef>, steerRef: PolyRef) returns (a: Advance)
    requires |polys| >= 1
    ensures a.consumed <= |polys|
    ensures a.rest == polys[a.consumed..]
    ensures polys[0] == steerRef ==> a.consumed == 0 && a.prevRef == 0 && a.polyRef == steerRef
    ensures forall j :: 1 <= j < |polys| && polys[j] == steerRef && steerRef !in polys[..j] ==>
      a.consumed == j + 1 && a.prevRef == polys[j - 1] && a.polyRef == steerRef
    ensures steerRef !in polys ==> a.rest == []
    ensures a.head == if |a.rest| > 0 then a.rest[0] else polys[0]
    ensures a == Advanced(polys, steerRef)
  {
    var npos, prevRef, polyRef := ScanCorridor(polys, steerRef);
    var shifted := ShiftCorridor(polys, npos);
    a := Advance(npos, shifted[..|polys| - npos], prevRef, polyRef, shifted[0]);
    AdvanceIsAdvanced(polys, steerRef, a);
  }

  /** The scan-and-shift answer, described case by case, is the one that
      the first occurrence of the steer polygon determines. */
  lemma AdvanceIsAdvanced(polys: seq<PolyRef>, steerRef: PolyRef, a: Advance)
    requires |polys| >= 1
    requires a.consumed <= |polys| && a.rest == polys[a.consumed..]
    requires polys[0] == steerRef ==> a.consumed == 0 && a.prevRef == 0 && a.polyRef == steerRef
    requires forall j :: 1 <= j < |polys| && polys[j] == steerRef && steerRef !in polys[..j] ==>
      a.consumed == j + 1 && a.prevRef == polys[j - 1] && a.polyRef == steerRef
    requires steerRef !in polys ==>
      a.consumed == |polys| && a.polyRef == polys[|polys| - 1]
      && a.prevRef == polys[if |polys| >= 2 then |polys| - 2 else 0]
    requires a.head == if |a.rest| > 0 then a.rest[0] else polys[0]
    ensures a == Advanced(polys, steerRef)
  {
    if steerRef in polys {
      Slots.FirstOccurrenceExists(polys, steerRef);
      var j :| Slots.IsFirst(polys, steerRef, j);
      if j > 0 {
        assert steerRef !in polys[..j];
      }
    }
  }

  /** The corridor advance stated through the first occurrence of the
      steer polygon, without the scan. */
  ghost function Advanced(polys: seq<PolyRef>, steerRef: PolyRef): Advance
    requires |polys| >= 1
  {
    if steerRef !in polys then
      Advance(|polys|, [], polys[if |polys| >= 2 then |polys| - 2 else 0], polys[|polys| - 1], polys[0])
    else
      Slots.FirstOccurrenceExists(polys, steerRef);
      var j :| Slots.IsFirst(polys, steerRef, j);
      if j == 0 then Advance(0, polys, 0, steerRef, polys[0])
      else Advance(j + 1, polys[j + 1..], polys[j - 1], steerRef, if j + 1 < |polys| then polys[j + 1] else polys[0])
  }

  /** Off-mesh entry points come in runs that restore an even count: an
      entry whose append leaves the count odd (an even index) is always
      followed by its copy, and a copy only ever makes the count even. */
  predicate EntryParity(ws: seq<Waypoint>) {
    && (forall k :: 0 <= k < |ws| && ws[k].kind == OffMeshEntry && k % 2 == 0 ==>
          k + 1 < |ws| && ws[k + 1] == ws[k])
    && (forall k :: 1 <= k < |ws| && ws[k].kind == OffMeshEntry && ws[k - 1].kind == OffMeshEntry ==>
          ws[k - 1] == ws[k] && k % 2 == 1)
  }

  /** Appending a point that is not an off-mesh entry keeps the parity
      discipline. */
  lemma AppendKeepsParity(ws: seq<Waypoint>, w: Waypoint)
    requires EntryParity(ws)
    requires w.kind != OffMeshEntry
    ensures EntryParity(ws + [w])
  {
  }

  /** The off-mesh entry point as findPath appends it: once, and a second
      time when the first copy leaves the count odd. The count is even
      afterwards and the budget still holds, because the budget is even. */
  function AppendEntry(ws: seq<Waypoint>, entry: Vec3): (r: seq<Waypoint>)
    requires 1 <= |ws| < MAX_SMOOTH
    requires EntryParity(ws)
    requires ws[|ws| - 1].kind != OffMeshEntry
    ensures EntryParity(r)
    ensures |r| % 2 == 0
    ensures |ws| < |r| <= MAX_SMOOTH && r[..|ws|] == ws
    ensures forall k :: |ws| <= k < |r| ==> r[k] == Waypoint(entry, OffMeshEntry)
    ensures |r| == |ws| + 2 <==> |ws| % 2 == 0
    ensures r == ws + EntryRun(|ws|, entry)
  {
    var w := Waypoint(entry, OffMeshEntry);
    var once := ws + [w];
    if |once| % 2 == 1 then
      EntryPairKeepsParity(ws, w);
      once + [w]
    else
      EntryCopyKeepsParity(ws, w);
      once
  }

  /** An entry appended at an even index, with its copy behind it. */
  lemma EntryPairKeepsParity(ws: seq<Waypoint>, w: Waypoint)
    requires 1 <= |ws| && |ws| % 2 == 0
    requires EntryParity(ws) && ws[|ws| - 1].kind != OffMeshEntry
    ensures EntryParity(ws + [w] + [w])
  {
    var r := ws + [w] + [w];
    assert forall k :: 0 <= k < |ws| ==> r[k] == ws[k];
  }

  /** An entry appended at an odd index needs no copy. */
  lemma EntryCopyKeepsParity(ws: seq<Waypoint>, w: Waypoint)
    requires 1 <= |ws| && |ws| % 2 == 1
    requires EntryParity(ws) && ws[|ws| - 1].kind != OffMeshEntry
    ensures EntryParity(ws + [w])
  {
    var r := ws + [w];
    assert forall k :: 0 <= k < |ws| ==> r[k] == ws[k];
  }

  /** The entry points a crossing appends when `count` points are already
      stored: one, and a copy when the first one leaves the count odd. */
  function EntryRun(count: nat, entry: Vec3): seq<Waypoint> {
    var w := Waypoint(entry, OffMeshEntry);
    if (count + 1) % 2 == 1 then [w, w] else [w]
  }

  /** The point a pass stores last, when the budget still has room. */
  function IfRoom(count: nat, w: Waypoint): seq<Waypoint> {
    if count < MAX_SMOOTH then [w] else []
  }

  /** Every entry point is followed by its copy or by the exit point of its
      connection, and every exit point comes straight after an entry. */
  predicate Crossings(ws: seq<Waypoint>) {
    && (forall k :: 0 <= k < |ws| - 1 && ws[k].kind == OffMeshEntry ==>
          ws[k + 1].kind == OffMeshEntry || ws[k + 1].kind == Exit)
    && (forall k :: 0 <= k < |ws| && ws[k].kind == Exit ==> 1 <= k && ws[k - 1].kind == OffMeshEntry)
  }

  /** What findPath has appended while the walk goes on: the start point
      first and only there, no end point, the budget respected and the
      off-mesh discipline kept. */
  predicate Walked(ws: seq<Waypoint>, first: Waypoint) {
    && 1 <= |ws| <= MAX_SMOOTH
    && ws[0] == first
    && first.kind == Start
    && (forall k :: 1 <= k < |ws| ==> ws[k].kind != Start)
    && (forall k :: 0 <= k < |ws| ==> ws[k].kind != End)
    && EntryParity(ws)
    && Crossings(ws)
  }

  /** Walked, between two passes: an unfinished budget never ends on an
      entry point. */
  predicate Between(ws: seq<Waypoint>, first: Waypoint) {
    Walked(ws, first) && (|ws| < MAX_SMOOTH ==> ws[|ws| - 1].kind != OffMeshEntry)
  }

  /** What findPath has appended when it returns: as while walking, except
      that an end point may close the sequence. */
  predicate Finished(ws: seq<Waypoint>, first: Waypoint, endPos: Vec3) {
    && 1 <= |ws| <= MAX_SMOOTH
    && ws[0] == first
    && (forall k :: 1 <= k < |ws| ==> ws[k].kind != Start)
    && (forall k :: 0 <= k < |ws| && ws[k].kind == End ==> k == |ws| - 1 && ws[k].pos == endPos)
    && EntryParity(ws)
    && Crossings(ws)
  }

  /** The point stored at the end of a pass: a step, or the exit point
      after the entry points of a crossing. */
  function AppendPoint(ws: seq<Waypoint>, first: Waypoint, p: Vec3, kind: Kind): (r: seq<Waypoint>)
    requires Walked(ws, first)
    requires kind == Step || kind == Exit
    requires kind == Step && |ws| < MAX_SMOOTH ==> ws[|ws| - 1].kind != OffMeshEntry
    requires kind == Exit && |ws| < MAX_SMOOTH ==> ws[|ws| - 1].kind == OffMeshEntry
    ensures Between(r, first)
    ensures r == ws + IfRoom(|ws|, Waypoint(p, kind))
  {
    if |ws| < MAX_SMOOTH then
      AppendKeepsParity(ws, Waypoint(p, kind));
      ws + [Waypoint(p, kind)]
    else ws
  }

  /** The entry point of a crossed connection keeps the walk well formed. */
  lemma AppendEntryWalked(ws: seq<Waypoint>, first: Waypoint, entry: Vec3)
    requires Between(ws, first) && |ws| < MAX_SMOOTH
    ensures Walked(AppendEntry(ws, entry), first)
    ensures AppendEntry(ws, entry)[|AppendEntry(ws, entry)| - 1].kind == OffMeshEntry
  {
    var r := AppendEntry(ws, entry);
    assert forall k :: 0 <= k < |ws| ==> r[k] == ws[k] by {
      forall k | 0 <= k < |ws| ensures r[k] == ws[k] {
        assert r[..|ws|][k] == r[k];
      }
    }
  }

  /** A walk that stops without a point is finished. */
  lemma BetweenFinished(ws: seq<Waypoint>, first: Waypoint, endPos: Vec3)
    requires Between(ws, first)
    ensures Finished(ws, first, endPos)
  {
  }

  /** The end point closes the walk: it is the last point and the only one
      of its kind. */
  lemma AppendEndFinishes(ws: seq<Waypoint>, first: Waypoint, p: Vec3)
    requires Between(ws, first) && |ws| < MAX_SMOOTH
    ensures Finished(ws + [Waypoint(p, End)], first, p)
  {
    AppendKeepsParity(ws, Waypoint(p, End));
  }

  /** Where the walk stands between two passes: the corridor left and the
      current position. */
  datatype WalkState = WalkState(polys: seq<PolyRef>, pos: Vec3)

  /** One pass of the walk: the points it stores, where it leaves the walk,
      and whether the walk stops after it. */
  datatype Pass = Pass(points: seq<Waypoint>, next: WalkState, stops: bool)

  /** The surface move of one pass towards the steer target. */
  function Moved(d: Detour, st: WalkState, s: Steer): Move {
    d.moveAlongSurface(st.polys, st.pos, d.moveTarget(st.pos, s.pos, s.endOfPath || s.offMeshConnection))
  }

  /** The position after the move, put on the floor of the corridor's
      first polygon. */
  function Settled(d: Detour, st: WalkState, s: Steer): Vec3 {
    var moved := Moved(d, st, s);
    d.polyHeight(moved.corridor[0], moved.pos)
  }

  /** One pass of the walk towards `target` when `count` points are
      already stored. No steer target stops the walk with nothing stored;
      otherwise the walk moves towards the steer target. */
  ghost function PassOf(d: Detour, target: Vec3, st: WalkState, count: nat): (p: Pass)
    requires |st.polys| >= 1 && count < MAX_SMOOTH
    ensures count + |p.points| <= MAX_SMOOTH
    ensures !p.stops ==> |p.points| >= 1
  {
    match d.steerTarget(st.pos, target, st.polys)
    case None => Pass([], st, true)
    case Some(s) => SteerPass(d, target, st, count, s)
  }

  /** The pass after a steer target was found: reaching the end stores the
      target and stops; reaching an off-mesh connection crosses it;
      otherwise the settled position is stored. */
  ghost function SteerPass(d: Detour, target: Vec3, st: WalkState, count: nat, s: Steer): (p: Pass)
    requires |st.polys| >= 1 && count < MAX_SMOOTH
    ensures count + |p.points| <= MAX_SMOOTH
    ensures !p.stops ==> |p.points| >= 1
  {
    var moved := Moved(d, st, s);
    var pos := Settled(d, st, s);
    if s.endOfPath && d.inRange(pos, s.pos) then
      Pass([Waypoint(target, End)], WalkState(moved.corridor, target), true)
    else if s.offMeshConnection && d.inRange(pos, s.pos) then
      CrossPass(d, Advanced(moved.corridor, s.ref), pos, count)
    else Pass([Waypoint(pos, Step)], WalkState(moved.corridor, pos), false)
  }

  /** The pass that reaches an off-mesh connection, once the corridor has
      been advanced past it: a connection whose end points resolve stores
      its entry run and then its far end; one that does not resolve stores
      the settled position. */
  function CrossPass(d: Detour, adv: Advance, pos: Vec3, count: nat): (p: Pass)
    requires count < MAX_SMOOTH
    ensures count + |p.points| <= MAX_SMOOTH
    ensures !p.stops ==> |p.points| >= 1
  {
    match d.offMeshEndPoints(adv.prevRef, adv.polyRef)
    case None => Pass([Waypoint(pos, Step)], WalkState(adv.rest, pos), false)
    case Some((entry, exit)) =>
      var entries := EntryRun(count, entry);
      var far := d.polyHeight(adv.head, exit);
      Pass(entries + IfRoom(count + |entries|, Waypoint(far, Exit)), WalkState(adv.rest, far), false)
  }

  /** The passes of the walk from `st` until it stops, the corridor is used
      up or the budget is spent. */
  ghost function Walk(d: Detour, target: Vec3, st: WalkState, count: nat): (r: seq<Waypoint>)
    requires count <= MAX_SMOOTH
    ensures count + |r| <= MAX_SMOOTH
    decreases MAX_SMOOTH - count
  {
    if |st.polys| == 0 || count >= MAX_SMOOTH then []
    else
      var p := PassOf(d, target, st, count);
      if p.stops then p.points else p.points + Walk(d, target, p.next, count + |p.points|)
  }

  /** The start point, snapped onto the polygon found for `start`. */
  function SnappedStart(d: Detour, start: Vec3): Vec3 {
    d.closestPointOnPoly(d.nearestPoly(start), start)
  }

  /** The corridor the polygon search returns for this query. */
  function CorridorFor(d: Detour, start: Vec3, end: Vec3): Corridor {
    d.findCorridor(d.nearestPoly(start), d.nearestPoly(end), start, end)
  }

  /** The end point, snapped onto the last polygon of the corridor. */
  function SnappedEnd(d: Detour, start: Vec3, end: Vec3): Vec3
    requires |CorridorFor(d, start, end)| > 0
  {
    var polys := CorridorFor(d, start, end);
    d.closestPointOnPoly(polys[|polys| - 1], end)
  }

  lemma ConcatAssoc<T>(a: seq<T>, b: seq<T>, c: seq<T>)
    ensures a + (b + c) == (a + b) + c
  {
  }

  /** The walk is its first pass followed by the rest of the walk. */
  lemma WalkUnfold(d: Detour, target: Vec3, st: WalkState, count: nat, p: Pass, after: nat)
    requires |st.polys| >= 1 && count < MAX_SMOOTH && p == PassOf(d, target, st, count)
    requires after == count + |p.points|
    ensures p.stops ==> Walk(d, target, st, count) == p.points
    ensures !p.stops ==> after <= MAX_SMOOTH
    ensures !p.stops ==> Walk(d, target, st, count) == p.points + Walk(d, target, p.next, after)
  {
  }

  /** The points findPath appends: none for an empty corridor, otherwise
      the snapped start and then the walk towards the snapped end. */
  ghost function Path(d: Detour, start: Vec3, end: Vec3): seq<Waypoint> {
    var polys := CorridorFor(d, start, end);
    if |polys| == 0 then []
    else
      [Waypoint(SnappedStart(d, start), Start)]
      + Walk(d, SnappedEnd(d, start, end), WalkState(polys, SnappedStart(d, start)), 1)
  }

  /** The shape of what is stored is kept by every pass: a pass that stops
      leaves the walk finished, any other leaves it ready for the next. */
  lemma PassKeepsShape(d: Detour, target: Vec3, st: WalkState, ws: seq<Waypoint>, first: Waypoint)
    requires |st.polys| >= 1 && |ws| < MAX_SMOOTH
    requires Between(ws, first)
    ensures var p := PassOf(d, target, st, |ws|);
      && (p.stops ==> Finished(ws + p.points, first, target))
      && (!p.stops ==> Between(ws + p.points, first))
  {
    match d.steerTarget(st.pos, target, st.polys)
    case None =>
      BetweenFinished(ws, first, target);
      assert ws + [] == ws;
    case Some(s) =>
      var moved := Moved(d, st, s);
      var pos := Settled(d, st, s);
      if s.endOfPath && d.inRange(pos, s.pos) {
        AppendEndFinishes(ws, first, target);
      } else if s.offMeshConnection && d.inRange(pos, s.pos) {
        CrossKeepsShape(d, Advanced(moved.corridor, s.ref), pos, ws, first);
      } else {
        assert AppendPoint(ws, first, pos, Step) == ws + [Waypoint(pos, Step)];
      }
  }

  /** A crossing never stops the walk and leaves it ready for the next pass. */
  lemma CrossKeepsShape(d: Detour, adv: Advance, pos: Vec3, ws: seq<Waypoint>, first: Waypoint)
    requires |ws| < MAX_SMOOTH && Between(ws, first)
    ensures var p := CrossPass(d, adv, pos, |ws|);
      !p.stops && Between(ws + p.points, first)
  {
    match d.offMeshEndPoints(adv.prevRef, adv.polyRef)
    case None =>
      assert AppendPoint(ws, first, pos, Step) == ws + [Waypoint(pos, Step)];
    case Some((entry, exit)) =>
      EntryRunKeepsShape(ws, first, entry, d.polyHeight(adv.head, exit));
  }

  /** Storing an entry run and then the exit point, budget permitting,
      leaves the walk ready for the next pass. */
  lemma EntryRunKeepsShape(ws: seq<Waypoint>, first: Waypoint, entry: Vec3, far: Vec3)
    requires |ws| < MAX_SMOOTH && Between(ws, first)
    ensures Between(ws + (EntryRun(|ws|, entry) + IfRoom(|ws| + |EntryRun(|ws|, entry)|, Waypoint(far, Exit))), first)
  {
    AppendEntryWalked(ws, first, entry);
    var entered := AppendEntry(ws, entry);
    assert AppendPoint(entered, first, far, Exit) == ws + (EntryRun(|ws|, entry) + IfRoom(|entered|, Waypoint(far, Exit)));
  }

  /** Whatever the oracles answer, the walk leaves what is stored finished. */
  lemma {:induction false} WalkKeepsShape(d: Detour, target: Vec3, st: WalkState, ws: seq<Waypoint>, first: Waypoint)
    requires |ws| <= MAX_SMOOTH && Between(ws, first)
    ensures Finished(ws + Walk(d, target, st, |ws|), first, target)
    decreases MAX_SMOOTH - |ws|
  {
    if |st.polys| == 0 || |ws| >= MAX_SMOOTH {
      BetweenFinished(ws, first, target);
      assert ws + [] == ws;
    } else {
      var p := PassOf(d, target, st, |ws|);
      var stored := ws + p.points;
      WalkUnfold(d, target, st, |ws|, p, |stored|);
      PassKeepsShape(d, target, st, ws, first);
      if !p.stops {
        WalkKeepsShape(d, target, p.next, stored, first);
        ConcatAssoc(ws, p.points, Walk(d, target, p.next, |stored|));
      }
    }
  }

  /** The points of a path: the snapped start first and only there, at most
      2048 of them, an end point only last and at the snapped end, and the
      off-mesh discipline kept. */
  lemma PathShape(d: Detour, start: Vec3, end: Vec3)
    requires |CorridorFor(d, start, end)| > 0
    ensures Finished(Path(d, start, end), Waypoint(SnappedStart(d, start), Start), SnappedEnd(d, start, end))
  {
    var first := Waypoint(SnappedStart(d, start), Start);
    WalkKeepsShape(d, SnappedEnd(d, start, end), WalkState(CorridorFor(d, start, end), SnappedStart(d, start)), [first], first);
  }

  /** Without a steer target the walk stores nothing more and stops. */
  lemma WalkStopsWithoutSteerTarget(d: Detour, target: Vec3, st: WalkState, count: nat)
    requires |st.polys| >= 1 && count < MAX_SMOOTH
    requires d.steerTarget(st.pos, target, st.polys).None?
    ensures Walk(d, target, st, count) == []
  {
    WalkUnfold(d, target, st, count, PassOf(d, target, st, count), count);
  }

  /** A pass that reaches the end of the path stores the target itself,
      marked as the end, and nothing follows it. */
  lemma WalkStopsAtEnd(d: Detour, target: Vec3, st: WalkState, count: nat, s: Steer)
    requires |st.polys| >= 1 && count < MAX_SMOOTH
    requires d.steerTarget(st.pos, target, st.polys) == Some(s)
    requires s.endOfPath && d.inRange(Settled(d, st, s), s.pos)
    ensures Walk(d, target, st, count) == [Waypoint(target, End)]
  {
    WalkUnfold(d, target, st, count, PassOf(d, target, st, count), count + 1);
  }

  /** A pass that reaches neither the end nor an off-mesh connection stores
      the settled position and walks on from there along the fixed-up
      corridor. */
  lemma WalkSteps(d: Detour, target: Vec3, st: WalkState, count: nat, s: Steer)
    requires |st.polys| >= 1 && count < MAX_SMOOTH
    requires d.steerTarget(st.pos, target, st.polys) == Some(s)
    requires !(s.endOfPath && d.inRange(Settled(d, st, s), s.pos))
    requires !(s.offMeshConnection && d.inRange(Settled(d, st, s), s.pos))
    ensures Walk(d, target, st, count)
      == [Waypoint(Settled(d, st, s), Step)] + Walk(d, target, WalkState(Moved(d, st, s).corridor, Settled(d, st, s)), count + 1)
  {
    WalkUnfold(d, target, st, count, PassOf(d, target, st, count), count + 1);
  }

  /** A pass that reaches an off-mesh connection whose end points resolve
      stores the entry point (twice when the count so far is even), then
      the exit point on the floor of the first polygon left after the
      crossing, and walks on from the exit along the rest of the corridor. */
  lemma WalkCrosses(d: Detour, target: Vec3, st: WalkState, count: nat, s: Steer, entry: Vec3, exit: Vec3)
    requires |st.polys| >= 1 && count < MAX_SMOOTH
    requires d.steerTarget(st.pos, target, st.polys) == Some(s)
    requires !(s.endOfPath && d.inRange(Settled(d, st, s), s.pos))
    requires s.offMeshConnection && d.inRange(Settled(d, st, s), s.pos)
    requires var adv := Advanced(Moved(d, st, s).corridor, s.ref);
      d.offMeshEndPoints(adv.prevRef, adv.polyRef) == Some((entry, exit))
    ensures var adv := Advanced(Moved(d, st, s).corridor, s.ref);
      var far := d.polyHeight(adv.head, exit);
      var run := EntryRun(count, entry) + IfRoom(count + |EntryRun(count, entry)|, Waypoint(far, Exit));
      && count + |run| <= MAX_SMOOTH
      && Walk(d, target, st, count) == run + Walk(d, target, WalkState(adv.rest, far), count + |run|)
  {
    var adv := Advanced(Moved(d, st, s).corridor, s.ref);
    var p := PassOf(d, target, st, count);
    assert p == CrossPass(d, adv, Settled(d, st, s), count);
    var far := d.polyHeight(adv.head, exit);
    var run := EntryRun(count, entry) + IfRoom(count + |EntryRun(count, entry)|, Waypoint(far, Exit));
    assert p == Pass(run, WalkState(adv.rest, far), false);
    WalkUnfold(d, target, st, count, p, count + |run|);
  }

  /** A pass that reaches an off-mesh connection whose end points do not
      resolve stores the settled position and walks on along the rest of
      the corridor. */
  lemma WalkSkipsUnresolvedLink(d: Detour, target: Vec3, st: WalkState, count: nat, s: Steer)
    requires |st.polys| >= 1 && count < MAX_SMOOTH
    requires d.steerTarget(st.pos, target, st.polys) == Some(s)
    requires !(s.endOfPath && d.inRange(Settled(d, st, s), s.pos))
    requires s.offMeshConnection && d.inRange(Settled(d, st, s), s.pos)
    requires var adv := Advanced(Moved(d, st, s).corridor, s.ref);
      d.offMeshEndPoints(adv.prevRef, adv.polyRef).None?
    ensures Walk(d, target, st, count)
      == [Waypoint(Settled(d, st, s), Step)]
         + Walk(d, target, WalkState(Advanced(Moved(d, st, s).corridor, s.ref).rest, Settled(d, st, s)), count + 1)
  {
    WalkUnfold(d, target, st, count, PassOf(d, target, st, count), count + 1);
  }

  /** The state the walk of findPath starts from: the corridor and the
      snapped start. */
  function Origin(d: Detour, start: Vec3, end: Vec3): WalkState {
    WalkState(CorridorFor(d, start, end), SnappedStart(d, start))
  }

  /** With no steer target from the start, findPath stores the snapped
      start alone. */
  lemma PathWithoutSteerTarget(d: Detour, start: Vec3, end: Vec3)
    requires |CorridorFor(d, start, end)| > 0
    requires d.steerTarget(SnappedStart(d, start), SnappedEnd(d, start, end), CorridorFor(d, start, end)).None?
    ensures Path(d, start, end) == [Waypoint(SnappedStart(d, start), Start)]
  {
    WalkStopsWithoutSteerTarget(d, SnappedEnd(d, start, end), Origin(d, start, end), 1);
  }

  /** When the first pass already reaches the end, findPath stores the
      snapped start and the snapped end, and nothing else. */
  lemma PathEndsOnFirstPass(d: Detour, start: Vec3, end: Vec3, s: Steer)
    requires |CorridorFor(d, start, end)| > 0
    requires d.steerTarget(SnappedStart(d, start), SnappedEnd(d, start, end), CorridorFor(d, start, end)) == Some(s)
    requires s.endOfPath && d.inRange(Settled(d, Origin(d, start, end), s), s.pos)
    ensures Path(d, start, end)
      == [Waypoint(SnappedStart(d, start), Start), Waypoint(SnappedEnd(d, start, end), End)]
  {
    WalkStopsAtEnd(d, SnappedEnd(d, start, end), Origin(d, start, end), 1, s);
  }

  /** One pass of the loop of findPath: it stores the first pass of the
      walk, so that the walk from where it leaves off completes it. */
  method WalkPass(d: Detour, targetPos: Vec3, polys: seq<PolyRef>, iterPos: Vec3, emitted: seq<Waypoint>)
    returns (nextPolys: seq<PolyRef>, nextPos: Vec3, stored: seq<Waypoint>, stop: bool)
    requires |polys| >= 1 && |emitted| < MAX_SMOOTH
    ensures stop ==> stored == emitted + Walk(d, targetPos, WalkState(polys, iterPos), |emitted|)
    ensures !stop ==> |emitted| < |stored| <= MAX_SMOOTH
    ensures !stop ==>
      stored + Walk(d, targetPos, WalkState(nextPolys, nextPos), |stored|)
      == emitted + Walk(d, targetPos, WalkState(polys, iterPos), |emitted|)
  {
    var steer := d.steerTarget(iterPos, targetPos, polys);
    if steer.None? {
      nextPolys, nextPos, stored, stop := polys, iterPos, emitted, true;
      assert emitted + [] == emitted;
    } else {
      nextPolys, nextPos, stored, stop := SteerStep(d, targetPos, polys, iterPos, emitted, steer.value);
    }
    PassThenWalk(d, targetPos, WalkState(polys, iterPos), emitted, stored, WalkState(nextPolys, nextPos), stop);
  }

  /** Storing the first pass and then walking on is the whole walk. */
  lemma PassThenWalk(d: Detour, target: Vec3, st: WalkState, ws: seq<Waypoint>, stored: seq<Waypoint>, next: WalkState, stop: bool)
    requires |st.polys| >= 1 && |ws| < MAX_SMOOTH
    requires var p := PassOf(d, target, st, |ws|);
      stored == ws + p.points && next == p.next && stop == p.stops
    ensures stop ==> stored == ws + Walk(d, target, st, |ws|)
    ensures !stop ==> |ws| < |stored| <= MAX_SMOOTH
    ensures !stop ==> stored + Walk(d, target, next, |stored|) == ws + Walk(d, target, st, |ws|)
  {
    var p := PassOf(d, target, st, |ws|);
    WalkUnfold(d, target, st, |ws|, p, |stored|);
    if !stop {
      ConcatAssoc(ws, p.points, Walk(d, target, next, |stored|));
    }
  }

  /** The pass once a steer target is known: move, then handle the end of
      the path or an off-mesh connection when close enough, or store the
      position reached. */
  method SteerStep(d: Detour, targetPos: Vec3, polys: seq<PolyRef>, iterPos: Vec3, emitted: seq<Waypoint>, s: Steer)
    returns (nextPolys: seq<PolyRef>, nextPos: Vec3, stored: seq<Waypoint>, stop: bool)
    requires |polys| >= 1 && |emitted| < MAX_SMOOTH
    ensures var p := SteerPass(d, targetPos, WalkState(polys, iterPos), |emitted|, s);
      stored == emitted + p.points && WalkState(nextPolys, nextPos) == p.next && stop == p.stops
  {
    var moveTgt := d.moveTarget(iterPos, s.pos, s.endOfPath || s.offMeshConnection);
    var moved := d.moveAlongSurface(polys, iterPos, moveTgt);
    nextPolys := moved.corridor;
    nextPos := d.polyHeight(nextPolys[0], moved.pos);
    stored := emitted;
    stop := false;

    if s.endOfPath && d.inRange(nextPos, s.pos) {
      // Reached the end: store the snapped end point and stop.
      nextPos := targetPos;
      if |stored| < MAX_SMOOTH {
        stored := stored + [Waypoint(nextPos, End)];
      }
      stop := true;
    } else if s.offMeshConnection && d.inRange(nextPos, s.pos) {
      var adv := AdvanceOverOffMesh(nextPolys, s.ref);
      nextPolys, nextPos, stored := CrossStep(d, adv, nextPos, stored);
    } else if |stored| < MAX_SMOOTH {
      stored := stored + [Waypoint(nextPos, Step)];
    }
  }

  /** The pass that reached an off-mesh connection, after the corridor has
      been advanced past it: look the connection up, store its entry point
      (twice when the count would be odd) and jump to its far end, then
      store the position. */
  method CrossStep(d: Detour, adv: Advance, pos: Vec3, emitted: seq<Waypoint>)
    returns (nextPolys: seq<PolyRef>, nextPos: Vec3, stored: seq<Waypoint>)
    requires |emitted| < MAX_SMOOTH
    ensures var p := CrossPass(d, adv, pos, |emitted|);
      stored == emitted + p.points && WalkState(nextPolys, nextPos) == p.next
  {
    nextPolys := adv.rest;
    nextPos := pos;
    stored := emitted;
    var kind := Step;
    var ends := d.offMeshEndPoints(adv.prevRef, adv.polyRef);
    if ends.Some? {
      var (entry, exit) := ends.value;
      if |stored| < MAX_SMOOTH {
        stored := stored + [Waypoint(entry, OffMeshEntry)];
        if |stored| % 2 == 1 {
          // The copy that keeps the dotted path invisible across the link.
          stored := stored + [Waypoint(entry, OffMeshEntry)];
        }
      }
      assert stored == emitted + EntryRun(|emitted|, entry);
      nextPos := d.polyHeight(adv.head, exit);
      kind := Exit;
    }
    if |stored| < MAX_SMOOTH {
      stored := stored + [Waypoint(nextPos, kind)];
    }
  }

  /** The loop of findPath: passes run while the corridor is not empty, the
      budget has room and no pass stopped; together they store the walk. */
  method WalkLoop(d: Detour, targetPos: Vec3, polys: seq<PolyRef>, iterPos: Vec3, emitted: seq<Waypoint>)
    returns (stored: seq<Waypoint>)
    requires 1 <= |emitted| <= MAX_SMOOTH
    ensures stored == emitted + Walk(d, targetPos, WalkState(polys, iterPos), |emitted|)
  {
    var ps, pos, done := polys, iterPos, false;
    stored := emitted;
    ghost var path := emitted + Walk(d, targetPos, WalkState(polys, iterPos), |emitted|);
    while !done && |ps| > 0 && |stored| < MAX_SMOOTH
      invariant 1 <= |stored| <= MAX_SMOOTH
      invariant done ==> stored == path
      invariant !done ==> stored + Walk(d, targetPos, WalkState(ps, pos), |stored|) == path
      decreases MAX_SMOOTH - |stored|, if done then 0 else 1
    {
      ps, pos, stored, done := WalkPass(d, targetPos, ps, pos, stored);
    }
    if !done {
      assert stored + [] == stored;
    }
  }

  /** NavMesh::findPath. Points are appended to `pathPoints`, never cleared;
      `emitted` is what this call appended, with the reason for each. */
  method FindPath(d: Detour, start: Vec3, end: Vec3, pathPoints: seq<Vec3>)
    returns (out: seq<Vec3>, emitted: seq<Waypoint>)
    ensures out == pathPoints + Positions(emitted)
    ensures emitted == Path(d, start, end)
    ensures emitted == [] <==> |CorridorFor(d, start, end)| == 0
    ensures emitted != [] ==> emitted[0] == Waypoint(SnappedStart(d, start), Start)
    ensures emitted != [] ==> Finished(emitted, Waypoint(SnappedStart(d, start), Start), SnappedEnd(d, start, end))
  {
    var startRef := d.nearestPoly(start);
    var endRef := d.nearestPoly(end);
    var polys: seq<PolyRef> := d.findCorridor(startRef, endRef, start, end);
    emitted := [];
    if |polys| > 0 {
      var iterPos := d.closestPointOnPoly(startRef, start);
      var targetPos := d.closestPointOnPoly(polys[|polys| - 1], end);
      emitted := WalkLoop(d, targetPos, polys, iterPos, [Waypoint(iterPos, Start)]);
      PathShape(d, start, end);
    }
    out := pathPoints + Positions(emitted);
  }

  /** After any off-mesh emission, the number of points this call has
      appended is even. */
  lemma EntryRunsEndEven(ws: seq<Waypoint>, k: nat)
    requires EntryParity(ws)
    requires k < |ws| && ws[k].kind == OffMeshEntry
    requires k + 1 == |ws| || ws[k + 1].kind != OffMeshEntry
    ensures (k + 1) % 2 == 0
  {
  }
}
