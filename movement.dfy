/**
 * The movement and velocity-propagation algorithm of the snake, stated on
 * values. A body is a sequence of parts, head first; the marker store is the
 * grid's sequence of velocity markers.
 *
 * The invariant `Coherent` is what makes the body move "connected as one":
 * every non-head part sits one orthogonal step behind its predecessor and
 * points at it, and the velocity a part will hold after its next move is the
 * velocity its predecessor holds now.
 */
module Movement {
  import opened Options
  import opened Grids

  datatype BodyPart = BodyPart(col: int, row: int, velocityX: int, velocityY: int)

  /** The keys the snake reacts to; every other key code is `Other`. */
  datatype Key = Up | Left | Down | Right | Space | Other

  /** The key a key code stands for: W, A, S, D and the arrow keys are directions, Space restarts. */
  function KeyOf(code: string): (k: Key)
    ensures k.Up? <==> code == "KeyW" || code == "ArrowUp"
    ensures k.Left? <==> code == "KeyA" || code == "ArrowLeft"
    ensures k.Down? <==> code == "KeyS" || code == "ArrowDown"
    ensures k.Right? <==> code == "KeyD" || code == "ArrowRight"
    ensures k.Space? <==> code == "Space"
  {
    if code == "KeyW" || code == "ArrowUp" then Up
    else if code == "KeyA" || code == "ArrowLeft" then Left
    else if code == "KeyS" || code == "ArrowDown" then Down
    else if code == "KeyD" || code == "ArrowRight" then Right
    else if code == "Space" then Space
    else Other
  }

  predicate IsDirection(key: Key) {
    key.Up? || key.Left? || key.Down? || key.Right?
  }

  /** One step along an axis. */
  predicate IsUnit(v: (int, int)) {
    (v.0 == 0 && (v.1 == 1 || v.1 == -1)) || (v.1 == 0 && (v.0 == 1 || v.0 == -1))
  }

  /** A velocity a head may hold: a unit step, or standing still before the first key. */
  predicate IsStep(v: (int, int)) {
    IsUnit(v) || v == (0, 0)
  }

  function Pos(p: BodyPart): (int, int) {
    (p.col, p.row)
  }

  function Vel(p: BodyPart): (int, int) {
    (p.velocityX, p.velocityY)
  }

  function Positions(parts: seq<BodyPart>): set<(int, int)> {
    set p | p in parts :: Pos(p)
  }

  /** A marker holding a copy of a part's coordinate and velocity. */
  function Clone(p: BodyPart): CellVelocity {
    CellVelocity(p.col, p.row, p.velocityX, p.velocityY)
  }

  /** The part after moving one tick by its own velocity. */
  function Moved(p: BodyPart): BodyPart {
    p.(col := p.col + p.velocityX, row := p.row + p.velocityY)
  }

  /** The part after taking the velocity of the marker at its cell, if there is one. */
  function Adopted(p: BodyPart, markers: seq<CellVelocity>): BodyPart {
    match Find(markers, p.col, p.row)
    case Some(m) => p.(velocityX := m.velocityX, velocityY := m.velocityY)
    case None => p
  }

  // ---------------------------------------------------------------- invariant

  /** `p` is one unit step behind `q` and its velocity points at `q`. */
  predicate Follows(p: BodyPart, q: BodyPart) {
    IsUnit(Vel(p)) && p.col + p.velocityX == q.col && p.row + p.velocityY == q.row
  }

  predicate Connected(parts: seq<BodyPart>) {
    forall i :: 1 <= i < |parts| ==> Follows(parts[i], parts[i - 1])
  }

  predicate Distinct(parts: seq<BodyPart>) {
    forall i, j :: 0 <= i < j < |parts| ==> Pos(parts[i]) != Pos(parts[j])
  }

  /** The velocity each non-head part will hold after its next move is its predecessor's. */
  predicate Pending(parts: seq<BodyPart>, markers: seq<CellVelocity>) {
    forall i :: 1 <= i < |parts| ==> Vel(Adopted(Moved(parts[i]), markers)) == Vel(parts[i - 1])
  }

  /** Markers lie only under parts other than the tail: the tail removes what it passes. */
  predicate MarkersOnBody(parts: seq<BodyPart>, markers: seq<CellVelocity>)
    requires |parts| >= 1
  {
    forall k :: 0 <= k < |markers| ==> (markers[k].col, markers[k].row) in Positions(parts[..|parts| - 1])
  }

  predicate Coherent(parts: seq<BodyPart>, markers: seq<CellVelocity>) {
    |parts| >= 1 &&
    IsStep(Vel(parts[0])) &&
    Connected(parts) &&
    Distinct(parts) &&
    UniqueCoords(markers) &&
    Pending(parts, markers) &&
    MarkersOnBody(parts, markers)
  }

  // ---------------------------------------------------------------- one tick

  /** The cell the head moves into. */
  function Target(parts: seq<BodyPart>): (int, int)
    requires |parts| >= 1
  {
    Pos(Moved(parts[0]))
  }

  /** Part `i` after its turn in the head-to-tail pass: moved, and unless it is the head, adopted. */
  function Advanced(parts: seq<BodyPart>, markers: seq<CellVelocity>, i: int): BodyPart
    requires 0 <= i < |parts|
  {
    if i == 0 then Moved(parts[0]) else Adopted(Moved(parts[i]), markers)
  }

  lemma AdvancedPos(parts: seq<BodyPart>, markers: seq<CellVelocity>, i: int)
    requires 0 <= i < |parts|
    ensures Pos(Advanced(parts, markers, i)) == Pos(Moved(parts[i]))
  {
  }

  /** The body after the pass. */
  function MovedParts(parts: seq<BodyPart>, markers: seq<CellVelocity>): seq<BodyPart> {
    seq(|parts|, i requires 0 <= i < |parts| => Advanced(parts, markers, i))
  }

  /** The markers after the pass: a tail that is not the head and lands on a marker removes it. */
  function MovedMarkers(parts: seq<BodyPart>, markers: seq<CellVelocity>): seq<CellVelocity>
    requires |parts| >= 1
  {
    var t := Moved(parts[|parts| - 1]);
    if |parts| > 1 && Find(markers, t.col, t.row).Some? then Without(markers, t.col, t.row) else markers
  }

  /**
   * What the pass does to any body: every part moves by the velocity it held
   * before the pass (a still part stays put), the head keeps its velocity,
   * every other part takes the velocity of a marker on its new cell and keeps
   * its own otherwise, and only the marker under the tail's new cell is removed,
   * and only when the tail is not the head.
   */
  lemma PassEffect(parts: seq<BodyPart>, markers: seq<CellVelocity>)
    requires |parts| >= 1
    ensures var q := MovedParts(parts, markers);
      |q| == |parts| &&
      (forall i :: 0 <= i < |parts| ==>
        q[i].col == parts[i].col + parts[i].velocityX && q[i].row == parts[i].row + parts[i].velocityY) &&
      (forall i :: 0 <= i < |parts| && Vel(parts[i]) == (0, 0) ==> Pos(q[i]) == Pos(parts[i])) &&
      Vel(q[0]) == Vel(parts[0]) &&
      (forall i :: 1 <= i < |parts| ==>
        match Find(markers, q[i].col, q[i].row)
        case Some(m) => Vel(q[i]) == (m.velocityX, m.velocityY)
        case None => Vel(q[i]) == Vel(parts[i]))
    ensures var m := MovedMarkers(parts, markers);
      var t := Moved(parts[|parts| - 1]);
      (|parts| == 1 ==> m == markers) &&
      (|parts| > 1 ==> Find(m, t.col, t.row).None?) &&
      (forall c, w :: (c, w) != (t.col, t.row) ==> Find(m, c, w) == Find(markers, c, w)) &&
      (forall v :: v in m ==> v in markers) &&
      (UniqueCoords(markers) ==> UniqueCoords(m))
    ensures var q := MovedParts(parts, markers);
      Ready(parts, markers) ==>
        q[0] == Moved(parts[0]) &&
        forall i :: 1 <= i < |parts| ==> Pos(q[i]) == Pos(parts[i - 1]) && Vel(q[i]) == Vel(parts[i - 1])
  {
    var q := MovedParts(parts, markers);
    if Ready(parts, markers) {
      forall i | 1 <= i < |parts| ensures Pos(q[i]) == Pos(parts[i - 1]) && Vel(q[i]) == Vel(parts[i - 1]) {
        AdvancedPos(parts, markers, i);
      }
    }
  }

  /** The body after eating: a still part appended on the tail's cell. */
  function Grown(parts: seq<BodyPart>): (r: seq<BodyPart>)
    requires |parts| >= 1
    ensures |r| == |parts| + 1
    ensures Positions(r) == Positions(parts)
  {
    var tail := parts[|parts| - 1];
    var r := parts + [BodyPart(tail.col, tail.row, 0, 0)];
    PositionsAppend(parts, r[|parts|]);
    InPositions(parts, |parts| - 1);
    r
  }

  /** The markers after eating: the tail's velocity is stamped on the tail's cell. */
  function GrownMarkers(parts: seq<BodyPart>, markers: seq<CellVelocity>): (r: seq<CellVelocity>)
    requires |parts| >= 1
    ensures Find(r, parts[|parts| - 1].col, parts[|parts| - 1].row) == Some(Clone(parts[|parts| - 1]))
    ensures forall v :: v in r ==> v in markers || v == Clone(parts[|parts| - 1])
    ensures UniqueCoords(markers) ==> UniqueCoords(r)
  {
    Upsert(markers, Clone(parts[|parts| - 1]))
  }

  /** No part is cleared from a cell an earlier part of the same pass has just entered. */
  predicate NoClobber(parts: seq<BodyPart>) {
    forall k, j :: 0 <= k < j < |parts| ==> Pos(Moved(parts[k])) != Pos(parts[j])
  }

  // ---------------------------------------------------------------- turning

  /** The head velocity after `key`: a direction key gives its unit vector, any other key keeps `v`. */
  function Requested(key: Key, v: (int, int)): (r: (int, int))
    ensures IsDirection(key) ==> IsUnit(r)
    ensures !IsDirection(key) ==> r == v
    ensures key.Up? ==> r == (0, 1)
    ensures key.Left? ==> r == (-1, 0)
    ensures key.Down? ==> r == (0, -1)
    ensures key.Right? ==> r == (1, 0)
  {
    match key
    case Up => (0, 1)
    case Left => (-1, 0)
    case Down => (0, -1)
    case Right => (1, 0)
    case _ => v
  }

  /** Whether `key` changes the head's velocity. */
  predicate Changes(parts: seq<BodyPart>, key: Key)
    requires |parts| >= 1
    ensures Changes(parts, key) ==> IsDirection(key) && IsUnit(Requested(key, Vel(parts[0])))
  {
    Requested(key, Vel(parts[0])) != Vel(parts[0])
  }

  /** The body after `key`: only the head's velocity can differ. */
  function Turned(parts: seq<BodyPart>, key: Key): (r: seq<BodyPart>)
    requires |parts| >= 1
    ensures |r| == |parts| && r[1..] == parts[1..] && Pos(r[0]) == Pos(parts[0])
    ensures forall i :: 1 <= i < |parts| ==> r[i] == parts[i]
    ensures forall i :: 0 <= i < |parts| ==> Pos(r[i]) == Pos(parts[i])
    ensures Positions(r) == Positions(parts)
    ensures Vel(r[0]) == Requested(key, Vel(parts[0]))
    ensures !Changes(parts, key) ==> r == parts
  {
    var v := Requested(key, Vel(parts[0]));
    var r := parts[0 := parts[0].(velocityX := v.0, velocityY := v.1)];
    assert Positions(r) == Positions(parts) by {
      forall x | x in Positions(r) ensures x in Positions(parts) {
        var i := PositionsWitness(r, x);
        InPositions(parts, i);
      }
      forall x | x in Positions(parts) ensures x in Positions(r) {
        var i := PositionsWitness(parts, x);
        InPositions(r, i);
      }
    }
    r
  }

  /** The markers after `key`: a changed velocity of a head with followers is stamped on its cell. */
  function TurnedMarkers(parts: seq<BodyPart>, markers: seq<CellVelocity>, key: Key): (r: seq<CellVelocity>)
    requires |parts| >= 1
    ensures Changes(parts, key) && |parts| > 1 ==>
      Find(r, parts[0].col, parts[0].row) == Some(Clone(Turned(parts, key)[0]))
    ensures !(Changes(parts, key) && |parts| > 1) ==> r == markers
    ensures forall v :: v in r ==> v in markers || v == Clone(Turned(parts, key)[0])
    ensures UniqueCoords(markers) ==> UniqueCoords(r)
  {
    if Changes(parts, key) && |parts| > 1 then Upsert(markers, Clone(Turned(parts, key)[0])) else markers
  }

  // ---------------------------------------------------------------- helpers

  lemma PositionsPrefix(s: seq<BodyPart>, i: int)
    requires 0 <= i < |s|
    ensures Positions(s[..i + 1]) == Positions(s[..i]) + {Pos(s[i])}
  {
    assert s[..i + 1] == s[..i] + [s[i]];
  }

  lemma PositionsAppend(s: seq<BodyPart>, b: BodyPart)
    ensures Positions(s + [b]) == Positions(s) + {Pos(b)}
  {
    forall x | x in Positions(s + [b]) ensures x in Positions(s) + {Pos(b)} {
      var i := PositionsWitness(s + [b], x);
      if i < |s| { assert (s + [b])[i] == s[i]; InPositions(s, i); }
    }
    forall x | x in Positions(s) + {Pos(b)} ensures x in Positions(s + [b]) {
      if x != Pos(b) {
        var i := PositionsWitness(s, x);
        assert (s + [b])[i] == s[i];
        InPositions(s + [b], i);
      } else {
        InPositions(s + [b], |s|);
      }
    }
  }

  lemma InPositions(s: seq<BodyPart>, i: int)
    requires 0 <= i < |s|
    ensures Pos(s[i]) in Positions(s)
  {
  }

  lemma PositionsWitness(s: seq<BodyPart>, x: (int, int)) returns (i: int)
    requires x in Positions(s)
    ensures 0 <= i < |s| && Pos(s[i]) == x
  {
    var p :| p in s && Pos(p) == x;
    i :| 0 <= i < |s| && s[i] == p;
  }

  // ---------------------------------------------------------------- the pass

  /**
   * What one head-to-tail pass needs of the body it moves, whether or not a
   * still part was just appended: every part but the last moves by a unit step,
   * every part but the head lands on its predecessor's cell, the parts other
   * than the last are on distinct cells, and the head's target is none of them.
   */
  predicate Ready(parts: seq<BodyPart>, markers: seq<CellVelocity>) {
    |parts| >= 1 &&
    IsStep(Vel(parts[0])) &&
    (forall i :: 0 <= i < |parts| - 1 ==> IsUnit(Vel(parts[i]))) &&
    (forall i :: 1 <= i < |parts| ==> Pos(Moved(parts[i])) == Pos(parts[i - 1])) &&
    (forall i, j :: 0 <= i < j < |parts| - 1 ==> Pos(parts[i]) != Pos(parts[j])) &&
    (forall i :: 0 <= i < |parts| - 1 ==> Pos(parts[i]) != Target(parts)) &&
    UniqueCoords(markers) &&
    Pending(parts, markers) &&
    MarkersOnBody(parts, markers)
  }

  /** A marker of a ready body lies under one of its parts other than the last. */
  lemma MarkerUnder(parts: seq<BodyPart>, markers: seq<CellVelocity>, k: int) returns (i: int)
    requires |parts| >= 1 && MarkersOnBody(parts, markers) && 0 <= k < |markers|
    ensures 0 <= i < |parts| - 1 && Pos(parts[i]) == (markers[k].col, markers[k].row)
  {
    i := PositionsWitness(parts[..|parts| - 1], (markers[k].col, markers[k].row));
    assert parts[..|parts| - 1][i] == parts[i];
  }

  /** The tail's landing cell; markers elsewhere survive the pass. */
  lemma PassMarkers(parts: seq<BodyPart>, markers: seq<CellVelocity>)
    requires Ready(parts, markers)
    ensures var m := MovedMarkers(parts, markers);
      var n := |parts|;
      UniqueCoords(m) &&
      (forall v :: v in m ==> v in markers) &&
      (n > 1 ==> Pos(Moved(parts[n - 1])) == Pos(parts[n - 2]) && Find(m, parts[n - 2].col, parts[n - 2].row).None?) &&
      (forall c, w :: (n == 1 || (c, w) != Pos(parts[n - 2])) ==> Find(m, c, w) == Find(markers, c, w))
  {
  }

  /** No marker lies on the head's target. */
  lemma TargetUnmarked(parts: seq<BodyPart>, markers: seq<CellVelocity>)
    requires Ready(parts, markers)
    ensures Find(markers, Target(parts).0, Target(parts).1).None?
    ensures Find(MovedMarkers(parts, markers), Target(parts).0, Target(parts).1).None?
  {
    forall k | 0 <= k < |markers| ensures !At(markers[k], Target(parts).0, Target(parts).1) {
      var i := MarkerUnder(parts, markers, k);
    }
    PassMarkers(parts, markers);
  }

  lemma PassConnected(parts: seq<BodyPart>, markers: seq<CellVelocity>)
    requires Ready(parts, markers)
    ensures Connected(MovedParts(parts, markers))
  {
    var q := MovedParts(parts, markers);
    PassEffect(parts, markers);
    forall i | 1 <= i < |q| ensures Follows(q[i], q[i - 1]) {
      assert Pos(q[i]) == Pos(parts[i - 1]) && Vel(q[i]) == Vel(parts[i - 1]);
      assert Pos(q[i - 1]) == Pos(Moved(parts[i - 1]));
    }
  }

  lemma PassDistinct(parts: seq<BodyPart>, markers: seq<CellVelocity>)
    requires Ready(parts, markers)
    ensures Distinct(MovedParts(parts, markers))
  {
    PassEffect(parts, markers);
  }

  lemma PassPending(parts: seq<BodyPart>, markers: seq<CellVelocity>)
    requires Ready(parts, markers)
    ensures Pending(MovedParts(parts, markers), MovedMarkers(parts, markers))
  {
    var q, m := MovedParts(parts, markers), MovedMarkers(parts, markers);
    forall i | 1 <= i < |parts| ensures Vel(Adopted(Moved(q[i]), m)) == Vel(q[i - 1]) {
      PassPendingAt(parts, markers, i);
    }
  }

  /** Part `i` of the moved body will, after its next move, hold the velocity part `i - 1` holds now. */
  lemma PassPendingAt(parts: seq<BodyPart>, markers: seq<CellVelocity>, i: int)
    requires Ready(parts, markers) && 1 <= i < |parts|
    ensures var q := MovedParts(parts, markers);
      Vel(Adopted(Moved(q[i]), MovedMarkers(parts, markers))) == Vel(q[i - 1])
  {
    var q, m, n := MovedParts(parts, markers), MovedMarkers(parts, markers), |parts|;
    PassEffect(parts, markers);
    PassMarkers(parts, markers);
    if i == 1 {
      TargetUnmarked(parts, markers);
      assert Pos(Moved(q[1])) == Target(parts);
    } else {
      assert Pos(parts[i - 2]) != Pos(parts[n - 2]);
      AdoptedAlike(Moved(q[i]), Moved(parts[i - 1]), m, markers);
    }
  }

  /** Two parts on one cell with one velocity adopt alike from marker stores that agree on that cell. */
  lemma AdoptedAlike(p: BodyPart, p': BodyPart, m: seq<CellVelocity>, m': seq<CellVelocity>)
    requires Pos(p) == Pos(p') && Vel(p) == Vel(p') && Find(m, p.col, p.row) == Find(m', p'.col, p'.row)
    ensures Vel(Adopted(p, m)) == Vel(Adopted(p', m'))
  {
  }

  /** Markers of a body stay under a body whose parts each take their predecessor's cell, once the last-but-one cell is cleared. */
  lemma ShiftedMarkersOnBody(parts: seq<BodyPart>, q: seq<BodyPart>, markers: seq<CellVelocity>, m: seq<CellVelocity>)
    requires |parts| >= 1 && |q| == |parts|
    requires forall i :: 1 <= i < |parts| ==> Pos(q[i]) == Pos(parts[i - 1])
    requires MarkersOnBody(parts, markers)
    requires forall v :: v in m ==> v in markers
    requires |parts| > 1 ==> forall k :: 0 <= k < |m| ==> !At(m[k], parts[|parts| - 2].col, parts[|parts| - 2].row)
    ensures MarkersOnBody(q, m)
  {
    var n := |parts|;
    forall k | 0 <= k < |m| ensures (m[k].col, m[k].row) in Positions(q[..n - 1]) {
      assert m[k] in m;
      var k0 :| 0 <= k0 < |markers| && markers[k0] == m[k];
      var i := MarkerUnder(parts, markers, k0);
      assert !At(m[k], parts[n - 2].col, parts[n - 2].row);
      assert q[..n - 1][i + 1] == q[i + 1];
      InPositions(q[..n - 1], i + 1);
    }
  }

  lemma PassMarkersOnBody(parts: seq<BodyPart>, markers: seq<CellVelocity>)
    requires Ready(parts, markers)
    ensures MarkersOnBody(MovedParts(parts, markers), MovedMarkers(parts, markers))
  {
    var q, m, n := MovedParts(parts, markers), MovedMarkers(parts, markers), |parts|;
    PassEffect(parts, markers);
    PassMarkers(parts, markers);
    ShiftedMarkersOnBody(parts, q, markers, m);
  }

  lemma PassPositions(parts: seq<BodyPart>, markers: seq<CellVelocity>)
    requires Ready(parts, markers)
    ensures Positions(MovedParts(parts, markers)) == {Target(parts)} + Positions(parts[..|parts| - 1])
  {
    PassEffect(parts, markers);
    ShiftedPositions(MovedParts(parts, markers), parts);
  }

  /** A sequence whose first position is `parts`' target and whose others are `parts`' positions shifted by one. */
  lemma ShiftedPositions(q: seq<BodyPart>, parts: seq<BodyPart>)
    requires |q| == |parts| >= 1 && Pos(q[0]) == Target(parts)
    requires forall i :: 1 <= i < |q| ==> Pos(q[i]) == Pos(parts[i - 1])
    ensures Positions(q) == {Target(parts)} + Positions(parts[..|parts| - 1])
  {
    var body := parts[..|parts| - 1];
    forall x | x in Positions(q) ensures x in {Target(parts)} + Positions(body) {
      var i := PositionsWitness(q, x);
      if i > 0 { InPositions(body, i - 1); }
    }
    forall x | x in {Target(parts)} + Positions(body) ensures x in Positions(q) {
      if x == Target(parts) {
        InPositions(q, 0);
      } else {
        var i := PositionsWitness(body, x);
        InPositions(q, i + 1);
      }
    }
  }


  /** One pass over a ready body leaves it coherent, occupying the target and all but the last cell. */
  lemma PassKeepsCoherent(parts: seq<BodyPart>, markers: seq<CellVelocity>)
    requires Ready(parts, markers)
    ensures Coherent(MovedParts(parts, markers), MovedMarkers(parts, markers))
    ensures Positions(MovedParts(parts, markers)) == {Target(parts)} + Positions(parts[..|parts| - 1])
    ensures forall i :: 0 <= i < |parts| ==> Pos(MovedParts(parts, markers)[i]) == Pos(Moved(parts[i]))
  {
    PassEffect(parts, markers);
    PassMarkers(parts, markers);
    PassConnected(parts, markers);
    PassDistinct(parts, markers);
    PassPending(parts, markers);
    PassMarkersOnBody(parts, markers);
    PassPositions(parts, markers);
  }

  // ---------------------------------------------------------------- a tick

  /** A coherent body whose head moves by a unit step into a free cell is ready to move. */
  lemma MoveReady(parts: seq<BodyPart>, markers: seq<CellVelocity>)
    requires Coherent(parts, markers)
    requires IsUnit(Vel(parts[0]))
    requires Target(parts) !in Positions(parts)
    ensures Ready(parts, markers) && NoClobber(parts)
  {
    var n := |parts|;
    forall i | 0 <= i < n - 1 ensures IsUnit(Vel(parts[i])) {
      if i > 0 { assert Follows(parts[i], parts[i - 1]); }
    }
    forall i | 1 <= i < n ensures Pos(Moved(parts[i])) == Pos(parts[i - 1]) {
      assert Follows(parts[i], parts[i - 1]);
    }
    forall i | 0 <= i < n - 1 ensures Pos(parts[i]) != Target(parts) {
      InPositions(parts, i);
    }
    forall k, j | 0 <= k < j < n ensures Pos(Moved(parts[k])) != Pos(parts[j]) {
      if k == 0 { InPositions(parts, j); }
      else { assert Follows(parts[k], parts[k - 1]); }
    }
  }

  /**
   * A tick without an apple keeps the body coherent. The head steps into a
   * cell no part occupies; every other part takes its predecessor's old cell;
   * the old tail cell is vacated.
   */
  lemma MoveKeepsCoherent(parts: seq<BodyPart>, markers: seq<CellVelocity>)
    requires Coherent(parts, markers)
    requires IsUnit(Vel(parts[0]))
    requires Target(parts) !in Positions(parts)
    ensures var q := MovedParts(parts, markers);
      Coherent(q, MovedMarkers(parts, markers)) &&
      |q| == |parts| &&
      Positions(q) == {Target(parts)} + Positions(parts[..|parts| - 1]) &&
      Positions(q) <= {Target(parts)} + Positions(parts) &&
      NoClobber(parts) &&
      forall i :: 0 <= i < |parts| ==> Pos(q[i]) == Pos(Moved(parts[i]))
  {
    MoveReady(parts, markers);
    PassKeepsCoherent(parts, markers);
    PositionsPrefix(parts, |parts| - 1);
    assert parts[..|parts|] == parts;
  }

  /** The tail's cell holds no marker, so eating stamps a fresh one there. */
  lemma TailUnmarked(parts: seq<BodyPart>, markers: seq<CellVelocity>)
    requires Coherent(parts, markers)
    ensures Find(markers, parts[|parts| - 1].col, parts[|parts| - 1].row).None?
    ensures Find(GrownMarkers(parts, markers), parts[|parts| - 1].col, parts[|parts| - 1].row) == Some(Clone(parts[|parts| - 1]))
  {
    var n := |parts|;
    forall k | 0 <= k < |markers| ensures !At(markers[k], parts[n - 1].col, parts[n - 1].row) {
      var i := MarkerUnder(parts, markers, k);
    }
  }

  /** How the parts of a grown body move. */
  lemma GrowMotion(parts: seq<BodyPart>)
    requires |parts| >= 1 && Connected(parts) && Distinct(parts)
    requires IsUnit(Vel(parts[0]))
    requires Target(parts) !in Positions(parts)
    ensures var g := Grown(parts);
      var n := |parts|;
      |g| == n + 1 && g[..n] == parts && g[n] == BodyPart(parts[n - 1].col, parts[n - 1].row, 0, 0) &&
      Target(g) == Target(parts) &&
      (forall i :: 0 <= i < n ==> IsUnit(Vel(g[i]))) &&
      (forall i :: 1 <= i < n + 1 ==> Pos(Moved(g[i])) == Pos(g[i - 1])) &&
      (forall i, j :: 0 <= i < j < n ==> Pos(g[i]) != Pos(g[j])) &&
      (forall i :: 0 <= i < n ==> Pos(g[i]) != Target(g))
  {
    var n := |parts|;
    var g := Grown(parts);
    assert g[..n] == parts;
    forall i | 0 <= i < n ensures IsUnit(Vel(g[i])) {
      if i > 0 { assert Follows(parts[i], parts[i - 1]); }
    }
    forall i | 1 <= i < n + 1 ensures Pos(Moved(g[i])) == Pos(g[i - 1]) {
      if i < n { assert Follows(parts[i], parts[i - 1]); }
    }
    forall i | 0 <= i < n ensures Pos(g[i]) != Target(g) {
      InPositions(parts, i);
    }
  }

  /** The grown body covers the same cells, and its pass clears no cell it has just entered. */
  lemma GrowFootprint(parts: seq<BodyPart>)
    requires |parts| >= 1 && Connected(parts) && Distinct(parts)
    requires Target(parts) !in Positions(parts)
    ensures NoClobber(Grown(parts)) && Positions(Grown(parts)) == Positions(parts)
  {
    var n := |parts|;
    var g := Grown(parts);
    forall k, j | 0 <= k < j < n + 1 ensures Pos(Moved(g[k])) != Pos(g[j]) {
      if k == 0 {
        if j < n { InPositions(parts, j); } else { InPositions(parts, n - 1); }
      } else {
        assert Follows(parts[k], parts[k - 1]);
        assert Pos(Moved(g[k])) == Pos(parts[k - 1]);
      }
    }
  }


  /** The stamp on the tail's cell hands the tail's velocity to the appended part. */
  lemma GrowPending(parts: seq<BodyPart>, markers: seq<CellVelocity>)
    requires Coherent(parts, markers)
    ensures Pending(Grown(parts), GrownMarkers(parts, markers))
  {
    var n := |parts|;
    var tail := parts[n - 1];
    var g := Grown(parts);
    var gm := GrownMarkers(parts, markers);
    assert g[..n] == parts;
    TailUnmarked(parts, markers);
    forall i | 1 <= i < n + 1 ensures Vel(Adopted(Moved(g[i]), gm)) == Vel(g[i - 1]) {
      if i < n {
        assert g[i] == parts[i] && g[i - 1] == parts[i - 1];
        assert Follows(parts[i], parts[i - 1]);
        assert Pos(parts[i - 1]) != Pos(tail);
      } else {
        assert Moved(g[n]) == g[n];
      }
    }
  }

  lemma GrowMarkersOnBody(parts: seq<BodyPart>, markers: seq<CellVelocity>)
    requires Coherent(parts, markers)
    ensures MarkersOnBody(Grown(parts), GrownMarkers(parts, markers))
  {
    var n := |parts|;
    var tail := parts[n - 1];
    var g := Grown(parts);
    var gm := GrownMarkers(parts, markers);
    assert g[..n] == parts;
    forall k | 0 <= k < |gm| ensures (gm[k].col, gm[k].row) in Positions(parts) {
      if gm[k] != Clone(tail) {
        var k0 :| 0 <= k0 < |markers| && markers[k0] == gm[k];
        var i := MarkerUnder(parts, markers, k0);
        InPositions(parts, i);
      } else {
        InPositions(parts, n - 1);
      }
    }
  }

  /** A coherent body that has just grown, whose head moves into a free cell, is ready to move. */
  lemma GrowReady(parts: seq<BodyPart>, markers: seq<CellVelocity>)
    requires Coherent(parts, markers)
    requires IsUnit(Vel(parts[0]))
    requires Target(parts) !in Positions(parts)
    ensures Ready(Grown(parts), GrownMarkers(parts, markers))
    ensures NoClobber(Grown(parts))
    ensures Positions(Grown(parts)) == Positions(parts) && Target(Grown(parts)) == Target(parts)
  {
    GrowMotion(parts);
    GrowFootprint(parts);
    GrowPending(parts, markers);
    GrowMarkersOnBody(parts, markers);
  }

  /**
   * A tick onto an apple: the body grows by one part, which by the end of the
   * same tick sits on the old tail's cell with the old tail's velocity, and the
   * marker stamped for it there is already gone. The result is coherent.
   */
  lemma GrowKeepsCoherent(parts: seq<BodyPart>, markers: seq<CellVelocity>)
    requires Coherent(parts, markers)
    requires IsUnit(Vel(parts[0]))
    requires Target(parts) !in Positions(parts)
    ensures var g := Grown(parts);
      var gm := GrownMarkers(parts, markers);
      Coherent(MovedParts(g, gm), MovedMarkers(g, gm)) &&
      Positions(MovedParts(g, gm)) == {Target(parts)} + Positions(parts)
  {
    var g := Grown(parts);
    var gm := GrownMarkers(parts, markers);
    GrowReady(parts, markers);
    PassKeepsCoherent(g, gm);
    assert g[..|g| - 1] == parts;
  }

  /**
   * The part grown on an apple ends the tick where the old tail was, with the
   * old tail's velocity, and the marker stamped for it is gone.
   */
  lemma GrowTail(parts: seq<BodyPart>, markers: seq<CellVelocity>)
    requires Coherent(parts, markers)
    requires IsUnit(Vel(parts[0]))
    requires Target(parts) !in Positions(parts)
    ensures var g := Grown(parts);
      var gm := GrownMarkers(parts, markers);
      var tail := parts[|parts| - 1];
      |MovedParts(g, gm)| == |parts| + 1 &&
      MovedParts(g, gm)[|parts|] == tail &&
      Find(MovedMarkers(g, gm), tail.col, tail.row).None?
  {
    var n := |parts|;
    var tail := parts[n - 1];
    var g := Grown(parts);
    var gm := GrownMarkers(parts, markers);
    assert g[n] == BodyPart(tail.col, tail.row, 0, 0);
    GrowReady(parts, markers);
    TailUnmarked(parts, markers);
    PassMarkers(g, gm);
    assert Moved(g[n]) == g[n];
    assert Find(gm, tail.col, tail.row) == Some(Clone(tail));
    assert MovedParts(g, gm)[n] == Adopted(g[n], gm);
  }

  // ---------------------------------------------------------------- a key

  lemma TurnPending(parts: seq<BodyPart>, markers: seq<CellVelocity>, key: Key)
    requires Coherent(parts, markers)
    ensures Pending(Turned(parts, key), TurnedMarkers(parts, markers, key))
  {
    var t, tm := Turned(parts, key), TurnedMarkers(parts, markers, key);
    forall i | 1 <= i < |parts| ensures Vel(Adopted(Moved(t[i]), tm)) == Vel(t[i - 1]) {
      TurnPendingAt(parts, markers, key, i);
    }
  }

  /** After a turn, part `i` will still take its predecessor's velocity on its next move. */
  lemma TurnPendingAt(parts: seq<BodyPart>, markers: seq<CellVelocity>, key: Key, i: int)
    requires Coherent(parts, markers) && 1 <= i < |parts|
    ensures var t := Turned(parts, key);
      Vel(Adopted(Moved(t[i]), TurnedMarkers(parts, markers, key))) == Vel(t[i - 1])
  {
    var t, tm := Turned(parts, key), TurnedMarkers(parts, markers, key);
    assert Follows(parts[i], parts[i - 1]);
    var p := parts[i - 1];
    if i > 1 {
      assert Pos(p) != Pos(parts[0]);
      assert Find(tm, p.col, p.row) == Find(markers, p.col, p.row);
      AdoptedAlike(Moved(t[i]), Moved(parts[i]), tm, markers);
    } else if Changes(parts, key) {
      assert Find(tm, p.col, p.row) == Some(Clone(t[0]));
    }
  }


  lemma TurnMarkersOnBody(parts: seq<BodyPart>, markers: seq<CellVelocity>, key: Key)
    requires Coherent(parts, markers)
    ensures MarkersOnBody(Turned(parts, key), TurnedMarkers(parts, markers, key))
  {
    var t, tm, n := Turned(parts, key), TurnedMarkers(parts, markers, key), |parts|;
    forall k | 0 <= k < |tm| ensures (tm[k].col, tm[k].row) in Positions(t[..n - 1]) {
      if tm[k] in markers {
        var k0 :| 0 <= k0 < |markers| && markers[k0] == tm[k];
        var i := MarkerUnder(parts, markers, k0);
        assert t[..n - 1][i] == t[i];
        InPositions(t[..n - 1], i);
      } else {
        assert t[..n - 1][0] == t[0];
        InPositions(t[..n - 1], 0);
      }
    }
  }

  /**
   * A key press keeps the body coherent: only the head's velocity can change,
   * and when it does on a body with followers the new velocity is stamped on
   * the head's cell for them.
   */
  lemma TurnKeepsCoherent(parts: seq<BodyPart>, markers: seq<CellVelocity>, key: Key)
    requires Coherent(parts, markers)
    ensures Coherent(Turned(parts, key), TurnedMarkers(parts, markers, key))
    ensures Positions(Turned(parts, key)) == Positions(parts)
    ensures Turned(parts, key)[1..] == parts[1..]
    ensures Vel(Turned(parts, key)[0]) == Requested(key, Vel(parts[0]))
    ensures !Changes(parts, key) ==> Turned(parts, key) == parts && TurnedMarkers(parts, markers, key) == markers
  {
    var t, n := Turned(parts, key), |parts|;
    TurnPending(parts, markers, key);
    TurnMarkersOnBody(parts, markers, key);
    forall i | 1 <= i < n ensures Follows(t[i], t[i - 1]) {
      assert Follows(parts[i], parts[i - 1]);
    }
  }

  /**
   * Turning the head straight back toward the part behind it aims the head at
   * that part's cell, so the next tick is a collision with the body.
   */
  lemma ReverseCollides(parts: seq<BodyPart>, key: Key)
    requires |parts| >= 2 && Connected(parts)
    requires Requested(key, Vel(parts[0])) == (-parts[1].velocityX, -parts[1].velocityY)
    ensures Target(Turned(parts, key)) == Pos(parts[1])
    ensures Target(Turned(parts, key)) in Positions(Turned(parts, key))
  {
    assert Follows(parts[1], parts[0]);
    InPositions(Turned(parts, key), 1);
  }

  // ---------------------------------------------------------------- scenarios

  /**
   * Three parts moving east turn north: the head's cell is stamped; on the
   * first tick the middle part reaches that cell and takes the new velocity at
   * once; on the second the tail does too and removes the marker.
   */
  lemma TurnScenario()
    ensures var parts := [BodyPart(5, 5, 1, 0), BodyPart(4, 5, 1, 0), BodyPart(3, 5, 1, 0)];
      var t, tm := Turned(parts, Up), TurnedMarkers(parts, [], Up);
      var q1, m1 := MovedParts(t, tm), MovedMarkers(t, tm);
      tm == [CellVelocity(5, 5, 0, 1)] &&
      q1 == [BodyPart(5, 6, 0, 1), BodyPart(5, 5, 0, 1), BodyPart(4, 5, 1, 0)] && m1 == tm &&
      MovedParts(q1, m1) == [BodyPart(5, 7, 0, 1), BodyPart(5, 6, 0, 1), BodyPart(5, 5, 0, 1)] &&
      MovedMarkers(q1, m1) == []
  {
    var parts := [BodyPart(5, 5, 1, 0), BodyPart(4, 5, 1, 0), BodyPart(3, 5, 1, 0)];
    var t := Turned(parts, Up);
    assert t == [BodyPart(5, 5, 0, 1), BodyPart(4, 5, 1, 0), BodyPart(3, 5, 1, 0)];
    var tm := [CellVelocity(5, 5, 0, 1)];
    assert Find([], 5, 5).None?;
    assert TurnedMarkers(parts, [], Up) == tm;
    assert Find(tm, 5, 5) == Some(tm[0]) && Find(tm, 3, 5).None? && Find(tm, 4, 5).None?;
    var q1 := MovedParts(t, tm);
    assert q1 == [BodyPart(5, 6, 0, 1), BodyPart(5, 5, 0, 1), BodyPart(4, 5, 1, 0)];
    assert Find(tm, 5, 6).None?;
    assert Without(tm, 5, 5) == [];
  }

  /**
   * A lone part moving east eats: the tail's velocity is stamped on its cell,
   * and on the same tick the grown part takes it there and removes the marker.
   */
  lemma GrowScenario()
    ensures var parts := [BodyPart(5, 5, 1, 0)];
      var g, gm := Grown(parts), GrownMarkers(parts, []);
      g == [BodyPart(5, 5, 1, 0), BodyPart(5, 5, 0, 0)] && gm == [CellVelocity(5, 5, 1, 0)] &&
      MovedParts(g, gm) == [BodyPart(6, 5, 1, 0), BodyPart(5, 5, 1, 0)] &&
      MovedMarkers(g, gm) == []
  {
    var gm := [CellVelocity(5, 5, 1, 0)];
    assert Find([], 5, 5).None?;
    assert GrownMarkers([BodyPart(5, 5, 1, 0)], []) == gm;
    assert Find(gm, 5, 5) == Some(gm[0]);
    assert Without(gm, 5, 5) == [];
  }
}
