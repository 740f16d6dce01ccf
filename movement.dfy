/**
  `move`: every agent is displaced by its own draw unless the mask of line 91
  zeroes its displacement. The mask is `(status == 3) | switch == 0`, which
  Python reads as `((status == 3) | switch) == 0` because `|` binds tighter
  than `==`. Positions and displacements are abstract real points.
*/
module Movement {
  import opened Disease

  datatype Point = Point(x: real, y: real)

  function Add(p: Point, q: Point): Point
  {
    Point(p.x + q.x, p.y + q.y)
  }

  /** `random_switch` (line 68): 1, "moves", when the normal draw is below `x`. */
  function Switch(normal: real, x: real): (sw: int)
    ensures sw == 0 || sw == 1
    ensures sw == 1 <==> normal < x
  {
    if normal < x then 1 else 0
  }

  /** `a | b` on 0/1 values. */
  function BitOr(a: int, b: int): (r: int)
    requires 0 <= a <= 1 && 0 <= b <= 1
    ensures 0 <= r <= 1
    ensures r == 0 <==> a == 0 && b == 0
  {
    if a == 1 || b == 1 then 1 else 0
  }

  /** Line 91 as written. */
  predicate ZeroedAsWritten(status: int, switch: int)
    requires 0 <= switch <= 1
  {
    BitOr(if status == ISOLATED then 1 else 0, switch) == 0
  }

  /** What line 91 is there for, in the words of its comment: isolated agents
      do not move, and neither do agents whose switch is off. */
  predicate ZeroedIntended(status: int, switch: int)
  {
    status == ISOLATED || switch == 0
  }

  /** The mask of line 91 over the whole population. */
  function MoveMask(status: seq<int>, normals: seq<real>, x: real): (m: seq<bool>)
    requires |normals| == |status|
    ensures |m| == |status|
    ensures forall i :: 0 <= i < |status| ==> (m[i] <==> status[i] != ISOLATED && !(normals[i] < x))
  {
    seq(|status|, i requires 0 <= i < |status| => ZeroedAsWritten(status[i], Switch(normals[i], x)))
  }

  /** The intended mask over the whole population. */
  function ConfinedMask(status: seq<int>, normals: seq<real>, x: real): (m: seq<bool>)
    requires |normals| == |status|
    ensures |m| == |status|
    ensures forall i :: 0 <= i < |status| ==> (m[i] <==> status[i] == ISOLATED || !(normals[i] < x))
  {
    seq(|status|, i requires 0 <= i < |status| => ZeroedIntended(status[i], Switch(normals[i], x)))
  }

  /** `people + movement` after `movement[zeroed] = 0`. */
  function Displace(people: seq<Point>, movement: seq<Point>, zeroed: seq<bool>): (r: seq<Point>)
    requires |movement| == |people| && |zeroed| == |people|
    ensures |r| == |people|
    ensures forall i :: 0 <= i < |people| ==> r[i] == Add(people[i], if zeroed[i] then Point(0.0, 0.0) else movement[i])
  {
    seq(|people|, i requires 0 <= i < |people| => if zeroed[i] then people[i] else Add(people[i], movement[i]))
  }

  /** As written, a displacement is zeroed exactly when the agent is not
      isolated and its switch is off. */
  lemma ZeroedAsWrittenMeaning(status: int, normal: real, x: real)
    ensures ZeroedAsWritten(status, Switch(normal, x)) <==> status != ISOLATED && !(normal < x)
  {
  }

  /** As written, an isolated agent whose switch is on is displaced: one isolated
      agent at the origin, switch draw 0 under threshold 2, moved by (1, 0). */
  lemma IsolatedAgentMovesAsWritten()
    ensures Displace([Point(0.0, 0.0)], [Point(1.0, 0.0)], MoveMask([ISOLATED], [0.0], 2.0)) == [Point(1.0, 0.0)]
  {
    var m := MoveMask([ISOLATED], [0.0], 2.0);
    assert !m[0];
  }

  /** With the intended mask an isolated agent never moves, whatever the draws. */
  lemma IsolatedAgentStaysIntended(people: seq<Point>, movement: seq<Point>, status: seq<int>, normals: seq<real>, x: real, i: nat)
    requires |movement| == |people| && |status| == |people| && |normals| == |people|
    requires i < |people| && status[i] == ISOLATED
    ensures Displace(people, movement, ConfinedMask(status, normals, x))[i] == people[i]
  {
  }
}
