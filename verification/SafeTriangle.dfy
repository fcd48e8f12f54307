/**
 The safe triangle (app/src/safe_triangle.rs): hovers on the way from a menu item to its side panel
 are suppressed. Coordinates are reals.

 `Zone` is the state of a `SafeTriangle`, and `Verdict` is what one hover decides. The geometry is
 proved against convex combinations, which the code does not compute.
 */
module SafeTriangles {
  import opened Wrappers

  datatype Vec = Vec(x: real, y: real)

  datatype Rect = Rect(minX: real, minY: real, maxX: real, maxY: real) {
    predicate Contains(p: Vec) {
      minX <= p.x <= maxX && minY <= p.y <= maxY
    }
  }

  const VERTICAL_PADDING: real := 80.0
  const MIN_MOVEMENT_SQUARED: real := 4.0

  /** The z-component of the cross product of v2 - v1 and p - v1. */
  function CrossSign(p: Vec, v1: Vec, v2: Vec): real {
    (v2.x - v1.x) * (p.y - v1.y) - (v2.y - v1.y) * (p.x - v1.x)
  }

  predicate PointInTriangle(p: Vec, a: Vec, b: Vec, c: Vec) {
    var d1, d2, d3 := CrossSign(p, a, b), CrossSign(p, b, c), CrossSign(p, c, a);
    var hasNeg := d1 < 0.0 || d2 < 0.0 || d3 < 0.0;
    var hasPos := d1 > 0.0 || d2 > 0.0 || d3 > 0.0;
    !(hasNeg && hasPos)
  }

  datatype Zone = Zone(target: Option<Rect>, last: Option<Vec>, suppressing: bool)

  function DistanceSquared(p: Vec, q: Vec): real {
    (p.x - q.x) * (p.x - q.x) + (p.y - q.y) * (p.y - q.y)
  }

  /** The edge of the target that faces the cursor. */
  function NearX(target: Rect, last: Vec): real {
    if last.x < (target.minX + target.maxX) / 2.0 then target.minX else target.maxX
  }

  predicate InSafeTriangle(p: Vec, apex: Vec, nearX: real) {
    PointInTriangle(p, apex, Vec(nearX, apex.y - VERTICAL_PADDING), Vec(nearX, apex.y + VERTICAL_PADDING))
  }

  predicate Verdict(z: Zone, p: Vec) {
    if z.target.None? || z.last.None? then false
    else if z.target.value.Contains(z.last.value) then false
    else if DistanceSquared(p, z.last.value) < MIN_MOVEMENT_SQUARED then z.suppressing
    else InSafeTriangle(p, z.last.value, NearX(z.target.value, z.last.value))
  }

  class SafeTriangle {
    var targetRect: Option<Rect>
    var lastPosition: Option<Vec>
    var isSuppressing: bool

    ghost function View(): Zone
      reads this
    {
      Zone(targetRect, lastPosition, isSuppressing)
    }

    constructor ()
      ensures View() == Zone(None, None, false)
    {
      targetRect, lastPosition, isSuppressing := None, None, false;
    }

    method SetTargetRect(rect: Option<Rect>)
      modifies this
      ensures View() == if rect.None? then Zone(None, None, false) else old(View()).(target := rect)
    {
      targetRect := rect;
      if rect.None? {
        lastPosition := None;
        isSuppressing := false;
      }
    }

    /** It answers what it now remembers, and forgets and moves nothing. */
    method ShouldSuppressHover(position: Vec) returns (suppress: bool)
      modifies this`isSuppressing
      ensures suppress == isSuppressing == Verdict(old(View()), position)
    {
      if targetRect.None? || lastPosition.None? {
        isSuppressing := false;
        return false;
      }
      var target, last := targetRect.value, lastPosition.value;
      if target.Contains(last) {
        isSuppressing := false;
        return false;
      }
      if DistanceSquared(position, last) < MIN_MOVEMENT_SQUARED {
        return isSuppressing;
      }
      var centerX := (target.minX + target.maxX) / 2.0;
      var nearX := if last.x < centerX then target.minX else target.maxX;
      var cornerA := Vec(nearX, last.y - VERTICAL_PADDING);
      var cornerB := Vec(nearX, last.y + VERTICAL_PADDING);
      suppress := PointInTriangle(position, last, cornerA, cornerB);
      isSuppressing := suppress;
    }

    method UpdatePosition(position: Vec)
      modifies this`lastPosition
      ensures lastPosition == Some(position)
    {
      lastPosition := Some(position);
    }
  }

  // The test against the geometry.

  ghost predicate Weighs(p: Vec, a: Vec, b: Vec, c: Vec, u: real, v: real, w: real) {
    && u >= 0.0 && v >= 0.0 && w >= 0.0 && u + v + w == 1.0
    && p.x == u * a.x + v * b.x + w * c.x
    && p.y == u * a.y + v * b.y + w * c.y
  }

  /** The point is a convex combination of the three vertices. */
  ghost predicate InHull(p: Vec, a: Vec, b: Vec, c: Vec) {
    exists u, v, w :: Weighs(p, a, b, c, u, v, w)
  }

  lemma Barycentric(p: Vec, a: Vec, b: Vec, c: Vec)
    ensures var d1, d2, d3 := CrossSign(p, a, b), CrossSign(p, b, c), CrossSign(p, c, a);
            && d1 + d2 + d3 == CrossSign(c, a, b)
            && d2 * a.x + d3 * b.x + d1 * c.x == CrossSign(c, a, b) * p.x
            && d2 * a.y + d3 * b.y + d1 * c.y == CrossSign(c, a, b) * p.y
  {
  }

  lemma CrossOfWeighted(p: Vec, a: Vec, b: Vec, c: Vec, u: real, v: real, w: real)
    requires Weighs(p, a, b, c, u, v, w)
    ensures CrossSign(p, a, b) == w * CrossSign(c, a, b)
    ensures CrossSign(p, b, c) == u * CrossSign(c, a, b)
    ensures CrossSign(p, c, a) == v * CrossSign(c, a, b)
  {
    var px, py := u * a.x + v * b.x + w * c.x, u * a.y + v * b.y + w * c.y;
    assert u == 1.0 - v - w;
    assert p == Vec(px, py);
    assert px - a.x == v * (b.x - a.x) + w * (c.x - a.x);
    assert py - a.y == v * (b.y - a.y) + w * (c.y - a.y);
    assert px - b.x == u * (a.x - b.x) + w * (c.x - b.x);
    assert py - b.y == u * (a.y - b.y) + w * (c.y - b.y);
    assert px - c.x == u * (a.x - c.x) + v * (b.x - c.x);
    assert py - c.y == u * (a.y - c.y) + v * (b.y - c.y);
  }

  lemma SameSign(d: real, s: real)
    requires s >= 0.0
    ensures d > 0.0 ==> s * d >= 0.0
    ensures d < 0.0 ==> s * d <= 0.0
  {
  }

  lemma Cancel(d: real, x: real, y: real)
    requires d != 0.0 && d * x == d * y
    ensures x == y
  {
  }

  lemma Average(d: real, n1: real, n2: real, n3: real, x1: real, x2: real, x3: real, x: real)
    requires d != 0.0 && n1 * x1 + n2 * x2 + n3 * x3 == d * x
    ensures n1 / d * x1 + n2 / d * x2 + n3 / d * x3 == x
  {
    var u, v, w := n1 / d, n2 / d, n3 / d;
    assert d * u == n1 && d * v == n2 && d * w == n3;
    assert d * (u * x1 + v * x2 + w * x3) == (d * u) * x1 + (d * v) * x2 + (d * w) * x3;
    Cancel(d, u * x1 + v * x2 + w * x3, x);
  }

  lemma QuotientIsNonnegative(d: real, n: real)
    requires (n >= 0.0 && d > 0.0) || (n <= 0.0 && d < 0.0)
    ensures n / d >= 0.0
  {
  }

  lemma WeightsOfTheSigns(p: Vec, a: Vec, b: Vec, c: Vec)
    requires CrossSign(c, a, b) != 0.0 && PointInTriangle(p, a, b, c)
    ensures var d := CrossSign(c, a, b);
            Weighs(p, a, b, c, CrossSign(p, b, c) / d, CrossSign(p, c, a) / d, CrossSign(p, a, b) / d)
  {
    var d := CrossSign(c, a, b);
    var d1, d2, d3 := CrossSign(p, a, b), CrossSign(p, b, c), CrossSign(p, c, a);
    Barycentric(p, a, b, c);
    hide CrossSign;
    QuotientIsNonnegative(d, d1);
    QuotientIsNonnegative(d, d2);
    QuotientIsNonnegative(d, d3);
    Average(d, d2, d3, d1, a.x, b.x, c.x, p.x);
    Average(d, d2, d3, d1, a.y, b.y, c.y, p.y);
    Average(d, d2, d3, d1, 1.0, 1.0, 1.0, 1.0);
  }

  /** For a triangle with an inside, the sign test holds exactly in its convex hull. */
  lemma SignTestIsTheHull(p: Vec, a: Vec, b: Vec, c: Vec)
    requires CrossSign(c, a, b) != 0.0
    ensures PointInTriangle(p, a, b, c) <==> InHull(p, a, b, c)
  {
    if PointInTriangle(p, a, b, c) {
      WeightsOfTheSigns(p, a, b, c);
    }
    if InHull(p, a, b, c) {
      var u, v, w :| Weighs(p, a, b, c, u, v, w);
      CrossOfWeighted(p, a, b, c, u, v, w);
      SameSign(CrossSign(c, a, b), u);
      SameSign(CrossSign(c, a, b), v);
      SameSign(CrossSign(c, a, b), w);
    }
  }

  function Abs(x: real): real {
    if x < 0.0 then -x else x
  }

  /** How much of the way to the target's near edge the cursor has come. */
  ghost function Travelled(p: Vec, apex: Vec, nearX: real): real
    requires nearX != apex.x
  {
    (p.x - apex.x) / (nearX - apex.x)
  }

  lemma TravelTimesDistance(p: Vec, apex: Vec, nearX: real)
    requires nearX != apex.x
    ensures Travelled(p, apex, nearX) * (nearX - apex.x) == p.x - apex.x
  {
  }

  lemma SafeSigns(p: Vec, apex: Vec, nearX: real, t: real)
    requires p.x - apex.x == t * (nearX - apex.x)
    ensures var a, b := Vec(nearX, apex.y - VERTICAL_PADDING), Vec(nearX, apex.y + VERTICAL_PADDING);
            && CrossSign(p, apex, a) == (nearX - apex.x) * (p.y - apex.y + VERTICAL_PADDING * t)
            && CrossSign(p, a, b) == (nearX - apex.x) * (2.0 * VERTICAL_PADDING * (1.0 - t))
            && CrossSign(p, b, apex) == (nearX - apex.x) * (VERTICAL_PADDING * t - (p.y - apex.y))
  {
  }

  lemma SignOfProduct(d: real, x: real)
    requires d != 0.0
    ensures d * x > 0.0 <==> (d > 0.0 && x > 0.0) || (d < 0.0 && x < 0.0)
    ensures d * x < 0.0 <==> (d > 0.0 && x < 0.0) || (d < 0.0 && x > 0.0)
  {
  }

  /** The triangle that a hover is tested against holds exactly the points on the way to the near
      edge that stay within 80 points of the apex for each whole way travelled. */
  lemma SafeTriangleIsAWedge(p: Vec, apex: Vec, nearX: real)
    requires nearX != apex.x
    ensures InSafeTriangle(p, apex, nearX) <==>
            var t := Travelled(p, apex, nearX);
            0.0 <= t <= 1.0 && Abs(p.y - apex.y) <= VERTICAL_PADDING * t
  {
    var t, d, dy := Travelled(p, apex, nearX), nearX - apex.x, p.y - apex.y;
    TravelTimesDistance(p, apex, nearX);
    SafeSigns(p, apex, nearX, t);
    hide CrossSign, Travelled;
    var a, b := Vec(nearX, apex.y - VERTICAL_PADDING), Vec(nearX, apex.y + VERTICAL_PADDING);
    var s1, s2, s3 := dy + VERTICAL_PADDING * t, 2.0 * VERTICAL_PADDING * (1.0 - t), VERTICAL_PADDING * t - dy;
    SignOfProduct(d, s1);
    SignOfProduct(d, s2);
    SignOfProduct(d, s3);
    assert CrossSign(p, apex, a) == d * s1 && CrossSign(p, a, b) == d * s2 && CrossSign(p, b, apex) == d * s3;
    assert InSafeTriangle(p, apex, nearX) <==>
           !((s1 < 0.0 || s2 < 0.0 || s3 < 0.0) && (s1 > 0.0 || s2 > 0.0 || s3 > 0.0));
    assert s1 + s3 == 160.0 * t && s2 == 160.0 - 160.0 * t;
  }

  /** When the apex is level with the near edge, the test accepts the whole vertical line and no more. */
  lemma FlatTriangleIsALine(p: Vec, apex: Vec)
    ensures InSafeTriangle(p, apex, apex.x) <==> p.x == apex.x
  {
  }

  lemma ProductIsNonnegative(x: real, y: real)
    requires x >= 0.0 && y >= 0.0
    ensures x * y >= 0.0
  {
  }

  lemma NoHigherThanTheVertices(p: Vec, a: Vec, b: Vec, c: Vec, u: real, v: real, w: real)
    requires Weighs(p, a, b, c, u, v, w) && a.y <= c.y && b.y <= c.y
    ensures p.y <= c.y
  {
    ProductIsNonnegative(u, c.y - a.y);
    ProductIsNonnegative(v, c.y - b.y);
    assert (u + v + w) * c.y == c.y;
    assert p.y == (u + v + w) * c.y - u * (c.y - a.y) - v * (c.y - b.y);
  }

  /** The triangle that the test is given, as a hull. */
  ghost predicate InSafeHull(p: Vec, apex: Vec, nearX: real) {
    InHull(p, apex, Vec(nearX, apex.y - VERTICAL_PADDING), Vec(nearX, apex.y + VERTICAL_PADDING))
  }

  lemma FlatTriangleIsNotTheHull(apex: Vec)
    ensures exists far :: InSafeTriangle(far, apex, apex.x) && !InSafeHull(far, apex, apex.x)
  {
    var a, b := Vec(apex.x, apex.y - VERTICAL_PADDING), Vec(apex.x, apex.y + VERTICAL_PADDING);
    var far := Vec(apex.x, apex.y + 2.0 * VERTICAL_PADDING);
    FlatTriangleIsALine(far, apex);
    if InHull(far, apex, a, b) {
      var u, v, w :| Weighs(far, apex, a, b, u, v, w);
      NoHigherThanTheVertices(far, apex, a, b, u, v, w);
      assert false;
    }
    assert InSafeTriangle(far, apex, apex.x) && !InSafeHull(far, apex, apex.x);
  }

  /** So the test is the hull of the triangle it is given exactly when the apex is off the near edge. */
  lemma SignTestIsTheHullUnlessFlat(apex: Vec, nearX: real)
    ensures (forall p :: InSafeTriangle(p, apex, nearX) <==> InSafeHull(p, apex, nearX)) <==> nearX != apex.x
  {
    var a, b := Vec(nearX, apex.y - VERTICAL_PADDING), Vec(nearX, apex.y + VERTICAL_PADDING);
    if nearX != apex.x {
      SafeSigns(b, apex, nearX, 1.0);
      forall p
        ensures InSafeTriangle(p, apex, nearX) <==> InSafeHull(p, apex, nearX)
      {
        assert CrossSign(b, apex, a) != 0.0;
        SignTestIsTheHull(p, apex, a, b);
      }
    } else {
      FlatTriangleIsNotTheHull(apex);
    }
  }

  /** The edge that the triangle is built on is the nearer one, and from halfway the right one. */
  lemma NearXIsNearer(target: Rect, last: Vec)
    requires target.minX <= target.maxX
    ensures NearX(target, last) == target.minX || NearX(target, last) == target.maxX
    ensures Abs(NearX(target, last) - last.x) <= Abs(target.minX - last.x)
    ensures Abs(NearX(target, last) - last.x) <= Abs(target.maxX - last.x)
    ensures Abs(target.minX - last.x) == Abs(target.maxX - last.x) ==> NearX(target, last) == target.maxX
  {
  }

  /**
   A hover is suppressed exactly when there is a target, and an apex outside it, and either it is less
   than 2 points from the apex and the answer before was to suppress, or it is no less and in the wedge
   towards the near edge that opens by 80 points each way, or, with the apex level with that edge, on the
   vertical line of it.
   */
  lemma WhichMovesAreSuppressed(z: Zone, p: Vec)
    ensures Verdict(z, p) <==>
            && z.target.Some? && z.last.Some?
            && var target, apex := z.target.value, z.last.value;
               var nearX, dx, dy := NearX(target, apex), p.x - apex.x, p.y - apex.y;
               && !(target.minX <= apex.x <= target.maxX && target.minY <= apex.y <= target.maxY)
               && if dx * dx + dy * dy < 2.0 * 2.0 then z.suppressing
                  else if nearX == apex.x then dx == 0.0
                  else
                    var t := Travelled(p, apex, nearX);
                    0.0 <= t <= 1.0 && Abs(dy) <= 80.0 * t
  {
    hide InSafeTriangle, Travelled, NearX, Abs;
    if z.target.Some? && z.last.Some? {
      var target, apex := z.target.value, z.last.value;
      var nearX, dx, dy := NearX(target, apex), p.x - apex.x, p.y - apex.y;
      assert target.Contains(apex) <==> (target.minX <= apex.x <= target.maxX && target.minY <= apex.y <= target.maxY);
      assert DistanceSquared(p, apex) < MIN_MOVEMENT_SQUARED <==> dx * dx + dy * dy < 2.0 * 2.0;
      if nearX == apex.x {
        FlatTriangleIsALine(p, apex);
        assert InSafeTriangle(p, apex, nearX) <==> dx == 0.0;
      } else {
        SafeTriangleIsAWedge(p, apex, nearX);
        var t := Travelled(p, apex, nearX);
        assert InSafeTriangle(p, apex, nearX) <==> 0.0 <= t <= 1.0 && Abs(dy) <= 80.0 * t;
      }
    }
  }

  // Stretches of hovers.

  /** What `Menu::handle_action` does to the zone for a leaf hover. */
  function Gate(z: Zone, p: Vec): Zone {
    var s := Verdict(z, p);
    z.(suppressing := s, last := if s then z.last else Some(p))
  }

  function GateAll(z: Zone, hovers: seq<Vec>): Zone {
    if hovers == [] then z else Gate(GateAll(z, hovers[..|hovers| - 1]), hovers[|hovers| - 1])
  }

  /** Hover `k` is not suppressed, after those before it. */
  ghost predicate Passes(z: Zone, hovers: seq<Vec>, k: nat)
    requires k < |hovers|
  {
    !Verdict(GateAll(z, hovers[..k]), hovers[k])
  }

  /** The latest hover that passes is `k`. */
  ghost predicate IsLastToPass(z: Zone, hovers: seq<Vec>, k: nat) {
    k < |hovers| && Passes(z, hovers, k) && forall j :: k < j < |hovers| ==> !Passes(z, hovers, j)
  }

  lemma PassesInPrefix(z: Zone, hovers: seq<Vec>, n: nat, k: nat)
    requires k < n <= |hovers|
    ensures Passes(z, hovers[..n], k) <==> Passes(z, hovers, k)
  {
    assert hovers[..n][..k] == hovers[..k];
  }

  /** After any hovers the answer remembered is that of the last one, the target is the same, and the apex
      is the last one that passed, or what it was when none did. */
  lemma {:induction false} ApexIsTheLastToPass(z: Zone, hovers: seq<Vec>)
    ensures GateAll(z, hovers).target == z.target
    ensures hovers != [] ==> (GateAll(z, hovers).suppressing <==> !Passes(z, hovers, |hovers| - 1))
    ensures (forall k :: 0 <= k < |hovers| ==> !Passes(z, hovers, k)) ==> GateAll(z, hovers).last == z.last
    ensures forall k: nat :: IsLastToPass(z, hovers, k) ==> GateAll(z, hovers).last == Some(hovers[k])
  {
    hide GateAll, Passes, Verdict;
    if hovers == [] {
      NoHovers(z);
    } else {
      var n := |hovers| - 1;
      var before := hovers[..n];
      ApexIsTheLastToPass(z, before);
      OneHoverMore(z, hovers);
      forall k | 0 <= k < n
        ensures Passes(z, before, k) <==> Passes(z, hovers, k)
      {
        PassesInPrefix(z, hovers, n, k);
      }
      forall k: nat | IsLastToPass(z, hovers, k)
        ensures GateAll(z, hovers).last == Some(hovers[k])
      {
        if k < n {
          assert IsLastToPass(z, before, k);
        }
      }
    }
  }

  lemma NoHovers(z: Zone)
    ensures GateAll(z, []) == z
  {
  }

  lemma OneHoverMore(z: Zone, hovers: seq<Vec>)
    requires hovers != []
    ensures var n := |hovers| - 1;
            var before, passes := GateAll(z, hovers[..n]), Passes(z, hovers, n);
            GateAll(z, hovers) ==
            before.(suppressing := !passes, last := if passes then Some(hovers[n]) else before.last)
  {
    hide Verdict;
  }

  /** Every hover of the stretch was suppressed. */
  ghost predicate AllSuppressed(z: Zone, hovers: seq<Vec>) {
    forall k :: 0 <= k < |hovers| ==> Verdict(GateAll(z, hovers[..k]), hovers[k])
  }

  ghost predicate NearTheApex(p: Vec, apex: Vec) {
    DistanceSquared(p, apex) < MIN_MOVEMENT_SQUARED
  }

  /** The points on the way from the apex to the near edge: the convex hull of the triangle, or the
      vertical line when the apex is level with the edge. */
  ghost predicate OnTheWay(p: Vec, apex: Vec, nearX: real) {
    if nearX != apex.x then InSafeHull(p, apex, nearX) else p.x == apex.x
  }

  lemma SuppressedMovesAreOnTheWay(z: Zone, p: Vec)
    requires Verdict(z, p)
    ensures z.target.Some? && z.last.Some? && !z.target.value.Contains(z.last.value)
    ensures if NearTheApex(p, z.last.value) then z.suppressing
            else OnTheWay(p, z.last.value, NearX(z.target.value, z.last.value))
  {
    hide InSafeTriangle, InSafeHull;
    var apex := z.last.value;
    var nearX := NearX(z.target.value, apex);
    FlatTriangleIsALine(p, apex);
    SignTestIsTheHullUnlessFlat(apex, nearX);
  }

  /**
   Through a stretch of suppressed hovers nothing moves: the apex stays the last position accepted
   before the stretch, outside the target; every position of the stretch is within distance 2 of that
   apex or in the convex hull of its one triangle, which is a vertical line when the apex is level with
   the near edge; and if the stretch began without suppression, its first position is not near the apex.
   */
  lemma {:induction false} SuppressedStretch(z: Zone, hovers: seq<Vec>)
    requires AllSuppressed(z, hovers)
    ensures GateAll(z, hovers) == z.(suppressing := if hovers == [] then z.suppressing else true)
    ensures hovers != [] ==> z.target.Some? && z.last.Some? && !z.target.value.Contains(z.last.value)
    ensures forall k :: 0 <= k < |hovers| ==>
              || NearTheApex(hovers[k], z.last.value)
              || OnTheWay(hovers[k], z.last.value, NearX(z.target.value, z.last.value))
    ensures hovers != [] && !z.suppressing ==> !NearTheApex(hovers[0], z.last.value)
  {
    hide Verdict, NearTheApex, OnTheWay, NearX;
    if hovers != [] {
      var n := |hovers| - 1;
      var before, p := hovers[..n], hovers[n];
      forall k | 0 <= k < n
        ensures Verdict(GateAll(z, before[..k]), before[k])
      {
        assert before[..k] == hovers[..k];
      }
      SuppressedStretch(z, before);
      SuppressedMovesAreOnTheWay(GateAll(z, before), p);
    }
  }

  /** From level with the near edge, a suppressed hover may be far outside the triangle and far from the
      apex. */
  lemma SuppressedOutsideTheTriangle()
    ensures var apex, p := Vec(0.0, -100.0), Vec(0.0, -1000.0);
            var z := Zone(Some(Rect(0.0, 0.0, 10.0, 10.0)), Some(apex), false);
            && AllSuppressed(z, [p]) && !NearTheApex(p, apex)
            && !InSafeHull(p, apex, NearX(z.target.value, apex))
  {
    var apex, p := Vec(0.0, -100.0), Vec(0.0, -1000.0);
    var z := Zone(Some(Rect(0.0, 0.0, 10.0, 10.0)), Some(apex), false);
    hide InSafeTriangle, InSafeHull;
    assert [p][..0] == [];
    FlatTriangleIsALine(p, apex);
    OutsideTheFlatHull(p, apex);
  }

  lemma OutsideTheFlatHull(p: Vec, apex: Vec)
    requires p.y < apex.y - VERTICAL_PADDING
    ensures !InSafeHull(p, apex, apex.x)
  {
    var a, b := Vec(apex.x, apex.y - VERTICAL_PADDING), Vec(apex.x, apex.y + VERTICAL_PADDING);
    if InHull(p, apex, a, b) {
      var u, v, w :| Weighs(p, apex, a, b, u, v, w);
      NoLowerThanTheVertices(p, b, apex, a, w, u, v);
      assert false;
    }
  }

  lemma NoLowerThanTheVertices(p: Vec, a: Vec, b: Vec, c: Vec, u: real, v: real, w: real)
    requires Weighs(p, a, b, c, u, v, w) && a.y >= c.y && b.y >= c.y
    ensures p.y >= c.y
  {
    ProductIsNonnegative(u, a.y - c.y);
    ProductIsNonnegative(v, b.y - c.y);
    assert (u + v + w) * c.y == c.y;
    assert p.y == (u + v + w) * c.y + u * (a.y - c.y) + v * (b.y - c.y);
  }
}
