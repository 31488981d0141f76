/*
 * Point sorting and the convex hull of app/shape.js.
 *
 * Pixel coordinates are JavaScript numbers in the source; here they are
 * integers, so the cross and dot products of RemoveInner are exact.
 */
module Shape {

  /** A pixel point `{x, y}` recorded during a gesture. */
  datatype Point = Point(x: int, y: int)

  /** The comparator handed to `Array.prototype.sort`: negative when `a` goes first. */
  function Compare(a: Point, b: Point): int
  {
    if a.x == b.x then a.y - b.y else a.x - b.x
  }

  /** Lexicographic order: by x, ties broken by y. */
  predicate LexLe(a: Point, b: Point)
  {
    a.x < b.x || (a.x == b.x && a.y <= b.y)
  }

  /**
   * The comparator is consistent in the sense `Array.prototype.sort` needs:
   * it agrees with LexLe, is zero exactly on equal points and is antisymmetric,
   * so every conforming engine produces the same sorted order.
   */
  lemma CompareIsLexicographic(a: Point, b: Point)
    ensures Compare(a, b) <= 0 <==> LexLe(a, b)
    ensures Compare(a, b) == 0 <==> a == b
    ensures Compare(a, b) == -Compare(b, a)
  {
  }

  ghost predicate Sorted(s: seq<Point>)
  {
    forall i, j :: 0 <= i < j < |s| ==> InOrder(s, i, j)
  }

  /** The points at indices i and j are in x-then-y order. */
  predicate InOrder(s: seq<Point>, i: int, j: int)
    requires 0 <= i < j < |s|
  {
    LexLe(s[i], s[j])
  }

  lemma SortedTail(s: seq<Point>)
    requires Sorted(s) && s != []
    ensures Sorted(s[1..])
  {
    forall i, j | 0 <= i < j < |s| - 1 ensures InOrder(s[1..], i, j) {
      assert s[1..][i] == s[i + 1] && s[1..][j] == s[j + 1];
      assert InOrder(s, i + 1, j + 1);
    }
  }

  /**
   * A sorted permutation is unique: whatever algorithm the engine runs,
   * sorting by this comparator yields one result.
   */
  lemma {:induction false} SortedUnique(s: seq<Point>, t: seq<Point>)
    requires Sorted(s) && Sorted(t)
    requires multiset(s) == multiset(t)
    ensures s == t
    decreases |s|
  {
    if s == [] {
      assert |t| == |multiset(t)| == 0;
    } else {
      assert |t| == |multiset(t)| == |multiset(s)| == |s| > 0;
      assert s == [s[0]] + s[1..];
      assert t == [t[0]] + t[1..];
      assert s[0] in multiset(t);
      var k :| 0 <= k < |t| && t[k] == s[0];
      if k > 0 {
        assert InOrder(t, 0, k);
      }
      assert t[0] in multiset(s);
      var m :| 0 <= m < |s| && s[m] == t[0];
      if m > 0 {
        assert InOrder(s, 0, m);
      }
      assert s[0] == t[0];
      assert multiset(s[1..]) == multiset(t[1..]) by {
        calc {
          multiset(s[1..]);
          multiset([s[0]] + s[1..]) - multiset{s[0]};
          multiset(t) - multiset{t[0]};
          multiset([t[0]] + t[1..]) - multiset{t[0]};
          multiset(t[1..]);
        }
      }
      SortedTail(s);
      SortedTail(t);
      SortedUnique(s[1..], t[1..]);
    }
  }

  /** Exchanges two neighbouring points. */
  method SwapAdjacent(a: array<Point>, j: int)
    requires 0 < j < a.Length
    modifies a
    ensures a[..] == old(a[..])[j - 1 := old(a[j])][j := old(a[j - 1])]
    ensures multiset(a[..]) == multiset(old(a[..]))
  {
    a[j - 1], a[j] := a[j], a[j - 1];
  }

  /** One insertion step: the sorted prefix of length i grows to i + 1. */
  method InsertNext(a: array<Point>, i: int)
    requires 0 <= i < a.Length
    requires forall p, q :: 0 <= p < q < i ==> LexLe(a[p], a[q])
    modifies a
    ensures forall p, q :: 0 <= p < q <= i ==> LexLe(a[p], a[q])
    ensures multiset(a[..]) == multiset(old(a[..]))
  {
    var j := i;
    while j > 0 && Compare(a[j - 1], a[j]) > 0
      invariant 0 <= j <= i
      invariant forall p, q :: 0 <= p < q <= i && p != j && q != j ==> LexLe(a[p], a[q])
      invariant forall q :: j < q <= i ==> LexLe(a[j], a[q])
      invariant multiset(a[..]) == multiset(old(a[..]))
    {
      CompareIsLexicographic(a[j - 1], a[j]);
      SwapAdjacent(a, j);
      j := j - 1;
    }
    if j > 0 {
      CompareIsLexicographic(a[j - 1], a[j]);
    }
  }

  /**
   * `sortPoints`: sorts the caller's array in place (here by insertion, the
   * engine's own algorithm being out of reach) and returns that same array.
   */
  method SortPoints(a: array<Point>) returns (r: array<Point>)
    modifies a
    ensures r == a
    ensures Sorted(a[..])
    ensures multiset(a[..]) == multiset(old(a[..]))
  {
    var i := 0;
    while i < a.Length
      invariant 0 <= i <= a.Length
      invariant forall p, q :: 0 <= p < q < i ==> LexLe(a[p], a[q])
      invariant multiset(a[..]) == multiset(old(a[..]))
    {
      InsertNext(a, i);
      i := i + 1;
    }
    r := a;
  }

  /**
   * The cross product `removeInner` tests, of the vectors from b to a and
   * from b to c.  For a hull edge from a to b, a point c with a
   * non-negative value lies on the side of the edge that the hull keeps.
   */
  function Cross(a: Point, b: Point, c: Point): int
  {
    (a.x - b.x) * (c.y - b.y) - (a.y - b.y) * (c.x - b.x)
  }

  /** The dot product `removeInner` tests, of the same two vectors. */
  function Dot(a: Point, b: Point, c: Point): int
  {
    (a.x - b.x) * (c.x - b.x) + (a.y - b.y) * (c.y - b.y)
  }

  /**
   * `removeInner(a, b, c)`: b is not a strict left turn from a to c (on
   * screen, where y grows downward), so it leaves the hull.  A point
   * repeated next to b always makes b inner.
   */
  function RemoveInner(a: Point, b: Point, c: Point): (inner: bool)
    ensures a == b || b == c ==> inner
  {
    var crossProduct := Cross(a, b, c);
    var dotProduct := Dot(a, b, c);
    crossProduct < 0 || (crossProduct == 0 && dotProduct <= 0)
  }

  /**
   * On a line through b with direction (dx, dy), with a at offset s and c at
   * offset t: b is inner exactly when it does not lie beyond both a and c,
   * that is when a and c are on opposite sides of b or one of them is b.
   */
  lemma RemoveInnerCollinear(b: Point, dx: int, dy: int, s: int, t: int)
    requires dx != 0 || dy != 0
    ensures RemoveInner(Point(b.x + s * dx, b.y + s * dy), b, Point(b.x + t * dx, b.y + t * dy)) <==> s * t <= 0
  {
    var a, c := Point(b.x + s * dx, b.y + s * dy), Point(b.x + t * dx, b.y + t * dy);
    assert a.x - b.x == s * dx && a.y - b.y == s * dy;
    assert c.x - b.x == t * dx && c.y - b.y == t * dy;
    assert Cross(a, b, c) == 0 by {
      assert (s * dx) * (t * dy) == (s * t) * (dx * dy);
      assert (s * dy) * (t * dx) == (s * t) * (dx * dy);
    }
    var len := dx * dx + dy * dy;
    assert len > 0 by {
      if dx != 0 { assert dx * dx > 0; } else { assert dy * dy > 0; }
      assert dx * dx >= 0 && dy * dy >= 0;
    }
    assert Dot(a, b, c) == (s * t) * len;
    if s * t <= 0 {
      assert (s * t) * len <= 0;
    } else {
      assert (s * t) * len > 0;
    }
  }

  /**
   * Away from a line, b is inner in exactly one of the two sweep
   * directions: a right turn from a to c is a left turn from c to a.
   */
  lemma RemoveInnerReversed(a: Point, b: Point, c: Point)
    requires Cross(a, b, c) != 0
    ensures RemoveInner(a, b, c) <==> !RemoveInner(c, b, a)
  {
    assert Cross(c, b, a) == -Cross(a, b, c);
  }

  /** The point after index k is inner between its neighbours. */
  predicate InnerAt(s: seq<Point>, k: int)
    requires 0 <= k < |s| - 2
  {
    RemoveInner(s[k], s[k + 1], s[k + 2])
  }

  /** The stack invariant of the hull: no three consecutive points are inner. */
  predicate NoInnerTriple(s: seq<Point>)
  {
    forall k :: 0 <= k < |s| - 2 ==> !InnerAt(s, k)
  }

  /** The index `j` for step `i` of the forward-then-backward sweep. */
  function SweepIndex(i: nat, n: nat): (j: nat)
    requires i < 2 * n
    ensures j < n
    ensures i < n ==> j == i
    ensures n <= i ==> i + j == 2 * n - 1
  {
    if i < n then i else 2 * n - 1 - i
  }

  /** `Array.prototype.pop` on the hull: removes the last point, if any. */
  function Pop(s: seq<Point>): (r: seq<Point>)
    ensures s == [] ==> r == []
    ensures s != [] ==> r + [s[|s| - 1]] == s
  {
    if s == [] then [] else s[..|s| - 1]
  }

  /** The first m points of h end in a triple whose middle c makes inner, so the sweep pops h[m - 1]. */
  predicate PoppedAt(h: seq<Point>, m: int, c: Point)
    requires 0 < m <= |h|
  {
    m >= 2 && RemoveInner(h[m - 2], h[m - 1], c)
  }

  /**
   * The pops of one sweep step: the hull without the points that c makes
   * inner.  Every point popped was inner when it was on top, and the top
   * left is not.
   */
  function PopAll(h: seq<Point>, c: Point): (r: seq<Point>)
    ensures |r| <= |h| && r == h[..|r|]
    ensures h != [] ==> r != []
    ensures forall m :: |r| < m <= |h| ==> PoppedAt(h, m, c)
    ensures !(|r| >= 2 && RemoveInner(r[|r| - 2], r[|r| - 1], c))
    decreases |h|
  {
    if |h| >= 2 && RemoveInner(h[|h| - 2], h[|h| - 1], c) then
      var g := h[..|h| - 1];
      var r := PopAll(g, c);
      assert forall m :: |r| < m <= |h| ==> PoppedAt(h, m, c) by {
        forall m | |r| < m <= |h| ensures PoppedAt(h, m, c) {
          if m < |h| {
            assert PoppedAt(g, m, c);
            assert g[m - 2] == h[m - 2] && g[m - 1] == h[m - 1];
          }
        }
      }
      r
    else
      h
  }

  /** Every prefix of a hull with no inner triple has none. */
  lemma PrefixNoInner(h: seq<Point>, k: int)
    requires NoInnerTriple(h) && 0 <= k <= |h|
    ensures NoInnerTriple(h[..k])
  {
    var s := h[..k];
    forall m | 0 <= m < |s| - 2 ensures !InnerAt(s, m) {
      assert s[m] == h[m] && s[m + 1] == h[m + 1] && s[m + 2] == h[m + 2];
      assert !InnerAt(h, m);
    }
  }

  /** Pushing a point that makes no hull point inner keeps every triple outer. */
  lemma PushKeepsNoInner(h: seq<Point>, c: Point)
    requires NoInnerTriple(h) && !(|h| >= 2 && RemoveInner(h[|h| - 2], h[|h| - 1], c))
    ensures NoInnerTriple(h + [c])
  {
    var s := h + [c];
    forall k | 0 <= k < |s| - 2 ensures !InnerAt(s, k) {
      if k < |h| - 2 {
        assert s[k] == h[k] && s[k + 1] == h[k + 1] && s[k + 2] == h[k + 2];
        assert !InnerAt(h, k);
      }
    }
  }

  /** PopAll drops the top while c makes it inner, and stops otherwise. */
  lemma PopAllStep(h: seq<Point>, c: Point)
    ensures |h| >= 2 && RemoveInner(h[|h| - 2], h[|h| - 1], c) ==> PopAll(h, c) == PopAll(h[..|h| - 1], c)
    ensures !(|h| >= 2 && RemoveInner(h[|h| - 2], h[|h| - 1], c)) ==> PopAll(h, c) == h
  {
  }

  /** The hull that the sweep steps from step i on build from the hull h. */
  function SweepFrom(ps: seq<Point>, h: seq<Point>, i: nat): seq<Point>
    requires i <= 2 * |ps|
    decreases 2 * |ps| - i
  {
    if i == 2 * |ps| then h
    else
      var c := ps[SweepIndex(i, |ps|)];
      SweepFrom(ps, PopAll(h, c) + [c], i + 1)
  }

  // ---------------------------------------------------------------- enclosure

  /** The vector from b to a. */
  function Sub(a: Point, b: Point): Point
  {
    Point(a.x - b.x, a.y - b.y)
  }

  /** The determinant of two vectors: non-negative when v does not turn back clockwise from u. */
  function Det(u: Point, v: Point): int
  {
    u.x * v.y - u.y * v.x
  }

  /** b comes no earlier than a in a sweep: x-then-y order forward, its reverse backward. */
  predicate Ahead(a: Point, b: Point, fwd: bool)
  {
    if fwd then LexLe(a, b) else LexLe(b, a)
  }

  /**
   * Every point of `ps` is on the kept side of every edge of `ring`: the
   * polygon the ring outlines encloses them.
   */
  ghost predicate Encloses(ring: seq<Point>, ps: set<Point>)
  {
    forall k, p :: 0 <= k < |ring| - 1 && p in ps ==> KeptBy(ring, k, p)
  }

  /** p is on the kept side of the ring's edge from index k to k + 1. */
  predicate KeptBy(ring: seq<Point>, k: int, p: Point)
    requires 0 <= k < |ring| - 1
  {
    Cross(ring[k], ring[k + 1], p) >= 0
  }

  /**
   * Vectors that all point ahead, in x-then-y order, are ordered by angle:
   * the determinant test is transitive among them.
   */
  lemma DetTransitiveForward(u: Point, v: Point, w: Point)
    requires LexLe(Point(0, 0), u) && LexLe(Point(0, 0), w)
    requires LexLe(Point(0, 0), v) && v != Point(0, 0)
    requires Det(u, v) >= 0 && Det(v, w) >= 0
    ensures Det(u, w) >= 0
  {
    if v.x > 0 {
      assert Det(v, w) * u.x + Det(w, u) * v.x + Det(u, v) * w.x == 0;
      assert Det(v, w) * u.x >= 0 && Det(u, v) * w.x >= 0;
      assert Det(w, u) * v.x <= 0;
    } else {
      assert -v.y * w.x >= 0;
      assert w.x == 0;
      assert Det(u, w) == u.x * w.y;
    }
  }

  /** The same in either sweep direction. */
  lemma DetTransitive(u: Point, v: Point, w: Point, fwd: bool)
    requires Ahead(Point(0, 0), u, fwd) && Ahead(Point(0, 0), w, fwd)
    requires Ahead(Point(0, 0), v, fwd) && v != Point(0, 0)
    requires Det(u, v) >= 0 && Det(v, w) >= 0
    ensures Det(u, w) >= 0
  {
    if fwd {
      DetTransitiveForward(u, v, w);
    } else {
      DetTransitiveForward(Point(-u.x, -u.y), Point(-v.x, -v.y), Point(-w.x, -w.y));
    }
  }

  /**
   * Popping b, the top of the hull after a, because b is inner towards the
   * next point c: every point from a onwards that was on the kept side of
   * a→b, and of b→c when it lies beyond b, is on the kept side of a→c.
   */
  lemma PopKeepsSide(a: Point, b: Point, c: Point, p: Point, fwd: bool)
    requires Ahead(a, b, fwd) && Ahead(b, c, fwd) && Ahead(p, c, fwd) && Ahead(a, p, fwd)
    requires Cross(a, b, c) <= 0 && Cross(a, b, p) >= 0
    requires Ahead(b, p, fwd) ==> Cross(b, c, p) >= 0
    ensures Cross(a, c, p) >= 0
  {
    if !Ahead(b, p, fwd) {
      PopKeepsBehind(a, b, c, p, fwd);
    } else if c != b {
      PopKeepsBeyond(a, b, c, p, fwd);
    }
  }

  /** PopKeepsSide for a point beyond b: it turns from b→c the way a→b→c does. */
  lemma PopKeepsBeyond(a: Point, b: Point, c: Point, p: Point, fwd: bool)
    requires Ahead(a, b, fwd) && Ahead(b, c, fwd) && Ahead(p, c, fwd) && c != b
    requires Cross(a, b, c) <= 0 && Cross(b, c, p) >= 0
    ensures Cross(a, c, p) >= 0
  {
    assert Det(Sub(c, a), Sub(c, b)) == -Cross(a, b, c);
    assert Det(Sub(c, b), Sub(c, p)) == Cross(b, c, p);
    assert Det(Sub(c, a), Sub(c, p)) == Cross(a, c, p);
    DetTransitive(Sub(c, a), Sub(c, b), Sub(c, p), fwd);
  }

  /** PopKeepsSide for a point before b: a→p turns towards b, and a→b towards c. */
  lemma PopKeepsBehind(a: Point, b: Point, c: Point, p: Point, fwd: bool)
    requires Ahead(a, b, fwd) && Ahead(b, c, fwd) && Ahead(a, p, fwd) && !Ahead(b, p, fwd)
    requires Cross(a, b, c) <= 0 && Cross(a, b, p) >= 0
    ensures Cross(a, c, p) >= 0
  {
    assert Det(Sub(p, a), Sub(b, a)) == Cross(a, b, p);
    assert Det(Sub(b, a), Sub(c, a)) == -Cross(a, b, c);
    assert Det(Sub(p, a), Sub(c, a)) == Cross(a, c, p);
    DetTransitive(Sub(p, a), Sub(b, a), Sub(c, a), fwd);
  }

  /**
   * Pushing c after t, whose predecessor is t1: c is on the kept side of an
   * earlier edge a→b, given that t1→t turns towards c and that a, t and t1
   * are on the kept sides of the edges they do not belong to.
   */
  lemma PushKeepsEdge(a: Point, b: Point, t1: Point, t: Point, c: Point, fwd: bool)
    requires Ahead(a, b, fwd) && Ahead(b, t1, fwd) && a != t1
    requires Ahead(t1, t, fwd) && t1 != t && Ahead(t, c, fwd)
    requires Cross(t1, t, c) >= 0 && Cross(t1, t, a) >= 0
    requires Cross(a, b, t1) >= 0 && Cross(a, b, t) >= 0
    ensures Cross(a, b, c) >= 0
  {
    assert Det(Sub(c, t), Sub(t1, a)) >= 0 by {
      assert Det(Sub(c, t), Sub(t, t1)) == Cross(t1, t, c);
      assert Det(Sub(t, t1), Sub(t1, a)) == Cross(t1, t, a);
      DetTransitive(Sub(c, t), Sub(t, t1), Sub(t1, a), fwd);
    }
    assert Det(Sub(c, t), Sub(b, a)) >= 0 by {
      assert Det(Sub(t1, a), Sub(b, a)) == Cross(a, b, t1);
      assert Ahead(a, t1, fwd);
      DetTransitive(Sub(c, t), Sub(t1, a), Sub(b, a), fwd);
    }
    assert Cross(a, b, c) == Det(Sub(c, t), Sub(b, a)) + Cross(a, b, t);
  }

  /**
   * Pushing c after t, whose predecessor is t1: a point before t on the
   * kept side of t1→t is on the kept side of the new edge t→c.
   */
  lemma PushKeepsBehind(t1: Point, t: Point, c: Point, p: Point, fwd: bool)
    requires Ahead(t1, t, fwd) && t1 != t && Ahead(t, c, fwd)
    requires Ahead(p, t, fwd) && p != t
    requires Cross(t1, t, c) >= 0 && Cross(t1, t, p) >= 0
    ensures Cross(t, c, p) >= 0
  {
    assert Det(Sub(c, t), Sub(t, t1)) == Cross(t1, t, c);
    assert Det(Sub(t, t1), Sub(t, p)) == Cross(t1, t, p);
    DetTransitive(Sub(c, t), Sub(t, t1), Sub(t, p), fwd);
    assert Cross(t, c, p) == Det(Sub(c, t), Sub(t, p));
  }

  /**
   * A point c no further than b, on the kept side of a→b, makes b inner
   * only when it is b itself: then c lies on the line beyond a, on b's side.
   */
  lemma InnerOnlyAtEnd(a: Point, b: Point, c: Point)
    requires LexLe(a, b) && a != b && LexLe(c, b)
    requires Cross(a, b, c) >= 0 && RemoveInner(a, b, c)
    ensures c == b
  {
    var u, v := Sub(a, b), Sub(c, b);
    assert Cross(a, b, c) == 0 && Dot(a, b, c) <= 0;
    assert u.x * v.y == u.y * v.x;
    if u.x < 0 {
      assert u.x * Dot(a, b, c) == v.x * (u.x * u.x + u.y * u.y);
      assert u.x * Dot(a, b, c) >= 0;
      assert u.x * u.x + u.y * u.y > 0;
      assert v.x >= 0;
      assert v.x == 0;
      assert u.x * v.y == 0;
    } else {
      assert u.y < 0;
      assert u.y * v.x == 0;
      assert v.x == 0;
      assert Dot(a, b, c) == u.y * v.y;
    }
  }

  /**
   * A half-built hull over the points `qs` seen so far in one sweep: its
   * points are seen points in sweep order, starting at the first of them,
   * no triple is inner, and every seen point is on the kept side of every
   * edge.
   */
  ghost predicate ChainOver(h: seq<Point>, qs: set<Point>, fwd: bool)
  {
    && h != []
    && (forall k :: 0 <= k < |h| ==> h[k] in qs)
    && (forall k, l :: 0 <= k < l < |h| ==> AheadAt(h, k, l, fwd))
    && (forall p :: p in qs ==> Ahead(h[0], p, fwd))
    && NoInnerTriple(h)
    && Encloses(h, qs)
  }

  /** The hull points at indices k and l are in sweep order. */
  predicate AheadAt(h: seq<Point>, k: int, l: int, fwd: bool)
    requires 0 <= k < l < |h|
  {
    Ahead(h[k], h[l], fwd)
  }

  /** c comes after every seen point. */
  ghost predicate After(qs: set<Point>, c: Point, fwd: bool)
  {
    forall p :: p in qs ==> Ahead(p, c, fwd)
  }

  /** Every seen point beyond the top of the hull is on the kept side of the edge from the top to c. */
  ghost predicate SeesBeyondTop(h: seq<Point>, qs: set<Point>, c: Point, fwd: bool)
    requires h != []
  {
    forall p :: p in qs && Ahead(h[|h| - 1], p, fwd) ==> Cross(h[|h| - 1], c, p) >= 0
  }

  /** A hull of three or more points never repeats a point. */
  lemma ChainDistinct(h: seq<Point>, qs: set<Point>, fwd: bool)
    requires ChainOver(h, qs, fwd) && |h| >= 3
    ensures forall k, l :: 0 <= k < l < |h| ==> h[k] != h[l]
  {
    forall k | 0 <= k < |h| - 1 ensures h[k] != h[k + 1] {
      if k == 0 {
        assert !InnerAt(h, 0);
      } else {
        assert !InnerAt(h, k - 1);
      }
    }
    forall k, l | 0 <= k < l < |h| ensures h[k] != h[l] {
      if k + 1 < l {
        assert AheadAt(h, k, k + 1, fwd) && AheadAt(h, k + 1, l, fwd);
      }
    }
  }

  /** At the start of a step the top of the hull is the last seen point, so nothing seen lies beyond it. */
  lemma TopSeesBeyond(h: seq<Point>, qs: set<Point>, c: Point, fwd: bool)
    requires h != [] && forall p :: p in qs ==> Ahead(p, h[|h| - 1], fwd)
    ensures SeesBeyondTop(h, qs, c, fwd)
  {
    forall p | p in qs && Ahead(h[|h| - 1], p, fwd) ensures Cross(h[|h| - 1], c, p) >= 0 {
      assert p == h[|h| - 1];
    }
  }

  /** Popping an inner top keeps the hull over the seen points and what it sees beyond its top. */
  lemma PopStep(h: seq<Point>, qs: set<Point>, c: Point, fwd: bool)
    requires ChainOver(h, qs, fwd) && |h| >= 2
    requires After(qs, c, fwd) && SeesBeyondTop(h, qs, c, fwd)
    requires RemoveInner(h[|h| - 2], h[|h| - 1], c)
    ensures ChainOver(h[..|h| - 1], qs, fwd) && SeesBeyondTop(h[..|h| - 1], qs, c, fwd)
  {
    var a, b := h[|h| - 2], h[|h| - 1];
    var g := h[..|h| - 1];
    assert forall k :: 0 <= k < |g| ==> g[k] == h[k];
    PrefixNoInner(h, |h| - 1);
    forall k, l | 0 <= k < l < |g| ensures AheadAt(g, k, l, fwd) {
      assert AheadAt(h, k, l, fwd);
    }
    forall k, p | 0 <= k < |g| - 1 && p in qs ensures KeptBy(g, k, p) {
      assert KeptBy(h, k, p);
    }
    assert AheadAt(h, |h| - 2, |h| - 1, fwd);
    forall p | p in qs && Ahead(a, p, fwd) ensures Cross(a, c, p) >= 0 {
      assert KeptBy(h, |h| - 2, p);
      PopKeepsSide(a, b, c, p, fwd);
    }
  }

  /** Pushing c once no inner top is left extends the hull to the seen points and c. */
  lemma PushStep(h: seq<Point>, qs: set<Point>, c: Point, fwd: bool)
    requires ChainOver(h, qs, fwd)
    requires After(qs, c, fwd) && SeesBeyondTop(h, qs, c, fwd)
    requires |h| >= 2 ==> !RemoveInner(h[|h| - 2], h[|h| - 1], c)
    ensures ChainOver(h + [c], qs + {c}, fwd)
  {
    var g, t := h + [c], h[|h| - 1];
    assert forall k :: 0 <= k < |h| ==> g[k] == h[k];
    if |h| >= 3 {
      ChainDistinct(h, qs, fwd);
    }
    PushKeepsNoInner(h, c);
    forall k, l | 0 <= k < l < |g| ensures AheadAt(g, k, l, fwd) {
      if l < |h| {
        assert AheadAt(h, k, l, fwd);
      }
    }
    forall k, p | 0 <= k < |g| - 1 && p in qs + {c} ensures KeptBy(g, k, p) {
      if k < |h| - 1 {
        if p != c {
          assert KeptBy(h, k, p);
        } else if k < |h| - 2 {
          assert KeptBy(h, k, h[|h| - 2]) && KeptBy(h, k, t) && KeptBy(h, |h| - 2, h[k]);
          assert AheadAt(h, k, k + 1, fwd) && AheadAt(h, |h| - 2, |h| - 1, fwd);
          if k + 1 < |h| - 2 {
            assert AheadAt(h, k + 1, |h| - 2, fwd);
          }
          PushKeepsEdge(h[k], h[k + 1], h[|h| - 2], t, c, fwd);
        }
      } else if p == c {
        assert Cross(t, c, c) == 0;
      } else if !Ahead(t, p, fwd) {
        assert |h| >= 2 && KeptBy(h, |h| - 2, p) && AheadAt(h, |h| - 2, |h| - 1, fwd);
        PushKeepsBehind(h[|h| - 2], t, c, p, fwd);
      }
    }
  }

  /** The points of a sequence, as a set. */
  ghost function Elems(s: seq<Point>): set<Point>
  {
    set p | p in s
  }

  /** The points of ps from index lo up to, not including, hi. */
  ghost function Seen(ps: seq<Point>, lo: int, hi: int): set<Point>
    requires 0 <= lo <= hi <= |ps|
  {
    set k | lo <= k < hi :: ps[k]
  }

  /** The points of a sorted slice lie between the slice's neighbours in x-then-y order. */
  lemma SeenBounded(ps: seq<Point>, lo: int, hi: int, l: int)
    requires Sorted(ps) && 0 <= lo <= hi <= |ps| && 0 <= l < |ps|
    ensures hi <= l + 1 ==> forall p :: p in Seen(ps, lo, hi) ==> LexLe(p, ps[l])
    ensures l <= lo ==> forall p :: p in Seen(ps, lo, hi) ==> LexLe(ps[l], p)
  {
    forall p | p in Seen(ps, lo, hi)
      ensures (hi <= l + 1 ==> LexLe(p, ps[l])) && (l <= lo ==> LexLe(ps[l], p))
    {
      var k :| lo <= k < hi && ps[k] == p;
      if k < l {
        assert InOrder(ps, k, l);
      } else if l < k {
        assert InOrder(ps, l, k);
      }
    }
  }

  /** One more index adds its point. */
  lemma SeenGrow(ps: seq<Point>, lo: int, hi: int)
    requires 0 <= lo <= hi <= |ps|
    ensures hi < |ps| ==> Seen(ps, lo, hi + 1) == Seen(ps, lo, hi) + {ps[hi]}
    ensures 0 < lo ==> Seen(ps, lo - 1, hi) == Seen(ps, lo, hi) + {ps[lo - 1]}
  {
  }

  /** All the indices give all the points. */
  lemma SeenAll(ps: seq<Point>)
    ensures Seen(ps, 0, |ps|) == Elems(ps)
  {
    forall p | p in Elems(ps) ensures p in Seen(ps, 0, |ps|) {
      var k :| 0 <= k < |ps| && ps[k] == p;
    }
  }

  /** Reordering the points keeps the same set. */
  lemma ElemsOfPermutation(a: seq<Point>, b: seq<Point>)
    requires multiset(a) == multiset(b)
    ensures Elems(a) == Elems(b)
  {
    forall p ensures p in a <==> p in b {
      assert p in a <==> p in multiset(a);
      assert p in b <==> p in multiset(b);
    }
  }

  /** A single seen point that comes first is a hull over the seen points. */
  lemma ChainSingle(p: Point, qs: set<Point>, fwd: bool)
    requires p in qs && forall q :: q in qs ==> Ahead(p, q, fwd)
    ensures ChainOver([p], qs, fwd)
  {
  }

  /** Where the seen points of the backward sweep start before step i: the last point counts as seen from the turn on. */
  function BackFrom(i: int, n: int): int
  {
    if i == n then n - 1 else 2 * n - i
  }

  /**
   * The hull before step i of the sweep over the sorted points ps.  Going
   * forward it is a chain over ps[..i] ending at the last of them.  From the
   * turn on it is the finished forward chain `lower`, continued by a
   * backward chain over ps[BackFrom(i, n)..] that starts at lower's last
   * point and ends at the last point visited.
   */
  ghost predicate Swept(ps: seq<Point>, hull: seq<Point>, lower: seq<Point>, i: int)
  {
    var n := |ps|;
    && 0 <= i <= 2 * n
    && (i == 0 ==> hull == [])
    && (0 < i <= n ==> ChainOver(hull, Seen(ps, 0, i), true) && hull[|hull| - 1] == ps[i - 1])
    && (0 < n <= i ==>
          && ChainOver(lower, Seen(ps, 0, |ps|), true) && lower[|lower| - 1] == ps[n - 1]
          && |hull| >= |lower| && hull[..|lower|] == lower
          && ChainOver(hull[|lower| - 1..], Seen(ps, BackFrom(i, n), n), false)
          && hull[|hull| - 1] == ps[BackFrom(i, n)])
  }

  /**
   * The hull while step i pops.  Going backward it may lose lower's last
   * point, but only when the next point equals it, and then popping stops.
   */
  ghost predicate Popping(ps: seq<Point>, hull: seq<Point>, lower: seq<Point>, i: int)
    requires 0 <= i < 2 * |ps|
  {
    var n, c := |ps|, ps[SweepIndex(i, |ps|)];
    && (i == 0 ==> hull == [])
    && (0 < i < n ==> ChainOver(hull, Seen(ps, 0, i), true) && SeesBeyondTop(hull, Seen(ps, 0, i), c, true))
    && (n <= i ==>
          && ChainOver(lower, Seen(ps, 0, |ps|), true) && lower[|lower| - 1] == ps[n - 1]
          && |hull| >= |lower| - 1
          && (|hull| >= |lower| ==>
                && hull[..|lower|] == lower
                && ChainOver(hull[|lower| - 1..], Seen(ps, BackFrom(i, n), n), false)
                && SeesBeyondTop(hull[|lower| - 1..], Seen(ps, BackFrom(i, n), n), c, false))
          && (|hull| == |lower| - 1 ==>
                && hull == lower[..|lower| - 1] && c == lower[|lower| - 1]
                && !(|hull| >= 2 && RemoveInner(hull[|hull| - 2], hull[|hull| - 1], c))))
  }

  lemma BeginPops(ps: seq<Point>, hull: seq<Point>, lower: seq<Point>, i: int)
    requires Sorted(ps) && Swept(ps, hull, lower, i) && i < 2 * |ps|
    ensures Popping(ps, hull, lower, i)
  {
    var n, c := |ps|, ps[SweepIndex(i, |ps|)];
    if 0 < i < n {
      SeenBounded(ps, 0, i, i - 1);
      TopSeesBeyond(hull, Seen(ps, 0, i), c, true);
    }
    if n <= i {
      var u := hull[|lower| - 1..];
      SeenBounded(ps, BackFrom(i, n), n, BackFrom(i, n));
      assert u[|u| - 1] == hull[|hull| - 1];
      TopSeesBeyond(u, Seen(ps, BackFrom(i, n), n), c, false);
    }
  }

  lemma PopHull(ps: seq<Point>, hull: seq<Point>, lower: seq<Point>, i: int)
    requires Sorted(ps) && 0 <= i < 2 * |ps| && Popping(ps, hull, lower, i)
    requires |hull| >= 2 && RemoveInner(hull[|hull| - 2], hull[|hull| - 1], ps[SweepIndex(i, |ps|)])
    ensures Popping(ps, hull[..|hull| - 1], lower, i)
  {
    var n, j := |ps|, SweepIndex(i, |ps|);
    var c := ps[j];
    if 0 < i < n {
      SeenBounded(ps, 0, i, i);
      PopStep(hull, Seen(ps, 0, i), c, true);
    }
    if n <= i {
      var m := |lower|;
      assert |hull| >= m;
      var b := BackFrom(i, n);
      var qs := Seen(ps, b, n);
      if |hull| > m {
        var u := hull[m - 1..];
        SeenBounded(ps, b, n, j);
        assert u[|u| - 2] == hull[|hull| - 2] && u[|u| - 1] == hull[|hull| - 1];
        PopStep(u, qs, c, false);
        assert hull[..|hull| - 1][m - 1..] == u[..|u| - 1];
        assert hull[..|hull| - 1][..m] == lower;
      } else {
        assert hull == lower;
        assert c in Seen(ps, 0, n);
        SeenBounded(ps, 0, n, n - 1);
        assert LexLe(c, lower[m - 1]);
        assert KeptBy(lower, m - 2, c) && AheadAt(lower, m - 2, m - 1, true);
        if m >= 3 {
          ChainDistinct(lower, Seen(ps, 0, n), true);
          InnerOnlyAtEnd(lower[m - 2], lower[m - 1], c);
          assert !InnerAt(lower, m - 3);
        } else if lower[0] != lower[1] {
          InnerOnlyAtEnd(lower[0], lower[1], c);
        } else {
          assert LexLe(lower[0], c);
        }
      }
    }
  }

  lemma PushHull(ps: seq<Point>, hull: seq<Point>, lower: seq<Point>, next: seq<Point>, c: Point, i: int)
    requires Sorted(ps) && 0 <= i < 2 * |ps| && Popping(ps, hull, lower, i)
    requires c == ps[SweepIndex(i, |ps|)] && next == if i + 1 == |ps| then hull + [c] else lower
    requires !(|hull| >= 2 && RemoveInner(hull[|hull| - 2], hull[|hull| - 1], c))
    ensures Swept(ps, hull + [c], next, i + 1)
  {
    if i < |ps| {
      PushForward(ps, hull, lower, i);
    } else {
      PushBackward(ps, hull, lower, i);
    }
  }

  lemma PushForward(ps: seq<Point>, hull: seq<Point>, lower: seq<Point>, i: int)
    requires Sorted(ps) && 0 <= i < |ps| && Popping(ps, hull, lower, i)
    requires !(|hull| >= 2 && RemoveInner(hull[|hull| - 2], hull[|hull| - 1], ps[i]))
    ensures Swept(ps, hull + [ps[i]], if i + 1 == |ps| then hull + [ps[i]] else lower, i + 1)
  {
    if i == 0 {
      assert Seen(ps, 0, 1) == {ps[0]};
      ChainSingle(ps[0], Seen(ps, 0, 1), true);
    } else {
      SeenBounded(ps, 0, i, i);
      SeenGrow(ps, 0, i);
      PushStep(hull, Seen(ps, 0, i), ps[i], true);
    }
    if i + 1 == |ps| {
      SweptTurn(ps, hull + [ps[i]]);
    }
  }

  /** The forward chain over all the points, ending at the last, is where the backward sweep starts. */
  lemma SweptTurn(ps: seq<Point>, h: seq<Point>)
    requires |ps| > 0 && ChainOver(h, Seen(ps, 0, |ps|), true) && h[|h| - 1] == ps[|ps| - 1]
    ensures Swept(ps, h, h, |ps|)
  {
    var n := |ps|;
    assert Seen(ps, n - 1, n) == {ps[n - 1]};
    ChainSingle(ps[n - 1], Seen(ps, n - 1, n), false);
    assert h[|h| - 1..] == [ps[n - 1]];
    assert h[..|h|] == h;
  }

  /** Stepping backward adds the point visited to the seen points. */
  lemma BackSeen(ps: seq<Point>, i: int)
    requires |ps| <= i < 2 * |ps|
    ensures Seen(ps, 2 * |ps| - 1 - i, |ps|) == Seen(ps, BackFrom(i, |ps|), |ps|) + {ps[2 * |ps| - 1 - i]}
  {
    var n, j := |ps|, 2 * |ps| - 1 - i;
    if i == n {
      assert ps[j] in Seen(ps, j, n);
    } else {
      SeenGrow(ps, j + 1, n);
    }
  }

  lemma PushBackward(ps: seq<Point>, hull: seq<Point>, lower: seq<Point>, i: int)
    requires Sorted(ps) && |ps| <= i < 2 * |ps| && Popping(ps, hull, lower, i)
    requires !(|hull| >= 2 && RemoveInner(hull[|hull| - 2], hull[|hull| - 1], ps[2 * |ps| - 1 - i]))
    ensures Swept(ps, hull + [ps[2 * |ps| - 1 - i]], lower, i + 1)
  {
    BackSeen(ps, i);
    if |hull| == |lower| - 1 {
      PushBackTurn(ps, hull, lower, i);
    } else {
      var n, j := |ps|, 2 * |ps| - 1 - i;
      var b := BackFrom(i, n);
      SeenBounded(ps, b, n, j);
      PushBackOn(ps, hull, lower, ps[j], i);
      SweptBack(ps, hull, lower, ps[j], i + 1);
    }
  }

  /** The first backward point pushed after popping lower's last point puts it back. */
  lemma PushBackTurn(ps: seq<Point>, hull: seq<Point>, lower: seq<Point>, i: int)
    requires Sorted(ps) && |ps| <= i < 2 * |ps| && Popping(ps, hull, lower, i)
    requires |hull| == |lower| - 1
    requires Seen(ps, 2 * |ps| - 1 - i, |ps|) == Seen(ps, BackFrom(i, |ps|), |ps|) + {ps[2 * |ps| - 1 - i]}
    ensures Swept(ps, hull + [ps[2 * |ps| - 1 - i]], lower, i + 1)
  {
    var n, j := |ps|, 2 * |ps| - 1 - i;
    var c, m := ps[j], |lower|;
    var h := hull + [c];
    assert BackFrom(i + 1, n) == j;
    assert h == lower;
    SeenBounded(ps, j, n, n - 1);
    ChainSingle(c, Seen(ps, j, n), false);
    assert h[m - 1..] == [c];
    assert h[..m] == lower;
  }

  /** A backward point pushed onto the backward chain extends it over the points seen so far. */
  lemma PushBackOn(ps: seq<Point>, hull: seq<Point>, lower: seq<Point>, c: Point, i: int)
    requires |ps| <= i < 2 * |ps| && c == ps[2 * |ps| - 1 - i]
    requires ChainOver(lower, Seen(ps, 0, |ps|), true) && lower[|lower| - 1] == ps[|ps| - 1]
    requires |hull| >= |lower| && hull[..|lower|] == lower
    requires ChainOver(hull[|lower| - 1..], Seen(ps, BackFrom(i, |ps|), |ps|), false)
    requires SeesBeyondTop(hull[|lower| - 1..], Seen(ps, BackFrom(i, |ps|), |ps|), c, false)
    requires After(Seen(ps, BackFrom(i, |ps|), |ps|), c, false)
    requires !(|hull| >= 2 && RemoveInner(hull[|hull| - 2], hull[|hull| - 1], c))
    requires Seen(ps, 2 * |ps| - 1 - i, |ps|) == Seen(ps, BackFrom(i, |ps|), |ps|) + {c}
    ensures ChainOver(hull[|lower| - 1..] + [c], Seen(ps, BackFrom(i + 1, |ps|), |ps|), false)
  {
    PushSuffix(hull, |lower| - 1, Seen(ps, BackFrom(i, |ps|), |ps|), c, false);
    assert BackFrom(i + 1, |ps|) == 2 * |ps| - 1 - i;
  }

  /** `PushStep` for a chain that is the tail of the hull from index d on. */
  lemma PushSuffix(hull: seq<Point>, d: int, qs: set<Point>, c: Point, fwd: bool)
    requires 0 <= d < |hull| && ChainOver(hull[d..], qs, fwd) && After(qs, c, fwd)
    requires SeesBeyondTop(hull[d..], qs, c, fwd)
    requires !(|hull| >= 2 && RemoveInner(hull[|hull| - 2], hull[|hull| - 1], c))
    ensures ChainOver(hull[d..] + [c], qs + {c}, fwd)
  {
    var u := hull[d..];
    assert |u| >= 2 ==> u[|u| - 2] == hull[|hull| - 2] && u[|u| - 1] == hull[|hull| - 1];
    PushStep(u, qs, c, fwd);
  }

  /** Pushing onto a backward chain that continues `lower` keeps the sweep invariant. */
  lemma SweptBack(ps: seq<Point>, hull: seq<Point>, lower: seq<Point>, c: Point, i: int)
    requires |ps| < i <= 2 * |ps| && c == ps[BackFrom(i, |ps|)]
    requires ChainOver(lower, Seen(ps, 0, |ps|), true) && lower[|lower| - 1] == ps[|ps| - 1]
    requires |hull| >= |lower| && hull[..|lower|] == lower
    requires ChainOver(hull[|lower| - 1..] + [c], Seen(ps, BackFrom(i, |ps|), |ps|), false)
    ensures Swept(ps, hull + [c], lower, i)
  {
    var m := |lower|;
    assert (hull + [c])[m - 1..] == hull[m - 1..] + [c];
    assert (hull + [c])[..m] == lower;
  }

  /** After both sweeps every point is on the kept side of every hull edge. */
  lemma SweptEncloses(ps: seq<Point>, hull: seq<Point>, lower: seq<Point>)
    requires |ps| > 0 && Swept(ps, hull, lower, 2 * |ps|)
    ensures Encloses(hull, Seen(ps, 0, |ps|))
  {
    var m := |lower|;
    var u := hull[m - 1..];
    forall k, p | 0 <= k < |hull| - 1 && p in Seen(ps, 0, |ps|) ensures KeptBy(hull, k, p) {
      if k < m - 1 {
        assert hull[k] == lower[k] && hull[k + 1] == lower[k + 1];
        assert KeptBy(lower, k, p);
      } else {
        assert hull[k] == u[k - (m - 1)] && hull[k + 1] == u[k - (m - 1) + 1];
        assert KeptBy(u, k - (m - 1), p);
      }
    }
  }

  lemma {:induction false} PoppedAll(ps: seq<Point>, h: seq<Point>, lower: seq<Point>, i: int)
    requires Sorted(ps) && 0 <= i < 2 * |ps| && Popping(ps, h, lower, i)
    ensures Popping(ps, PopAll(h, ps[SweepIndex(i, |ps|)]), lower, i)
    decreases |h|
  {
    var c := ps[SweepIndex(i, |ps|)];
    if |h| >= 2 && RemoveInner(h[|h| - 2], h[|h| - 1], c) {
      PopHull(ps, h, lower, i);
      PoppedAll(ps, h[..|h| - 1], lower, i);
    }
  }

  /**
   * The shape of the hull before step i: its points come from ps, no triple
   * is inner, it starts at the first point and ends at the last one visited.
   */
  ghost predicate Shaped(ps: seq<Point>, h: seq<Point>, i: nat)
    requires i <= 2 * |ps|
  {
    && (forall p :: p in h ==> p in ps)
    && NoInnerTriple(h)
    && (i == 0 ==> h == [])
    && (i > 0 ==> |h| >= 1 && h[0] == ps[0] && h[|h| - 1] == ps[SweepIndex(i - 1, |ps|)])
    && (i >= 2 ==> |h| >= 2)
    && (|ps| == 1 ==> |h| == i)
  }

  /** One step of the sweep keeps the shape of the hull. */
  lemma ShapeStep(ps: seq<Point>, h: seq<Point>, i: nat)
    requires i < 2 * |ps| && Shaped(ps, h, i)
    ensures Shaped(ps, PopAll(h, ps[SweepIndex(i, |ps|)]) + [ps[SweepIndex(i, |ps|)]], i + 1)
  {
    var c := ps[SweepIndex(i, |ps|)];
    var r := PopAll(h, c);
    PrefixNoInner(h, |r|);
    PushKeepsNoInner(r, c);
    forall p | p in r ensures p in ps {
      assert p in h[..|r|];
    }
    if i > 0 {
      assert r[0] == h[0];
    }
  }

  /** The sweep from step i on keeps the shape of the hull to the end. */
  lemma {:induction false} SweepFromShape(ps: seq<Point>, h: seq<Point>, i: nat)
    requires i <= 2 * |ps| && Shaped(ps, h, i)
    ensures Shaped(ps, SweepFrom(ps, h, i), 2 * |ps|)
    decreases 2 * |ps| - i
  {
    if i < 2 * |ps| {
      var c := ps[SweepIndex(i, |ps|)];
      ShapeStep(ps, h, i);
      SweepFromShape(ps, PopAll(h, c) + [c], i + 1);
    }
  }

  /** One whole step of the sweep, pops and push, keeps the sweep invariant. */
  lemma SweepStep(ps: seq<Point>, h: seq<Point>, lower: seq<Point>, g: seq<Point>, next: seq<Point>, i: int)
    requires Sorted(ps) && 0 <= i < 2 * |ps| && Swept(ps, h, lower, i)
    requires g == PopAll(h, ps[SweepIndex(i, |ps|)]) + [ps[SweepIndex(i, |ps|)]]
    requires next == if i + 1 == |ps| then g else lower
    ensures Swept(ps, g, next, i + 1)
  {
    var c := ps[SweepIndex(i, |ps|)];
    Pops(ps, h, lower, i);
    PushHull(ps, PopAll(h, c), lower, next, c, i);
  }

  /** The pops of a step take the hull from the sweep invariant to the popping invariant with no inner top. */
  lemma Pops(ps: seq<Point>, h: seq<Point>, lower: seq<Point>, i: int)
    requires Sorted(ps) && 0 <= i < 2 * |ps| && Swept(ps, h, lower, i)
    ensures Popping(ps, PopAll(h, ps[SweepIndex(i, |ps|)]), lower, i)
  {
    BeginPops(ps, h, lower, i);
    PoppedAll(ps, h, lower, i);
  }

  /**
   * The sweep over sorted points, from a hull that keeps the sweep invariant
   * before step i, ends with a hull that encloses every point.  When the
   * first and last points differ, the last one stays on the hull once the
   * closing point is popped.
   */
  lemma {:induction false} SweepFromEncloses(ps: seq<Point>, h: seq<Point>, lower: seq<Point>, i: nat)
    requires Sorted(ps) && |ps| > 0 && i <= 2 * |ps| && Swept(ps, h, lower, i)
    ensures Encloses(SweepFrom(ps, h, i), Seen(ps, 0, |ps|))
    ensures ps[0] != ps[|ps| - 1] ==> ps[|ps| - 1] in Pop(SweepFrom(ps, h, i))
    decreases 2 * |ps| - i
  {
    if i == 2 * |ps| {
      SweptEncloses(ps, h, lower);
      if ps[0] != ps[|ps| - 1] {
        var m := |lower|;
        assert h[m - 1] == lower[m - 1];
        assert h[|h| - 1] == ps[0];
        assert Pop(h) == h[..|h| - 1];
        assert Pop(h)[m - 1] == ps[|ps| - 1];
      }
    } else {
      var c := ps[SweepIndex(i, |ps|)];
      var g := PopAll(h, c) + [c];
      var next := if i + 1 == |ps| then g else lower;
      SweepStep(ps, h, lower, g, next, i);
      SweepFromEncloses(ps, g, next, i + 1);
    }
  }

  /**
   * The loop of `convexHull` after sorting: sweep the points forward and
   * back, popping while the top two hull points and the next point are
   * inner, then pushing the point; finally drop the last point pushed.
   */
  method Chain(points: array<Point>) returns (hull: seq<Point>)
    ensures hull == Pop(SweepFrom(points[..], [], 0))
    ensures forall p :: p in hull ==> p in points[..]
    ensures NoInnerTriple(hull)
    ensures points.Length == 0 ==> hull == []
    ensures points.Length == 1 ==> hull == [points[0]]
    ensures points.Length > 0 ==> hull != [] && hull[0] == points[0]
    ensures points.Length > 0 ==> NoInnerTriple(hull + [hull[0]])
    ensures Sorted(points[..]) && points.Length > 0 ==> Encloses(hull + [hull[0]], Elems(points[..]))
    ensures Sorted(points[..]) && points.Length > 0 && points[0] != points[points.Length - 1] ==>
              points[points.Length - 1] in hull && |hull| >= 2
  {
    var n := points.Length;
    ghost var ps := points[..];
    hull := [];
    var i := 0;
    while i < 2 * n
      invariant 0 <= i <= 2 * n
      invariant SweepFrom(ps, hull, i) == SweepFrom(ps, [], 0)
    {
      var j := SweepIndex(i, n);
      ghost var h := hull;
      while |hull| >= 2 && RemoveInner(hull[|hull| - 2], hull[|hull| - 1], points[j])
        invariant PopAll(hull, points[j]) == PopAll(h, points[j])
      {
        PopAllStep(hull, points[j]);
        hull := hull[..|hull| - 1];
      }
      PopAllStep(hull, points[j]);
      hull := hull + [points[j]];
      i := i + 1;
    }
    hull := Pop(hull);
    ClosedSweep(ps, hull);
  }

  /** What the closed sweep over ps gives, with its last point, the first point again, dropped. */
  lemma ClosedSweep(ps: seq<Point>, hull: seq<Point>)
    requires hull == Pop(SweepFrom(ps, [], 0))
    ensures forall p :: p in hull ==> p in ps
    ensures NoInnerTriple(hull)
    ensures |ps| == 0 ==> hull == []
    ensures |ps| == 1 ==> hull == [ps[0]]
    ensures |ps| > 0 ==> hull != [] && hull[0] == ps[0]
    ensures |ps| > 0 ==> NoInnerTriple(hull + [hull[0]])
    ensures Sorted(ps) && |ps| > 0 ==> Encloses(hull + [hull[0]], Elems(ps))
    ensures Sorted(ps) && |ps| > 0 && ps[0] != ps[|ps| - 1] ==> ps[|ps| - 1] in hull && |hull| >= 2
  {
    var full := SweepFrom(ps, [], 0);
    SweepFromShape(ps, [], 0);
    if Sorted(ps) && |ps| > 0 {
      SweepFromEncloses(ps, [], [], 0);
      SeenAll(ps);
    }
    if |ps| > 0 {
      assert full == hull + [hull[0]];
      PrefixNoInner(full, |hull|);
      assert full[..|hull|] == hull;
    }
    if |ps| == 1 {
      assert hull[0] in ps;
    }
  }

  /**
   * `convexHull`: sorts the caller's array in place, then runs the chain.
   * The first hull point is the lexicographically smallest input point.
   */
  method ConvexHull(points: array<Point>) returns (hull: seq<Point>)
    modifies points
    ensures Sorted(points[..]) && multiset(points[..]) == multiset(old(points[..]))
    ensures forall p :: p in hull ==> p in old(points[..])
    ensures NoInnerTriple(hull)
    ensures points.Length == 0 ==> hull == []
    ensures points.Length == 1 ==> hull == old(points[..])
    ensures points.Length > 0 ==> hull != [] && NoInnerTriple(hull + [hull[0]])
    ensures points.Length > 0 ==> forall p :: p in old(points[..]) ==> LexLe(hull[0], p)
    ensures points.Length > 0 ==> Encloses(hull + [hull[0]], Elems(old(points[..])))
    ensures hull == Pop(SweepFrom(points[..], [], 0))
    ensures points.Length > 0 ==> forall p :: p in old(points[..]) ==> LexLe(p, points[points.Length - 1])
    ensures points.Length > 0 ==> points[points.Length - 1] in hull
    ensures points.Length > 0 ==> forall p :: p in old(points[..]) && p != hull[0] ==> |hull| >= 2
  {
    var sorted := SortPoints(points);
    hull := Chain(sorted);
    ElemsOfPermutation(points[..], old(points[..]));
    forall p | p in hull ensures p in old(points[..]) {
      assert p in multiset(points[..]);
    }
    if points.Length > 0 {
      var n := points.Length;
      forall p | p in old(points[..]) ensures LexLe(hull[0], p) && LexLe(p, points[n - 1]) {
        assert p in multiset(points[..]);
        var k :| 0 <= k < n && points[k] == p;
        if k > 0 {
          assert InOrder(points[..], 0, k);
        }
        if k < n - 1 {
          assert InOrder(points[..], k, n - 1);
        }
      }
    }
    if points.Length == 1 {
      assert points[..] == [points[0]];
      assert old(points[..]) == [old(points[0])];
    }
  }
}
