/*
 * The pointer handlers and tools of app/draw.js over their mutable state:
 * the module's `points` and `features` arrays and the `painting` and
 * `moving` flags of the `mapready` closure.  Rendering (canvas strokes,
 * map overlay) is not modelled; the foreign calls come in as an Env and
 * a `simplify` function.
 */
module Draw {
  import opened Shape
  import opened Regions

  /** The two entries of the `tools` table. */
  datatype Tool = DrawTool | EraseTool
  {
    /** The stroke width `simplify` is called with. */
    function Width(): nat
    {
      match this
      case DrawTool => 20
      case EraseTool => 30
    }
  }

  /**
   * The parts of a mouse or touch event the handlers read: `offsetX` and
   * `offsetY` (undefined on touch events) and the page position of
   * `touches[0]` (None when `touches` is undefined, as on mouse events).
   */
  datatype PointerEvent = PointerEvent(offsetX: Option<int>, offsetY: Option<int>, touch: Option<Point>)

  /** JavaScript truthiness of a number that may be undefined: 0 counts as absent. */
  predicate Truthy(v: Option<int>)
  {
    v.Some? && v.value != 0
  }

  /** JavaScript `a || b`. */
  function Or(a: Option<int>, b: Option<int>): Option<int>
  {
    if Truthy(a) then a else b
  }

  function TouchX(e: PointerEvent): Option<int>
  {
    if e.touch.Some? then Some(e.touch.value.x) else None
  }

  function TouchY(e: PointerEvent): Option<int>
  {
    if e.touch.Some? then Some(e.touch.value.y) else None
  }

  /**
   * `event.offsetX || event.touches[0].pageX` and the same for y, as `down`
   * reads them; None when `touches` is undefined and the offset is falsy,
   * where the source raises a TypeError.
   */
  function PressPosition(e: PointerEvent): (p: Option<Point>)
    ensures p.None? <==> e.touch.None? && (!Truthy(e.offsetX) || !Truthy(e.offsetY))
    ensures p.Some? && Truthy(e.offsetX) ==> p.value.x == e.offsetX.value
    ensures p.Some? && Truthy(e.offsetY) ==> p.value.y == e.offsetY.value
    ensures p.Some? && !Truthy(e.offsetX) ==> p.value.x == e.touch.value.x
    ensures p.Some? && !Truthy(e.offsetY) ==> p.value.y == e.touch.value.y
  {
    var x, y := Or(e.offsetX, TouchX(e)), Or(e.offsetY, TouchY(e));
    if x.Some? && y.Some? then Some(Point(x.value, y.value)) else None
  }

  /** What `tool.up({polygon, map})` leaves in `features`, `redrawMap` included. */
  function ToolUp<G>(env: Env<G>, tool: Tool, fs: seq<Slot<G>>, polygon: seq<Point>): seq<Slot<G>>
    requires |polygon| > 0
  {
    match tool
    case DrawTool => Compact(DrawMerged(env, fs, polygon))
    case EraseTool => Compact(Erased(env, fs, MakeFeature(env, polygon)))
  }

  class Session<G> {
    var points: seq<Point>
    var features: seq<Slot<G>>
    var painting: bool
    var moving: bool

    /**
     * Between events: a movement is only recorded while painting and after
     * a point was added, and `features` holds neither holes nor nulls.
     */
    ghost predicate Valid()
      reads this
    {
      (moving ==> painting && points != []) && Dense(features)
    }

    constructor ()
      ensures Valid()
      ensures points == [] && features == [] && !painting && !moving
    {
      points, features := [], [];
      painting, moving := false, false;
    }

    /** `addPoint(x, y)`. */
    method AddPoint(x: int, y: int)
      modifies this`points
      ensures points == old(points) + [Point(x, y)]
    {
      points := points + [Point(x, y)];
    }

    /**
     * `down`: starts painting and appends the pressed position.  When the
     * position cannot be read the handler raises after the flags are set
     * and before the point is added; `thrown` reports that.
     */
    method Down(e: PointerEvent) returns (thrown: bool)
      requires Valid()
      modifies this
      ensures Valid()
      ensures painting && !moving && features == old(features)
      ensures thrown <==> PressPosition(e).None?
      ensures !thrown ==> points == old(points) + [PressPosition(e).value]
      ensures thrown ==> points == old(points)
    {
      moving := false;
      painting := true;
      var p := PressPosition(e);
      if p.None? {
        return true;
      }
      AddPoint(p.value.x, p.value.y);
      thrown := false;
    }

    /**
     * `move`: while painting, a position with both coordinates truthy is
     * appended and marks the gesture as moving; anything else changes nothing.
     */
    method Move(e: PointerEvent)
      requires Valid()
      modifies this
      ensures Valid()
      ensures painting == old(painting) && features == old(features)
      ensures var y, x := Or(e.offsetY, TouchY(e)), Or(e.offsetX, TouchX(e));
              if old(painting) && Truthy(x) && Truthy(y) then
                moving && points == old(points) + [Point(x.value, y.value)]
              else
                moving == old(moving) && points == old(points)
    {
      var y := Or(e.offsetY, TouchY(e));
      var x := Or(e.offsetX, TouchX(e));
      if painting && Truthy(x) && Truthy(y) {
        moving := true;
        AddPoint(x.value, y.value);
      }
    }

    /**
     * `up`: a gesture without movement drops its last point and invokes no
     * tool; a moving gesture clears both flags, hands the simplified stroke
     * to the tool when it has more than three points, and empties `points`.
     */
    method Up(tool: Tool, env: Env<G>, simplify: (seq<Point>, nat) -> seq<Point>)
      requires Valid()
      modifies this
      ensures Valid()
      ensures !painting && !moving
      ensures !old(moving) ==> points == Pop(old(points)) && features == old(features)
      ensures old(moving) ==> points == []
      ensures old(moving) ==>
        var polygon := simplify(old(points), tool.Width());
        features == if |polygon| > 3 then ToolUp(env, tool, old(features), polygon) else old(features)
    {
      if !moving {
        points := Pop(points);
        painting := false;
        return;
      }
      painting := false;
      moving := false;
      if points != [] {
        var polygon := simplify(points, tool.Width());
        if |polygon| > 3 {
          match tool
          case DrawTool => DrawToolUp(env, polygon);
          case EraseTool => EraseToolUp(env, polygon);
        }
        points := [];
      }
    }

    /** `redrawMap`: drops holes and nulls from `features`, keeping order. */
    method RedrawMap()
      modifies this`features
      ensures features == Compact(old(features))
    {
      features := Compact(features);
    }

    /** `erase(gap)`: each feature the gap intersects is replaced at its index by the difference. */
    method Erase(env: Env<G>, gap: G)
      modifies this`features
      ensures features == Erased(env, old(features), gap)
    {
      ghost var fs := features;
      var index := 0;
      while index < |features|
        invariant 0 <= index <= |features| == |fs|
        invariant forall i :: 0 <= i < index ==> features[i] == EraseSlot(env, fs[i], gap)
        invariant forall i :: index <= i < |fs| ==> features[i] == fs[i]
      {
        if features[index].Live? && env.intersects(gap, features[index].geometry) {
          features := features[index := match env.difference(features[index].geometry, gap)
                                        case Some(g) => Live(g)
                                        case None => Null];
        }
        index := index + 1;
      }
    }

    /** `tools[ERASE_TOOL].up`: erase the stroke's feature, then redraw. */
    method EraseToolUp(env: Env<G>, polygon: seq<Point>)
      requires |polygon| > 0
      modifies this`features
      ensures features == Compact(Erased(env, old(features), MakeFeature(env, polygon)))
    {
      var gap := MakeFeature(env, polygon);
      Erase(env, gap);
      RedrawMap();
    }

    /**
     * `tools[DRAW_TOOL].up`: delete every feature the stroke meets while
     * collecting its union with the stroke, append the stroke or the outer
     * ring of the merged unions, erase again the merged holes that miss the
     * stroke, then redraw.
     */
    method DrawToolUp(env: Env<G>, polygon: seq<Point>)
      requires |polygon| > 0
      modifies this`features
      ensures features == Compact(DrawMerged(env, old(features), polygon))
    {
      ghost var fs := features;
      var feature := MakeFeature(env, polygon);
      var unions := DeleteHits(env, feature);
      if |unions| > 0 {
        var shape := env.outline(UnionAll(env, unions));
        features := features + [Live(RingFeature(env, shape.outer))];
        EraseUntouchedHoles(env, shape.holes, feature);
      } else {
        features := features + [Live(feature)];
      }
      assert features == DrawMerged(env, fs, polygon);
      RedrawMap();
    }

    /** The `forEach` of the draw tool: `delete` each slot the stroke meets, collecting the unions. */
    method DeleteHits(env: Env<G>, feature: G) returns (unions: seq<G>)
      modifies this`features
      ensures features == Punched(env, old(features), feature)
      ensures unions == Unions(env, old(features), feature)
    {
      ghost var fs := features;
      unions := [];
      var index := 0;
      while index < |features|
        invariant 0 <= index <= |features| == |fs|
        invariant forall i :: 0 <= i < index ==> features[i] == if Hits(env, feature, fs[i]) then Hole else fs[i]
        invariant forall i :: index <= i < |fs| ==> features[i] == fs[i]
        invariant unions == Unions(env, fs[..index], feature)
      {
        assert fs[..index + 1][..index] == fs[..index];
        if features[index].Live? && env.intersects(feature, features[index].geometry) {
          unions := unions + [env.union(features[index].geometry, feature)];
          features := features[index := Hole];
        }
        index := index + 1;
      }
      assert fs[..index] == fs;
    }

    /** The `forEach` over the merged holes: each hole that misses the stroke is erased. */
    method EraseUntouchedHoles(env: Env<G>, holes: seq<LinearRing>, feature: G)
      modifies this`features
      ensures features == EraseAll(env, old(features), Gaps(env, holes, feature))
    {
      ghost var base := features;
      var k := 0;
      while k < |holes|
        invariant 0 <= k <= |holes|
        invariant features == EraseAll(env, base, Gaps(env, holes[..k], feature))
      {
        assert holes[..k + 1][..k] == holes[..k];
        var gap := RingFeature(env, holes[k]);
        ghost var gs := Gaps(env, holes[..k], feature);
        if !env.intersects(gap, feature) {
          assert Gaps(env, holes[..k + 1], feature) == gs + [gap];
          assert (gs + [gap])[..|gs|] == gs;
          Erase(env, gap);
        } else {
          assert Gaps(env, holes[..k + 1], feature) == gs;
        }
        k := k + 1;
      }
      assert holes[..k] == holes;
    }
  }

  /**
   * A press followed by a release without movement (a tap): no tool runs and
   * `features` is untouched.  A press whose position can be read leaves
   * `points` as it was, since the release pops the pressed point again; a
   * press that raises adds nothing, so the release pops an earlier point.
   */
  method Tap<G>(session: Session<G>, e: PointerEvent, tool: Tool, env: Env<G>,
                simplify: (seq<Point>, nat) -> seq<Point>)
    requires session.Valid()
    modifies session
    ensures session.Valid()
    ensures session.features == old(session.features)
    ensures PressPosition(e).Some? ==> session.points == old(session.points)
    ensures PressPosition(e).None? ==> session.points == Pop(old(session.points))
    ensures !session.painting && !session.moving
  {
    var thrown := session.Down(e);
    session.Up(tool, env, simplify);
  }
}
