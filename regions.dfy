/*
 * The bookkeeping of the `features` array in app/draw.js, as functions of
 * the array's value: what the erase and draw tools leave in each slot and
 * what `redrawMap` keeps.  The polygon library (intersect, union,
 * difference, polygon construction) and the map projection are foreign
 * code and enter as the uninterpreted functions of an Env.
 */
module Regions {
  import opened Shape

  datatype Option<T> = None | Some(value: T)

  /** A geographic position `[lng, lat]`. */
  datatype LngLat = LngLat(lng: real, lat: real)

  /** A GeoJSON linear ring has four or more positions (RFC 7946, section 3.1.6). */
  type LinearRing = r: seq<LngLat> | |r| >= 4
    witness [LngLat(0.0, 0.0), LngLat(0.0, 0.0), LngLat(0.0, 0.0), LngLat(0.0, 0.0)]

  /** The rings of a polygon geometry: `coordinates[0]` and `coordinates.slice(1)`. */
  datatype Outline = Outline(outer: LinearRing, holes: seq<LinearRing>)

  /**
   * The foreign functions the tools call.  `toCoordinate` is
   * `pixelToCoordinate` followed by `[lng(), lat()]`, `toPixel` is
   * `coordinateToPixel`, `polygon` builds a one-ring polygon feature,
   * `intersects` is the truthiness of `intersect`, `difference` may return
   * null (None) and `outline` reads `geometry.coordinates`.
   */
  datatype Env<!G> = Env(
    toCoordinate: Point -> LngLat,
    toPixel: LngLat -> Point,
    polygon: seq<LngLat> -> G,
    intersects: (G, G) -> bool,
    union: (G, G) -> G,
    difference: (G, G) -> Option<G>,
    outline: G -> Outline)

  /**
   * One slot of `features`: a hole left by `delete` (skipped by `forEach`
   * and by `filter`), a null stored from `difference`, or a live feature.
   */
  datatype Slot<G> = Hole | Null | Live(geometry: G)

  /** No holes and no nulls: the state `redrawMap` leaves behind. */
  predicate Dense<G>(fs: seq<Slot<G>>)
  {
    forall i :: 0 <= i < |fs| ==> fs[i].Live?
  }

  // ---------------------------------------------------------------- makeFeature

  /** The pixel ring mapped to `[lng, lat]` pairs, first pair repeated at the end. */
  function ClosedRing(toCoordinate: Point -> LngLat, polygon: seq<Point>): (ring: seq<LngLat>)
    requires |polygon| > 0
    ensures |ring| == |polygon| + 1
    ensures ring[|polygon|] == ring[0]
    ensures forall i :: 0 <= i < |polygon| ==> ring[i] == toCoordinate(polygon[i])
  {
    seq(|polygon|, i requires 0 <= i < |polygon| => toCoordinate(polygon[i])) + [toCoordinate(polygon[0])]
  }

  /** `makeFeature({map, polygon})`. */
  function MakeFeature<G>(env: Env<G>, polygon: seq<Point>): G
    requires |polygon| > 0
  {
    env.polygon(ClosedRing(env.toCoordinate, polygon))
  }

  /**
   * A stroke that `up` hands to a tool has more than three points, so the
   * ring built from it is a closed GeoJSON linear ring of at least five
   * positions, each the projection of its pixel point.
   */
  lemma MakeFeatureRing<G>(env: Env<G>, polygon: seq<Point>)
    requires |polygon| > 3
    ensures var ring := ClosedRing(env.toCoordinate, polygon);
            && |ring| >= 5 && ring[|ring| - 1] == ring[0]
            && (forall i :: 0 <= i < |polygon| ==> ring[i] == env.toCoordinate(polygon[i]))
            && MakeFeature(env, polygon) == env.polygon(ring)
  {
  }

  /** A ring of positions mapped back to pixels with `coordinateToPixel`. */
  function Pixels<G>(env: Env<G>, ring: LinearRing): (ps: seq<Point>)
    ensures |ps| == |ring|
    ensures forall i :: 0 <= i < |ring| ==> ps[i] == env.toPixel(ring[i])
  {
    seq(|ring|, i requires 0 <= i < |ring| => env.toPixel(ring[i]))
  }

  // ---------------------------------------------------------------- erase

  /**
   * The callback of `erase` on one slot.  `forEach` skips holes, and a null
   * or a feature the gap misses is left alone; a feature the gap meets
   * becomes its difference with the gap, or null when there is none.
   */
  function EraseSlot<G>(env: Env<G>, s: Slot<G>, gap: G): (r: Slot<G>)
    ensures !s.Live? ==> r == s
    ensures s.Live? && !env.intersects(gap, s.geometry) ==> r == s
    ensures s.Live? && env.intersects(gap, s.geometry) ==>
      (r.Live? <==> env.difference(s.geometry, gap).Some?) &&
      (r.Live? ==> r.geometry == env.difference(s.geometry, gap).value) &&
      (!r.Live? ==> r == Null)
  {
    if s.Live? && env.intersects(gap, s.geometry) then
      match env.difference(s.geometry, gap)
      case Some(g) => Live(g)
      case None => Null
    else s
  }

  /**
   * `erase(gap)`: the slots visited in index order.  The array keeps its
   * length and every slot is treated on its own.
   */
  function Erased<G>(env: Env<G>, fs: seq<Slot<G>>, gap: G): (r: seq<Slot<G>>)
    ensures |r| == |fs|
    ensures forall i :: 0 <= i < |fs| ==> r[i] == EraseSlot(env, fs[i], gap)
    decreases |fs|
  {
    if fs == [] then []
    else Erased(env, fs[..|fs| - 1], gap) + [EraseSlot(env, fs[|fs| - 1], gap)]
  }

  /** A slot after a series of erasures, in order. */
  function EraseSlotAll<G>(env: Env<G>, s: Slot<G>, gaps: seq<G>): Slot<G>
    decreases |gaps|
  {
    if gaps == [] then s
    else EraseSlot(env, EraseSlotAll(env, s, gaps[..|gaps| - 1]), gaps[|gaps| - 1])
  }

  /** `erase` called once per gap, in order. */
  function EraseAll<G>(env: Env<G>, fs: seq<Slot<G>>, gaps: seq<G>): (r: seq<Slot<G>>)
    ensures |r| == |fs|
    ensures forall i :: 0 <= i < |fs| ==> r[i] == EraseSlotAll(env, fs[i], gaps)
    decreases |gaps|
  {
    if gaps == [] then fs
    else Erased(env, EraseAll(env, fs, gaps[..|gaps| - 1]), gaps[|gaps| - 1])
  }

  /** A hole or a null is never visited by an erasure: it stays as it is. */
  lemma {:induction false} EraseSlotAllKeepsEmpty<G>(env: Env<G>, s: Slot<G>, gaps: seq<G>)
    requires !s.Live?
    ensures EraseSlotAll(env, s, gaps) == s
    decreases |gaps|
  {
    if gaps != [] {
      EraseSlotAllKeepsEmpty(env, s, gaps[..|gaps| - 1]);
    }
  }

  // ---------------------------------------------------------------- draw tool

  /** The `forEach` test of the draw tool: a live feature the stroke intersects. */
  predicate Hits<G>(env: Env<G>, feature: G, s: Slot<G>)
  {
    s.Live? && env.intersects(feature, s.geometry)
  }

  /** The slots after `delete features[index]` for every hit. */
  function Punched<G>(env: Env<G>, fs: seq<Slot<G>>, feature: G): (r: seq<Slot<G>>)
    ensures |r| == |fs|
    ensures forall i :: 0 <= i < |fs| && Hits(env, feature, fs[i]) ==> r[i] == Hole
    ensures forall i :: 0 <= i < |fs| && !Hits(env, feature, fs[i]) ==> r[i] == fs[i]
    decreases |fs|
  {
    if fs == [] then []
    else
      var last := fs[|fs| - 1];
      Punched(env, fs[..|fs| - 1], feature) + [if Hits(env, feature, last) then Hole else last]
  }

  /**
   * The present entries of the sparse `unions` array, in index order: the
   * union of each hit feature with the stroke.  The array is non-empty
   * exactly when some feature is hit.
   */
  function Unions<G>(env: Env<G>, fs: seq<Slot<G>>, feature: G): (us: seq<G>)
    ensures us == [] <==> forall i :: 0 <= i < |fs| ==> !Hits(env, feature, fs[i])
    ensures |us| <= |fs|
    ensures fs != [] && Hits(env, feature, fs[|fs| - 1]) ==>
      us != [] && us[|us| - 1] == env.union(fs[|fs| - 1].geometry, feature)
    decreases |fs|
  {
    if fs == [] then []
    else
      var init, last := fs[..|fs| - 1], fs[|fs| - 1];
      assert forall i :: 0 <= i < |init| ==> init[i] == fs[i];
      Unions(env, init, feature) + if Hits(env, feature, last) then [env.union(last.geometry, feature)] else []
  }

  /** Every hit contributes its union with the stroke, and nothing else is collected. */
  lemma {:induction false} UnionsCollectHits<G>(env: Env<G>, fs: seq<Slot<G>>, feature: G)
    ensures var us := Unions(env, fs, feature);
            && (forall i :: 0 <= i < |fs| && Hits(env, feature, fs[i]) ==>
                  env.union(fs[i].geometry, feature) in us)
            && (forall j :: 0 <= j < |us| ==>
                  exists i :: 0 <= i < |fs| && Hits(env, feature, fs[i]) && us[j] == env.union(fs[i].geometry, feature))
    decreases |fs|
  {
    if fs != [] {
      var init, last := fs[..|fs| - 1], fs[|fs| - 1];
      UnionsCollectHits(env, init, feature);
      assert forall i :: 0 <= i < |init| ==> init[i] == fs[i];
      var us := Unions(env, fs, feature);
      var ui := Unions(env, init, feature);
      assert us[..|ui|] == ui;
      forall j | 0 <= j < |us|
        ensures exists i :: 0 <= i < |fs| && Hits(env, feature, fs[i]) && us[j] == env.union(fs[i].geometry, feature)
      {
        if j < |ui| {
          assert us[j] == ui[j];
        } else {
          assert Hits(env, feature, fs[|fs| - 1]);
        }
      }
    }
  }

  /**
   * The unions of a prefix of the slots come before those of the rest: the
   * entries are in ascending slot order, the order `reduce` folds them in.
   */
  lemma {:induction false} UnionsAppend<G>(env: Env<G>, a: seq<Slot<G>>, b: seq<Slot<G>>, feature: G)
    ensures Unions(env, a + b, feature) == Unions(env, a, feature) + Unions(env, b, feature)
    decreases |b|
  {
    if b == [] {
      assert a + b == a;
    } else {
      var init, last := b[..|b| - 1], b[|b| - 1];
      var tail := if Hits(env, feature, last) then [env.union(last.geometry, feature)] else [];
      UnionsAppend(env, a, init, feature);
      assert (a + b)[..|a + b| - 1] == a + init;
      assert (a + b)[|a + b| - 1] == last;
      calc {
        Unions(env, a + b, feature);
        Unions(env, a + init, feature) + tail;
        Unions(env, a, feature) + Unions(env, init, feature) + tail;
        Unions(env, a, feature) + (Unions(env, init, feature) + tail);
        Unions(env, a, feature) + Unions(env, b, feature);
      }
    }
  }

  /**
   * `unions.reduce((a, b) => union(a, b))`: a left fold seeded with the
   * first entry; a single entry is returned without calling `union`.
   */
  function UnionAll<G>(env: Env<G>, us: seq<G>): (u: G)
    requires us != []
    ensures |us| == 1 ==> u == us[0]
    decreases |us|
  {
    if |us| == 1 then us[0]
    else env.union(UnionAll(env, us[..|us| - 1]), us[|us| - 1])
  }

  /** The feature `makeFeature` builds from one ring of the merged polygon. */
  function RingFeature<G>(env: Env<G>, ring: LinearRing): G
  {
    MakeFeature(env, Pixels(env, ring))
  }

  /** The holes of the merged polygon that do not touch the stroke, in order: those get erased. */
  function Gaps<G>(env: Env<G>, holes: seq<LinearRing>, feature: G): (gs: seq<G>)
    ensures |gs| <= |holes|
    ensures forall j :: 0 <= j < |gs| ==> !env.intersects(gs[j], feature)
    ensures forall j :: 0 <= j < |gs| ==> exists k :: 0 <= k < |holes| && gs[j] == RingFeature(env, holes[k])
    ensures forall k :: 0 <= k < |holes| && !env.intersects(RingFeature(env, holes[k]), feature) ==>
      RingFeature(env, holes[k]) in gs
    decreases |holes|
  {
    if holes == [] then []
    else
      var init := holes[..|holes| - 1];
      var gap := RingFeature(env, holes[|holes| - 1]);
      assert forall k :: 0 <= k < |init| ==> init[k] == holes[k];
      Gaps(env, init, feature) + if env.intersects(gap, feature) then [] else [gap]
  }

  /** Every hole, made into a feature, intersects the stroke. */
  predicate AllTouch<G>(env: Env<G>, holes: seq<LinearRing>, feature: G)
  {
    forall k :: 0 <= k < |holes| ==> env.intersects(RingFeature(env, holes[k]), feature)
  }

  /** No hole is erased when every hole touches the stroke. */
  lemma {:induction false} GapsWhenAllTouch<G>(env: Env<G>, holes: seq<LinearRing>, feature: G)
    requires AllTouch(env, holes, feature)
    ensures Gaps(env, holes, feature) == []
    decreases |holes|
  {
    if holes != [] {
      GapsWhenAllTouch(env, holes[..|holes| - 1], feature);
    }
  }

  /** Folding one more entry in unites it with the fold of the entries before it. */
  lemma UnionAllAppend<G>(env: Env<G>, us: seq<G>, u: G)
    requires us != []
    ensures UnionAll(env, us + [u]) == env.union(UnionAll(env, us), u)
  {
    assert (us + [u])[..|us|] == us;
  }

  /**
   * The feature that replaces the merged polygon's outer ring or a hole:
   * the ring mapped to pixels is closed again, so `polygon` receives at
   * least five positions, the last equal to the first.
   */
  lemma RingFeatureRing<G>(env: Env<G>, ring: LinearRing)
    ensures var r := ClosedRing(env.toCoordinate, Pixels(env, ring));
            && |r| == |ring| + 1 >= 5 && r[|r| - 1] == r[0]
            && (forall i :: 0 <= i < |ring| ==> r[i] == env.toCoordinate(env.toPixel(ring[i])))
            && RingFeature(env, ring) == env.polygon(r)
  {
  }

  /** The outline of all unions merged together. */
  function MergedOutline<G>(env: Env<G>, us: seq<G>): Outline
    requires us != []
  {
    env.outline(UnionAll(env, us))
  }

  /**
   * `tools[DRAW_TOOL].up` up to `redrawMap`: without a hit the stroke is
   * appended; otherwise every hit slot is deleted, the outer ring of the
   * merged unions is appended as one feature, and each hole of the merged
   * polygon that misses the stroke is erased again.
   */
  function DrawMerged<G>(env: Env<G>, fs: seq<Slot<G>>, polygon: seq<Point>): (r: seq<Slot<G>>)
    requires |polygon| > 0
    ensures |r| == |fs| + 1
  {
    var feature := MakeFeature(env, polygon);
    var us := Unions(env, fs, feature);
    if us == [] then fs + [Live(feature)]
    else
      var shape := MergedOutline(env, us);
      EraseAll(env, Punched(env, fs, feature) + [Live(RingFeature(env, shape.outer))],
               Gaps(env, shape.holes, feature))
  }

  /** A stroke that meets no feature is appended last; every slot keeps its entry. */
  lemma DrawWithoutOverlap<G>(env: Env<G>, fs: seq<Slot<G>>, polygon: seq<Point>)
    requires |polygon| > 0
    requires forall i :: 0 <= i < |fs| ==> !Hits(env, MakeFeature(env, polygon), fs[i])
    ensures DrawMerged(env, fs, polygon) == fs + [Live(MakeFeature(env, polygon))]
  {
  }

  /**
   * A stroke that meets some feature: each hit slot is emptied, every other
   * slot keeps its index and only the erasures of the untouched holes
   * apply to it, and the one appended slot holds the merged outline with
   * those erasures applied.
   */
  lemma DrawWithOverlap<G>(env: Env<G>, fs: seq<Slot<G>>, polygon: seq<Point>)
    requires |polygon| > 0
    requires exists i :: 0 <= i < |fs| && Hits(env, MakeFeature(env, polygon), fs[i])
    ensures var feature := MakeFeature(env, polygon);
            var shape := MergedOutline(env, Unions(env, fs, feature));
            var gaps := Gaps(env, shape.holes, feature);
            var r := DrawMerged(env, fs, polygon);
            && (forall i :: 0 <= i < |fs| && Hits(env, feature, fs[i]) ==> r[i] == Hole)
            && (forall i :: 0 <= i < |fs| && !Hits(env, feature, fs[i]) ==>
                  r[i] == EraseSlotAll(env, fs[i], gaps))
            && r[|fs|] == EraseSlotAll(env, Live(RingFeature(env, shape.outer)), gaps)
  {
    var feature := MakeFeature(env, polygon);
    var us := Unions(env, fs, feature);
    var shape := MergedOutline(env, us);
    var gaps := Gaps(env, shape.holes, feature);
    var base := Punched(env, fs, feature) + [Live(RingFeature(env, shape.outer))];
    forall i | 0 <= i < |fs| && Hits(env, feature, fs[i])
      ensures DrawMerged(env, fs, polygon)[i] == Hole
    {
      assert base[i] == Hole;
      EraseSlotAllKeepsEmpty(env, base[i], gaps);
    }
  }

  /** When every hole of the merged polygon touches the stroke, the slots that were not hit are unchanged. */
  lemma DrawWithOverlapFillsHoles<G>(env: Env<G>, fs: seq<Slot<G>>, polygon: seq<Point>)
    requires |polygon| > 0
    requires exists i :: 0 <= i < |fs| && Hits(env, MakeFeature(env, polygon), fs[i])
    requires var feature := MakeFeature(env, polygon);
             AllTouch(env, MergedOutline(env, Unions(env, fs, feature)).holes, feature)
    ensures var feature := MakeFeature(env, polygon);
            var r := DrawMerged(env, fs, polygon);
            && (forall i :: 0 <= i < |fs| && !Hits(env, feature, fs[i]) ==> r[i] == fs[i])
            && r[|fs|] == Live(RingFeature(env, MergedOutline(env, Unions(env, fs, feature)).outer))
  {
    var feature := MakeFeature(env, polygon);
    GapsWhenAllTouch(env, MergedOutline(env, Unions(env, fs, feature)).holes, feature);
    DrawWithOverlap(env, fs, polygon);
  }

  // ---------------------------------------------------------------- redrawMap

  /** `features.filter(identity)`: drops holes and nulls, keeps the rest in order. */
  function Compact<G>(fs: seq<Slot<G>>): (r: seq<Slot<G>>)
    ensures Dense(r)
    ensures |r| <= |fs|
    ensures forall k :: 0 <= k < |r| ==> r[k] in fs
    ensures forall i :: 0 <= i < |fs| && fs[i].Live? ==> fs[i] in r
    decreases |fs|
  {
    if fs == [] then []
    else
      var init, last := fs[..|fs| - 1], fs[|fs| - 1];
      assert fs == init + [last];
      Compact(init) + if last.Live? then [last] else []
  }

  /** The indices of the live slots: ascending, in range, and exactly the live ones. */
  function LiveIndices<G>(fs: seq<Slot<G>>): (ix: seq<nat>)
    ensures forall k :: 0 <= k < |ix| ==> ix[k] < |fs|
    ensures forall k, m :: 0 <= k < m < |ix| ==> ix[k] < ix[m]
    ensures forall i :: 0 <= i < |fs| ==> (fs[i].Live? <==> i in ix)
    decreases |fs|
  {
    if fs == [] then []
    else
      var init := fs[..|fs| - 1];
      assert forall i :: 0 <= i < |init| ==> init[i] == fs[i];
      LiveIndices(init) + if fs[|fs| - 1].Live? then [|fs| - 1] else []
  }

  /**
   * `redrawMap` keeps the live slots in their relative order: the k-th
   * surviving entry is the slot at the k-th live index.
   */
  lemma {:induction false} CompactKeepsOrder<G>(fs: seq<Slot<G>>)
    ensures |LiveIndices(fs)| == |Compact(fs)|
    ensures forall k :: 0 <= k < |Compact(fs)| ==> Compact(fs)[k] == fs[LiveIndices(fs)[k]]
    decreases |fs|
  {
    if fs != [] {
      var init, last := fs[..|fs| - 1], fs[|fs| - 1];
      CompactKeepsOrder(init);
      var r, ix := Compact(init), LiveIndices(init);
      assert Compact(fs) == r + if last.Live? then [last] else [];
      assert LiveIndices(fs) == ix + if last.Live? then [|fs| - 1] else [];
      forall k | 0 <= k < |Compact(fs)| ensures Compact(fs)[k] == fs[LiveIndices(fs)[k]] {
        if k < |r| {
          assert Compact(fs)[k] == r[k] == init[ix[k]];
          assert LiveIndices(fs)[k] == ix[k];
        }
      }
    }
  }

  /** A dense array passes through `redrawMap` unchanged. */
  lemma {:induction false} CompactDense<G>(fs: seq<Slot<G>>)
    requires Dense(fs)
    ensures Compact(fs) == fs
    decreases |fs|
  {
    if fs != [] {
      CompactDense(fs[..|fs| - 1]);
      assert fs == fs[..|fs| - 1] + [fs[|fs| - 1]];
    }
  }

  /** Compaction works slot by slot: it distributes over concatenation. */
  lemma {:induction false} CompactAppend<G>(a: seq<Slot<G>>, b: seq<Slot<G>>)
    ensures Compact(a + b) == Compact(a) + Compact(b)
    decreases |b|
  {
    if b == [] {
      assert a + b == a;
    } else {
      var init := b[..|b| - 1];
      var last := b[|b| - 1];
      var tail := if last.Live? then [last] else [];
      CompactAppend(a, init);
      assert (a + b)[..|a + b| - 1] == a + init;
      assert (a + b)[|a + b| - 1] == last;
      calc {
        Compact(a + b);
        Compact(a + init) + tail;
        Compact(a) + Compact(init) + tail;
        Compact(a) + (Compact(init) + tail);
        Compact(a) + Compact(b);
      }
    }
  }

  /** Drawing onto a dense array without overlap and redrawing appends exactly the stroke. */
  lemma DrawUpWithoutOverlap<G>(env: Env<G>, fs: seq<Slot<G>>, polygon: seq<Point>)
    requires |polygon| > 0 && Dense(fs)
    requires forall i :: 0 <= i < |fs| ==> !env.intersects(MakeFeature(env, polygon), fs[i].geometry)
    ensures Compact(DrawMerged(env, fs, polygon)) == fs + [Live(MakeFeature(env, polygon))]
  {
    DrawWithoutOverlap(env, fs, polygon);
    CompactDense(fs + [Live(MakeFeature(env, polygon))]);
  }

  /**
   * Erasing from a dense array and redrawing: when no difference comes back
   * null, every feature stays at its index, replaced by its difference with
   * the gap exactly when it intersects the gap.
   */
  lemma EraseUpKeepsIndices<G>(env: Env<G>, fs: seq<Slot<G>>, gap: G)
    requires Dense(fs)
    requires forall i :: 0 <= i < |fs| && env.intersects(gap, fs[i].geometry) ==>
      env.difference(fs[i].geometry, gap).Some?
    ensures var r := Compact(Erased(env, fs, gap));
            && |r| == |fs|
            && (forall i :: 0 <= i < |fs| && env.intersects(gap, fs[i].geometry) ==>
                  r[i] == Live(env.difference(fs[i].geometry, gap).value))
            && (forall i :: 0 <= i < |fs| && !env.intersects(gap, fs[i].geometry) ==> r[i] == fs[i])
  {
    CompactDense(Erased(env, fs, gap));
  }
}
