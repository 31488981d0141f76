# drawmap core in Dafny

drawmap is a browser tool for marking coverage on a map. The user draws freehand strokes on a canvas that lies over the map. Each stroke becomes a polygon, and the polygon is merged into the list of drawn regions (`features`) or subtracted from it. This project models two parts of the program and proves properties of them:

- **`app/shape.js`** (module `Shape`, `shape.dfy`). `sortPoints` sorts pixel points in place by x, then by y. `convexHull` is a single-loop monotone chain: it sweeps the sorted points forward and back, keeps a stack of hull points, and pops while `removeInner` holds. The model proves that, for sorted points, the ring the hull outlines (closed back to its first point) has every input point on its kept side: the hull encloses the input.
- **`app/draw.js`**, in two modules:
  - `Regions` (`regions.dfy`) gives, as functions of the array's value, what the erase tool, the draw tool and `redrawMap` leave in `features`, with lemmas about it.
  - `Draw` (`draw.dfy`) holds a class `Session`. Its fields are `points`, `features`, `painting` and `moving`, and its methods are the pointer handlers (`down`, `move`, `up`), `addPoint`, `erase`, the two tools' `up` and `redrawMap`. `Erase`, the two tools' `up` and `RedrawMap` are proved against the `Regions` functions, and `Up` through the tools' `up`. The other handlers state their new fields directly.

The polygon library (`intersect`, `union`, `difference`, polygon construction), the map projection (`pixelToCoordinate`, `coordinateToPixel`) and `simplify` are foreign code. They are passed in as uninterpreted functions: the fields of an `Env` value, and a `simplify` parameter of `Up`. The model proves the repository's own bookkeeping around those calls, not their geometry.

A slot of `features` is one of three things:
- `Hole`: left by `delete`. `forEach` and `filter` skip it.
- `Null`: stored when `difference` returns null.
- `Live(g)`: a feature.

`Session.Valid()` is the invariant that holds between events:
- `moving` implies `painting`, and implies that `points` is non-empty;
- `features` is dense, meaning it holds neither holes nor nulls.

Every handler keeps this invariant.

The code keeps no per-feature gap or sub-feature list, no containment pass and no tap handler of its own:
- `erase` replaces a feature by its difference with the gap straight away;
- the module variable `gaps` is never written;
- `up` without movement only pops the last point;
- `mouseleave` and `touchleave` call the same `up` handler.

## Model

| member | source | states |
|---|---|---|
| `Shape.CompareIsLexicographic` | app/shape.js:6-8 | The comparator is at most 0 exactly when the points are in x-then-y order, is 0 exactly on equal points, and is antisymmetric. |
| `Shape.SortedUnique` | app/shape.js:5-9 | Two sorted sequences with the same multiset are equal, so the sort's result does not depend on the engine's algorithm. |
| `Shape.SortPoints` | app/shape.js:5-9 | Sorts the caller's array in place: afterwards it is in x-then-y order and is a permutation of its old contents. Returns the same array. |
| `Shape.RemoveInner` | app/shape.js:12-16 | A point repeated next to the middle point always makes it inner, so duplicates leave the hull. |
| `Shape.RemoveInnerCollinear` | app/shape.js:12-16 | On one line, the middle point is inner exactly when the other two are on opposite sides of it or one coincides with it; a turnaround point is kept. |
| `Shape.RemoveInnerReversed` | app/shape.js:12-16 | When the three points are not on one line, the middle point is inner in exactly one of the two orders, forward and backward sweep. |
| `Shape.SweepIndex` | app/shape.js:23-24 | Step `i` of the sweep reads index `i` on the way forward and `2n-1-i` on the way back. The index is always below `n`. |
| `Shape.Pop` | app/shape.js:31 | `pop` removes the last element if there is one and leaves an empty array empty. |
| `Shape.Chain` | app/shape.js:20-33 | The loop computes the closed sweep `Pop(SweepFrom(points, [], 0))`. Every hull point is an input point. No three consecutive hull points satisfy `removeInner`, even after closing the ring back to the first point. Empty input gives an empty hull, one point gives exactly that point, and otherwise the first hull point is `points[0]`. For sorted input, every input point has a non-negative cross product with every edge of the closed ring `hull + [hull[0]]`, so the hull encloses the input, and when the first and last points differ the last point is on the hull and the hull has at least two points. |
| `Shape.ConvexHull` | app/shape.js:18-33 | Leaves the caller's array sorted and permuted. The hull is exactly the closed sweep `Pop(SweepFrom(sorted, [], 0))` over the sorted array, and consists of input points with no inner triple. For a non-empty input its first point is the lexicographically smallest input point, the lexicographically greatest input point is also on it, and any two distinct input points give a hull of at least two points. Every input point has a non-negative cross product with every edge of the closed ring `hull + [hull[0]]`: the hull encloses the input. |
| `Shape.PopAll` | app/shape.js:25-27 | The pops of one step leave a prefix of the hull, never empty a non-empty hull, and stop exactly when the top two points and the next point are no longer inner: every popped point was the middle of an inner triple when it was on top, and the top left is not. |
| `Shape.PopStep` | app/shape.js:25-27 | Popping an inner top keeps a half-built hull a chain over the points seen so far: in sweep order, with no inner triple, and with every seen point on the kept side of every edge. |
| `Shape.PushStep` | app/shape.js:28 | Pushing the next point once no inner top is left keeps that chain invariant, over the seen points and the new one. |
| `Shape.SweepStep` | app/shape.js:23-29 | One step of the sweep over sorted points, pops and push, keeps the sweep invariant: a forward chain over the points visited, then from the turn on the finished forward chain continued by a backward chain. |
| `Shape.SweepFromShape` | app/shape.js:23-29 | Every step keeps the hull's points input points with no inner triple, starting at the first point and ending at the point just pushed. |
| `Shape.SweepFromEncloses` | app/shape.js:23-29 | The sweep over sorted points ends with a hull that has every point on the kept side of every edge. When the first and last points differ, the last point stays on the hull after the final `pop`. |
| `Shape.ClosedSweep` | app/shape.js:31-33 | After the final `pop`, the hull closed back to its first point is exactly the sweep's last hull, so it keeps no inner triple and, for sorted points, encloses them all. For sorted points whose first and last differ, the last point is on the hull and the hull has at least two points. |
| `Regions.ClosedRing` | app/draw.js:33-41 | The ring is one position longer than the pixel polygon. Position i is the projection of point i, and the last position equals the first. |
| `Regions.MakeFeatureRing` | app/draw.js:33-41 | `makeFeature` on a stroke of more than three points hands `polygon` a closed ring of at least five positions, position i being the projection of point i. |
| `Regions.RingFeatureRing` | app/draw.js:79-89 | A ring of the merged polygon, mapped to pixels with `coordinateToPixel` and made into a feature again, reaches `polygon` closed, with one more position than the ring and so at least five. |
| `Regions.EraseSlot` | app/draw.js:105-109 | A hole (skipped by `forEach`), a null, or a feature the gap misses is left as it is. A feature the gap meets becomes its difference with the gap, or null when there is none. |
| `Regions.Erased` | app/draw.js:104-110 | `erase` keeps the length of `features`. Each live feature the gap intersects becomes its difference with the gap, or null. Every other slot is unchanged. |
| `Regions.EraseAll` | app/draw.js:90-96 | Erasing several gaps in order keeps the length and acts on each slot independently. |
| `Regions.EraseSlotAllKeepsEmpty` | app/draw.js:104-110 | A hole or a null slot is never changed by any series of erasures. |
| `Regions.Punched` | app/draw.js:72-77 | After the draw tool's `forEach`, every slot the stroke hits is a hole and every other slot is unchanged. The length is kept. |
| `Regions.Unions` | app/draw.js:71-78 | The collected unions are empty exactly when the stroke hits no feature. This is the `unions.length` test. There are no more unions than slots, and when the last slot is hit the last entry is its union with the stroke. |
| `Regions.UnionsAppend` | app/draw.js:72-77 | The unions of earlier slots come before those of later ones, so the entries are in ascending slot order. |
| `Regions.UnionAll` | app/draw.js:79 | `reduce` without an initial value returns a single entry as it is. |
| `Regions.UnionAllAppend` | app/draw.js:79 | Folding one more entry in unites the fold of the earlier entries with it, in that argument order. |
| `Regions.UnionsCollectHits` | app/draw.js:71-77 | Every hit contributes `union(feature, stroke)`, and every collected entry is such a union for some hit. |
| `Regions.Gaps` | app/draw.js:86-96 | The holes that get erased are exactly the holes of the merged polygon that, made into features, do not intersect the stroke. |
| `Regions.GapsWhenAllTouch` | app/draw.js:90-96 | If every hole touches the stroke, no hole is erased. |
| `Regions.DrawMerged` | app/draw.js:67-99 | Before `redrawMap`, the draw tool appends exactly one slot. |
| `Regions.DrawWithoutOverlap` | app/draw.js:72-99 | A stroke that meets no feature is appended last, and every existing slot is unchanged. |
| `Regions.DrawWithOverlap` | app/draw.js:72-96 | A stroke that meets some feature empties every hit slot. Every other slot keeps its index and only gets the erasures of the holes that miss the stroke. The one appended slot holds the merged outer ring with those erasures. |
| `Regions.DrawWithOverlapFillsHoles` | app/draw.js:86-96 | When every merged hole touches the stroke, all holes are dropped: the slots that were not hit are unchanged and the appended slot is the merged outer ring. |
| `Regions.Compact` | app/draw.js:56-60 | `redrawMap`'s filter leaves no hole or null, never grows the array, keeps only entries of the old array, and keeps every live entry. |
| `Regions.LiveIndices` | app/draw.js:58 | The indices of the live slots are in range, strictly ascending, and are exactly the live ones. |
| `Regions.CompactKeepsOrder` | app/draw.js:58 | The k-th entry after the filter is the slot at the k-th live index, so relative order is preserved. |
| `Regions.CompactDense` | app/draw.js:58 | An array without holes or nulls passes the filter unchanged. |
| `Regions.CompactAppend` | app/draw.js:58 | The filter distributes over concatenation. |
| `Regions.DrawUpWithoutOverlap` | app/draw.js:67-101 | Drawing a non-overlapping stroke on a dense `features` array and redrawing gives the old array with the stroke appended. |
| `Regions.EraseUpKeepsIndices` | app/draw.js:104-121 | Erasing from a dense array and redrawing, when no difference is null, keeps every feature at its index. A feature is replaced by its difference with the gap exactly when it intersects the gap. |
| `Draw.PressPosition` | app/draw.js:189-190 | Reading the pressed position, with `touches[0]` as the fallback for a falsy offset, fails exactly when there are no touches and an offset is 0 or undefined. Otherwise each coordinate is the offset if it is truthy, else the touch position. |
| `Draw.Session.constructor` | app/draw.js:21-22 | A fresh session has no points and no features, with both flags clear as the `mapready` closure declares them (app/draw.js:175-176). It satisfies the invariant. |
| `Draw.Session.AddPoint` | app/draw.js:124-126 | Appends exactly the point `{x, y}` to `points`. |
| `Draw.Session.Down` | app/draw.js:185-193 | Sets `painting` and clears `moving`. Appends exactly the pressed point, or appends nothing and reports that the handler raised. `features` is unchanged. |
| `Draw.Session.Move` | app/draw.js:195-205 | Only while painting, and only when both coordinates are truthy (0 counts as absent), it appends the point and sets `moving`. Otherwise `points` and `moving` are unchanged. |
| `Draw.Session.Up` | app/draw.js:207-223 | Without movement it pops the last point, clears `painting` and leaves `features` alone. After movement it clears both flags, runs the tool's `up` only when the simplified polygon has more than 3 points, and leaves `points` empty. The invariant is kept. |
| `Draw.Session.RedrawMap` | app/draw.js:56-60 | `features` becomes its compaction. |
| `Draw.Session.Erase` | app/draw.js:104-110 | The in-place loop leaves exactly `Erased` of the old `features`. |
| `Draw.Session.EraseToolUp` | app/draw.js:115-121 | `features` becomes the compaction of the old array erased by the stroke's feature. |
| `Draw.Session.DeleteHits` | app/draw.js:71-77 | The `forEach` with `delete` leaves `Punched` of the old array and returns `Unions` of it. |
| `Draw.Session.EraseUntouchedHoles` | app/draw.js:86-96 | The loop over the merged holes leaves the array erased by exactly `Gaps`, in order. |
| `Draw.Session.DrawToolUp` | app/draw.js:67-101 | `features` becomes the compaction of `DrawMerged` of the old array. |
| `Draw.Tap` | app/draw.js:185-212 | A press and release without movement leaves `features` as it was, with both flags clear. A press whose position can be read leaves `points` as it was. A press that raises adds no point, so the release pops an earlier one: `points` becomes `Pop` of the old list. |

## Left out

- `pixelToCoordinate` and `coordinateToPixel` (app/draw.js:150-171) are floating-point scaling plus map-projection calls. They are the uninterpreted `Env.toCoordinate` and `Env.toPixel`.
- The polygon library's `intersect`, `union`, `difference` and `polygon` are uninterpreted. `intersect` enters only through its truthiness. `difference` may return null.
- The library's polygon constructor rejects short or open rings. Every ring the tools build is closed and has at least five positions (`Regions.MakeFeatureRing`, `Regions.RingFeatureRing`), so that check never fails here and is not modelled.
- `geometry.coordinates` of the merged union is read as a single polygon: an outer ring plus holes, each a linear ring of at least four positions. A MultiPolygon result is not modelled.
- Regions.EraseSlot: a null slot is treated as not intersecting the gap. The library's behaviour when `intersect` is given null is not visible. `intersect` only ever receives a null when one draw-tool `up` erases two or more merged holes (app/draw.js:90-96) and an earlier erasure left a null.
- Regions.Unions: the sparse `unions` array is modelled densely in index order. Only its emptiness and the order seen by `reduce` matter.
- `simplify` (app/draw.js:217) is not exported by app/shape.js in this snapshot. It is a parameter from the point list and tool width to a pixel polygon. The canvas argument is dropped.
- Canvas rendering (`drawline`, `redraw`, `setCanvasHeight`), the map overlay calls `clear` and `plot`, the unused module variable `gaps`, `preventDefault`, and the tool colours are not modelled.
- Event-listener wiring (app/draw.js:173-183, 225-233) is not modelled. The active tool is a parameter of `Up` instead of the `data-tool` attribute, and attribute values naming no tool are not modelled.
- Shape.Point: pixel coordinates are integers, not JavaScript numbers. So the cross and dot products in `removeInner` are exact, and there is no float rounding.
- Shape.SortPoints: the engine's sort algorithm is replaced by insertion sort. `Shape.SortedUnique` shows that any correct sort gives the same array.
- Shape.ConvexHull: the hull is returned as a sequence value rather than a fresh array.
- Shape.Chain: enclosure is stated for sorted input only, which is the only input `convexHull` gives the loop (app/shape.js:18). Minimality of the hull beyond the no-inner-triple property is not stated.
- Draw.Session.Down: the TypeError is reported as `thrown` and does not propagate. No other exception is modelled, in particular none raised inside the polygon library.
- app/markers.js, app/buttons.js, app/map.js and brunch-config.js are DOM, network and build glue and are not part of this model.
