# viswal-lines: the Visvalingam–Whyatt ranking, modelled in Dafny

The `viswal` package ranks the vertices of a GeoJSON line or polygon ring by
how much each one matters to the shape. Each vertex has a triangle area: the
area it spans with its two neighbours. The vertices go into a min-heap keyed
by that area, through Go's `container/heap`. The package then pops the
smallest vertex again and again until two remain. A vertex popped while
`dropped` of `count` vertices are still queued gets the score
`dropped / count`. The two endpoints keep the score 0. After each pop, the
package updates the popped vertex's left neighbour and then its right one:
it recomputes that neighbour's area, relinks the chain and repairs the
heap. `ReduceGeometry` runs this once per polygon or line of a geometry and
recurses into geometry collections. A `Reducer` stores the result in a
feature's `"Order"` property.

The model has these modules:

- `Points`: the vertex record, `newPoint`, and the shoelace triangle area.
- `HeapOrder`: the min-heap order on the keys of a slot sequence. This
  covers heap, almost-heap, and the sift-down and sift-up steps.
- `QueueSpec`: the priority queue as a value. `points` is an arena of
  vertices addressed by id. `slots` is the heap slice, holding ids.
  `Point.index` is a vertex's slot. Every operation of `queue.go` is a
  function that follows the Go code step for step. So is every routine of
  `container/heap` it calls (`down`, `up`, `Fix`, `Pop`).
- `QueueHeap`: what those functions keep:
  - the slot map and the multiset of queued ids;
  - the heap order;
  - that `heap.Pop` returns a vertex of least area.
- `QueueInit`: the ring builder and the first loop of
  `getQueuePriorityOrder`. After the loop, every interior vertex holds the
  area of the triangle it makes with its two ring neighbours, the endpoints
  have `+Inf`, and the queue is a heap.
- `QueueElim`: the elimination loop. Its invariant covers:
  - the heap;
  - the slot map;
  - the endpoints staying at `+Inf` and in the queue;
  - the scores handed out so far.
  The loop ends with only the two endpoints left. A score, once written, is
  never overwritten.
- `PriorityOrders`: the whole run on one polygon. Every interior vertex has
  a distinct score `c / count` for some `c` in `3..count`, and each such `c`
  is used exactly once. The vertex scored 1 is the first one popped: an
  interior vertex with the smallest ring triangle.
- `PriorityQueues`: the `PriorityQueue` as a class. Its fields are the
  arena and the slice. Every method is proved to leave the object in the
  state that the matching `QueueSpec` function describes. So every property
  above holds of the imperative code too.
- `Reducer`: the geometry dispatcher, the `"Order"` property, and the
  `Reducer` class.

Coordinates and areas are exact reals. `+Inf` is an explicit constructor of
`Area`.

The Go `update` is modelled as written:

- No vertex is ever marked dead, so the walks over dead neighbours never
  move.
- `update(L)` recomputes L's area against `L.leftPoint` and
  `L.rightPoint` as they stand. In the first round, the left neighbour's
  `rightPoint` and the right neighbour's `leftPoint` are the vertex just
  popped. In later rounds, a link may lead to the vertex just popped or to
  one popped earlier.
- So `update` can be called on a vertex popped in an earlier round. It then
  recomputes that vertex's stale area and relinks the chain around it,
  which moves its neighbours' links off it. Its `heap.Fix` does nothing,
  because its index is at or past `Len` (`QueueElim.UpdatePoppedOnlyRelinks`).
- `update(L)` then links L's two neighbours to each other, which bypasses
  L itself.

The model proves what this code does: `QueueElim.UpdateRelinksAroundItself`.
It makes no claim that a neighbour is re-scored against its true surviving
neighbours. So the areas fix the first vertex popped
(`PriorityOrders.FirstPopIsFlattest`), but not the order of later pops.

## Model

| member | source | states |
|---|---|---|
| Points.NewPoint | pkg/viswal/point.go:30-40 | A new vertex has the given id and coordinates. Its queue index equals its id. It is alive, has no links, and has area `+Inf`. |
| Points.Lt | pkg/viswal/queue.go:28 | Go's float64 `<` on areas: `+Inf` is below nothing, and every finite area is below `+Inf`, so an endpoint cannot be popped while a finite area is queued. |
| Points.LtIsStrictTotalOrder | pkg/viswal/queue.go:28 | `<` on areas is irreflexive, asymmetric, transitive and total, which `heap.Fix` and `heap.Pop` rely on. |
| Points.TriangleArea | pkg/viswal/point.go:44-46 | The stored area is never negative. |
| Points.TriangleAreaZeroIffCollinear | pkg/viswal/point.go:44-46 | The area is zero exactly when the three vertices are collinear. |
| Points.HorizontalTriangleIsFlat | pkg/viswal/point.go:44-46 | Three vertices on one horizontal line give area zero. |
| Points.TriangleAreaOuterSymmetric | pkg/viswal/point.go:44-46 | Exchanging the two neighbours does not change the area. |
| QueueSpec.SetArea | pkg/viswal/point.go:44-46 | `area` overwrites only the middle vertex's area, with the triangle area against the two given vertices. Every other vertex is unchanged. |
| QueueSpec.Swap | pkg/viswal/queue.go:19-22 | The two slots are exchanged. The queue stays well formed. |
| QueueHeap.SwapFrame | pkg/viswal/queue.go:19-22 | Swap changes only `index` fields. It keeps the multiset of queued ids and preserves the slot map. |
| QueueHeap.SwapKeys | pkg/viswal/queue.go:19-22 | Swap exchanges exactly the two slots' keys. |
| QueueSpec.Less | pkg/viswal/queue.go:25-31 | `Less` holds only of two slots that are both in the queue. |
| QueueSpec.Len | pkg/viswal/queue.go:33-36 | `Len` is the number of queued slots, one per heap key. |
| QueueHeap.LessIsStrict | pkg/viswal/queue.go:25-31 | `Less` holds exactly when both slots are in the queue and the first key is `<` the second. It is irreflexive and asymmetric. |
| QueueSpec.Push | pkg/viswal/queue.go:39-44 | Appending a vertex keeps the queue well formed. |
| QueueSpec.PopLast | pkg/viswal/queue.go:47-54 | Removing the last slot keeps the queue well formed. |
| QueueHeap.PushThenPop | pkg/viswal/queue.go:39-54 | `Pop` after `Push(x)` returns x and restores the slice. x's index becomes the old length. |
| QueueSpec.BuildQueue | pkg/viswal/queue.go:57-78 | The queue has one vertex and one slot per coordinate of the first ring. Vertex i has id i, sits in slot i, and has the coordinates of the ring's i-th position. |
| QueueInit.BuildEstablishesInitInv | pkg/viswal/queue.go:57-78 | The built queue is a chain: vertex i links to i-1 and i+1, with no link past the ends. Slot i holds vertex i, the slot map holds, every area is `+Inf`, and the queue is a heap. |
| PriorityOrders.OnlyFirstRingCounts | pkg/viswal/queue.go:57-78 | Two polygons with the same first ring get the same order array. Holes are ignored. |
| QueueSpec.GetPointArea | pkg/viswal/queue.go:80-84 | With both links present, the vertex's area becomes the triangle area against its two linked vertices (`SetArea`), and nothing else changes. With a link missing, the queue is unchanged. |
| QueueSpec.Down | pkg/viswal/queue.go:98 | container/heap's `down` keeps the queue well formed and its sizes. It returns a slot no smaller than the start slot, and returns the start slot only when nothing moved. |
| QueueSpec.SmallerChild | pkg/viswal/queue.go:98 | `down` compares with the left child, or with the right child when that one is in range. |
| QueueSpec.Up | pkg/viswal/queue.go:98 | container/heap's `up` keeps the queue well formed and its sizes. |
| QueueSpec.Fix | pkg/viswal/queue.go:98 | `heap.Fix` keeps the queue well formed and its sizes. |
| QueueSpec.PopMin | pkg/viswal/queue.go:104 | `heap.Pop` keeps the queue well formed and removes one slot. |
| QueueHeap.FixFrame | pkg/viswal/queue.go:98 | `heap.Fix` only permutes the slots. It changes nothing but `index` fields and preserves the slot map. |
| QueueHeap.FixRestores | pkg/viswal/queue.go:98 | `heap.Fix` at the slot whose key changed turns an almost-heap back into a heap. |
| QueueHeap.FixPastEndIsNoop | pkg/viswal/queue.go:135 | `heap.Fix` at a slot past the end changes nothing. |
| QueueHeap.PopMinFrame | pkg/viswal/queue.go:104 | `heap.Pop` returns the root's vertex and removes exactly that id from the slots. The popped vertex's index is then the new length. |
| QueueHeap.PopMinKeepsHeap | pkg/viswal/queue.go:104 | `heap.Pop` leaves a heap. |
| QueueHeap.PopMinIsMin | pkg/viswal/queue.go:104 | `heap.Pop` returns a vertex whose area is no greater than that of any queued vertex. |
| QueueSpec.InitStep | pkg/viswal/queue.go:96-99 | One pass of the first loop keeps the queue well formed and its sizes. |
| QueueSpec.InitAreas | pkg/viswal/queue.go:96-99 | The first loop keeps the queue well formed and its sizes. |
| QueueInit.InitStepKeepsInv | pkg/viswal/queue.go:96-99 | One pass of the first loop reads the vertex whose id equals the slot. It gives that vertex its area: finite for an interior vertex, `+Inf` for an endpoint. The slots after it are untouched, and the queue stays a heap. |
| QueueInit.InitStepAreas | pkg/viswal/queue.go:96-99 | One pass of the first loop stores the ring triangle area of the vertex it reads and moves no coordinate. |
| QueueInit.InitAreasCorrect | pkg/viswal/queue.go:96-99 | After the first loop, every interior vertex holds the area of the triangle it makes with its ring neighbours, and exactly the interior vertices have finite areas. Every vertex keeps its coordinates. The queue is a heap over all vertices with a valid slot map. |
| PriorityOrders.InitialAreas | pkg/viswal/queue.go:96-99 | On the queue built from a polygon, the first loop gives each interior vertex its ring triangle area and leaves both endpoints at `+Inf`. |
| QueueSpec.WalkLeft | pkg/viswal/queue.go:123-125 | The leftward walk ends at a vertex of the arena no further right than where it started, and does not move from a live vertex. |
| QueueSpec.WalkRight | pkg/viswal/queue.go:126-128 | The rightward walk ends at a vertex no further left than where it started, and does not move from a live vertex. |
| QueueSpec.Relink | pkg/viswal/queue.go:131-132 | The vertex's area becomes the triangle area against l and r, l's right link becomes r, and r's left link becomes l. No other vertex and no slot changes. |
| QueueSpec.Update | pkg/viswal/queue.go:116-139 | `update` keeps the queue well formed and its sizes. With a link missing, it changes nothing. |
| QueueSpec.UpdateLink | pkg/viswal/queue.go:108-109 | A nil link changes nothing. |
| QueueElim.UpdateRelinksAroundItself | pkg/viswal/queue.go:116-139 | For an interior vertex, `update` recomputes the vertex's area against its own left and right links. It links those two to each other. Apart from heap repair, nothing else changes. |
| QueueElim.UpdatePoppedOnlyRelinks | pkg/viswal/queue.go:116-139 | `update` on a vertex popped earlier re-scores it and relinks its neighbours around it. Its `heap.Fix` changes nothing, because an unqueued vertex's index is at or past `Len`. |
| QueueElim.UpdateEndpointIsNoop | pkg/viswal/queue.go:116-139 | `update` on an endpoint (one nil link) changes nothing. |
| QueueElim.UpdateKeepsInv | pkg/viswal/queue.go:116-139 | `update` keeps the heap, the slot map and the queued ids. It keeps the chain shape: endpoints stay `+Inf` and unlinked outwards, and interior vertices keep finite areas and both links. |
| QueueElim.PopStepInv | pkg/viswal/queue.go:103-106 | While more than two vertices are queued, the popped vertex is an interior one, and the invariant holds after the pop. |
| QueueElim.EliminateStepInv | pkg/viswal/queue.go:103-110 | One round of pop, update left and update right keeps the invariant. It removes exactly the popped id from the queue. |
| QueueElim.ScoreInjective | pkg/viswal/queue.go:105 | Different remaining counts give different scores. |
| QueueSpec.Score | pkg/viswal/queue.go:105 | The score times the vertex count is `droppedCtr`, so it is `droppedCtr / countPoints`. It lies in [0, 1] while `droppedCtr` does not exceed the count. |
| QueueElim.EliminateStepOrder | pkg/viswal/queue.go:105 | Scoring the popped vertex with `dropped / count` keeps the record of given scores. Each queued vertex has 0, each removed vertex a distinct score above the current count. |
| QueueElim.EliminateCorrect | pkg/viswal/queue.go:103-110 | The elimination loop stops with two vertices queued and the invariants kept. |
| QueueSpec.Eliminate | pkg/viswal/queue.go:103-110 | The loop keeps the queue well formed and the array's length. It leaves two vertices queued, or as many as there were if no more than two. |
| QueueElim.EliminateKeepsScores | pkg/viswal/queue.go:103-110 | The loop never changes the entry of a vertex that is no longer queued. |
| QueueElim.PoppedScoreFinal | pkg/viswal/queue.go:104-105 | The vertex a round pops is interior, and the score written for it is its final score. |
| PriorityOrders.TwoLeftAreEndpoints | pkg/viswal/queue.go:103 | When two vertices remain, they are the two endpoints. |
| QueueSpec.GetQueuePriorityOrder | pkg/viswal/queue.go:89-113 | The order array has one entry per vertex. The final queue holds two vertices, or all of them if there are no more than two. |
| QueueSpec.PriorityOrder | pkg/viswal/queue.go:89-113 | The order array for a polygon has one entry per vertex of its first ring. |
| PriorityOrders.PriorityOrderScores | pkg/viswal/queue.go:89-113 | The order array has one entry per vertex, and the endpoints score 0. With fewer than three vertices everything scores 0. Otherwise every interior vertex gets a distinct score `c / count` with `3 <= c <= count`, and every such `c` is used. |
| PriorityOrders.FirstPopIsFlattest | pkg/viswal/queue.go:96-105 | A vertex scored 1.0 is interior, and its ring triangle is no larger than that of any interior vertex. With at least three vertices, one vertex has score 1.0. |
| PriorityOrders.UniqueFlattestScoresOne | pkg/viswal/queue.go:96-105 | An interior vertex whose ring triangle is strictly smaller than every other interior vertex's scores 1.0: it is removed first. |
| PriorityOrders.FlatVertexOfFourScoresOne | pkg/viswal/queue.go:96-105 | On four vertices whose interior ring areas are 0 and 2.5, vertex 1 scores 1.0. |
| PriorityQueues.PriorityQueue.FromPolygon | pkg/viswal/queue.go:57-78 | The constructed object is `BuildQueue` of the polygon. |
| PriorityQueues.PriorityQueue.Swap | pkg/viswal/queue.go:19-22 | The new state is `QueueSpec.Swap` of the old. |
| PriorityQueues.PriorityQueue.Push | pkg/viswal/queue.go:39-44 | The new state is `QueueSpec.Push` of the old. |
| PriorityQueues.PriorityQueue.Pop | pkg/viswal/queue.go:47-54 | The result and new state are `QueueSpec.PopLast` of the old state. |
| PriorityQueues.PriorityQueue.Down | pkg/viswal/queue.go:98 | The sift-down loop ends in the state and slot given by `QueueSpec.Down`. |
| PriorityQueues.PriorityQueue.Up | pkg/viswal/queue.go:98 | The sift-up loop ends in the state given by `QueueSpec.Up`. |
| PriorityQueues.PriorityQueue.Fix | pkg/viswal/queue.go:98 | The new state is `QueueSpec.Fix` of the old. |
| PriorityQueues.PriorityQueue.HeapPop | pkg/viswal/queue.go:104 | The result and new state are `QueueSpec.PopMin` of the old state. |
| PriorityQueues.PriorityQueue.Area | pkg/viswal/point.go:44-46 | Only the middle vertex's area changes, as `SetArea` says. The slots are untouched. |
| PriorityQueues.PriorityQueue.GetPointArea | pkg/viswal/queue.go:80-84 | The new state is `QueueSpec.GetPointArea` of the old. |
| PriorityQueues.PriorityQueue.Update | pkg/viswal/queue.go:116-139 | The walk loops, the relink and the heap fix end in the state `QueueSpec.Update` gives. |
| PriorityQueues.PriorityQueue.UpdateLink | pkg/viswal/queue.go:108-109 | The new state is `QueueSpec.UpdateLink` of the old. |
| PriorityQueues.PriorityQueue.AssignAreaAt | pkg/viswal/queue.go:96-99 | One pass of the first loop ends in `QueueSpec.InitStep` of the old state. |
| PriorityQueues.PriorityQueue.AssignAreas | pkg/viswal/queue.go:96-99 | The first loop ends in `QueueSpec.InitAreas` of the old state. |
| PriorityQueues.PriorityQueue.ReduceToEndpoints | pkg/viswal/queue.go:103-110 | The elimination loop leaves the queue and the order array as `QueueSpec.Eliminate` says. |
| PriorityQueues.PriorityQueue.GetQueuePriorityOrder | pkg/viswal/queue.go:89-113 | The returned array and the final state are `QueueSpec.GetQueuePriorityOrder` of the old state. |
| PriorityQueues.PolygonOrder | pkg/viswal/reducer.go:62-64 | Building a queue from a polygon and running it yields `QueueSpec.PriorityOrder`, the array `PriorityOrderScores` describes. |
| Reducer.ReduceGeometry | pkg/viswal/reducer.go:47-108 | The result has one array per polygon of a MultiPolygon, per line of a MultiLineString, and per member of a GeometryCollection. It has one for a Polygon or LineString and none for any other type. |
| Reducer.Sources | pkg/viswal/reducer.go:47-108 | Each result array has a source polygon with at least one ring, in result order. |
| Reducer.ReduceGeometryFromSources | pkg/viswal/reducer.go:47-108 | Each array of the result is the priority order of its source polygon. A line is run as a one-ring polygon, and a collection member contributes its first array. |
| Reducer.ReduceGeometryScores | pkg/viswal/reducer.go:47-108 | Each array of the result scores the vertices of its source's first ring as `PriorityOrderScores` states. |
| Reducer.PolygonHolesIgnored | pkg/viswal/reducer.go:60-65 | A Polygon's result does not depend on its holes. |
| Reducer.Reduced | pkg/viswal/reducer.go:26-37 | The reduced feature keeps its geometry. It has `"Order"` set to the geometry's arrays, and every other property is unchanged. |
| Reducer.ReducedIdempotent | pkg/viswal/reducer.go:26-37 | Reducing a feature twice gives the same feature as reducing it once. |
| Reducer.Reducer.ReduceFeature | pkg/viswal/reducer.go:26-37 | Only the feature at `index` changes, and it becomes `Reduced` of what it was. |
| Reducer.Reducer.BatchReduce | pkg/viswal/reducer.go:130-135 | Every feature of the collection is reduced, and the number of features is unchanged. |

## Left out

- The goroutines, the `sync.WaitGroup` and `reduceFeaturesAsyncWrapper` are not modelled. `BatchReduce` reduces the features one after another. Each goroutine writes a different feature, so the outcome is the same.
- GeoJSON parsing (`UnmarshalFeatureCollection`) and `log.Fatal` are I/O and are not modelled. `BatchReduce` takes the features already decoded.
- Floating point is not modelled. Coordinates and areas are exact reals, so rounding, NaN and overflow to infinity do not arise. `math.Inf(1)` is the separate `Infinite` value.
- Positions with fewer than two components would panic in Go. The model's coordinate pairs rule them out.
- A feature whose geometry is `null`, or a null member of a geometry collection, makes Go dereference nil when it reads the type. The model's `Feature` and `Geometry` always hold a geometry, so that panic is not modelled.
- Go panics are preconditions:
  - a `Polygon` or `MultiPolygon` member with no rings panics on `polygon[0]`;
  - a collection member whose result is empty panics on `result[0]`.
  `Reducible` states these conditions.
- `update` on a nil link would dereference nil in Go. `UpdateLink` treats it as a no-op. In the elimination loop this never happens, because a popped vertex is always interior (`QueueElim.PoppedIsInterior`).
- The walks over dead neighbours stop where Go would follow a nil link. They also stop at a link that does not lead further outwards. Go's walk never moves anyway, since `alive` is never cleared.
- The `error` results of `ReduceFeature` and `ReduceGeometry` are always nil, so they are not modelled.
- A feature's `Properties` map is never nil in the model.
- The feature slice holds pointers in Go. The model stores the features as values, so aliasing between features is not modelled.
- Property values other than `"Order"` are kept as opaque text.
- Ties between equal areas are broken by the heap's slot positions, as in Go. The model proves no order among equal keys.
- PriorityOrders.PriorityOrderScores: does not state which vertex gets which score after the first pop, nor that vertices are removed in increasing area. `update` re-scores a neighbour against links that may lead to popped vertices, and relinks around the neighbour itself. So after the first round the areas in the heap are not the triangle areas of the surviving chain. Only the first pop is tied to the geometry (`PriorityOrders.FirstPopIsFlattest`).
- The rest of the repository (the S3 and Elasticsearch managers, the web and lambda commands, `tests/main.go`) is not part of this model.
