# LibTessSwift core in Dafny

This project models the core of LibTessSwift, a Swift port of the SGI GLU
polygon tessellator. The core is the sweep-line engine that turns contours into
a planar subdivision, together with the parts it stands on:

- the geometric predicates over projected vertices (`Geom`);
- the Guibas–Stolfi half-edge mesh, its ring helpers and its topological
  operations: makeEdge and splice (`MeshUtils`, `MeshContext`, `Mesh`),
  addEdgeVertex, splitEdge and connect (`MeshOps`), and delete
  (`MeshDelete`). A `Labels` theory says how vertices and faces label the
  Onext and Lnext cycles;
- the mesh passes of the tessellator built from those operations: the
  boundary extraction of setWindingNumber (`TessMesh`), the removal of
  two-edge faces after the sweep (`DegenerateFaces`), and addContour's
  construction of a contour's loop (`ContourFacts`, `ContourLoop`,
  `Contour`);
- the sorted sweep dictionary (`Dict`);
- the event queue: an indexed binary heap with a free list of handles
  (`PriorityHeap`), and the sorted-array hybrid in front of it
  (`PriorityQueue`);
- the bookkeeping of the sweep (`Sweep`) and the intake of contours and
  assembly of output (`Tess`).

Pointer-linked records become arenas. Each record kind is a set of sequence
columns indexed by `int`, nil is `-1`, and allocation appends a fresh index.
Both halves of an edge pair are indices `2k` and `2k + 1`. The three sentinel
heads are index 0 of their arenas, and the head edge pair is `0, 1`. Mesh
invariants are stated against ghost listings of the rings and cycles. A
`Shape` witness for the mesh, a ring listing for the dictionary and a
free-list listing for the heap are passed in and out of the operations.
`Real` is Dafny's `real`, so nothing about rounding is claimed.

## Model

| member | source | states |
|---|---|---|
| Geom.WindingRuleMeaning | Sources/LibTessSwift/Geom.swift:10-23 | evenOdd, computed on the low bit `n & 1`, is inside exactly for odd winding numbers, negative ones included |
| Geom.OrdersAreTotal | Sources/LibTessSwift/Geom.swift:28-94 | vertLeq and transLeq are total and transitive; both directions hold exactly when the vertices are equal; transLeq is vertLeq on transposed points |
| Geom.EdgeEvalIsDistance | Sources/LibTessSwift/Geom.swift:46-70 | for u ≤ v ≤ w, edgeEval is v.t minus the t of segment uw at v.s, and 0 when uw is vertical |
| Geom.EdgeEvalInRange | Sources/LibTessSwift/Geom.swift:36-44 | v.t − edgeEval(u, v, w), the t of uw at v.s, lies between u.t and w.t |
| Geom.EdgeSignScalesEval | Sources/LibTessSwift/Geom.swift:77-90 | edgeSign equals (gapL + gapR) · edgeEval and has the same sign |
| Geom.TransIsTransposed | Sources/LibTessSwift/Geom.swift:96-132 | transEval and transSign are edgeEval and edgeSign on transposed points |
| Geom.TransSignScalesEval | Sources/LibTessSwift/Geom.swift:96-132 | transSign equals (gapL + gapR) · transEval and has the same sign; s − transEval lies between u.s and w.s |
| Geom.VertL1Dist | Sources/LibTessSwift/Geom.swift:142-146 | the L1 distance is non-negative and zero exactly for equal vertices |
| Geom.BlendMeaning | Sources/LibTessSwift/Geom.swift:153-166 | the weighted blend of x and y lies between them and satisfies (a + b)·r = b·x + a·y |
| Geom.InterpolateMeaning | Sources/LibTessSwift/Geom.swift:153-166 | interpolate lies between x and y, is (x + y)/2 when both weights clamp to 0, and is the blend with the clamped weights otherwise |
| Geom.NormaliseBy | Sources/LibTessSwift/Geom.swift:185-217 | the swaps that start edgeIntersect orient both edges and put the lower origin first, keeping the same two endpoint pairs |
| Geom.IntersectSIsMedian | Sources/LibTessSwift/Geom.swift:189-210 | the s of the intersection lies between the two middle s values of the four endpoints |
| Geom.IntersectTIsMedian | Sources/LibTessSwift/Geom.swift:219-240 | the t of the intersection lies between the two middle t values of the four endpoints |
| Geom.EdgeIntersectIsMedian | Sources/LibTessSwift/Geom.swift:173-240 | edgeIntersect on any endpoints yields an s between the middle two s values and a t between the middle two t values |
| MeshUtils.SymFacts | Sources/LibTessSwift/MeshUtils.swift:164-168 | Sym is an involution without fixed points; ensureFirst picks the even half of the pair |
| MeshUtils.NavigationInverses | Sources/LibTessSwift/MeshUtils.swift:154-162 | under the edge algebra, Oprev, Lprev, Dprev and Rprev undo Onext, Lnext, Dnext and Rnext |
| MeshUtils.Splice | Sources/LibTessSwift/MeshUtils.swift:182-190 | splice exchanges a.Onext and b.Onext, points the old Onexts' Syms' Lnext at b and a, and touches nothing else |
| MeshUtils.SpliceIsSwap | Sources/LibTessSwift/MeshUtils.swift:182-190 | splice is a swap of two successors in Onext and of the two old Onext mates in Lnext |
| MeshUtils.SpliceTwiceRestores | Sources/LibTessSwift/MeshUtils.swift:182-190 | splicing the same two half-edges twice restores every Onext and Lnext link |
| MeshUtils.SplicePreservesAlgebra | Sources/LibTessSwift/MeshUtils.swift:182-190 | splice keeps Lnext.Onext.Sym == e and Onext.Sym.Lnext == e on every live half-edge |
| MeshUtils.FaceArea | Sources/LibTessSwift/MeshUtils.swift:195-204 | faceArea sums (Org.s − Dst.s)(Org.t + Dst.t) once over each edge of the face loop |
| MeshUtils.AreaAnyStart | Sources/LibTessSwift/MeshUtils.swift:195-204 | the area sum does not depend on the loop edge it starts from |
| MeshUtils.VertsCount | Sources/LibTessSwift/MeshUtils.swift:119-128 | vertsCount is the length of the face's Lnext loop |
| MeshUtils.LoopWith | Sources/LibTessSwift/MeshUtils.swift:318-343 | loop(with:) visits each element of the circular list once from the start, and a closure may relink the element it is given |
| MeshUtils.LongAxis | Sources/LibTessSwift/MeshUtils.swift:68-74 | longAxis picks the component of largest absolute value, the lower index on ties |
| MeshUtils.LongAxisUnique | Sources/LibTessSwift/MeshUtils.swift:68-74 | any index that is largest with lower ties broken is the one longAxis returns |
| MeshUtils.AddWinding | Sources/LibTessSwift/Geom.swift:148-151 | addWinding adds eSrc's winding to eDst and eSrc.Sym's to eDst.Sym and changes nothing else; when eSrc is eDst.Sym the second addition sees the first, so with a and b the old windings of eDst and eDst.Sym, eDst gets a + b and eDst.Sym gets a + 2b |
| MeshUtils.AddWindingPairTotal | Sources/LibTessSwift/Geom.swift:148-151 | the pair total of eDst grows by the pair total of eSrc |
| MeshContext.Relabel | Sources/LibTessSwift/MeshCreationContext.swift:114-121 | walking a successor cycle from its start sets the label of exactly the cycle's elements |
| MeshContext.CreateEdgePair | Sources/LibTessSwift/MeshCreationContext.swift:33-44 | two distinct fresh halves that are each other's Sym and share one pair |
| MeshContext.MakeEdge | Sources/LibTessSwift/MeshCreationContext.swift:65-98 | a fresh pair with Onext itself, Lnext its mate, nil Org and Lface, winding 0, linked into the edge ring just before eNext's pair |
| MeshContext.MakeVertex | Sources/LibTessSwift/MeshCreationContext.swift:107-126 | a new vertex before vNext in the vertex ring; every edge of eOrig's Onext loop gets it as Org |
| MeshContext.MakeFace | Sources/LibTessSwift/MeshCreationContext.swift:135-159 | a new face before fNext, inside copied from fNext, not marked; every edge of eOrig's Lnext loop gets it as Lface |
| MeshContext.KillEdge | Sources/LibTessSwift/MeshCreationContext.swift:165-179 | exactly the pair is unlinked from the edge ring; the others keep their order |
| MeshContext.KillVertex | Sources/LibTessSwift/MeshCreationContext.swift:185-206 | every edge of the dead vertex's loop gets the new Org, and the vertex leaves the ring |
| MeshContext.KillFace | Sources/LibTessSwift/MeshCreationContext.swift:208-225 | every edge of the dead face's loop gets the new Lface, and the face leaves the ring |
| Mesh.Init | Sources/LibTessSwift/Mesh.swift:18-39 | a fresh mesh satisfies the check() invariant with each ring holding only its head and the head pair's halves each other's Sym |
| Mesh.MakeEdgeOp | Sources/LibTessSwift/Mesh.swift:74-82 | makeEdge keeps the invariant and adds one pair, two vertices and one face, with e.Lnext == e.Sym and e.Lface == e.Rface |
| Mesh.SpliceOp | Sources/LibTessSwift/Mesh.swift:108-141 | splice keeps the invariant; it is a no-op on equal edges; otherwise vertices −1 if the origins differed else +1, faces −1 if the left faces differed else +1; eOrg keeps Org and Lface |
| MeshOps.AddEdgeVertex | Sources/LibTessSwift/Mesh.swift:200-214 | addEdgeVertex keeps the invariant and adds one pair and one vertex; eNew follows eOrg around their shared left face, starts at eOrg's destination and ends at the new vertex; every old Org and Lface is kept |
| MeshOps.SplitEdge | Sources/LibTessSwift/Mesh.swift:222-238 | splitEdge keeps the invariant and adds one pair and one vertex; eOrg now ends at the new vertex where eNew starts, eNew ends at eOrg's old destination, both keep eOrg's faces and eNew copies both windings; every other origin, face and winding is kept |
| MeshOps.Connect | Sources/LibTessSwift/Mesh.swift:251-280 | connect keeps the invariant and adds one pair from eOrg's destination to eDst's origin, following eOrg and followed by eDst; one face more when the left faces agreed (the new loop gets a new face), one fewer when they differed |
| MeshDelete.DelOrigin | Sources/LibTessSwift/Mesh.swift:154-173 | the first half of delete, case by case: joining faces kills the left face and relabels its loop with the right face; a lone origin is killed; otherwise eDel is spliced out of its origin, and a split face gets a new face for eDel's loop with the old inside flag |
| MeshDelete.DelDest | Sources/LibTessSwift/Mesh.swift:175-190 | the second half: when eDel.Sym is alone at its origin its vertex and face are killed, else it is spliced out of its origin's loop; the pair leaves the edge ring |
| MeshDelete.DeleteOrigin | Sources/LibTessSwift/Mesh.swift:150-173 | after the first half eDel is alone at its origin and every other Onext skips it, the vertex and face counts move as the case says, and windings and coordinates are kept |
| MeshDelete.DeleteDest | Sources/LibTessSwift/Mesh.swift:175-192 | from that state the second half restores the full invariant without the pair, removes it from the edge ring and keeps every other origin, face and winding |
| MeshDelete.Delete | Sources/LibTessSwift/Mesh.swift:150-193 | delete keeps the invariant and removes exactly e's pair; vertices drop by each end left alone; faces drop by one when e separated two faces and grow by one when it split one; every remaining Onext skips the pair and every remaining half-edge on the killed face takes the right face |
| Dict.New | Sources/LibTessSwift/Dict.swift:35-42 | a new dictionary is the nil-keyed head linked to itself |
| Dict.InsertBefore | Sources/LibTessSwift/Dict.swift:58-74 | the new node follows the nearest node before `node` that is the head or has a key `leq` k; the walk passed only keys that are not; other nodes keep their order |
| Dict.Insert | Sources/LibTessSwift/Dict.swift:54-56 | insert is insertBefore(head); on a list sorted by a total preorder the result is sorted with k after its equals |
| Dict.InsertSorted | Sources/LibTessSwift/Dict.swift:54-74 | placing k after a prefix ending `leq` k and before keys that are not keeps the keys sorted |
| Dict.Find | Sources/LibTessSwift/Dict.swift:76-82 | find returns the first node whose key k is `leq`, or the head when there is none |
| Dict.Min | Sources/LibTessSwift/Dict.swift:84-86 | min is the first node, the head itself when the dictionary is empty |
| Dict.Remove | Sources/LibTessSwift/Dict.swift:88-92 | the node's neighbours point at each other and the other nodes keep their order |
| PriorityHeap.FloatDown | Sources/LibTessSwift/PriorityHeap.swift:50-76 | sifting down restores the heap order below the start and moves no handle in or out |
| PriorityHeap.FloatUp | Sources/LibTessSwift/PriorityHeap.swift:78-97 | sifting up restores the heap order and moves no handle in or out |
| PriorityHeap.Init | Sources/LibTessSwift/PriorityHeap.swift:35-48 | a new heap is empty, uninitialized, with room for initialSize handles and an empty free list |
| PriorityHeap.Initialize | Sources/LibTessSwift/PriorityHeap.swift:99-106 | initialize establishes parent `leq` child at every position and keeps the handles and their keys |
| PriorityHeap.TopIsMinimum | Sources/LibTessSwift/PriorityHeap.swift:50-106 | in an ordered heap the top key is `leq` every key in the heap |
| PriorityHeap.Insert | Sources/LibTessSwift/PriorityHeap.swift:108-148 | insert keeps the invariant, grows the size by 1, returns a handle ≥ 1 not in the heap (the freed one first, else size + 1) holding the key, changes no other handle, and avoids Invalid |
| PriorityHeap.Grow | Sources/LibTessSwift/PriorityHeap.swift:111-122 | doubling the room keeps every entry and pads both tables with empty entries up to the new room |
| PriorityHeap.GrowthPadAsWrittenFails | Sources/LibTessSwift/PriorityHeap.swift:111-122 | from room 2 the as-written padding leaves the tables short, and from room 3 it is negative |
| PriorityHeap.ExtractMin | Sources/LibTessSwift/PriorityHeap.swift:150-177 | on an empty heap: nil and no change; otherwise the top key, which is `leq` every key, with size − 1, the handle pushed on the free list and removed from the heap |
| PriorityHeap.Minimum | Sources/LibTessSwift/PriorityHeap.swift:179-182 | the top key, `leq` every key in the heap, nil exactly when the heap is empty |
| PriorityHeap.Remove | Sources/LibTessSwift/PriorityHeap.swift:184-215 | removing a handle in the heap keeps the invariant, removes exactly that handle and its key, and pushes it on the free list |
| PriorityHeap.RemoveTrapsAsWritten | Sources/LibTessSwift/PriorityHeap.swift:194-206 | the source's remove traps exactly when the removed handle is at the top and two or more handles are in the heap |
| PriorityHeap.RemoveTopTrapsAsWritten | Sources/LibTessSwift/PriorityHeap.swift:194-206 | removing the top of any heap with two or more handles traps as written |
| QueueSort.NextSeed | Sources/LibTessSwift/PriorityQueue.swift:38-59 | one step of the pivot generator, `seed &* 1539415821 &+ 1`, wraps around to a 32-bit value |
| QueueSort.SortOrder | Sources/LibTessSwift/PriorityQueue.swift:36-120 | initialize's quicksort with insertion-sort finish lists each slot 0 … n−1 exactly once and the keys along it never increase, which is what the debug check at the end asserts |
| PriorityQueue.New | Sources/LibTessSwift/PriorityQueue.swift:23-32 | a new queue is uninitialized with room for initialSize slots and no pending handle |
| PriorityQueue.Insert | Sources/LibTessSwift/PriorityQueue.swift:127-145 | before initialize the key takes slot `size` and handle −(size + 1); afterwards the heap takes it with a handle ≥ 1; the handle was not pending, now names the key, and no other handle changes |
| PriorityQueue.QueueGrowthPadAsWrittenFails | Sources/LibTessSwift/PriorityQueue.swift:134-141 | doubling a room of 2 or more asks for a negative count, and doubling a room of 1 leaves the array short of the room |
| PriorityQueue.Initialize | Sources/LibTessSwift/PriorityQueue.swift:34-125 | initialize sorts the slots into non-increasing order (each once), sets max to size, initializes the heap, and leaves the pending handles and their keys as they were |
| PriorityQueue.NextHandle | Sources/LibTessSwift/PriorityQueue.swift:147-166 | the handle extractMin hands out (the heap's top on a tie) is pending |
| PriorityQueue.LastIsLeast | Sources/LibTessSwift/PriorityQueue.swift:153-165 | the key at the last queued sorted position is `leq` every pending slot's key |
| PriorityQueue.NextIsLeast | Sources/LibTessSwift/PriorityQueue.swift:147-166 | the key of the handle handed out is `leq` the key of every pending handle, slot or heap |
| PriorityQueue.EmptyQueue | Sources/LibTessSwift/PriorityQueue.swift:147-185 | nothing is pending exactly when both the sorted part and the heap are empty |
| PriorityQueue.ExtractTop | Sources/LibTessSwift/PriorityQueue.swift:154-158 | the heap branch of extractMin takes out exactly the heap's top and hands out its key |
| PriorityQueue.PopSorted | Sources/LibTessSwift/PriorityQueue.swift:161-165 | the sorted branch pops the last position, skips trailing removed slots, and takes out exactly that slot's handle |
| PriorityQueue.ExtractMin | Sources/LibTessSwift/PriorityQueue.swift:147-166 | nil with no change exactly when nothing is pending; otherwise the key of the next handle, `leq` every pending key, and exactly that handle stops being pending |
| PriorityQueue.Minimum | Sources/LibTessSwift/PriorityQueue.swift:168-185 | the key extractMin would hand out, `leq` every pending key, nil exactly when nothing is pending |
| PriorityQueue.Remove | Sources/LibTessSwift/PriorityQueue.swift:187-203 | removing a heap handle or a slot below max that holds a key makes exactly that handle stop pending and keeps the others' keys |
| PriorityQueue.Drain | Sources/LibTessSwift/PriorityQueue.swift:147-166 | extracting until nil hands out every pending handle exactly once with its key, in non-decreasing key order |
| Sweep.Height | Sources/LibTessSwift/Sweep.swift:69-79 | the height edgeLeq compares is the t of the edge at the event's s, between the edge's end heights, and the event's own t when the edge ends at the event |
| Sweep.EdgeLeqByHeight | Sources/LibTessSwift/Sweep.swift:50-80 | unless both upper edges end at the event, edgeLeq holds exactly when the first edge passes the event's s no higher than the second |
| Sweep.EdgeLeqBySlope | Sources/LibTessSwift/Sweep.swift:60-67 | when both upper edges end at the event and start to its right, edgeLeq holds exactly when the first edge's slope is at most the second's |
| Sweep.EdgeLeqTotal | Sources/LibTessSwift/Sweep.swift:50-80 | edgeLeq is reflexive and any two edges spanning the event are comparable one way or the other |
| Sweep.FanWindings | Sources/LibTessSwift/Sweep.swift:265-294 | the k-th new region below regUp has regUp's winding minus the windings of the first k+1 new edges, and inside by the rule |
| Sweep.FanAgreesWithComputeWinding | Sources/LibTessSwift/Sweep.swift:163-166 | when an up edge's winding is minus its Sym's, addRightEdges' step gives the same region as computeWinding from the region above |
| Sweep.CheckForIntersect | Sources/LibTessSwift/Sweep.swift:474-545 | returns early exactly for equal origins, for t-ranges that do not overlap and for an orientation test that rules out a crossing; otherwise the clamped point lies between the event and the lower origin, and it is an origin case exactly when it equals an origin |
| Sweep.NoCrossingMeaning | Sources/LibTessSwift/Sweep.swift:500-510 | the orientation early-out means the other edge passes strictly above (or below) the lower origin |
| Sweep.IntersectBounds | Sources/LibTessSwift/Sweep.swift:512-519 | the raw intersection lies inside the overlap of the two t-ranges and between the smaller destination s and the larger origin s |
| Sweep.ClampIsect | Sources/LibTessSwift/Sweep.swift:521-539 | after clamping, event ≤ isect ≤ orgMin in vertLeq order, and a point already in that range is kept |
| Sweep.VertexWeights | Sources/LibTessSwift/Sweep.swift:317-327 | both weights are non-negative, sum to 1/2, and are inversely proportional to the L1 distances to the intersection |
| Sweep.WeightsUnique | Sources/LibTessSwift/Sweep.swift:317-327 | those three facts determine the weights |
| Sweep.GetIntersectData | Sources/LibTessSwift/Sweep.swift:334-349 | the four weights handed to the combine callback are non-negative and sum to 1 |
| Sweep.IntersectDataIsMix | Sources/LibTessSwift/Sweep.swift:334-341 | the new vertex's coordinates are the weighted sum of the four endpoints' coordinates |
| Sweep.IntersectCoordsInHull | Sources/LibTessSwift/Sweep.swift:334-341 | the new vertex's coordinates lie in any box holding the four endpoints |
| Sweep.DeleteRegion | Sources/LibTessSwift/Sweep.swift:83-98 | deleting a region whose fixUpperEdge edge has winding 0 removes exactly that region from the dictionary |
| Sweep.FinishRegion | Sources/LibTessSwift/Sweep.swift:175-183 | the region's face gets its inside flag and eUp as anEdge, the mesh invariant holds, nothing else in the mesh changes, and exactly the region leaves the dictionary |
| Sweep.DoneEdgeDict | Sources/LibTessSwift/Sweep.swift:965-982 | the dictionary ends empty, and the assertions pass exactly when every region has winding 0, is a sentinel or a fixUpperEdge region whose edge is unused or of winding 0, and at most one is not a sentinel |
| Sweep.SweepEvents | Sources/LibTessSwift/Sweep.swift:1102-1128 | the events come out strictly increasing in vertLeq with no two at one position; every queued vertex is either an event or merged into the event it coincides with, and each exactly once |
| Sweep.InitPriorityQ | Sources/LibTessSwift/Sweep.swift:1030-1051 | the queue is initialized and holds one pending handle per vertex, keyed by that vertex |
| Sweep.ComputeInteriorEvents | Sources/LibTessSwift/Sweep.swift:1091-1128 | from the vertices to the end of the main loop: events increase strictly, and events plus merged vertices are exactly the input vertices |
| Tess.SignedArea | Sources/LibTessSwift/Tess.swift:592-604 | signedArea walks the vertices with the wrapped successor and returns half the shoelace sum of x_i·y_(i+1) − y_i·x_(i+1) |
| Tess.ShoelaceOfReverse | Sources/LibTessSwift/Tess.swift:592-604 | reversing a contour negates its shoelace sum, so its signed area changes sign |
| Tess.Added | Sources/LibTessSwift/Tess.swift:621-637 | loop vertex i of the added contour is input n−1−i when reversing and input i otherwise |
| Tess.AddedOrientation | Sources/LibTessSwift/Tess.swift:610-619 | with the reversal rule (clockwise and area < 0, or counterClockwise and area > 0) the added contour has area ≥ 0 when clockwise is forced, ≤ 0 when counterClockwise is forced, and is the input itself for original |
| Tess.SetWindingNumber | Sources/LibTessSwift/Tess.swift:393-410 | without deleting, every listed half-edge gets value·(inside(Lface) − inside(Rface)): +value or −value on a boundary edge by its left face, 0 when both sides agree; the Sym halves and all other fields are untouched |
| TessMesh.CrossingMeaning | Sources/LibTessSwift/Tess.swift:393-410 | the winding setWindingNumber writes is value or −value on an edge between an inside and an outside face, by which side is inside, 0 when both sides agree, and negated on the other half |
| TessMesh.DeleteAlike | Sources/LibTessSwift/Tess.swift:402-406 | deleting an edge whose two faces are both inside or both outside keeps the invariant and every remaining half-edge's inside flag |
| TessMesh.KeepBoundary | Sources/LibTessSwift/Tess.swift:393-410 | with keepOnlyBoundary, exactly the boundary edges remain, each face keeps its inside flag, and the even half of each remaining pair, the one the edge iterator visits, holds value when its left face is inside and −value otherwise |
| DegenerateFaces.DropDigon | Sources/LibTessSwift/Sweep.swift:1071-1082 | a face whose anchor edge closes a two-edge loop is deleted with that edge: its pair is removed, there is one face fewer and no remaining half-edge has the face on its left, every remaining half-edge keeps its origin and its Onext loop steps over the pair, the invariant and faces on both sides are kept, and the remaining windings change only at e.Onext's pair, by e's own; any other face is left as it was |
| Contour.AddContour | Sources/LibTessSwift/Tess.swift:610-645 | an empty contour changes nothing; otherwise the invariant holds and the points, reversed exactly when the forced orientation disagrees with the signed area, become one Lnext cycle of fresh half-edges in order, each starting at a fresh vertex at its point, with winding +1 and −1 on its two halves, a left face apart from its right face, and every earlier edge, winding and vertex position kept |
| Contour.ContourReverse | Sources/LibTessSwift/Tess.swift:615-619 | the points are reversed only for a forced orientation, exactly when clockwise meets a negative area or counterClockwise a positive one |
| Contour.BeginContour | Sources/LibTessSwift/Tess.swift:623-625 | makeEdge and splice(e, e.sym) give a one-edge loop whose origin is a fresh vertex at the first point, with windings +1 and −1 and two faces |
| Contour.ExtendContour | Sources/LibTessSwift/Tess.swift:626-643 | splitEdge on the loop's last edge lengthens the loop by one fresh half-edge at a fresh vertex holding the next point, and the loop stays one closed Lnext cycle |
| Contour.LayContour | Sources/LibTessSwift/Tess.swift:621-644 | the loop takes the i-th point from index n−1−i when reversing and i otherwise, and ends as a cycle of exactly n half-edges |
| Contour.CycleIsFace | Sources/LibTessSwift/Mesh.swift:385-402 | under the invariant check() walks, an Lnext cycle through a live half-edge with a face holds exactly the live half-edges with that face |
| Contour.ContourIsFace | Sources/LibTessSwift/Tess.swift:621-644 | the contour's loop is one whole face: its half-edges are exactly the live half-edges with that left face |
| Tess.FindRightmost | Sources/LibTessSwift/Tess.swift:320-325 | the two walks end at an edge whose origin is not vertLeq its destination, the loop position up starts from |
| Tess.TessellateMonoRegion | Sources/LibTessSwift/Tess.swift:316-355 | on a loop of k ≥ 3 vertices that are not all equal, k − 3 faces are split off, each with three distinct loop vertices, and the face is left with exactly three distinct loop vertices; each face split off is an ear of the loop as it then stood (three consecutive vertices, the loop losing the middle one), starting from the face's loop 0 .. k − 1; the apexes of the faces split off together with the three left are a permutation of the loop |
| Tess.Fan | Sources/LibTessSwift/Tess.swift:327-354 | from lo at position 0 and up at position 1, every connect splits off one three-vertex face and shortens the loop by one until three vertices remain: a connect at lo (lo.Lnext, lo) splits off the ear at lo.Dst, one at up (up, up.Lprev) the ear at up.Org, and moving lo or up along the loop only reads it from another position; the apexes and the three vertices left are a permutation of the loop |
| Tess.ApexesCoverLoop | Sources/LibTessSwift/Tess.swift:327-354 | along any sequence of ear splits, every vertex of the starting loop is either the apex of exactly one face split off or one of the vertices left |
| Tess.FirstSeenFacts | Sources/LibTessSwift/Tess.swift:456-464 | the vertices in first-encounter order are each listed once, exactly the vertices met |
| Tess.NumberFaces | Sources/LibTessSwift/Tess.swift:433-470 | the kept faces (inside, and non-empty when noEmptyPolygons) number their vertices 0, 1, … in first-encounter order, every other vertex Undef; the i-th face gets the count of kept faces before it or Undef; the face count is the number of kept faces |
| Tess.NumberingIsDense | Sources/LibTessSwift/Tess.swift:456-464 | every number 0 … vertexCount − 1 is used by exactly one vertex |
| Tess.GetNeighbourFace | Sources/LibTessSwift/Tess.swift:412-420 | Undef when the right face is nil or not inside, and the right face's number otherwise |
| Tess.NeighbourMeaning | Sources/LibTessSwift/Tess.swift:412-420 | with the face numbering, a neighbour entry is the output number of the right face exactly when that face is written out, and Undef otherwise |
| Tess.WriteElements | Sources/LibTessSwift/Tess.swift:490-533 | the k-th kept face fills entries k·stride onward with its loop's vertex numbers then Undef up to polySize and, for connected polygons, its edges' neighbours then Undef; stride is polySize, doubled for connected polygons |
| Tess.WriteVertices | Sources/LibTessSwift/Tess.swift:478-488 | each numbered vertex of the vertex ring stores its coordinates at its number |
| Tess.OutputPolymesh | Sources/LibTessSwift/Tess.swift:422-535 | polySize is raised to at least 3; elementCount is the number of kept faces; the element table has elementCount·polySize entries (twice for connected polygons) laid out face by face; vertices are numbered densely in first-encounter order and output at their numbers |
| Tess.OutputContours | Sources/LibTessSwift/Tess.swift:537-590 | one (start, count) pair per inside face, start being the running sum of the earlier counts; the loop coordinates of each inside face sit from start on; the total vertex count is the sum of all counts |

## Left out

- Pool.swift and MemAllocators.swift: allocation takes a fresh index, and freed slots are never reused.
- Public.swift and Package.swift: type aliases and the package manifest.
- computeNormal, projectPolygon and checkOrientation: s and t are taken as given.
- Floating-point rounding, including the rounding-rescue branch of checkForIntersect.
- The combine callback and user data are an uninterpreted parameter.
- Mesh.SpliceOp: the source stores Sym in each record; the model derives it as the pair mate, which is what every creation sets.
- Sweep.VertexWeights: requires that the intersection is not at both endpoints (t1 + t2 > 0), where the source divides zero by zero.
- Sweep.SweepEvents: sweepEvent itself is not run between extractions, so no vertex is inserted during the loop; a merge of coincident vertices is recorded as a pair rather than as the mesh splice it performs.
- Sweep.EdgeLeqTotal: transitivity of edgeLeq is not proved; it holds only for edges that do not cross, which is what the whole sweep maintains.
- Sweep.DoneEdgeDict: the assertions of doneEdgeDict are modelled as a returned flag.
- The region records' back-pointer from an edge to its active region, and the region pool.
- The event engine routines of the sweep (sweepEvent, connectRightVertex, connectLeftVertex, connectLeftDegenerate, checkForRightSplice, checkForLeftSplice, walkDirtyRegions, finishLeftRegions, addRightEdges' mesh surgery, removeDegenerateEdges): they are geometric mesh surgery; only their bookkeeping is modelled.
- Tess.TessellateMonoRegion: the model follows the positions of the face loop and records each face that connect splits off as its three vertices, rather than performing the connects on a mesh; the orientation test is a parameter standing for edgeSign; and it requires the loop's vertices not to be all equal, where the source's first walk never ends. The contract says which vertices each face takes (an ear of the loop at that moment), not that the faces are oriented the same way or do not overlap: that rests on the floating-point edgeSign test, a parameter here, and on the region being monotone.
- Tess.OutputPolymesh: the output passes run over a view of each face of the ring (id, inside flag, area, and the origin and right face of each loop edge) rather than walking the mesh; mergeConvexFaces, which runs first when polySize > 3, is not applied to the views; |area| < leastNonzeroMagnitude is read as area == 0; the source's assertion that a kept face has at most polySize vertices (Tess.swift:466) is a precondition of Tess.NumberFaces and Tess.OutputPolymesh, which every caller in the pipeline meets: the monotone tessellation leaves only triangles, polySize is at least 3, and mergeConvexFaces joins two faces only while the result has at most polySize vertices (Mesh.swift:359).
- Tess.WriteVertices: the user data stored with each vertex is not modelled.
- Tess.SetWindingNumber: models only keepOnlyBoundary == false, which no caller takes (the boundary-only output calls setWindingNumber(1, true), Tess.swift:678); the case that runs, keepOnlyBoundary == true, is modelled by TessMesh.KeepBoundary over the mesh with its invariant.
- Contour.AddContour: the mesh is taken as already created (the source creates it lazily when nil); vertex coordinates are kept in a map from vertex to point beside the mesh, and the user data stored with each vertex is not modelled; the contract does not say that the links of earlier half-edges are untouched, and does not describe the loop's right face beyond its differing from the left face.
- Mesh.SpliceOp: requires the left face of eDst to exist when the edges differ; the source passes it to killFace, which force-unwraps it (Mesh.swift:120-123), so a nil face traps.
- MeshOps.Connect: requires both left faces to exist; the source force-unwraps eDst's in killFace and eOrg's when it sets the old face's anEdge (Mesh.swift:256-273).
- MeshDelete.Delete: requires both faces of e to exist; the source force-unwraps them through killFace (Mesh.swift:157-161 and 181-183).
- Sweep.FinishRegion: requires the region's upper edge to have a left face; the source declares it `Face!` and writes through it (Sweep.swift:177-180), which traps on nil.
- DegenerateFaces.DropDigon: one face at a time; the walk over the face ring while faces are deleted under it is not modelled, and the source's assertion that the anchor edge is not a one-edge loop is a precondition.
- zapFace and discardExterior: discardExterior, the only caller of zapFace, is never called by the tessellator.
- mergeConvexFaces: it decides on floating-point convexity tests of the output polygons; only the polygon output after it is modelled.
- tessellate and tessellateInterior: drivers that call the passes in order.

## Findings

| source | as written | input that shows it | evidently intended | confidence | as-written member | corrected member |
|---|---|---|---|---|---|---|
| Sources/LibTessSwift/PriorityHeap.swift:198-206 | remove reads and force-unwraps the key of the parent of the refilled position before testing whether that position is the top | remove the top handle of a heap holding two handles: the parent of position 1 is position 0, whose handle 0 has no entry | test `curr <= 1` first and float down from the top | high, not executed | PriorityHeap.RemoveTopTrapsAsWritten | PriorityHeap.Remove |
| Sources/LibTessSwift/PriorityHeap.swift:111-122 | growth pads each table by `count − newMax + 1` entries | the third insert into a heap made with room 4 doubles the room to 8 and asks for 5 − 8 + 1 = −2 entries | pad by `newMax + 1 − count` | high, not executed | PriorityHeap.GrowthPadAsWrittenFails | PriorityHeap.Grow |
| Sources/LibTessSwift/PriorityQueue.swift:134-141 | growth pads the slot array by `count − newMax + 1` entries, after newMax has already been doubled | the second insert into a queue made with room 2 doubles the room to 4 and asks for 2 − 4 + 1 = −1 entries (the sweep sizes its queue at the vertex count + 8, so it never grows there) | pad by `newMax − count` | high, not executed | PriorityQueue.QueueGrowthPadAsWrittenFails | PriorityQueue.Insert |
