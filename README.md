# Cube extrusion: face-vertex grouping and drag-to-extrude

This project models the interaction core of a browser demo in which a user
clicks a face of a unit box and drags the mouse to extrude that face
(`src/app.ts`). The box stores every corner once for each face that touches it
(24 vertices rather than 8). So the vertices that have to move together are the
picked quad's own vertices plus every vertex at exactly the same coordinates.

- `Unique` (unique.dfy) models `Array.from(new Set(s))` as `Dedup`, which keeps
  each element at its first occurrence. It also holds the facts about
  repetition-free and increasing sequences that the other modules use.
- `FaceVertices` (face_vertices.dfy) models `isSubArray`, and
  `setAllIndicesAttachedtoFace` as the method `AllIndicesAttachedToFace`. That
  method has the source's loops and is proved equal to the specification
  function `FaceGroup`. The lemmas about `FaceGroup` state what the selection
  is: which vertices it holds, that none is repeated, that the face's own
  entries come first in first-occurrence order, and that it stays in range on a
  well-formed mesh.
- `Extrusion` (extrusion.dfy) models the direction rule of the `mousemove`
  handler as `ExtrusionDirection`, and the in-place update loop over the
  position buffer as `UpdateSelected`.
- `Interaction` (interaction.dfy) models the globals of the demo as the class
  `Session`, with the `click` and `mousemove` handlers as the methods `Click`
  and `MouseMove`.

Coordinates have an abstract type `T` compared with `==`. Reading a buffer
outside its bounds gives JavaScript's `undefined`, modelled as `None`. So a
buffer whose length is not a multiple of 3, or a face entry that points past
the buffer, behaves as it does in the source. Vertex indices are integers. The
engine supplies these values, and the model takes them as inputs:

- the pick result;
- the box's vertex data, index buffer and facet normal;
- the two dot products;
- the per-component update for each direction.

Three behaviours of the source are kept as they are:

- The source does not check that the picked face id lies inside the index
  buffer (src/app.ts:184-194). The model states this as a precondition of
  `Click`, needed only when a click starts extruding the box.
- The selection `selFaceIndices` is an ordered list: the face's own vertices
  first, then the other copies in increasing vertex order.
- `faceSelected` is tested for JavaScript truthiness (src/app.ts:106), so a
  selected face whose id is 0 never extrudes.

## Model

| member | source | states |
|---|---|---|
| `Unique.Dedup` | src/app.ts:196 | `Array.from(new Set(s))` has no repeated element, holds only elements of `s` and is no longer than `s` |
| `Unique.DedupKeepsAll` | src/app.ts:196 | every element of `s` is kept by `Array.from(new Set(s))` |
| `Unique.DedupMembers` | src/app.ts:196 | an element is in `Array.from(new Set(s))` exactly when it is in `s` |
| `Unique.DedupOfDistinct` | src/app.ts:212 | `Array.from(new Set(s))` of a list `s` with no repeated element is `s` itself |
| `Unique.DedupPrefix` | src/app.ts:205-212 | `Dedup(s)` is a prefix of `Dedup(s + t)`: appending and deduplicating again never reorders or drops what was there |
| `Unique.DedupKeepsFirstOccurrenceOrder` | src/app.ts:196 | the deduplicated list orders its elements by their first occurrence in the input |
| `Unique.DedupAppendIncreasing` | src/app.ts:205-212 | deduplicating a repetition-free prefix followed by an increasing list gives the prefix followed by the list's elements that are not in the prefix |
| `FaceVertices.Every` | src/app.ts:175 | `item.every((value, index) => value === sub[index])` holds iff every position of `item` equals that of `sub` |
| `FaceVertices.IsSubArray` | src/app.ts:173-177 | true iff some element of `arr` has the length of `sub` and agrees with it at every position |
| `FaceVertices.IsSubArrayIsMembership` | src/app.ts:173-177 | `isSubArray(sub, arr)` holds exactly when `sub` is an element of `arr` |
| `FaceVertices.ScannedVerticesRange` | src/app.ts:205 | the stride-3 scan visits exactly the vertices `v >= 0` with `3v` inside the buffer |
| `FaceVertices.Copies` | src/app.ts:205-211 | the vertices the scan pushes, in increasing order: exactly the visited vertices whose coordinate triplet equals that of a face vertex |
| `FaceVertices.ScanMatch` | src/app.ts:206-208 | with `selectedVertices` holding the face vertices' triplets, `isSubArray` finds a vertex exactly when it shares a position with the face |
| `FaceVertices.ScanEnd` | src/app.ts:205 | the stride-3 loop over the buffer stops after exactly `ceil(length/3)` vertices |
| `FaceVertices.PushCopies` | src/app.ts:205-211 | the scan loop appends to `selFaceIndices` exactly `Copies` of the buffer, the face, and the number of scanned vertices |
| `FaceVertices.FaceCoordinates` | src/app.ts:198-203 | `selectedVertices` ends with one entry per deduplicated face vertex: that vertex's triplet, the initial `[[]]` being overwritten |
| `FaceVertices.AllIndicesAttachedToFace` | src/app.ts:179-213 | the final `selFaceIndices` equals `FaceGroup` of the buffer, the index buffer and the face id |
| `FaceVertices.FaceGroupShape` | src/app.ts:196-212 | the group is the deduplicated face entries followed by the other matching vertices that are not face entries |
| `FaceVertices.FaceGroupDistinct` | src/app.ts:212 | the group has no repeated vertex |
| `FaceVertices.FaceGroupStartsWithFace` | src/app.ts:184-212 | the group begins with the six entries at `[floor(faceId/2)*6, floor(faceId/2)*6 + 6)` deduplicated in first-occurrence order |
| `FaceVertices.FaceGroupHoldsFace` | src/app.ts:184-212 | every one of those six entries, so every vertex of the picked face, is in the group |
| `FaceVertices.FaceGroupTailIncreasing` | src/app.ts:205-212 | after the face's own vertices, the added copies come in increasing vertex order |
| `FaceVertices.FaceGroupMembers` | src/app.ts:184-212 | a vertex is in the group iff it is a face entry, or the scan visits it and its triplet equals that of a face entry |
| `FaceVertices.FaceGroupOnWellFormedMesh` | src/app.ts:200-212 | for a buffer of 3N coordinates and face entries below N, the group is exactly the vertices below N whose triplet equals that of a face entry, so every element is below N |
| `Extrusion.ExtrusionDirection` | src/app.ts:118-124 | the normal is negated iff `dot` and `Dot(faceNormal, (1,1,1))` have strictly opposite signs (their product is negative), and a zero in either keeps it |
| `Extrusion.DirectionFollowsCorner` | src/app.ts:115-124 | when neither dot product is zero, the movement measured along the chosen direction has the sign of `Dot(faceNormal, (1,1,1))` |
| `Extrusion.CountOfDistinct` | src/app.ts:130-135 | in a repetition-free list, a vertex occurs once if it is listed and never otherwise |
| `Extrusion.UpdateSelected` | src/app.ts:130-135 | every slot is transformed once for each occurrence of its vertex in the list. For a deduplicated list, each selected vertex's three components are transformed exactly once and all other slots are unchanged |
| `Interaction.Session.constructor` | src/app.ts:57-65 | both modes off, no face selected, no recorded mouse position, no buffer, group or normal |
| `Interaction.Session.Click` | src/app.ts:68-102 | a click while either mode is on turns both off and clears `faceSelected`. Otherwise the picked mesh turns on at most one mode, and only a box hit selects `pick.faceId`, records the mouse position, takes the buffer, sets the group to `FaceGroup` and stores the normal. At most one mode is on afterwards |
| `Interaction.Session.MouseMove` | src/app.ts:105-151 | the cube branch runs only while extrusion is on and `faceSelected` is a non-zero face id, so a selected face with id 0 never extrudes. When it runs, each vertex of the group is updated once with the step of the chosen direction and every other slot is unchanged. Otherwise the buffer is unchanged. The mouse position is recorded as the handler does, and flags, selection and normal do not change |

## Left out

- Engine and page setup (src/app.ts:1-54, 215-252) is not modelled: canvas, engine, scene, camera, lights, materials, edge rendering and the render loop.
- The reset buttons (src/app.ts:215-247) are not modelled: they create DOM elements and rebuild engine meshes.
- `scene.pick`, `getVerticesData`, `getIndices` and `getFacetNormal` are engine calls: their results are parameters of `Interaction.Session.Click`.
- `updateVerticesData`, `refreshBoundingInfo` and `enableEdgesRendering` (src/app.ts:137-139) are engine notifications and are left out.
- `mouseMovement` (src/app.ts:154-170) is left out because it uses `scene.createPickingRay`. Its only effect on the demo's state, recording the new mouse position, is modelled in `Session.MouseMove`. The movement vector reaches the model only through the dot product `dot`.
- Floating point is not modelled. Coordinates are values of an abstract type with exact `==`, so a NaN coordinate, which is not equal to itself, is not covered. The dot products are exact reals of which only the sign is used.
- The 0.0075 step and the `*= (1 + s)` arithmetic (src/app.ts:112, 127, 132-134) are the uninterpreted per-component functions `along` and `against` of `Session.MouseMove`. The global `extrusionDistance` is not kept.
- The sphere's diameter scaling (src/app.ts:143-149) is float arithmetic on engine state and is left out. Only its update of the last horizontal mouse position `lastMousePositionX` is modelled.
- `Interaction.Session.Click`: when a click starts extruding the box, `pickResult.faceId` is required to name a triangle whose quad has six entries in the index buffer. The source reads past the buffer otherwise, and what then happens to the undefined entries is not modelled.
- `Extrusion.UpdateSelected`: writes outside the buffer are dropped, as a typed array drops them. A plain JavaScript array would grow instead. The buffer keeps its length because Dafny arrays have a fixed length.
- Concrete box layouts are not modelled, nor the vertex counts a particular 24-vertex box yields (such as 4 to 12 selected vertices).
