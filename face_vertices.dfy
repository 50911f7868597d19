/**
 * Face-vertex grouping (src/app.ts:173-213): the vertex indices that move
 * together when one face of the box is extruded. A box stores every corner
 * once per face that touches it, so besides the picked face's own vertices the
 * group holds every vertex whose coordinates are exactly those of one of them.
 *
 * Coordinates are of an abstract type `T` compared with `==`. Reading a
 * position buffer outside its bounds gives JavaScript's `undefined`, modelled
 * as `None`, so buffers whose length is not a multiple of 3 and face entries
 * that point past the buffer behave as they do in the source.
 */
module FaceVertices {
  import opened Wrappers
  import opened Unique

  /** `positions[i]`: `undefined` outside the buffer. */
  function Get<T>(p: seq<T>, i: int): Option<T> {
    if 0 <= i < |p| then Some(p[i]) else None
  }

  /** `[positions[v*3], positions[v*3 + 1], positions[v*3 + 2]]`. */
  function Triplet<T>(p: seq<T>, v: int): seq<Option<T>> {
    [Get(p, 3 * v), Get(p, 3 * v + 1), Get(p, 3 * v + 2)]
  }

  /** `Get` on an array, as the methods read it. */
  function Slot<T>(a: array<T>, i: int): Option<T>
    reads a
  {
    if 0 <= i < a.Length then Some(a[i]) else None
  }

  /** `item.every((value, index) => value === sub[index])`, for items as long as `sub`. */
  function Every<E(==)>(item: seq<E>, sub: seq<E>): (r: bool)
    requires |item| == |sub|
    ensures r <==> forall k :: 0 <= k < |item| ==> item[k] == sub[k]
  {
    |item| == 0 || (item[0] == sub[0] && Every(item[1..], sub[1..]))
  }

  /**
   * `isSubArray(sub, arr)`: some item of `arr` has the length of `sub` and
   * agrees with it position by position.
   */
  function IsSubArray<E(==)>(sub: seq<E>, arr: seq<seq<E>>): (r: bool)
    ensures r <==> exists j :: 0 <= j < |arr| && |arr[j]| == |sub| &&
                     forall k :: 0 <= k < |sub| ==> arr[j][k] == sub[k]
  {
    |arr| > 0 && ((|arr[0]| == |sub| && Every(arr[0], sub)) || IsSubArray(sub, arr[1..]))
  }

  /** With lengths and elements compared, `isSubArray` is membership. */
  lemma IsSubArrayIsMembership<E>(sub: seq<E>, arr: seq<seq<E>>)
    ensures IsSubArray(sub, arr) <==> sub in arr
  {
    if IsSubArray(sub, arr) {
      var j :| 0 <= j < |arr| && |arr[j]| == |sub| &&
               forall k :: 0 <= k < |sub| ==> arr[j][k] == sub[k];
      assert arr[j] == sub;
    }
  }

  /** `Math.floor(faceId / 2) * 6`: the first index-buffer slot of the quad holding triangle `faceId`. */
  function QuadStart(faceId: int): int {
    faceId / 2 * 6
  }

  /** The six index-buffer entries of the picked quad exist. */
  predicate ValidFace(indices: seq<int>, faceId: int) {
    0 <= QuadStart(faceId) && QuadStart(faceId) + 6 <= |indices|
  }

  /** The six index-buffer entries of the quad holding triangle `faceId`. */
  function FaceSlice(indices: seq<int>, faceId: int): seq<int>
    requires ValidFace(indices, faceId)
  {
    indices[QuadStart(faceId)..QuadStart(faceId) + 6]
  }

  /** Vertex `v` has exactly the coordinates of one of the vertices in `face`. */
  predicate SharesPosition<T(==)>(p: seq<T>, face: seq<int>, v: int) {
    exists u :: u in face && Triplet(p, u) == Triplet(p, v)
  }

  /** The number of vertices the stride-3 scan of a buffer of length `len` visits. */
  function ScannedVertices(len: nat): nat {
    (len + 2) / 3
  }

  /** The scan visits exactly the vertices whose first component is inside the buffer. */
  lemma ScannedVerticesRange(len: nat, v: int)
    ensures 0 <= v < ScannedVertices(len) <==> 0 <= v && 3 * v < len
  {
  }

  /** The scan stops at the first vertex whose first component lies past the buffer. */
  lemma ScanEnd(len: nat, v: nat)
    requires len <= 3 * v < len + 3
    ensures v == ScannedVertices(len)
  {
  }

  /** The vertices below `n`, in increasing order, that share a position with `face`. */
  function Copies<T(==)>(p: seq<T>, face: seq<int>, n: nat): (c: seq<int>)
    ensures Increasing(c)
    ensures forall k :: 0 <= k < |c| ==> 0 <= c[k] < n && SharesPosition(p, face, c[k])
    ensures forall v :: 0 <= v < n && SharesPosition(p, face, v) ==> v in c
  {
    if n == 0 then []
    else Copies(p, face, n - 1) + (if SharesPosition(p, face, n - 1) then [n - 1] else [])
  }

  /**
   * The final `selFaceIndices` of `setAllIndicesAttachedtoFace`: the
   * deduplicated face entries followed by every scanned vertex that shares a
   * position with one of them, deduplicated once more.
   */
  function FaceGroup<T(==)>(p: seq<T>, indices: seq<int>, faceId: int): seq<int>
    requires ValidFace(indices, faceId)
  {
    var d := Dedup(FaceSlice(indices, faceId));
    Dedup(d + Copies(p, d, ScannedVertices(|p|)))
  }

  /** The group is the face's own vertices followed by the other copies, in vertex order. */
  lemma FaceGroupShape<T>(p: seq<T>, indices: seq<int>, faceId: int)
    requires ValidFace(indices, faceId)
    ensures FaceGroup(p, indices, faceId) ==
      Dedup(FaceSlice(indices, faceId)) + Without(Copies(p, Dedup(FaceSlice(indices, faceId)), ScannedVertices(|p|)), Dedup(FaceSlice(indices, faceId)))
  {
    var d := Dedup(FaceSlice(indices, faceId));
    DedupAppendIncreasing(d, Copies(p, d, ScannedVertices(|p|)));
  }

  /** Sharing a position with the deduplicated face is sharing it with the face. */
  lemma SharesWithDedup<T>(p: seq<T>, face: seq<int>, v: int)
    ensures SharesPosition(p, Dedup(face), v) <==> SharesPosition(p, face, v)
  {
  }

  /** No vertex is listed twice, so the update loop moves each one once. */
  lemma FaceGroupDistinct<T>(p: seq<T>, indices: seq<int>, faceId: int)
    requires ValidFace(indices, faceId)
    ensures Distinct(FaceGroup(p, indices, faceId))
  {
  }

  /**
   * The group starts with the six face entries deduplicated in
   * first-occurrence order.
   */
  lemma FaceGroupStartsWithFace<T>(p: seq<T>, indices: seq<int>, faceId: int)
    requires ValidFace(indices, faceId)
    ensures |Dedup(FaceSlice(indices, faceId))| <= |FaceGroup(p, indices, faceId)|
    ensures FaceGroup(p, indices, faceId)[..|Dedup(FaceSlice(indices, faceId))|] == Dedup(FaceSlice(indices, faceId))
  {
    var d := Dedup(FaceSlice(indices, faceId));
    FaceGroupShape(p, indices, faceId);
    var w := Without(Copies(p, d, ScannedVertices(|p|)), d);
    assert (d + w)[..|d|] == d;
  }

  /** The picked face's own vertices are always in the group. */
  lemma FaceGroupHoldsFace<T>(p: seq<T>, indices: seq<int>, faceId: int)
    requires ValidFace(indices, faceId)
    ensures forall k :: QuadStart(faceId) <= k < QuadStart(faceId) + 6 ==>
      indices[k] in FaceGroup(p, indices, faceId)
  {
    forall k | QuadStart(faceId) <= k < QuadStart(faceId) + 6
      ensures indices[k] in FaceGroup(p, indices, faceId)
    {
      assert FaceSlice(indices, faceId)[k - QuadStart(faceId)] == indices[k];
      FaceGroupMembers(p, indices, faceId, indices[k]);
    }
  }

  /** After the face's own vertices, the other copies follow in increasing vertex order. */
  lemma FaceGroupTailIncreasing<T>(p: seq<T>, indices: seq<int>, faceId: int)
    requires ValidFace(indices, faceId)
    ensures |Dedup(FaceSlice(indices, faceId))| <= |FaceGroup(p, indices, faceId)|
    ensures Increasing(FaceGroup(p, indices, faceId)[|Dedup(FaceSlice(indices, faceId))|..])
  {
    var d := Dedup(FaceSlice(indices, faceId));
    FaceGroupShape(p, indices, faceId);
    var c := Copies(p, d, ScannedVertices(|p|));
    WithoutIncreasing(c, d);
    assert (d + Without(c, d))[|d|..] == Without(c, d);
  }

  /**
   * Membership: a vertex is in the group exactly when it is one of the
   * face's entries, or the scan visits it and its coordinates equal those of
   * a face vertex.
   */
  lemma FaceGroupMembers<T>(p: seq<T>, indices: seq<int>, faceId: int, v: int)
    requires ValidFace(indices, faceId)
    ensures v in FaceGroup(p, indices, faceId) <==>
      v in FaceSlice(indices, faceId) ||
      (0 <= v && 3 * v < |p| && SharesPosition(p, FaceSlice(indices, faceId), v))
  {
    var s := FaceSlice(indices, faceId);
    var d := Dedup(s);
    var c := Copies(p, d, ScannedVertices(|p|));
    var g := FaceGroup(p, indices, faceId);
    ScannedVerticesRange(|p|, v);
    SharesWithDedup(p, s, v);
    DedupMembers(d + c, v);
    DedupMembers(s, v);
  }

  /**
   * On a well-formed mesh (a buffer of 3N coordinates, face entries below N)
   * the group is exactly the vertices below N that sit where a face vertex
   * sits, and nothing else.
   */
  lemma FaceGroupOnWellFormedMesh<T>(p: seq<T>, indices: seq<int>, faceId: int)
    requires ValidFace(indices, faceId)
    requires |p| % 3 == 0
    requires forall k :: QuadStart(faceId) <= k < QuadStart(faceId) + 6 ==> 0 <= indices[k] < |p| / 3
    ensures forall v :: v in FaceGroup(p, indices, faceId) <==>
      0 <= v < |p| / 3 && SharesPosition(p, FaceSlice(indices, faceId), v)
  {
    var s := FaceSlice(indices, faceId);
    forall v ensures v in FaceGroup(p, indices, faceId) <==> 0 <= v < |p| / 3 && SharesPosition(p, s, v) {
      FaceGroupMembers(p, indices, faceId, v);
      WellFormedScan(|p|, v);
      if v in s {
        FaceEntryOnWellFormedMesh(p, indices, faceId, v);
      }
    }
  }

  /** On a buffer of 3N coordinates the scan visits exactly the vertices below N. */
  lemma WellFormedScan(len: nat, v: int)
    requires len % 3 == 0
    ensures 0 <= v && 3 * v < len <==> 0 <= v < len / 3
  {
  }

  /** A face entry of a well-formed mesh is a vertex below N and shares its own position. */
  lemma FaceEntryOnWellFormedMesh<T>(p: seq<T>, indices: seq<int>, faceId: int, v: int)
    requires ValidFace(indices, faceId)
    requires forall k :: QuadStart(faceId) <= k < QuadStart(faceId) + 6 ==> 0 <= indices[k] < |p| / 3
    requires v in FaceSlice(indices, faceId)
    ensures 0 <= v < |p| / 3 && SharesPosition(p, FaceSlice(indices, faceId), v)
  {
  }

  /**
   * One step of the scan: with `selected` holding the coordinates of the face
   * vertices `d`, `isSubArray` finds vertex `v` exactly when it shares a
   * position with the face.
   */
  lemma ScanMatch<T>(p: seq<T>, d: seq<int>, selected: seq<seq<Option<T>>>, v: int)
    requires |selected| == |d|
    requires forall j :: 0 <= j < |d| ==> selected[j] == Triplet(p, d[j])
    ensures IsSubArray(Triplet(p, v), selected) <==> SharesPosition(p, d, v)
  {
  }

  /** The scan of one more vertex appends it exactly when it shares a position with the face. */
  lemma CopiesStep<T>(p: seq<T>, face: seq<int>, v: nat)
    ensures Copies(p, face, v + 1) == Copies(p, face, v) + (if SharesPosition(p, face, v) then [v] else [])
  {
  }

  /**
   * The loop of src/app.ts:198-203: `selectedVertices` starts as `[[]]`, slot
   * 0 is overwritten and the other coordinate triplets are appended.
   */
  method FaceCoordinates<T>(positions: array<T>, face: seq<int>) returns (selectedVertices: seq<seq<Option<T>>>)
    requires |face| > 0
    ensures |selectedVertices| == |face|
    ensures forall j :: 0 <= j < |face| ==> selectedVertices[j] == Triplet(positions[..], face[j])
  {
    selectedVertices := [[]];
    var i := 0;
    while i < |face|
      invariant 0 <= i <= |face|
      invariant i == 0 ==> selectedVertices == [[]]
      invariant i > 0 ==> |selectedVertices| == i
      invariant forall j :: 0 <= j < i ==> selectedVertices[j] == Triplet(positions[..], face[j])
    {
      var index := face[i];
      var vertex := [Slot(positions, index * 3), Slot(positions, index * 3 + 1), Slot(positions, index * 3 + 2)];
      if i < |selectedVertices| {
        selectedVertices := selectedVertices[i := vertex];
      } else {
        selectedVertices := selectedVertices + [vertex];
      }
      i := i + 1;
    }
  }

  /**
   * The scan of src/app.ts:205-211: every vertex of the buffer, in order,
   * whose coordinate triplet `isSubArray` finds among `selectedVertices` (the
   * triplets of the face vertices `face`) is pushed onto `selFaceIndices`.
   */
  method PushCopies<T(==)>(positions: array<T>, face: seq<int>, selectedVertices: seq<seq<Option<T>>>,
                           selFaceIndices: seq<int>)
    returns (pushed: seq<int>)
    requires |selectedVertices| == |face|
    requires forall j :: 0 <= j < |face| ==> selectedVertices[j] == Triplet(positions[..], face[j])
    ensures pushed == selFaceIndices + Copies(positions[..], face, ScannedVertices(positions.Length))
  {
    ghost var p := positions[..];
    pushed := selFaceIndices;
    var i := 0;
    ghost var v := 0;
    while i < positions.Length
      invariant i == 3 * v && 0 <= v && i <= positions.Length + 2
      invariant pushed == selFaceIndices + Copies(p, face, v)
    {
      var curVertex := [Slot(positions, i), Slot(positions, i + 1), Slot(positions, i + 2)];
      assert curVertex == Triplet(p, v);
      ScanMatch(p, face, selectedVertices, v);
      CopiesStep(p, face, v);
      if IsSubArray(curVertex, selectedVertices) {
        assert i / 3 == v;
        pushed := pushed + [i / 3];
      }
      i, v := i + 3, v + 1;
    }
    ScanEnd(positions.Length, v);
  }

  /**
   * `setAllIndicesAttachedtoFace` (src/app.ts:179-213) on the buffer
   * `positions` and the index buffer `indices`, for the picked triangle
   * `faceId`.
   */
  method AllIndicesAttachedToFace<T(==)>(positions: array<T>, indices: seq<int>, faceId: int)
    returns (selFaceIndices: seq<int>)
    requires ValidFace(indices, faceId)
    ensures selFaceIndices == FaceGroup(positions[..], indices, faceId)
  {
    var startIndex := faceId / 2 * 6;
    selFaceIndices := indices[startIndex..startIndex + 6];
    selFaceIndices := Dedup(selFaceIndices);
    var selectedVertices := FaceCoordinates(positions, selFaceIndices);
    selFaceIndices := PushCopies(positions, selFaceIndices, selectedVertices, selFaceIndices);
    selFaceIndices := Dedup(selFaceIndices);
  }
}
