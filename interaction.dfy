/**
 * The interaction state of src/app.ts:56-65 and the two canvas handlers that
 * drive it: `click` (src/app.ts:68-102) toggles between idle and extruding, and
 * `mousemove` (src/app.ts:105-151) extrudes the selected face of the box.
 *
 * What the engine computes is passed in: the pick result, the box's vertex
 * data and index buffer, the facet normal, the two dot products and the
 * per-component update for either direction.
 */
module Interaction {
  import opened Wrappers
  import opened Unique
  import opened FaceVertices
  import opened Extrusion

  datatype Vec3<T> = Vec3(x: T, y: T, z: T)

  /** `pickResult.pickedMesh`, compared with `box` and `sphere`. */
  datatype PickedMesh = BoxMesh | SphereMesh | OtherMesh | NoMesh

  /** The fields of `scene.pick(...)` the click handler reads. */
  datatype PickResult = PickResult(hit: bool, pickedMesh: PickedMesh, faceId: int)

  /** JavaScript truthiness of `faceSelected`: `null` and `0` are falsy. */
  predicate Truthy(faceSelected: Option<int>) {
    faceSelected.Some? && faceSelected.value != 0
  }

  /** The guard of the cube branch of `mousemove` (src/app.ts:106). */
  predicate CubeExtrudes(extrusionEnabled: bool, faceSelected: Option<int>) {
    extrusionEnabled && Truthy(faceSelected)
  }

  /** The globals of the demo that its handlers read and write. */
  class Session<T(==)> {
    var extrusionEnabled: bool
    var extrusionEnabledSphere: bool
    var faceSelected: Option<int>
    var lastMousePositionX: Option<int>
    var lastMousePositionY: Option<int>
    var selFaceIndices: seq<int>
    var positions: array?<T>
    var faceNormal: Option<Vec3<T>>

    /**
     * At most one of the two modes is on, and a selected face comes with the
     * buffer, its normal and a repetition-free vertex group.
     */
    ghost predicate Valid()
      reads this
    {
      !(extrusionEnabled && extrusionEnabledSphere) &&
      (faceSelected.Some? ==>
        extrusionEnabled && positions != null && faceNormal.Some? && Distinct(selFaceIndices))
    }

    /** The initial values of src/app.ts:57-65 (`undefined` is `None`, `null` or empty). */
    constructor ()
      ensures Valid()
      ensures !extrusionEnabled && !extrusionEnabledSphere && faceSelected == None
      ensures lastMousePositionX == None && lastMousePositionY == None
      ensures selFaceIndices == [] && positions == null && faceNormal == None
    {
      extrusionEnabled := false;
      extrusionEnabledSphere := false;
      faceSelected := None;
      lastMousePositionX := None;
      lastMousePositionY := None;
      selFaceIndices := [];
      positions := null;
      faceNormal := None;
    }

    /**
     * The `click` handler. `pick` is the result of `scene.pick` at
     * (`clientX`, `clientY`); `vertexData` and `indices` are the box's
     * position and index buffers, and `facetNormal` is its facet normal for
     * `pick.faceId`. A pick that hits the box names a triangle of it; the pick
     * is only used when neither mode is on.
     */
    method Click(clientX: int, clientY: int, pick: PickResult,
                 vertexData: array<T>, indices: seq<int>, facetNormal: Vec3<T>)
      requires Valid()
      requires !extrusionEnabled && !extrusionEnabledSphere && pick.hit && pick.pickedMesh == BoxMesh ==>
        ValidFace(indices, pick.faceId)
      modifies this
      ensures Valid()
      // A click while either mode is on ends it, wherever it lands.
      ensures old(extrusionEnabled || extrusionEnabledSphere) ==>
        !extrusionEnabled && !extrusionEnabledSphere && faceSelected == None &&
        lastMousePositionX == old(lastMousePositionX) && lastMousePositionY == old(lastMousePositionY) &&
        selFaceIndices == old(selFaceIndices) && positions == old(positions) && faceNormal == old(faceNormal)
      // Otherwise the picked mesh decides the mode, and only a box hit selects a face.
      ensures !old(extrusionEnabled || extrusionEnabledSphere) ==>
        extrusionEnabled == (pick.pickedMesh == BoxMesh) &&
        extrusionEnabledSphere == (pick.pickedMesh == SphereMesh) &&
        (faceSelected.Some? <==> pick.hit && pick.pickedMesh == BoxMesh)
      ensures !old(extrusionEnabled || extrusionEnabledSphere) && pick.hit && pick.pickedMesh == BoxMesh ==>
        faceSelected == Some(pick.faceId) &&
        lastMousePositionX == Some(clientX) && lastMousePositionY == Some(clientY) &&
        positions == vertexData && selFaceIndices == FaceGroup(vertexData[..], indices, pick.faceId) &&
        faceNormal == Some(facetNormal)
      ensures !old(extrusionEnabled || extrusionEnabledSphere) && pick.hit && pick.pickedMesh == SphereMesh ==>
        faceSelected == None &&
        lastMousePositionX == Some(clientX) && lastMousePositionY == Some(clientY) &&
        selFaceIndices == old(selFaceIndices) && positions == old(positions) && faceNormal == old(faceNormal)
      ensures !old(extrusionEnabled || extrusionEnabledSphere) && !(pick.hit && pick.pickedMesh in {BoxMesh, SphereMesh}) ==>
        faceSelected == None &&
        lastMousePositionX == old(lastMousePositionX) && lastMousePositionY == old(lastMousePositionY) &&
        selFaceIndices == old(selFaceIndices) && positions == old(positions) && faceNormal == old(faceNormal)
    {
      if !extrusionEnabled && !extrusionEnabledSphere {
        if pick.pickedMesh == BoxMesh {
          extrusionEnabled := true;
        } else if pick.pickedMesh == SphereMesh {
          extrusionEnabledSphere := true;
        }
        if pick.hit && pick.pickedMesh == BoxMesh && extrusionEnabled {
          faceSelected := Some(pick.faceId);
          lastMousePositionX := Some(clientX);
          lastMousePositionY := Some(clientY);
          // setAllIndicesAttachedtoFace()
          positions := vertexData;
          selFaceIndices := AllIndicesAttachedToFace(vertexData, indices, pick.faceId);
          FaceGroupDistinct(vertexData[..], indices, pick.faceId);
          faceNormal := Some(facetNormal);
        } else if pick.hit && pick.pickedMesh == SphereMesh && extrusionEnabledSphere {
          lastMousePositionX := Some(clientX);
          lastMousePositionY := Some(clientY);
        }
      } else {
        extrusionEnabled := false;
        extrusionEnabledSphere := false;
        faceSelected := None;
      }
    }

    /**
     * The `mousemove` handler at (`clientX`, `clientY`). `dot` is the dot
     * product of the face normal with the mouse movement and `cornerDot` that
     * of the face normal with (1, 1, 1); `along` and `against` are the
     * per-component updates for `scaleVector` along and against the normal.
     * The selected vertices are moved in place, each exactly once; the sphere
     * branch only records the new horizontal position here.
     */
    method MouseMove(clientX: int, clientY: int, dot: real, cornerDot: real,
                     along: (int, T) -> T, against: (int, T) -> T)
      requires Valid()
      modifies this, positions
      ensures Valid()
      ensures extrusionEnabled == old(extrusionEnabled) && extrusionEnabledSphere == old(extrusionEnabledSphere)
      ensures faceSelected == old(faceSelected) && selFaceIndices == old(selFaceIndices)
      ensures positions == old(positions) && faceNormal == old(faceNormal)
      ensures CubeExtrudes(old(extrusionEnabled), old(faceSelected)) ==>
        var step: (int, T) -> T := if ExtrusionDirection(dot, cornerDot) == AlongNormal then along else against;
        forall s :: 0 <= s < positions.Length ==>
          positions[s] == if s / 3 in selFaceIndices then step(s % 3, old(positions[s])) else old(positions[s])
      ensures !CubeExtrudes(old(extrusionEnabled), old(faceSelected)) && positions != null ==>
        positions[..] == old(positions[..])
      ensures lastMousePositionX ==
        if CubeExtrudes(old(extrusionEnabled), old(faceSelected)) || old(extrusionEnabledSphere)
        then Some(clientX) else old(lastMousePositionX)
      ensures lastMousePositionY ==
        if CubeExtrudes(old(extrusionEnabled), old(faceSelected)) then Some(clientY) else old(lastMousePositionY)
    {
      if extrusionEnabled && faceSelected.Some? && faceSelected.value != 0 {
        // mouseMovement() records the new pointer position.
        lastMousePositionX := Some(clientX);
        lastMousePositionY := Some(clientY);
        var direction := ExtrusionDirection(dot, cornerDot);
        var step: (int, T) -> T := if direction == AlongNormal then along else against;
        UpdateSelected(positions, selFaceIndices, step);
      }
      if extrusionEnabledSphere {
        lastMousePositionX := Some(clientX);
      }
    }
  }
}
