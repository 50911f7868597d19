/**
 * The extrusion step of the `mousemove` handler (src/app.ts:114-135): the
 * direction rule and the loop that rewrites the selected vertices in place.
 *
 * The dot products are taken as inputs (only their signs matter). The
 * per-component arithmetic `positions[index*3 + k] *= (1 + scaleVector[k])`
 * is an uninterpreted `step(k, value)`.
 */
module Extrusion {
  import opened Unique

  /** `scaleVector` is `faceNormal` or `faceNormal.negate()`. */
  datatype Direction = AlongNormal | AgainstNormal

  /** +1 along the face normal, -1 against it. */
  function Sign(d: Direction): real {
    if d == AlongNormal then 1.0 else -1.0
  }

  /**
   * The direction rule of src/app.ts:118-124, where `dot` is
   * `Dot(faceNormal, mouseMovementVector)` and `cornerDot` is
   * `Dot(faceNormal, (1, 1, 1))`: the normal is negated exactly when the two
   * dot products have strictly opposite signs; a zero on either side keeps it.
   */
  function ExtrusionDirection(dot: real, cornerDot: real): (d: Direction)
    ensures d == AgainstNormal <==> dot * cornerDot < 0.0
    ensures dot == 0.0 || cornerDot == 0.0 ==> d == AlongNormal
  {
    if dot < 0.0 && cornerDot > 0.0 then AgainstNormal
    else if dot > 0.0 && cornerDot < 0.0 then AgainstNormal
    else AlongNormal
  }

  /**
   * What the heuristic achieves: when neither dot product is zero, the
   * movement measured along the chosen direction has the sign of `cornerDot`.
   */
  lemma DirectionFollowsCorner(dot: real, cornerDot: real)
    requires dot != 0.0 && cornerDot != 0.0
    ensures (Sign(ExtrusionDirection(dot, cornerDot)) * dot) * cornerDot > 0.0
  {
  }

  /** How many times `v` occurs in `s`. */
  function Count(s: seq<int>, v: int): nat
    decreases |s|
  {
    if s == [] then 0
    else Count(s[..|s| - 1], v) + (if s[|s| - 1] == v then 1 else 0)
  }

  /** A vertex occurs once in a repetition-free list that holds it, and never otherwise. */
  lemma {:induction false} CountOfDistinct(s: seq<int>, v: int)
    requires Distinct(s)
    ensures Count(s, v) == if v in s then 1 else 0
    decreases |s|
  {
    if s != [] {
      var p := s[..|s| - 1];
      assert Distinct(p);
      CountOfDistinct(p, v);
      assert s == p + [s[|s| - 1]];
      if s[|s| - 1] == v {
        assert v !in p by {
          forall k | 0 <= k < |p| ensures p[k] != v {
            assert p[k] == s[k];
          }
        }
      }
    }
  }

  /** `step(k, _)` applied `n` times to `x`. */
  function Iterate<T>(step: (int, T) -> T, k: int, n: nat, x: T): T {
    if n == 0 then x else step(k, Iterate(step, k, n - 1, x))
  }

  /**
   * The loop of src/app.ts:130-135. Every slot `s` holds component `s % 3`
   * of vertex `s / 3`; it is transformed once per occurrence of that vertex in
   * `selFaceIndices`. Writes outside the buffer are dropped, as a typed array
   * drops them, and the buffer keeps its length. With the list deduplicated,
   * each selected vertex is transformed exactly once and every other slot is
   * left as it was.
   */
  method UpdateSelected<T>(positions: array<T>, selFaceIndices: seq<int>, step: (int, T) -> T)
    modifies positions
    ensures forall s :: 0 <= s < positions.Length ==>
      positions[s] == Iterate(step, s % 3, Count(selFaceIndices, s / 3), old(positions[s]))
    ensures Distinct(selFaceIndices) ==> forall s :: 0 <= s < positions.Length ==>
      positions[s] == if s / 3 in selFaceIndices then step(s % 3, old(positions[s])) else old(positions[s])
  {
    var i := 0;
    while i < |selFaceIndices|
      invariant 0 <= i <= |selFaceIndices|
      invariant forall s :: 0 <= s < positions.Length ==>
        positions[s] == Iterate(step, s % 3, Count(selFaceIndices[..i], s / 3), old(positions[s]))
    {
      var index := selFaceIndices[i];
      assert selFaceIndices[..i + 1][..i] == selFaceIndices[..i];
      if 0 <= index * 3 < positions.Length {
        positions[index * 3] := step(0, positions[index * 3]);
      }
      if 0 <= index * 3 + 1 < positions.Length {
        positions[index * 3 + 1] := step(1, positions[index * 3 + 1]);
      }
      if 0 <= index * 3 + 2 < positions.Length {
        positions[index * 3 + 2] := step(2, positions[index * 3 + 2]);
      }
      i := i + 1;
    }
    assert selFaceIndices[..i] == selFaceIndices;
    if Distinct(selFaceIndices) {
      forall s | 0 <= s < positions.Length
        ensures positions[s] == if s / 3 in selFaceIndices then step(s % 3, old(positions[s])) else old(positions[s])
      {
        CountOfDistinct(selFaceIndices, s / 3);
      }
    }
  }
}
