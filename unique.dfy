/**
 * Sequences without repetitions, and `Array.from(new Set(s))`, which the
 * face selection uses twice (src/app.ts:196 and 212). A JavaScript `Set`
 * iterates in insertion order, so the conversion keeps every element at its
 * first occurrence.
 */
module Unique {

  /** No element occurs twice. */
  predicate Distinct<T(==)>(s: seq<T>) {
    forall i, j :: 0 <= i < j < |s| ==> s[i] != s[j]
  }

  /** Strictly increasing, hence also distinct. */
  predicate Increasing(s: seq<int>) {
    forall i, j :: 0 <= i < j < |s| ==> s[i] < s[j]
  }

  /** `Array.from(new Set(s))`: the elements of `s` inserted one by one into a set. */
  function Dedup<T(==)>(s: seq<T>): (r: seq<T>)
    ensures Distinct(r)
    ensures forall i :: 0 <= i < |r| ==> r[i] in s
    ensures |r| <= |s|
    decreases |s|
  {
    if s == [] then []
    else
      var d := Dedup(s[..|s| - 1]);
      assert s == s[..|s| - 1] + [s[|s| - 1]];
      if s[|s| - 1] in d then d else d + [s[|s| - 1]]
  }

  /** Nothing is lost: every element of `s` is in `Dedup(s)`. */
  lemma {:induction false} DedupKeepsAll<T>(s: seq<T>)
    ensures forall i :: 0 <= i < |s| ==> s[i] in Dedup(s)
    decreases |s|
  {
    if s != [] {
      var p, x := s[..|s| - 1], s[|s| - 1];
      DedupKeepsAll(p);
      assert s == p + [x];
      DedupSnoc(p, x);
      var d := Dedup(p);
      assert d <= Dedup(s);
      forall i | 0 <= i < |s| ensures s[i] in Dedup(s) {
        if i < |p| {
          assert s[i] == p[i] && p[i] in d;
        }
      }
    }
  }

  /** `x` is in `Dedup(s)` exactly when it is in `s`. */
  lemma DedupMembers<T>(s: seq<T>, x: T)
    ensures x in Dedup(s) <==> x in s
  {
    DedupKeepsAll(s);
  }

  /** The position of the first occurrence of `x` in `s`. */
  function IndexOf<T(==)>(s: seq<T>, x: T): (i: nat)
    requires x in s
    ensures i < |s| && s[i] == x && x !in s[..i]
  {
    if s[0] == x then 0 else 1 + IndexOf(s[1..], x)
  }

  /** The elements of `s` that do not occur in `d`, in their order in `s`. */
  function Without<T(==)>(s: seq<T>, d: seq<T>): (r: seq<T>)
    ensures forall i :: 0 <= i < |r| ==> r[i] in s && r[i] !in d
    decreases |s|
  {
    if s == [] then []
    else
      var w := Without(s[..|s| - 1], d);
      assert s == s[..|s| - 1] + [s[|s| - 1]];
      if s[|s| - 1] in d then w else w + [s[|s| - 1]]
  }

  /** The first occurrence of an element is unique. */
  lemma FirstIndexUnique<T>(s: seq<T>, x: T, i: nat, j: nat)
    requires i < |s| && s[i] == x && x !in s[..i]
    requires j < |s| && s[j] == x && x !in s[..j]
    ensures i == j
  {
  }

  /** Appending never moves the first occurrence of an element already present. */
  lemma IndexOfAppend<T>(s: seq<T>, x: T, y: T)
    requires y in s
    ensures IndexOf(s + [x], y) == IndexOf(s, y)
  {
    var i := IndexOf(s, y);
    var k := IndexOf(s + [x], y);
    assert (s + [x])[i] == y;
    assert forall j :: 0 <= j < k ==> (s + [x])[j] == (s + [x])[..k][j];
    assert k <= i;
    assert (s + [x])[..k] == s[..k];
    FirstIndexUnique(s, y, i, k);
  }

  /** A new element's first occurrence is where it is appended. */
  lemma IndexOfAppendNew<T>(s: seq<T>, x: T)
    requires x !in s
    ensures IndexOf(s + [x], x) == |s|
  {
  }

  /** Deduplicating a sequence that has no repetitions leaves it as it is. */
  lemma {:induction false} DedupOfDistinct<T>(s: seq<T>)
    requires Distinct(s)
    ensures Dedup(s) == s
    decreases |s|
  {
    if s != [] {
      var p := s[..|s| - 1];
      assert Distinct(p);
      DedupOfDistinct(p);
      assert s[|s| - 1] !in p by {
        forall k | 0 <= k < |p| ensures p[k] != s[|s| - 1] {
          assert p[k] == s[k];
        }
      }
      assert s == p + [s[|s| - 1]];
    }
  }

  /** What is deduplicated first stays first: `Dedup(s)` is a prefix of `Dedup(s + t)`. */
  lemma {:induction false} DedupPrefix<T>(s: seq<T>, t: seq<T>)
    ensures Dedup(s) <= Dedup(s + t)
    decreases |t|
  {
    if t == [] {
      assert s + t == s;
    } else {
      var t' := t[..|t| - 1];
      DedupPrefix(s, t');
      assert (s + t)[..|s + t| - 1] == s + t';
    }
  }

  /**
   * The order of `Dedup(s)` is the order of first occurrences in `s`: of two
   * kept elements, the one that appears first in `s` comes first.
   */
  lemma {:induction false} DedupKeepsFirstOccurrenceOrder<T>(s: seq<T>)
    ensures forall a, b :: 0 <= a < b < |Dedup(s)| ==>
      IndexOf(s, Dedup(s)[a]) < IndexOf(s, Dedup(s)[b])
    decreases |s|
  {
    if s != [] {
      var p, x := s[..|s| - 1], s[|s| - 1];
      assert s == p + [x];
      DedupKeepsFirstOccurrenceOrder(p);
      var d := Dedup(p);
      forall a, b | 0 <= a < b < |Dedup(s)|
        ensures IndexOf(s, Dedup(s)[a]) < IndexOf(s, Dedup(s)[b])
      {
        IndexOfAppend(p, x, Dedup(s)[a]);
        if b < |d| {
          IndexOfAppend(p, x, Dedup(s)[b]);
        } else {
          DedupMembers(p, x);
          IndexOfAppendNew(p, x);
        }
      }
    }
  }

  /** Inserting one more element into the set. */
  lemma DedupSnoc<T>(s: seq<T>, x: T)
    ensures Dedup(s + [x]) == if x in Dedup(s) then Dedup(s) else Dedup(s) + [x]
  {
    assert (s + [x])[..|s + [x]| - 1] == s;
  }

  /** Filtering one more element. */
  lemma WithoutSnoc<T>(s: seq<T>, x: T, d: seq<T>)
    ensures Without(s + [x], d) == if x in d then Without(s, d) else Without(s, d) + [x]
  {
    assert (s + [x])[..|s + [x]| - 1] == s;
  }

  /**
   * Deduplicating a repetition-free prefix followed by an increasing tail keeps
   * the prefix and the tail elements not already in it.
   */
  lemma {:induction false} DedupAppendIncreasing(d: seq<int>, m: seq<int>)
    requires Distinct(d) && Increasing(m)
    ensures Dedup(d + m) == d + Without(m, d)
    decreases |m|
  {
    if m == [] {
      assert d + m == d;
      DedupOfDistinct(d);
    } else {
      var m', x := m[..|m| - 1], m[|m| - 1];
      assert m == m' + [x];
      assert Increasing(m');
      DedupAppendIncreasing(d, m');
      assert x !in m' by {
        forall k | 0 <= k < |m'| ensures m'[k] != x {
          assert m'[k] == m[k];
        }
      }
      DedupAppendStep(d, m', x);
    }
  }

  /** One step of `DedupAppendIncreasing`: appending an element not among the earlier ones. */
  lemma DedupAppendStep(d: seq<int>, m: seq<int>, x: int)
    requires Dedup(d + m) == d + Without(m, d)
    requires x !in m
    ensures Dedup(d + (m + [x])) == d + Without(m + [x], d)
  {
    var a, w := d + m, Without(m, d);
    assert d + (m + [x]) == a + [x];
    DedupSnocOf(a, d + w, x);
    WithoutSnoc(m, x, d);
    WithoutAbsent(m, d, x);
    ConcatSnoc(d, w, x);
  }

  /**
   * `DedupSnoc`, with the deduplicated prefix given by name, so that a caller
   * that knows `Dedup(a)` does not have the solver unfold it again.
   */
  lemma DedupSnocOf<T>(a: seq<T>, r: seq<T>, x: T)
    requires Dedup(a) == r
    ensures Dedup(a + [x]) == if x in r then r else r + [x]
  {
    DedupSnoc(a, x);
  }

  /** What is not in `s` is not in `Without(s, d)` either. */
  lemma WithoutAbsent<T>(s: seq<T>, d: seq<T>, x: T)
    requires x !in s
    ensures x !in Without(s, d)
  {
  }

  /** Appending to a concatenation. */
  lemma ConcatSnoc<T>(d: seq<T>, w: seq<T>, x: T)
    requires x !in w
    ensures x in d + w <==> x in d
    ensures (d + w) + [x] == d + (w + [x])
  {
  }

  /** Dropping elements from an increasing sequence keeps it increasing. */
  lemma {:induction false} WithoutIncreasing(s: seq<int>, d: seq<int>)
    requires Increasing(s)
    ensures Increasing(Without(s, d))
    decreases |s|
  {
    if s != [] {
      var p := s[..|s| - 1];
      WithoutIncreasing(p, d);
      var w := Without(p, d);
      assert forall k :: 0 <= k < |w| ==> w[k] in p;
      assert forall k :: 0 <= k < |p| ==> p[k] < s[|s| - 1];
    }
  }
}
