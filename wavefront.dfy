/** Fan triangulation of an OBJ face: a polygon v0 v1 … v(n-1) becomes the
    triangles (v0, v1, v2), (v0, v2, v3), …, (v0, v(n-2), v(n-1)), as one
    flat list of corners. */
module Wavefront {

  /** The corners of the fan around `w[0]` over the first `m` corners of
      `w`. */
  function FanOf<T>(w: seq<T>, m: nat): (r: seq<T>)
    requires 3 <= m <= |w|
    ensures |r| == 3 * (m - 2)
    ensures r[|r| - 1] == w[m - 1]
    decreases m
  {
    if m == 3 then w[..3]
    else FanOf(w, m - 1) + [w[0], w[m - 2], w[m - 1]]
  }

  /** The fan of the whole polygon. */
  function Fan<T>(w: seq<T>): (r: seq<T>)
    requires |w| >= 3
    ensures |r| == 3 * (|w| - 2)
  {
    FanOf(w, |w|)
  }

  /** Triangle `k` of a flat corner list. */
  function Triangle<T>(r: seq<T>, k: nat): seq<T>
    requires 3 * k + 3 <= |r|
  {
    r[3 * k .. 3 * k + 3]
  }

  /** Triangle `k` of the fan is (v0, v(k+1), v(k+2)). */
  lemma {:induction false} FanOfTriangle<T>(w: seq<T>, m: nat, k: nat)
    requires 3 <= m <= |w| && k < m - 2
    ensures Triangle(FanOf(w, m), k) == [w[0], w[k + 1], w[k + 2]]
    decreases m
  {
    if m > 3 {
      if k < m - 3 {
        FanOfTriangle(w, m - 1, k);
        assert Triangle(FanOf(w, m), k) == Triangle(FanOf(w, m - 1), k);
      } else {
        assert Triangle(FanOf(w, m), k) == [w[0], w[m - 2], w[m - 1]];
      }
    }
  }

  lemma FanTriangle<T>(w: seq<T>, k: nat)
    requires |w| >= 3 && k < |w| - 2
    ensures Triangle(Fan(w), k) == [w[0], w[k + 1], w[k + 2]]
  {
    FanOfTriangle(w, |w|, k);
  }

  /** A triangle is its own fan. */
  lemma FanOfThree<T>(w: seq<T>)
    requires |w| == 3
    ensures Fan(w) == w
  {
  }

  /** A quad becomes two triangles sharing its first corner. */
  lemma FanOfQuad<T>(a: T, b: T, c: T, d: T)
    ensures Fan([a, b, c, d]) == [a, b, c, a, c, d]
  {
    assert FanOf([a, b, c, d], 3) == [a, b, c];
  }

  /** Inserting the first corner and the last corner passed in front of
      the rest of the polygon closes one more triangle. */
  lemma FanStep<T>(w: seq<T>, m: nat)
    requires 3 <= m < |w|
    ensures FanOf(w, m) + [w[0], w[m - 1]] + w[m..] == FanOf(w, m + 1) + w[m + 1..]
  {
    assert w[m..] == [w[m]] + w[m + 1..];
  }

  /** Inserting the first corner and the corner just passed at position
      `i`, after the fan over `m` corners, closes one more triangle. */
  lemma InsertCloses<T>(w: seq<T>, m: nat, i: nat, s: seq<T>, first: T, prev: T)
    requires 3 <= m < |w| && i == 3 * (m - 2) && s == FanOf(w, m) + w[m..]
    requires first == w[0] && prev == w[m - 1]
    ensures i <= |s| && s[..i] + [first, prev] + s[i..] == FanOf(w, m + 1) + w[m + 1..]
  {
    SplitAt(FanOf(w, m), w[m..]);
    FanStep(w, m);
  }

  lemma SplitAt<T>(f: seq<T>, r: seq<T>)
    ensures (f + r)[..|f|] == f && (f + r)[|f|..] == r
  {
  }

  /** After the insertion the corner at `k = 3 (m - 2) + 2` is corner `m`
      of the polygon. */
  lemma NextCorner<T>(w: seq<T>, m: nat, k: nat)
    requires 3 <= m < |w| && k == 3 * (m - 2) + 2
    ensures k < |FanOf(w, m + 1) + w[m + 1..]|
    ensures (FanOf(w, m + 1) + w[m + 1..])[k] == w[m]
  {
    var f := FanOf(w, m + 1);
    assert |f| == k + 1;
    assert f[|f| - 1] == w[m];
  }

  lemma MultipleOfThree(t: nat)
    ensures (3 * t) % 3 == 0
  {
  }

  /** Two insertions at `i` and `i + 1` into a vector. */
  method InsertTwo<T>(s: seq<T>, i: nat, a: T, b: T) returns (r: seq<T>)
    requires i <= |s|
    ensures r == s[..i] + [a, b] + s[i..]
  {
    r := s[..i] + [a] + s[i..];
    r := r[..i + 1] + [b] + r[i + 1..];
  }

  /** Triangulates the face in place: walking the corner list, before every
      third corner after the first triangle it inserts the first corner and
      the corner just passed. A face of fewer than three corners is left as
      it is. */
  method Triangulate<T>(vertices: seq<T>) returns (out: seq<T>)
    requires |vertices| > 0
    ensures |vertices| >= 3 ==> out == Fan(vertices)
    ensures |vertices| < 3 ==> out == vertices
  {
    ghost var n := |vertices|;
    // the fan built so far covers the first `m` corners of the polygon
    ghost var m := 3;
    if n >= 3 {
      assert vertices == FanOf(vertices, 3) + vertices[3..];
    }
    out := vertices;
    var firstVertex := out[0];
    var previousVertex := out[0];
    var i := 0;
    while i < |out|
      invariant 0 <= i <= |out|
      invariant i < 3 ==> out == vertices && m == 3 && (i > 0 ==> previousVertex == vertices[i - 1])
      invariant n >= 3 ==> 3 <= m <= n && out == FanOf(vertices, m) + vertices[m..] && |out| == 2 * m + n - 6
      invariant i >= 3 ==> n >= 3 && i == 3 * (m - 2) && previousVertex == vertices[m - 1]
      decreases |out| - i
    {
      if i >= 3 {
        MultipleOfThree(m - 2);
      }
      if i != 0 && i % 3 == 0 {
        InsertCloses(vertices, m, i, out, firstVertex, previousVertex);
        out := InsertTwo(out, i, firstVertex, previousVertex);
        i := i + 2;
        NextCorner(vertices, m, i);
        m := m + 1;
      }
      previousVertex := out[i];
      i := i + 1;
    }
  }
}
