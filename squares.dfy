/** Cells of the integer grid and square tilings: a sequence of cells that
    visits every cell of a square exactly once, and how four such tilings of
    the quadrants assemble into a tiling of the whole square. */
module Squares {

  /** A cell of the grid; x grows to the right and y grows downwards. */
  datatype Pos = Pos(x: int, y: int)

  predicate InSquare(q: Pos, c: Pos, side: int)
  {
    c.x <= q.x < c.x + side && c.y <= q.y < c.y + side
  }

  /** Every cell of t lies in the square. */
  predicate Within(t: seq<Pos>, c: Pos, side: int)
  {
    forall i :: 0 <= i < |t| ==> InSquare(t[i], c, side)
  }

  /** Every cell of the square occurs in t. */
  ghost predicate Covers(t: seq<Pos>, c: Pos, side: int)
  {
    forall q :: InSquare(q, c, side) ==> q in t
  }

  /** No cell occurs twice in t. */
  predicate Distinct(t: seq<Pos>)
  {
    forall i, j :: 0 <= i < j < |t| ==> t[i] != t[j]
  }

  /** No cell occurs in both a and b. */
  predicate Disjoint(a: seq<Pos>, b: seq<Pos>)
  {
    forall i, j :: 0 <= i < |a| && 0 <= j < |b| ==> a[i] != b[j]
  }

  /** t visits each cell of the square exactly once and nothing else. */
  ghost predicate Tiles(t: seq<Pos>, c: Pos, side: int)
  {
    Within(t, c, side) && Covers(t, c, side) && Distinct(t)
  }

  /** The square at c of side 2s has the four quadrants of side s at the corners below. */
  predicate IsQuadrant(qc: Pos, c: Pos, s: int)
  {
    qc == c || qc == Pos(c.x + s, c.y) || qc == Pos(c.x, c.y + s) || qc == Pos(c.x + s, c.y + s)
  }

  /** c1 .. c4 are the four quadrants of the square at c of side 2s, each once. */
  predicate QuadrantsOf(c1: Pos, c2: Pos, c3: Pos, c4: Pos, c: Pos, s: int)
  {
    IsQuadrant(c1, c, s) && IsQuadrant(c2, c, s) && IsQuadrant(c3, c, s) && IsQuadrant(c4, c, s)
    && c1 != c2 && c1 != c3 && c1 != c4 && c2 != c3 && c2 != c4 && c3 != c4
  }

  lemma WithinJoin(a: seq<Pos>, b: seq<Pos>, c: Pos, side: int)
    requires Within(a, c, side) && Within(b, c, side)
    ensures Within(a + b, c, side)
  {
    forall i | 0 <= i < |a + b| ensures InSquare((a + b)[i], c, side) {
      if i >= |a| { assert (a + b)[i] == b[i - |a|]; }
    }
  }

  lemma WithinQuadrant(t: seq<Pos>, qc: Pos, c: Pos, s: int)
    requires s >= 1 && IsQuadrant(qc, c, s) && Within(t, qc, s)
    ensures Within(t, c, 2 * s)
  {
  }

  lemma DisjointQuadrants(a: seq<Pos>, ca: Pos, b: seq<Pos>, cb: Pos, c: Pos, s: int)
    requires s >= 1 && IsQuadrant(ca, c, s) && IsQuadrant(cb, c, s) && ca != cb
    requires Within(a, ca, s) && Within(b, cb, s)
    ensures Disjoint(a, b)
  {
    forall i, j | 0 <= i < |a| && 0 <= j < |b| ensures a[i] != b[j] {
      assert InSquare(a[i], ca, s) && InSquare(b[j], cb, s);
    }
  }

  lemma DisjointJoin(a1: seq<Pos>, a2: seq<Pos>, b: seq<Pos>)
    requires Disjoint(a1, b) && Disjoint(a2, b)
    ensures Disjoint(a1 + a2, b)
  {
    forall i, j | 0 <= i < |a1 + a2| && 0 <= j < |b| ensures (a1 + a2)[i] != b[j] {
      if i >= |a1| { assert (a1 + a2)[i] == a2[i - |a1|]; }
    }
  }

  lemma DistinctJoin(a: seq<Pos>, b: seq<Pos>)
    requires Distinct(a) && Distinct(b) && Disjoint(a, b)
    ensures Distinct(a + b)
  {
    forall i, j | 0 <= i < j < |a + b| ensures (a + b)[i] != (a + b)[j] {
      if j < |a| {
      } else if i < |a| {
        assert (a + b)[j] == b[j - |a|];
      } else {
        assert (a + b)[i] == b[i - |a|] && (a + b)[j] == b[j - |a|];
      }
    }
  }

  /** Four paths that tile the four quadrants of a square, one each, tile the square. */
  lemma Assemble(t1: seq<Pos>, t2: seq<Pos>, t3: seq<Pos>, t4: seq<Pos>,
                 c1: Pos, c2: Pos, c3: Pos, c4: Pos, c: Pos, s: int)
    requires s >= 1
    requires Tiles(t1, c1, s) && Tiles(t2, c2, s) && Tiles(t3, c3, s) && Tiles(t4, c4, s)
    requires QuadrantsOf(c1, c2, c3, c4, c, s)
    ensures Tiles(t1 + t2 + t3 + t4, c, 2 * s)
  {
    var t := t1 + t2 + t3 + t4;
    WithinQuadrant(t1, c1, c, s);
    WithinQuadrant(t2, c2, c, s);
    WithinQuadrant(t3, c3, c, s);
    WithinQuadrant(t4, c4, c, s);
    WithinJoin(t1, t2, c, 2 * s);
    WithinJoin(t1 + t2, t3, c, 2 * s);
    WithinJoin(t1 + t2 + t3, t4, c, 2 * s);

    forall q | InSquare(q, c, 2 * s) ensures q in t {
      var qc := Pos(if q.x < c.x + s then c.x else c.x + s, if q.y < c.y + s then c.y else c.y + s);
      assert IsQuadrant(qc, c, s) && InSquare(q, qc, s);
      if qc == c1 { assert q in t1; }
      else if qc == c2 { assert q in t2; }
      else if qc == c3 { assert q in t3; }
      else { assert q in t4; }
    }

    DisjointQuadrants(t1, c1, t2, c2, c, s);
    DisjointQuadrants(t1, c1, t3, c3, c, s);
    DisjointQuadrants(t2, c2, t3, c3, c, s);
    DisjointQuadrants(t1, c1, t4, c4, c, s);
    DisjointQuadrants(t2, c2, t4, c4, c, s);
    DisjointQuadrants(t3, c3, t4, c4, c, s);
    DistinctJoin(t1, t2);
    DisjointJoin(t1, t2, t3);
    DistinctJoin(t1 + t2, t3);
    DisjointJoin(t1, t2, t4);
    DisjointJoin(t1 + t2, t3, t4);
    DistinctJoin(t1 + t2 + t3, t4);
  }
}
