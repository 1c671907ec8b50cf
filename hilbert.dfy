/** The Hilbert curve that drives the Riemersma ditherer: unit moves on the
    integer grid, the recursive expansion with its four-orientation rotation
    table, and the facts that make it a traversal: its length, its net
    displacement, and that it visits every cell of a 2^L x 2^L square exactly once. */
module HilbertCurve {
  import opened Squares

  /** A move of the cursor; x grows to the right and y grows downwards. */
  datatype Direction = None | Left | Right | Up | Down

  /** The cursor's starting cell, the top-left pixel. */
  const Origin: Pos := Pos(0, 0)

  function Abs(n: int): nat
  {
    if n < 0 then -n else n
  }

  /** The position one move away from p: a move shifts the cursor by exactly
      one cell along one axis; None, and only None, leaves it in place. */
  function Step(p: Pos, d: Direction): (q: Pos)
    ensures q == p <==> d == None
    ensures Abs(q.x - p.x) + Abs(q.y - p.y) == if d == None then 0 else 1
  {
    match d
    case None => p
    case Left => Pos(p.x - 1, p.y)
    case Right => Pos(p.x + 1, p.y)
    case Up => Pos(p.x, p.y - 1)
    case Down => Pos(p.x, p.y + 1)
  }

  /** Where a cursor at p ends after the moves ms. */
  function Walk(p: Pos, ms: seq<Direction>): Pos
    decreases |ms|
  {
    if ms == [] then p else Walk(Step(p, ms[0]), ms[1..])
  }

  /** The position of the cursor at each of the moves ms, i.e. the cells that
      the moves handle before stepping. */
  function Visits(p: Pos, ms: seq<Direction>): (v: seq<Pos>)
    ensures |v| == |ms|
    ensures ms != [] ==> v[0] == p
    decreases |ms|
  {
    if ms == [] then [] else [p] + Visits(Step(p, ms[0]), ms[1..])
  }

  /** Every cell the cursor occupies while making the moves ms, the last one included. */
  function Trace(p: Pos, ms: seq<Direction>): seq<Pos>
    decreases |ms|
  {
    if ms == [] then [p] else [p] + Trace(Step(p, ms[0]), ms[1..])
  }

  /** The cells of a run are the cells it handles followed by the cell where it stops. */
  lemma {:induction false} TraceVisits(p: Pos, ms: seq<Direction>)
    ensures Trace(p, ms) == Visits(p, ms) + [Walk(p, ms)]
    decreases |ms|
  {
    if ms != [] {
      TraceVisits(Step(p, ms[0]), ms[1..]);
    }
  }

  lemma {:induction false} WalkVisitsConcat(p: Pos, a: seq<Direction>, b: seq<Direction>)
    ensures Walk(p, a + b) == Walk(Walk(p, a), b)
    ensures Visits(p, a + b) == Visits(p, a) + Visits(Walk(p, a), b)
    decreases |a|
  {
    if a == [] {
      assert a + b == b;
    } else {
      assert (a + b)[0] == a[0] && (a + b)[1..] == a[1..] + b;
      WalkVisitsConcat(Step(p, a[0]), a[1..], b);
    }
  }

  lemma SingleMove(p: Pos, m: Direction)
    ensures Walk(p, [m]) == Step(p, m)
    ensures Visits(p, [m]) == [p]
  {
    assert [m][1..] == [];
  }

  /** Cutting a run of moves at one move: the cells of the whole run are the
      cells of the first part followed by those of the second part. */
  lemma TraceJoin(p: Pos, a: seq<Direction>, m: Direction, b: seq<Direction>)
    ensures Walk(p, a + [m] + b) == Walk(Step(Walk(p, a), m), b)
    ensures Trace(p, a + [m] + b) == Trace(p, a) + Trace(Step(Walk(p, a), m), b)
  {
    var q := Step(Walk(p, a), m);
    WalkVisitsConcat(p, a + [m], b);
    WalkVisitsConcat(p, a, [m]);
    SingleMove(Walk(p, a), m);
    assert Visits(p, a + [m]) == Visits(p, a) + [Walk(p, a)];
    TraceVisits(p, a + [m] + b);
    TraceVisits(p, a);
    TraceVisits(q, b);
  }

  /** 2^n, the side of the square of the level-n curve. */
  function Pow2(n: nat): (r: nat)
    ensures r >= 1
  {
    if n == 0 then 1 else 2 * Pow2(n - 1)
  }

  /** 4^n, the number of cells of the level-n curve. */
  function Pow4(n: nat): (r: nat)
    ensures r >= 1
  {
    if n == 0 then 1 else 4 * Pow4(n - 1)
  }

  /** floor(log2(n)): the exponent of the highest power of two not above n. */
  function FloorLog2(n: nat): (r: nat)
    requires n >= 1
    ensures Pow2(r) <= n < Pow2(r + 1)
  {
    if n == 1 then 0 else 1 + FloorLog2(n / 2)
  }

  /** The level of the curve for an image whose longer side is size: floor(log2(size)),
      raised by one when that power of two falls short. It is the least level
      whose square holds the image. */
  function CurveLevel(size: nat): (level: nat)
    requires size >= 1
    ensures size <= Pow2(level)
    ensures level == 0 || Pow2(level - 1) < size
  {
    var level := FloorLog2(size);
    if Pow2(level) < size then level + 1 else level
  }

  /** Orientations of the four sub-curves of a curve entered in orientation d. */
  function SubOrientations(d: Direction): (Direction, Direction, Direction, Direction)
  {
    match d
    case Left => (Up, Left, Left, Down)
    case Right => (Down, Right, Right, Up)
    case Up => (Left, Up, Up, Right)
    case Down => (Right, Down, Down, Left)
    case None => (None, None, None, None)
  }

  /** The three moves that join the four sub-curves of a curve entered in
      orientation d; at level one they are the whole curve. */
  function Connectors(d: Direction): (Direction, Direction, Direction)
  {
    match d
    case Left => (Right, Down, Left)
    case Right => (Left, Up, Right)
    case Up => (Down, Right, Up)
    case Down => (Up, Left, Down)
    case None => (None, None, None)
  }

  /** The moves the recursive curve of level `level` (at least one) entered in
      orientation d makes, in order: the three connecting moves at level one,
      otherwise the four sub-curves of the rotation table joined by them.
      A curve with orientation None makes no move. */
  function HilbertMoves(level: nat, d: Direction): (ms: seq<Direction>)
    requires level >= 1
    ensures d != None ==> |ms| == Pow4(level) - 1
    ensures None !in ms
    decreases level, 1
  {
    var cs := Connectors(d);
    if d == None then []
    else if level == 1 then [cs.0, cs.1, cs.2]
    else Expand(level, d)
  }

  /** The recursive case of HilbertMoves, kept apart so that the unfolding of
      the curve happens only where a proof asks for it. */
  function Expand(level: nat, d: Direction): (ms: seq<Direction>)
    requires level >= 2 && d != None
    ensures |ms| == Pow4(level) - 1
    ensures None !in ms
    decreases level, 0
  {
    var ds, cs := SubOrientations(d), Connectors(d);
    HilbertMoves(level - 1, ds.0) + [cs.0] + HilbertMoves(level - 1, ds.1) + [cs.1]
    + HilbertMoves(level - 1, ds.2) + [cs.2] + HilbertMoves(level - 1, ds.3)
  }

  /** The recursive case of HilbertMoves read off the rotation table. */
  lemma HilbertRecursion(level: nat, d: Direction)
    requires level >= 2 && d != None
    ensures var ds, cs := SubOrientations(d), Connectors(d);
      HilbertMoves(level, d)
      == HilbertMoves(level - 1, ds.0) + [cs.0] + HilbertMoves(level - 1, ds.1) + [cs.1]
         + HilbertMoves(level - 1, ds.2) + [cs.2] + HilbertMoves(level - 1, ds.3)
  {
    assert HilbertMoves(level, d) == Expand(level, d);
  }

  /** Net displacement of the level-`level` curve in orientation d. */
  function Displacement(level: nat, d: Direction): Pos
  {
    var n := Pow2(level) - 1;
    match d
    case Up => Pos(n, 0)
    case Left => Pos(0, n)
    case Right => Pos(0, -n)
    case Down => Pos(-n, 0)
    case None => Pos(0, 0)
  }

  /** Top-left cell of the square the curve from p covers: the curves entered
      up or left grow right and down from p, the others left and up. */
  function Corner(p: Pos, level: nat, d: Direction): Pos
  {
    var n := Pow2(level) - 1;
    if d == Right || d == Down then Pos(p.x - n, p.y - n) else p
  }

  /** p shifted by the vector v. */
  function Translate(p: Pos, v: Pos): Pos
  {
    Pos(p.x + v.x, p.y + v.y)
  }

  /** The cells of a run of three moves. */
  lemma ThreeMoves(p: Pos, a: Direction, b: Direction, c: Direction)
    ensures Walk(p, [a, b, c]) == Step(Step(Step(p, a), b), c)
    ensures Trace(p, [a, b, c]) == [p, Step(p, a), Step(Step(p, a), b), Step(Step(Step(p, a), b), c)]
  {
    assert [a, b, c] == [a] + [b] + [c];
    WalkVisitsConcat(p, [a] + [b], [c]);
    WalkVisitsConcat(p, [a], [b]);
    SingleMove(p, a);
    SingleMove(Step(p, a), b);
    SingleMove(Step(Step(p, a), b), c);
    TraceVisits(p, [a, b, c]);
  }

  /** Cutting a run at three moves: the cells of the whole run are those of the four pieces in turn. */
  lemma {:induction false} SplitSeven(p: Pos, h1: seq<Direction>, m1: Direction, h2: seq<Direction>,
                                      m2: Direction, h3: seq<Direction>, m3: Direction, h4: seq<Direction>)
    ensures var p2 := Step(Walk(p, h1), m1);
            var p3 := Step(Walk(p2, h2), m2);
            var p4 := Step(Walk(p3, h3), m3);
            Walk(p, h1 + [m1] + h2 + [m2] + h3 + [m3] + h4) == Walk(p4, h4)
            && Trace(p, h1 + [m1] + h2 + [m2] + h3 + [m3] + h4)
               == Trace(p, h1) + Trace(p2, h2) + Trace(p3, h3) + Trace(p4, h4)
  {
    var p2 := Step(Walk(p, h1), m1);
    var p3 := Step(Walk(p2, h2), m2);
    TraceJoin(p, h1, m1, h2);
    TraceJoin(p, h1 + [m1] + h2, m2, h3);
    TraceJoin(p, h1 + [m1] + h2 + [m2] + h3, m3, h4);
  }

  /** The moves of the level-`level` curve in orientation d split into its
      four sub-curves of the level below and the three connecting moves. */
  lemma {:induction false} HilbertSplit(level: nat, d: Direction, p: Pos)
    requires level >= 2 && d != None
    ensures var ds, cs := SubOrientations(d), Connectors(d);
            var h1, h2, h3, h4 := HilbertMoves(level - 1, ds.0), HilbertMoves(level - 1, ds.1),
                                  HilbertMoves(level - 1, ds.2), HilbertMoves(level - 1, ds.3);
            var p2 := Step(Walk(p, h1), cs.0);
            var p3 := Step(Walk(p2, h2), cs.1);
            var p4 := Step(Walk(p3, h3), cs.2);
            Walk(p, HilbertMoves(level, d)) == Walk(p4, h4)
            && Trace(p, HilbertMoves(level, d))
               == Trace(p, h1) + Trace(p2, h2) + Trace(p3, h3) + Trace(p4, h4)
  {
    var ds, cs := SubOrientations(d), Connectors(d);
    var h1, h2, h3, h4 := HilbertMoves(level - 1, ds.0), HilbertMoves(level - 1, ds.1),
                          HilbertMoves(level - 1, ds.2), HilbertMoves(level - 1, ds.3);
    HilbertRecursion(level, d);
    SplitSeven(p, h1, cs.0, h2, cs.1, h3, cs.2, h4);
  }

  /** Start cells of the second, third and fourth sub-curves of the
      level-`level` curve entered in orientation d at p. */
  function SubStarts(level: nat, d: Direction, p: Pos): (Pos, Pos, Pos)
    requires level >= 1
  {
    var s := Pow2(level - 1);
    match d
    case Up => (Pos(p.x, p.y + s), Pos(p.x + s, p.y + s), Pos(p.x + 2 * s - 1, p.y + s - 1))
    case Left => (Pos(p.x + s, p.y), Pos(p.x + s, p.y + s), Pos(p.x + s - 1, p.y + 2 * s - 1))
    case Right => (Pos(p.x - s, p.y), Pos(p.x - s, p.y - s), Pos(p.x - s + 1, p.y - 2 * s + 1))
    case Down => (Pos(p.x, p.y - s), Pos(p.x - s, p.y - s), Pos(p.x - 2 * s + 1, p.y - s + 1))
    case None => (p, p, p)
  }

  /** The curve of level L in orientation d ends at its start shifted by
      2^L - 1 along one axis: right for Up, down for Left, up for Right, left for Down. */
  lemma {:induction false} HilbertDisplacement(level: nat, d: Direction, p: Pos)
    requires level >= 1
    ensures Walk(p, HilbertMoves(level, d)) == Translate(p, Displacement(level, d))
    decreases level, 2
  {
    if level == 1 {
      var ms := HilbertMoves(1, d);
      if d != None {
        assert ms == [ms[0], ms[1], ms[2]];
        ThreeMoves(p, ms[0], ms[1], ms[2]);
      }
    } else if d != None {
      HilbertSplit(level, d, p);
      Quarters(level, d, p);
    }
  }

  /** The cell after a sub-curve and its connecting move, as a single fact. */
  lemma SubCurveEnd(level: nat, d: Direction, p: Pos, m: Direction, q: Pos)
    requires level >= 1
    requires q == Step(Translate(p, Displacement(level, d)), m)
    ensures Step(Walk(p, HilbertMoves(level, d)), m) == q
    decreases level, 3
  {
    HilbertDisplacement(level, d, p);
  }

  /** The sub-curve starts follow from the displacements of the sub-curves and the connecting moves. */
  lemma SubStartsMeet(level: nat, d: Direction, p: Pos)
    requires level >= 2 && d != None
    ensures var ds, cs, st := SubOrientations(d), Connectors(d), SubStarts(level, d, p);
            st.0 == Step(Translate(p, Displacement(level - 1, ds.0)), cs.0)
            && st.1 == Step(Translate(st.0, Displacement(level - 1, ds.1)), cs.1)
            && st.2 == Step(Translate(st.1, Displacement(level - 1, ds.2)), cs.2)
            && Translate(st.2, Displacement(level - 1, ds.3)) == Translate(p, Displacement(level, d))
  {
    assert Pow2(level) == 2 * Pow2(level - 1);
  }

  /** Each sub-curve of the level-`level` curve, followed by its connecting
      move, ends at the start of the next one, and the last one ends where the
      whole curve does. */
  lemma {:induction false} Quarters(level: nat, d: Direction, p: Pos)
    requires level >= 2 && d != None
    ensures var ds, cs, st := SubOrientations(d), Connectors(d), SubStarts(level, d, p);
            Step(Walk(p, HilbertMoves(level - 1, ds.0)), cs.0) == st.0
            && Step(Walk(st.0, HilbertMoves(level - 1, ds.1)), cs.1) == st.1
            && Step(Walk(st.1, HilbertMoves(level - 1, ds.2)), cs.2) == st.2
            && Walk(st.2, HilbertMoves(level - 1, ds.3)) == Translate(p, Displacement(level, d))
    decreases level, 1
  {
    var ds, cs, st := SubOrientations(d), Connectors(d), SubStarts(level, d, p);
    SubStartsMeet(level, d, p);
    assert Step(Walk(p, HilbertMoves(level - 1, ds.0)), cs.0) == st.0 by {
      SubCurveEnd(level - 1, ds.0, p, cs.0, st.0);
    }
    assert Step(Walk(st.0, HilbertMoves(level - 1, ds.1)), cs.1) == st.1 by {
      SubCurveEnd(level - 1, ds.1, st.0, cs.1, st.1);
    }
    assert Step(Walk(st.1, HilbertMoves(level - 1, ds.2)), cs.2) == st.2 by {
      SubCurveEnd(level - 1, ds.2, st.1, cs.2, st.2);
    }
    HilbertDisplacement(level - 1, ds.3, st.2);
  }

  /** The cells of the level-`level` curve entered in orientation d at p, in
      the order the curve visits them, written as the four sub-curves' cells
      at their starting cells; the level-0 curve is the single cell p. */
  function Cells(level: nat, d: Direction, p: Pos): (t: seq<Pos>)
    decreases level, 1
  {
    if level == 0 || d == None then [p] else QuarterCells(level, d, p)
  }

  /** The cells of the four sub-curves of the level-`level` curve, in turn. */
  function QuarterCells(level: nat, d: Direction, p: Pos): (t: seq<Pos>)
    requires level >= 1
    decreases level, 0
  {
    var ds, st := SubOrientations(d), SubStarts(level, d, p);
    Cells(level - 1, ds.0, p) + Cells(level - 1, ds.1, st.0)
    + Cells(level - 1, ds.2, st.1) + Cells(level - 1, ds.3, st.2)
  }

  /** One unfolding of Cells. */
  lemma CellsSplit(level: nat, d: Direction, p: Pos)
    requires level >= 1 && d != None
    ensures var ds, st := SubOrientations(d), SubStarts(level, d, p);
            Cells(level, d, p)
            == Cells(level - 1, ds.0, p) + Cells(level - 1, ds.1, st.0)
               + Cells(level - 1, ds.2, st.1) + Cells(level - 1, ds.3, st.2)
  {
    assert Cells(level, d, p) == QuarterCells(level, d, p);
  }

  /** The squares of the four sub-curves are the four quadrants of the square of the curve. */
  lemma QuadrantCorners(level: nat, d: Direction, p: Pos)
    requires level >= 1 && d != None
    ensures var ds, st := SubOrientations(d), SubStarts(level, d, p);
            QuadrantsOf(Corner(p, level - 1, ds.0), Corner(st.0, level - 1, ds.1),
                        Corner(st.1, level - 1, ds.2), Corner(st.2, level - 1, ds.3),
                        Corner(p, level, d), Pow2(level - 1))
  {
    assert Pow2(level) == 2 * Pow2(level - 1);
  }

  /** The cells of every curve fill its square, each exactly once. */
  lemma {:induction false} CellsTile(level: nat, d: Direction, p: Pos)
    requires d != None
    ensures Tiles(Cells(level, d, p), Corner(p, level, d), Pow2(level))
    decreases level
  {
    if level == 0 {
      var t := Cells(0, d, p);
      forall q | InSquare(q, p, 1) ensures q in t {
        assert q == p;
      }
    } else {
      var k := level - 1;
      forall e, q | e != None
        ensures Tiles(Cells(k, e, q), Corner(q, k, e), Pow2(k))
      {
        CellsTile(k, e, q);
      }
      TilesQuarters(level, d, p);
    }
  }

  /** At level k, the cells of every curve tile its square. */
  ghost predicate TiledLevel(k: nat)
  {
    forall e, q :: e != None ==> Tiles(Cells(k, e, q), Corner(q, k, e), Pow2(k))
  }

  /** If the curves of the level below tile their squares, the four sub-curves tile the quadrants. */
  lemma TilesQuarters(level: nat, d: Direction, p: Pos)
    requires level >= 1 && d != None
    requires TiledLevel(level - 1)
    ensures Tiles(Cells(level, d, p), Corner(p, level, d), Pow2(level))
  {
    var ds, st := SubOrientations(d), SubStarts(level, d, p);
    var t1, t2 := Cells(level - 1, ds.0, p), Cells(level - 1, ds.1, st.0);
    var t3, t4 := Cells(level - 1, ds.2, st.1), Cells(level - 1, ds.3, st.2);
    CellsSplit(level, d, p);
    QuadrantCorners(level, d, p);
    assert Pow2(level) == 2 * Pow2(level - 1);
    Assemble(t1, t2, t3, t4, Corner(p, level - 1, ds.0), Corner(st.0, level - 1, ds.1),
             Corner(st.1, level - 1, ds.2), Corner(st.2, level - 1, ds.3),
             Corner(p, level, d), Pow2(level - 1));
  }

  /** The cells the move sequence passes through are the reference cells, in order. */
  lemma {:induction false} TraceIsCells(level: nat, d: Direction, p: Pos)
    requires level >= 1 && d != None
    ensures Trace(p, HilbertMoves(level, d)) == Cells(level, d, p)
    decreases level
  {
    if level == 1 {
      TraceFirstLevel(d, p);
    } else {
      var k := level - 1;
      forall e, q | e != None
        ensures Trace(q, HilbertMoves(k, e)) == Cells(k, e, q)
      {
        TraceIsCells(k, e, q);
      }
      TraceQuarters(level, d, p);
    }
  }

  /** The three moves of a level-one curve pass through its four reference cells. */
  lemma TraceFirstLevel(d: Direction, p: Pos)
    requires d != None
    ensures Trace(p, HilbertMoves(1, d)) == Cells(1, d, p)
  {
    var ms := HilbertMoves(1, d);
    assert ms == [ms[0], ms[1], ms[2]];
    ThreeMoves(p, ms[0], ms[1], ms[2]);
    assert Pow2(0) == 1;
  }

  /** At level k, the moves of every curve pass through its reference cells. */
  ghost predicate TracedLevel(k: nat)
  {
    k >= 1 && forall e, q :: e != None ==> Trace(q, HilbertMoves(k, e)) == Cells(k, e, q)
  }

  /** If each sub-curve's moves pass through its reference cells, so do the whole curve's. */
  lemma TraceQuarters(level: nat, d: Direction, p: Pos)
    requires level >= 2 && d != None
    requires TracedLevel(level - 1)
    ensures Trace(p, HilbertMoves(level, d)) == Cells(level, d, p)
  {
    HilbertSplit(level, d, p);
    Quarters(level, d, p);
    CellsSplit(level, d, p);
  }

  /** The level-L curve entered up at the top-left pixel visits every cell of
      the 2^L x 2^L square below and to the right of it exactly once, in
      4^L - 1 moves. */
  lemma CurveFillsSquare(level: nat)
    requires level >= 1
    ensures Tiles(Trace(Origin, HilbertMoves(level, Up)), Origin, Pow2(level))
    ensures |Trace(Origin, HilbertMoves(level, Up))| == Pow4(level)
  {
    TraceIsCells(level, Up, Origin);
    CellsTile(level, Up, Origin);
    TraceVisits(Origin, HilbertMoves(level, Up));
  }

  /** A final move None handles the cell where the moves before it stop: the
      cells handled by ms followed by None are all the cells the moves ms pass through. */
  lemma VisitsThenStop(p: Pos, ms: seq<Direction>)
    ensures Visits(p, ms + [None]) == Trace(p, ms)
    ensures Walk(p, ms + [None]) == Walk(p, ms)
  {
    WalkVisitsConcat(p, ms, [None]);
    SingleMove(Walk(p, ms), None);
    TraceVisits(p, ms);
  }
}
