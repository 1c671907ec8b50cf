/** What one run of the Riemersma ditherer does to the bitmap, written as
    functions of a snapshot of its state: the cell handled at each move, the
    moves getDitheredImage makes, and the facts that follow: each pixel of
    the image is handled exactly once and ends black or white, and nothing
    outside the image changes. */
module DitherRun {
  import opened Squares
  import opened HilbertCurve
  import opened Pixels
  import opened ErrorWindow

  /** What stays fixed during a run: the image size in pixels and the weight ramp. */
  datatype Setting = Setting(width: nat, height: nat, weights: seq<real>)

  /** What a run changes: the bitmap, the cursor and the error window. */
  datatype Snapshot = Snapshot(data: seq<byte>, pos: Pos, errors: seq<real>)

  /** The cell c is a pixel of the image. */
  predicate InImage(cfg: Setting, c: Pos)
  {
    0 <= c.x < cfg.width && 0 <= c.y < cfg.height
  }

  /** Number of bytes the image's pixels occupy. */
  function ImageBytes(cfg: Setting): nat
  {
    4 * cfg.width * cfg.height
  }

  /** Offset of the red byte of the pixel at c; a pixel of the image has its
      four bytes within the image's bytes. */
  function OffsetOf(cfg: Setting, c: Pos): (o: int)
    ensures InImage(cfg, c) ==> 0 <= o && o + 4 <= ImageBytes(cfg)
  {
    if InImage(cfg, c) then PixelInBitmap(cfg.width, cfg.height, c.x, c.y); PixelOffset(cfg.width, c.x, c.y)
    else PixelOffset(cfg.width, c.x, c.y)
  }

  /** The bitmap holds the image, and the ramp and the window have WindowSize entries. */
  predicate WellFormed(cfg: Setting, s: Snapshot)
  {
    ImageBytes(cfg) <= |s.data| && |cfg.weights| == WindowSize && |s.errors| == WindowSize
  }

  /** The luminance getLuminance reads for the pixel at c: its red byte over 255. */
  function LuminanceAt(cfg: Setting, data: seq<byte>, c: Pos): (r: real)
    requires InImage(cfg, c) && ImageBytes(cfg) <= |data|
    ensures 0.0 <= r <= 1.0
    ensures OffsetOf(cfg, c) == PixelOffset(cfg.width, c.x, c.y) && OffsetOf(cfg, c) + 4 <= |data|
    ensures var v := GetPixelLuminance(data, cfg.width, c.x, c.y); v.Ok? ==> r == v.value
  {
    data[OffsetOf(cfg, c)] as real / 255.0
  }

  /** The cell under the cursor is handled: a pixel of the image is dithered,
      written back grey and opaque, and its error enters the window; a cell
      outside the image is skipped. */
  function HandleCell(cfg: Setting, s: Snapshot): (t: Snapshot)
    requires WellFormed(cfg, s)
    ensures WellFormed(cfg, t) && |t.data| == |s.data| && t.pos == s.pos
  {
    if InImage(cfg, s.pos) then
      var o := OffsetOf(cfg, s.pos);
      var luminance := LuminanceAt(cfg, s.data, s.pos);
      var v := DitherValue(luminance, s.errors, cfg.weights);
      Snapshot(WritePixel(s.data, o, LuminanceByte(v)), s.pos, Shift(s.errors, luminance - v))
    else
      s
  }

  /** move(to:): handle the cell under the cursor, then step in direction d. */
  function MoveSpec(cfg: Setting, s: Snapshot, d: Direction): (t: Snapshot)
    requires WellFormed(cfg, s)
    ensures WellFormed(cfg, t) && |t.data| == |s.data|
    ensures t.pos == Step(s.pos, d)
  {
    var h := HandleCell(cfg, s);
    Snapshot(h.data, Step(s.pos, d), h.errors)
  }

  /** The moves ms made one after the other. */
  function RunMoves(cfg: Setting, s: Snapshot, ms: seq<Direction>): (t: Snapshot)
    requires WellFormed(cfg, s)
    ensures WellFormed(cfg, t) && |t.data| == |s.data|
    ensures t.pos == Walk(s.pos, ms)
    decreases |ms|
  {
    if ms == [] then s else RunMoves(cfg, MoveSpec(cfg, s, ms[0]), ms[1..])
  }

  /** Outside the image a move only steps: neither the bitmap nor the window changes. */
  lemma MoveOutsideImage(cfg: Setting, s: Snapshot, d: Direction)
    requires WellFormed(cfg, s) && !InImage(cfg, s.pos)
    ensures MoveSpec(cfg, s, d) == Snapshot(s.data, Step(s.pos, d), s.errors)
  {
  }

  /** Inside the image a move turns the pixel under the cursor black or white
      (opaque, all three colour bytes equal), records the error it made as the
      newest entry of the window, and changes no other byte. */
  lemma MoveInsideImage(cfg: Setting, s: Snapshot, d: Direction)
    requires WellFormed(cfg, s) && InImage(cfg, s.pos)
    ensures var t, o := MoveSpec(cfg, s, d), OffsetOf(cfg, s.pos);
            0 <= o && o + 3 < |t.data| && IsBinaryPixel(t.data, o)
            && (t.data[o] == 255 <==>
                  LuminanceAt(cfg, s.data, s.pos)
                  + WeightedSum(s.errors, cfg.weights, WindowSize) / WeightDiff as real >= 0.5)
            && (forall j :: 0 <= j < |s.data| && !(o <= j < o + 4) ==> t.data[j] == s.data[j])
            && t.errors[..WindowSize - 1] == s.errors[1..]
            && t.errors[WindowSize - 1] == LuminanceAt(cfg, s.data, s.pos) - t.data[o] as real / 255.0
  {
  }

  /** A run of the moves a followed by the moves b is the run of a, then the run of b. */
  lemma {:induction false} RunConcat(cfg: Setting, s: Snapshot, a: seq<Direction>, b: seq<Direction>)
    requires WellFormed(cfg, s)
    ensures RunMoves(cfg, s, a + b) == RunMoves(cfg, RunMoves(cfg, s, a), b)
    decreases |a|
  {
    if a == [] {
      assert a + b == b;
    } else {
      assert (a + b)[0] == a[0] && (a + b)[1..] == a[1..] + b;
      RunConcat(cfg, MoveSpec(cfg, s, a[0]), a[1..], b);
    }
  }

  lemma RunOne(cfg: Setting, s: Snapshot, m: Direction)
    requires WellFormed(cfg, s)
    ensures RunMoves(cfg, s, [m]) == MoveSpec(cfg, s, m)
  {
    assert [m][1..] == [];
  }

  /** The run of three moves, as the level-one curve makes them. */
  lemma RunThree(cfg: Setting, s: Snapshot, a: Direction, b: Direction, c: Direction)
    requires WellFormed(cfg, s)
    ensures RunMoves(cfg, s, [a, b, c])
            == MoveSpec(cfg, MoveSpec(cfg, MoveSpec(cfg, s, a), b), c)
  {
    assert [a, b, c][1..] == [b, c] && [b, c][1..] == [c];
    RunOne(cfg, MoveSpec(cfg, MoveSpec(cfg, s, a), b), c);
  }

  /** The run of four sub-curves and three connecting moves is the runs of the pieces in turn. */
  lemma RunSeven(cfg: Setting, s: Snapshot, h1: seq<Direction>, m1: Direction, h2: seq<Direction>,
                 m2: Direction, h3: seq<Direction>, m3: Direction, h4: seq<Direction>)
    requires WellFormed(cfg, s)
    ensures var s1 := MoveSpec(cfg, RunMoves(cfg, s, h1), m1);
            var s2 := MoveSpec(cfg, RunMoves(cfg, s1, h2), m2);
            var s3 := MoveSpec(cfg, RunMoves(cfg, s2, h3), m3);
            RunMoves(cfg, s, h1 + [m1] + h2 + [m2] + h3 + [m3] + h4) == RunMoves(cfg, s3, h4)
  {
    RunJoin(cfg, s, h1, m1, h2);
    RunJoin(cfg, s, h1 + [m1] + h2, m2, h3);
    RunJoin(cfg, s, h1 + [m1] + h2 + [m2] + h3, m3, h4);
  }

  lemma RunJoin(cfg: Setting, s: Snapshot, a: seq<Direction>, m: Direction, b: seq<Direction>)
    requires WellFormed(cfg, s)
    ensures RunMoves(cfg, s, a + [m] + b) == RunMoves(cfg, MoveSpec(cfg, RunMoves(cfg, s, a), m), b)
  {
    RunConcat(cfg, s, a + [m], b);
    RunConcat(cfg, s, a, [m]);
    RunOne(cfg, RunMoves(cfg, s, a), m);
  }

  /** The run of the level-`level` curve is the runs of its four sub-curves
      joined by the three connecting moves, by the rotation table. */
  lemma CurveRun(cfg: Setting, s: Snapshot, level: nat, d: Direction)
    requires WellFormed(cfg, s) && level >= 2 && d != None
    ensures var ds, cs := SubOrientations(d), Connectors(d);
            var s1 := MoveSpec(cfg, RunMoves(cfg, s, HilbertMoves(level - 1, ds.0)), cs.0);
            var s2 := MoveSpec(cfg, RunMoves(cfg, s1, HilbertMoves(level - 1, ds.1)), cs.1);
            var s3 := MoveSpec(cfg, RunMoves(cfg, s2, HilbertMoves(level - 1, ds.2)), cs.2);
            RunMoves(cfg, s, HilbertMoves(level, d)) == RunMoves(cfg, s3, HilbertMoves(level - 1, ds.3))
  {
    var ds, cs := SubOrientations(d), Connectors(d);
    HilbertRecursion(level, d);
    RunSeven(cfg, s, HilbertMoves(level - 1, ds.0), cs.0, HilbertMoves(level - 1, ds.1), cs.1,
             HilbertMoves(level - 1, ds.2), cs.2, HilbertMoves(level - 1, ds.3));
  }

  /** t is where the run of the level-`level` curve in orientation d leads
      from s. The equation sits under a quantifier over the level so that the
      recursive definitions are unfolded only where a proof names the run. */
  ghost predicate CurveRan(cfg: Setting, s: Snapshot, t: Snapshot, level: nat, d: Direction)
  {
    level >= 1 && WellFormed(cfg, s)
    && forall k: nat {:trigger HilbertMoves(k, d)} :: k == level ==> t == RunMoves(cfg, s, HilbertMoves(k, d))
  }

  /** The three moves of the level-one curve in orientation d, made one at a
      time through a1 and a2, run the level-one curve. */
  lemma FirstLevelRun(cfg: Setting, s: Snapshot, d: Direction, a1: Snapshot, a2: Snapshot, a3: Snapshot)
    requires WellFormed(cfg, s)
    requires a1 == MoveSpec(cfg, s, Connectors(d).0)
    requires WellFormed(cfg, a1) && a2 == MoveSpec(cfg, a1, Connectors(d).1)
    requires WellFormed(cfg, a2) && a3 == MoveSpec(cfg, a2, Connectors(d).2)
    requires d != None
    ensures CurveRan(cfg, s, a3, 1, d)
  {
    var cs := Connectors(d);
    assert HilbertMoves(1, d) == [cs.0, cs.1, cs.2];
    RunThree(cfg, s, cs.0, cs.1, cs.2);
  }

  /** The four sub-curves and three connecting moves of the level-`level`
      curve in orientation d, made one piece at a time through a1 .. a6, run
      the whole curve. */
  lemma CurveRunSteps(cfg: Setting, s: Snapshot, level: nat, d: Direction,
                      a1: Snapshot, a2: Snapshot, a3: Snapshot, a4: Snapshot,
                      a5: Snapshot, a6: Snapshot, a7: Snapshot)
    requires level >= 2 && d != None
    requires CurveRan(cfg, s, a1, level - 1, SubOrientations(d).0)
    requires WellFormed(cfg, a1) && a2 == MoveSpec(cfg, a1, Connectors(d).0)
    requires CurveRan(cfg, a2, a3, level - 1, SubOrientations(d).1)
    requires WellFormed(cfg, a3) && a4 == MoveSpec(cfg, a3, Connectors(d).1)
    requires CurveRan(cfg, a4, a5, level - 1, SubOrientations(d).2)
    requires WellFormed(cfg, a5) && a6 == MoveSpec(cfg, a5, Connectors(d).2)
    requires CurveRan(cfg, a6, a7, level - 1, SubOrientations(d).3)
    ensures CurveRan(cfg, s, a7, level, d)
  {
    var ds := SubOrientations(d);
    assert a1 == RunMoves(cfg, s, HilbertMoves(level - 1, ds.0));
    assert a3 == RunMoves(cfg, a2, HilbertMoves(level - 1, ds.1));
    assert a5 == RunMoves(cfg, a4, HilbertMoves(level - 1, ds.2));
    assert a7 == RunMoves(cfg, a6, HilbertMoves(level - 1, ds.3));
    CurveRun(cfg, s, level, d);
  }

  /** A curve in orientation None makes no move. */
  lemma NoneCurveRun(cfg: Setting, s: Snapshot, level: nat)
    requires WellFormed(cfg, s) && level >= 1
    ensures CurveRan(cfg, s, s, level, None)
  {
  }

  /** The pixel at c is inside the bitmap, opaque, and black or white. */
  predicate BinaryAt(cfg: Setting, data: seq<byte>, c: Pos)
  {
    var o := OffsetOf(cfg, c);
    0 <= o && o + 3 < |data| && IsBinaryPixel(data, o)
  }

  /** The four bytes of the pixel at c are the same in a and b. */
  predicate SamePixelAt(cfg: Setting, a: seq<byte>, b: seq<byte>, c: Pos)
  {
    var o := OffsetOf(cfg, c);
    0 <= o && o + 3 < |a| && o + 3 < |b|
    && a[o] == b[o] && a[o + 1] == b[o + 1] && a[o + 2] == b[o + 2] && a[o + 3] == b[o + 3]
  }

  /** What a run that handles the cells `handled` does to the bitmap `before`,
      leaving `after`: the pixels of the image it handles are black or white,
      the other pixels of the image and all bytes past the image are unchanged. */
  ghost predicate Dithered(cfg: Setting, before: seq<byte>, after: seq<byte>, handled: seq<Pos>)
  {
    |after| == |before|
    && (forall j :: ImageBytes(cfg) <= j < |before| ==> after[j] == before[j])
    && (forall c :: InImage(cfg, c) && c in handled ==> BinaryAt(cfg, after, c))
    && (forall c :: InImage(cfg, c) && c !in handled ==> SamePixelAt(cfg, before, after, c))
  }

  /** Handling one cell dithers that cell and nothing else. */
  lemma HandleCellDithers(cfg: Setting, s: Snapshot)
    requires WellFormed(cfg, s)
    ensures Dithered(cfg, s.data, HandleCell(cfg, s).data, [s.pos])
  {
    var t := HandleCell(cfg, s);
    if InImage(cfg, s.pos) {
      forall c | InImage(cfg, c) && c !in [s.pos]
        ensures SamePixelAt(cfg, s.data, t.data, c)
      {
        PixelsApart(cfg.width, c.x, c.y, s.pos.x, s.pos.y);
      }
    }
  }

  /** Two runs in turn dither the cells handled by either. */
  lemma DitheredCompose(cfg: Setting, a: seq<byte>, b: seq<byte>, c: seq<byte>,
                        h1: seq<Pos>, h2: seq<Pos>)
    requires ImageBytes(cfg) <= |a|
    requires Dithered(cfg, a, b, h1) && Dithered(cfg, b, c, h2)
    ensures Dithered(cfg, a, c, h1 + h2)
  {
    forall q | InImage(cfg, q) && q in h1 + h2
      ensures BinaryAt(cfg, c, q)
    {
      if q !in h2 {
        assert BinaryAt(cfg, b, q);
        assert SamePixelAt(cfg, b, c, q);
      }
    }
    forall q | InImage(cfg, q) && q !in h1 + h2
      ensures SamePixelAt(cfg, a, c, q)
    {
      assert SamePixelAt(cfg, a, b, q) && SamePixelAt(cfg, b, c, q);
    }
  }

  /** A run of moves dithers exactly the cells it handles. */
  lemma {:induction false} RunDithers(cfg: Setting, s: Snapshot, ms: seq<Direction>)
    requires WellFormed(cfg, s)
    ensures Dithered(cfg, s.data, RunMoves(cfg, s, ms).data, Visits(s.pos, ms))
    decreases |ms|
  {
    if ms != [] {
      var s1 := MoveSpec(cfg, s, ms[0]);
      HandleCellDithers(cfg, s);
      RunDithers(cfg, s1, ms[1..]);
      DitheredCompose(cfg, s.data, s1.data, RunMoves(cfg, s1, ms[1..]).data,
                      [s.pos], Visits(s1.pos, ms[1..]));
    }
  }

  /** The longer side of the image. */
  function LongerSide(cfg: Setting): nat
  {
    if cfg.width >= cfg.height then cfg.width else cfg.height
  }

  /** The moves getDitheredImage makes: the curve of the least level whose
      square holds the image, entered up at the top-left pixel, if that level
      is positive, then a final move None that handles the last cell. */
  function DitherMoves(cfg: Setting): (ms: seq<Direction>)
    requires LongerSide(cfg) >= 1
    ensures |ms| == Pow4(CurveLevel(LongerSide(cfg)))
    ensures ms[|ms| - 1] == None && None !in ms[..|ms| - 1]
  {
    var level := CurveLevel(LongerSide(cfg));
    if level > 0 then HilbertMoves(level, Up) + [None] else [None]
  }

  /** getDitheredImage handles every pixel of the image, and no cell twice. */
  lemma EveryPixelOnce(cfg: Setting)
    requires LongerSide(cfg) >= 1
    ensures Distinct(Visits(Origin, DitherMoves(cfg)))
    ensures forall c :: InImage(cfg, c) ==> c in Visits(Origin, DitherMoves(cfg))
  {
    var level := CurveLevel(LongerSide(cfg));
    var v := Visits(Origin, DitherMoves(cfg));
    if level > 0 {
      CurveFillsSquare(level);
      VisitsThenStop(Origin, HilbertMoves(level, Up));
      forall c | InImage(cfg, c) ensures c in v {
        assert InSquare(c, Origin, Pow2(level));
      }
    } else {
      assert v == [Origin] by {
        VisitsThenStop(Origin, []);
        assert [] + [None] == [None];
      }
    }
  }

  /** The bitmap after getDitheredImage, starting from the top-left pixel
      with an empty (all-zero) error window. */
  function DitheredData(cfg: Setting, data: seq<byte>): (r: seq<byte>)
    requires LongerSide(cfg) >= 1 && |cfg.weights| == WindowSize && ImageBytes(cfg) <= |data|
    ensures |r| == |data|
  {
    RunMoves(cfg, Snapshot(data, Origin, Zeros()), DitherMoves(cfg)).data
  }

  /** After dithering, every pixel of the image is opaque and black or white,
      and every byte past the image is as it was. */
  lemma DitheredImageIsBinary(cfg: Setting, data: seq<byte>)
    requires LongerSide(cfg) >= 1 && |cfg.weights| == WindowSize && ImageBytes(cfg) <= |data|
    ensures forall c :: InImage(cfg, c) ==> BinaryAt(cfg, DitheredData(cfg, data), c)
    ensures forall j :: ImageBytes(cfg) <= j < |data| ==> DitheredData(cfg, data)[j] == data[j]
  {
    RunDithers(cfg, Snapshot(data, Origin, Zeros()), DitherMoves(cfg));
    EveryPixelOnce(cfg);
  }

  /** The dithered bitmap passes the luminance validator at every pixel of the
      image, with luminance exactly 0 or 1. */
  lemma DitheredImageValidates(cfg: Setting, data: seq<byte>, c: Pos)
    requires LongerSide(cfg) >= 1 && |cfg.weights| == WindowSize && ImageBytes(cfg) <= |data|
    requires InImage(cfg, c)
    ensures BinaryAt(cfg, DitheredData(cfg, data), c)
    ensures var r := GetPixelLuminance(DitheredData(cfg, data), cfg.width, c.x, c.y);
            r == Ok(0.0) || r == Ok(1.0)
  {
    DitheredImageIsBinary(cfg, data);
    BinaryPixelLuminance(DitheredData(cfg, data), cfg.width, c.x, c.y);
  }
}
