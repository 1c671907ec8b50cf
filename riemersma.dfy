/** The Riemersma ditherer object: it owns the bitmap of a greyscale image
    and, on its first request, walks a Hilbert curve over the image, turning
    each pixel black or white by error diffusion, in place. */
module RiemersmaDitherer {
  import opened Squares
  import opened HilbertCurve
  import opened Pixels
  import opened ErrorWindow
  import opened DitherRun

  class Riemersma {
    /** The RGBA bitmap, rows of `width` pixels, four bytes per pixel. */
    const imageData: array<byte>
    const width: nat
    const height: nat
    /** The ratio between successive weights, exp(log 8 / 47) in the source. */
    const ramp: real

    var dithered: bool
    var currentPosition: Pos
    var weights: seq<real>
    var errors: seq<real>

    /** The sizes every operation relies on. */
    ghost predicate Consistent()
      reads this
    {
      ImageBytes(Setting(width, height, weights)) <= imageData.Length
      && |weights| == WindowSize && |errors| == WindowSize
    }

    /** Between calls: before the image is dithered, the cursor is at the
        top-left pixel and the error window is empty; once it is dithered,
        every pixel of the image is black or white. */
    ghost predicate Valid()
      reads this, imageData
    {
      Consistent()
      && (!dithered ==> currentPosition == Origin && errors == Zeros())
      && (dithered ==> forall c :: InImage(Config(), c) ==> BinaryAt(Config(), imageData[..], c))
    }

    /** The image size and the weights in force. */
    ghost function Config(): Setting
      reads this
    {
      Setting(width, height, weights)
    }

    /** The bitmap, the cursor and the error window. */
    ghost function State(): Snapshot
      reads this, imageData
    {
      Snapshot(imageData[..], currentPosition, errors)
    }

    constructor(data: array<byte>, width: nat, height: nat, ramp: real)
      requires 4 * width * height <= data.Length
      ensures imageData == data && this.width == width && this.height == height
      ensures this.ramp == ramp
      ensures !dithered && currentPosition == Origin
      ensures weights == Zeros() && errors == Zeros()
      ensures Valid()
    {
      imageData := data;
      this.width := width;
      this.height := height;
      this.ramp := ramp;
      dithered := false;
      currentPosition := Origin;
      weights := Zeros();
      errors := Zeros();
    }

    /** getDitheredImage: dithers the bitmap in place on the first call and
        returns it; later calls return it untouched. */
    method GetDitheredImage() returns (data: array<byte>)
      requires Valid() && (width >= 1 || height >= 1)
      modifies this, imageData
      ensures Valid() && dithered && data == imageData
      ensures old(dithered) ==> State() == old(State()) && weights == old(weights)
      ensures !old(dithered) ==> weights == Weights(ramp)
      ensures !old(dithered) ==> State() == RunMoves(Config(), old(State()), DitherMoves(Config()))
      ensures !old(dithered) ==> imageData[..] == DitheredData(Config(), old(imageData[..]))
      ensures forall c :: InImage(Config(), c) ==> BinaryAt(Config(), imageData[..], c)
    {
      if dithered {
        return imageData;
      }
      InitWeights();
      ghost var s0 := State();
      var size := if width >= height then width else height;
      var level := FloorLog2(size);
      if Pow2(level) < size {
        level := level + 1;
      }
      assert level == CurveLevel(LongerSide(Config()));
      if level > 0 {
        Hilbert(level, Up);
        assert State() == RunMoves(Config(), s0, HilbertMoves(level, Up));
        RunConcat(Config(), s0, HilbertMoves(level, Up), [None]);
      }
      ghost var s1 := State();
      Move(None);
      RunOne(Config(), s1, None);
      if level == 0 {
        assert DitherMoves(Config()) == [None];
      }
      DitheredImageIsBinary(Config(), s0.data);
      dithered := true;
      data := imageData;
    }

    /** initWeights: weights[i] := m^i + 0.5 for i = 0 .. WindowSize - 1. */
    method InitWeights()
      requires Consistent()
      modifies this
      ensures Consistent()
      ensures weights == Weights(ramp)
      ensures errors == old(errors) && currentPosition == old(currentPosition)
      ensures dithered == old(dithered)
    {
      var m := ramp;
      var v := 1.0;
      var i := 0;
      while i < WindowSize
        invariant 0 <= i <= WindowSize && |weights| == WindowSize
        invariant v == Pow(m, i)
        invariant forall k :: 0 <= k < i ==> weights[k] == Pow(m, k) + 0.5
        invariant errors == old(errors) && currentPosition == old(currentPosition)
        invariant dithered == old(dithered)
      {
        weights := weights[i := v + 0.5];
        v := v * m;
        i := i + 1;
      }
    }

    /** getLuminance: the red byte of the pixel over 255. */
    method GetLuminance(pixel: Pos) returns (luminance: real)
      requires Consistent() && InImage(Config(), pixel)
      ensures luminance == LuminanceAt(Config(), imageData[..], pixel)
      ensures 0.0 <= luminance <= 1.0
    {
      var pixelInfo := (width * pixel.y + pixel.x) * 4;
      assert pixelInfo == OffsetOf(Config(), pixel);
      luminance := imageData[pixelInfo] as real / 255.0;
    }

    /** saveLuminance: the pixel becomes the grey level luminance * 255 (truncated), opaque. */
    method SaveLuminance(luminance: real, pixel: Pos)
      requires Consistent() && InImage(Config(), pixel)
      requires -1.0 < luminance * 255.0 < 256.0
      modifies imageData
      ensures imageData[..] == WritePixel(old(imageData[..]), OffsetOf(Config(), pixel), LuminanceByte(luminance))
    {
      var pixelInfo := (width * pixel.y + pixel.x) * 4;
      assert pixelInfo == OffsetOf(Config(), pixel);
      imageData[pixelInfo] := LuminanceByte(luminance);
      imageData[pixelInfo + 1] := LuminanceByte(luminance);
      imageData[pixelInfo + 2] := LuminanceByte(luminance);
      imageData[pixelInfo + 3] := 255;
    }

    /** dither: corrects the luminance by the weighted window of past errors,
        thresholds it, and records the error made as the newest window entry. */
    method Dither(luminance: real) returns (newLuminance: real)
      requires Consistent()
      modifies this
      ensures Consistent()
      ensures newLuminance == 0.0 || newLuminance == 1.0
      ensures newLuminance == 1.0 <==>
        luminance + WeightedSum(old(errors), weights, WindowSize) / WeightDiff as real >= 0.5
      ensures newLuminance == DitherValue(luminance, old(errors), weights)
      ensures errors == Shift(old(errors), luminance - newLuminance)
      ensures weights == old(weights) && currentPosition == old(currentPosition)
      ensures dithered == old(dithered)
    {
      var error := 0.0;
      var i := 0;
      while i < WindowSize
        invariant 0 <= i <= WindowSize
        invariant error == WeightedSum(errors, weights, i)
      {
        error := error + errors[i] * weights[i];
        i := i + 1;
      }
      newLuminance := luminance + error / WeightDiff as real;
      newLuminance := if newLuminance >= 0.5 then 1.0 else 0.0;
      errors := errors[1..] + [luminance - newLuminance];
    }

    /** move(to:): handles the pixel under the cursor if it is in the image,
        then moves the cursor one cell in the given direction. */
    method Move(direction: Direction)
      requires Consistent()
      modifies this, imageData
      ensures Consistent()
      ensures Config() == old(Config()) && dithered == old(dithered)
      ensures State() == MoveSpec(Config(), old(State()), direction)
    {
      ghost var handled := HandleCell(Config(), State());
      if 0 <= currentPosition.x < width && 0 <= currentPosition.y < height {
        var luminance := GetLuminance(currentPosition);
        luminance := Dither(luminance);
        SaveLuminance(luminance, currentPosition);
      }
      assert imageData[..] == handled.data && errors == handled.errors;
      match direction
      case Left => currentPosition := Pos(currentPosition.x - 1, currentPosition.y);
      case Right => currentPosition := Pos(currentPosition.x + 1, currentPosition.y);
      case Up => currentPosition := Pos(currentPosition.x, currentPosition.y - 1);
      case Down => currentPosition := Pos(currentPosition.x, currentPosition.y + 1);
      case None =>
    }

    /** hilbert: the moves of the curve of the given level and orientation. */
    method Hilbert(level: nat, direction: Direction)
      requires Consistent() && level >= 1
      modifies this, imageData
      ensures Consistent()
      ensures Config() == old(Config()) && dithered == old(dithered)
      ensures CurveRan(Config(), old(State()), State(), level, direction)
      decreases level
    {
      ghost var cfg := Config();
      ghost var s := State();
      if level == 1 {
        match direction
        case Left =>
          Move(Right);
          ghost var a1 := State();
          Move(Down);
          ghost var a2 := State();
          Move(Left);
          FirstLevelRun(cfg, s, Left, a1, a2, State());
        case Right =>
          Move(Left);
          ghost var a1 := State();
          Move(Up);
          ghost var a2 := State();
          Move(Right);
          FirstLevelRun(cfg, s, Right, a1, a2, State());
        case Up =>
          Move(Down);
          ghost var a1 := State();
          Move(Right);
          ghost var a2 := State();
          Move(Up);
          FirstLevelRun(cfg, s, Up, a1, a2, State());
        case Down =>
          Move(Up);
          ghost var a1 := State();
          Move(Left);
          ghost var a2 := State();
          Move(Down);
          FirstLevelRun(cfg, s, Down, a1, a2, State());
        case None =>
          NoneCurveRun(cfg, s, level);
      } else {
        match direction
        case Left =>
          Hilbert(level - 1, Up);
          ghost var a1 := State();
          Move(Right);
          ghost var a2 := State();
          Hilbert(level - 1, Left);
          ghost var a3 := State();
          Move(Down);
          ghost var a4 := State();
          Hilbert(level - 1, Left);
          ghost var a5 := State();
          Move(Left);
          ghost var a6 := State();
          Hilbert(level - 1, Down);
          CurveRunSteps(cfg, s, level, Left, a1, a2, a3, a4, a5, a6, State());
        case Right =>
          Hilbert(level - 1, Down);
          ghost var a1 := State();
          Move(Left);
          ghost var a2 := State();
          Hilbert(level - 1, Right);
          ghost var a3 := State();
          Move(Up);
          ghost var a4 := State();
          Hilbert(level - 1, Right);
          ghost var a5 := State();
          Move(Right);
          ghost var a6 := State();
          Hilbert(level - 1, Up);
          CurveRunSteps(cfg, s, level, Right, a1, a2, a3, a4, a5, a6, State());
        case Up =>
          Hilbert(level - 1, Left);
          ghost var a1 := State();
          Move(Down);
          ghost var a2 := State();
          Hilbert(level - 1, Up);
          ghost var a3 := State();
          Move(Right);
          ghost var a4 := State();
          Hilbert(level - 1, Up);
          ghost var a5 := State();
          Move(Up);
          ghost var a6 := State();
          Hilbert(level - 1, Right);
          CurveRunSteps(cfg, s, level, Up, a1, a2, a3, a4, a5, a6, State());
        case Down =>
          Hilbert(level - 1, Right);
          ghost var a1 := State();
          Move(Up);
          ghost var a2 := State();
          Hilbert(level - 1, Down);
          ghost var a3 := State();
          Move(Left);
          ghost var a4 := State();
          Hilbert(level - 1, Down);
          ghost var a5 := State();
          Move(Down);
          ghost var a6 := State();
          Hilbert(level - 1, Left);
          CurveRunSteps(cfg, s, level, Down, a1, a2, a3, a4, a5, a6, State());
        case None =>
          NoneCurveRun(cfg, s, level);
      }
    }
  }
}
