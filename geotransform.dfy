/**
  The six-coefficient affine geotransform of a raster and the conversions between
  pixel coordinates (column, row) and world coordinates.

  A transform `g` maps pixel (x, y) to world
      (g[0] + x*g[1] + y*g[2],  g[3] + x*g[4] + y*g[5]).
  Coordinates are exact reals; IEEE rounding is not modelled. The only IEEE effect
  kept is that a division by zero yields a non-finite value (`NonFinite`).
*/
module GeoTransform {

  /** |det| below this value makes `InvertGeoTransform` return without writing. */
  const SingularThreshold: real := 0.000000000000001

  /** A pixel coordinate as a double: a finite value, or an infinity/NaN produced by dividing by zero. */
  datatype PixelCoord = Finite(v: real) | NonFinite

  function Abs(x: real): real
  {
    if x < 0.0 then -x else x
  }

  function Det(g: seq<real>): real
    requires |g| == 6
  {
    g[1] * g[5] - g[2] * g[4]
  }

  predicate IsSingular(g: seq<real>)
    requires |g| == 6
  {
    Abs(Det(g)) < SingularThreshold
  }

  /** The affine map itself (applyGeoTransform). */
  function ApplyGeoTransform(inX: real, inY: real, g: seq<real>): (real, real)
    requires |g| == 6
  {
    (g[0] + inX * g[1] + inY * g[2], g[3] + inX * g[4] + inY * g[5])
  }

  /** pixelToMap: the forward transform applied to a pixel coordinate. */
  function PixelToMap(pX: real, pY: real, g: seq<real>): (real, real)
    requires |g| == 6
  {
    ApplyGeoTransform(pX, pY, g)
  }

  /** The coefficients `invertGeoTransform` writes when the determinant is large enough. */
  function Inverse(g: seq<real>): (inv: seq<real>)
    requires |g| == 6 && Det(g) != 0.0
    ensures |inv| == 6
  {
    var invDet := 1.0 / (g[1] * g[5] - g[2] * g[4]);
    [ (g[2] * g[3] - g[0] * g[5]) * invDet,
      g[5] * invDet,
      -g[2] * invDet,
      (-g[1] * g[3] + g[0] * g[4]) * invDet,
      -g[4] * invDet,
      g[1] * invDet ]
  }

  /** C++ conversion of a double to int: truncation toward zero (integer range not modelled). */
  function Trunc(r: real): (t: int)
    ensures 0.0 <= r ==> r - 1.0 < t as real <= r
    ensures r < 0.0 ==> r <= t as real < r + 1.0
  {
    if r >= 0.0 then r.Floor else -((-r).Floor)
  }

  /** IEEE division `n / d`: non-finite when `d` is zero. */
  function Divide(n: real, d: real): (q: PixelCoord)
    ensures q.Finite? <==> d != 0.0
    ensures q.Finite? ==> q.v * d == n
  {
    if d == 0.0 then NonFinite else Finite(n / d)
  }

  /** The affine formula, as a fact that can be instantiated without unfolding its arguments. */
  lemma ApplyUnfold(x: real, y: real, g: seq<real>)
    requires |g| == 6
    ensures ApplyGeoTransform(x, y, g) == (g[0] + x * g[1] + y * g[2], g[3] + x * g[4] + y * g[5])
  {
  }

  lemma NonSingularDet(g: seq<real>)
    requires |g| == 6 && !IsSingular(g)
    ensures Det(g) != 0.0
  {
  }

  /*
    The round trips are proved one output coordinate at a time. Each coordinate has an
    algebra lemma over plain reals (the coefficients g0..g5, the inverse coefficients
    i0..i5 and the reciprocal v of the determinant) and a lemma that instantiates it on
    the coefficient sequences.
  */

  /** The algebra of the first coordinate of `InverseAfterForward`. */
  lemma InverseAfterForwardX(g0: real, g1: real, g2: real, g3: real, g4: real, g5: real, x: real, y: real,
                             v: real, i0: real, i1: real, i2: real, X: real, Y: real)
    requires v * (g1 * g5 - g2 * g4) == 1.0
    requires i0 == (g2 * g3 - g0 * g5) * v && i1 == g5 * v && i2 == -g2 * v
    requires X == g0 + x * g1 + y * g2 && Y == g3 + x * g4 + y * g5
    ensures i0 + X * i1 + Y * i2 == x
  {
    assert i0 + X * i1 + Y * i2 == ((g2 * g3 - g0 * g5) + X * g5 - Y * g2) * v;
    assert (g2 * g3 - g0 * g5) + X * g5 - Y * g2 == x * (g1 * g5 - g2 * g4);
  }

  /** The algebra of the second coordinate of `InverseAfterForward`. */
  lemma InverseAfterForwardY(g0: real, g1: real, g2: real, g3: real, g4: real, g5: real, x: real, y: real,
                             v: real, i3: real, i4: real, i5: real, X: real, Y: real)
    requires v * (g1 * g5 - g2 * g4) == 1.0
    requires i3 == (-g1 * g3 + g0 * g4) * v && i4 == -g4 * v && i5 == g1 * v
    requires X == g0 + x * g1 + y * g2 && Y == g3 + x * g4 + y * g5
    ensures i3 + X * i4 + Y * i5 == y
  {
    assert i3 + X * i4 + Y * i5 == ((-g1 * g3 + g0 * g4) - X * g4 + Y * g1) * v;
    assert (-g1 * g3 + g0 * g4) - X * g4 + Y * g1 == y * (g1 * g5 - g2 * g4);
  }

  /** The algebra of `ForwardAfterInverse`: the inverse image (px, py) maps back to (mX, mY). */
  lemma ForwardAfterInverseXY(g0: real, g1: real, g2: real, g3: real, g4: real, g5: real, mX: real, mY: real,
                              v: real, px: real, py: real)
    requires v * (g1 * g5 - g2 * g4) == 1.0
    requires px == (g2 * g3 - g0 * g5) * v + mX * (g5 * v) + mY * (-g2 * v)
    requires py == (-g1 * g3 + g0 * g4) * v + mX * (-g4 * v) + mY * (g1 * v)
    ensures g0 + px * g1 + py * g2 == mX && g3 + px * g4 + py * g5 == mY
  {
    var d := g1 * g5 - g2 * g4;
    var nx := (g2 * g3 - g0 * g5) + mX * g5 - mY * g2;
    var ny := (-g1 * g3 + g0 * g4) - mX * g4 + mY * g1;
    assert px == nx * v;
    assert py == ny * v;
    assert nx * g1 + ny * g2 == (mX - g0) * d;
    assert g0 + px * g1 + py * g2 == g0 + (nx * g1 + ny * g2) * v;
    assert nx * g4 + ny * g5 == (mY - g3) * d;
    assert g3 + px * g4 + py * g5 == g3 + (nx * g4 + ny * g5) * v;
  }

  /** The first coordinate of `InverseAfterForward`. */
  lemma InverseAfterForwardRowX(g: seq<real>, x: real, y: real)
    requires |g| == 6 && Det(g) != 0.0
    ensures var w := ApplyGeoTransform(x, y, g);
            var inv := Inverse(g);
            inv[0] + w.0 * inv[1] + w.1 * inv[2] == x
  {
    var inv := Inverse(g);
    var w := ApplyGeoTransform(x, y, g);
    assert w.0 == g[0] + x * g[1] + y * g[2] && w.1 == g[3] + x * g[4] + y * g[5];
    var v := 1.0 / (g[1] * g[5] - g[2] * g[4]);
    assert inv[0] == (g[2] * g[3] - g[0] * g[5]) * v && inv[1] == g[5] * v && inv[2] == -g[2] * v;
    InverseAfterForwardX(g[0], g[1], g[2], g[3], g[4], g[5], x, y, v, inv[0], inv[1], inv[2], w.0, w.1);
  }

  /** The second coordinate of `InverseAfterForward`. */
  lemma InverseAfterForwardRowY(g: seq<real>, x: real, y: real)
    requires |g| == 6 && Det(g) != 0.0
    ensures var w := ApplyGeoTransform(x, y, g);
            var inv := Inverse(g);
            inv[3] + w.0 * inv[4] + w.1 * inv[5] == y
  {
    var inv := Inverse(g);
    var w := ApplyGeoTransform(x, y, g);
    assert w.0 == g[0] + x * g[1] + y * g[2] && w.1 == g[3] + x * g[4] + y * g[5];
    var v := 1.0 / (g[1] * g[5] - g[2] * g[4]);
    assert inv[3] == (-g[1] * g[3] + g[0] * g[4]) * v && inv[4] == -g[4] * v && inv[5] == g[1] * v;
    InverseAfterForwardY(g[0], g[1], g[2], g[3], g[4], g[5], x, y, v, inv[3], inv[4], inv[5], w.0, w.1);
  }

  /** The inverse undoes the forward transform. */
  lemma InverseAfterForward(g: seq<real>, x: real, y: real)
    requires |g| == 6 && Det(g) != 0.0
    ensures var w := ApplyGeoTransform(x, y, g);
            ApplyGeoTransform(w.0, w.1, Inverse(g)) == (x, y)
  {
    var w := ApplyGeoTransform(x, y, g);
    var inv := Inverse(g);
    InverseAfterForwardRowX(g, x, y);
    InverseAfterForwardRowY(g, x, y);
    ApplyUnfold(w.0, w.1, inv);
    var r := ApplyGeoTransform(w.0, w.1, inv);
    assert r.0 == x && r.1 == y;
    assert r == (r.0, r.1);
  }

  /** The inverse image of (mX, mY), as a formula in the coefficients of `g`. */
  lemma InverseImage(g: seq<real>, mX: real, mY: real)
    requires |g| == 6 && Det(g) != 0.0
    ensures var v := 1.0 / (g[1] * g[5] - g[2] * g[4]);
            var p := ApplyGeoTransform(mX, mY, Inverse(g));
            p.0 == (g[2] * g[3] - g[0] * g[5]) * v + mX * (g[5] * v) + mY * (-g[2] * v) &&
            p.1 == (-g[1] * g[3] + g[0] * g[4]) * v + mX * (-g[4] * v) + mY * (g[1] * v)
  {
    var inv := Inverse(g);
    var v := 1.0 / (g[1] * g[5] - g[2] * g[4]);
    assert inv[0] == (g[2] * g[3] - g[0] * g[5]) * v && inv[1] == g[5] * v && inv[2] == -g[2] * v;
    assert inv[3] == (-g[1] * g[3] + g[0] * g[4]) * v && inv[4] == -g[4] * v && inv[5] == g[1] * v;
    ApplyUnfold(mX, mY, inv);
  }

  /** The forward transform undoes the inverse. */
  lemma ForwardAfterInverse(g: seq<real>, mX: real, mY: real)
    requires |g| == 6 && Det(g) != 0.0
    ensures var p := ApplyGeoTransform(mX, mY, Inverse(g));
            PixelToMap(p.0, p.1, g) == (mX, mY)
  {
    var p := ApplyGeoTransform(mX, mY, Inverse(g));
    InverseImage(g, mX, mY);
    var v := 1.0 / (g[1] * g[5] - g[2] * g[4]);
    ForwardAfterInverseXY(g[0], g[1], g[2], g[3], g[4], g[5], mX, mY, v, p.0, p.1);
    ApplyUnfold(p.0, p.1, g);
    var r := PixelToMap(p.0, p.1, g);
    assert r.0 == mX && r.1 == mY;
    assert r == (r.0, r.1);
  }

  /** A transform with a non-zero determinant sends distinct pixels to distinct world points. */
  lemma ForwardInjective(g: seq<real>, x1: real, y1: real, x2: real, y2: real)
    requires |g| == 6 && Det(g) != 0.0
    requires PixelToMap(x1, y1, g) == PixelToMap(x2, y2, g)
    ensures x1 == x2 && y1 == y2
  {
    InverseAfterForward(g, x1, y1);
    InverseAfterForward(g, x2, y2);
  }

  /**
    invertGeoTransform: writes the inverse coefficients into `outGT`, or returns without
    writing anything when the transform is singular.
  */
  method InvertGeoTransform(inGT: array<real>, outGT: array<real>)
    requires inGT.Length == 6 && outGT.Length == 6 && inGT != outGT
    modifies outGT
    ensures IsSingular(inGT[..]) ==> outGT[..] == old(outGT[..])
    ensures !IsSingular(inGT[..]) ==> Det(inGT[..]) != 0.0 && outGT[..] == Inverse(inGT[..])
  {
    ghost var g := inGT[..];
    var det := inGT[1] * inGT[5] - inGT[2] * inGT[4];
    if Abs(det) < SingularThreshold {
      return;
    }
    assert det == Det(g);
    var invDet := 1.0 / det;
    outGT[1] := inGT[5] * invDet;
    outGT[4] := -inGT[4] * invDet;
    outGT[2] := -inGT[2] * invDet;
    outGT[5] := inGT[1] * invDet;
    outGT[0] := (inGT[2] * inGT[3] - inGT[0] * inGT[5]) * invDet;
    outGT[3] := (-inGT[1] * inGT[3] + inGT[0] * inGT[4]) * invDet;
    ghost var inv := Inverse(g);
    assert outGT[0] == inv[0] && outGT[1] == inv[1] && outGT[2] == inv[2];
    assert outGT[3] == inv[3] && outGT[4] == inv[4] && outGT[5] == inv[5];
    assert outGT[..] == inv;
  }

  /**
    The "axis-aligned" shortcut of mapToPixel as written: each world offset is truncated
    to an integer before it is divided by the pixel size.
  */
  function TruncatedShortcut(mX: real, mY: real, g: seq<real>): (p: (PixelCoord, PixelCoord))
    requires |g| == 6
    ensures (p.0.Finite? <==> g[1] != 0.0) && (p.1.Finite? <==> g[5] != 0.0)
    ensures p.0.Finite? ==> p.0.v * g[1] == Trunc(mX - g[0]) as real
    ensures p.1.Finite? ==> p.1.v * g[5] == Trunc(mY - g[3]) as real
  {
    (Divide(Trunc(mX - g[0]) as real, g[1]), Divide(Trunc(mY - g[3]) as real, g[5]))
  }

  /**
    mapToPixel as written, as a function of the coefficients: the truncated shortcut whenever
    g[2] + g[4] == 0; otherwise the inverse transform, which is left all zeros when the
    transform is singular.
  */
  function MapToPixelAsWritten(mX: real, mY: real, g: seq<real>): (p: (PixelCoord, PixelCoord))
    requires |g| == 6
    ensures g[2] + g[4] == 0.0 ==> p == TruncatedShortcut(mX, mY, g)
    ensures g[2] + g[4] != 0.0 && IsSingular(g) ==> p == (Finite(0.0), Finite(0.0))
    ensures g[2] + g[4] != 0.0 && !IsSingular(g) ==>
              p.0.Finite? && p.1.Finite? && PixelToMap(p.0.v, p.1.v, g) == (mX, mY)
  {
    if g[2] + g[4] == 0.0 then
      TruncatedShortcut(mX, mY, g)
    else if IsSingular(g) then
      (Finite(0.0), Finite(0.0))
    else
      ForwardAfterInverse(g, mX, mY);
      var q := ApplyGeoTransform(mX, mY, Inverse(g));
      (Finite(q.0), Finite(q.1))
  }

  /** mapToPixel on a coefficient array: its out-parameters are `MapToPixelAsWritten`. */
  method MapToPixel(mX: real, mY: real, g: array<real>) returns (outX: PixelCoord, outY: PixelCoord)
    requires g.Length == 6
    ensures (outX, outY) == MapToPixelAsWritten(mX, mY, g[..])
  {
    if g[2] + g[4] == 0.0 {
      var tx, ty := Trunc(mX - g[0]), Trunc(mY - g[3]);
      outX := Divide(tx as real, g[1]);
      outY := Divide(ty as real, g[5]);
    } else {
      var invGeoTransform := new real[6](_ => 0.0);
      InvertGeoTransform(g, invGeoTransform);
      var p := ApplyGeoTransform(mX, mY, invGeoTransform[..]);
      outX, outY := Finite(p.0), Finite(p.1);
      if IsSingular(g[..]) {
        ghost var zero := invGeoTransform[..];
        assert zero[0] == 0.0 && zero[1] == 0.0 && zero[2] == 0.0;
        assert zero[3] == 0.0 && zero[4] == 0.0 && zero[5] == 0.0;
        ApplyUnfold(mX, mY, zero);
        assert p.0 == 0.0 && p.1 == 0.0;
      } else {
        assert p == ApplyGeoTransform(mX, mY, Inverse(g[..]));
      }
    }
  }

  /** Without rotation terms, dividing the offsets by the pixel sizes inverts the transform. */
  lemma AxisAlignedRoundTrip(g: seq<real>, mX: real, mY: real)
    requires |g| == 6 && g[2] == 0.0 && g[4] == 0.0
    ensures !IsSingular(g) ==>
              var px, py := Divide(mX - g[0], g[1]), Divide(mY - g[3], g[5]);
              px.Finite? && py.Finite? && PixelToMap(px.v, py.v, g) == (mX, mY)
  {
    if !IsSingular(g) {
      assert Det(g) == g[1] * g[5];
      assert g[1] != 0.0 && g[5] != 0.0;
      var px, py := Divide(mX - g[0], g[1]), Divide(mY - g[3], g[5]);
      ApplyUnfold(px.v, py.v, g);
      var r := PixelToMap(px.v, py.v, g);
      assert r.0 == g[0] + px.v * g[1] == mX;
      assert r.1 == g[3] + py.v * g[5] == mY;
      assert r == (r.0, r.1);
    }
  }

  /**
    The evidently intended conversion: the shortcut only for a transform without rotation
    terms, and no truncation before the division. For every non-singular transform the
    result is the unique pixel whose world position is (mX, mY).
  */
  function IntendedPixel(mX: real, mY: real, g: seq<real>): (p: (PixelCoord, PixelCoord))
    requires |g| == 6
    ensures !IsSingular(g) ==>
              p.0.Finite? && p.1.Finite? && PixelToMap(p.0.v, p.1.v, g) == (mX, mY)
    ensures !(g[2] == 0.0 && g[4] == 0.0) && IsSingular(g) ==> p == (Finite(0.0), Finite(0.0))
  {
    if g[2] == 0.0 && g[4] == 0.0 then
      AxisAlignedRoundTrip(g, mX, mY);
      (Divide(mX - g[0], g[1]), Divide(mY - g[3], g[5]))
    else if IsSingular(g) then
      (Finite(0.0), Finite(0.0))
    else
      ForwardAfterInverse(g, mX, mY);
      var q := ApplyGeoTransform(mX, mY, Inverse(g));
      (Finite(q.0), Finite(q.1))
  }

  /** Round trip: the world position of a pixel converts back to exactly that pixel. */
  lemma IntendedPixelRoundTrip(g: seq<real>, col: real, row: real)
    requires |g| == 6 && !IsSingular(g)
    ensures var w := PixelToMap(col, row, g);
            IntendedPixel(w.0, w.1, g) == (Finite(col), Finite(row))
  {
    var w := PixelToMap(col, row, g);
    var p := IntendedPixel(w.0, w.1, g);
    NonSingularDet(g);
    ForwardInjective(g, p.0.v, p.1.v, col, row);
  }

  /** The corrected mapToPixel, filling its out-parameters from a coefficient array. */
  method MapToPixelIntended(mX: real, mY: real, g: array<real>) returns (outX: PixelCoord, outY: PixelCoord)
    requires g.Length == 6
    ensures (outX, outY) == IntendedPixel(mX, mY, g[..])
  {
    if g[2] == 0.0 && g[4] == 0.0 {
      outX := Divide(mX - g[0], g[1]);
      outY := Divide(mY - g[3], g[5]);
    } else {
      var invGeoTransform := new real[6](_ => 0.0);
      InvertGeoTransform(g, invGeoTransform);
      var p := ApplyGeoTransform(mX, mY, invGeoTransform[..]);
      outX, outY := Finite(p.0), Finite(p.1);
      if IsSingular(g[..]) {
        ghost var zero := invGeoTransform[..];
        assert zero[0] == 0.0 && zero[1] == 0.0 && zero[2] == 0.0;
        assert zero[3] == 0.0 && zero[4] == 0.0 && zero[5] == 0.0;
        ApplyUnfold(mX, mY, zero);
        assert p.0 == 0.0 && p.1 == 0.0;
      } else {
        assert p == ApplyGeoTransform(mX, mY, Inverse(g[..]));
      }
    }
  }

  /**
    A rotated transform with g[2] == -g[4] takes the shortcut: world point (1, 1) is the
    image of pixel (1, 0), yet mapToPixel returns pixel (1, 1), which lies elsewhere.
  */
  method RotatedTransformTakesShortcut() returns (outX: PixelCoord, outY: PixelCoord)
    ensures PixelToMap(1.0, 0.0, [0.0, 1.0, -1.0, 0.0, 1.0, 1.0]) == (1.0, 1.0)
    ensures outX == Finite(1.0) && outY == Finite(1.0)
    ensures PixelToMap(outX.v, outY.v, [0.0, 1.0, -1.0, 0.0, 1.0, 1.0]) != (1.0, 1.0)
  {
    var g := new real[] [0.0, 1.0, -1.0, 0.0, 1.0, 1.0];
    outX, outY := MapToPixel(1.0, 1.0, g);
  }

  /**
    With half-unit pixels, world point (0.75, -0.75) is the image of pixel (1.5, 1.5), so it
    lies in cell (1, 1); truncating the offset before dividing yields pixel (0, 0).
  */
  method TruncationBeforeDivisionLosesCell() returns (outX: PixelCoord, outY: PixelCoord)
    ensures PixelToMap(1.5, 1.5, [0.0, 0.5, 0.0, 0.0, 0.0, -0.5]) == (0.75, -0.75)
    ensures outX == Finite(0.0) && outY == Finite(0.0)
    ensures IntendedPixel(0.75, -0.75, [0.0, 0.5, 0.0, 0.0, 0.0, -0.5]) == (Finite(1.5), Finite(1.5))
  {
    var g := new real[] [0.0, 0.5, 0.0, 0.0, 0.0, -0.5];
    outX, outY := MapToPixel(0.75, -0.75, g);
  }
}
