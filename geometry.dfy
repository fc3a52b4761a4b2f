/** The dimension arithmetic of `_generateCell` (js/app.js:196-221): a treemap
    rectangle's area is treated as the volume of a box whose height is the
    volume's cube root and whose base keeps the rectangle's aspect ratio. */
module Geometry {
  import opened Types

  /** `Math.pow(v, 1/3)` and `Math.pow(v, 0.5)`, left uninterpreted. */
  datatype MathLib = MathLib(cbrt: real -> real, sqrt: real -> real)

  /** `Math.pow(v, 1/3)`. */
  function Cbrt(m: MathLib, v: real): real {
    m.cbrt(v)
  }

  /** `Math.pow(v, 0.5)`. */
  function Sqrt(m: MathLib, v: real): real {
    m.sqrt(v)
  }

  /** The only thing the model assumes of the two roots: positive arguments
      have positive roots. */
  ghost predicate PositiveRoots(m: MathLib) {
    forall v: real :: v > 0.0 ==> Cbrt(m, v) > 0.0 && Sqrt(m, v) > 0.0
  }

  /** `volume` of a rectangle: `|x1 - x0| * |y1 - y0|`. */
  function Area(cell: PartitionCell): real {
    Abs(cell.x1 - cell.x0) * Abs(cell.y1 - cell.y0)
  }

  lemma {:induction false} AreaNonNegative(cell: PartitionCell)
    ensures Area(cell) >= 0.0
    ensures Area(cell) == 0.0 <==> cell.x1 == cell.x0 || cell.y1 == cell.y0
  {
    var w, h := Abs(cell.x1 - cell.x0), Abs(cell.y1 - cell.y0);
    if w > 0.0 && h > 0.0 {
      assert w * h > 0.0;
    }
  }

  /** The dimensions `_generateCell` gives a rectangle, or `None` for the
      `null` it returns when the rectangle would not appear. */
  function CellDimensions(cell: PartitionCell, m: MathLib): (r: Option<Dimensions>)
    requires PositiveRoots(m)
    ensures r.None? <==> Area(cell) <= 0.0
    ensures r.None? <==> cell.x1 == cell.x0 || cell.y1 == cell.y0
    ensures r.Some? ==> r.value.width >= r.value.depth > 0.0 && r.value.height > 0.0
    ensures r.Some? ==> r.value.height == Cbrt(m, Area(cell))
    ensures r.Some? ==> r.value.width * r.value.height * r.value.depth == Area(cell)
  {
    AreaNonNegative(cell);
    var rawWidth := Abs(cell.x1 - cell.x0);
    var rawHeight := Abs(cell.y1 - cell.y0);
    var volume := Area(cell);
    if volume <= 0.0 then None
    else
      assert rawWidth > 0.0 && rawHeight > 0.0;
      var ratio := rawWidth / rawHeight;
      QuotientPositive(rawWidth, rawHeight);
      Some(BoxShape(volume, ratio, m))
  }

  /** The volume of a box: width × height × depth. */
  function Volume(d: Dimensions): real {
    d.width * d.height * d.depth
  }

  /** The box of the given volume whose height is the volume's cube root and
      whose base keeps the rectangle's width-to-height `ratio`; the larger of
      the two base lengths becomes the width. */
  function BoxShape(volume: real, ratio: real, m: MathLib): (d: Dimensions)
    requires PositiveRoots(m) && volume > 0.0 && ratio > 0.0
    ensures d.width >= d.depth > 0.0 && d.height > 0.0
    ensures d.height == Cbrt(m, volume)
    ensures d.width * d.height * d.depth == volume
  {
    var height := Cbrt(m, volume);
    var baseArea := volume / height;
    assert baseArea * height == volume;
    QuotientPositive(volume, height);
    var first := Sqrt(m, baseArea) * ratio;
    ProductPositive(Sqrt(m, baseArea), ratio);
    var second := baseArea / first;
    assert first * second == baseArea;
    QuotientPositive(baseArea, first);
    VolumeKept(first, second, height, volume);
    Dimensions(Max(first, second), height, Min(first, second))
  }

  lemma {:induction false} QuotientPositive(a: real, b: real)
    requires a > 0.0 && b > 0.0
    ensures a / b > 0.0
  {
  }

  lemma {:induction false} ProductPositive(a: real, b: real)
    requires a > 0.0 && b > 0.0
    ensures a * b > 0.0
  {
  }

  lemma {:induction false} VolumeKept(first: real, second: real, height: real, volume: real)
    requires first * second * height == volume
    ensures Max(first, second) * height * Min(first, second) == volume
  {
    if first < second {
      assert Max(first, second) * height * Min(first, second) == second * height * first;
    }
  }
}
