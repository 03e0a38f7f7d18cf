/**
  The two data loops of the classifier dialog's doClassification: collecting one training
  row per presence and absence point, and predicting every pixel row by row.

  The input raster is an array indexed [band, row, column] (band count, y size and x size
  are its three lengths). A RasterIO read is an assignment from that array into the
  row buffer; a RasterIO write of the output raster is a `RowWrite` record. The trained
  classifier is the function `predict` from a sample column to a value.
*/
module Training {
  import opened Options
  import opened GeoTransform
  import opened Arithmetic

  /** A point feature's location in world coordinates. */
  datatype Point = Point(x: real, y: real)

  /** A raster cell (column, row), possibly outside the raster. */
  datatype Cell = Cell(col: int, row: int)

  /** One row of the output raster as handed to the write call. */
  datatype RowWrite = RowWrite(row: int, values: seq<real>)

  /** The number of bands copied into each training row and each sample. */
  const SampleBands := 6

  /**
    The cell the corrected conversion would sample a point at: the floor of its pixel
    coordinates, or none when a coordinate is non-finite.
  */
  function PixelCellIntended(pt: Point, g: seq<real>): (c: Option<Cell>)
    requires |g| == 6
    ensures !IsSingular(g) ==>
              var p := IntendedPixel(pt.x, pt.y, g);
              c.Some? && p.0.Finite? && p.1.Finite? &&
              c.value.col as real <= p.0.v < c.value.col as real + 1.0 &&
              c.value.row as real <= p.1.v < c.value.row as real + 1.0 &&
              PixelToMap(p.0.v, p.1.v, g) == (pt.x, pt.y)
  {
    var p := IntendedPixel(pt.x, pt.y, g);
    if p.0.Finite? && p.1.Finite? then Some(Cell(p.0.v.Floor, p.1.v.Floor)) else None
  }

  /** With the corrected conversion, every point of a cell, its centre included, is sampled at that cell. */
  lemma IntendedCellOfCellPoint(g: seq<real>, c: Cell, dx: real, dy: real)
    requires |g| == 6 && !IsSingular(g)
    requires 0.0 <= dx < 1.0 && 0.0 <= dy < 1.0
    ensures var w := PixelToMap(c.col as real + dx, c.row as real + dy, g);
            PixelCellIntended(Point(w.0, w.1), g) == Some(c)
  {
    var w := PixelToMap(c.col as real + dx, c.row as real + dy, g);
    IntendedPixelRoundTrip(g, c.col as real + dx, c.row as real + dy);
    var p := IntendedPixel(w.0, w.1, g);
    assert p.0.v == c.col as real + dx && p.1.v == c.row as real + dy;
    assert p.0.v.Floor == c.col && p.1.v.Floor == c.row;
  }

  /**
    The cell a sampling loop reads for a point: the floor of the pixel coordinates that
    mapToPixel, as written, returns. A non-finite pixel coordinate yields no cell; its
    conversion to int gives a value outside the raster. On the shortcut the cell is the floor
    of the truncated offset divided by the pixel size; off the shortcut it is the corrected cell.
  */
  function PixelCell(pt: Point, g: seq<real>): (c: Option<Cell>)
    requires |g| == 6
    ensures g[2] + g[4] == 0.0 ==>
              (c.Some? <==> g[1] != 0.0 && g[5] != 0.0) &&
              (c.Some? ==>
                 c.value.col as real <= Trunc(pt.x - g[0]) as real / g[1] < c.value.col as real + 1.0 &&
                 c.value.row as real <= Trunc(pt.y - g[3]) as real / g[5] < c.value.row as real + 1.0)
    ensures g[2] + g[4] != 0.0 ==> c == PixelCellIntended(pt, g)
  {
    var p := MapToPixelAsWritten(pt.x, pt.y, g);
    if p.0.Finite? && p.1.Finite? then Some(Cell(p.0.v.Floor, p.1.v.Floor)) else None
  }

  /**
    For a north-up raster with unit pixels the shortcut is right: every point of a cell at a
    non-negative column and row is sampled at that cell.
  */
  lemma NorthUpUnitCellPoint(g0: real, g3: real, c: Cell, dx: real, dy: real)
    requires 0 <= c.col && 0 <= c.row && 0.0 <= dx < 1.0 && 0.0 <= dy < 1.0
    ensures var g := [g0, 1.0, 0.0, g3, 0.0, -1.0];
            var w := PixelToMap(c.col as real + dx, c.row as real + dy, g);
            PixelCell(Point(w.0, w.1), g) == Some(c)
  {
    var g := [g0, 1.0, 0.0, g3, 0.0, -1.0];
    var w := PixelToMap(c.col as real + dx, c.row as real + dy, g);
    assert w.0 - g0 == c.col as real + dx;
    assert w.1 - g3 == -(c.row as real + dy);
    var tx, ty := Trunc(w.0 - g0), Trunc(w.1 - g3);
    assert tx == c.col;
    assert ty == -c.row;
    var p := MapToPixelAsWritten(w.0, w.1, g);
    assert p == (Finite(c.col as real), Finite(c.row as real));
  }

  /**
    With half-unit pixels, the point (0.75, -0.75) of cell (1, 1) is sampled at cell (0, 0);
    the corrected conversion samples it at (1, 1).
  */
  lemma TruncatedShortcutMissesCell()
    ensures var g := [0.0, 0.5, 0.0, 0.0, 0.0, -0.5];
            PixelToMap(1.5, 1.5, g) == (0.75, -0.75) &&
            PixelCell(Point(0.75, -0.75), g) == Some(Cell(0, 0)) &&
            PixelCellIntended(Point(0.75, -0.75), g) == Some(Cell(1, 1))
  {
    var g := [0.0, 0.5, 0.0, 0.0, 0.0, -0.5];
    assert Trunc(0.75) == 0 && Trunc(-0.75) == 0;
    assert MapToPixelAsWritten(0.75, -0.75, g) == (Finite(0.0), Finite(0.0));
    assert IntendedPixel(0.75, -0.75, g) == (Finite(1.5), Finite(1.5));
  }

  /**
    Truncation toward zero also pulls a point just outside a north-up unit raster onto its
    edge: (-0.5, -0.5), left of column 0, is sampled at cell (0, 0); the corrected cell is (-1, 0).
  */
  lemma TruncatedShortcutReadsEdge()
    ensures var g := [0.0, 1.0, 0.0, 0.0, 0.0, -1.0];
            PixelCell(Point(-0.5, -0.5), g) == Some(Cell(0, 0)) &&
            PixelCellIntended(Point(-0.5, -0.5), g) == Some(Cell(-1, 0))
  {
    var g := [0.0, 1.0, 0.0, 0.0, 0.0, -1.0];
    assert Trunc(-0.5) == 0;
    assert MapToPixelAsWritten(-0.5, -0.5, g) == (Finite(0.0), Finite(0.0));
    assert IntendedPixel(-0.5, -0.5, g) == (Finite(-0.5), Finite(0.5));
  }

  predicate Readable(raster: array3<real>, cell: Option<Cell>)
  {
    cell.Some? && 0 <= cell.value.col < raster.Length2 && 0 <= cell.value.row < raster.Length1
  }

  /**
    The buffer after a one-pixel read of all bands at `cell`: bands 0..bandCount-1 are
    copied to the front of the buffer; a read outside the raster fails and leaves it as it was.
  */
  function ReadCell(raster: array3<real>, buf: seq<real>, cell: Option<Cell>): (r: seq<real>)
    reads raster
    requires raster.Length0 <= |buf|
    ensures |r| == |buf|
    ensures Readable(raster, cell) ==>
              forall b :: 0 <= b < raster.Length0 ==> r[b] == raster[b, cell.value.row, cell.value.col]
    ensures forall b :: raster.Length0 <= b < |buf| ==> r[b] == buf[b]
    ensures !Readable(raster, cell) ==> r == buf
  {
    if Readable(raster, cell) then
      BandsAt(raster, cell.value) + buf[raster.Length0..]
    else
      buf
  }

  /** The values of all bands at an in-range cell. */
  function BandsAt(raster: array3<real>, c: Cell): (bands: seq<real>)
    reads raster
    requires 0 <= c.col < raster.Length2 && 0 <= c.row < raster.Length1
    ensures |bands| == raster.Length0
    ensures forall b :: 0 <= b < raster.Length0 ==> bands[b] == raster[b, c.row, c.col]
  {
    seq(raster.Length0, b reads raster requires 0 <= b < raster.Length0 => raster[b, c.row, c.col])
  }

  /** The cells the points of `pts` are sampled at, in order. */
  function CellsOf(pts: seq<Point>, g: seq<real>): (cells: seq<Option<Cell>>)
    requires |g| == 6
    ensures |cells| == |pts|
  {
    seq(|pts|, k requires 0 <= k < |pts| => PixelCell(pts[k], g))
  }

  /** The row buffer after reading the cells of `cells` one after another, starting from `init`. */
  function BufferAfter(raster: array3<real>, cells: seq<Option<Cell>>, init: seq<real>): (r: seq<real>)
    reads raster
    requires |cells| == 0 || raster.Length0 <= |init|
    ensures |r| == |init|
  {
    if |cells| == 0 then init
    else ReadCell(raster, BufferAfter(raster, cells[..|cells| - 1], init), cells[|cells| - 1])
  }

  /**
    A training row holds the bands of its own point's cell when that cell lies in the raster;
    otherwise it repeats the buffer left by the points before it.
  */
  lemma BufferAfterLast(raster: array3<real>, g: seq<real>, pts: seq<Point>, init: seq<real>, b: int)
    requires |g| == 6 && |pts| > 0 && raster.Length0 <= |init| && 0 <= b < raster.Length0
    ensures var c := PixelCell(pts[|pts| - 1], g);
            Readable(raster, c) ==> BufferAfter(raster, CellsOf(pts, g), init)[b] == raster[b, c.value.row, c.value.col]
    ensures var c := PixelCell(pts[|pts| - 1], g);
            !Readable(raster, c) ==>
              BufferAfter(raster, CellsOf(pts, g), init) == BufferAfter(raster, CellsOf(pts[..|pts| - 1], g), init)
  {
    var cells := CellsOf(pts, g);
    assert cells[..|pts| - 1] == CellsOf(pts[..|pts| - 1], g);
  }

  /**
    Training row k, read off `CollectTrainData`'s buffers: when point k's as-written cell lies
    in the raster, the buffer after points 0..k holds that pixel's bands; otherwise it is the
    buffer after points 0..k-1.
  */
  lemma TrainingRowAt(raster: array3<real>, g: seq<real>, pts: seq<Point>, init: seq<real>, k: int, b: int)
    requires |g| == 6 && 0 <= k < |pts| && raster.Length0 <= |init| && 0 <= b < raster.Length0
    ensures var c := PixelCell(pts[k], g);
            Readable(raster, c) ==>
              BufferAfter(raster, CellsOf(pts, g)[..k + 1], init)[b] == raster[b, c.value.row, c.value.col]
    ensures var c := PixelCell(pts[k], g);
            !Readable(raster, c) ==>
              BufferAfter(raster, CellsOf(pts, g)[..k + 1], init) == BufferAfter(raster, CellsOf(pts, g)[..k], init)
  {
    assert CellsOf(pts, g)[..k + 1] == CellsOf(pts[..k + 1], g);
    assert CellsOf(pts, g)[..k] == CellsOf(pts[..k + 1][..k], g);
    BufferAfterLast(raster, g, pts[..k + 1], init, b);
  }

  /** RasterIO of one pixel at `cell`, all bands, into the front of `buf`. */
  method ReadPixel(raster: array3<real>, cell: Option<Cell>, buf: array<real>)
    requires raster.Length0 <= buf.Length
    modifies buf
    ensures buf[..] == ReadCell(raster, old(buf[..]), cell)
  {
    if Readable(raster, cell) {
      forall b | 0 <= b < raster.Length0 {
        buf[b] := raster[b, cell.value.row, cell.value.col];
      }
    }
  }

  /** The cell a sampling loop reads for `pt`: the floors of what mapToPixel returns. */
  method PointCell(geoTransform: array<real>, pt: Point) returns (cell: Option<Cell>)
    requires geoTransform.Length == 6
    ensures cell == PixelCell(pt, geoTransform[..])
  {
    var pixX, pixY := MapToPixel(pt.x, pt.y, geoTransform);
    cell := if pixX.Finite? && pixY.Finite? then Some(Cell(pixX.v.Floor, pixY.v.Floor)) else None;
  }

  /** One iteration of a sampling loop: read `cell` and fill row `i` of `data` and its response. */
  method SamplePoint(raster: array3<real>, cell: Option<Cell>, rasterData: array<real>,
                     data: array2<real>, responses: array<real>, i: nat, response: real)
    requires SampleBands <= raster.Length0 <= rasterData.Length
    requires i < data.Length0 && SampleBands <= data.Length1 && i < responses.Length
    requires rasterData != responses
    modifies rasterData, data, responses
    ensures rasterData[..] == ReadCell(raster, old(rasterData[..]), cell)
    ensures forall j :: 0 <= j < SampleBands ==> data[i, j] == rasterData[j]
    ensures forall k, j :: 0 <= k < data.Length0 && 0 <= j < data.Length1 && (k != i || SampleBands <= j) ==>
              data[k, j] == old(data[k, j])
    ensures responses[..] == old(responses[..])[i := response]
  {
    ReadPixel(raster, cell, rasterData);
    data[i, 0] := rasterData[0];
    data[i, 1] := rasterData[1];
    data[i, 2] := rasterData[2];
    data[i, 3] := rasterData[3];
    data[i, 4] := rasterData[4];
    data[i, 5] := rasterData[5];
    responses[i] := response;
  }

  /**
    One sampling loop: the points of `pts` give rows start..start+|pts|-1, each with response
    `response`. Row k holds the first six values of the buffer after reading cells 0..k of
    `cells`, the cells of all points of both loops; nothing else of `data` or `responses` changes.
  */
  method SampleLoop(raster: array3<real>, geoTransform: array<real>, pts: seq<Point>, response: real, start: nat,
                    ghost cells: seq<Option<Cell>>, ghost init: seq<real>,
                    rasterData: array<real>, data: array2<real>, responses: array<real>) returns (i: nat)
    requires geoTransform.Length == 6
    requires start + |pts| <= |cells| && cells[start..start + |pts|] == CellsOf(pts, geoTransform[..])
    requires data.Length0 == |cells| && data.Length1 == raster.Length0 && responses.Length == |cells|
    requires start + |pts| > 0 ==> SampleBands <= raster.Length0 <= rasterData.Length == |init|
    requires rasterData[..] == BufferAfter(raster, cells[..start], init)
    requires rasterData != responses && rasterData != geoTransform && responses != geoTransform
    modifies rasterData, data, responses
    ensures i == start + |pts|
    ensures rasterData[..] == BufferAfter(raster, cells[..start + |pts|], init)
    ensures forall k :: 0 <= k < responses.Length ==>
              responses[k] == if start <= k < start + |pts| then response else old(responses[k])
    ensures forall k, j :: start <= k < start + |pts| && 0 <= j < SampleBands ==>
              data[k, j] == BufferAfter(raster, cells[..k + 1], init)[j]
    ensures forall k, j :: 0 <= k < data.Length0 && 0 <= j < data.Length1 &&
              (k < start || start + |pts| <= k || SampleBands <= j)
              ==> data[k, j] == old(data[k, j])
  {
    i := start;
    while i < start + |pts|
      invariant start <= i <= start + |pts|
      invariant rasterData[..] == BufferAfter(raster, cells[..i], init)
      invariant forall k :: 0 <= k < responses.Length ==>
                  responses[k] == if start <= k < i then response else old(responses[k])
      invariant forall k, j :: start <= k < i && 0 <= j < SampleBands ==>
                  data[k, j] == BufferAfter(raster, cells[..k + 1], init)[j]
      invariant forall k, j :: 0 <= k < data.Length0 && 0 <= j < data.Length1 &&
                  (k < start || i <= k || SampleBands <= j)
                  ==> data[k, j] == old(data[k, j])
    {
      var cell := PointCell(geoTransform, pts[i - start]);
      assert cell == cells[start..start + |pts|][i - start] == cells[i];
      BufferAfterStep(raster, cells, init, i);
      SamplePoint(raster, cell, rasterData, data, responses, i, response);
      i := i + 1;
    }
  }

  /**
    The two sampling loops: presence points give rows 0..|presence|-1 with response 1,
    absence points the rows after them with response 0. Row k holds the first six values
    of the buffer after reading points 0..k; the other columns are not written.
  */
  method CollectTrainData(raster: array3<real>, geoTransform: array<real>, presence: seq<Point>, absence: seq<Point>,
                          rasterData: array<real>, data: array2<real>, responses: array<real>) returns (i: nat)
    requires geoTransform.Length == 6
    requires data.Length0 == |presence| + |absence| && data.Length1 == raster.Length0
    requires responses.Length == |presence| + |absence|
    requires |presence| + |absence| > 0 ==> SampleBands <= raster.Length0 <= rasterData.Length
    requires rasterData != responses && rasterData != geoTransform && responses != geoTransform
    modifies rasterData, data, responses
    ensures i == |presence| + |absence|
    ensures forall k :: 0 <= k < |presence| ==> responses[k] == 1.0
    ensures forall k :: |presence| <= k < i ==> responses[k] == 0.0
    ensures var cells := CellsOf(presence + absence, geoTransform[..]);
            forall k, j :: 0 <= k < i && 0 <= j < SampleBands ==>
              data[k, j] == BufferAfter(raster, cells[..k + 1], old(rasterData[..]))[j]
    ensures forall k, j :: 0 <= k < i && SampleBands <= j < data.Length1 ==> data[k, j] == old(data[k, j])
    ensures rasterData[..] == BufferAfter(raster, CellsOf(presence + absence, geoTransform[..]), old(rasterData[..]))
  {
    ghost var cells := CellsOf(presence + absence, geoTransform[..]);
    ghost var init := rasterData[..];
    assert cells[..0] == [];
    assert cells[0..|presence|] == CellsOf(presence, geoTransform[..]);
    assert cells[|presence|..|presence| + |absence|] == CellsOf(absence, geoTransform[..]);
    i := SampleLoop(raster, geoTransform, presence, 1.0, 0, cells, init, rasterData, data, responses);
    i := SampleLoop(raster, geoTransform, absence, 0.0, i, cells, init, rasterData, data, responses);
    assert cells[..i] == cells;
  }

  lemma BufferAfterStep(raster: array3<real>, cells: seq<Option<Cell>>, init: seq<real>, i: nat)
    requires i < |cells| && raster.Length0 <= |init|
    ensures BufferAfter(raster, cells[..i + 1], init) == ReadCell(raster, BufferAfter(raster, cells[..i], init), cells[i])
  {
    assert cells[..i + 1][..i] == cells[..i];
  }

  /** The six band values of pixel (row, col) that make up a sample. */
  function PixelSample(raster: array3<real>, row: int, col: int): (s: seq<real>)
    reads raster
    requires SampleBands <= raster.Length0 && 0 <= row < raster.Length1 && 0 <= col < raster.Length2
    ensures |s| == SampleBands
    ensures forall b :: 0 <= b < SampleBands ==> s[b] == raster[b, row, col]
  {
    [raster[0, row, col], raster[1, row, col], raster[2, row, col],
     raster[3, row, col], raster[4, row, col], raster[5, row, col]]
  }

  /** Position of band `b`, column `c` in a band-sequential row buffer of width `xs`. */
  lemma BandSequentialIndex(xs: int, bands: int, b: int, c: int)
    requires 0 <= b < bands && 0 <= c < xs
    ensures 0 <= xs * b + c < xs * bands
    ensures (xs * b + c) / xs == b && (xs * b + c) % xs == c
  {
    MulMonotone(xs, b + 1, bands);
    var k := xs * b + c;
    var q, r := k / xs, k % xs;
    assert xs * (q - b) == c - r;
    if q - b >= 1 {
      MulMonotone(xs, 1, q - b);
    } else if q - b <= -1 {
      MulMonotone(xs, q - b, -1);
    }
  }

  lemma DivBelow(k: int, xs: int, bands: int)
    requires 0 <= k < xs * bands && 0 < xs
    ensures 0 <= k / xs < bands && 0 <= k % xs < xs
  {
    if k / xs >= bands {
      MulMonotone(xs, bands, k / xs);
    }
  }

  /** The band-sequential row buffer after reading row `row`: band b, column c at xSize*b + c. */
  function RowBuffer(raster: array3<real>, row: int): (buf: seq<real>)
    reads raster
    requires 0 <= row < raster.Length1
    ensures |buf| == raster.Length2 * raster.Length0
  {
    var xs := raster.Length2;
    seq(xs * raster.Length0, k reads raster requires 0 <= k < xs * raster.Length0 =>
      DivBelow(k, xs, raster.Length0); raster[k / xs, row, k % xs])
  }

  /** Band b of column c sits at xSize*b + c in the row buffer. */
  lemma RowBufferAt(raster: array3<real>, row: int, b: int, c: int)
    requires 0 <= row < raster.Length1 && 0 <= b < raster.Length0 && 0 <= c < raster.Length2
    ensures 0 <= raster.Length2 * b + c < |RowBuffer(raster, row)|
    ensures RowBuffer(raster, row)[raster.Length2 * b + c] == raster[b, row, c]
  {
    BandSequentialIndex(raster.Length2, raster.Length0, b, c);
  }

  /** RasterIO of a whole row, all bands, band after band, into `rasterData`. */
  method ReadRow(raster: array3<real>, row: int, rasterData: array<real>)
    requires rasterData.Length == raster.Length2 * raster.Length0 && 0 <= row < raster.Length1
    modifies rasterData
    ensures rasterData[..] == RowBuffer(raster, row)
  {
    var buf := RowBuffer(raster, row);
    forall k | 0 <= k < rasterData.Length {
      rasterData[k] := buf[k];
    }
  }

  /** The six sample entries of column `col` sit at xSize*b + col of the row buffer. */
  lemma SampleEntries(raster: array3<real>, row: int, col: int)
    requires SampleBands <= raster.Length0 && 0 <= row < raster.Length1 && 0 <= col < raster.Length2
    ensures forall b :: 0 <= b < SampleBands ==>
              0 <= raster.Length2 * b + col < |RowBuffer(raster, row)| &&
              RowBuffer(raster, row)[raster.Length2 * b + col] == raster[b, row, col]
  {
    forall b | 0 <= b < SampleBands
      ensures 0 <= raster.Length2 * b + col < |RowBuffer(raster, row)|
      ensures RowBuffer(raster, row)[raster.Length2 * b + col] == raster[b, row, col]
    {
      RowBufferAt(raster, row, b, col);
    }
  }

  /** The body of the column loop: copies bands 0..5 of column `col` from the row buffer into the sample. */
  method LoadSample(raster: array3<real>, row: int, col: int, rasterData: array<real>, sample: array<real>,
                    ghost tail: seq<real>)
    requires 0 <= row < raster.Length1 && 0 <= col < raster.Length2 && SampleBands <= raster.Length0
    requires rasterData[..] == RowBuffer(raster, row)
    requires sample.Length == raster.Length0 && sample[SampleBands..] == tail
    requires rasterData != sample
    modifies sample
    ensures sample[..] == PixelSample(raster, row, col) + tail
  {
    var xSize := raster.Length2;
    SampleEntries(raster, row, col);
    sample[0] := rasterData[col];
    sample[1] := rasterData[xSize + col];
    sample[2] := rasterData[xSize * 2 + col];
    sample[3] := rasterData[xSize * 3 + col];
    sample[4] := rasterData[xSize * 4 + col];
    sample[5] := rasterData[xSize * 5 + col];
    assert sample[SampleBands..] == tail;
    assert sample[..SampleBands] == PixelSample(raster, row, col);
    assert sample[..] == sample[..SampleBands] + sample[SampleBands..];
  }

  /**
    The column loop of one prediction row: with the row in the buffer, fills `outData` with the
    prediction for every column's sample.
  */
  method PredictRow(raster: array3<real>, row: int, rasterData: array<real>, sample: array<real>,
                    outData: array<real>, predict: seq<real> -> real, ghost tail: seq<real>)
    requires 0 <= row < raster.Length1 && SampleBands <= raster.Length0
    requires rasterData[..] == RowBuffer(raster, row)
    requires sample.Length == raster.Length0 && sample[SampleBands..] == tail
    requires outData.Length == raster.Length2
    requires rasterData != sample && rasterData != outData && sample != outData
    modifies sample, outData
    ensures sample[SampleBands..] == tail
    ensures forall c :: 0 <= c < outData.Length ==> outData[c] == predict(PixelSample(raster, row, c) + tail)
  {
    var xSize := raster.Length2;
    var col := 0;
    while col < xSize
      invariant 0 <= col <= xSize
      invariant sample[SampleBands..] == tail
      invariant forall c :: 0 <= c < col ==> outData[c] == predict(PixelSample(raster, row, c) + tail)
    {
      LoadSample(raster, row, col, rasterData, sample, tail);
      outData[col] := predict(sample[..]);
      col := col + 1;
    }
  }

  /**
    The prediction loops: rows 0..ySize-1 are read and written once each, in order. The sample
    for (row, col) holds bands 0..5 of that pixel followed by whatever the sample column held
    in its other entries, and the written value is the prediction for that sample.
  */
  method ClassifyRaster(raster: array3<real>, rasterData: array<real>, sample: array<real>, predict: seq<real> -> real)
      returns (written: seq<RowWrite>)
    requires rasterData.Length == raster.Length2 * raster.Length0
    requires sample.Length == raster.Length0
    requires 0 < raster.Length1 && 0 < raster.Length2 ==> SampleBands <= raster.Length0
    requires rasterData != sample
    modifies rasterData, sample
    ensures |written| == raster.Length1
    ensures forall r :: 0 <= r < |written| ==> written[r].row == r && |written[r].values| == raster.Length2
    ensures forall r, c :: 0 <= r < |written| && 0 <= c < raster.Length2 ==>
              written[r].values[c] == predict(PixelSample(raster, r, c) + old(sample[SampleBands..]))
  {
    var xSize, ySize := raster.Length2, raster.Length1;
    ghost var tail := if SampleBands <= sample.Length then sample[SampleBands..] else [];
    var outData := new real[xSize];
    written := [];
    var row := 0;
    while row < ySize
      invariant 0 <= row <= ySize
      invariant |written| == row
      invariant forall r :: 0 <= r < row ==> written[r].row == r && |written[r].values| == xSize
      invariant forall r, c :: 0 <= r < row && 0 <= c < xSize ==>
                  written[r].values[c] == predict(PixelSample(raster, r, c) + tail)
      invariant SampleBands <= sample.Length ==> sample[SampleBands..] == tail
    {
      ReadRow(raster, row, rasterData);
      if 0 < xSize {
        PredictRow(raster, row, rasterData, sample, outData, predict, tail);
      }
      written := written + [RowWrite(row, outData[..])];
      row := row + 1;
    }
  }
}
