/** The per-batch geometry of src/gpu/algorithm.rs: where each of the 16
    tiles of a batch sits in the atlas texture, the width table handed to the
    kernel, the packed result word, and the scan that harvests the best
    position of one mask out of the kernel's score grid. */
module Harvest {
  import opened Basics
  import opened TopK

  /** `CHUNK_MULT`: the atlas is a 4 x 4 grid of tiles. */
  const CHUNK_MULT: nat := 4
  /** `TILE_CHUNK_SIZE`: tiles per batch. */
  const TILE_CHUNK_SIZE: nat := 16
  /** `COPY_BYTES_PER_ROW_ALIGNMENT / 4`: row alignment of a copied
      texture, in 4-byte texels. */
  const ROW_ALIGN: nat := 64

  /** `TILE_HEIGHT` and the mask size. `TILE_HEIGHT` is a compile-time
      constant of the program, kept as a parameter here. */
  datatype Geometry = Geometry(tileHeight: nat, maskW: nat, maskH: nat)

  /** `TILE_HEIGHT - mask_size.0` and `.1` must not underflow, and a mask as
      wide as a tile gives a zero-width result row, which `chunks(0)`
      rejects. */
  predicate ValidGeometry(g: Geometry)
  {
    g.maskW < g.tileHeight && g.maskH <= g.tileHeight
  }

  /** Positions of a mask inside one tile, horizontally and vertically. */
  function CellW(g: Geometry): nat
    requires ValidGeometry(g)
  {
    g.tileHeight - g.maskW
  }

  function CellH(g: Geometry): nat
    requires ValidGeometry(g)
  {
    g.tileHeight - g.maskH
  }

  /** `result_size` (with `STEP_SIZE = 1`): the score grid covers the 4 x 4
      tiles of a batch. */
  function ResultW(g: Geometry): nat
    requires ValidGeometry(g)
  {
    CHUNK_MULT * CellW(g)
  }

  function ResultH(g: Geometry): nat
    requires ValidGeometry(g)
  {
    CHUNK_MULT * CellH(g)
  }

  /** `wgpu::util::align_to(v, a)`: `v` rounded up to a multiple of `a`. */
  function AlignTo(v: nat, a: nat): (r: nat)
    requires a > 0
    ensures v <= r < v + a
    ensures exists k: nat :: r == k * a
  {
    var n := v + a - 1;
    assert n == n / a * a + n % a;
    n / a * a
  }

  /** `tex_result_size.0`: the row length of the result buffer, at least the
      score grid's width. */
  function Stride(g: Geometry): (s: nat)
    requires ValidGeometry(g)
    ensures s >= ResultW(g) > 0
  {
    AlignTo(ResultW(g), ROW_ALIGN)
  }

  // ---------------------------------------------------------------------
  // Atlas placement

  /** Mip-0 origin of batch slot `i`: column `i % 4`, row `i / 4`. */
  function Origin0(i: nat, tileHeight: nat): (nat, nat)
  {
    ((i % CHUNK_MULT) * tileHeight, (i / CHUNK_MULT) * tileHeight)
  }

  /** Mip-2 origin of batch slot `i`: the mip-0 origin divided by 4. */
  function Origin2(i: nat, tileHeight: nat): (nat, nat)
  {
    (Origin0(i, tileHeight).0 / 4, Origin0(i, tileHeight).1 / 4)
  }

  /** The rectangle `[x0, x0 + w) x [y0, y0 + h)` covers the point. */
  predicate InRect(px: nat, py: nat, x0: nat, y0: nat, w: nat, h: nat)
  {
    x0 <= px < x0 + w && y0 <= py < y0 + h
  }

  lemma MulMono(a: nat, b: nat, c: nat)
    ensures a <= b ==> a * c <= b * c
  {
  }

  /** Along one axis, cell `c` of size `th` covers `[c * th, (c + 1) * th)`:
      a point lies in one cell only, and cells `0..3` end before `4 * th`. */
  lemma CellUnique(c: nat, d: nat, th: nat, p: nat)
    requires c * th <= p < (c + 1) * th && d * th <= p < (d + 1) * th
    ensures c == d
  {
    MulMono(c + 1, d, th);
    MulMono(d + 1, c, th);
  }

  lemma CellInside(c: nat, th: nat, p: nat)
    requires c < 4 && p < (c + 1) * th
    ensures p < 4 * th
  {
    MulMono(c + 1, 4, th);
  }

  /** The same on the mip-2 level, where cell `c` covers
      `[(c * th) / 4, ((c + 1) * th) / 4)`. */
  lemma CellUniqueMip2(c: nat, d: nat, th: nat, p: nat)
    requires (c * th) / 4 <= p < ((c + 1) * th) / 4 && (d * th) / 4 <= p < ((d + 1) * th) / 4
    ensures c == d
  {
    MulMono(c + 1, d, th);
    DivMono((c + 1) * th, d * th, 4);
    MulMono(d + 1, c, th);
    DivMono((d + 1) * th, c * th, 4);
  }

  lemma CellInsideMip2(c: nat, th: nat, p: nat)
    requires c < 4 && p < ((c + 1) * th) / 4
    ensures p < th
  {
    MulMono(c + 1, 4, th);
    DivMono((c + 1) * th, 4 * th, 4);
    assert (4 * th) / 4 == th;
  }

  /** Each of the 16 slots, written with a width of at most `TILE_HEIGHT`,
      lies inside the `4 * TILE_HEIGHT` square, and two different slots
      never share a texel. */
  lemma SlotsDisjoint(i: nat, j: nat, th: nat, wi: nat, wj: nat, px: nat, py: nat)
    requires i < TILE_CHUNK_SIZE && j < TILE_CHUNK_SIZE && wi <= th && wj <= th
    requires InRect(px, py, Origin0(i, th).0, Origin0(i, th).1, wi, th)
    ensures px < CHUNK_MULT * th && py < CHUNK_MULT * th
    ensures InRect(px, py, Origin0(j, th).0, Origin0(j, th).1, wj, th) ==> i == j
  {
    var ci, ri, cj, rj := i % 4, i / 4, j % 4, j / 4;
    assert (ci + 1) * th == ci * th + th && (ri + 1) * th == ri * th + th;
    assert (cj + 1) * th == cj * th + th && (rj + 1) * th == rj * th + th;
    CellInside(ci, th, px);
    CellInside(ri, th, py);
    if InRect(px, py, Origin0(j, th).0, Origin0(j, th).1, wj, th) {
      CellUnique(ci, cj, th, px);
      CellUnique(ri, rj, th, py);
      assert i == ri * 4 + ci && j == rj * 4 + cj;
    }
  }

  lemma DivQuarter(c: nat, th: nat)
    ensures (c * th) / 4 + th / 4 <= ((c + 1) * th) / 4
  {
    assert (c + 1) * th == c * th + th;
  }

  /** The mip-2 copy of a slot, `TILE_HEIGHT / 4` texels high and at most as
      wide, lies inside the mip-2 level (`TILE_HEIGHT` square), and two
      different slots never share a mip-2 texel. */
  lemma SlotsDisjointMip2(i: nat, j: nat, th: nat, wi: nat, wj: nat, px: nat, py: nat)
    requires i < TILE_CHUNK_SIZE && j < TILE_CHUNK_SIZE && wi <= th / 4 && wj <= th / 4
    requires InRect(px, py, Origin2(i, th).0, Origin2(i, th).1, wi, th / 4)
    ensures px < th && py < th
    ensures InRect(px, py, Origin2(j, th).0, Origin2(j, th).1, wj, th / 4) ==> i == j
  {
    var ci, ri, cj, rj := i % 4, i / 4, j % 4, j / 4;
    DivQuarter(ci, th);
    DivQuarter(ri, th);
    CellInsideMip2(ci, th, px);
    CellInsideMip2(ri, th, py);
    if InRect(px, py, Origin2(j, th).0, Origin2(j, th).1, wj, th / 4) {
      DivQuarter(cj, th);
      DivQuarter(rj, th);
      CellUniqueMip2(ci, cj, th, px);
      CellUniqueMip2(ri, rj, th, py);
      assert i == ri * 4 + ci && j == rj * 4 + cj;
    }
  }

  // ---------------------------------------------------------------------
  // Width table

  /** `widths_push_constant`: the widths of the batch's tiles, padded with
      zeros to the 16 entries the kernel reads. */
  method PadWidths(widths: seq<nat>) returns (r: seq<nat>)
    ensures |r| == if |widths| < TILE_CHUNK_SIZE then TILE_CHUNK_SIZE else |widths|
    ensures r[..|widths|] == widths
    ensures forall i :: |widths| <= i < |r| ==> r[i] == 0
  {
    r := widths;
    while |r| < TILE_CHUNK_SIZE
      invariant |widths| <= |r|
      invariant |r| <= (if |widths| < TILE_CHUNK_SIZE then TILE_CHUNK_SIZE else |widths|)
      invariant r[..|widths|] == widths
      invariant forall i :: |widths| <= i < |r| ==> r[i] == 0
    {
      r := r + [0];
    }
  }

  // ---------------------------------------------------------------------
  // Packed result word

  /** The score half of a packed result: its low 16 bits. */
  function ScoreBits(w: bv32): bv16
  {
    (w & 0xFFFF) as bv16
  }

  /** The zoom half of a packed result: its high 16 bits. */
  function ZoomBits(w: bv32): bv16
  {
    ((w >> 16) & 0xFFFF) as bv16
  }

  /** The word the kernel packs from a zoom and a score. */
  function Pack(zoom: bv16, score: bv16): bv32
  {
    ((zoom as bv32) << 16) | (score as bv32)
  }

  /** The two halves are exactly the packed word. */
  lemma PackOfHalves(w: bv32)
    ensures Pack(ZoomBits(w), ScoreBits(w)) == w
  {
  }

  /** Unpacking gives back the halves that were packed. */
  lemma HalvesOfPack(zoom: bv16, score: bv16)
    ensures ZoomBits(Pack(zoom, score)) == zoom && ScoreBits(Pack(zoom, score)) == score
  {
  }

  // ---------------------------------------------------------------------
  // Harvest scan

  /** The f16-to-f32 conversion of the packed halves, kept abstract. */
  datatype HalfDecoder = HalfDecoder(score: bv16 -> Score, zoom: bv16 -> real)

  /** A tile of the batch: its position and its deformed width. */
  type TileWidth = (TilePos, nat)

  /** What the scan reads: the geometry, the batch's tiles, the mapped
      result buffer, and how one texel gives a score and a zoom. */
  datatype Grid<!P> = Grid(g: Geometry, tiles: seq<TileWidth>, data: seq<P>, score: P -> Score, zoom: P -> real)

  /** The mapped buffer holds exactly `tex_result_size.0 * tex_result_size.1`
      texels. */
  predicate ValidGrid<P>(h: Grid<P>)
  {
    ValidGeometry(h.g) && |h.data| == Stride(h.g) * ResultH(h.g)
  }

  /** The release build's texels: packed `u32` words. */
  function PackedGrid(g: Geometry, tiles: seq<TileWidth>, data: seq<bv32>, dec: HalfDecoder): Grid<bv32>
  {
    Grid(g, tiles, data, w => dec.score(ScoreBits(w)), w => dec.zoom(ZoomBits(w)))
  }

  /** Which tile of the batch the position `(x, y)` of the score grid
      belongs to: `batch_x + batch_y * CHUNK_MULT`. */
  function TileIndex(g: Geometry, y: nat, x: nat): nat
    requires ValidGeometry(g) && CellH(g) > 0
  {
    x / CellW(g) + (y / CellH(g)) * CHUNK_MULT
  }

  /** The offset of `(x, y)` inside its tile. */
  function LocalX(g: Geometry, x: nat): nat
    requires ValidGeometry(g)
  {
    x % CellW(g)
  }

  function LocalY(g: Geometry, y: nat): nat
    requires ValidGeometry(g) && CellH(g) > 0
  {
    y % CellH(g)
  }

  lemma RowIndex<P>(h: Grid<P>, y: nat, x: nat)
    requires ValidGrid(h) && y < ResultH(h.g) && x < Stride(h.g)
    ensures y * Stride(h.g) + x < |h.data|
  {
    RowBound(y, x, Stride(h.g), ResultH(h.g));
  }

  /** Offset `x` of row `y` lies inside a buffer of `rows` rows of `stride`. */
  lemma RowBound(y: nat, x: nat, stride: nat, rows: nat)
    requires y < rows && x < stride
    ensures y * stride + x < rows * stride
  {
    MulMono(y + 1, rows, stride);
    assert (y + 1) * stride == y * stride + stride;
  }

  /** Row `y` of the mapped buffer, one chunk of `tex_result_size.0`. */
  function Row<P>(h: Grid<P>, y: nat): (row: seq<P>)
    requires ValidGrid(h) && y < ResultH(h.g)
    ensures |row| == Stride(h.g)
  {
    RowIndex(h, y, Stride(h.g) - 1);
    h.data[y * Stride(h.g) .. y * Stride(h.g) + Stride(h.g)]
  }

  /** The texel at `(x, y)`. */
  function PixelAt<P>(h: Grid<P>, y: nat, x: nat): P
    requires ValidGrid(h) && y < ResultH(h.g) && x < Stride(h.g)
  {
    Row(h, y)[x]
  }

  function ScoreAt<P>(h: Grid<P>, y: nat, x: nat): Score
    requires ValidGrid(h) && y < ResultH(h.g) && x < Stride(h.g)
  {
    h.score(PixelAt(h, y, x))
  }

  /** A position the harvest may report: inside the score grid, on a tile
      of the batch, and inside that tile's deformed width. */
  predicate Candidate<P>(h: Grid<P>, y: nat, x: nat)
    requires ValidGrid(h)
  {
    x < ResultW(h.g) && y < ResultH(h.g)
    && TileIndex(h.g, y, x) < |h.tiles|
    && LocalX(h.g, x) < h.tiles[TileIndex(h.g, y, x)].1
  }

  /** The position reported for a candidate: the tile's coordinates, the
      offset inside the tile, the score and the zoom. */
  function Found<P>(h: Grid<P>, y: nat, x: nat): (p: PosResult)
    requires ValidGrid(h) && Candidate(h, y, x)
    ensures p.score == ScoreAt(h, y, x)
    ensures p.x < CellW(h.g) && p.y < CellH(h.g)
  {
    var t := h.tiles[TileIndex(h.g, y, x)].0;
    PosResult(t.0, t.1, t.2, LocalX(h.g, x), LocalY(h.g, y), ScoreAt(h, y, x), h.zoom(PixelAt(h, y, x)))
  }

  /** Row-major order of positions. */
  predicate Before(y1: nat, x1: nat, y2: nat, x2: nat)
  {
    y1 < y2 || (y1 == y2 && x1 < x2)
  }

  /** `best` is the harvest of the positions before `(y, x)`: the sentinel
      when none of them scores above minus infinity, otherwise the first of
      them with the maximal score. */
  ghost predicate BestBefore<P>(h: Grid<P>, best: PosResult, yb: nat, xb: nat, y: nat, x: nat)
    requires ValidGrid(h)
  {
    (best == Sentinel()
     && forall y', x' :: Candidate(h, y', x') && Before(y', x', y, x) ==> ScoreAt(h, y', x') == NegInf)
    || (Candidate(h, yb, xb) && Before(yb, xb, y, x) && best == Found(h, yb, xb) && best.score != NegInf
        && (forall y', x' :: Candidate(h, y', x') && Before(y', x', y, x) ==> Le(ScoreAt(h, y', x'), best.score))
        && (forall y', x' :: Candidate(h, y', x') && Before(y', x', yb, xb) ==> Lt(ScoreAt(h, y', x'), best.score)))
  }

  /** The harvest of the whole grid: the first candidate in row-major order
      with the maximal score, or the sentinel when every candidate scores
      minus infinity. */
  ghost predicate IsFirstMax<P>(h: Grid<P>, best: PosResult)
    requires ValidGrid(h)
  {
    (best == Sentinel() && forall y, x :: Candidate(h, y, x) ==> ScoreAt(h, y, x) == NegInf)
    || exists y, x :: IsFirstMaxAt(h, best, y, x)
  }

  ghost predicate IsFirstMaxAt<P>(h: Grid<P>, best: PosResult, y: nat, x: nat)
    requires ValidGrid(h)
  {
    Candidate(h, y, x) && best == Found(h, y, x) && best.score != NegInf
    && (forall y', x' :: Candidate(h, y', x') ==> Le(ScoreAt(h, y', x'), best.score))
    && (forall y', x' :: Candidate(h, y', x') && Before(y', x', y, x) ==> Lt(ScoreAt(h, y', x'), best.score))
  }

  /** The specification pins the harvest down: at most one result meets it. */
  lemma FirstMaxUnique<P>(h: Grid<P>, a: PosResult, b: PosResult)
    requires ValidGrid(h) && IsFirstMax(h, a) && IsFirstMax(h, b)
    ensures a == b
  {
    if a != Sentinel() && b != Sentinel() {
      var ya, xa :| IsFirstMaxAt(h, a, ya, xa);
      var yb, xb :| IsFirstMaxAt(h, b, yb, xb);
      assert Le(a.score, b.score) && Le(b.score, a.score);
      assert !Before(ya, xa, yb, xb) && !Before(yb, xb, ya, xa);
    }
  }

  lemma DivMono(a: nat, b: nat, d: nat)
    requires d > 0
    ensures a <= b ==> a / d <= b / d
  {
    var qa, qb := a / d, b / d;
    assert a == qa * d + a % d && b == qb * d + b % d;
    MulMono(qb + 1, qa, d);
    assert (qb + 1) * d == qb * d + d;
  }

  /** Within a row the tile index never decreases, so once it runs past the
      batch the rest of the row holds no candidate. */
  lemma RestOfRow<P>(h: Grid<P>, y: nat, x: nat, x': nat)
    requires ValidGrid(h) && x <= x' && x < ResultW(h.g) && CellH(h.g) > 0
    requires TileIndex(h.g, y, x) >= |h.tiles|
    ensures !Candidate(h, y, x')
  {
    DivMono(x, x', CellW(h.g));
  }

  /** One position of the scan keeps `BestBefore` true. */
  lemma Step<P>(h: Grid<P>, best: PosResult, yb: nat, xb: nat, y: nat, x: nat)
    requires ValidGrid(h) && BestBefore(h, best, yb, xb, y, x)
    requires y < ResultH(h.g) && x < Stride(h.g) && !(Candidate(h, y, x) && Lt(best.score, ScoreAt(h, y, x)))
    ensures BestBefore(h, best, yb, xb, y, x + 1)
  {
  }

  lemma Take<P>(h: Grid<P>, best: PosResult, yb: nat, xb: nat, y: nat, x: nat)
    requires ValidGrid(h) && BestBefore(h, best, yb, xb, y, x)
    requires Candidate(h, y, x) && Lt(best.score, ScoreAt(h, y, x))
    ensures BestBefore(h, Found(h, y, x), y, x, y, x + 1)
  {
  }

  /** Positions of a row past its last texel are not candidates, so the
      next row starts where this one ends. */
  lemma NextRow<P>(h: Grid<P>, best: PosResult, yb: nat, xb: nat, y: nat, x: nat)
    requires ValidGrid(h) && BestBefore(h, best, yb, xb, y, x)
    requires forall x' :: x <= x' ==> !Candidate(h, y, x')
    ensures BestBefore(h, best, yb, xb, y + 1, 0)
  {
  }

  lemma RowCount<P>(h: Grid<P>)
    requires ValidGrid(h)
    ensures |h.data| / Stride(h.g) == ResultH(h.g)
  {
    ExactDiv(Stride(h.g), ResultH(h.g));
  }

  lemma ExactDiv(s: nat, n: nat)
    requires s > 0
    ensures (s * n) / s == n
  {
    var q := (s * n) / s;
    assert s * n == q * s + (s * n) % s;
    MulMono(q + 1, n, s);
    MulMono(n + 1, q, s);
    assert (q + 1) * s == q * s + s && (n + 1) * s == n * s + s;
  }

  /** Once every row is scanned, `BestBefore` is the specification. */
  lemma Conclude<P>(h: Grid<P>, best: PosResult, yb: nat, xb: nat, rows: nat)
    requires ValidGrid(h) && rows == ResultH(h.g) && BestBefore(h, best, yb, xb, rows, 0)
    ensures IsFirstMax(h, best)
  {
    if best != Sentinel() {
      assert IsFirstMaxAt(h, best, yb, xb);
    }
  }

  /** The harvest of one mask's score grid (the loops over
      `data.chunks(tex_result_size.0)`): the first candidate with the
      greatest score, or the sentinel. */
  method Scan<P>(h: Grid<P>) returns (best: PosResult)
    requires ValidGrid(h)
    ensures IsFirstMax(h, best)
  {
    var stride := Stride(h.g);
    best := Sentinel();
    ghost var yb, xb := 0, 0;
    RowCount(h);
    var rows := |h.data| / stride;
    for y := 0 to rows
      invariant BestBefore(h, best, yb, xb, y, 0)
    {
      RowIndex(h, y, stride - 1);
      var row := h.data[y * stride .. y * stride + stride];
      best, yb, xb := ScanRow(h, y, row, best, yb, xb);
    }
    Conclude(h, best, yb, xb, rows);
  }

  /** The inner loop of the harvest, over row `y`: it stops at the end of
      the score grid's width, and at the first improving position whose
      tile index is past the batch. */
  method ScanRow<P>(h: Grid<P>, y: nat, row: seq<P>, best0: PosResult, ghost yb0: nat, ghost xb0: nat)
    returns (best: PosResult, ghost yb: nat, ghost xb: nat)
    requires ValidGrid(h) && y < ResultH(h.g) && row == Row(h, y)
    requires BestBefore(h, best0, yb0, xb0, y, 0)
    ensures BestBefore(h, best, yb, xb, y + 1, 0)
  {
    var g := h.g;
    best, yb, xb := best0, yb0, xb0;
    ghost var rowEnd := |row|;
    for x := 0 to |row|
      invariant rowEnd == |row|
      invariant BestBefore(h, best, yb, xb, y, x)
    {
      if x >= ResultW(g) {
        rowEnd := x;
        break;
      }
      var pixel := row[x];
      var score := h.score(pixel);
      if Lt(best.score, score) {
        var iTile := TileIndex(g, y, x);
        if iTile >= |h.tiles| {
          forall x' | x <= x'
            ensures !Candidate(h, y, x')
          {
            RestOfRow(h, y, x, x');
          }
          rowEnd := x;
          break;
        }
        var (t, w) := h.tiles[iTile];
        var localX := LocalX(g, x);
        if localX >= w {
          Step(h, best, yb, xb, y, x);
          continue;
        }
        Take(h, best, yb, xb, y, x);
        best := PosResult(t.0, t.1, t.2, localX, LocalY(g, y), score, h.zoom(pixel));
        yb, xb := y, x;
      } else {
        Step(h, best, yb, xb, y, x);
      }
    }
    assert forall x' :: rowEnd <= x' ==> !Candidate(h, y, x');
    NextRow(h, best, yb, xb, y, rowEnd);
  }
}
