/** src/render.rs: the set of upscaled tiles a chosen crop needs, the tile
    lookup of `render_final` that reads them back, and the results reader of
    `render`. */
module Render {
  import opened Basics
  import opened Text
  import opened Data

  /** Levels the final render zooms in below the matched tile. */
  const Z_UP: nat := 4
  /** `1 << Z_UP`. */
  const UPSCALE: nat := 16
  /** `STEP_SIZE` of src/gpu/algorithm.rs. */
  const STEP_SIZE: nat := 1

  function Pow2(n: nat): (p: nat)
    ensures p >= 1
  {
    if n == 0 then 1 else 2 * Pow2(n - 1)
  }

  /** `(k as f32 * zoom) as u32`: the zoomed offset of the k-th upscaled
      pixel, kept abstract. */
  type Zoom = nat -> nat

  /** A zoom that never maps a later pixel before an earlier one. */
  ghost predicate NonDecreasing(zoom: Zoom)
  {
    forall a: nat, b: nat :: a <= b ==> zoom(a) <= zoom(b)
  }

  /** The arguments of `tiles_needed`: the mask size, the matched tile, the
      zoom and the offset of the crop inside the tile. */
  datatype Crop = Crop(maskW: nat, maskH: nat, tileX: nat, tileY: nat, tileZ: nat, zoom: Zoom, x: nat, y: nat)

  /** `up_x`: the column of upscaled pixel `xx` inside the upscaled tile. */
  function UpX(c: Crop, up: nat, xx: nat): nat
  {
    (c.x * STEP_SIZE) * up + c.zoom(xx)
  }

  function UpY(c: Crop, up: nat, yy: nat): nat
  {
    (c.y * STEP_SIZE) * up + c.zoom(yy)
  }

  /** The tile `tiles_needed` inserts for upscaled pixel `(xx, yy)`, given the
      deformed width `dw` and the tile height `th`. */
  function NeededAt(c: Crop, dw: nat, th: nat, zUp: nat, xx: nat, yy: nat): TilePos
    requires dw > 0 && th > 0
  {
    var up := Pow2(zUp);
    (c.tileX * up + UpX(c, up, xx) / dw, c.tileY * up + UpY(c, up, yy) / th, c.tileZ + zUp)
  }

  /** The tiles of row `yy` for columns below `n`. */
  function RowTiles(c: Crop, dw: nat, th: nat, zUp: nat, yy: nat, n: nat): set<TilePos>
    requires dw > 0 && th > 0
  {
    if n == 0 then {} else RowTiles(c, dw, th, zUp, yy, n - 1) + {NeededAt(c, dw, th, zUp, n - 1, yy)}
  }

  /** The tiles of the first `m` rows of the upscaled mask. */
  function Rows(c: Crop, dw: nat, th: nat, zUp: nat, m: nat): set<TilePos>
    requires dw > 0 && th > 0
  {
    if m == 0 then {} else Rows(c, dw, th, zUp, m - 1) + RowTiles(c, dw, th, zUp, m - 1, c.maskW * Pow2(zUp))
  }

  /** Every tile the upscaled mask touches. */
  function Needed(c: Crop, dw: nat, th: nat, zUp: nat): set<TilePos>
    requires dw > 0 && th > 0
  {
    Rows(c, dw, th, zUp, c.maskH * Pow2(zUp))
  }

  /** The inputs `deform_width` is defined on. */
  predicate DeformOk(c: Crop, deformation: Deformation)
  {
    DeformDefined(c.tileZ) && 0.0 <= deformation(c.tileY, c.tileZ) <= 1.0
  }

  /** `deform_w` of the matched tile. */
  function CropWidth(c: Crop, th: nat, deformation: Deformation): (dw: nat)
    requires DeformOk(c, deformation)
    ensures dw <= th
  {
    DeformWidth(th, c.tileY, c.tileZ, deformation)
  }

  /** `tiles_needed`: the nested loops over the upscaled mask, inserting the
      tile under every pixel. `None` is the division by a zero deformed width,
      which happens as soon as the loops run once; a crop whose deformation
      is undefined panics in `deform_width` before that. */
  method TilesNeeded(c: Crop, th: nat, deformation: Deformation, zUp: nat) returns (r: Option<set<TilePos>>)
    requires th > 0
    ensures r.None? <==> (!DeformOk(c, deformation)
      || (CropWidth(c, th, deformation) == 0 && c.maskW > 0 && c.maskH > 0))
    ensures r.Some? && CropWidth(c, th, deformation) > 0 ==> r.value == Needed(c, CropWidth(c, th, deformation), th, zUp)
    ensures r.Some? && (c.maskW == 0 || c.maskH == 0) ==> r.value == {}
  {
    if !DeformOk(c, deformation) {
      return None;
    }
    var up := Pow2(zUp);
    var dw := CropWidth(c, th, deformation);
    var tiles: set<TilePos> := {};
    var yy := 0;
    while yy < c.maskH * up
      invariant yy <= c.maskH * up
      invariant dw == 0 ==> (yy == 0 || c.maskW == 0) && tiles == {}
      invariant dw > 0 ==> tiles == Rows(c, dw, th, zUp, yy)
    {
      var xx := 0;
      while xx < c.maskW * up
        invariant xx <= c.maskW * up
        invariant dw == 0 ==> xx == 0 && tiles == {}
        invariant dw > 0 ==> tiles == Rows(c, dw, th, zUp, yy) + RowTiles(c, dw, th, zUp, yy, xx)
      {
        if dw == 0 {
          return None;
        }
        var upX := (c.x * STEP_SIZE) * up + c.zoom(xx);
        var upY := (c.y * STEP_SIZE) * up + c.zoom(yy);
        var tileX := c.tileX * up + upX / dw;
        var tileY := c.tileY * up + upY / th;
        assert (tileX, tileY, c.tileZ + zUp) == NeededAt(c, dw, th, zUp, xx, yy);
        tiles := tiles + {(tileX, tileY, c.tileZ + zUp)};
        xx := xx + 1;
      }
      yy := yy + 1;
    }
    if c.maskW == 0 || c.maskH == 0 {
      EmptyMask(c, th, zUp);
    }
    return Some(tiles);
  }

  /** The nested loops produce exactly the tiles under some pixel of the
      upscaled mask. */
  lemma {:induction false} RowTilesMembers(c: Crop, dw: nat, th: nat, zUp: nat, yy: nat, n: nat, p: TilePos)
    requires dw > 0 && th > 0
    ensures p in RowTiles(c, dw, th, zUp, yy, n) <==> exists xx :: 0 <= xx < n && NeededAt(c, dw, th, zUp, xx, yy) == p
  {
    if n > 0 {
      RowTilesMembers(c, dw, th, zUp, yy, n - 1, p);
    }
  }

  lemma {:induction false} RowsMembers(c: Crop, dw: nat, th: nat, zUp: nat, m: nat, p: TilePos)
    requires dw > 0 && th > 0
    ensures p in Rows(c, dw, th, zUp, m) <==>
      exists xx, yy :: 0 <= xx < c.maskW * Pow2(zUp) && 0 <= yy < m && NeededAt(c, dw, th, zUp, xx, yy) == p
  {
    if m > 0 {
      RowsMembers(c, dw, th, zUp, m - 1, p);
      RowTilesMembers(c, dw, th, zUp, m - 1, c.maskW * Pow2(zUp), p);
    }
  }

  /** Membership in the result of `tiles_needed`, as an independent
      description: some pixel of the upscaled mask lies on the tile. */
  lemma NeededMembers(c: Crop, dw: nat, th: nat, zUp: nat, p: TilePos)
    requires dw > 0 && th > 0
    ensures p in Needed(c, dw, th, zUp) <==>
      exists xx, yy :: 0 <= xx < c.maskW * Pow2(zUp) && 0 <= yy < c.maskH * Pow2(zUp) && NeededAt(c, dw, th, zUp, xx, yy) == p
  {
    RowsMembers(c, dw, th, zUp, c.maskH * Pow2(zUp), p);
  }

  lemma EmptyMask(c: Crop, th: nat, zUp: nat)
    requires th > 0 && (c.maskW == 0 || c.maskH == 0)
    ensures forall dw: nat :: dw > 0 ==> Needed(c, dw, th, zUp) == {}
  {
    forall dw: nat | dw > 0
      ensures Needed(c, dw, th, zUp) == {}
    {
      forall p | p in Needed(c, dw, th, zUp)
        ensures false
      {
        NeededMembers(c, dw, th, zUp, p);
      }
    }
  }

  /** Every needed tile is `z_up` levels below the matched tile, and at or
      after the first upscaled sub-tile of the matched tile. */
  lemma NeededLowerBounds(c: Crop, dw: nat, th: nat, zUp: nat, p: TilePos)
    requires dw > 0 && th > 0
    requires p in Needed(c, dw, th, zUp)
    ensures p.2 == c.tileZ + zUp
    ensures p.0 >= c.tileX * Pow2(zUp) && p.1 >= c.tileY * Pow2(zUp)
  {
    NeededMembers(c, dw, th, zUp, p);
  }

  /** The tile under the first upscaled pixel is always needed, so the set is
      not empty for a non-empty mask. */
  lemma NeededHasOrigin(c: Crop, dw: nat, th: nat, zUp: nat)
    requires dw > 0 && th > 0
    requires c.maskW > 0 && c.maskH > 0
    ensures NeededAt(c, dw, th, zUp, 0, 0) in Needed(c, dw, th, zUp)
    ensures Needed(c, dw, th, zUp) != {}
  {
    NeededMembers(c, dw, th, zUp, NeededAt(c, dw, th, zUp, 0, 0));
  }

  lemma DivMono(a: nat, b: nat, d: nat)
    requires a <= b && d > 0
    ensures a / d <= b / d
  {
    var q, r := a / d, b / d;
    assert d * q + a % d == a && d * r + b % d == b;
    MulCancelLt(d, q, r + 1);
  }

  lemma MulCancelLt(d: nat, x: nat, y: nat)
    requires d > 0 && d * x < d * y
    ensures x < y
  {
  }

  /** The tile column (or row) under a pixel never decreases with the pixel
      when the zoom does not. */
  lemma ZoomDivMono(zoom: Zoom, base: nat, d: nat, a: nat, b: nat)
    requires NonDecreasing(zoom) && a <= b && d > 0
    ensures (base + zoom(a)) / d <= (base + zoom(b)) / d
  {
    DivMono(base + zoom(a), base + zoom(b), d);
  }

  /** The tile under a pixel lies in the box spanned by the tiles under the
      first and the last pixel of the upscaled mask. */
  lemma NeededAtBox(c: Crop, dw: nat, th: nat, zUp: nat, xx: nat, yy: nat)
    requires dw > 0 && th > 0
    requires NonDecreasing(c.zoom)
    requires xx < c.maskW * Pow2(zUp) && yy < c.maskH * Pow2(zUp)
    ensures c.maskW > 0 && c.maskH > 0
    ensures var p, lo, hi := NeededAt(c, dw, th, zUp, xx, yy), NeededAt(c, dw, th, zUp, 0, 0),
              NeededAt(c, dw, th, zUp, c.maskW * Pow2(zUp) - 1, c.maskH * Pow2(zUp) - 1);
      lo.0 <= p.0 <= hi.0 && lo.1 <= p.1 <= hi.1
  {
    var up := Pow2(zUp);
    PositiveFactor(c.maskW, up, xx);
    PositiveFactor(c.maskH, up, yy);
    AxisBox(c.zoom, c.tileX * up, (c.x * STEP_SIZE) * up, dw, c.maskW * up, xx);
    AxisBox(c.zoom, c.tileY * up, (c.y * STEP_SIZE) * up, th, c.maskH * up, yy);
  }

  lemma PositiveFactor(a: nat, b: nat, k: nat)
    requires k < a * b
    ensures a > 0
  {
  }

  /** Along one axis of `n` upscaled pixels, the tile under pixel `k` lies
      between the tiles under the first and the last pixel. */
  lemma AxisBox(zoom: Zoom, first: nat, base: nat, d: nat, n: nat, k: nat)
    requires NonDecreasing(zoom) && k < n && d > 0
    ensures first + (base + zoom(0)) / d <= first + (base + zoom(k)) / d <= first + (base + zoom(n - 1)) / d
  {
    ZoomDivMono(zoom, base, d, 0, k);
    ZoomDivMono(zoom, base, d, k, n - 1);
  }

  /** With a non-decreasing zoom, the needed tiles lie in the box spanned by
      the tiles under the first and the last upscaled pixel. */
  lemma NeededBox(c: Crop, dw: nat, th: nat, zUp: nat, p: TilePos)
    requires dw > 0 && th > 0
    requires NonDecreasing(c.zoom)
    requires p in Needed(c, dw, th, zUp)
    ensures c.maskW > 0 && c.maskH > 0
    ensures var lo, hi := NeededAt(c, dw, th, zUp, 0, 0),
              NeededAt(c, dw, th, zUp, c.maskW * Pow2(zUp) - 1, c.maskH * Pow2(zUp) - 1);
      lo.0 <= p.0 <= hi.0 && lo.1 <= p.1 <= hi.1
  {
    NeededMembers(c, dw, th, zUp, p);
    var xx, yy :| 0 <= xx < c.maskW * Pow2(zUp) && 0 <= yy < c.maskH * Pow2(zUp) && NeededAt(c, dw, th, zUp, xx, yy) == p;
    NeededAtBox(c, dw, th, zUp, xx, yy);
  }

  /** The key and the in-tile pixel `render_final` reads for output pixel
      `(xx, yy)`: its own arithmetic, always at `Z_UP` levels below. */
  function LookupKey(c: Crop, dw: nat, th: nat, xx: nat, yy: nat): (r: (TilePos, nat, nat))
    requires dw > 0 && th > 0
    ensures r.1 < dw && r.2 < th
  {
    var upX := (c.x * STEP_SIZE) * UPSCALE + c.zoom(xx);
    var upY := (c.y * STEP_SIZE) * UPSCALE + c.zoom(yy);
    ((c.tileX * UPSCALE + upX / dw, c.tileY * UPSCALE + upY / th, c.tileZ + Z_UP), upX % dw, upY % th)
  }

  /** `render_final` never misses: for the same crop, every key it looks up
      is in the set `tiles_needed` returned with `Z_UP`, and the pixel it
      reads lies inside the tile resized to `deform_w` by the tile height. */
  lemma LookupNeverMisses(c: Crop, dw: nat, th: nat, xx: nat, yy: nat)
    requires dw > 0 && th > 0
    requires xx < c.maskW * UPSCALE && yy < c.maskH * UPSCALE
    ensures LookupKey(c, dw, th, xx, yy).0 in Needed(c, dw, th, Z_UP)
  {
    assert Pow2(Z_UP) == UPSCALE by {
      assert Pow2(2) == 4;
    }
    assert NeededAt(c, dw, th, Z_UP, xx, yy) == LookupKey(c, dw, th, xx, yy).0;
    NeededMembers(c, dw, th, Z_UP, LookupKey(c, dw, th, xx, yy).0);
  }

  /** One record as `render` reads it: all nine fields, time included. */
  datatype RenderRecord = RenderRecord(frame: nat, tile: TilePos, zoom: real, x: nat, y: nat, score: Score, time: Score)

  /** The first nine comma-separated fields of a line, each trimmed; `None`
      when there are fewer. */
  function RenderFields(line: string): (r: Option<seq<string>>)
    ensures r.Some? ==> |r.value| == 9
    ensures r.None? <==> |Split(line, {','})| < 9
  {
    var parts := Split(line, {','});
    if |parts| < 9 then None
    else Some(seq(9, i requires 0 <= i < 9 => Trim(parts[i])))
  }

  /** The closure `render` maps over the lines; `None` is its panic. The
      time is read with the same `f32` parser as the score. */
  function ParseRenderRecord(line: string, fp: FloatParser): (r: Option<RenderRecord>)
    ensures RenderFields(line).None? ==> r.None?
    ensures RenderFields(line).Some? ==>
      var f := RenderFields(line).value;
      (r.Some? <==> ParseU32(f[0]).Some? && ParseU32(f[1]).Some? && ParseU32(f[2]).Some? && ParseU32(f[3]).Some?
                    && fp.zoom(f[4]).Some? && ParseU32(f[5]).Some? && ParseU32(f[6]).Some?
                    && fp.score(f[7]).Some? && fp.score(f[8]).Some?)
    ensures r.Some? ==>
      var f, d := RenderFields(line).value, r.value;
      ParseU32(f[0]) == Some(d.frame) && ParseU32(f[1]) == Some(d.tile.0)
      && ParseU32(f[2]) == Some(d.tile.1) && ParseU32(f[3]) == Some(d.tile.2)
      && fp.zoom(f[4]) == Some(d.zoom) && ParseU32(f[5]) == Some(d.x) && ParseU32(f[6]) == Some(d.y)
      && fp.score(f[7]) == Some(d.score) && fp.score(f[8]) == Some(d.time)
  {
    match RenderFields(line)
    case None => None
    case Some(f) =>
      var frame, tx, ty, tz := ParseU32(f[0]), ParseU32(f[1]), ParseU32(f[2]), ParseU32(f[3]);
      var zoom, x, y := fp.zoom(f[4]), ParseU32(f[5]), ParseU32(f[6]);
      var score, time := fp.score(f[7]), fp.score(f[8]);
      if frame.Some? && tx.Some? && ty.Some? && tz.Some? && zoom.Some? && x.Some? && y.Some? && score.Some? && time.Some?
      then Some(RenderRecord(frame.value, (tx.value, ty.value, tz.value), zoom.value, x.value, y.value, score.value, time.value))
      else None
  }

  /** `render`'s reader: the first line is skipped (a file without lines
      panics on it) and every other line must parse. */
  function ReadFrames(content: string, fp: FloatParser): (r: Option<seq<RenderRecord>>)
    ensures Lines(content) == [] ==> r.None?
    ensures r.Some? ==> |r.value| == |Lines(content)| - 1
    ensures r.Some? ==> forall i :: 1 <= i < |Lines(content)| ==> ParseRenderRecord(Lines(content)[i], fp) == Some(r.value[i - 1])
  {
    var ls := Lines(content);
    if ls == [] then None
    else MapAll(ls[1..], l => ParseRenderRecord(l, fp))
  }

  /** Only the first line is skipped: every later line is read as a record,
      whatever the first one holds. */
  lemma ReadFramesSkipsHeader(header: string, rest: seq<string>, fp: FloatParser)
    requires IsLine(header) && forall i :: 0 <= i < |rest| ==> IsLine(rest[i])
    ensures ReadFrames(JoinLines([header] + rest), fp) == MapAll(rest, l => ParseRenderRecord(l, fp))
  {
    var ls := [header] + rest;
    forall i | 0 <= i < |ls|
      ensures IsLine(ls[i])
    {
      if i > 0 {
        assert ls[i] == rest[i - 1];
      }
    }
    LinesOfJoinLines(ls);
    assert ls[1..] == rest;
  }

  /** A blank line has a single field, so the `render` reader panics on it. */
  lemma BlankLineRejected(line: string, fp: FloatParser)
    requires Trim(line) == []
    ensures ParseRenderRecord(line, fp).None?
  {
    SplitNoSep(line, {','});
  }

  /** A `#` comment line starts its frame field with `#`, which is not a
      number, so the `render` reader panics on it where `parse_csv` skips
      it. */
  lemma CommentLineRejected(line: string, fp: FloatParser)
    requires |line| > 0 && line[0] == '#'
    ensures ParseRenderRecord(line, fp).None?
    ensures !Kept(line)
  {
    var parts := Split(line, {','});
    assert parts[0][0] == '#';
    TrimEndKeepsFirst(parts[0]);
    assert Trim(parts[0])[0] == '#';
    if RenderFields(line).Some? {
      assert RenderFields(line).value[0] == Trim(parts[0]);
      assert ParseU32(Trim(parts[0])).None?;
    }
  }
}
