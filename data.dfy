/** The parsers of src/data.rs: the results CSV, the `{z}/{y}/{x}.{ext}` tile
    path, and the width of a tile once its latitude deformation is applied. */
module Data {
  import opened Basics
  import opened Text
  import opened TopK

  /** `deformation(y, z)`: the cosine of the tile row's latitude. It is kept
      abstract; its documented range is [0, 1]. */
  type Deformation = (nat, nat) -> real

  /** `deformation` evaluates `1 << (z - 1)` on a 32-bit integer: `z = 0`
      underflows and `z > 32` shifts too far. */
  predicate DeformDefined(z: nat)
  {
    1 <= z <= 32
  }

  /** `f32::ceil` of a non-negative value. */
  function Ceil(x: real): (c: nat)
    requires x >= 0.0
    ensures x <= c as real < x + 1.0
  {
    var f := x.Floor;
    if f as real == x then f else f + 1
  }

  /** `deform_width(width, y, z)`: the width scaled by the deformation and
      rounded up, which is the least whole number of pixels at least
      `width * deformation(y, z)`, and never more than `width`. */
  function DeformWidth(width: nat, y: nat, z: nat, deformation: Deformation): (w: nat)
    requires DeformDefined(z)
    requires 0.0 <= deformation(y, z) <= 1.0
    ensures w <= width
    ensures width as real * deformation(y, z) <= w as real
    ensures w == 0 || (w - 1) as real < width as real * deformation(y, z)
  {
    var d := deformation(y, z);
    var x := width as real * d;
    ScaledAtMost(width as real, d);
    assert 0.0 <= x <= width as real;
    CeilAtMost(x, width);
    Ceil(x)
  }

  /** Scaling a non-negative quantity by a factor in [0, 1] keeps it in range. */
  lemma ScaledAtMost(a: real, d: real)
    requires a >= 0.0 && 0.0 <= d <= 1.0
    ensures 0.0 <= a * d <= a
  {
    assert a * d <= a * 1.0;
  }

  /** Rounding up never passes a whole number at least as large. */
  lemma CeilAtMost(x: real, n: nat)
    requires 0.0 <= x <= n as real
    ensures Ceil(x) <= n
  {
    var f := x.Floor;
    assert f <= n;
    if f as real != x {
      assert f as real < x;
      assert f < n;
    }
  }

  /** The separators of a tile path: the platform separator and `/`. */
  function PathSeps(mainSep: char): set<char>
  {
    {mainSep, '/'}
  }

  /** `extract_tile_pos(path)`: `z`, `y` and the `x` file name are the last
      three components; `x` is the file name before its first `.`. `None`
      stands for the panics: fewer than three components, no `.` in the
      file name, or a component that is not a `u32`. */
  function ExtractTilePos(path: string, mainSep: char): (r: Option<TilePos>)
    ensures |Split(path, PathSeps(mainSep))| < 3 ==> r.None?
    ensures r.Some? ==> '.' in Split(path, PathSeps(mainSep))[|Split(path, PathSeps(mainSep))| - 1]
    ensures r.Some? ==> r.value.0 <= U32_MAX && r.value.1 <= U32_MAX && r.value.2 <= U32_MAX
  {
    var parts := Split(path, PathSeps(mainSep));
    var n := |parts|;
    if n < 3 then None
    else match SplitOnce(parts[n - 1], '.')
      case None => None
      case Some(name) =>
        match (ParseU32(name.0), ParseU32(parts[n - 2]), ParseU32(parts[n - 3]))
        case (Some(x), Some(y), Some(z)) => Some((x, y, z))
        case _ => None
  }

  /** A directory prefix of a tile path: empty or ending with a separator. */
  predicate IsDirPrefix(dir: string, mainSep: char)
  {
    dir == [] || dir[|dir| - 1] in PathSeps(mainSep)
  }

  /** The path `{dir}{z}/{y}/{x}.{ext}` of a tile, with either separator. */
  function TilePath(dir: string, t: TilePos, s1: char, s2: char, ext: string): string
  {
    dir + (NatToStr(t.2) + [s1] + (NatToStr(t.1) + [s2] + (NatToStr(t.0) + ['.'] + ext)))
  }

  lemma DigitsNoSep(n: nat, mainSep: char)
    requires !IsDigit(mainSep)
    ensures NoneIn(NatToStr(n), PathSeps(mainSep))
  {
    var s := NatToStr(n);
    forall i | 0 <= i < |s|
      ensures s[i] !in PathSeps(mainSep)
    {
      assert IsDigit(s[i]);
    }
  }

  lemma DigitsNoDot(n: nat)
    ensures '.' !in NatToStr(n)
  {
    var s := NatToStr(n);
    forall i | 0 <= i < |s|
      ensures s[i] != '.'
    {
      assert IsDigit(s[i]);
    }
  }

  /** The file name `{x}.{ext}` has no separator and splits at its dot. */
  lemma FileName(x: nat, ext: string, mainSep: char)
    requires !IsDigit(mainSep) && mainSep != '.' && NoneIn(ext, PathSeps(mainSep))
    ensures NoneIn(NatToStr(x) + ['.'] + ext, PathSeps(mainSep))
    ensures SplitOnce(NatToStr(x) + ['.'] + ext, '.') == Some((NatToStr(x), ext))
  {
    var xs := NatToStr(x);
    var file := xs + ['.'] + ext;
    DigitsNoSep(x, mainSep);
    forall i | 0 <= i < |file|
      ensures file[i] !in PathSeps(mainSep)
    {
      if i < |xs| {
        assert file[i] == xs[i];
      } else if i > |xs| {
        assert file[i] == ext[i - |xs| - 1];
      }
    }
    DigitsNoDot(x);
    SplitOnceFirst(xs, '.', ext);
  }

  /** Three separator-free components joined by separators split back into
      those three. */
  lemma SplitThree(zs: string, s1: char, ys: string, s2: char, file: string, seps: set<char>)
    requires s1 in seps && s2 in seps && NoneIn(zs, seps) && NoneIn(ys, seps) && NoneIn(file, seps)
    ensures Split(zs + [s1] + (ys + [s2] + file), seps) == [zs, ys, file]
  {
    SplitNoSep(file, seps);
    SplitNoSep(ys, seps);
    SplitNoSep(zs, seps);
    SplitConcat(ys, s2, file, seps);
    SplitConcat(zs, s1, ys + [s2] + file, seps);
  }

  /** A directory prefix only adds components in front. */
  lemma SplitAfterDir(dir: string, tail: string, mainSep: char)
    requires IsDirPrefix(dir, mainSep)
    ensures dir == [] ==> Split(dir + tail, PathSeps(mainSep)) == Split(tail, PathSeps(mainSep))
    ensures dir != [] ==> Split(dir + tail, PathSeps(mainSep)) == Split(dir[..|dir| - 1], PathSeps(mainSep)) + Split(tail, PathSeps(mainSep))
  {
    if dir == [] {
      assert dir + tail == tail;
    } else {
      var d := dir[..|dir| - 1];
      assert dir + tail == d + [dir[|dir| - 1]] + tail;
      SplitConcat(d, dir[|dir| - 1], tail, PathSeps(mainSep));
    }
  }

  /** The path of a tile gives its position back. */
  lemma ExtractTilePosOfPath(dir: string, t: TilePos, s1: char, s2: char, ext: string, mainSep: char)
    requires t.0 <= U32_MAX && t.1 <= U32_MAX && t.2 <= U32_MAX
    requires !IsDigit(mainSep) && mainSep != '.' && s1 in PathSeps(mainSep) && s2 in PathSeps(mainSep)
    requires IsDirPrefix(dir, mainSep) && NoneIn(ext, PathSeps(mainSep))
    ensures ExtractTilePos(TilePath(dir, t, s1, s2, ext), mainSep) == Some(t)
  {
    var seps := PathSeps(mainSep);
    var zs, ys, xs := NatToStr(t.2), NatToStr(t.1), NatToStr(t.0);
    var file := xs + ['.'] + ext;
    FileName(t.0, ext, mainSep);
    DigitsNoSep(t.1, mainSep);
    DigitsNoSep(t.2, mainSep);
    SplitThree(zs, s1, ys, s2, file, seps);
    var tail := zs + [s1] + (ys + [s2] + file);
    SplitAfterDir(dir, tail, mainSep);
    var parts := Split(dir + tail, seps);
    var n := |parts|;
    assert n >= 3 && parts[n - 1] == file && parts[n - 2] == ys && parts[n - 3] == zs;
    ParseNatToStr(t.0);
    ParseNatToStr(t.1);
    ParseNatToStr(t.2);
  }

  /** One record of the results CSV. */
  datatype FrameData = FrameData(frame: nat, result: PosResult)

  /** `str::parse::<f32>`, kept abstract, for the score and the zoom. */
  datatype FloatParser = FloatParser(score: string -> Option<Score>, zoom: string -> Option<real>)

  /** A line `parse_csv` keeps: not blank after trimming, not a `#` comment. */
  predicate Kept(line: string)
  {
    Trim(line) != [] && !(|line| > 0 && line[0] == '#')
  }

  /** The two `filter` steps of `parse_csv`. */
  function FilterKept(ls: seq<string>): (r: seq<string>)
    ensures |r| <= |ls|
    ensures forall l :: l in r <==> l in ls && Kept(l)
  {
    if ls == [] then []
    else FilterKept(ls[..|ls| - 1]) + (if Kept(ls[|ls| - 1]) then [ls[|ls| - 1]] else [])
  }

  /** The filter keeps the order of the lines: it distributes over
      concatenation. */
  lemma {:induction false} FilterKeptConcat(a: seq<string>, b: seq<string>)
    ensures FilterKept(a + b) == FilterKept(a) + FilterKept(b)
    decreases |b|
  {
    if b == [] {
      assert a + b == a;
    } else {
      var b' := b[..|b| - 1];
      assert (a + b)[..|a + b| - 1] == a + b' && (a + b)[|a + b| - 1] == b[|b| - 1];
      FilterKeptConcat(a, b');
    }
  }

  /** The lines every record comes from: all but the first (the header),
      without blank and `#` lines. */
  function DataLines(content: string): seq<string>
  {
    var ls := Lines(content);
    if ls == [] then [] else FilterKept(ls[1..])
  }

  /** The eight positional fields of a line, each trimmed; `None` when the
      line has fewer than eight comma-separated fields. */
  function Fields(line: string): (r: Option<seq<string>>)
    ensures r.Some? ==> |r.value| == 8
    ensures r.None? <==> |Split(line, {','})| < 8
  {
    var parts := Split(line, {','});
    if |parts| < 8 then None
    else Some(seq(8, i requires 0 <= i < 8 => Trim(parts[i])))
  }

  /** The `map` step of `parse_csv` on one line: frame, tile_x, tile_y,
      tile_z, zoom, x, y, score in that order; later fields are ignored.
      `None` is the panic of a missing or unparsable field. */
  function ParseRecord(line: string, fp: FloatParser): (r: Option<FrameData>)
    ensures Fields(line).None? ==> r.None?
    ensures Fields(line).Some? ==>
      var f := Fields(line).value;
      (r.Some? <==> ParseU32(f[0]).Some? && ParseU32(f[1]).Some? && ParseU32(f[2]).Some? && ParseU32(f[3]).Some?
                    && fp.zoom(f[4]).Some? && ParseU32(f[5]).Some? && ParseU32(f[6]).Some? && fp.score(f[7]).Some?)
    ensures r.Some? ==>
      var f, d := Fields(line).value, r.value;
      ParseU32(f[0]) == Some(d.frame) && ParseU32(f[1]) == Some(d.result.tileX)
      && ParseU32(f[2]) == Some(d.result.tileY) && ParseU32(f[3]) == Some(d.result.tileZ)
      && fp.zoom(f[4]) == Some(d.result.zoom) && ParseU32(f[5]) == Some(d.result.x)
      && ParseU32(f[6]) == Some(d.result.y) && fp.score(f[7]) == Some(d.result.score)
  {
    match Fields(line)
    case None => None
    case Some(f) =>
      var frame, tx, ty, tz := ParseU32(f[0]), ParseU32(f[1]), ParseU32(f[2]), ParseU32(f[3]);
      var zoom, x, y, score := fp.zoom(f[4]), ParseU32(f[5]), ParseU32(f[6]), fp.score(f[7]);
      if frame.Some? && tx.Some? && ty.Some? && tz.Some? && zoom.Some? && x.Some? && y.Some? && score.Some?
      then Some(FrameData(frame.value, PosResult(tx.value, ty.value, tz.value, x.value, y.value, score.value, zoom.value)))
      else None
  }

  /** `collect::<Option<Vec<_>>>` of a map: every element converted in
      order, or `None` as soon as one conversion fails. */
  function MapAll<A, B>(xs: seq<A>, f: A -> Option<B>): (r: Option<seq<B>>)
    ensures r.Some? <==> forall i :: 0 <= i < |xs| ==> f(xs[i]).Some?
    ensures r.Some? ==> |r.value| == |xs| && forall i :: 0 <= i < |xs| ==> f(xs[i]) == Some(r.value[i])
  {
    if xs == [] then Some([])
    else
      var init := MapAll(xs[..|xs| - 1], f);
      var last := f(xs[|xs| - 1]);
      if init.Some? && last.Some? then Some(init.value + [last.value]) else None
  }

  /** `parse_csv(content)`: one record per data line, in file order, or
      `None` when some data line makes it panic. */
  function ParseCsv(content: string, fp: FloatParser): (r: Option<seq<FrameData>>)
    ensures r.Some? <==> forall i :: 0 <= i < |DataLines(content)| ==> ParseRecord(DataLines(content)[i], fp).Some?
    ensures r.Some? ==> |r.value| == |DataLines(content)|
    ensures r.Some? ==> forall i :: 0 <= i < |r.value| ==> ParseRecord(DataLines(content)[i], fp) == Some(r.value[i])
  {
    MapAll(DataLines(content), l => ParseRecord(l, fp))
  }

  /** The first line of the file is never read as a record, whatever it
      holds. */
  lemma HeaderIgnored(header: string, rest: seq<string>)
    requires IsLine(header) && forall i :: 0 <= i < |rest| ==> IsLine(rest[i])
    ensures DataLines(JoinLines([header] + rest)) == FilterKept(rest)
  {
    var ls := [header] + rest;
    forall i | 0 <= i < |ls|
      ensures IsLine(ls[i])
    {
      if i > 0 {
        assert ls[i] == rest[i - 1];
      }
    }
    LinesOfJoinLines(ls);
    assert ls[1..] == rest;
  }
}
