/** `State` of src/gpu/mod.rs: the tile records built by `prepare`, and
    `run_on_image`, which filters out the forbidden tiles, cuts the rest into
    batches of `TILE_CHUNK_SIZE`, drives the batch pool through every batch
    and pairs each mask id with its mask's shortlist. */
module Dispatch {
  import opened Basics
  import opened Text
  import opened Data
  import opened TopK
  import opened Harvest
  import opened BatchPool
  import opened GpuAlgo

  /** `Tile` without its image bytes: the position and the deformed width. */
  datatype Tile = Tile(x: nat, y: nat, z: nat, width: nat)

  /** `Tile::pos`. */
  function Pos(t: Tile): (p: TilePos)
    ensures p.0 == t.x && p.1 == t.y && p.2 == t.z
  {
    (t.x, t.y, t.z)
  }

  /** The deformation stays in its documented range [0, 1]. */
  ghost predicate DeformationInRange(deformation: Deformation)
  {
    forall y: nat, z: nat :: 0.0 <= deformation(y, z) <= 1.0
  }

  /** The record `prepare` builds for one tile path, or `None` where it
      panics: the path does not parse, or its zoom level makes
      `deformation` overflow. */
  function PrepareTile(path: string, mainSep: char, tileHeight: nat, deformation: Deformation): (r: Option<Tile>)
    requires DeformationInRange(deformation)
    ensures r.Some? ==> r.value.width <= tileHeight
  {
    match ExtractTilePos(path, mainSep)
    case None => None
    case Some(p) =>
      if DeformDefined(p.2) then Some(Tile(p.0, p.1, p.2, DeformWidth(tileHeight, p.1, p.2, deformation)))
      else None
  }

  /** A path ending in `{z}/{y}/{x}.{ext}` gives the tile at `(x, y, z)`
      whose width is the deformed tile height of its row. */
  lemma PrepareTileOfPath(dir: string, t: TilePos, s1: char, s2: char, ext: string, mainSep: char,
                          tileHeight: nat, deformation: Deformation)
    requires DeformationInRange(deformation)
    requires t.0 <= U32_MAX && t.1 <= U32_MAX && DeformDefined(t.2)
    requires !IsDigit(mainSep) && mainSep != '.' && s1 in PathSeps(mainSep) && s2 in PathSeps(mainSep)
    requires IsDirPrefix(dir, mainSep) && NoneIn(ext, PathSeps(mainSep))
    ensures PrepareTile(TilePath(dir, t, s1, s2, ext), mainSep, tileHeight, deformation)
      == Some(Tile(t.0, t.1, t.2, DeformWidth(tileHeight, t.1, t.2, deformation)))
  {
    ExtractTilePosOfPath(dir, t, s1, s2, ext, mainSep);
  }

  /** `prepare`: one record per path, in order, or `None` if any path makes
      it panic. */
  function PrepareAll(paths: seq<string>, mainSep: char, tileHeight: nat, deformation: Deformation): (r: Option<seq<Tile>>)
    requires DeformationInRange(deformation)
    ensures r.Some? <==> forall i :: 0 <= i < |paths| ==> PrepareTile(paths[i], mainSep, tileHeight, deformation).Some?
    ensures r.Some? ==> |r.value| == |paths| && forall i :: 0 <= i < |paths| ==>
      PrepareTile(paths[i], mainSep, tileHeight, deformation) == Some(r.value[i])
  {
    MapAll(paths, p => PrepareTile(p, mainSep, tileHeight, deformation))
  }

  /** The `filter` of `run_on_image`: the tiles whose position is not
      forbidden, in their original order. */
  function Allowed(tiles: seq<Tile>, forbidden: set<TilePos>): (r: seq<Tile>)
    ensures |r| <= |tiles|
    ensures forall t :: t in r <==> t in tiles && Pos(t) !in forbidden
  {
    if tiles == [] then []
    else
      var init := Allowed(tiles[..|tiles| - 1], forbidden);
      var last := tiles[|tiles| - 1];
      assert tiles == tiles[..|tiles| - 1] + [last];
      if Pos(last) in forbidden then init else init + [last]
  }

  /** Filtering commutes with concatenation, so the kept tiles keep their
      relative order. */
  lemma {:induction false} AllowedConcat(a: seq<Tile>, b: seq<Tile>, forbidden: set<TilePos>)
    ensures Allowed(a + b, forbidden) == Allowed(a, forbidden) + Allowed(b, forbidden)
  {
    if b != [] {
      var n := |b| - 1;
      AllowedConcat(a, b[..n], forbidden);
      assert (a + b)[..|a + b| - 1] == a + b[..n];
      assert (a + b)[|a + b| - 1] == b[n];
    } else {
      assert a + b == a;
    }
  }

  /** With nothing forbidden among them, every tile is dispatched. */
  lemma {:induction false} AllowedAll(tiles: seq<Tile>, forbidden: set<TilePos>)
    requires forall i :: 0 <= i < |tiles| ==> Pos(tiles[i]) !in forbidden
    ensures Allowed(tiles, forbidden) == tiles
  {
    if tiles != [] {
      AllowedAll(tiles[..|tiles| - 1], forbidden);
      assert tiles == tiles[..|tiles| - 1] + [tiles[|tiles| - 1]];
    }
  }

  /** Filtering twice is filtering once. */
  lemma AllowedIdempotent(tiles: seq<Tile>, forbidden: set<TilePos>)
    ensures Allowed(Allowed(tiles, forbidden), forbidden) == Allowed(tiles, forbidden)
  {
    var r := Allowed(tiles, forbidden);
    forall i | 0 <= i < |r|
      ensures Pos(r[i]) !in forbidden
    {
      assert r[i] in r;
    }
    AllowedAll(r, forbidden);
  }

  /** `slice::chunks(n)`: consecutive pieces of `n`, the last one possibly
      shorter, none empty. */
  function Chunks<T>(s: seq<T>, n: nat): (r: seq<seq<T>>)
    requires n > 0
    ensures forall i :: 0 <= i < |r| ==> 0 < |r[i]| <= n
    ensures forall i :: 0 <= i < |r| - 1 ==> |r[i]| == n
    decreases |s|
  {
    if |s| <= n then (if s == [] then [] else [s])
    else [s[..n]] + Chunks(s[n..], n)
  }

  function Flatten<T>(ss: seq<seq<T>>): seq<T>
  {
    if ss == [] then [] else ss[0] + Flatten(ss[1..])
  }

  /** The batches, laid end to end, are the dispatched list. */
  lemma {:induction false} FlattenChunks<T>(s: seq<T>, n: nat)
    requires n > 0
    ensures Flatten(Chunks(s, n)) == s
    decreases |s|
  {
    if |s| > n {
      FlattenChunks(s[n..], n);
      var r := Chunks(s, n);
      assert r[1..] == Chunks(s[n..], n);
      assert s[..n] + s[n..] == s;
    } else if s != [] {
      assert Flatten(Chunks(s, n)) == s + Flatten([]);
    }
  }

  /** There are `ceil(|s| / n)` batches: just enough to hold every tile,
      and one fewer would not. */
  lemma {:induction false} ChunksCount<T>(s: seq<T>, n: nat)
    requires n > 0
    ensures |s| <= |Chunks(s, n)| * n
    ensures s != [] ==> (|Chunks(s, n)| - 1) * n < |s|
    decreases |s|
  {
    if |s| > n {
      ChunksCount(s[n..], n);
      var k := |Chunks(s[n..], n)|;
      assert |Chunks(s, n)| == k + 1;
      assert (k + 1) * n == k * n + n;
    }
  }

  /** What `render_frame` is given for a batch: each tile's position and
      width. */
  function TileWidths(batch: seq<Tile>): (r: seq<TileWidth>)
    ensures |r| == |batch| && forall i :: 0 <= i < |batch| ==> r[i] == (Pos(batch[i]), batch[i].width)
  {
    seq(|batch|, i requires 0 <= i < |batch| => (Pos(batch[i]), batch[i].width))
  }

  /** What `render_frame` is given, batch after batch: consecutive chunks of
      `TILE_CHUNK_SIZE` tiles. */
  function Dispatched(allowed: seq<Tile>): (bs: seq<seq<TileWidth>>)
    ensures |bs| == |Chunks(allowed, TILE_CHUNK_SIZE)|
    ensures forall i :: 0 <= i < |bs| ==> bs[i] == TileWidths(Chunks(allowed, TILE_CHUNK_SIZE)[i])
  {
    var cs := Chunks(allowed, TILE_CHUNK_SIZE);
    seq(|cs|, i requires 0 <= i < |cs| => TileWidths(cs[i]))
  }

  /** An element of a piece is an element of the whole. */
  lemma {:induction false} InFlatten<T>(ss: seq<seq<T>>, i: nat, j: nat)
    requires i < |ss| && j < |ss[i]|
    ensures ss[i][j] in Flatten(ss)
  {
    if i > 0 {
      InFlatten(ss[1..], i - 1, j);
      assert ss[1..][i - 1] == ss[i];
    }
  }

  /** No forbidden tile is ever handed to `render_frame`. */
  lemma DispatchedNotForbidden(tiles: seq<Tile>, forbidden: set<TilePos>, i: nat, j: nat)
    requires i < |Dispatched(Allowed(tiles, forbidden))| && j < |Dispatched(Allowed(tiles, forbidden))[i]|
    ensures Dispatched(Allowed(tiles, forbidden))[i][j].0 !in forbidden
  {
    var cs := Chunks(Allowed(tiles, forbidden), TILE_CHUNK_SIZE);
    InFlatten(cs, i, j);
    FlattenChunks(Allowed(tiles, forbidden), TILE_CHUNK_SIZE);
  }

  /** `Iterator::zip`: pairs up to the shorter of the two sequences. */
  function Zip<A, B>(a: seq<A>, b: seq<B>): (r: seq<(A, B)>)
    ensures |r| == if |a| <= |b| then |a| else |b|
    ensures forall i :: 0 <= i < |r| ==> r[i] == (a[i], b[i])
  {
    var n := if |a| <= |b| then |a| else |b|;
    seq(n, i requires 0 <= i < n => (a[i], b[i]))
  }

  /** What the kernel leaves in mask `m`'s result texture for a batch. The
      device work is not modelled, only the size of its output. */
  type Kernel = (seq<TileWidth>, nat) -> seq<bv32>

  /** The kernel output of every mask for one batch. */
  function Outputs(kernel: Kernel, batch: seq<TileWidth>, n: nat): (o: seq<seq<bv32>>)
    ensures |o| == n && forall m :: 0 <= m < n ==> o[m] == kernel(batch, m)
  {
    seq(n, m requires 0 <= m < n => kernel(batch, m))
  }

  /** The scans a run submits, batch after batch: in each batch, mask `m`
      scans the packed score grid of its kernel output. */
  ghost function RunWork(g: Geometry, dec: HalfDecoder, kernel: Kernel, n: nat, batches: seq<seq<TileWidth>>): (ws: seq<Work>)
    requires ValidGeometry(g)
    ensures |ws| == |batches| * n
  {
    if batches == [] then []
    else
      var last := batches[|batches| - 1];
      RunWork(g, dec, kernel, n, batches[..|batches| - 1]) + MaskWork(Grids(g, last, Outputs(kernel, last, n), dec))
  }

  /** One more batch adds its scans to those of the run so far. */
  lemma RunWorkSnoc(g: Geometry, dec: HalfDecoder, kernel: Kernel, n: nat, batches: seq<seq<TileWidth>>, i: nat)
    requires ValidGeometry(g) && i < |batches|
    ensures batches[..i + 1] == batches[..i] + [batches[i]]
    ensures forall w ::
      Count(RunWork(g, dec, kernel, n, batches[..i + 1]), w)
      == Count(RunWork(g, dec, kernel, n, batches[..i]), w) + Count(MaskWork(Grids(g, batches[i], Outputs(kernel, batches[i], n), dec)), w)
  {
    assert batches[..i + 1][..i] == batches[..i];
    CountsAppend(RunWork(g, dec, kernel, n, batches[..i]), MaskWork(Grids(g, batches[i], Outputs(kernel, batches[i], n), dec)));
  }

  class State {
    const nMasks: nat
    const algo: Algo
    var tiles: seq<Tile>

    /** Between calls no harvest is pending: `run_on_image` ends with
        `finish`. */
    ghost predicate Valid()
      reads this, algo
    {
      algo.Valid() && algo.nMasks == nMasks && algo.pending == []
    }

    /** `State::new`: no tiles yet. */
    constructor (g: Geometry, n: nat, dec: HalfDecoder)
      requires ValidGeometry(g)
      ensures Valid() && nMasks == n && tiles == [] && fresh(algo)
      ensures algo.g == g && algo.freeBuffers == algo.AllBuffers() && algo.pending == []
    {
      nMasks := n;
      algo := new Algo(g, n, dec);
      tiles := [];
    }

    /** `prepare`: the records of the given tile paths replace the stored
        ones; `false` where it would panic, leaving them as they were. */
    method Prepare(paths: seq<string>, mainSep: char, tileHeight: nat, deformation: Deformation) returns (ok: bool)
      requires DeformationInRange(deformation)
      modifies this
      ensures ok <==> PrepareAll(paths, mainSep, tileHeight, deformation).Some?
      ensures ok ==> tiles == PrepareAll(paths, mainSep, tileHeight, deformation).value
      ensures !ok ==> tiles == old(tiles)
    {
      var r := PrepareAll(paths, mainSep, tileHeight, deformation);
      ok := r.Some?;
      if ok {
        tiles := r.value;
      }
    }

    /** `run_on_image`: `None` where the number of masks differs from
        `n_masks`, and where there are no masks at all (the panics of the
        count check and of `masks[0]`); otherwise the shortlists are reset, every
        allowed tile is dispatched in batches of 16, the pool is drained, and
        mask id `i` is paired with shortlist `i`. */
    method RunOnImage(maskIds: seq<nat>, forbidden: set<TilePos>, kernel: Kernel)
      returns (r: Option<seq<(nat, seq<PosResult>)>>)
      requires Valid()
      requires forall ts: seq<TileWidth>, m: nat :: |kernel(ts, m)| == Stride(algo.g) * ResultH(algo.g)
      modifies algo
      ensures Valid()
      ensures r.None? <==> |maskIds| != nMasks || nMasks == 0
      ensures r.None? ==> unchanged(algo)
      ensures r.Some? ==> |r.value| == nMasks && algo.pending == []
      ensures r.Some? ==> forall i :: 0 <= i < nMasks ==>
        r.value[i].0 == maskIds[i] && r.value[i].1 == algo.bestPos[i]
        && |r.value[i].1| == algo.topK && Sorted(r.value[i].1)
      ensures r.Some? ==> multiset(algo.freeBuffers) == multiset(algo.AllBuffers())
      ensures r.Some? ==> algo.submitted == old(algo.submitted) + Dispatched(Allowed(tiles, forbidden))
      ensures r.Some? ==> forall i :: 0 <= i < nMasks ==>
        r.value[i].1 == InsertAll(Sentinels(algo.topK), MaskBests(algo.log, i))
      ensures r.Some? ==> AllFirstMax(algo.log)
      ensures r.Some? ==> forall w ::
        Count(Scanned(algo.log), w) == Count(RunWork(algo.g, algo.dec, kernel, nMasks, Dispatched(Allowed(tiles, forbidden))), w)
      ensures r.Some? ==>
        multiset(Scanned(algo.log)) == multiset(RunWork(algo.g, algo.dec, kernel, nMasks, Dispatched(Allowed(tiles, forbidden))))
      ensures r.Some? && Dispatched(Allowed(tiles, forbidden)) == [] ==>
        forall i :: 0 <= i < nMasks ==> r.value[i].1 == Sentinels(algo.topK)
    {
      if |maskIds| != nMasks || nMasks == 0 {
        return None;
      }
      algo.Reset();
      var batches := Dispatched(Allowed(tiles, forbidden));
      RenderAll(batches, kernel);
      var best := algo.Finish();
      r := Some(Zip(maskIds, best));
      SameCounts(Scanned(algo.log), RunWork(algo.g, algo.dec, kernel, nMasks, batches));
      if batches == [] {
        NoScansNoLog(algo.log);
      }
    }

    /** The loop of `run_on_image`: `render_frame` for each batch in turn,
        on the kernel's output for it. */
    method RenderAll(batches: seq<seq<TileWidth>>, kernel: Kernel)
      requires algo.Valid() && algo.nMasks == nMasks
      requires forall ts: seq<TileWidth>, m: nat :: |kernel(ts, m)| == Stride(algo.g) * ResultH(algo.g)
      requires forall w :: TallyOf(algo.log, algo.pending, w) == 0
      modifies algo
      ensures algo.Valid() && algo.submitted == old(algo.submitted) + batches
      ensures forall w :: TallyOf(algo.log, algo.pending, w) == Count(RunWork(algo.g, algo.dec, kernel, nMasks, batches), w)
    {
      for i := 0 to |batches|
        invariant algo.Valid() && algo.nMasks == nMasks
        invariant algo.submitted == old(algo.submitted) + batches[..i]
        invariant forall w :: TallyOf(algo.log, algo.pending, w) == Count(RunWork(algo.g, algo.dec, kernel, nMasks, batches[..i]), w)
      {
        algo.RenderFrame(batches[i], Outputs(kernel, batches[i], nMasks));
        RunWorkSnoc(algo.g, algo.dec, kernel, nMasks, batches, i);
      }
      assert batches[..|batches|] == batches;
    }
  }
}
