# earthfinder core, modelled in Dafny

earthfinder matches each frame of a video of black-and-white masks against a
pyramid of map tiles. On the GPU it scores every position of every tile in
batches of 16, keeps a short list of the best positions per mask, and writes
one CSV row per frame. This project models the bookkeeping around that
search and proves properties of it. Device calls, floating-point numerics,
threads and file I/O are replaced by parameters.

The modules follow the program's files:

- `Basics` holds the shared types. A score is `NegInf | Fin(real)`, the
  `f32` values the program compares, including its minus-infinity sentinel.
- `TopK` models `PosResult` and `PosResults` (src/gpu/algorithm.rs): the
  sentinel, the fixed-capacity shortlist on an `array`, `clear`, and the
  in-place bubble-up `insert`.
- `Harvest` covers the pure pieces of `render_frame`: the atlas slots, the
  width table, the packed result word, and the scan that harvests the best
  position of one mask's score grid.
- `BatchPool` holds the bookkeeping of `Algo` (src/gpu/algorithm.rs) on
  the values of its fields: the invariant over the staging-buffer stack,
  the per-batch countdowns, the window of 20 batches in flight and the
  log of completed harvests, and the submit and complete steps with the
  lemmas that keep it.
- `GpuAlgo` is the `Algo` object itself as a class: `Complete`, `Drain`,
  `RenderFrame`, `Submit`, `PopOldest`, `Finish` and the results reset
  `Reset`.
- `Dispatch` is `State::prepare` and `State::run_on_image`
  (src/gpu/mod.rs): the tile records, the forbidden filter, and the chunks
  of 16.
- `Data` is `parse_csv`, `extract_tile_pos` and `deform_width`
  (src/data.rs). `Text` holds the string functions they use: `split`,
  `trim`, `split_once`, `lines`, `u32` parsing and printing.
- `MaskDot` is `Mask::dot` (src/mask.rs). Its comparison with 0.8 is
  decided exactly on the integer accumulators, without the program's
  floating-point rounding.
- `ZeroFill` is `is_zero` and `zero_fill` (src/tiles_grad.rs), a double
  buffer on an `array2`.
- `Render` is `tiles_needed`, the lookup in `render_final`, and the CSV
  reader of `render` (src/render.rs).
- `Sequencer` is the frame loop of `gpu_all` (src/gpu_all.rs):
  - resuming from the results file: the duplicate check, the collapse into
    ranges, and the lookup of done frames;
  - the ring of recently chosen tiles;
  - the forbidden set with its pruning rule;
  - the `prev_results` cap;
  - the rows written to the file;
  - the whole loop, as a trace of states that one step function, `StepOf`,
    takes from one frame to the next.
- `Framework` covers the pipeline cache, the lazily created samplers and
  the bind-group numbering (src/gpu/framework.rs).

`TILE_HEIGHT` is not defined in any of the modelled files, so it is a
parameter wherever it is used. Some files do not agree with each other:
src/gpu/mod.rs calls a four-argument `Algo::new`, `algo.result` and
`AlgoResult::clear`, but src/gpu/algorithm.rs defines a three-argument
`new`, a `best_pos` field and no `clear`. Each file is modelled as it is
written. The results reset of `run_on_image` is `PosResults::clear` applied
to every shortlist. `tile_max_scores` is never filled in by
src/gpu/algorithm.rs, so the pruning rule takes it as an input map.

## Model

| member | source | states |
|---|---|---|
| TopK.Sentinel | src/gpu/algorithm.rs:35-47 | the default position has `u32::MAX` tile coordinates, offset (0, 0), score minus infinity and zoom 1, and ranks at or below every position |
| TopK.TilePosOf | src/gpu/algorithm.rs:30-32 | `tile_pos` is `(tile_x, tile_y, tile_z)` |
| TopK.Sentinels | src/gpu/algorithm.rs:56-61 | a fresh shortlist has exactly `k` entries, each the sentinel |
| TopK.BubbleUpShape | src/gpu/algorithm.rs:80-83 | the swap loop inserts `pos` after the last entry it does not strictly beat, and before every entry it strictly beats |
| TopK.InsertPlacement | src/gpu/algorithm.rs:74-84 | a score strictly below the last entry leaves the list unchanged. Otherwise `pos` lands after every entry scoring at least as much, ties included, and before every entry it beats. The old last entry is dropped and nothing else changes |
| TopK.InsertLength | src/gpu/algorithm.rs:74-84 | `insert` keeps the length at exactly `top_k` |
| TopK.InsertSorted | src/gpu/algorithm.rs:79-83 | a list sorted non-increasing by score stays sorted after `insert` |
| TopK.BubbleUpMultiset | src/gpu/algorithm.rs:80-83 | the swap loop only reorders: the result holds the old entries and `pos`, each as often as before |
| TopK.InsertMultiset | src/gpu/algorithm.rs:74-84 | as a multiset, an accepted insert replaces the last entry by `pos`; a rejected one changes nothing |
| TopK.InsertAll | src/gpu/algorithm.rs:74-84 | inserting a run of positions one after the other keeps the shortlist's length |
| TopK.InsertedLast | src/gpu/algorithm.rs:74-84 | an insert never lowers the last score of a sorted shortlist |
| TopK.KeepsBestStep | src/gpu/algorithm.rs:74-84 | one more insert keeps the shortlist sorted, made only of offered entries, and above everything offered that it dropped |
| TopK.InsertAllKeepsBest | src/gpu/algorithm.rs:74-84 | the shortlist after inserting a run of positions, as the harvests do at line 420, is the top `top_k`: it is sorted, holds only entries that were there or were offered, and every offered entry it does not hold scores at most its last entry |
| TopK.PosResults.constructor | src/gpu/algorithm.rs:56-61 | `new(k)` holds `k` sentinels |
| TopK.PosResults.Clear | src/gpu/algorithm.rs:63-68 | `clear` leaves exactly `top_k` sentinels |
| TopK.PosResults.Insert | src/gpu/algorithm.rs:74-84 | the in-place overwrite and swap loop produce the specified insertion; `top_k` must be at least 1 because `top_k - 1` underflows otherwise |
| Harvest.AlignTo | src/gpu/algorithm.rs:119-122 | `align_to` rounds up to the least multiple of the alignment that is at least the value |
| Harvest.Stride | src/gpu/algorithm.rs:119-122 | the result texture's row is at least as long as the score grid's row, which is never empty |
| Harvest.SlotsDisjoint | src/gpu/algorithm.rs:165-193 | the 16 mip-0 slots at `((i mod 4)*TILE_HEIGHT, (i div 4)*TILE_HEIGHT)` lie inside the atlas and never share a texel |
| Harvest.SlotsDisjointMip2 | src/gpu/algorithm.rs:195-223 | the mip-2 slots, at the mip-0 origin divided by 4, lie inside the mip-2 level and never share a texel |
| Harvest.PadWidths | src/gpu/algorithm.rs:236-240 | the width table keeps every tile width in order and is padded with zeros to 16 entries |
| Harvest.PackOfHalves | src/gpu/algorithm.rs:375-401 | the zoom bits shifted left by 16, or-ed with the score bits, rebuild the packed word |
| Harvest.HalvesOfPack | src/gpu/algorithm.rs:375-401 | unpacking returns the zoom (high 16 bits) and the score (low 16 bits) that were packed |
| Harvest.Row | src/gpu/algorithm.rs:320-321 | each chunk of the mapped buffer is one row of `tex_result_size.0` texels |
| Harvest.RowCount | src/gpu/algorithm.rs:320-321 | the buffer splits into exactly `result_size.1` rows |
| Harvest.Found | src/gpu/algorithm.rs:341-360 | a reported position carries its texel's score, with an offset inside one cell of the tile |
| Harvest.FirstMaxUnique | src/gpu/algorithm.rs:315-361 | at most one position meets the harvest's specification (first maximum in row-major order, or the sentinel) |
| Harvest.RestOfRow | src/gpu/algorithm.rs:338-340 | breaking out of a row once the tile index passes the batch skips no candidate |
| Harvest.Scan | src/gpu/algorithm.rs:315-415 | the harvest is the first position in row-major order with maximal score among those with `x < result_size.0`, a tile index below the batch size and `local_x` below that tile's width. With no such position scoring above minus infinity it is the sentinel |
| Harvest.ScanRow | src/gpu/algorithm.rs:370-413 | one row of the scan keeps the running best the first maximum of every position scanned so far |
| BatchPool.CompleteKeepsJobs | src/gpu/algorithm.rs:312-421 | a finished harvest leaves every other pending harvest well-formed |
| BatchPool.CompleteKeepsCounts | src/gpu/algorithm.rs:420-421 | each countdown still equals the number of its batch's pending harvests after one is decremented |
| BatchPool.CompleteKeepsQueue | src/gpu/algorithm.rs:421 | a decrement keeps the batches outside the window finished |
| BatchPool.CompleteKeepsBuffers | src/gpu/algorithm.rs:416-418 | the buffer pushed back makes every buffer again either free or held by exactly one harvest |
| BatchPool.CompleteKeepsShortlists | src/gpu/algorithm.rs:420 | inserting a harvest keeps every shortlist at `top_k` entries and sorted |
| BatchPool.PendingBound | src/gpu/algorithm.rs:425-433 | with fewer than 20 batches tracked, at most `19 * n_masks` harvests are pending |
| BatchPool.FreeEnough | src/gpu/algorithm.rs:146-157 | a pool of `(20 + 1) * n_masks` buffers always has enough free buffers for the next batch, so `expect("not enough free buffers")` never fires |
| BatchPool.AllDrained | src/gpu/algorithm.rs:436-444 | once every countdown is zero no harvest is pending |
| BatchPool.Grids | src/gpu/algorithm.rs:365-368 | each mask's buffer is read as a packed score grid, valid exactly when it holds `tex_result_size.0 * tex_result_size.1` words |
| BatchPool.NewJobs | src/gpu/algorithm.rs:289-305 | mask `m` of a batch is harvested from buffer `m` of the checkout |
| BatchPool.PopBuffers | src/gpu/algorithm.rs:260-265 | popping `n_masks` buffers takes the top of the stack, and fails exactly when fewer are free |
| BatchPool.SubmitHarvests | src/gpu/algorithm.rs:287-305 | the new batch's countdown is incremented once per mask and one harvest per mask is pending |
| BatchPool.SubmitKeepsJobs | src/gpu/algorithm.rs:289-305 | the new harvests are well-formed |
| BatchPool.SubmitKeepsBuffers | src/gpu/algorithm.rs:260-265 | checked-out buffers move from the free stack to the new harvests |
| BatchPool.SubmitKeepsQueue | src/gpu/algorithm.rs:425 | a new batch joins the back of the window |
| BatchPool.PopKeepsQueue | src/gpu/algorithm.rs:427-433 | the oldest batch leaves the window once finished |
| BatchPool.MaskBestsSnoc | src/gpu/algorithm.rs:420 | a completed harvest adds its best to its own mask's list of bests only |
| BatchPool.LogCompleteAt | src/gpu/algorithm.rs:420 | inserting a harvest's best keeps every shortlist equal to its mask's logged bests inserted into sentinels |
| BatchPool.LogComplete | src/gpu/algorithm.rs:365-420 | a harvest completing with its grid's first maximum keeps the shortlists the logged bests inserted in completion order into sentinels, and every logged best a first maximum |
| BatchPool.LogMoves | src/gpu/algorithm.rs:416-421 | completing a harvest moves its scan from pending to the log; the multiset of scans is kept |
| BatchPool.WorksOfNewJobs | src/gpu/algorithm.rs:289-305 | a new batch schedules one scan per mask, mask `m` on grid `m` |
| BatchPool.SubmitBatch | src/gpu/algorithm.rs:260-305 | submitting on the fields' values: `n` buffers come off the top of the free stack, one harvest per mask is registered under a new countdown of `n`, and the invariant is kept |
| BatchPool.CompleteKeepsInv | src/gpu/algorithm.rs:416-421 | a harvest completing keeps the pool invariant |
| BatchPool.RetireJob | src/gpu/algorithm.rs:416-421 | a harvest completing on the fields' values: buffer back, countdown minus one, best inserted and logged; invariant and fold kept |
| BatchPool.FinishedAll | src/gpu/algorithm.rs:436-444 | once every tracked batch has finished, nothing is pending and every buffer is free |
| GpuAlgo.Algo.constructor | src/gpu/algorithm.rs:105-157 | `n_masks` shortlists of `n_masks + 10` sentinels, every buffer free, nothing pending and no harvest logged |
| GpuAlgo.Algo.Complete | src/gpu/algorithm.rs:312-421 | a harvest finds the first maximum of its grid, gives its buffer back, decrements its batch's countdown, inserts its best into its mask's shortlist and is logged; nothing else changes |
| GpuAlgo.Algo.Retire | src/gpu/algorithm.rs:416-421 | the bookkeeping after a harvest's scan: its buffer goes back on the free stack, its best is inserted into its mask's shortlist, its batch's countdown drops by one and it leaves the pending list for the log; the invariant, including the fold, is kept |
| GpuAlgo.Algo.Drain | src/gpu/algorithm.rs:429-432 | polling until batch `b`'s countdown is zero: no countdown grows, every scan submitted since the reset is still pending or logged, and the shortlists stay the logged first-maximum bests inserted in completion order into sentinels |
| GpuAlgo.Algo.RenderFrame | src/gpu/algorithm.rs:162-434 | one batch is submitted and adds one scan per mask of the kernel's output to the scans since the reset; when the window reaches 20 batches the oldest is drained and removed; the shortlists stay the fold of the logged first-maximum bests |
| GpuAlgo.Algo.DrainOldest | src/gpu/algorithm.rs:427-433 | with 20 batches in the window, the oldest is waited for until its countdown is zero and then removed from the window; no countdown grows and every scan submitted since the reset is still pending or logged |
| GpuAlgo.Algo.Submit | src/gpu/algorithm.rs:227-425 | one buffer per mask comes off the free stack; one harvest per mask and one countdown of `n_masks` are added |
| GpuAlgo.Algo.PopOldest | src/gpu/algorithm.rs:427-433 | `rwait.remove(0)` of a finished batch changes nothing else |
| GpuAlgo.Algo.Finish | src/gpu/algorithm.rs:436-445 | after `finish` no harvest is pending and every buffer is free; every scan submitted since the reset was logged exactly once; result `m` is mask `m`'s first-maximum bests inserted in completion order into `top_k` sentinels, sorted with `top_k` entries, so by `TopK.InsertAllKeepsBest` it is the top `top_k` of those bests and the sentinels |
| GpuAlgo.Algo.WaitAll | src/gpu/algorithm.rs:437-443 | the loop of `finish` waits for every batch in the window: afterwards each of their countdowns is zero, the window is unchanged and every scan submitted since the reset is still pending or logged |
| GpuAlgo.Algo.Reset | src/gpu/mod.rs:119-124 | the results reset before a run leaves every shortlist all sentinels and the log of the run empty; nothing else changes |
| Dispatch.Pos | src/gpu/mod.rs:38-40 | `Tile::pos` is `(x, y, z)` |
| Dispatch.PrepareTile | src/gpu/mod.rs:83-94 | a tile record takes its position from `extract_tile_pos` of its path; its width is at most `TILE_HEIGHT` |
| Dispatch.PrepareTileOfPath | src/gpu/mod.rs:83-94 | the record of `{z}/{y}/{x}.{ext}` is at `(x, y, z)` with width `deform_width(TILE_HEIGHT, y, z)` |
| Dispatch.PrepareAll | src/gpu/mod.rs:65-96 | `prepare` builds one record per path, in order, and fails if any path does |
| Dispatch.Allowed | src/gpu/mod.rs:212-218 | the filtered list holds exactly the stored tiles whose position is not forbidden |
| Dispatch.AllowedConcat | src/gpu/mod.rs:212-218 | the filter keeps the tiles' order |
| Dispatch.AllowedAll | src/gpu/mod.rs:212-218 | with no forbidden position among them, every tile is kept |
| Dispatch.AllowedIdempotent | src/gpu/mod.rs:212-218 | filtering twice is filtering once |
| Dispatch.Chunks | src/gpu/mod.rs:260-262 | `chunks(16)` gives non-empty pieces, all of exactly 16 except possibly the last |
| Dispatch.FlattenChunks | src/gpu/mod.rs:260-262 | the batches laid end to end are the filtered list |
| Dispatch.ChunksCount | src/gpu/mod.rs:260-262 | there are just enough batches to hold every tile |
| Dispatch.TileWidths | src/gpu/algorithm.rs:302-305 | a batch is handed on as each tile's position and width, in order |
| Dispatch.Dispatched | src/gpu/mod.rs:260-265 | `render_frame` is called once per chunk of the filtered list, in order |
| Dispatch.DispatchedNotForbidden | src/gpu/mod.rs:212-265 | no forbidden tile is ever dispatched |
| Dispatch.Zip | src/gpu/mod.rs:269-271 | `zip` pairs the i-th mask id with the i-th result, up to the shorter list |
| Dispatch.Outputs | src/gpu/algorithm.rs:243-252 | every mask of a batch gets the kernel's output for that batch |
| Dispatch.State.constructor | src/gpu/mod.rs:51-63 | a new state has no tiles and a fresh `Algo` |
| Dispatch.State.Prepare | src/gpu/mod.rs:65-107 | the stored tiles become the records of the given paths |
| Dispatch.State.RunOnImage | src/gpu/mod.rs:109-273 | panics (`None`) exactly when the number of masks is not `n_masks`, or when there are no masks (`masks[0]` at line 126), changing nothing. Otherwise mask id `i` is paired with shortlist `i`, which is mask `i`'s first-maximum bests inserted in completion order into sentinels, so by `TopK.InsertAllKeepsBest` the top `top_k` of them; the logged scans are, as a multiset, exactly those of the filtered chunks in order; with no tile dispatched every shortlist is all sentinels |
| Dispatch.State.RenderAll | src/gpu/mod.rs:260-265 | `render_frame` is called on each chunk in order: the chunks are appended to the submitted batches, and the scans since the reset are exactly one per mask of the kernel's output for each chunk |
| Data.Ceil | src/data.rs:57 | `ceil` of a non-negative value is the least integer not below it |
| Data.DeformWidth | src/data.rs:56-58 | `deform_width(w, y, z)` is the least whole number at least `w * deformation(y, z)`, and never more than `w` when the deformation lies in [0, 1] |
| Data.ExtractTilePos | src/data.rs:60-73 | reads x, y and z from the last three path components; fewer than three components, or a file name without a `.`, fails |
| Data.ExtractTilePosOfPath | src/data.rs:60-73 | any path ending in `{z}/{y}/{x}.{ext}`, with either separator, gives `(x, y, z)` |
| Data.FilterKept | src/data.rs:27-28 | the lines kept are exactly those that are not blank after trimming and do not start with `#` |
| Data.FilterKeptConcat | src/data.rs:27-28 | the filter keeps the lines' order |
| Data.Fields | src/data.rs:30-38 | the eight positional fields, each trimmed; fewer than eight fields fail |
| Data.MapAll | src/data.rs:29-53 | the collected map succeeds exactly when every element converts, giving one result per element in order |
| Data.ParseCsv | src/data.rs:23-54 | one record per kept data line, in file order, or a failure when any kept line does not parse |
| Data.ParseRecord | src/data.rs:29-52 | the `map` closure of `parse_csv` panics (`None`) exactly when there are fewer than eight fields or one of the eight trimmed fields does not parse; otherwise frame, tile_x, tile_y, tile_z, zoom, x, y and score are fields 0 to 7 in that order, and later fields are ignored |
| Data.HeaderIgnored | src/data.rs:24-26 | the first line is dropped whatever it holds, and only the filter applies to the rest |
| Text.Split | src/data.rs:30 | `split` always yields at least one piece |
| Text.SplitNoSep | src/data.rs:30 | text without a separator splits into itself |
| Text.SplitConcat | src/data.rs:61-63 | splitting at one separator splits both sides independently |
| Text.TrimStart | src/data.rs:31-38 | `trim_start` returns a suffix of the text; every character it removes is whitespace and the result does not start with whitespace |
| Text.TrimEnd | src/data.rs:31-38 | `trim_end` returns a prefix of the text; every character it removes is whitespace and the result does not end with whitespace |
| Text.TrimNoWhitespace | src/data.rs:31-38 | text with no whitespace at either end is its own trim |
| Text.SplitOnce | src/data.rs:64-67 | `split_once` splits at the first occurrence, and fails exactly when there is none |
| Text.SplitOnceFirst | src/data.rs:64-67 | the text before the first `.` is what `split_once` returns |
| Text.LinesOfJoinLines | src/data.rs:24-26 | `lines` of text written line by line gives back those lines |
| Text.ParseU32 | src/data.rs:31-37 | a parsed `u32` is at most `u32::MAX` |
| Text.NatToStr | src/gpu_all.rs:235-247 | the decimal display is a non-empty run of digits |
| Text.ParseNatToStr | src/gpu_all.rs:235-247 | parsing what the row writer printed gives the number back |
| MaskDot.Paired | src/mask.rs:21 | `zip` pairs pixels up to the shorter image |
| MaskDot.Dot | src/mask.rs:16-31 | the loop's three accumulators are the dot product and the two squared norms of the red and green channels over the paired pixels |
| MaskDot.CrossSymmetric | src/mask.rs:28 | `sum_exact(a, b) == sum_exact(b, a)` |
| MaskDot.DotSwap | src/mask.rs:21-31 | swapping the masks keeps `sum_exact` and swaps `norm1_exact` with `norm2_exact` |
| MaskDot.CrossIgnoresBlueAlpha | src/mask.rs:22-30 | channels 2 and 3 never affect an accumulator |
| MaskDot.CrossPrefix | src/mask.rs:21 | pixels past the shorter image are never read |
| MaskDot.PairDotBound | src/mask.rs:28-30 | one pixel pair adds at most `2 * 255^2` |
| MaskDot.CrossBound | src/mask.rs:17-30 | each accumulator is at most `2 * 255^2 * n` for `n` paired pixels |
| MaskDot.NoOverflow | src/mask.rs:17-30 | the `u64` accumulators cannot wrap for up to `2^47` paired pixels |
| MaskDot.CauchySchwarz | src/mask.rs:28-36 | `sum_exact^2 <= norm1_exact * norm2_exact`, so the similarity is at most 1 |
| MaskDot.SimilarSelf | src/mask.rs:57-61 | a mask is always similar to itself |
| MaskDot.SquareMonoReal | src/mask.rs:33-36 | squaring keeps the order of non-negative reals, the step that turns the quotient test into one without square roots |
| MaskDot.RatioTest | src/mask.rs:36 | for a non-negative numerator and a positive denominator, `s / q >= 0.8` holds exactly when `25 * s^2 >= 16 * q^2` |
| MaskDot.SimilarIsRatio | src/mask.rs:33-36 | `Similar` on the accumulators is `!(dot < 0.8)`: when the product of the two square roots is positive it holds exactly when `sum / (sqrt(norm1) * sqrt(norm2)) >= 0.8` in real arithmetic; when the product is zero (the NaN or infinite quotient) it holds |
| MaskDot.ZeroMaskNorm | src/mask.rs:33-36 | a mask with zero red and green has a zero norm. The unguarded 0/0 gives NaN, which `< 0.8` never rejects |
| ZeroFill.Gather | src/tiles_grad.rs:42-64 | the neighbour count and channel sums, each sum at most 255 per counted neighbour |
| ZeroFill.Average | src/tiles_grad.rs:71-72 | the per-channel truncating average, which fits in a `u8` |
| ZeroFill.Decide | src/tiles_grad.rs:25-80 | a pixel is kept exactly when it is not a hole, and a filled value is never a hole |
| ZeroFill.Next | src/tiles_grad.rs:23-86 | one pass keeps the image's size and gives each pixel its decided value |
| ZeroFill.ZerosInRow | src/tiles_grad.rs:66-79 | the holes among a row's first `n` pixels |
| ZeroFill.Zeros | src/tiles_grad.rs:66-79 | the holes in the first `k` rows |
| ZeroFill.CountedRowIsZeros | src/tiles_grad.rs:66-79 | a pass that does not give up counts exactly the holes of a row it leaves |
| ZeroFill.CountedIsZeros | src/tiles_grad.rs:66-86 | after a pass, `n_zeros` is the number of holes in the new image |
| ZeroFill.CountedRowLe | src/tiles_grad.rs:66-79 | a pass never counts more holes in a row than the row had |
| ZeroFill.CountedLe | src/tiles_grad.rs:18-21 | the hole count never increases from one pass to the next |
| ZeroFill.ZerosInRowNone | src/tiles_grad.rs:21 | a row has no holes exactly when its count is zero |
| ZeroFill.ZerosNone | src/tiles_grad.rs:21 | the image has no holes exactly when `n_zeros` is zero |
| ZeroFill.ZeroFillSpec | src/tiles_grad.rs:15-95 | on success the image keeps its size, has no holes, and keeps every pixel that was not a hole |
| ZeroFill.NextKeeps | src/tiles_grad.rs:27-29 | a pass never changes a pixel that is not a hole |
| ZeroFill.LoopResult | src/tiles_grad.rs:21-94 | every run of the loop that succeeds delivers a hole-free image of the same size that keeps the non-hole pixels |
| ZeroFill.NoHoles | src/tiles_grad.rs:21-23 | an image without holes comes back unchanged |
| ZeroFill.Idempotent | src/tiles_grad.rs:94 | `zero_fill` of a successful result is that result |
| ZeroFill.Snapshot | src/tiles_grad.rs:16 | the contents of the `new_image` buffer, pixel by pixel |
| ZeroFill.Neighbours | src/tiles_grad.rs:42-64 | the loop over the eight neighbours computes the specified count and sums |
| ZeroFill.PassRow | src/tiles_grad.rs:24-83 | one row of a pass: it gives up exactly where the specification does, and otherwise writes the row's new pixels and counts its holes |
| ZeroFill.Pass | src/tiles_grad.rs:22-86 | one pass over the double buffer computes the next image and `n_zeros` |
| ZeroFill.ZeroFill | src/tiles_grad.rs:15-95 | the loop over passes returns what the specification gives |
| Render.Pow2 | src/render.rs:11 | `1 << z_up` is at least 1 |
| Render.CropWidth | src/render.rs:26 | the matched tile's deformed width is at most `TILE_HEIGHT` |
| Render.TilesNeeded | src/render.rs:13-40 | fails exactly when the deformation is undefined, or the deformed width is 0 while the mask is non-empty (a division by zero). Otherwise it returns the set of tiles under every upscaled pixel |
| Render.RowTilesMembers | src/render.rs:29-37 | the inner loop collects exactly the tiles under the row's pixels |
| Render.RowsMembers | src/render.rs:28-37 | the outer loop collects exactly the tiles under the pixels of the rows so far |
| Render.NeededMembers | src/render.rs:28-38 | a tile is needed exactly when some upscaled pixel lies on it |
| Render.EmptyMask | src/render.rs:28-29 | an empty mask needs no tile |
| Render.NeededLowerBounds | src/render.rs:33-36 | every needed tile is at level `tile_z + z_up`, at or after `tile_x * 2^z_up` and `tile_y * 2^z_up` |
| Render.NeededHasOrigin | src/render.rs:28-38 | the tile under the first pixel is needed, so the set is non-empty |
| Render.NeededAtBox | src/render.rs:30-36 | with a non-decreasing zoom, the tile under any pixel lies between the tiles under the first and the last pixel |
| Render.NeededBox | src/render.rs:28-38 | with a non-decreasing zoom, every needed tile lies in that box |
| Render.LookupKey | src/render.rs:117-131 | the key and in-tile pixel `render_final` reads, within the resized tile |
| Render.LookupNeverMisses | src/render.rs:117-129 | every key `render_final` looks up is in the set `tiles_needed` returned for the same crop, so the lookup never misses |
| Render.RenderFields | src/render.rs:179-188 | the first nine fields, each trimmed; fewer than nine fail |
| Render.ParseRenderRecord | src/render.rs:178-201 | the closure of `render` panics (`None`) exactly when there are fewer than nine fields or one of the nine trimmed fields does not parse; otherwise frame, tile, zoom, x, y, score and time are fields 0 to 8 in that order |
| Render.ReadFrames | src/render.rs:174-202 | a file without lines fails; otherwise one record per line after the first, in order |
| Render.ReadFramesSkipsHeader | src/render.rs:175-177 | only the first line is skipped: no blank or comment filter applies |
| Render.BlankLineRejected | src/render.rs:177-180 | a blank line makes the reader panic |
| Render.CommentLineRejected | src/render.rs:177-180 | a `#` line makes this reader panic, though `parse_csv` would skip it |
| Sequencer.CheckNoDuplicates | src/gpu_all.rs:70-77 | the check passes exactly when no two adjacent sorted records share a frame |
| Sequencer.NoDuplicatesIncreasing | src/gpu_all.rs:66-77 | once the check passes, the sorted frame ids are strictly increasing |
| Sequencer.CollapseRanges | src/gpu_all.rs:79-91 | the loop reports the specified runs of consecutive frames |
| Sequencer.RunStep | src/gpu_all.rs:84-89 | one increasing id either closes the open run at a gap or extends it when consecutive; the ranges stay separated and together with the open run cover exactly the ids seen |
| Sequencer.RunsOk | src/gpu_all.rs:81-91 | the collapse loop's invariant: closed ranges separated, the current run extends the last id |
| Sequencer.CollapsedRanges | src/gpu_all.rs:79-100 | the ranges are non-empty, increasing and separated by gaps of more than one frame, and their union is exactly the set of done frames |
| Sequencer.FindDone | src/gpu_all.rs:125-126 | the binary search finds a record of the frame exactly when one exists |
| Sequencer.FindDoneUnique | src/gpu_all.rs:125-126 | without duplicates the record found is the only one of its frame |
| Sequencer.Evicted | src/gpu_all.rs:198-202 | the eviction drops only the oldest entries and keeps the ring at nine or fewer |
| Sequencer.RingKeepsLastNine | src/gpu_all.rs:127-131 | a push followed by eviction keeps the ring equal to the last nine tiles chosen |
| Sequencer.RingAfterFrames | src/gpu_all.rs:198-202 | after `n` frames the ring holds the last `min(n, 9)` chosen tiles, oldest first |
| Sequencer.Threshold | src/gpu_all.rs:179-180 | `min(0, last_score - 0.3)` is never above 0 or above `last_score - 0.3`, and is one of the two |
| Sequencer.ForbiddenMembers | src/gpu_all.rs:166-187 | the forbidden set holds every ring tile and every tile pruned by a similar remembered frame, and nothing else |
| Sequencer.PrunedIff | src/gpu_all.rs:172-186 | a remembered frame with `dot >= 0.8` forbids exactly its tiles scoring below its threshold |
| Sequencer.SimilarMasksSymmetric | src/gpu_all.rs:175 | the test `!(mask_clean.dot(&prev_mask) < 0.8)` does not depend on which mask is the current one, and a mask is always similar to itself |
| Sequencer.BuildForbidden | src/gpu_all.rs:166-187 | the loops over `prev_results` and their tile maps build exactly the forbidden set |
| Sequencer.PruneInto | src/gpu_all.rs:179-186 | for a remembered frame whose mask looks alike, the loop over its tile scores inserts exactly the tiles scoring below `min(0, last_score - 0.3)` and keeps everything already forbidden |
| Sequencer.ForbiddenStep | src/gpu_all.rs:172-186 | one more remembered frame adds exactly the tiles it prunes |
| Sequencer.Capped | src/gpu_all.rs:189-191 | the cap drops only the oldest entry and keeps at most 100 of 101 |
| Sequencer.RowSplits | src/gpu_all.rs:235-248 | a written row splits back into its nine fields |
| Sequencer.Row | src/gpu_all.rs:235-248 | the row `writeln!` appends opens with the frame index in decimal and a comma, the field the reader takes as `frame` |
| Sequencer.JoinFieldsHead | src/gpu_all.rs:237 | the comma-joined fields open with the first field and a comma |
| Sequencer.DigitsField | src/data.rs:31-37 | a printed integer field parses back after trimming |
| Sequencer.RowRoundTrip | src/gpu_all.rs:235-248 | `parse_csv`'s record parser gives back the row's frame, tile_x, tile_y, tile_z, x and y exactly |
| Sequencer.RecordOfParts | src/data.rs:29-51 | a line of decimal integer fields parses to those integers |
| Sequencer.RowKept | src/data.rs:27-28 | a written row is one line that `parse_csv` keeps |
| Sequencer.HeaderFields | src/gpu_all.rs:106-111 | the header is one line of nine comma-separated names, in the row's field order |
| Sequencer.FileRoundTrip | src/gpu_all.rs:106-248 | a results file written from scratch reads back, through `parse_csv`, one record per searched frame, in order, with its frame and position |
| Sequencer.Trace | src/gpu_all.rs:122-278 | the states of the loop: one more than there are frames, starting from the state before the loop |
| Sequencer.TraceStep | src/gpu_all.rs:122-278 | each state of the trace is the one before it after its frame |
| Sequencer.Searched | src/gpu_all.rs:125-144 | the number of searched frames is at most the number of frames |
| Sequencer.FramePushes | src/gpu_all.rs:125-131 | a frame appends to the chosen tiles the recorded tile when the results file has it, and its search's best otherwise |
| Sequencer.FrameWrites | src/gpu_all.rs:125-248 | a searched frame writes its search's row and a replayed frame writes nothing |
| Sequencer.TraceChosenLength | src/gpu_all.rs:127-198 | after `k` frames the chosen tiles are the earlier ones followed by `k` more |
| Sequencer.TraceChosenAt | src/gpu_all.rs:127-198 | frame `i` pushed its tile right after the earlier ones and the later frames keep it |
| Sequencer.TraceChosen | src/gpu_all.rs:127-198 | after `k` frames the chosen tiles are the earlier ones followed by one per frame, each the one its frame pushes from the state before it |
| Sequencer.TraceWrittenLength | src/gpu_all.rs:125-248 | after `k` frames the rows are the earlier ones followed by one per searched frame |
| Sequencer.TraceRowAt | src/gpu_all.rs:235-248 | a searched frame's row follows the rows of the searched frames before it, and the later frames keep it |
| Sequencer.TraceWritten | src/gpu_all.rs:125-248 | after `k` frames the rows are the earlier ones followed by one per searched frame, in frame order, none for a replayed frame |
| Sequencer.TraceFramesChosen | src/gpu_all.rs:122-198 | the last state of the trace holds the chosen tiles the loop promises |
| Sequencer.TraceFramesWritten | src/gpu_all.rs:122-248 | the last state of the trace holds the rows the loop promises |
| Sequencer.FrameLoop.constructor | src/gpu_all.rs:46-116 | an empty ring and no remembered frames; the first line is the header for an empty file, otherwise an empty line |
| Sequencer.FrameLoop.PushRing | src/gpu_all.rs:198-202 | push, then `remove(0)` once the ring reaches ten |
| Sequencer.FrameLoop.Replay | src/gpu_all.rs:125-144 | a done frame runs no search and writes no row. It pushes and evicts the ring like a searched frame, and keeps the outer forbidden set in step |
| Sequencer.FrameLoop.Search | src/gpu_all.rs:166-277 | a searched frame runs with the specified forbidden set, pushes its best tile onto the ring, writes one row and remembers the frame, after capping the remembered list |
| Sequencer.FrameLoop.CapHistory | src/gpu_all.rs:189-191 | the oldest remembered frame is removed once there are more than 100, so at most 100 remain before the push |
| Sequencer.FrameLoop.Record | src/gpu_all.rs:198-277 | after a search the best tile is pushed onto the ring with its eviction, one row is written and the frame is remembered; nothing else changes |
| Sequencer.FrameLoop.Step | src/gpu_all.rs:122-277 | a frame the results file has is replayed: its tile is pushed and evicted with the outer forbidden set kept in step, nothing is written. Any other frame is searched with the ring and the similar remembered frames forbidden; its tile is pushed, the history capped then extended and its row written. The new state is `StepOf` of the old |
| Sequencer.FrameLoop.Frames | src/gpu_all.rs:122-278 | the state after the loop is the last of the trace of its frames; frame `k` pushed the tile it replayed or found from the state before it; the rows are the earlier ones followed by one per searched frame, in frame order, and none for a replayed frame |
| Framework.MkBgLayout | src/gpu/framework.rs:475-509 | the render layout: two samplers, then one texture per input, numbered from 0 |
| Framework.MkBgLayoutCompute | src/gpu/framework.rs:399-439 | the compute layout: one texture per input, then one storage buffer per read-write buffer, numbered from 0 |
| Framework.MkBgCompute | src/gpu/framework.rs:441-471 | the compute bind group: a view of each texture, then each buffer, numbered from 0 |
| Framework.RenderBindings | src/gpu/framework.rs:475-539 | both render builders number consecutively from 0, with samplers at 0 and 1 and textures after them. A bind group fits the layout exactly when its texture count is the layout's input count |
| Framework.ComputeBindings | src/gpu/framework.rs:399-471 | both compute builders number consecutively from 0, `in_texs.len() + rw_bufs.len()` entries in all. A bind group fits a layout exactly when both counts agree |
| Framework.Lazy | src/gpu/framework.rs:546-560 | a sampler slot hands out what it holds, and is filled with a fresh sampler only when empty |
| Framework.LazyStable | src/gpu/framework.rs:546-576 | once filled, every later call returns the same sampler |
| Framework.Samplers.constructor | src/gpu/framework.rs:541-544 | both sampler slots start empty |
| Framework.Samplers.GetLinear | src/gpu/framework.rs:546-560 | `get_linear_sampler` creates on first use and returns the stored sampler |
| Framework.Samplers.GetNearest | src/gpu/framework.rs:562-576 | `get_nearest_sampler`, the same for the nearest sampler |
| Framework.Samplers.MkBg | src/gpu/framework.rs:511-539 | `mk_bg`: the linear and nearest samplers at 0 and 1, then a view of each texture |
| Framework.MkPipeline | src/gpu/framework.rs:309-330 | a render pipeline is built exactly when the shader compiles, with the layout for its input count |
| Framework.PrintsError | src/gpu/framework.rs:323-328 | the compilation error reaches stderr exactly when the build fails and the call is verbose: never on a successful build, never on a quiet rebuild |
| Framework.MkComputePipeline | src/gpu/framework.rs:278-307 | `mk_compute_pipeline` always builds, with the layout of the call that builds it: numbered from 0, and fitting exactly that call's bind group of textures then buffers |
| Framework.SeeKernel | src/gpu/framework.rs:217-220 | a kernel's update flag defaults to false the first time it is seen, and no other flag changes |
| Framework.FlagsStayFalse | src/gpu/framework.rs:217-220 | lookups never raise an update flag |
| Framework.CacheEntry | src/gpu/framework.rs:229-239 | an absent key is built and inserted, and a failed first build panics. A present key is rebuilt only with the flag up, and a failed rebuild keeps the old entry |
| Framework.LookupIdempotent | src/gpu/framework.rs:229-237 | with the flag down, a second lookup returns the same pipeline and changes nothing |
| Framework.ComputeKeyedByName | src/gpu/framework.rs:255-271 | the compute cache is keyed by kernel name only: a later call gets the first pipeline, whose layout fits the later call's bind group exactly when its texture and buffer counts agree |
| Framework.PipelineCache.constructor | src/gpu/framework.rs:190-195 | all three maps start empty |
| Framework.PipelineCache.GetPipeline | src/gpu/framework.rs:209-240 | `get_pipeline` is the cache lookup keyed by `(kernel, format, n_inputs)`. A compilation error is printed only on a failed first build: a rebuild runs quietly |
| Framework.PipelineCache.GetComputePipeline | src/gpu/framework.rs:242-272 | `get_compute_pipeline` is the cache lookup keyed by kernel name, whose builder never fails |
| Framework.Pass | src/gpu/framework.rs:50-72 | a render pass panics only on a failed first build, and its bind group always fits the pipeline's layout. The pipeline and the render cache afterwards are `get_pipeline`'s cache entry for `(kernel, format, n_inputs)`; the kernel's flag is inserted as false if absent; the compute cache is unchanged. A pass that got its pipeline leaves its key cached, so a later pass with the same kernel, format and input count cannot panic. Its bind group is the linear and nearest samplers, created on first use, then the input views. A panicking pass builds no group and leaves the samplers as they were |
| Framework.ComputePass | src/gpu/framework.rs:74-92 | a compute pass uses the cached pipeline unless the kernel is new or flagged, with a bind group of its own textures and buffers. The compute cache afterwards is `get_compute_pipeline`'s cache entry for the kernel name; the kernel's flag is inserted as false if absent; the render cache is unchanged |

## Left out

- The GPU device and queue: texture writes, submissions, copies, buffer mapping, polling, shader compilation and error scopes. A kernel's output is a function of the batch and the mask. A compiled shader is an `Option` of an id, a sampler or pipeline an opaque id.
- Threads and channels: the rayon tasks, the bounded decoding channel of `run_on_image`, mutexes and atomics. Everything runs in sequence. A harvest may complete in any order (`Complete` takes any pending index), but blocking and backpressure are not modelled.
- The buffer-mapping failure path of `render_frame`: it returns without giving the buffer back or decrementing the countdown, so the drain would never end. The model has only successful mappings.
- Floating-point numerics:
  - the f16 decoding of the packed halves is a parameter;
  - `deformation` is an abstract function, with its documented range [0, 1] as a hypothesis;
  - the zoom scaling of pixel coordinates is an abstract function;
  - `f32` parsing and the formatting of zoom, score and time are abstract;
  - `calc_error`, the `avg_error` decay and reweighting, `last_tile_rgb` and the ETA display are left out;
  - NaN and plus infinity are not scores. The one NaN that matters, the `0/0` of `Mask::dot`, is handled on the integers.
- Image and file I/O: decoding, resizing, saving, `render_final`'s compositing, `fetch_tiles_to_cache`, and opening, seeking and flushing the results file. The file's content is a parameter and the rows written are a sequence.
- `frames_already_done` is sorted by the standard library. The model takes the sorted records as its input.
- `TILE_HEIGHT` is a parameter, since no modelled file defines it.
- The pipeline cache keys are hashed to 64 bits. The model keys by the tuple itself, so hash collisions are not modelled. The update flags are keyed by the kernel name's address; the model keys them by the name.
- Nothing in src/gpu/framework.rs raises a kernel's update flag. The model keeps the flag map as state, so the rebuild branch is modelled, but no operation sets a flag.
- Framework.MkBgLayoutCompute: the texture sample type and the `unwrap` of `sample_type` in `mk_bglayout_compute` are not modelled; a layout entry records only whether it is a sampler, a texture or a storage buffer.
- The uniform bind group 0 and the push constants of a render pass, and the draw and dispatch calls themselves.
- Text.ParseU32: models a `u32` field; integers wider than 32 bits in the CSV and the `as u32` casts of positions are not modelled.
- MaskDot.Similar: `dot >= 0.8` is decided exactly, as `25 * sum^2 >= 16 * norm1 * norm2` on the integer accumulators. The program computes `sum / (sqrt(norm1) * sqrt(norm2))` in `f64`, rounds it to `f32` and compares it with `0.8f32`, so a ratio a few `f32` units below 0.8 that rounds up to `0.8f32` counts as similar there and not in the model. `Sequencer.SimilarMasks` inherits this.
- MaskDot.NoOverflow: the `u64` accumulators are unbounded integers; overflow is excluded only for images of up to `2^47` pixels.
- GpuAlgo.Algo.RenderFrame: drains the oldest batch and then removes it from the window. The source removes it first and then waits, which leaves the same state.
- Render.TilesNeeded: the `u32` arithmetic on pixel coordinates does not wrap in the model.
- Render.TilesNeeded: `None` for a deformation outside [0, 1] is a limit of the model, not a panic of the source. `deformation` is abstract, and its documented range is what bounds the deformed width by the tile width.
- Harvest.Scan: only geometries with `mask_w < TILE_HEIGHT` and `mask_h <= TILE_HEIGHT` are modelled (`ValidGeometry`). For the others src/gpu/algorithm.rs panics: `TILE_HEIGHT - mask_size` underflows as `u32`, or a zero-width result row reaches `chunks(0)`.
- Sequencer.FrameLoop.Search: `tile_max_scores` is an input of the search, since no modelled code fills it in.
