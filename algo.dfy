/** `Algo` of src/gpu/algorithm.rs as an object: its fields are the state
    that the `render_frame` and `finish` closures share, and its methods
    update them in place. The value-level invariant it keeps is stated in
    module `BatchPool`. */
module GpuAlgo {
  import opened Basics
  import opened TopK
  import opened Harvest
  import opened BatchPool

  class Algo {
    /** Number of masks searched at once; each shortlist keeps
        `n_masks + 10` positions. */
    const nMasks: nat
    const topK: nat
    const g: Geometry
    const dec: HalfDecoder

    /** `best_pos`: one shortlist per mask. */
    var bestPos: seq<seq<PosResult>>
    /** `free_buffers`: a stack of staging-buffer ids. */
    var freeBuffers: seq<nat>
    /** `wait_for_data` of every batch submitted so far, by batch number. */
    var counters: seq<nat>
    /** `result_bufs_waits`: the batches still tracked, oldest first. */
    var waits: seq<nat>
    /** Harvests submitted and not yet run. */
    var pending: seq<Job>
    /** Number of batches already removed from the front of `waits`. */
    ghost var drained: nat
    /** The tiles of every batch handed to `render_frame`, in order. */
    ghost var submitted: seq<seq<TileWidth>>
    /** The harvests completed since the last reset, in completion order. */
    ghost var log: seq<Harvested>

    /** Every staging buffer, by id. */
    function AllBuffers(): seq<nat>
      reads this
    {
      Pool(nMasks)
    }

    /** The invariant of the object, also in the middle of draining the
        oldest batch (where the queue holds one batch more). */
    ghost predicate Inv()
      reads this
    {
      InvOf(nMasks, topK, g, bestPos, freeBuffers, counters, waits, pending, drained)
      && LogOk(nMasks, topK, bestPos, log)
    }


    /** Between operations at most 19 batches are tracked. */
    ghost predicate Valid()
      reads this
    {
      Inv() && |waits| < TILE_BATCHES_IN_PARALLEL
    }

    /** `Algo::new(.., mask_size, n_masks)`: shortlists of sentinels and
        `(TILE_BATCHES_IN_PARALLEL + 1) * n_masks` free buffers. */
    constructor (geometry: Geometry, n: nat, decoder: HalfDecoder)
      requires ValidGeometry(geometry)
      ensures Valid() && nMasks == n && g == geometry && dec == decoder && submitted == []
      ensures log == []
      ensures bestPos == seq(n, _ => Sentinels(n + 10))
      ensures freeBuffers == AllBuffers() && pending == [] && counters == [] && waits == []
    {
      nMasks, topK, g, dec := n, n + 10, geometry, decoder;
      bestPos := seq(n, _ => Sentinels(n + 10));
      freeBuffers := Range(0, (TILE_BATCHES_IN_PARALLEL + 1) * n);
      counters, waits, pending := [], [], [];
      drained := 0;
      submitted := [];
      log := [];
      new;
      assert BufferIds(pending) == [];
      forall m | 0 <= m < n
        ensures bestPos[m] == InsertAll(Sentinels(topK), MaskBests(log, m))
      {
      }
      FoldedIntro(topK, bestPos, log, n);
    }

    /** A harvest runs: the buffer's scan is inserted into its mask's
        shortlist, the buffer goes back on the free stack, and the batch's
        countdown drops by one. */
    method Complete(k: nat) returns (best: PosResult)
      requires Inv() && k < |pending|
      modifies this
      ensures Inv() && waits == old(waits) && drained == old(drained) && submitted == old(submitted)
      ensures pending == old(pending[..k] + pending[k + 1..])
      ensures freeBuffers == old(freeBuffers) + [old(pending[k].buffer)]
      ensures counters == old(counters[pending[k].batch := counters[pending[k].batch] - 1])
      ensures IsFirstMax(old(pending[k].grid), best)
      ensures bestPos == old(bestPos[pending[k].mask := Inserted(bestPos[pending[k].mask], best)])
      ensures log == old(log) + [Harvested(old(pending[k].mask), old(pending[k].grid), best)]
    {
      best := Scan(pending[k].grid);
      Retire(k, best);
    }

    /** The bookkeeping once harvest `k` has found `best`. */
    method Retire(k: nat, best: PosResult)
      requires Inv() && k < |pending| && IsFirstMax(pending[k].grid, best)
      modifies this
      ensures Inv() && waits == old(waits) && drained == old(drained) && submitted == old(submitted)
      ensures log == old(log) + [Harvested(old(pending[k].mask), old(pending[k].grid), best)]
      ensures pending == old(pending[..k] + pending[k + 1..])
      ensures freeBuffers == old(freeBuffers) + [old(pending[k].buffer)]
      ensures counters == old(counters[pending[k].batch := counters[pending[k].batch] - 1])
      ensures bestPos == old(bestPos[pending[k].mask := Inserted(bestPos[pending[k].mask], best)])
    {
      var bp, free, cs, ps, lg := RetireJob(nMasks, topK, g, bestPos, freeBuffers, counters, waits, pending, drained,
        log, k, best);
      bestPos, freeBuffers, counters, pending, log := bp, free, cs, ps, lg;
    }

    /** Polling the device until batch `b`'s countdown reaches zero; any
        pending harvest may complete meanwhile. */
    method Drain(b: nat)
      requires Inv() && b < |counters|
      modifies this
      ensures Inv() && waits == old(waits) && drained == old(drained) && submitted == old(submitted)
      ensures |counters| == old(|counters|) && counters[b] == 0
      ensures forall c :: 0 <= c < |counters| ==> counters[c] <= old(counters[c])
      ensures forall w :: TallyOf(log, pending, w) == TallyOf(old(log), old(pending), w)
    {
      while counters[b] > 0
        invariant Inv() && waits == old(waits) && drained == old(drained) && submitted == old(submitted)
        invariant forall w :: TallyOf(log, pending, w) == TallyOf(old(log), old(pending), w)
        invariant |counters| == old(|counters|)
        invariant forall c :: 0 <= c < |counters| ==> counters[c] <= old(counters[c])
        decreases |pending|
      {
        assert |pending| > 0 by {
          assert b in multiset(Batches(pending));
        }
        var k :| 0 <= k < |pending|;
        ghost var log0, pending0 := log, pending;
        var best := Complete(k);
        LogMoves(log0, pending0, k, Harvested(pending0[k].mask, pending0[k].grid, best));
      }
    }

    /** `render_frame` for one batch of tiles: check out one buffer per mask,
        count one harvest per mask, track the batch, and when 20 batches are
        tracked drain the oldest before returning. `outputs[m]` is what the
        kernel leaves in mask `m`'s result texture. */
    method RenderFrame(tiles: seq<TileWidth>, outputs: seq<seq<bv32>>)
      requires Valid() && |outputs| == nMasks
      requires forall m :: 0 <= m < nMasks ==> |outputs[m]| == Stride(g) * ResultH(g)
      modifies this
      ensures Valid() && |counters| == old(|counters|) + 1 && submitted == old(submitted) + [tiles]
      ensures forall w :: TallyOf(log, pending, w) == TallyOf(old(log), old(pending), w) + Count(MaskWork(Grids(g, tiles, outputs, dec)), w)
      ensures forall c :: 0 <= c < old(|counters|) ==> counters[c] <= old(counters[c])
      ensures old(|waits|) + 1 < TILE_BATCHES_IN_PARALLEL ==> waits == old(waits) + [old(|counters|)]
      ensures old(|waits|) + 1 == TILE_BATCHES_IN_PARALLEL ==>
        waits == old(waits[1..]) + [old(|counters|)] && counters[old(waits[0])] == 0
    {
      ghost var pending0 := pending;
      Submit(tiles, outputs);
      CountsAppend(Works(pending0), MaskWork(Grids(g, tiles, outputs, dec)));
      if |waits| >= TILE_BATCHES_IN_PARALLEL {
        DrainOldest();
      }
    }

    /** With 20 batches tracked: wait for the oldest, then stop tracking it. */
    method DrainOldest()
      requires Inv() && |waits| == TILE_BATCHES_IN_PARALLEL
      modifies this
      ensures Valid() && waits == old(waits[1..]) && submitted == old(submitted)
      ensures |counters| == old(|counters|) && counters[old(waits[0])] == 0
      ensures forall c :: 0 <= c < |counters| ==> counters[c] <= old(counters[c])
      ensures forall w :: TallyOf(log, pending, w) == TallyOf(old(log), old(pending), w)
    {
      Drain(waits[0]);
      PopOldest();
    }

    /** Submitting one batch: one buffer per mask comes off the free stack
        and one harvest per mask is registered under the batch's new
        countdown, which joins the queue. */
    method Submit(tiles: seq<TileWidth>, outputs: seq<seq<bv32>>)
      requires Valid() && |outputs| == nMasks
      requires forall m :: 0 <= m < nMasks ==> |outputs[m]| == Stride(g) * ResultH(g)
      modifies this
      ensures Inv() && counters == old(counters) + [nMasks] && waits == old(waits) + [old(|counters|)]
      ensures submitted == old(submitted) + [tiles]
      ensures log == old(log)
      ensures drained == old(drained) && bestPos == old(bestPos)
      ensures old(|freeBuffers|) >= nMasks && freeBuffers == old(freeBuffers[..|freeBuffers| - nMasks])
      ensures pending == old(pending) + NewJobs(old(|counters|), old(Reversed(freeBuffers[|freeBuffers| - nMasks..])),
        Grids(g, tiles, outputs, dec))
      ensures Works(pending) == Works(old(pending)) + MaskWork(Grids(g, tiles, outputs, dec))
    {
      var grids := Grids(g, tiles, outputs, dec);
      var b := |counters|;
      var rest, cs, ps := SubmitBatch(nMasks, topK, g, bestPos, freeBuffers, counters, waits, pending, drained, grids);
      ghost var top := Reversed(freeBuffers[|freeBuffers| - nMasks..]);
      assert ps == pending + NewJobs(b, top, grids);
      freeBuffers, counters, pending, waits, submitted := rest, cs, ps, waits + [b], submitted + [tiles];
    }

    /** `rwait.remove(0)` once the oldest batch has finished. */
    method PopOldest()
      requires Inv() && |waits| == TILE_BATCHES_IN_PARALLEL && counters[waits[0]] == 0
      modifies this
      ensures Valid() && waits == old(waits[1..]) && submitted == old(submitted)
      ensures counters == old(counters) && bestPos == old(bestPos)
      ensures pending == old(pending) && freeBuffers == old(freeBuffers)
      ensures log == old(log)
    {
      PopKeepsQueue(counters, waits, drained);
      waits := waits[1..];
      drained := drained + 1;
    }

    /** `finish`: wait for every tracked batch, then hand out the
        shortlists. Afterwards no harvest is pending and every buffer is
        free again. */
    method Finish() returns (results: seq<seq<PosResult>>)
      requires Valid()
      modifies this
      ensures Valid() && pending == [] && results == bestPos && submitted == old(submitted)
      ensures multiset(freeBuffers) == multiset(AllBuffers())
      ensures forall m :: 0 <= m < nMasks ==> |results[m]| == topK && Sorted(results[m])
      ensures forall w :: Count(Scanned(log), w) == TallyOf(old(log), old(pending), w)
      ensures forall m :: 0 <= m < nMasks ==> results[m] == InsertAll(Sentinels(topK), MaskBests(log, m))
    {
      WaitAll();
      FinishedAll(nMasks, topK, g, bestPos, freeBuffers, counters, waits, pending, drained);
      assert Works(pending) == [];
      results := bestPos;
      FoldedAll(topK, bestPos, log, nMasks);
    }

    /** The loop of `finish`: wait for each tracked batch in turn. */
    method WaitAll()
      requires Valid()
      modifies this
      ensures Valid() && waits == old(waits) && |counters| == old(|counters|) && submitted == old(submitted)
      ensures forall w :: TallyOf(log, pending, w) == TallyOf(old(log), old(pending), w)
      ensures forall j :: 0 <= j < |waits| ==> counters[waits[j]] == 0
    {
      for i := 0 to |waits|
        invariant Valid() && waits == old(waits) && |counters| == old(|counters|) && submitted == old(submitted)
        invariant forall w :: TallyOf(log, pending, w) == TallyOf(old(log), old(pending), w)
        invariant forall j :: 0 <= j < i ==> counters[waits[j]] == 0
      {
        Drain(waits[i]);
      }
    }

    /** The per-mask results reset at the start of a run: every shortlist
        back to sentinels. The log starts afresh; harvests still pending
        will land in the new shortlists. */
    method Reset()
      requires Valid()
      modifies this
      ensures Valid() && bestPos == seq(nMasks, _ => Sentinels(topK)) && submitted == old(submitted)
      ensures freeBuffers == old(freeBuffers) && pending == old(pending) && counters == old(counters) && waits == old(waits)
      ensures log == []
    {
      bestPos := seq(nMasks, _ => Sentinels(topK));
      log := [];
      forall m | 0 <= m < nMasks
        ensures bestPos[m] == InsertAll(Sentinels(topK), MaskBests(log, m))
      {
      }
      FoldedIntro(topK, bestPos, log, nMasks);
    }
  }
}
