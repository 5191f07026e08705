/** The state behind the `render_frame` and `finish` closures of `Algo` in
    src/gpu/algorithm.rs: the per-mask shortlists, the pool of staging
    buffers, one countdown per submitted batch, the queue of batches still
    in flight, and the harvests that have been submitted but have not run.
    A harvest runs whenever the device delivers its buffer, so the model
    lets any pending harvest complete at any time between operations. */
module BatchPool {
  import opened Basics
  import opened TopK
  import opened Harvest

  /** `TILE_BATCHES_IN_PARALLEL`. */
  const TILE_BATCHES_IN_PARALLEL: nat := 20

  /** A submitted harvest: its batch, its mask, the staging buffer it holds
      and the score grid that buffer will deliver. */
  datatype Job = Job(batch: nat, mask: nat, buffer: nat, grid: Grid<bv32>)

  function Batches(jobs: seq<Job>): (s: seq<nat>)
    ensures |s| == |jobs| && forall i :: 0 <= i < |jobs| ==> s[i] == jobs[i].batch
  {
    seq(|jobs|, i requires 0 <= i < |jobs| => jobs[i].batch)
  }

  function BufferIds(jobs: seq<Job>): (s: seq<nat>)
    ensures |s| == |jobs| && forall i :: 0 <= i < |jobs| ==> s[i] == jobs[i].buffer
  {
    seq(|jobs|, i requires 0 <= i < |jobs| => jobs[i].buffer)
  }

  /** How many pending harvests belong to batch `b`. */
  function CountBatch(jobs: seq<Job>, b: nat): nat
  {
    multiset(Batches(jobs))[b]
  }

  /** `lo, lo + 1, ..., hi - 1`. */
  function Range(lo: nat, hi: nat): (r: seq<nat>)
    requires lo <= hi
    ensures |r| == hi - lo && forall i :: 0 <= i < |r| ==> r[i] == lo + i
  {
    seq(hi - lo, i requires 0 <= i < hi - lo => lo + i)
  }

  function Sum(c: seq<nat>): nat
  {
    if c == [] then 0 else Sum(c[..|c| - 1]) + c[|c| - 1]
  }

  /** Changing one entry changes the sum by the difference. */
  lemma {:induction false} SumUpdate(c: seq<nat>, i: nat, v: nat)
    requires i < |c|
    ensures Sum(c[i := v]) + c[i] == Sum(c) + v
  {
    var n := |c| - 1;
    if i < n {
      SumUpdate(c[..n], i, v);
      assert c[i := v][..n] == c[..n][i := v];
    } else {
      assert c[i := v][..n] == c[..n];
    }
  }

  /** Entries that are zero below `lo` and at most `n` elsewhere sum to at
      most `n` per entry from `lo` on. */
  lemma {:induction false} SumBound(c: seq<nat>, lo: nat, n: nat)
    requires lo <= |c|
    requires forall b :: 0 <= b < lo ==> c[b] == 0
    requires forall b :: 0 <= b < |c| ==> c[b] <= n
    ensures Sum(c) <= n * (|c| - lo)
  {
    if c != [] {
      var m := |c| - 1;
      if lo == |c| {
        SumBound(c[..m], m, n);
        assert n * (m - m) == 0;
      } else {
        SumBound(c[..m], lo, n);
        assert n * (|c| - lo) == n * (m - lo) + n;
      }
    }
  }

  /** Taking out one job takes out its batch and its buffer and nothing
      else. */
  lemma RemoveJob(jobs: seq<Job>, k: nat)
    requires k < |jobs|
    ensures multiset(Batches(jobs[..k] + jobs[k + 1..])) == multiset(Batches(jobs)) - multiset{jobs[k].batch}
    ensures multiset(BufferIds(jobs[..k] + jobs[k + 1..])) == multiset(BufferIds(jobs)) - multiset{jobs[k].buffer}
  {
    var rest := jobs[..k] + jobs[k + 1..];
    var s, t := Batches(jobs), BufferIds(jobs);
    assert s == s[..k] + [s[k]] + s[k + 1..];
    assert t == t[..k] + [t[k]] + t[k + 1..];
    assert Batches(rest) == s[..k] + s[k + 1..];
    assert BufferIds(rest) == t[..k] + t[k + 1..];
  }

  lemma AddJob(jobs: seq<Job>, j: Job)
    ensures multiset(Batches(jobs + [j])) == multiset(Batches(jobs)) + multiset{j.batch}
    ensures multiset(BufferIds(jobs + [j])) == multiset(BufferIds(jobs)) + multiset{j.buffer}
  {
    assert Batches(jobs + [j]) == Batches(jobs) + [j.batch];
    assert BufferIds(jobs + [j]) == BufferIds(jobs) + [j.buffer];
  }

  // ---------------------------------------------------------------------
  // The invariant, stated on values, and how each step keeps it

  /** Every shortlist has `topK` entries and is sorted. */
  ghost predicate ShortlistsOk(n: nat, topK: nat, bestPos: seq<seq<PosResult>>)
  {
    |bestPos| == n && forall m :: 0 <= m < n ==> |bestPos[m]| == topK && Sorted(bestPos[m])
  }

  /** Every pending harvest names a submitted batch, a mask and a
      well-formed grid. */
  ghost predicate JobsOk(n: nat, batches: nat, pending: seq<Job>)
  {
    forall k :: 0 <= k < |pending| ==>
      pending[k].batch < batches && pending[k].mask < n && ValidGrid(pending[k].grid)
  }

  /** Each countdown is the number of its batch's pending harvests, at most
      one per mask. */
  ghost predicate CountsOk(n: nat, counters: seq<nat>, pending: seq<Job>)
  {
    forall b :: 0 <= b < |counters| ==> counters[b] == CountBatch(pending, b) && counters[b] <= n
  }

  /** When every pending harvest belongs to a counted batch, the countdowns
      together count every pending harvest. */
  lemma {:induction false} SumOfCounts(counters: seq<nat>, pending: seq<Job>)
    requires forall b :: 0 <= b < |counters| ==> counters[b] == CountBatch(pending, b)
    requires forall k :: 0 <= k < |pending| ==> pending[k].batch < |counters|
    ensures Sum(counters) == |pending|
    decreases |pending|
  {
    if pending == [] {
      SumBound(counters, |counters|, 0);
    } else {
      var last := pending[|pending| - 1];
      var rest := pending[..|pending| - 1];
      assert pending == rest + [last];
      AddJob(rest, last);
      var b := last.batch;
      assert CountBatch(pending, b) >= 1;
      var cs := counters[b := counters[b] - 1];
      forall c | 0 <= c < |cs|
        ensures cs[c] == CountBatch(rest, c)
      {
        assert CountBatch(pending, c) == CountBatch(rest, c) + (if c == b then 1 else 0);
      }
      SumOfCounts(cs, rest);
      SumUpdate(counters, b, counters[b] - 1);
    }
  }

  /** The tracked batches are the newest ones, from `drained` on, and every
      older batch has finished. */
  ghost predicate QueueOk(counters: seq<nat>, waits: seq<nat>, drained: nat)
  {
    drained <= |counters| && waits == Range(drained, |counters|)
    && |waits| <= TILE_BATCHES_IN_PARALLEL
    && forall b :: 0 <= b < drained ==> counters[b] == 0
  }

  /** Every buffer is either free or held by exactly one pending harvest:
      each id occurs as often in the pool as on the free stack and among
      the pending harvests together. */
  ghost predicate BuffersOk(all: seq<nat>, freeBuffers: seq<nat>, pending: seq<Job>)
  {
    forall x :: Count(freeBuffers, x) + Count(BufferIds(pending), x) == Count(all, x)
  }

  /** `BuffersOk` as a multiset equation. */
  lemma BuffersOkMultiset(all: seq<nat>, freeBuffers: seq<nat>, pending: seq<Job>)
    ensures BuffersOk(all, freeBuffers, pending)
      <==> multiset(freeBuffers) + multiset(BufferIds(pending)) == multiset(all)
  {
    forall x
      ensures Count(freeBuffers, x) == multiset(freeBuffers)[x]
      ensures Count(BufferIds(pending), x) == multiset(BufferIds(pending))[x]
      ensures Count(all, x) == multiset(all)[x]
    {
      CountIsMultiset(freeBuffers, x);
      CountIsMultiset(BufferIds(pending), x);
      CountIsMultiset(all, x);
    }
  }

  lemma CompleteKeepsJobs(n: nat, batches: nat, pending: seq<Job>, k: nat)
    requires JobsOk(n, batches, pending) && k < |pending|
    ensures JobsOk(n, batches, pending[..k] + pending[k + 1..])
  {
    var rest := pending[..k] + pending[k + 1..];
    forall i | 0 <= i < |rest|
      ensures rest[i].batch < batches && rest[i].mask < n && ValidGrid(rest[i].grid)
    {
      if i < k {
        assert rest[i] == pending[i];
      } else {
        assert rest[i] == pending[i + 1];
      }
    }
  }

  lemma CompleteKeepsCounts(n: nat, counters: seq<nat>, pending: seq<Job>, k: nat)
    requires CountsOk(n, counters, pending) && k < |pending| && pending[k].batch < |counters|
    ensures counters[pending[k].batch] >= 1
    ensures CountsOk(n, counters[pending[k].batch := counters[pending[k].batch] - 1], pending[..k] + pending[k + 1..])
  {
    var b := pending[k].batch;
    var rest := pending[..k] + pending[k + 1..];
    RemoveJob(pending, k);
    assert Batches(pending)[k] == b;
    assert counters[b] >= 1;
    var cs := counters[b := counters[b] - 1];
    forall c | 0 <= c < |cs|
      ensures cs[c] == CountBatch(rest, c) && cs[c] <= n
    {
      assert CountBatch(rest, c) == CountBatch(pending, c) - (if c == b then 1 else 0);
    }
  }

  lemma CompleteKeepsQueue(counters: seq<nat>, waits: seq<nat>, drained: nat, b: nat)
    requires QueueOk(counters, waits, drained) && b < |counters| && counters[b] >= 1
    ensures QueueOk(counters[b := counters[b] - 1], waits, drained)
  {
  }

  lemma CompleteKeepsBuffers(all: seq<nat>, freeBuffers: seq<nat>, pending: seq<Job>, k: nat)
    requires BuffersOk(all, freeBuffers, pending) && k < |pending|
    ensures BuffersOk(all, freeBuffers + [pending[k].buffer], pending[..k] + pending[k + 1..])
  {
    BuffersOkMultiset(all, freeBuffers, pending);
    RemoveJob(pending, k);
    assert BufferIds(pending)[k] == pending[k].buffer;
    BuffersOkMultiset(all, freeBuffers + [pending[k].buffer], pending[..k] + pending[k + 1..]);
  }

  lemma CompleteKeepsShortlists(n: nat, topK: nat, bestPos: seq<seq<PosResult>>, m: nat, best: PosResult)
    requires ShortlistsOk(n, topK, bestPos) && m < n && topK >= 1
    ensures ShortlistsOk(n, topK, bestPos[m := Inserted(bestPos[m], best)])
  {
    InsertSorted(bestPos[m], best);
    InsertLength(bestPos[m], best);
  }

  /** The queue holds at most 19 batches, so at most `19 * n_masks`
      harvests hold a buffer. */
  lemma PendingBound(n: nat, counters: seq<nat>, pending: seq<Job>, waits: seq<nat>, drained: nat)
    requires CountsOk(n, counters, pending) && JobsOk(n, |counters|, pending) && QueueOk(counters, waits, drained)
    requires |waits| < TILE_BATCHES_IN_PARALLEL
    ensures |pending| <= (TILE_BATCHES_IN_PARALLEL - 1) * n
  {
    var tracked := |counters| - drained;
    assert tracked == |waits|;
    SumOfCounts(counters, pending);
    SumBound(counters, drained, n);
    MulMono(tracked, TILE_BATCHES_IN_PARALLEL - 1, n);
    assert n * tracked == tracked * n;
  }

  /** A pool of `(TILE_BATCHES_IN_PARALLEL + 1) * n_masks` buffers always
      has `n_masks` free ones when a batch is submitted. */
  lemma FreeEnough(n: nat, counters: seq<nat>, pending: seq<Job>, waits: seq<nat>, drained: nat, free: seq<nat>)
    requires CountsOk(n, counters, pending) && JobsOk(n, |counters|, pending) && QueueOk(counters, waits, drained)
    requires |waits| < TILE_BATCHES_IN_PARALLEL
    requires BuffersOk(Range(0, (TILE_BATCHES_IN_PARALLEL + 1) * n), free, pending)
    ensures |free| >= 2 * n
  {
    PendingBound(n, counters, pending, waits, drained);
    BuffersOkMultiset(Range(0, (TILE_BATCHES_IN_PARALLEL + 1) * n), free, pending);
    assert |multiset(free) + multiset(BufferIds(pending))| == |multiset(Range(0, (TILE_BATCHES_IN_PARALLEL + 1) * n))|;
  }

  /** Once every countdown is zero no harvest is pending. */
  lemma AllDrained(n: nat, counters: seq<nat>, pending: seq<Job>)
    requires CountsOk(n, counters, pending) && JobsOk(n, |counters|, pending)
    requires forall b :: 0 <= b < |counters| ==> counters[b] == 0
    ensures pending == []
  {
    SumOfCounts(counters, pending);
    SumBound(counters, |counters|, 0);
  }

  function Reversed(s: seq<nat>): (r: seq<nat>)
    ensures |r| == |s| && forall i :: 0 <= i < |s| ==> r[i] == s[|s| - 1 - i]
  {
    seq(|s|, i requires 0 <= i < |s| => s[|s| - 1 - i])
  }

  /** The score grid each mask's buffer delivers for this batch. */
  function Grids(g: Geometry, tiles: seq<TileWidth>, outputs: seq<seq<bv32>>, dec: HalfDecoder): (gs: seq<Grid<bv32>>)
    requires ValidGeometry(g)
    ensures |gs| == |outputs|
    ensures forall m :: 0 <= m < |gs| ==> gs[m] == PackedGrid(g, tiles, outputs[m], dec)
    ensures forall m :: 0 <= m < |gs| ==> (ValidGrid(gs[m]) <==> |outputs[m]| == Stride(g) * ResultH(g))
  {
    seq(|outputs|, m requires 0 <= m < |outputs| => PackedGrid(g, tiles, outputs[m], dec))
  }

  /** The harvests of batch `b`: mask `m` holds buffer `buffers[m]` and
      will deliver `grids[m]`. */
  function NewJobs(b: nat, buffers: seq<nat>, grids: seq<Grid<bv32>>): (js: seq<Job>)
    requires |grids| == |buffers|
    ensures |js| == |buffers| && forall m :: 0 <= m < |js| ==> js[m] == Job(b, m, buffers[m], grids[m])
  {
    seq(|buffers|, m requires 0 <= m < |buffers| => Job(b, m, buffers[m], grids[m]))
  }

  /** Popping `n` buffers off the free stack, or `None` where the source
      fails with "not enough free buffers". The buffers come off the top, the
      last one first. */
  method PopBuffers(free: seq<nat>, n: nat) returns (r: Option<(seq<nat>, seq<nat>)>)
    ensures r.None? <==> |free| < n
    ensures r.Some? ==> (|r.value.0| == n && r.value.1 == free[..|free| - n]
      && (forall i :: 0 <= i < n ==> r.value.0[i] == free[|free| - 1 - i])
      && multiset(r.value.1) + multiset(r.value.0) == multiset(free))
  {
    var buffers: seq<nat> := [];
    var rest := free;
    while |buffers| < n
      invariant |buffers| <= n && |rest| + |buffers| == |free| && rest == free[..|rest|]
      invariant forall i :: 0 <= i < |buffers| ==> buffers[i] == free[|free| - 1 - i]
      invariant multiset(rest) + multiset(buffers) == multiset(free)
    {
      if rest == [] {
        return None;
      }
      var top := rest[|rest| - 1];
      assert rest == rest[..|rest| - 1] + [top];
      buffers := buffers + [top];
      rest := rest[..|rest| - 1];
    }
    return Some((buffers, rest));
  }

  /** The state after registering the harvests of masks `0 .. m - 1` of
      batch `|counters|`. */
  ghost predicate Registered(counters: seq<nat>, pending: seq<Job>, buffers: seq<nat>, grids: seq<Grid<bv32>>,
    m: nat, cs: seq<nat>, ps: seq<Job>)
    requires m <= |buffers| && |grids| == |buffers|
  {
    cs == counters + [m]
    && ps == pending + NewJobs(|counters|, buffers[..m], grids[..m])
    && (forall c :: 0 <= c < |cs| ==> cs[c] == CountBatch(ps, c))
    && multiset(BufferIds(ps)) == multiset(BufferIds(pending)) + multiset(buffers[..m])
  }

  /** Registering mask `m`'s harvest counts it under the new batch. */
  lemma RegisterStep(counters: seq<nat>, pending: seq<Job>, buffers: seq<nat>, grids: seq<Grid<bv32>>,
    m: nat, cs: seq<nat>, ps: seq<Job>)
    requires m < |buffers| && |grids| == |buffers|
    requires Registered(counters, pending, buffers, grids, m, cs, ps)
    ensures Registered(counters, pending, buffers, grids, m + 1,
      cs[|counters| := m + 1], ps + [Job(|counters|, m, buffers[m], grids[m])])
  {
    var job := Job(|counters|, m, buffers[m], grids[m]);
    NewJobsSnoc(|counters|, buffers, grids, m);
    CountSnoc(cs, ps, job);
    BuffersSnoc(pending, buffers, m, ps, job);
  }

  lemma NewJobsSnoc(b: nat, buffers: seq<nat>, grids: seq<Grid<bv32>>, m: nat)
    requires m < |buffers| && |grids| == |buffers|
    ensures NewJobs(b, buffers[..m + 1], grids[..m + 1]) == NewJobs(b, buffers[..m], grids[..m]) + [Job(b, m, buffers[m], grids[m])]
  {
  }

  /** One more harvest of batch `job.batch` raises that countdown by one. */
  lemma CountSnoc(cs: seq<nat>, ps: seq<Job>, job: Job)
    requires job.batch < |cs|
    requires forall c :: 0 <= c < |cs| ==> cs[c] == CountBatch(ps, c)
    ensures forall c :: 0 <= c < |cs| ==> cs[job.batch := cs[job.batch] + 1][c] == CountBatch(ps + [job], c)
  {
    AddJob(ps, job);
  }

  lemma BuffersSnoc(pending: seq<Job>, buffers: seq<nat>, m: nat, ps: seq<Job>, job: Job)
    requires m < |buffers| && job.buffer == buffers[m]
    requires multiset(BufferIds(ps)) == multiset(BufferIds(pending)) + multiset(buffers[..m])
    ensures multiset(BufferIds(ps + [job])) == multiset(BufferIds(pending)) + multiset(buffers[..m + 1])
  {
    AddJob(ps, job);
    assert buffers[..m + 1] == buffers[..m] + [buffers[m]];
  }

  /** The loop that registers one harvest per mask: the batch's countdown
      ends at `n` and each mask's harvest holds its own buffer. */
  method SubmitHarvests(n: nat, counters: seq<nat>, pending: seq<Job>, buffers: seq<nat>, grids: seq<Grid<bv32>>)
    returns (cs: seq<nat>, ps: seq<Job>)
    requires CountsOk(n, counters, pending) && JobsOk(n, |counters|, pending)
    requires |buffers| == n && |grids| == n
    ensures cs == counters + [n] && ps == pending + NewJobs(|counters|, buffers, grids)
    ensures CountsOk(n, cs, ps)
    ensures multiset(BufferIds(ps)) == multiset(BufferIds(pending)) + multiset(buffers)
  {
    var b := |counters|;
    cs := counters + [0];
    ps := pending;
    assert CountBatch(pending, b) == 0 by {
      assert b !in Batches(pending);
    }
    assert buffers[..0] == [] && grids[..0] == [];
    for m := 0 to n
      invariant Registered(counters, pending, buffers, grids, m, cs, ps)
    {
      RegisterStep(counters, pending, buffers, grids, m, cs, ps);
      cs := cs[b := m + 1];
      ps := ps + [Job(b, m, buffers[m], grids[m])];
    }
    assert buffers[..n] == buffers && grids[..n] == grids;
    forall c | 0 <= c < |cs|
      ensures cs[c] <= n
    {
      if c < b {
        assert cs[c] == counters[c];
      }
    }
  }

  /** The buffers popped one by one off the top of the stack are its last
      `n` entries, last first. */
  lemma TopOfStack(free: seq<nat>, n: nat, buffers: seq<nat>)
    requires n <= |free| && |buffers| == n
    requires forall i :: 0 <= i < n ==> buffers[i] == free[|free| - 1 - i]
    ensures buffers == Reversed(free[|free| - n..])
  {
  }

  lemma SubmitKeepsJobs(n: nat, batches: nat, pending: seq<Job>, buffers: seq<nat>, grids: seq<Grid<bv32>>)
    requires JobsOk(n, batches, pending) && |buffers| == n && |grids| == n
    requires forall m :: 0 <= m < n ==> ValidGrid(grids[m])
    ensures JobsOk(n, batches + 1, pending + NewJobs(batches, buffers, grids))
  {
    var ps := pending + NewJobs(batches, buffers, grids);
    forall k | 0 <= k < |ps|
      ensures ps[k].batch < batches + 1 && ps[k].mask < n && ValidGrid(ps[k].grid)
    {
      if k >= |pending| {
        assert ps[k] == NewJobs(batches, buffers, grids)[k - |pending|];
      }
    }
  }

  /** The checked-out buffers move from the free stack to the new harvests. */
  lemma SubmitKeepsBuffers(all: seq<nat>, free: seq<nat>, pending: seq<Job>, buffers: seq<nat>, rest: seq<nat>, ps: seq<Job>)
    requires BuffersOk(all, free, pending)
    requires multiset(rest) + multiset(buffers) == multiset(free)
    requires multiset(BufferIds(ps)) == multiset(BufferIds(pending)) + multiset(buffers)
    ensures BuffersOk(all, rest, ps)
  {
    BuffersOkMultiset(all, free, pending);
    BuffersOkMultiset(all, rest, ps);
  }

  /** A new batch joins the back of the queue. */
  lemma SubmitKeepsQueue(counters: seq<nat>, waits: seq<nat>, drained: nat, c: nat)
    requires QueueOk(counters, waits, drained) && |waits| < TILE_BATCHES_IN_PARALLEL
    ensures QueueOk(counters + [c], waits + [|counters|], drained)
  {
    var cs := counters + [c];
    forall b | 0 <= b < drained
      ensures cs[b] == 0
    {
      assert cs[b] == counters[b];
    }
  }

  /** Once the oldest batch is finished it leaves the front of the queue. */
  lemma PopKeepsQueue(counters: seq<nat>, waits: seq<nat>, drained: nat)
    requires QueueOk(counters, waits, drained) && waits != [] && counters[waits[0]] == 0
    ensures QueueOk(counters, waits[1..], drained + 1)
  {
  }

  // ---------------------------------------------------------------------
  // What the shortlists hold: the harvests completed since the last reset

  /** A harvest that has run: its mask, the grid it scanned and the best
      position the scan found. */
  datatype Harvested = Harvested(mask: nat, grid: Grid<bv32>, best: PosResult)

  /** One scan: a mask and the grid it searches. */
  type Work = (nat, Grid<bv32>)

  /** How many times `w` occurs in `s`. */
  ghost function Count<T>(s: seq<T>, w: T): nat
  {
    if s == [] then 0 else Count(s[..|s| - 1], w) + (if s[|s| - 1] == w then 1 else 0)
  }

  lemma {:induction false} CountConcat<T>(a: seq<T>, b: seq<T>, w: T)
    ensures Count(a + b, w) == Count(a, w) + Count(b, w)
    decreases |b|
  {
    if b == [] {
      assert a + b == a;
    } else {
      var n := |b| - 1;
      CountConcat(a, b[..n], w);
      assert (a + b)[..|a + b| - 1] == a + b[..n];
    }
  }

  /** `Count` is the multiplicity of `w` in the multiset of `s`. */
  lemma {:induction false} CountIsMultiset<T>(s: seq<T>, w: T)
    ensures Count(s, w) == multiset(s)[w]
  {
    if s != [] {
      CountIsMultiset(s[..|s| - 1], w);
      assert s == s[..|s| - 1] + [s[|s| - 1]];
    }
  }

  /** Sequences with the same counts are permutations of each other. */
  lemma SameCounts<T>(a: seq<T>, b: seq<T>)
    requires forall w :: Count(a, w) == Count(b, w)
    ensures multiset(a) == multiset(b)
  {
    forall w
      ensures multiset(a)[w] == multiset(b)[w]
    {
      CountIsMultiset(a, w);
      CountIsMultiset(b, w);
    }
  }

  /** The (mask, grid) scan each pending harvest will do. */
  function Works(jobs: seq<Job>): seq<Work>
  {
    if jobs == [] then [] else Works(jobs[..|jobs| - 1]) + [(jobs[|jobs| - 1].mask, jobs[|jobs| - 1].grid)]
  }

  lemma {:induction false} WorksConcat(a: seq<Job>, b: seq<Job>)
    ensures Works(a + b) == Works(a) + Works(b)
    decreases |b|
  {
    if b == [] {
      assert a + b == a;
    } else {
      var n := |b| - 1;
      WorksConcat(a, b[..n]);
      assert (a + b)[..|a + b| - 1] == a + b[..n];
    }
  }

  /** The (mask, grid) scan each completed harvest did. */
  function Scanned(log: seq<Harvested>): seq<Work>
  {
    if log == [] then [] else Scanned(log[..|log| - 1]) + [(log[|log| - 1].mask, log[|log| - 1].grid)]
  }

  /** The scans of one batch: mask `m` scans `grids[m]`. */
  function MaskWork(grids: seq<Grid<bv32>>): (w: seq<Work>)
    ensures |w| == |grids| && forall m :: 0 <= m < |grids| ==> w[m] == (m, grids[m])
  {
    seq(|grids|, m requires 0 <= m < |grids| => (m, grids[m]))
  }

  /** A log in which no scan occurs is empty. */
  lemma NoScansNoLog(log: seq<Harvested>)
    requires forall w :: Count(Scanned(log), w) == 0
    ensures log == []
  {
    if log != [] {
      var h := log[|log| - 1];
      assert Count(Scanned(log), (h.mask, h.grid)) > 0;
    }
  }

  /** How often scan `w` was submitted since the last reset (counting
      those pending at the reset): the completed ones and the pending ones. */
  ghost function TallyOf(log: seq<Harvested>, pending: seq<Job>, w: Work): nat
  {
    Count(Scanned(log), w) + Count(Works(pending), w)
  }

  /** The best positions harvested for mask `m`, in the order the harvests
      completed. */
  function MaskBests(log: seq<Harvested>, m: nat): (bs: seq<PosResult>)
    ensures |bs| <= |log|
  {
    if log == [] then []
    else
      var last := log[|log| - 1];
      var front := MaskBests(log[..|log| - 1], m);
      if last.mask == m then front + [last.best] else front
  }

  /** Every logged scan found the first maximum of its grid. */
  ghost predicate AllFirstMax(log: seq<Harvested>)
  {
    log == []
    || (AllFirstMax(log[..|log| - 1])
        && ValidGrid(log[|log| - 1].grid) && IsFirstMax(log[|log| - 1].grid, log[|log| - 1].best))
  }

  lemma {:induction false} FirstMaxAt(log: seq<Harvested>, k: nat)
    requires AllFirstMax(log) && k < |log|
    ensures ValidGrid(log[k].grid) && IsFirstMax(log[k].grid, log[k].best)
  {
    if k < |log| - 1 {
      FirstMaxAt(log[..|log| - 1], k);
    }
  }

  /** Each of the first `k` shortlists is its mask's harvests, inserted in
      completion order into a shortlist of `topK` sentinels. */
  ghost predicate Folded(topK: nat, bestPos: seq<seq<PosResult>>, log: seq<Harvested>, k: nat)
  {
    topK >= 1 && k <= |bestPos|
    && (k == 0
        || (Folded(topK, bestPos, log, k - 1)
            && bestPos[k - 1] == InsertAll(Sentinels(topK), MaskBests(log, k - 1))))
  }

  lemma {:induction false} FoldedAt(topK: nat, bestPos: seq<seq<PosResult>>, log: seq<Harvested>, k: nat, m: nat)
    requires Folded(topK, bestPos, log, k) && m < k
    ensures bestPos[m] == InsertAll(Sentinels(topK), MaskBests(log, m))
  {
    if m < k - 1 {
      FoldedAt(topK, bestPos, log, k - 1, m);
    }
  }

  lemma FoldedAll(topK: nat, bestPos: seq<seq<PosResult>>, log: seq<Harvested>, k: nat)
    requires Folded(topK, bestPos, log, k)
    ensures forall m :: 0 <= m < k ==> bestPos[m] == InsertAll(Sentinels(topK), MaskBests(log, m))
  {
    forall m | 0 <= m < k
      ensures bestPos[m] == InsertAll(Sentinels(topK), MaskBests(log, m))
    {
      FoldedAt(topK, bestPos, log, k, m);
    }
  }

  lemma {:induction false} FoldedIntro(topK: nat, bestPos: seq<seq<PosResult>>, log: seq<Harvested>, k: nat)
    requires topK >= 1 && k <= |bestPos|
    requires forall m :: 0 <= m < k ==> bestPos[m] == InsertAll(Sentinels(topK), MaskBests(log, m))
    ensures Folded(topK, bestPos, log, k)
  {
    if k > 0 {
      FoldedIntro(topK, bestPos, log, k - 1);
    }
  }

  /** The shortlists are the harvests completed since the last reset,
      inserted in completion order into shortlists of sentinels, and every
      completed scan found the first maximum of its grid. */
  ghost predicate LogOk(n: nat, topK: nat, bestPos: seq<seq<PosResult>>, log: seq<Harvested>)
  {
    topK >= 1 && |bestPos| == n
    && AllFirstMax(log)
    && Folded(topK, bestPos, log, n)
  }

  /** A harvest completing is logged and its best position is inserted
      into its mask's shortlist. */
  lemma LogComplete(n: nat, topK: nat, bestPos: seq<seq<PosResult>>, log: seq<Harvested>, job: Job, best: PosResult)
    requires LogOk(n, topK, bestPos, log) && job.mask < n
    requires ValidGrid(job.grid) && IsFirstMax(job.grid, best)
    ensures |bestPos[job.mask]| >= 1
    ensures LogOk(n, topK, bestPos[job.mask := Inserted(bestPos[job.mask], best)],
      log + [Harvested(job.mask, job.grid, best)])
  {
    var h := Harvested(job.mask, job.grid, best);
    FoldedAll(topK, bestPos, log, n);
    var bp := bestPos[job.mask := Inserted(bestPos[job.mask], best)];
    assert (log + [h])[..|log|] == log;
    forall m | 0 <= m < n
      ensures bp[m] == InsertAll(Sentinels(topK), MaskBests(log + [h], m))
    {
      LogCompleteAt(topK, bestPos, log, h, m);
    }
    FoldedIntro(topK, bp, log + [h], n);
  }

  /** Mask `m`'s shortlist after harvest `h` completes. */
  lemma LogCompleteAt(topK: nat, bestPos: seq<seq<PosResult>>, log: seq<Harvested>, h: Harvested, m: nat)
    requires topK >= 1 && m < |bestPos| && h.mask < |bestPos|
    requires bestPos[m] == InsertAll(Sentinels(topK), MaskBests(log, m))
    requires bestPos[h.mask] == InsertAll(Sentinels(topK), MaskBests(log, h.mask))
    ensures |bestPos[h.mask]| >= 1
    ensures bestPos[h.mask := Inserted(bestPos[h.mask], h.best)][m] == InsertAll(Sentinels(topK), MaskBests(log + [h], m))
  {
    MaskBestsSnoc(log, h, m);
    var bs := MaskBests(log, m);
    if h.mask == m {
      assert (bs + [h.best])[..|bs|] == bs;
    }
  }

  /** Moving pending harvest `k` to the log keeps the scans, completed and
      pending, as a multiset. */
  lemma LogMoves(log: seq<Harvested>, pending: seq<Job>, k: nat, h: Harvested)
    requires k < |pending| && h.mask == pending[k].mask && h.grid == pending[k].grid
    ensures forall w ::
      Count(Scanned(log + [h]), w) + Count(Works(pending[..k] + pending[k + 1..]), w)
      == Count(Scanned(log), w) + Count(Works(pending), w)
  {
    var a, b := pending[..k], pending[k + 1..];
    var w := (h.mask, h.grid);
    assert pending == a + [pending[k]] + b;
    WorksConcat(a + [pending[k]], b);
    WorksConcat(a, [pending[k]]);
    WorksConcat(a, b);
    assert Works([pending[k]]) == [w];
    assert (log + [h])[..|log|] == log;
    assert Scanned(log + [h]) == Scanned(log) + [w];
    forall v
      ensures Count(Scanned(log + [h]), v) + Count(Works(a + b), v) == Count(Scanned(log), v) + Count(Works(pending), v)
    {
      CountConcat(Works(a) + [w], Works(b), v);
      CountConcat(Works(a), [w], v);
      CountConcat(Works(a), Works(b), v);
      CountConcat(Scanned(log), [w], v);
      assert [w][..0] == Works([]);
    }
  }

  /** One more harvest adds its best position to its own mask's list only. */
  lemma MaskBestsSnoc(log: seq<Harvested>, h: Harvested, m: nat)
    ensures MaskBests(log + [h], m) == MaskBests(log, m) + (if h.mask == m then [h.best] else [])
  {
    assert (log + [h])[..|log|] == log;
  }

  /** The scans of a new batch are one per mask. */
  lemma {:induction false} WorksOfNewJobs(b: nat, buffers: seq<nat>, grids: seq<Grid<bv32>>)
    requires |buffers| == |grids|
    ensures Works(NewJobs(b, buffers, grids)) == MaskWork(grids)
    decreases |grids|
  {
    if grids != [] {
      var n := |grids| - 1;
      WorksOfNewJobs(b, buffers[..n], grids[..n]);
      assert NewJobs(b, buffers, grids)[..n] == NewJobs(b, buffers[..n], grids[..n]);
      assert MaskWork(grids) == MaskWork(grids[..n]) + [(n, grids[n])];
    }
  }

  /** Every staging buffer of a pool for `n` masks, by id. */
  function Pool(n: nat): seq<nat>
  {
    Range(0, (TILE_BATCHES_IN_PARALLEL + 1) * n)
  }

  /** The invariant of `Algo`, stated on the values of its fields. */
  ghost predicate InvOf(n: nat, topK: nat, g: Geometry, bestPos: seq<seq<PosResult>>, free: seq<nat>,
    counters: seq<nat>, waits: seq<nat>, pending: seq<Job>, drained: nat)
  {
    topK == n + 10 && ValidGeometry(g)
    && ShortlistsOk(n, topK, bestPos)
    && JobsOk(n, |counters|, pending)
    && CountsOk(n, counters, pending)
    && QueueOk(counters, waits, drained)
    && BuffersOk(Pool(n), free, pending)
  }

  /** Submitting a batch, on the values of `Algo`'s fields: `n` buffers
      come off the free stack and the harvests of `grids` are registered
      under a new countdown of `n` at the back of the queue. The invariant
      is kept. */
  method SubmitBatch(n: nat, topK: nat, g: Geometry, bestPos: seq<seq<PosResult>>, free: seq<nat>,
    counters: seq<nat>, waits: seq<nat>, pending: seq<Job>, ghost drained: nat, grids: seq<Grid<bv32>>)
    returns (rest: seq<nat>, cs: seq<nat>, ps: seq<Job>)
    requires InvOf(n, topK, g, bestPos, free, counters, waits, pending, drained)
    requires |waits| < TILE_BATCHES_IN_PARALLEL
    requires |grids| == n && forall m :: 0 <= m < n ==> ValidGrid(grids[m])
    ensures InvOf(n, topK, g, bestPos, rest, cs, waits + [|counters|], ps, drained)
    ensures |free| >= n && rest == free[..|free| - n] && cs == counters + [n]
    ensures ps == pending + NewJobs(|counters|, Reversed(free[|free| - n..]), grids)
    ensures Works(ps) == Works(pending) + MaskWork(grids)
  {
    FreeEnough(n, counters, pending, waits, drained, free);
    // checking out the buffers: "not enough free buffers" never fires
    var popped := PopBuffers(free, n);
    var buffers := popped.value.0;
    rest := popped.value.1;
    TopOfStack(free, n, buffers);
    cs, ps := SubmitHarvests(n, counters, pending, buffers, grids);
    SubmitKeepsJobs(n, |counters|, pending, buffers, grids);
    SubmitKeepsQueue(counters, waits, drained, n);
    SubmitKeepsBuffers(Pool(n), free, pending, buffers, rest, ps);
    WorksConcat(pending, NewJobs(|counters|, buffers, grids));
    WorksOfNewJobs(|counters|, buffers, grids);
  }

  /** Appending `b` adds its scans to those of `a`. */
  lemma CountsAppend(a: seq<Work>, b: seq<Work>)
    ensures forall w :: Count(a + b, w) == Count(a, w) + Count(b, w)
  {
    forall w
      ensures Count(a + b, w) == Count(a, w) + Count(b, w)
    {
      CountConcat(a, b, w);
    }
  }

  /** A harvest completing keeps the invariant: its buffer goes back on the
      free stack, its batch's countdown drops by one and `best` is inserted
      into its mask's shortlist. */
  lemma CompleteKeepsInv(n: nat, topK: nat, g: Geometry, bestPos: seq<seq<PosResult>>, free: seq<nat>,
    counters: seq<nat>, waits: seq<nat>, pending: seq<Job>, drained: nat, k: nat, best: PosResult)
    requires InvOf(n, topK, g, bestPos, free, counters, waits, pending, drained) && k < |pending|
    ensures pending[k].mask < n && pending[k].batch < |counters|
    ensures InvOf(n, topK, g, bestPos[pending[k].mask := Inserted(bestPos[pending[k].mask], best)],
      free + [pending[k].buffer], counters[pending[k].batch := counters[pending[k].batch] - 1],
      waits, pending[..k] + pending[k + 1..], drained)
  {
    var job := pending[k];
    CompleteKeepsShortlists(n, topK, bestPos, job.mask, best);
    CompleteKeepsJobs(n, |counters|, pending, k);
    CompleteKeepsCounts(n, counters, pending, k);
    CompleteKeepsQueue(counters, waits, drained, job.batch);
    CompleteKeepsBuffers(Pool(n), free, pending, k);
  }

  /** A harvest completing, on the values of `Algo`'s fields: its buffer
      goes back on the free stack, its batch's countdown drops by one, `best`
      is inserted into its mask's shortlist and the harvest is logged. The
      invariant is kept. */
  method RetireJob(n: nat, topK: nat, g: Geometry, bestPos: seq<seq<PosResult>>, free: seq<nat>,
    counters: seq<nat>, waits: seq<nat>, pending: seq<Job>, ghost drained: nat,
    ghost log: seq<Harvested>, k: nat, best: PosResult)
    returns (bp: seq<seq<PosResult>>, free': seq<nat>, cs: seq<nat>, ps: seq<Job>, ghost lg: seq<Harvested>)
    requires InvOf(n, topK, g, bestPos, free, counters, waits, pending, drained) && k < |pending|
    requires LogOk(n, topK, bestPos, log) && IsFirstMax(pending[k].grid, best)
    ensures pending[k].mask < n && pending[k].batch < |counters|
    ensures bp == bestPos[pending[k].mask := Inserted(bestPos[pending[k].mask], best)]
    ensures free' == free + [pending[k].buffer]
    ensures cs == counters[pending[k].batch := counters[pending[k].batch] - 1]
    ensures ps == pending[..k] + pending[k + 1..]
    ensures lg == log + [Harvested(pending[k].mask, pending[k].grid, best)]
    ensures InvOf(n, topK, g, bp, free', cs, waits, ps, drained) && LogOk(n, topK, bp, lg)
  {
    var job := pending[k];
    CompleteKeepsInv(n, topK, g, bestPos, free, counters, waits, pending, drained, k, best);
    LogComplete(n, topK, bestPos, log, job, best);
    bp := bestPos[job.mask := Inserted(bestPos[job.mask], best)];
    free' := free + [job.buffer];
    cs := counters[job.batch := counters[job.batch] - 1];
    ps := pending[..k] + pending[k + 1..];
    lg := log + [Harvested(job.mask, job.grid, best)];
  }

  /** Once every tracked batch has finished, no harvest is pending and
      every buffer is free. */
  lemma FinishedAll(n: nat, topK: nat, g: Geometry, bestPos: seq<seq<PosResult>>, free: seq<nat>,
    counters: seq<nat>, waits: seq<nat>, pending: seq<Job>, drained: nat)
    requires InvOf(n, topK, g, bestPos, free, counters, waits, pending, drained)
    requires forall j :: 0 <= j < |waits| ==> counters[waits[j]] == 0
    ensures pending == [] && multiset(free) == multiset(Pool(n))
  {
    forall c | 0 <= c < |counters|
      ensures counters[c] == 0
    {
      if c >= drained {
        assert waits[c - drained] == c;
      }
    }
    AllDrained(n, counters, pending);
    assert BufferIds(pending) == [];
    BuffersOkMultiset(Pool(n), free, pending);
  }
}
