/** The pipeline memo cache, the lazily created samplers and the bind-group
    numbering of src/gpu/framework.rs. Device calls become parameters: a
    shader compilation is the `Option` it would produce, a freshly created
    sampler or pipeline is an opaque id. */
module Framework {
  import opened Basics

  /** A kernel's name. */
  type Kernel = string
  /** An opaque texture-format id. */
  type Format = nat
  /** Opaque ids of device objects. */
  type Sampler = nat
  type Texture = nat
  type Buffer = nat

  // ---------------------------------------------------------------------
  // Bind-group layouts and bind groups
  // ---------------------------------------------------------------------

  /** What a layout entry declares at its binding. */
  datatype Slot = SamplerSlot | TextureSlot | StorageSlot

  datatype LayoutEntry = LayoutEntry(binding: nat, slot: Slot)

  /** What a bind-group entry binds. */
  datatype Resource = SamplerRes(s: Sampler) | ViewRes(t: Texture) | BufferRes(b: Buffer)

  datatype GroupEntry = GroupEntry(binding: nat, res: Resource)

  function SlotOf(r: Resource): Slot
  {
    match r
    case SamplerRes(_) => SamplerSlot
    case ViewRes(_) => TextureSlot
    case BufferRes(_) => StorageSlot
  }

  /** A bind group fits a layout: the same bindings, and each resource of the
      kind its layout entry declares. */
  predicate Matches(layout: seq<LayoutEntry>, group: seq<GroupEntry>)
  {
    |layout| == |group|
    && forall i :: 0 <= i < |layout| ==> layout[i].binding == group[i].binding && layout[i].slot == SlotOf(group[i].res)
  }

  /** Bindings numbered 0, 1, 2, ... in order. */
  predicate LayoutNumbered(layout: seq<LayoutEntry>)
  {
    forall i :: 0 <= i < |layout| ==> layout[i].binding == i
  }

  predicate GroupNumbered(group: seq<GroupEntry>)
  {
    forall i :: 0 <= i < |group| ==> group[i].binding == i
  }

  /** The layout `mk_bglayout` declares for `n` inputs: two filtering
      samplers, then `n` textures. */
  function RenderLayout(n: nat): seq<LayoutEntry>
  {
    seq(2 + n, i requires 0 <= i < 2 + n => LayoutEntry(i, if i < 2 then SamplerSlot else TextureSlot))
  }

  /** The bind group `mk_bg` builds: the linear and the nearest sampler,
      then a view of each texture. */
  function RenderGroup(linear: Sampler, nearest: Sampler, texs: seq<Texture>): seq<GroupEntry>
  {
    seq(2 + |texs|, i requires 0 <= i < 2 + |texs| =>
      GroupEntry(i, if i == 0 then SamplerRes(linear) else if i == 1 then SamplerRes(nearest) else ViewRes(texs[i - 2])))
  }

  /** The layout `mk_bglayout_compute` declares: `nTex` textures, then
      `nBuf` read-write storage buffers. */
  function ComputeLayout(nTex: nat, nBuf: nat): seq<LayoutEntry>
  {
    seq(nTex + nBuf, i requires 0 <= i < nTex + nBuf => LayoutEntry(i, if i < nTex then TextureSlot else StorageSlot))
  }

  /** The bind group `mk_bg_compute` builds: a view of each texture, then
      each buffer. */
  function ComputeGroup(texs: seq<Texture>, bufs: seq<Buffer>): seq<GroupEntry>
  {
    seq(|texs| + |bufs|, i requires 0 <= i < |texs| + |bufs| =>
      GroupEntry(i, if i < |texs| then ViewRes(texs[i]) else BufferRes(bufs[i - |texs|])))
  }

  /** `mk_bglayout`: the two samplers, then one texture entry per input,
      each numbered by the count of entries before it. */
  method MkBgLayout(nInputs: nat) returns (entries: seq<LayoutEntry>)
    ensures entries == RenderLayout(nInputs)
  {
    entries := [LayoutEntry(0, SamplerSlot), LayoutEntry(1, SamplerSlot)];
    for j := 0 to nInputs
      invariant entries == RenderLayout(j)
    {
      entries := entries + [LayoutEntry(|entries|, TextureSlot)];
    }
  }

  /** `mk_bglayout_compute`: one texture entry per input texture, then one
      storage entry per read-write buffer, each numbered by the count of
      entries before it. */
  method MkBgLayoutCompute(inTexs: seq<Texture>, nRwBufs: nat) returns (entries: seq<LayoutEntry>)
    ensures entries == ComputeLayout(|inTexs|, nRwBufs)
  {
    entries := [];
    for j := 0 to |inTexs|
      invariant entries == ComputeLayout(j, 0)
    {
      entries := entries + [LayoutEntry(|entries|, TextureSlot)];
    }
    for j := 0 to nRwBufs
      invariant entries == ComputeLayout(|inTexs|, j)
    {
      entries := entries + [LayoutEntry(|entries|, StorageSlot)];
    }
  }

  /** `mk_bg_compute`: a view of each texture, then each buffer. */
  method MkBgCompute(texs: seq<Texture>, rwBufs: seq<Buffer>) returns (entries: seq<GroupEntry>)
    ensures entries == ComputeGroup(texs, rwBufs)
  {
    entries := [];
    for j := 0 to |texs|
      invariant entries == ComputeGroup(texs[..j], [])
    {
      assert texs[..j + 1] == texs[..j] + [texs[j]];
      entries := entries + [GroupEntry(|entries|, ViewRes(texs[j]))];
    }
    assert texs[..|texs|] == texs;
    for j := 0 to |rwBufs|
      invariant entries == ComputeGroup(texs, rwBufs[..j])
    {
      assert rwBufs[..j + 1] == rwBufs[..j] + [rwBufs[j]];
      entries := entries + [GroupEntry(|entries|, BufferRes(rwBufs[j]))];
    }
    assert rwBufs[..|rwBufs|] == rwBufs;
  }

  /** Both render builders number bindings consecutively from 0, and a
      bind group fits the layout exactly when it has as many textures as
      the layout has inputs. */
  lemma {:induction false} RenderBindings(n: nat, linear: Sampler, nearest: Sampler, texs: seq<Texture>)
    ensures LayoutNumbered(RenderLayout(n)) && GroupNumbered(RenderGroup(linear, nearest, texs))
    ensures RenderLayout(n)[0].slot == SamplerSlot && RenderLayout(n)[1].slot == SamplerSlot
    ensures forall i :: 2 <= i < 2 + n ==> RenderLayout(n)[i].slot == TextureSlot
    ensures Matches(RenderLayout(n), RenderGroup(linear, nearest, texs)) <==> n == |texs|
  {
    var l, g := RenderLayout(n), RenderGroup(linear, nearest, texs);
    if n == |texs| {
      forall i | 0 <= i < |l|
        ensures l[i].binding == g[i].binding && l[i].slot == SlotOf(g[i].res)
      {
      }
    }
  }

  /** Both compute builders number bindings consecutively from 0, textures
      first, `nTex + nBuf` entries in all; a bind group fits a layout exactly
      when both its texture count and its buffer count agree. */
  lemma {:induction false} ComputeBindings(nTex: nat, nBuf: nat, texs: seq<Texture>, bufs: seq<Buffer>)
    ensures LayoutNumbered(ComputeLayout(nTex, nBuf)) && GroupNumbered(ComputeGroup(texs, bufs))
    ensures |ComputeLayout(nTex, nBuf)| == nTex + nBuf && |ComputeGroup(texs, bufs)| == |texs| + |bufs|
    ensures Matches(ComputeLayout(nTex, nBuf), ComputeGroup(texs, bufs)) <==> nTex == |texs| && nBuf == |bufs|
  {
    var l, g := ComputeLayout(nTex, nBuf), ComputeGroup(texs, bufs);
    if nTex == |texs| && nBuf == |bufs| {
      forall i | 0 <= i < |l|
        ensures l[i].binding == g[i].binding && l[i].slot == SlotOf(g[i].res)
      {
      }
    } else if |l| == |g| {
      // The first index where one side has switched to buffers and the
      // other has not.
      var i := if nTex < |texs| then nTex else |texs|;
      assert l[i].slot != SlotOf(g[i].res);
    }
  }

  // ---------------------------------------------------------------------
  // Lazily created samplers
  // ---------------------------------------------------------------------

  /** `get_linear_sampler` / `get_nearest_sampler` on the value of their
      slot: the sampler handed out and the slot afterwards, where `created`
      is what `create_sampler` would return if called. */
  function Lazy(slot: Option<Sampler>, created: Sampler): (r: (Sampler, Option<Sampler>))
    ensures r.1 == Some(r.0)
    ensures slot.Some? ==> r.0 == slot.value
    ensures slot.None? ==> r.0 == created
  {
    if slot.None? then (created, Some(created)) else (slot.value, slot)
  }

  /** Once a slot has been filled, every later call returns the same
      sampler, whatever a fresh creation would have produced. */
  lemma LazyStable(slot: Option<Sampler>, first: Sampler, later: seq<Sampler>)
    ensures forall c :: c in later ==> Lazy(Lazy(slot, first).1, c).0 == Lazy(slot, first).0
    ensures forall c :: c in later ==> Lazy(Lazy(slot, first).1, c).1 == Lazy(slot, first).1
  {
  }

  /** The two sampler statics. */
  class Samplers {
    var linear: Option<Sampler>
    var nearest: Option<Sampler>

    constructor()
      ensures linear == None && nearest == None
    {
      linear, nearest := None, None;
    }

    /** `get_linear_sampler`: create the sampler when the slot is empty,
        then hand out what the slot holds. */
    method GetLinear(created: Sampler) returns (s: Sampler)
      modifies this
      ensures (s, linear) == Lazy(old(linear), created)
      ensures nearest == old(nearest)
    {
      if linear.None? {
        linear := Some(created);
      }
      s := linear.value;
    }

    /** `get_nearest_sampler`, the same for the nearest-filtering sampler. */
    method GetNearest(created: Sampler) returns (s: Sampler)
      modifies this
      ensures (s, nearest) == Lazy(old(nearest), created)
      ensures linear == old(linear)
    {
      if nearest.None? {
        nearest := Some(created);
      }
      s := nearest.value;
    }

    /** `mk_bg`: the two samplers (created on first use), then a view of each
        texture, each numbered by the count of entries before it. */
    method MkBg(texs: seq<Texture>, createdLinear: Sampler, createdNearest: Sampler) returns (entries: seq<GroupEntry>)
      modifies this
      ensures linear == Lazy(old(linear), createdLinear).1 && nearest == Lazy(old(nearest), createdNearest).1
      ensures entries == RenderGroup(linear.value, nearest.value, texs)
    {
      var lin := GetLinear(createdLinear);
      var near := GetNearest(createdNearest);
      entries := [GroupEntry(0, SamplerRes(lin)), GroupEntry(1, SamplerRes(near))];
      for j := 0 to |texs|
        invariant entries == RenderGroup(lin, near, texs[..j])
      {
        assert texs[..j + 1] == texs[..j] + [texs[j]];
        entries := entries + [GroupEntry(|entries|, ViewRes(texs[j]))];
      }
      assert texs[..|texs|] == texs;
    }
  }

  // ---------------------------------------------------------------------
  // The pipeline cache
  // ---------------------------------------------------------------------

  /** A built pipeline: an opaque id and the layout of its texture bind
      group (group 1 of a render pipeline, group 0 of a compute pipeline). */
  datatype Pipeline = Pipeline(id: nat, layout: seq<LayoutEntry>)

  /** What the render cache is keyed by. */
  datatype RenderKey = RenderKey(kernel: Kernel, format: Format, nInputs: nat)

  /** `mk_pipeline`: `compiled` is the id the device gives the pipeline, or
      None when the shader fails validation. */
  function MkPipeline(nInputs: nat, compiled: Option<nat>): (r: Option<Pipeline>)
    ensures r.Some? <==> compiled.Some?
    ensures r.Some? ==> r.value.layout == RenderLayout(nInputs)
  {
    if compiled.Some? then Some(Pipeline(compiled.value, RenderLayout(nInputs))) else None
  }

  /** Whether `mk_pipeline` prints the compilation error: only when it fails
      and was asked to be verbose. */
  predicate PrintsError(compiled: Option<nat>, verbose: bool): (r: bool)
    ensures r ==> compiled.None?
    ensures r ==> verbose
    ensures compiled.None? && verbose ==> r
  {
    compiled.None? && verbose
  }

  /** `mk_compute_pipeline`, which always succeeds; its layout is built from
      the textures and buffers of the call that built it. */
  function MkComputePipeline(inTexs: seq<Texture>, rwBufs: seq<Buffer>, id: nat): (p: Pipeline)
    ensures p.id == id && LayoutNumbered(p.layout)
    ensures Matches(p.layout, ComputeGroup(inTexs, rwBufs))
  {
    ComputeBindings(|inTexs|, |rwBufs|, inTexs, rwBufs);
    Pipeline(id, ComputeLayout(|inTexs|, |rwBufs|))
  }

  /** A kernel's update flag, `or_insert(false)`. */
  function UpdateFlag(flags: map<Kernel, bool>, k: Kernel): bool
  {
    if k in flags then flags[k] else false
  }

  /** The flag map after the `entry(..).or_insert(false)` of a lookup. */
  function SeeKernel(flags: map<Kernel, bool>, k: Kernel): (r: map<Kernel, bool>)
    ensures r.Keys == flags.Keys + {k}
    ensures forall k' :: k' in flags ==> r[k'] == flags[k']
    ensures k !in flags ==> !r[k]
  {
    flags[k := UpdateFlag(flags, k)]
  }

  /** Lookups never raise a flag: a cache whose flags are all false keeps
      them false. */
  lemma FlagsStayFalse(flags: map<Kernel, bool>, k: Kernel)
    requires forall k' :: k' in flags ==> !flags[k']
    ensures forall k' :: k' in SeeKernel(flags, k) ==> !SeeKernel(flags, k)[k']
  {
  }

  /** The outcome of one cache lookup: the pipeline returned (None: the
      `unwrap` of a failed first build panics) and the cache afterwards. */
  datatype Lookup<K> = Lookup(result: Option<Pipeline>, cache: map<K, Pipeline>)

  /** The `entry` match both lookups share: `built` is what the builder
      returns if it is called, `update` the kernel's flag. */
  function CacheEntry<K>(cache: map<K, Pipeline>, key: K, update: bool, built: Option<Pipeline>): (r: Lookup<K>)
    ensures r.result.None? <==> key !in cache && built.None?
    ensures r.result.Some? ==> r.cache == cache[key := r.result.value]
    ensures r.result.None? ==> r.cache == cache
    ensures key in cache && !(update && built.Some?) ==> r.result == Some(cache[key])
    ensures key !in cache || (update && built.Some?) ==> r.result == built
  {
    if key in cache then
      if update && built.Some? then Lookup(built, cache[key := built.value])
      else Lookup(Some(cache[key]), cache)
    else if built.Some? then Lookup(built, cache[key := built.value])
    else Lookup(None, cache)
  }

  /** With the flag down, a second lookup of a key returns what the first
      returned and changes nothing, whatever the builder would give. */
  lemma LookupIdempotent<K>(cache: map<K, Pipeline>, key: K, update: bool, first: Option<Pipeline>, second: Option<Pipeline>)
    requires CacheEntry(cache, key, update, first).result.Some?
    ensures CacheEntry(CacheEntry(cache, key, update, first).cache, key, false, second)
      == Lookup(CacheEntry(cache, key, update, first).result, CacheEntry(cache, key, update, first).cache)
  {
  }

  /** The compute cache is keyed by the kernel name alone: once a kernel has
      been built, a later call with its flag down gets the first pipeline,
      whose layout fits that call's bind group only when its texture and
      buffer counts agree with the first call's. */
  lemma ComputeKeyedByName(cache: map<Kernel, Pipeline>, k: Kernel, texs1: seq<Texture>, bufs1: seq<Buffer>, id1: nat,
                           texs2: seq<Texture>, bufs2: seq<Buffer>, id2: nat)
    requires k !in cache
    ensures var c1 := CacheEntry(cache, k, false, Some(MkComputePipeline(texs1, bufs1, id1))).cache;
      var p2 := CacheEntry(c1, k, false, Some(MkComputePipeline(texs2, bufs2, id2))).result;
      p2 == Some(MkComputePipeline(texs1, bufs1, id1))
      && (Matches(p2.value.layout, ComputeGroup(texs2, bufs2)) <==> |texs1| == |texs2| && |bufs1| == |bufs2|)
  {
    ComputeBindings(|texs1|, |bufs1|, texs2, bufs2);
  }

  /** `PipelineCache` behind its global lock. */
  class PipelineCache {
    var kernelUpdate: map<Kernel, bool>
    var renderCache: map<RenderKey, Pipeline>
    var computeCache: map<Kernel, Pipeline>

    /** Every cached render pipeline was built for its key's input count. */
    predicate Valid()
      reads this
    {
      forall key :: key in renderCache ==> renderCache[key].layout == RenderLayout(key.nInputs)
    }

    /** `PipelineCache::default()`. */
    constructor()
      ensures kernelUpdate == map[] && renderCache == map[] && computeCache == map[]
      ensures Valid()
    {
      kernelUpdate, renderCache, computeCache := map[], map[], map[];
    }

    /** `get_pipeline`: look up the kernel's flag (inserting false), then the
        entry for `(kernel, format, nInputs)`. A present entry is rebuilt,
        quietly, only when the flag is up, and kept if the rebuild fails; an
        absent one is built verbosely, and a failure there panics
        (`p == None`). `printed` says whether a compilation error reached
        stderr. */
    method GetPipeline(kernel: Kernel, format: Format, nInputs: nat, compiled: Option<nat>)
      returns (p: Option<Pipeline>, printed: bool)
      requires Valid()
      modifies this
      ensures Valid()
      ensures kernelUpdate == SeeKernel(old(kernelUpdate), kernel)
      ensures var l := CacheEntry(old(renderCache), RenderKey(kernel, format, nInputs),
                                  UpdateFlag(old(kernelUpdate), kernel), MkPipeline(nInputs, compiled));
        p == l.result && renderCache == l.cache
      ensures p.Some? ==> p.value.layout == RenderLayout(nInputs)
      ensures printed <==> RenderKey(kernel, format, nInputs) !in old(renderCache) && compiled.None?
      ensures computeCache == old(computeCache)
    {
      var shouldUpdate := UpdateFlag(kernelUpdate, kernel);
      kernelUpdate := kernelUpdate[kernel := shouldUpdate];
      var key := RenderKey(kernel, format, nInputs);
      if key in renderCache {
        printed := false;
        if shouldUpdate {
          printed := PrintsError(compiled, false);
          var pipe := MkPipeline(nInputs, compiled);
          if pipe.Some? {
            renderCache := renderCache[key := pipe.value];
          }
        }
        p := Some(renderCache[key]);
      } else {
        printed := PrintsError(compiled, true);
        p := MkPipeline(nInputs, compiled);
        if p.Some? {
          renderCache := renderCache[key := p.value];
        }
      }
    }

    /** `get_compute_pipeline`: the same, keyed by the kernel name only,
        with a builder that cannot fail, so it never panics. */
    method GetComputePipeline(kernel: Kernel, inTexs: seq<Texture>, rwBufs: seq<Buffer>, id: nat)
      returns (p: Pipeline)
      requires Valid()
      modifies this
      ensures Valid()
      ensures kernelUpdate == SeeKernel(old(kernelUpdate), kernel)
      ensures var l := CacheEntry(old(computeCache), kernel,
                                  UpdateFlag(old(kernelUpdate), kernel), Some(MkComputePipeline(inTexs, rwBufs, id)));
        Some(p) == l.result && computeCache == l.cache
      ensures renderCache == old(renderCache)
    {
      var shouldUpdate := UpdateFlag(kernelUpdate, kernel);
      kernelUpdate := kernelUpdate[kernel := shouldUpdate];
      if kernel in computeCache {
        if shouldUpdate {
          computeCache := computeCache[kernel := MkComputePipeline(inTexs, rwBufs, id)];
        }
      } else {
        computeCache := computeCache[kernel := MkComputePipeline(inTexs, rwBufs, id)];
      }
      p := computeCache[kernel];
    }
  }

  /** `RenderPass::pass` up to the draw: fetch the pipeline, then build the
      bind group for its group 1. The group always fits the pipeline's
      layout, because the input count is part of the cache key. */
  method Pass(cache: PipelineCache, samplers: Samplers, kernel: Kernel, outFormat: Format, inTexs: seq<Texture>,
              compiled: Option<nat>, createdLinear: Sampler, createdNearest: Sampler)
    returns (pipe: Option<Pipeline>, group: seq<GroupEntry>)
    requires cache.Valid()
    modifies cache, samplers
    ensures cache.Valid()
    ensures pipe.None? <==> RenderKey(kernel, outFormat, |inTexs|) !in old(cache.renderCache) && compiled.None?
    ensures pipe.Some? ==> Matches(pipe.value.layout, group)
    ensures cache.kernelUpdate == SeeKernel(old(cache.kernelUpdate), kernel)
    ensures var l := CacheEntry(old(cache.renderCache), RenderKey(kernel, outFormat, |inTexs|),
                                UpdateFlag(old(cache.kernelUpdate), kernel), MkPipeline(|inTexs|, compiled));
      pipe == l.result && cache.renderCache == l.cache
    ensures cache.computeCache == old(cache.computeCache)
    // A pass that got its pipeline leaves it cached, so a later pass with
    // the same kernel, format and input count cannot panic.
    ensures pipe.Some? ==> RenderKey(kernel, outFormat, |inTexs|) in cache.renderCache
    ensures pipe.Some? ==> samplers.linear == Lazy(old(samplers.linear), createdLinear).1
                           && samplers.nearest == Lazy(old(samplers.nearest), createdNearest).1
                           && group == RenderGroup(samplers.linear.value, samplers.nearest.value, inTexs)
    ensures pipe.None? ==> group == [] && samplers.linear == old(samplers.linear) && samplers.nearest == old(samplers.nearest)
  {
    var printed;
    pipe, printed := cache.GetPipeline(kernel, outFormat, |inTexs|, compiled);
    if pipe.None? {
      group := [];
      return;
    }
    group := samplers.MkBg(inTexs, createdLinear, createdNearest);
    RenderBindings(|inTexs|, samplers.linear.value, samplers.nearest.value, inTexs);
  }

  /** `RenderPass::compute_pass` up to the dispatch: fetch the pipeline,
      then build the bind group for its group 0. The group fits the
      pipeline's layout exactly when the pipeline was built for as many
      textures and buffers as this call passes. */
  method ComputePass(cache: PipelineCache, kernel: Kernel, inTexs: seq<Texture>, rwBufs: seq<Buffer>, id: nat)
    returns (pipe: Pipeline, group: seq<GroupEntry>)
    requires cache.Valid()
    modifies cache
    ensures cache.Valid()
    ensures pipe == (if kernel in old(cache.computeCache) && !UpdateFlag(old(cache.kernelUpdate), kernel)
                     then old(cache.computeCache)[kernel] else MkComputePipeline(inTexs, rwBufs, id))
    ensures group == ComputeGroup(inTexs, rwBufs)
    ensures cache.kernelUpdate == SeeKernel(old(cache.kernelUpdate), kernel)
    ensures var l := CacheEntry(old(cache.computeCache), kernel,
                                UpdateFlag(old(cache.kernelUpdate), kernel), Some(MkComputePipeline(inTexs, rwBufs, id)));
      Some(pipe) == l.result && cache.computeCache == l.cache
    ensures cache.renderCache == old(cache.renderCache)
  {
    pipe := cache.GetComputePipeline(kernel, inTexs, rwBufs, id);
    group := MkBgCompute(inTexs, rwBufs);
  }
}
