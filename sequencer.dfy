/** The frame loop of src/gpu_all.rs: resuming from the results file, the
    anti-repeat ring, the forbidden set handed to each search, the history of
    earlier searches and the rows appended to the results file. */
module Sequencer {
  import opened Basics
  import opened Text
  import opened TopK
  import opened Data
  import opened MaskDot

  /** The ring loses its oldest entry once it holds this many. */
  const RING_EVICT: nat := 10
  /** So it keeps this many between frames. */
  const RING_KEEP: nat := 9
  /** `prev_results` loses its oldest entry when it holds more than this. */
  const PREV_CAP: nat := 100
  /** The column names of the results file. */
  const HEADER_FIELDS: seq<string> := ["Frame", "tile_x", "tile_y", "tile_z", "zoom", "x", "y", "score", "time"]
  /** `Frame,tile_x,tile_y,tile_z,zoom,x,y,score,time`. */
  const HEADER: string := JoinFields(HEADER_FIELDS)

  // ---------------------------------------------------------------------
  // Resuming: the frames already in the results file.

  /** The frame ids of the records, in order. */
  function Ids(frames: seq<FrameData>): (ids: seq<nat>)
    ensures |ids| == |frames| && forall i :: 0 <= i < |frames| ==> ids[i] == frames[i].frame
  {
    seq(|frames|, i requires 0 <= i < |frames| => frames[i].frame)
  }

  /** What `sort_unstable_by_key` by frame id guarantees. */
  ghost predicate SortedIds(ids: seq<nat>)
  {
    forall i, j :: 0 <= i < j < |ids| ==> ids[i] <= ids[j]
  }

  ghost predicate StrictlyIncreasing(ids: seq<nat>)
  {
    forall i, j :: 0 <= i < j < |ids| ==> ids[i] < ids[j]
  }

  /** The duplicate check over adjacent pairs of the sorted records: `false`
      is the panic "calculated twice". */
  method CheckNoDuplicates(frames: seq<FrameData>) returns (ok: bool)
    ensures ok <==> forall i :: 0 <= i < |frames| - 1 ==> frames[i].frame != frames[i + 1].frame
  {
    var i := 0;
    while i + 1 < |frames|
      invariant i == 0 || i < |frames|
      invariant forall j :: 0 <= j < i ==> frames[j].frame != frames[j + 1].frame
    {
      if frames[i].frame == frames[i + 1].frame {
        return false;
      }
      i := i + 1;
    }
    return true;
  }

  /** Once the check passes, the sorted ids are strictly increasing: no frame
      is done twice. */
  lemma NoDuplicatesIncreasing(frames: seq<FrameData>)
    requires SortedIds(Ids(frames))
    requires forall i :: 0 <= i < |frames| - 1 ==> frames[i].frame != frames[i + 1].frame
    ensures StrictlyIncreasing(Ids(frames))
  {
    var ids := Ids(frames);
    forall i, j | 0 <= i < j < |ids|
      ensures ids[i] < ids[j]
    {
      assert ids[i] <= ids[i + 1] <= ids[j];
    }
  }

  /** The state of the collapse loop after the first `k` ids: the closed
      ranges and the open run `[begin, end]`. */
  function Runs(ids: seq<nat>, k: nat): (seq<(nat, nat)>, nat, nat)
    requires 1 <= k <= |ids|
  {
    if k == 1 then ([], ids[0], ids[0])
    else
      var (rs, b, e) := Runs(ids, k - 1);
      if ids[k - 1] != e + 1 then (rs + [(b, e)], ids[k - 1], ids[k - 1]) else (rs, b, ids[k - 1])
  }

  /** The ranges the loop reports: the closed ones and the last run. */
  function Collapsed(ids: seq<nat>): seq<(nat, nat)>
  {
    if ids == [] then []
    else
      var (rs, b, e) := Runs(ids, |ids|);
      rs + [(b, e)]
  }

  /** The collapse loop over the sorted records, extending the current run
      while ids are consecutive and closing it at a gap. */
  method CollapseRanges(frames: seq<FrameData>) returns (ranges: seq<(nat, nat)>)
    ensures ranges == Collapsed(Ids(frames))
  {
    if |frames| == 0 {
      return [];
    }
    ranges := [];
    var end := frames[0].frame;
    var begin := end;
    var i := 1;
    while i < |frames|
      invariant 1 <= i <= |frames|
      invariant Runs(Ids(frames), i) == (ranges, begin, end)
    {
      var frame := frames[i].frame;
      if frame != end + 1 {
        ranges := ranges + [(begin, end)];
        begin := frame;
      }
      end := frame;
      i := i + 1;
    }
    ranges := ranges + [(begin, end)];
  }

  /** `n` lies in one of the ranges. */
  predicate InRanges(rs: seq<(nat, nat)>, n: nat)
  {
    exists i :: 0 <= i < |rs| && rs[i].0 <= n <= rs[i].1
  }

  /** Every range is non-empty and each starts more than one past the end of
      the one before, so the ranges are increasing and never adjacent. */
  ghost predicate Separated(rs: seq<(nat, nat)>)
  {
    (forall i :: 0 <= i < |rs| ==> rs[i].0 <= rs[i].1)
    && (forall i :: 0 <= i < |rs| - 1 ==> rs[i].1 + 1 < rs[i + 1].0)
  }

  lemma InRangesAppend(rs: seq<(nat, nat)>, r: (nat, nat), n: nat)
    ensures InRanges(rs + [r], n) <==> InRanges(rs, n) || r.0 <= n <= r.1
  {
    if InRanges(rs, n) {
      var i :| 0 <= i < |rs| && rs[i].0 <= n <= rs[i].1;
      assert (rs + [r])[i] == rs[i];
    }
    if r.0 <= n <= r.1 {
      assert (rs + [r])[|rs|] == r;
    }
  }

  /** The invariant of the collapse loop on strictly increasing ids. */
  lemma {:induction false} RunsOk(ids: seq<nat>, k: nat)
    requires StrictlyIncreasing(ids) && 1 <= k <= |ids|
    ensures var (rs, b, e) := Runs(ids, k);
      Separated(rs) && b <= e && e == ids[k - 1]
      && (|rs| > 0 ==> rs[|rs| - 1].1 + 1 < b)
      && forall n: nat :: n in ids[..k] <==> InRanges(rs, n) || b <= n <= e
  {
    if k == 1 {
      assert ids[..1] == [ids[0]];
    } else {
      RunsOk(ids, k - 1);
      var (rs, b, e) := Runs(ids, k - 1);
      var f := ids[k - 1];
      assert ids[k - 2] < f;
      assert ids[..k] == ids[..k - 1] + [f];
      RunStep(rs, b, e, f, ids[..k - 1]);
    }
  }

  /** One id of the collapse loop: a gap closes the open run, a consecutive
      id extends it. */
  lemma RunStep(rs: seq<(nat, nat)>, b: nat, e: nat, f: nat, seen: seq<nat>)
    requires Separated(rs) && b <= e < f && (|rs| > 0 ==> rs[|rs| - 1].1 + 1 < b)
    requires forall n: nat :: n in seen <==> InRanges(rs, n) || b <= n <= e
    ensures var (rs', b', e') := if f != e + 1 then (rs + [(b, e)], f, f) else (rs, b, f);
      Separated(rs') && b' <= e' && (|rs'| > 0 ==> rs'[|rs'| - 1].1 + 1 < b')
      && forall n: nat :: n in seen + [f] <==> InRanges(rs', n) || b' <= n <= e'
  {
    if f != e + 1 {
      var rs' := rs + [(b, e)];
      forall i | 0 <= i < |rs'| - 1
        ensures rs'[i].1 + 1 < rs'[i + 1].0
      {
        if i < |rs| - 1 {
          assert rs'[i] == rs[i] && rs'[i + 1] == rs[i + 1];
        } else {
          assert rs'[i] == rs[|rs| - 1] && rs'[i + 1] == (b, e);
        }
      }
      forall n: nat
        ensures n in seen + [f] <==> InRanges(rs', n) || f <= n <= f
      {
        InRangesAppend(rs, (b, e), n);
      }
    }
  }

  /** The reported ranges are separated by gaps of more than one frame and
      cover exactly the frames already done. */
  lemma CollapsedRanges(frames: seq<FrameData>)
    requires StrictlyIncreasing(Ids(frames))
    ensures Separated(Collapsed(Ids(frames)))
    ensures forall n: nat :: n in Ids(frames) <==> InRanges(Collapsed(Ids(frames)), n)
  {
    var ids := Ids(frames);
    if ids != [] {
      RunsOk(ids, |ids|);
      var (rs, b, e) := Runs(ids, |ids|);
      assert ids[..|ids|] == ids;
      forall n: nat
        ensures InRanges(rs + [(b, e)], n) <==> InRanges(rs, n) || b <= n <= e
      {
        InRangesAppend(rs, (b, e), n);
      }
    }
  }

  /** `binary_search_by_key` on the sorted records: a record of the frame,
      or `None` when the frame is not done. */
  function FindDone(done: seq<FrameData>, id: nat): (r: Option<FrameData>)
    ensures r.Some? ==> r.value in done && r.value.frame == id
    ensures r.None? <==> forall i :: 0 <= i < |done| ==> done[i].frame != id
  {
    if done == [] then None
    else if done[0].frame == id then Some(done[0])
    else FindDone(done[1..], id)
  }

  /** Without duplicates the record found is the only one of its frame. */
  lemma FindDoneUnique(done: seq<FrameData>, id: nat, i: nat)
    requires StrictlyIncreasing(Ids(done))
    requires i < |done| && done[i].frame == id
    ensures FindDone(done, id) == Some(done[i])
  {
    var r := FindDone(done, id);
    var j :| 0 <= j < |done| && done[j] == r.value;
    assert Ids(done)[j] == Ids(done)[i];
    assert j == i;
  }

  // ---------------------------------------------------------------------
  // The anti-repeat ring.

  /** The eviction after a push: `remove(0)` once the ring holds ten. */
  function Evicted(ring: seq<TilePos>): (r: seq<TilePos>)
    ensures |ring| <= RING_EVICT ==> |r| <= RING_KEEP
    ensures |r| <= |ring| && forall i :: 0 <= i < |r| ==> r[i] == ring[|ring| - |r| + i]
  {
    if |ring| >= RING_EVICT then ring[1..] else ring
  }

  /** The last `n` elements, or all of them when there are fewer. */
  function LastN<T>(s: seq<T>, n: nat): (r: seq<T>)
    ensures |r| == if |s| <= n then |s| else n
  {
    if |s| <= n then s else s[|s| - n..]
  }

  /** A push and its eviction keep the ring equal to the last nine chosen
      tiles, oldest first. */
  lemma RingKeepsLastNine(chosen: seq<TilePos>, t: TilePos)
    ensures Evicted(LastN(chosen, RING_KEEP) + [t]) == LastN(chosen + [t], RING_KEEP)
  {
    var s := chosen + [t];
    if |chosen| >= RING_KEEP {
      assert (chosen[|chosen| - RING_KEEP..] + [t])[1..] == s[|s| - RING_KEEP..];
    }
  }

  // ---------------------------------------------------------------------
  // The forbidden set of a searched frame.

  /** What `prev_results` remembers of a searched frame: its mask index, the
      best score recorded per tile, and the chosen position. */
  datatype Prev = Prev(maskIdx: nat, tileMaxScores: map<TilePos, Score>, best: PosResult)

  /** `f32::min(0.0, last_score - 0.3)`. */
  function Threshold(last: Score): (t: Score)
    ensures Le(t, Fin(0.0)) && Le(t, Minus(last, 0.3))
    ensures t == Fin(0.0) || t == Minus(last, 0.3)
  {
    Min(Fin(0.0), Minus(last, 0.3))
  }

  /** `!(mask_clean.dot(&prev_mask) < 0.8)`, decided on the integer
      accumulators of `dot`. */
  predicate SimilarMasks(cur: seq<Pixel>, other: seq<Pixel>)
  {
    var n := Paired(cur, other);
    Similar(Cross(cur, other, n), Cross(cur, cur, n), Cross(other, other, n))
  }

  /** The pruning test does not depend on which frame is the current one,
      and a frame is always similar to itself. */
  lemma SimilarMasksSymmetric(a: seq<Pixel>, b: seq<Pixel>)
    ensures SimilarMasks(a, b) <==> SimilarMasks(b, a)
    ensures SimilarMasks(a, a)
  {
    DotSwap(a, b);
    SimilarSelf(a);
    assert Paired(a, a) == |a|;
  }

  /** Tile `t` is pruned because of the remembered frame `p`: the frames look
      alike and `t` scored below the threshold there. */
  predicate Pruned(p: Prev, cur: seq<Pixel>, masks: nat -> seq<Pixel>, t: TilePos)
  {
    SimilarMasks(cur, masks(p.maskIdx)) && t in p.tileMaxScores
    && Lt(p.tileMaxScores[t], Threshold(p.best.score))
  }

  /** The forbidden set: the ring, plus the tiles pruned by any remembered
      frame. */
  function Forbidden(ring: seq<TilePos>, prev: seq<Prev>, cur: seq<Pixel>, masks: nat -> seq<Pixel>): set<TilePos>
  {
    (set t | t in ring) + (set i, t | 0 <= i < |prev| && t in prev[i].tileMaxScores && Pruned(prev[i], cur, masks, t) :: t)
  }

  /** The set contains every ring tile and every pruned tile, and nothing
      else. */
  lemma ForbiddenMembers(ring: seq<TilePos>, prev: seq<Prev>, cur: seq<Pixel>, masks: nat -> seq<Pixel>, t: TilePos)
    ensures t in Forbidden(ring, prev, cur, masks) <==>
      t in ring || exists i :: 0 <= i < |prev| && Pruned(prev[i], cur, masks, t)
  {
  }

  /** A remembered frame that looks alike forbids exactly its tiles below the
      threshold; one that does not look alike forbids nothing. */
  lemma PrunedIff(p: Prev, cur: seq<Pixel>, masks: nat -> seq<Pixel>, t: TilePos)
    requires t in p.tileMaxScores
    ensures Pruned(p, cur, masks, t) <==>
      SimilarMasks(cur, masks(p.maskIdx)) && Lt(p.tileMaxScores[t], Fin(0.0))
      && Lt(p.tileMaxScores[t], Minus(p.best.score, 0.3))
  {
    var s, last := p.tileMaxScores[t], p.best.score;
    var th := Threshold(last);
    if th == Fin(0.0) {
      assert Le(th, Minus(last, 0.3));
    } else {
      assert Le(th, Fin(0.0));
    }
  }

  /** The loop over `prev_results` that builds the forbidden set, starting
      from the ring. */
  method BuildForbidden(ring: seq<TilePos>, prev: seq<Prev>, cur: seq<Pixel>, masks: nat -> seq<Pixel>)
    returns (forbidden: set<TilePos>)
    ensures forbidden == Forbidden(ring, prev, cur, masks)
  {
    forbidden := set t | t in ring;
    for i := 0 to |prev|
      invariant forbidden == Forbidden(ring, prev[..i], cur, masks)
    {
      var p := prev[i];
      assert prev[..i + 1] == prev[..i] + [p];
      var sum, norm1, norm2 := Dot(cur, masks(p.maskIdx));
      if !Similar(sum, norm1, norm2) {
        ForbiddenStep(ring, prev[..i], p, cur, masks, {});
        continue;
      }
      forbidden := PruneInto(forbidden, p, cur, masks);
      ForbiddenStep(ring, prev[..i], p, cur, masks, PrunedSet(p, cur, masks));
    }
    assert prev[..|prev|] == prev;
  }

  /** The tiles a remembered frame prunes. */
  function PrunedSet(p: Prev, cur: seq<Pixel>, masks: nat -> seq<Pixel>): set<TilePos>
  {
    set t | t in p.tileMaxScores && Pruned(p, cur, masks, t)
  }

  /** The loop over one remembered frame's tile scores, for a frame whose mask
      looks alike: every tile below the threshold is inserted. */
  method PruneInto(forbidden: set<TilePos>, p: Prev, cur: seq<Pixel>, masks: nat -> seq<Pixel>)
    returns (r: set<TilePos>)
    requires SimilarMasks(cur, masks(p.maskIdx))
    ensures r == forbidden + PrunedSet(p, cur, masks)
  {
    var threshold := Threshold(p.best.score);
    var remaining := p.tileMaxScores.Keys;
    r := forbidden;
    while remaining != {}
      invariant remaining <= p.tileMaxScores.Keys
      invariant r == forbidden + (set t | t in p.tileMaxScores.Keys - remaining && Pruned(p, cur, masks, t))
      decreases |remaining|
    {
      var tile :| tile in remaining;
      if Lt(p.tileMaxScores[tile], threshold) {
        r := r + {tile};
      }
      remaining := remaining - {tile};
    }
  }

  /** One more remembered frame adds its pruned tiles. */
  lemma ForbiddenStep(ring: seq<TilePos>, prev: seq<Prev>, p: Prev, cur: seq<Pixel>, masks: nat -> seq<Pixel>, added: set<TilePos>)
    requires added == PrunedSet(p, cur, masks)
    ensures Forbidden(ring, prev + [p], cur, masks) == Forbidden(ring, prev, cur, masks) + added
  {
    var prev' := prev + [p];
    forall t
      ensures t in Forbidden(ring, prev', cur, masks) <==> t in Forbidden(ring, prev, cur, masks) + added
    {
      ForbiddenMembers(ring, prev', cur, masks, t);
      ForbiddenMembers(ring, prev, cur, masks, t);
      if exists i :: 0 <= i < |prev'| && Pruned(prev'[i], cur, masks, t) {
        var i :| 0 <= i < |prev'| && Pruned(prev'[i], cur, masks, t);
        if i < |prev| {
          assert prev'[i] == prev[i];
        }
      }
      if exists i :: 0 <= i < |prev| && Pruned(prev[i], cur, masks, t) {
        var i :| 0 <= i < |prev| && Pruned(prev[i], cur, masks, t);
        assert prev'[i] == prev[i];
      }
      if t in added {
        assert prev'[|prev|] == p;
      }
    }
  }

  // ---------------------------------------------------------------------
  // History and results file.

  /** The cap on `prev_results`, applied before each push. */
  function Capped(prev: seq<Prev>): (r: seq<Prev>)
    ensures |prev| <= PREV_CAP + 1 ==> |r| <= PREV_CAP
    ensures |r| <= |prev| && forall i :: 0 <= i < |r| ==> r[i] == prev[|prev| - |r| + i]
  {
    if |prev| > PREV_CAP then prev[1..] else prev
  }

  /** `{}`, `{:.6}` and `{:.2}` of the zoom, the score and the search time,
      kept abstract. */
  datatype RowFormat = RowFormat(zoom: real -> string, score: Score -> string, time: real -> string)

  /** The fields joined by commas. */
  function JoinFields(fields: seq<string>): string
  {
    if fields == [] then ""
    else if |fields| == 1 then fields[0]
    else JoinFields(fields[..|fields| - 1]) + [','] + fields[|fields| - 1]
  }

  /** The nine fields of a row, in header order. */
  function RowFields(frame: nat, best: PosResult, elapsed: real, fmt: RowFormat): seq<string>
  {
    [NatToStr(frame), NatToStr(best.tileX), NatToStr(best.tileY), NatToStr(best.tileZ),
     fmt.zoom(best.zoom), NatToStr(best.x), NatToStr(best.y), fmt.score(best.score), fmt.time(elapsed)]
  }

  /** The first field and its comma open the joined text. */
  lemma {:induction false} JoinFieldsHead(fields: seq<string>)
    requires |fields| >= 2
    ensures fields[0] + [','] <= JoinFields(fields)
  {
    var init := fields[..|fields| - 1];
    if |fields| > 2 {
      JoinFieldsHead(init);
    }
    assert init[0] == fields[0];
  }

  /** The row `writeln!` appends for a searched frame, without its `\n`:
      it opens with the frame index in decimal and a comma, the field the
      reader takes as `frame`. */
  function Row(frame: nat, best: PosResult, elapsed: real, fmt: RowFormat): (r: string)
    ensures NatToStr(frame) + [','] <= r
  {
    JoinFieldsHead(RowFields(frame, best, elapsed, fmt));
    JoinFields(RowFields(frame, best, elapsed, fmt))
  }

  /** The first line this run writes: the header into an empty file, an
      empty line after an existing one. */
  function FirstLine(existing: string): string
  {
    if existing == [] then HEADER else ""
  }

  lemma {:induction false} SplitJoinFields(fields: seq<string>)
    requires |fields| >= 1 && forall i :: 0 <= i < |fields| ==> NoneIn(fields[i], {','})
    ensures Split(JoinFields(fields), {','}) == fields
  {
    if |fields| == 1 {
      SplitNoSep(fields[0], {','});
    } else {
      var init := fields[..|fields| - 1];
      SplitJoinFields(init);
      SplitConcat(JoinFields(init), ',', fields[|fields| - 1], {','});
      SplitNoSep(fields[|fields| - 1], {','});
    }
  }

  lemma DigitsNoComma(n: nat)
    ensures NoneIn(NatToStr(n), {',', '\n', '\r'})
  {
    var s := NatToStr(n);
    forall i | 0 <= i < |s|
      ensures s[i] !in {',', '\n', '\r'}
    {
      assert IsDigit(s[i]);
    }
  }

  lemma DigitsTrimmed(n: nat)
    ensures Trim(NatToStr(n)) == NatToStr(n)
  {
    var s := NatToStr(n);
    assert IsDigit(s[0]) && IsDigit(s[|s| - 1]);
    TrimNoWhitespace(s);
  }

  /** A formatter whose output needs no escaping in a CSV row. */
  predicate Plain(s: string)
  {
    NoneIn(s, {',', '\n', '\r'})
  }

  /** The formatters write fields that the reader can take back. */
  predicate Readable(best: PosResult, elapsed: real, fmt: RowFormat, fp: FloatParser)
  {
    Plain(fmt.zoom(best.zoom)) && Plain(fmt.score(best.score)) && Plain(fmt.time(elapsed))
    && fp.zoom(Trim(fmt.zoom(best.zoom))).Some? && fp.score(Trim(fmt.score(best.score))).Some?
  }

  /** A `u32` position. */
  predicate Fits(frame: nat, best: PosResult)
  {
    frame <= U32_MAX && best.tileX <= U32_MAX && best.tileY <= U32_MAX && best.tileZ <= U32_MAX
    && best.x <= U32_MAX && best.y <= U32_MAX
  }

  /** The row splits back into its nine fields. */
  lemma RowSplits(frame: nat, best: PosResult, elapsed: real, fmt: RowFormat)
    requires Plain(fmt.zoom(best.zoom)) && Plain(fmt.score(best.score)) && Plain(fmt.time(elapsed))
    ensures Split(Row(frame, best, elapsed, fmt), {','}) == RowFields(frame, best, elapsed, fmt)
  {
    var fields := RowFields(frame, best, elapsed, fmt);
    DigitsNoComma(frame);
    DigitsNoComma(best.tileX);
    DigitsNoComma(best.tileY);
    DigitsNoComma(best.tileZ);
    DigitsNoComma(best.x);
    DigitsNoComma(best.y);
    forall i | 0 <= i < |fields|
      ensures NoneIn(fields[i], {','})
    {
      assert Plain(fields[i]);
    }
    SplitJoinFields(fields);
  }

  /** A decimal field reads back as its number. */
  lemma DigitsField(n: nat)
    requires n <= U32_MAX
    ensures ParseU32(Trim(NatToStr(n))) == Some(n)
  {
    DigitsTrimmed(n);
    ParseNatToStr(n);
  }

  /** Reading back a written row with `parse_csv`'s record parser gives the
      frame, the tile and the offset exactly; the score and zoom are what the
      float parser makes of their text. */
  lemma RowRoundTrip(frame: nat, best: PosResult, elapsed: real, fmt: RowFormat, fp: FloatParser)
    requires Fits(frame, best) && Readable(best, elapsed, fmt, fp)
    ensures var r := ParseRecord(Row(frame, best, elapsed, fmt), fp);
      r.Some? && r.value.frame == frame && TilePosOf(r.value.result) == TilePosOf(best)
      && r.value.result.x == best.x && r.value.result.y == best.y
      && Some(r.value.result.zoom) == fp.zoom(Trim(fmt.zoom(best.zoom)))
      && Some(r.value.result.score) == fp.score(Trim(fmt.score(best.score)))
  {
    var row := Row(frame, best, elapsed, fmt);
    var parts := RowFields(frame, best, elapsed, fmt);
    RowSplits(frame, best, elapsed, fmt);
    RecordOfParts(row, parts, fp, frame, best.tileX, best.tileY, best.tileZ, best.x, best.y);
  }

  /** `parse_csv`'s record parser on a line whose first eight fields are the
      given numbers in decimal and two texts the float parser accepts. */
  lemma RecordOfParts(line: string, parts: seq<string>, fp: FloatParser, frame: nat, tx: nat, ty: nat, tz: nat, x: nat, y: nat)
    requires Split(line, {','}) == parts && |parts| >= 8
    requires frame <= U32_MAX && tx <= U32_MAX && ty <= U32_MAX && tz <= U32_MAX && x <= U32_MAX && y <= U32_MAX
    requires parts[0] == NatToStr(frame) && parts[1] == NatToStr(tx) && parts[2] == NatToStr(ty)
      && parts[3] == NatToStr(tz) && parts[5] == NatToStr(x) && parts[6] == NatToStr(y)
    requires fp.zoom(Trim(parts[4])).Some? && fp.score(Trim(parts[7])).Some?
    ensures ParseRecord(line, fp) == Some(FrameData(frame,
      PosResult(tx, ty, tz, x, y, fp.score(Trim(parts[7])).value, fp.zoom(Trim(parts[4])).value)))
  {
    DigitsField(frame);
    DigitsField(tx);
    DigitsField(ty);
    DigitsField(tz);
    DigitsField(x);
    DigitsField(y);
    var f := Fields(line).value;
    assert forall i :: 0 <= i < 8 ==> f[i] == Trim(parts[i]);
  }

  /** A written row is a line that `parse_csv` keeps: it starts with a digit
      and holds no line break. */
  lemma RowKept(frame: nat, best: PosResult, elapsed: real, fmt: RowFormat)
    requires Plain(fmt.zoom(best.zoom)) && Plain(fmt.score(best.score)) && Plain(fmt.time(elapsed))
    ensures IsLine(Row(frame, best, elapsed, fmt)) && Kept(Row(frame, best, elapsed, fmt))
  {
    var fields := RowFields(frame, best, elapsed, fmt);
    DigitsNoComma(frame);
    DigitsNoComma(best.tileX);
    DigitsNoComma(best.tileY);
    DigitsNoComma(best.tileZ);
    DigitsNoComma(best.x);
    DigitsNoComma(best.y);
    JoinPlain(fields);
    var row := Row(frame, best, elapsed, fmt);
    JoinFirst(fields);
    var d := NatToStr(frame);
    assert row[0] == d[0] && IsDigit(d[0]);
    TrimEndKeepsFirst(row);
  }

  lemma {:induction false} JoinPlain(fields: seq<string>)
    requires forall i :: 0 <= i < |fields| ==> Plain(fields[i])
    ensures NoneIn(JoinFields(fields), {'\n', '\r'})
  {
    if |fields| > 1 {
      var init := fields[..|fields| - 1];
      JoinPlain(init);
      var a, b := JoinFields(init), fields[|fields| - 1];
      assert Plain(b);
      forall k | 0 <= k < |a + [','] + b|
        ensures (a + [','] + b)[k] !in {'\n', '\r'}
      {
        if k < |a| {
          assert (a + [','] + b)[k] == a[k];
        } else if k > |a| {
          assert (a + [','] + b)[k] == b[k - |a| - 1];
        }
      }
    }
  }

  lemma {:induction false} JoinFirst(fields: seq<string>)
    requires |fields| >= 1 && |fields[0]| >= 1
    ensures |JoinFields(fields)| >= 1 && JoinFields(fields)[0] == fields[0][0]
  {
    if |fields| > 1 {
      JoinFirst(fields[..|fields| - 1]);
    }
  }

  /** The header is one line of nine comma-separated names, one per field
      of a row. */
  lemma HeaderFields()
    ensures Split(HEADER, {','}) == HEADER_FIELDS && |HEADER_FIELDS| == 9
    ensures IsLine(HEADER)
  {
    forall k | 0 <= k < |HEADER_FIELDS|
      ensures Plain(HEADER_FIELDS[k])
    {
      var s := HEADER_FIELDS[k];
      forall i | 0 <= i < |s|
        ensures s[i] !in {',', '\n', '\r'}
      {
      }
    }
    SplitJoinFields(HEADER_FIELDS);
    JoinPlain(HEADER_FIELDS);
  }

  /** One searched frame as the results file records it. */
  datatype Written = Written(frame: nat, best: PosResult, elapsed: real)

  function Rows(ws: seq<Written>, fmt: RowFormat): (r: seq<string>)
    ensures |r| == |ws|
  {
    seq(|ws|, i requires 0 <= i < |ws| => Row(ws[i].frame, ws[i].best, ws[i].elapsed, fmt))
  }

  lemma {:induction false} FilterKeptAll(ls: seq<string>)
    requires forall i :: 0 <= i < |ls| ==> Kept(ls[i])
    ensures FilterKept(ls) == ls
  {
    if ls != [] {
      var init, last := ls[..|ls| - 1], ls[|ls| - 1];
      FilterKeptAll(init);
      assert FilterKept(ls) == FilterKept(init) + [last];
      FrontLast(ls);
    }
  }

  /** A results file written from scratch reads back, through `parse_csv`,
      as one record per searched frame in order, with the frame, tile and
      offset of each. */
  lemma FileRoundTrip(ws: seq<Written>, fmt: RowFormat, fp: FloatParser)
    requires forall i :: 0 <= i < |ws| ==> Fits(ws[i].frame, ws[i].best) && Readable(ws[i].best, ws[i].elapsed, fmt, fp)
    ensures var r := ParseCsv(JoinLines([FirstLine("")] + Rows(ws, fmt)), fp);
      r.Some? && |r.value| == |ws|
      && forall i :: 0 <= i < |ws| ==> (r.value[i].frame == ws[i].frame
        && TilePosOf(r.value[i].result) == TilePosOf(ws[i].best)
        && r.value[i].result.x == ws[i].best.x && r.value[i].result.y == ws[i].best.y)
  {
    var rows := Rows(ws, fmt);
    forall i | 0 <= i < |rows|
      ensures IsLine(rows[i]) && Kept(rows[i])
      ensures ParseRecord(rows[i], fp).Some?
    {
      RowKept(ws[i].frame, ws[i].best, ws[i].elapsed, fmt);
      RowRoundTrip(ws[i].frame, ws[i].best, ws[i].elapsed, fmt, fp);
    }
    HeaderFields();
    HeaderIgnored(HEADER, rows);
    FilterKeptAll(rows);
    var content := JoinLines([FirstLine("")] + rows);
    assert DataLines(content) == rows;
    var r := ParseCsv(content, fp);
    forall i | 0 <= i < |ws|
      ensures r.value[i].frame == ws[i].frame && TilePosOf(r.value[i].result) == TilePosOf(ws[i].best)
        && r.value[i].result.x == ws[i].best.x && r.value[i].result.y == ws[i].best.y
    {
      RowRoundTrip(ws[i].frame, ws[i].best, ws[i].elapsed, fmt, fp);
    }
  }

  // ---------------------------------------------------------------------
  // The frame loop.

  /** What one search reports: the best score per tile, the chosen position
      and the search time. */
  datatype Outcome = Outcome(tileMaxScores: map<TilePos, Score>, best: PosResult, elapsed: real)

  /** The loop's state between two frames, as a value. */
  datatype Loop = Loop(ring: seq<TilePos>, replayForbidden: set<TilePos>, prev: seq<Prev>,
                       written: seq<string>, chosen: seq<TilePos>)

  /** One frame on the loop's state, given what its search reports: a frame
      the results file has is replayed, pushing its tile and mirroring the
      ring's eviction in the outer forbidden set; any other frame appends the
      search's tile, history entry and row. */
  ghost function StepOf(s: Loop, done: seq<FrameData>, maskIdx: nat, o: Outcome, fmt: RowFormat): Loop
  {
    match FindDone(done, maskIdx)
    case Some(f) =>
      var t := TilePosOf(f.result);
      Loop(Evicted(s.ring + [t]),
           if |s.ring| + 1 >= RING_EVICT then (s.replayForbidden + {t}) - {s.ring[0]} else s.replayForbidden + {t},
           s.prev, s.written, s.chosen + [t])
    case None =>
      var t := TilePosOf(o.best);
      Loop(Evicted(s.ring + [t]), s.replayForbidden, Capped(s.prev) + [Prev(maskIdx, o.tileMaxScores, o.best)],
           s.written + [Row(maskIdx, o.best, o.elapsed, fmt)], s.chosen + [t])
  }

  /** The search of the loop: frame `k` of mask `maskIdx` runs `runs(k)` on
      the forbidden set built from the state before it. */
  function Searches(masks: nat -> seq<Pixel>, runs: nat -> (set<TilePos> -> Outcome)): (Loop, nat, nat) -> Outcome
  {
    (s: Loop, maskIdx: nat, k: nat) => runs(k)(Forbidden(s.ring, s.prev, masks(maskIdx), masks))
  }

  /** The states of a loop over the frames `maskIdxs` whose frame `k`, of
      mask `m`, takes state `l` to `step(l, m, k)`: `t[k]` is the state
      before frame `k` and the last one the state after all of them. */
  ghost function Trace(s: Loop, maskIdxs: seq<nat>, step: (Loop, nat, nat) -> Loop): (t: seq<Loop>)
    ensures |t| == |maskIdxs| + 1 && t[0] == s
    decreases |maskIdxs|
  {
    if maskIdxs == [] then [s]
    else
      var n := |maskIdxs| - 1;
      var t := Trace(s, maskIdxs[..n], step);
      t + [step(t[n], maskIdxs[n], n)]
  }

  /** Each state of the trace is the one before it after its frame. */
  lemma {:induction false} TraceStep(s: Loop, maskIdxs: seq<nat>, step: (Loop, nat, nat) -> Loop, k: nat)
    requires k < |maskIdxs|
    ensures var t := Trace(s, maskIdxs, step); t[k + 1] == step(t[k], maskIdxs[k], k)
    decreases |maskIdxs|
  {
    var n := |maskIdxs| - 1;
    if k < n {
      TraceStep(s, maskIdxs[..n], step, k);
      assert maskIdxs[..n][k] == maskIdxs[k];
    }
  }

  /** The tile a frame pushes: the recorded one when the results file has
      the frame, the search's best otherwise. */
  function Pushed(done: seq<FrameData>, maskIdx: nat, o: Outcome): TilePos
  {
    match FindDone(done, maskIdx)
    case Some(f) => TilePosOf(f.result)
    case None => TilePosOf(o.best)
  }

  /** The row a frame of mask `maskIdx` writes when it is searched from
      state `s`. */
  ghost function SearchRow(search: (Loop, nat, nat) -> Outcome, s: Loop, maskIdx: nat, k: nat, fmt: RowFormat): string
  {
    var o := search(s, maskIdx, k);
    Row(maskIdx, o.best, o.elapsed, fmt)
  }

  /** How many of the frames the results file does not have, which are the
      frames that are searched. */
  function Searched(done: seq<FrameData>, maskIdxs: seq<nat>): (n: nat)
    ensures n <= |maskIdxs|
  {
    if maskIdxs == [] then 0
    else
      var k := |maskIdxs| - 1;
      Searched(done, maskIdxs[..k]) + if FindDone(done, maskIdxs[k]).None? then 1 else 0
  }

  /** The frame of `gpu_all`: `StepOf` on what `search` reports from the
      state before it. */
  ghost function Frame(done: seq<FrameData>, search: (Loop, nat, nat) -> Outcome, fmt: RowFormat): (Loop, nat, nat) -> Loop
  {
    (l: Loop, m: nat, k: nat) => StepOf(l, done, m, search(l, m, k), fmt)
  }

  /** The tile that frame pushes, as a function of the state before it. */
  ghost function PushOf(done: seq<FrameData>, search: (Loop, nat, nat) -> Outcome): (Loop, nat, nat) -> TilePos
  {
    (l: Loop, m: nat, k: nat) => Pushed(done, m, search(l, m, k))
  }

  /** The row that frame writes when searched, as a function of the state
      before it. */
  ghost function RowOf(search: (Loop, nat, nat) -> Outcome, fmt: RowFormat): (Loop, nat, nat) -> string
  {
    (l: Loop, m: nat, k: nat) => SearchRow(search, l, m, k, fmt)
  }

  /** Every frame of `step` appends the tile `pushed` names to the chosen
      tiles. */
  ghost predicate PushesChosen(step: (Loop, nat, nat) -> Loop, pushed: (Loop, nat, nat) -> TilePos)
  {
    forall l: Loop, m: nat, k: nat :: step(l, m, k).chosen == l.chosen + [pushed(l, m, k)]
  }

  /** Every frame of `step` appends the row `row` names when the results
      file does not have the frame, and nothing when it does. */
  ghost predicate WritesRows(step: (Loop, nat, nat) -> Loop, done: seq<FrameData>, row: (Loop, nat, nat) -> string)
  {
    forall l: Loop, m: nat, k: nat ::
      step(l, m, k).written == l.written + if FindDone(done, m).None? then [row(l, m, k)] else []
  }

  /** The frame of `gpu_all` pushes its replayed or found tile. */
  lemma FramePushes(done: seq<FrameData>, search: (Loop, nat, nat) -> Outcome, fmt: RowFormat)
    ensures PushesChosen(Frame(done, search, fmt), PushOf(done, search))
  {
    forall l: Loop, m: nat, k: nat
      ensures Frame(done, search, fmt)(l, m, k).chosen == l.chosen + [PushOf(done, search)(l, m, k)]
    {
      assert Frame(done, search, fmt)(l, m, k) == StepOf(l, done, m, search(l, m, k), fmt);
      assert PushOf(done, search)(l, m, k) == Pushed(done, m, search(l, m, k));
      match FindDone(done, m)
      case Some(f) =>
      case None =>
    }
  }

  /** The frame of `gpu_all` writes its search's row when it searches and
      nothing when it replays. */
  lemma FrameWrites(done: seq<FrameData>, search: (Loop, nat, nat) -> Outcome, fmt: RowFormat)
    ensures WritesRows(Frame(done, search, fmt), done, RowOf(search, fmt))
  {
    forall l: Loop, m: nat, k: nat
      ensures Frame(done, search, fmt)(l, m, k).written
              == l.written + if FindDone(done, m).None? then [RowOf(search, fmt)(l, m, k)] else []
    {
      assert Frame(done, search, fmt)(l, m, k) == StepOf(l, done, m, search(l, m, k), fmt);
      assert RowOf(search, fmt)(l, m, k) == SearchRow(search, l, m, k, fmt);
      match FindDone(done, m)
      case Some(f) =>
      case None =>
    }
  }

  /** After `k` frames the chosen tiles are the earlier ones followed by one
      tile per frame. */
  lemma {:induction false} TraceChosenLength(s: Loop, maskIdxs: seq<nat>, step: (Loop, nat, nat) -> Loop,
                                             pushed: (Loop, nat, nat) -> TilePos, k: nat)
    requires k <= |maskIdxs| && PushesChosen(step, pushed)
    ensures var t := Trace(s, maskIdxs, step);
      |t[k].chosen| == |s.chosen| + k && t[k].chosen[..|s.chosen|] == s.chosen
    decreases k
  {
    if k > 0 {
      TraceChosenLength(s, maskIdxs, step, pushed, k - 1);
      TraceStep(s, maskIdxs, step, k - 1);
      var t := Trace(s, maskIdxs, step);
      assert t[k].chosen == t[k - 1].chosen + [pushed(t[k - 1], maskIdxs[k - 1], k - 1)];
      assert t[k].chosen[..|s.chosen|] == t[k - 1].chosen[..|s.chosen|];
    }
  }

  /** Frame `i` pushed its tile at position `i` after the earlier tiles,
      and the later frames keep it. */
  lemma {:induction false} TraceChosenAt(s: Loop, maskIdxs: seq<nat>, step: (Loop, nat, nat) -> Loop,
                                         pushed: (Loop, nat, nat) -> TilePos, k: nat, i: nat)
    requires i < k <= |maskIdxs| && PushesChosen(step, pushed)
    ensures var t := Trace(s, maskIdxs, step);
      |s.chosen| + i < |t[k].chosen| && t[k].chosen[|s.chosen| + i] == pushed(t[i], maskIdxs[i], i)
    decreases k
  {
    TraceStep(s, maskIdxs, step, k - 1);
    var t := Trace(s, maskIdxs, step);
    assert t[k].chosen == t[k - 1].chosen + [pushed(t[k - 1], maskIdxs[k - 1], k - 1)];
    TraceChosenLength(s, maskIdxs, step, pushed, k - 1);
    if i < k - 1 {
      TraceChosenAt(s, maskIdxs, step, pushed, k - 1, i);
    }
  }

  /** After `k` frames the chosen tiles are the earlier ones followed by one
      tile per frame, each the one its frame pushes from the state the
      frames before it left. */
  lemma TraceChosen(s: Loop, maskIdxs: seq<nat>, step: (Loop, nat, nat) -> Loop,
                    pushed: (Loop, nat, nat) -> TilePos, k: nat)
    requires k <= |maskIdxs| && PushesChosen(step, pushed)
    ensures var t := Trace(s, maskIdxs, step);
      |t[k].chosen| == |s.chosen| + k && t[k].chosen[..|s.chosen|] == s.chosen
      && forall i :: 0 <= i < k ==> t[k].chosen[|s.chosen| + i] == pushed(t[i], maskIdxs[i], i)
  {
    TraceChosenLength(s, maskIdxs, step, pushed, k);
    forall i | 0 <= i < k
      ensures var t := Trace(s, maskIdxs, step); t[k].chosen[|s.chosen| + i] == pushed(t[i], maskIdxs[i], i)
    {
      TraceChosenAt(s, maskIdxs, step, pushed, k, i);
    }
  }

  /** After `k` frames the rows are the earlier ones followed by one row per
      searched frame. */
  lemma {:induction false} TraceWrittenLength(s: Loop, done: seq<FrameData>, maskIdxs: seq<nat>,
                                              step: (Loop, nat, nat) -> Loop, row: (Loop, nat, nat) -> string, k: nat)
    requires k <= |maskIdxs| && WritesRows(step, done, row)
    ensures var t := Trace(s, maskIdxs, step);
      |t[k].written| == |s.written| + Searched(done, maskIdxs[..k]) && t[k].written[..|s.written|] == s.written
    decreases k
  {
    if k > 0 {
      TraceWrittenLength(s, done, maskIdxs, step, row, k - 1);
      TraceStep(s, maskIdxs, step, k - 1);
      var t := Trace(s, maskIdxs, step);
      var m := maskIdxs[k - 1];
      assert t[k].written == t[k - 1].written + if FindDone(done, m).None? then [row(t[k - 1], m, k - 1)] else [];
      assert maskIdxs[..k][..k - 1] == maskIdxs[..k - 1];
      assert t[k].written[..|s.written|] == t[k - 1].written[..|s.written|];
    } else {
      assert maskIdxs[..0] == [];
    }
  }

  /** The searched frame `i` wrote its row right after the rows of the
      searched frames before it, and the later frames keep it. */
  lemma {:induction false} TraceRowAt(s: Loop, done: seq<FrameData>, maskIdxs: seq<nat>,
                                      step: (Loop, nat, nat) -> Loop, row: (Loop, nat, nat) -> string, k: nat, i: nat)
    requires i < k <= |maskIdxs| && WritesRows(step, done, row) && FindDone(done, maskIdxs[i]).None?
    ensures var t := Trace(s, maskIdxs, step);
      |s.written| + Searched(done, maskIdxs[..i]) < |t[k].written|
      && t[k].written[|s.written| + Searched(done, maskIdxs[..i])] == row(t[i], maskIdxs[i], i)
    decreases k
  {
    TraceStep(s, maskIdxs, step, k - 1);
    var t := Trace(s, maskIdxs, step);
    var m := maskIdxs[k - 1];
    assert t[k].written == t[k - 1].written + if FindDone(done, m).None? then [row(t[k - 1], m, k - 1)] else [];
    var j := |s.written| + Searched(done, maskIdxs[..i]);
    if i < k - 1 {
      TraceRowAt(s, done, maskIdxs, step, row, k - 1, i);
      assert t[k].written[j] == t[k - 1].written[j];
    } else {
      TraceWrittenLength(s, done, maskIdxs, step, row, i);
      assert j == |t[i].written|;
    }
  }

  /** After `k` frames the rows are the earlier ones followed by one row per
      searched frame, in frame order: the searched frame `i` wrote its row
      right after the rows of the searched frames before it, and a
      replayed frame wrote none. */
  lemma TraceWritten(s: Loop, done: seq<FrameData>, maskIdxs: seq<nat>,
                     step: (Loop, nat, nat) -> Loop, row: (Loop, nat, nat) -> string, k: nat)
    requires k <= |maskIdxs| && WritesRows(step, done, row)
    ensures var t := Trace(s, maskIdxs, step);
      |t[k].written| == |s.written| + Searched(done, maskIdxs[..k]) && t[k].written[..|s.written|] == s.written
      && forall i :: 0 <= i < k && FindDone(done, maskIdxs[i]).None? ==>
           |s.written| + Searched(done, maskIdxs[..i]) < |t[k].written|
           && t[k].written[|s.written| + Searched(done, maskIdxs[..i])] == row(t[i], maskIdxs[i], i)
  {
    TraceWrittenLength(s, done, maskIdxs, step, row, k);
    forall i | 0 <= i < k && FindDone(done, maskIdxs[i]).None?
      ensures var t := Trace(s, maskIdxs, step);
        |s.written| + Searched(done, maskIdxs[..i]) < |t[k].written|
        && t[k].written[|s.written| + Searched(done, maskIdxs[..i])] == row(t[i], maskIdxs[i], i)
    {
      TraceRowAt(s, done, maskIdxs, step, row, k, i);
    }
  }

  /** The chosen tiles the loop over the frames `maskIdxs` leaves in state
      `r`, from state `s`: the earlier ones followed by one per frame, each
      the one its frame replays or finds from the state before it. */
  ghost predicate ChosenRan(s: Loop, r: Loop, done: seq<FrameData>, maskIdxs: seq<nat>,
                            search: (Loop, nat, nat) -> Outcome, fmt: RowFormat)
  {
    var t := Trace(s, maskIdxs, Frame(done, search, fmt));
    |r.chosen| == |s.chosen| + |maskIdxs| && r.chosen[..|s.chosen|] == s.chosen
    && forall k :: 0 <= k < |maskIdxs| ==>
         r.chosen[|s.chosen| + k] == Pushed(done, maskIdxs[k], search(t[k], maskIdxs[k], k))
  }

  /** The rows the loop over the frames `maskIdxs` leaves in state `r`, from
      state `s`: the earlier ones followed by one per searched frame, in
      frame order, and none for a replayed frame. */
  ghost predicate WrittenRan(s: Loop, r: Loop, done: seq<FrameData>, maskIdxs: seq<nat>,
                             search: (Loop, nat, nat) -> Outcome, fmt: RowFormat)
  {
    var t := Trace(s, maskIdxs, Frame(done, search, fmt));
    |r.written| == |s.written| + Searched(done, maskIdxs) && r.written[..|s.written|] == s.written
    && forall k :: 0 <= k < |maskIdxs| && FindDone(done, maskIdxs[k]).None? ==>
         |s.written| + Searched(done, maskIdxs[..k]) < |r.written|
         && r.written[|s.written| + Searched(done, maskIdxs[..k])] == SearchRow(search, t[k], maskIdxs[k], k, fmt)
  }

  /** The trace's last state holds the chosen tiles of the loop. */
  lemma TraceFramesChosen(s: Loop, done: seq<FrameData>, maskIdxs: seq<nat>, search: (Loop, nat, nat) -> Outcome,
                          fmt: RowFormat)
    ensures ChosenRan(s, Trace(s, maskIdxs, Frame(done, search, fmt))[|maskIdxs|], done, maskIdxs, search, fmt)
  {
    FramePushes(done, search, fmt);
    TraceChosen(s, maskIdxs, Frame(done, search, fmt), PushOf(done, search), |maskIdxs|);
  }

  /** The trace's last state holds the rows of the loop. */
  lemma TraceFramesWritten(s: Loop, done: seq<FrameData>, maskIdxs: seq<nat>, search: (Loop, nat, nat) -> Outcome,
                           fmt: RowFormat)
    ensures WrittenRan(s, Trace(s, maskIdxs, Frame(done, search, fmt))[|maskIdxs|], done, maskIdxs, search, fmt)
  {
    FrameWrites(done, search, fmt);
    TraceWritten(s, done, maskIdxs, Frame(done, search, fmt), RowOf(search, fmt), |maskIdxs|);
    assert maskIdxs[..|maskIdxs|] == maskIdxs;
  }

  /** The bookkeeping state of `gpu_all` across frames. */
  class FrameLoop {
    /** The records of the results file, sorted by frame. */
    const done: seq<FrameData>
    /** `forbidden_tile_ring`. */
    var ring: seq<TilePos>
    /** The outer `forbidden_tiles`, which only the replay branch updates. */
    var replayForbidden: set<TilePos>
    /** `prev_results`. */
    var prev: seq<Prev>
    /** The lines this run appends to the results file. */
    var written: seq<string>
    /** Every tile chosen or replayed so far, in frame order. */
    ghost var chosen: seq<TilePos>

    ghost predicate Valid()
      reads this
    {
      ring == LastN(chosen, RING_KEEP) && |prev| <= PREV_CAP + 1
    }

    /** The state as a value. */
    ghost function Snapshot(): Loop
      reads this
    {
      Loop(ring, replayForbidden, prev, written, chosen)
    }

    /** The state before the first frame, given the existing content of the
        results file and its records sorted by frame. */
    constructor (existing: string, done: seq<FrameData>)
      ensures Valid() && this.done == done
      ensures ring == [] && replayForbidden == {} && prev == [] && chosen == []
      ensures written == [FirstLine(existing)]
    {
      this.done := done;
      ring := [];
      replayForbidden := {};
      prev := [];
      written := [if existing == [] then HEADER else ""];
      chosen := [];
    }

    /** The ring's push and eviction. */
    method PushRing(t: TilePos) returns (evicted: Option<TilePos>)
      requires Valid()
      modifies this
      ensures Valid()
      ensures ring == Evicted(old(ring) + [t]) && chosen == old(chosen) + [t]
      ensures evicted == (if |old(ring)| + 1 >= RING_EVICT then Some(old(ring)[0]) else None)
      ensures replayForbidden == old(replayForbidden) && prev == old(prev) && written == old(written)
    {
      RingKeepsLastNine(chosen, t);
      chosen := chosen + [t];
      ring := ring + [t];
      evicted := None;
      if |ring| >= RING_EVICT {
        evicted := Some(ring[0]);
        ring := ring[1..];
      }
    }

    /** A frame already in the results file: no search and no row, only the
        ring push and eviction, mirrored in the outer forbidden set. */
    method Replay(f: FrameData)
      requires Valid()
      modifies this
      ensures Valid()
      ensures var t := TilePosOf(f.result);
        ring == Evicted(old(ring) + [t]) && chosen == old(chosen) + [t]
        && replayForbidden == (if |old(ring)| + 1 >= RING_EVICT
                               then (old(replayForbidden) + {t}) - {old(ring)[0]}
                               else old(replayForbidden) + {t})
      ensures prev == old(prev) && written == old(written)
    {
      var t := TilePosOf(f.result);
      var evicted := PushRing(t);
      replayForbidden := replayForbidden + {t};
      if evicted.Some? {
        replayForbidden := replayForbidden - {evicted.value};
      }
    }

    /** A frame to search: the forbidden set is built from the ring and the
        remembered frames, the history is capped, the search runs, its best
        tile enters the ring, a row is written and the frame is remembered. */
    method Search(maskIdx: nat, masks: nat -> seq<Pixel>, run: set<TilePos> -> Outcome, fmt: RowFormat)
      requires Valid()
      modifies this
      ensures Valid()
      ensures var o := run(Forbidden(old(ring), old(prev), masks(maskIdx), masks));
        ring == Evicted(old(ring) + [TilePosOf(o.best)]) && chosen == old(chosen) + [TilePosOf(o.best)]
        && prev == Capped(old(prev)) + [Prev(maskIdx, o.tileMaxScores, o.best)]
        && written == old(written) + [Row(maskIdx, o.best, o.elapsed, fmt)]
      ensures replayForbidden == old(replayForbidden)
    {
      var forbidden := BuildForbidden(ring, prev, masks(maskIdx), masks);
      CapHistory();
      var o := run(forbidden);
      Record(maskIdx, o, fmt);
    }

    /** The cap on `prev_results`: the oldest entry goes once there are more
        than 100. */
    method CapHistory()
      requires Valid()
      modifies this
      ensures Valid() && prev == Capped(old(prev)) && |prev| <= PREV_CAP
      ensures ring == old(ring) && chosen == old(chosen) && written == old(written)
      ensures replayForbidden == old(replayForbidden)
    {
      if |prev| > PREV_CAP {
        prev := prev[1..];
      }
    }

    /** After the search: the best tile enters the ring, its row is written
        and the frame is remembered. */
    method Record(maskIdx: nat, o: Outcome, fmt: RowFormat)
      requires Valid() && |prev| <= PREV_CAP
      modifies this
      ensures Valid()
      ensures ring == Evicted(old(ring) + [TilePosOf(o.best)]) && chosen == old(chosen) + [TilePosOf(o.best)]
      ensures prev == old(prev) + [Prev(maskIdx, o.tileMaxScores, o.best)]
      ensures written == old(written) + [Row(maskIdx, o.best, o.elapsed, fmt)]
      ensures replayForbidden == old(replayForbidden)
    {
      var _ := PushRing(TilePosOf(o.best));
      written := written + [Row(maskIdx, o.best, o.elapsed, fmt)];
      prev := prev + [Prev(maskIdx, o.tileMaxScores, o.best)];
    }

    /** One frame of the loop: replayed when the results file has it,
        searched otherwise. */
    method Step(maskIdx: nat, masks: nat -> seq<Pixel>, run: set<TilePos> -> Outcome, fmt: RowFormat)
      requires Valid()
      modifies this
      ensures Valid() && |chosen| == |old(chosen)| + 1
      ensures FindDone(done, maskIdx).Some? ==>
        chosen[|chosen| - 1] == TilePosOf(FindDone(done, maskIdx).value.result)
        && prev == old(prev) && written == old(written)
      ensures FindDone(done, maskIdx).None? ==> |written| == |old(written)| + 1
      ensures FindDone(done, maskIdx).Some? ==>
        var t := TilePosOf(FindDone(done, maskIdx).value.result);
        ring == Evicted(old(ring) + [t]) && chosen == old(chosen) + [t]
        && replayForbidden == (if |old(ring)| + 1 >= RING_EVICT
                               then (old(replayForbidden) + {t}) - {old(ring)[0]}
                               else old(replayForbidden) + {t})
      ensures FindDone(done, maskIdx).None? ==>
        var o := run(Forbidden(old(ring), old(prev), masks(maskIdx), masks));
        ring == Evicted(old(ring) + [TilePosOf(o.best)]) && chosen == old(chosen) + [TilePosOf(o.best)]
        && prev == Capped(old(prev)) + [Prev(maskIdx, o.tileMaxScores, o.best)]
        && written == old(written) + [Row(maskIdx, o.best, o.elapsed, fmt)]
        && replayForbidden == old(replayForbidden)
      ensures Snapshot() == StepOf(old(Snapshot()), done, maskIdx, run(Forbidden(old(ring), old(prev), masks(maskIdx), masks)), fmt)
    {
      var f := FindDone(done, maskIdx);
      if f.Some? {
        Replay(f.value);
      } else {
        Search(maskIdx, masks, run, fmt);
      }
    }

    /** The loop over the frames. After it the state is the last of the
        trace, frame `k` pushed the tile it replayed or found, and the rows
        written are one per searched frame, in frame order. */
    method Frames(maskIdxs: seq<nat>, masks: nat -> seq<Pixel>, runs: nat -> (set<TilePos> -> Outcome), fmt: RowFormat)
      requires Valid()
      modifies this
      ensures Valid() && |old(written)| <= |written| <= |old(written)| + |maskIdxs|
      ensures Snapshot() == Trace(old(Snapshot()), maskIdxs, Frame(done, Searches(masks, runs), fmt))[|maskIdxs|]
      ensures ChosenRan(old(Snapshot()), Snapshot(), done, maskIdxs, Searches(masks, runs), fmt)
      ensures WrittenRan(old(Snapshot()), Snapshot(), done, maskIdxs, Searches(masks, runs), fmt)
    {
      ghost var t := Trace(Snapshot(), maskIdxs, Frame(done, Searches(masks, runs), fmt));
      for k := 0 to |maskIdxs|
        invariant Valid() && |chosen| == |old(chosen)| + k
        invariant |old(written)| <= |written| <= |old(written)| + k
        invariant Snapshot() == t[k]
      {
        TraceStep(old(Snapshot()), maskIdxs, Frame(done, Searches(masks, runs), fmt), k);
        Step(maskIdxs[k], masks, runs(k), fmt);
      }
      TraceFramesChosen(old(Snapshot()), done, maskIdxs, Searches(masks, runs), fmt);
      TraceFramesWritten(old(Snapshot()), done, maskIdxs, Searches(masks, runs), fmt);
    }
  }

  /** After `n` frames from the start the ring holds the last `min(n, 9)`
      tiles. */
  lemma RingAfterFrames(chosen: seq<TilePos>)
    ensures |LastN(chosen, RING_KEEP)| == if |chosen| < RING_KEEP then |chosen| else RING_KEEP
    ensures forall i :: 0 <= i < |LastN(chosen, RING_KEEP)| ==>
      LastN(chosen, RING_KEEP)[i] == chosen[|chosen| - |LastN(chosen, RING_KEEP)| + i]
  {
  }
}
