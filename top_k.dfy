/** The per-mask shortlist of the best positions found in one search
    (`PosResult` and `PosResults` of src/gpu/algorithm.rs). */
module TopK {
  import opened Basics

  /** One candidate match: the tile, the offset inside it, its score and zoom. */
  datatype PosResult = PosResult(tileX: nat, tileY: nat, tileZ: nat, x: nat, y: nat, score: Score, zoom: real)

  /** `PosResult::default()`: an out-of-range tile, offset (0, 0), score minus
      infinity and zoom 1, so that every real match ranks above it. */
  function Sentinel(): (p: PosResult)
    ensures p.tileX == U32_MAX && p.tileY == U32_MAX && p.tileZ == U32_MAX
    ensures p.x == 0 && p.y == 0 && p.score == NegInf && p.zoom == 1.0
    ensures forall q: PosResult :: Le(p.score, q.score)
  {
    PosResult(U32_MAX, U32_MAX, U32_MAX, 0, 0, NegInf, 1.0)
  }

  /** `PosResult::tile_pos`. */
  function TilePosOf(p: PosResult): (t: TilePos)
    ensures t.0 == p.tileX && t.1 == p.tileY && t.2 == p.tileZ
  {
    (p.tileX, p.tileY, p.tileZ)
  }

  /** A shortlist of `k` sentinels, what `new(k)` and `clear()` produce. */
  function Sentinels(k: nat): (s: seq<PosResult>)
    ensures |s| == k && forall i :: 0 <= i < k ==> s[i] == Sentinel()
  {
    seq(k, _ => Sentinel())
  }

  /** Non-increasing by score. */
  ghost predicate Sorted(s: seq<PosResult>)
  {
    forall i, j :: 0 <= i < j < |s| ==> Le(s[j].score, s[i].score)
  }

  /** The bubble-up loop of `insert`: `pos` sits just after `prefix` and moves
      towards the front while its score is strictly greater than the one
      before it. */
  function BubbleUp(prefix: seq<PosResult>, pos: PosResult): seq<PosResult>
  {
    if prefix == [] then [pos]
    else if Lt(prefix[|prefix| - 1].score, pos.score) then
      BubbleUp(prefix[..|prefix| - 1], pos) + [prefix[|prefix| - 1]]
    else prefix + [pos]
  }

  /** What `insert(pos)` leaves in a shortlist `s` of length `k >= 1`: a score
      strictly below the last entry's changes nothing; otherwise the last
      entry is overwritten by `pos`, which then bubbles up. */
  function Inserted(s: seq<PosResult>, pos: PosResult): seq<PosResult>
    requires |s| >= 1
  {
    if Lt(pos.score, s[|s| - 1].score) then s
    else BubbleUp(s[..|s| - 1], pos)
  }

  /** Where `BubbleUp` leaves `pos`: after the last entry of `prefix` that
      it does not strictly beat. */
  function BubbleIndex(prefix: seq<PosResult>, pos: PosResult): (j: nat)
    ensures j <= |prefix|
  {
    if prefix == [] then 0
    else if Lt(prefix[|prefix| - 1].score, pos.score) then BubbleIndex(prefix[..|prefix| - 1], pos)
    else |prefix|
  }

  lemma {:induction false} BubbleUpShape(prefix: seq<PosResult>, pos: PosResult)
    ensures BubbleUp(prefix, pos) == prefix[..BubbleIndex(prefix, pos)] + [pos] + prefix[BubbleIndex(prefix, pos)..]
    ensures forall m :: BubbleIndex(prefix, pos) <= m < |prefix| ==> Lt(prefix[m].score, pos.score)
    ensures BubbleIndex(prefix, pos) > 0 ==> Le(pos.score, prefix[BubbleIndex(prefix, pos) - 1].score)
  {
    if prefix != [] {
      var n := |prefix| - 1;
      if Lt(prefix[n].score, pos.score) {
        var q := prefix[..n];
        BubbleUpShape(q, pos);
        var j := BubbleIndex(q, pos);
        assert q[..j] == prefix[..j];
        assert q[j..] + [prefix[n]] == prefix[j..];
      }
    }
  }

  /** One swap of the bubble-up loop, on the sequence and on its specification. */
  lemma SwapStep(prefix: seq<PosResult>, pos: PosResult, i: nat)
    requires 0 < i <= |prefix| && Lt(prefix[i - 1].score, pos.score)
    ensures (prefix[..i] + [pos] + prefix[i..])[i - 1 := pos][i := prefix[i - 1]] == prefix[..i - 1] + [pos] + prefix[i - 1..]
    ensures BubbleUp(prefix[..i], pos) + prefix[i..] == BubbleUp(prefix[..i - 1], pos) + prefix[i - 1..]
  {
    assert prefix[..i][..i - 1] == prefix[..i - 1];
    assert [prefix[i - 1]] + prefix[i..] == prefix[i - 1..];
  }

  /** Where the bubble-up loop stops, the rest of the specification is the
      sequence as it stands. */
  lemma BubbleStop(prefix: seq<PosResult>, pos: PosResult, i: nat)
    requires i <= |prefix| && (i == 0 || !Lt(prefix[i - 1].score, pos.score))
    ensures BubbleUp(prefix[..i], pos) + prefix[i..] == prefix[..i] + [pos] + prefix[i..]
  {
  }

  /** An accepted `pos` lands after every entry whose score is at least its
      own (in particular after the entries with an equal score) and before
      the entries it strictly beats; the old last entry is dropped and
      nothing else changes. A rejected `pos` leaves the list as it was. */
  lemma {:induction false} InsertPlacement(s: seq<PosResult>, pos: PosResult)
    requires |s| >= 1 && Sorted(s)
    ensures Lt(pos.score, s[|s| - 1].score) ==> Inserted(s, pos) == s
    ensures !Lt(pos.score, s[|s| - 1].score) ==>
      exists j :: (0 <= j < |s| && Inserted(s, pos) == s[..j] + [pos] + s[j..|s| - 1]
        && (forall m :: 0 <= m < j ==> Le(pos.score, s[m].score))
        && (forall m :: j <= m < |s| - 1 ==> Lt(s[m].score, pos.score)))
  {
    if !Lt(pos.score, s[|s| - 1].score) {
      var p := s[..|s| - 1];
      BubbleUpShape(p, pos);
      var j := BubbleIndex(p, pos);
      assert p[..j] == s[..j] && p[j..] == s[j..|s| - 1];
      forall m | 0 <= m < j
        ensures Le(pos.score, s[m].score)
      {
        assert Le(s[j - 1].score, s[m].score);
      }
      assert Inserted(s, pos) == s[..j] + [pos] + s[j..|s| - 1];
    }
  }

  /** `insert` keeps the shortlist at exactly its capacity. */
  lemma {:induction false} InsertLength(s: seq<PosResult>, pos: PosResult)
    requires |s| >= 1
    ensures |Inserted(s, pos)| == |s|
  {
    BubbleUpShape(s[..|s| - 1], pos);
  }

  /** `insert` keeps a sorted shortlist sorted. */
  lemma {:induction false} InsertSorted(s: seq<PosResult>, pos: PosResult)
    requires |s| >= 1 && Sorted(s)
    ensures Sorted(Inserted(s, pos))
  {
    if !Lt(pos.score, s[|s| - 1].score) {
      var p := s[..|s| - 1];
      BubbleUpShape(p, pos);
      var j := BubbleIndex(p, pos);
      var r := Inserted(s, pos);
      assert r == p[..j] + [pos] + p[j..];
      forall a, b | 0 <= a < b < |r|
        ensures Le(r[b].score, r[a].score)
      {
        if b < j {
          assert r[a] == s[a] && r[b] == s[b];
        } else if b == j {
          assert r[a] == s[a] && r[b] == pos;
          assert Le(s[j - 1].score, s[a].score);
        } else if a < j {
          assert r[a] == s[a] && r[b] == s[b - 1];
        } else if a == j {
          assert r[a] == pos && r[b] == p[b - 1];
        } else {
          assert r[a] == s[a - 1] && r[b] == s[b - 1];
        }
      }
    }
  }

  /** As a multiset, an accepted insert removes the old last entry and adds
      `pos`; a rejected one changes nothing. */
  lemma {:induction false} InsertMultiset(s: seq<PosResult>, pos: PosResult)
    requires |s| >= 1
    ensures multiset(Inserted(s, pos)) ==
      if Lt(pos.score, s[|s| - 1].score) then multiset(s)
      else multiset(s) - multiset{s[|s| - 1]} + multiset{pos}
  {
    if !Lt(pos.score, s[|s| - 1].score) {
      var p, last := s[..|s| - 1], s[|s| - 1];
      BubbleUpMultiset(p, pos);
      assert s == p + [last];
      assert multiset(s) - multiset{last} == multiset(p);
    }
  }

  /** Bubbling `pos` up only reorders: it adds `pos` to the multiset. */
  lemma {:induction false} BubbleUpMultiset(prefix: seq<PosResult>, pos: PosResult)
    ensures multiset(BubbleUp(prefix, pos)) == multiset(prefix) + multiset{pos}
  {
    if prefix != [] && Lt(prefix[|prefix| - 1].score, pos.score) {
      var q := prefix[..|prefix| - 1];
      BubbleUpMultiset(q, pos);
      assert prefix == q + [prefix[|prefix| - 1]];
    }
  }

  /** The shortlist after `insert` has been called with each of `bests` in
      turn, first to last. */
  function InsertAll(s: seq<PosResult>, bests: seq<PosResult>): (r: seq<PosResult>)
    requires |s| >= 1
    ensures |r| == |s|
  {
    if bests == [] then s
    else
      var r0 := InsertAll(s, bests[..|bests| - 1]);
      InsertLength(r0, bests[|bests| - 1]);
      Inserted(r0, bests[|bests| - 1])
  }

  /** An insert never lowers the last score of a sorted shortlist, and a
      rejected position leaves it as it was. */
  lemma InsertedLast(s: seq<PosResult>, pos: PosResult)
    requires |s| >= 1 && Sorted(s)
    ensures |Inserted(s, pos)| == |s|
    ensures Le(s[|s| - 1].score, Inserted(s, pos)[|s| - 1].score)
  {
    InsertLength(s, pos);
    InsertPlacement(s, pos);
    if !Lt(pos.score, s[|s| - 1].score) {
      var j :| 0 <= j < |s| && Inserted(s, pos) == s[..j] + [pos] + s[j..|s| - 1];
      if j < |s| - 1 {
        assert Inserted(s, pos)[|s| - 1] == s[|s| - 2];
      }
    }
  }

  /** Inserting a run of harvests keeps the shortlist sorted, keeps only
      entries that were there or were inserted, and drops nothing that
      scores above the entries it keeps: every position that was offered
      and is not in the result scores at most its last entry. */
  lemma {:induction false} InsertAllKeepsBest(s: seq<PosResult>, bests: seq<PosResult>)
    requires |s| >= 1 && Sorted(s)
    ensures Sorted(InsertAll(s, bests))
    ensures multiset(InsertAll(s, bests)) <= multiset(s) + multiset(bests)
    ensures forall p :: p in multiset(s) + multiset(bests) - multiset(InsertAll(s, bests)) ==>
      Le(p.score, InsertAll(s, bests)[|s| - 1].score)
  {
    if bests != [] {
      var front, pos := bests[..|bests| - 1], bests[|bests| - 1];
      InsertAllKeepsBest(s, front);
      var r0 := InsertAll(s, front);
      var offered := multiset(s) + multiset(front);
      assert bests == front + [pos];
      KeepsBestStep(offered, r0, pos, InsertAll(s, bests), multiset(s) + multiset(bests));
    }
  }

  /** One insert of `InsertAllKeepsBest`: `offered` holds everything
      offered before `pos`, and what the shortlist dropped scores at most
      its last entry. */
  lemma KeepsBestStep(offered: multiset<PosResult>, r0: seq<PosResult>, pos: PosResult,
                      r: seq<PosResult>, offered': multiset<PosResult>)
    requires |r0| >= 1 && Sorted(r0) && multiset(r0) <= offered
    requires forall p :: p in offered - multiset(r0) ==> Le(p.score, r0[|r0| - 1].score)
    requires r == Inserted(r0, pos) && offered' == offered + multiset{pos}
    ensures |r| == |r0| && Sorted(r) && multiset(r) <= offered'
    ensures forall p :: p in offered' - multiset(r) ==> Le(p.score, r[|r0| - 1].score)
  {
    var n := |r0| - 1;
    InsertSorted(r0, pos);
    InsertMultiset(r0, pos);
    InsertedLast(r0, pos);
    var last := r0[n];
    assert last in multiset(r0);
    forall p | p in offered' - multiset(r)
      ensures Le(p.score, r[n].score)
    {
      if Lt(pos.score, last.score) {
        if p != pos {
          assert offered[p] > multiset(r0)[p];
          assert p in offered - multiset(r0);
        }
      } else if p != last {
        assert offered[p] + (if p == pos then 1 else 0) > multiset(r0)[p] + (if p == pos then 1 else 0);
        assert p in offered - multiset(r0);
      }
    }
  }

  /** The shortlist object: a fixed capacity `topK` and a buffer of exactly
      `topK` entries. */
  class PosResults {
    const topK: nat
    var topResults: array<PosResult>

    ghost predicate Valid()
      reads this
    {
      topResults.Length == topK
    }

    /** `PosResults::new(top_k)`: `top_k` sentinels. */
    constructor (k: nat)
      ensures Valid() && topK == k && fresh(topResults)
      ensures topResults[..] == Sentinels(k)
    {
      topK := k;
      topResults := new PosResult[k](_ => Sentinel());
    }

    /** `results()`. */
    function Results(): seq<PosResult>
      reads this, topResults
    {
      topResults[..]
    }

    /** `clear()`: every slot back to the sentinel. */
    method Clear()
      requires Valid()
      modifies topResults
      ensures Valid() && topResults[..] == Sentinels(topK)
    {
      var i := 0;
      while i < topK
        invariant 0 <= i <= topK
        invariant forall m :: 0 <= m < i ==> topResults[m] == Sentinel()
      {
        topResults[i] := Sentinel();
        i := i + 1;
      }
    }

    /** `insert(pos)`: overwrite the last slot, then swap it forward while its
      score is strictly greater than its predecessor's. `top_k - 1` underflows
      for an empty shortlist, so a capacity of at least one is required. */
    method Insert(pos: PosResult)
      requires Valid() && topK >= 1
      modifies topResults
      ensures Valid() && topResults[..] == Inserted(old(topResults[..]), pos)
    {
      ghost var s := topResults[..];
      ghost var prefix := s[..topK - 1];
      var i := topK - 1;
      if Lt(pos.score, topResults[i].score) {
        return;
      }
      topResults[i] := pos;
      assert prefix[..i] == prefix && prefix[i..] == [];
      assert topResults[..] == prefix[..i] + [pos] + prefix[i..];
      while i > 0 && Lt(topResults[i - 1].score, topResults[i].score)
        invariant 0 <= i < topK
        invariant topResults[..] == prefix[..i] + [pos] + prefix[i..]
        invariant BubbleUp(prefix, pos) == BubbleUp(prefix[..i], pos) + prefix[i..]
      {
        ghost var before := topResults[..];
        assert before[i] == pos && before[i - 1] == prefix[i - 1];
        SwapStep(prefix, pos, i);
        topResults[i - 1], topResults[i] := topResults[i], topResults[i - 1];
        assert topResults[..] == before[i - 1 := pos][i := prefix[i - 1]];
        i := i - 1;
      }
      assert i > 0 ==> topResults[i] == pos && topResults[i - 1] == prefix[i - 1];
      BubbleStop(prefix, pos, i);
    }
  }
}
