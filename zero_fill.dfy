/** `is_zero` and `zero_fill` of src/tiles_grad.rs: the dark holes of a
    tile are filled, pass after pass, with the average of their bright
    neighbours, until none is left or a pass makes no progress. */
module ZeroFill {
  import opened Basics

  /** One 8-bit channel value. */
  type Channel = c: nat | c < 256

  datatype Rgb = Rgb(r: Channel, g: Channel, b: Channel)

  /** An image as rows of pixels, `img[y][x]`. */
  type Image = seq<seq<Rgb>>

  /** `img` is `w` pixels wide and `h` pixels high. */
  predicate Rect(img: Image, w: nat, h: nat)
  {
    |img| == h && forall y :: 0 <= y < h ==> |img[y]| == w
  }

  /** `is_zero`: a pixel counts as a hole when all three channels are below
      10. */
  predicate IsZero(p: Rgb)
  {
    p.r < 10 && p.g < 10 && p.b < 10
  }

  /** `NEIGHBORS`: the eight offsets, in the order the source visits them. */
  const NEIGHBORS: seq<(int, int)> := [(-1, 0), (0, 1), (0, -1), (1, 0), (1, 1), (-1, 1), (1, -1), (-1, -1)]

  /** The neighbour count `n` and the channel sums `sum`. */
  datatype Acc = Acc(n: nat, s0: nat, s1: nat, s2: nat)

  /** The count and sums over the first `k` offsets: in-bounds neighbours
      that are not holes. */
  function Gather(img: Image, w: nat, h: nat, x: nat, y: nat, k: nat): (a: Acc)
    requires Rect(img, w, h) && x < w && y < h && k <= |NEIGHBORS|
    ensures a.n <= k && a.s0 <= 255 * a.n && a.s1 <= 255 * a.n && a.s2 <= 255 * a.n
  {
    if k == 0 then Acc(0, 0, 0, 0)
    else
      var a := Gather(img, w, h, x, y, k - 1);
      var nx, ny := x + NEIGHBORS[k - 1].0, y + NEIGHBORS[k - 1].1;
      if nx < 0 || ny < 0 || nx >= w || ny >= h then a
      else
        var p := img[ny][nx];
        if IsZero(p) then a else Acc(a.n + 1, a.s0 + p.r, a.s1 + p.g, a.s2 + p.b)
  }

  /** A sum of `n` channel values divided by `n` is a channel value. */
  lemma DivBound(s: nat, n: nat)
    requires n > 0 && s <= 255 * n
    ensures s / n <= 255
  {
    assert (255 * n) / n == 255;
  }

  /** The per-channel truncating average. */
  function Average(a: Acc): (p: Rgb)
    requires a.n > 0 && a.s0 <= 255 * a.n && a.s1 <= 255 * a.n && a.s2 <= 255 * a.n
    ensures p.r == a.s0 / a.n && p.g == a.s1 / a.n && p.b == a.s2 / a.n
  {
    DivBound(a.s0, a.n);
    DivBound(a.s1, a.n);
    DivBound(a.s2, a.n);
    Rgb(a.s0 / a.n, a.s1 / a.n, a.s2 / a.n)
  }

  /** What one pass does with the pixel at `(x, y)`, judged on the image as
      it was when the pass began. */
  datatype Outcome =
    | Keep           // not a hole: left alone
    | Count          // a hole that stays a hole this pass: counted in `n_zeros`
    | Abort          // a hole surrounded by 8 bright neighbours that average to a hole
    | Fill(p: Rgb)   // a hole filled with its neighbours' average

  function Decide(img: Image, w: nat, h: nat, x: nat, y: nat): (o: Outcome)
    requires Rect(img, w, h) && x < w && y < h
    ensures o.Keep? <==> !IsZero(img[y][x])
    ensures o.Fill? ==> !IsZero(o.p)
  {
    if !IsZero(img[y][x]) then Keep
    else
      var a := Gather(img, w, h, x, y, |NEIGHBORS|);
      if a.n <= 1 then Count
      else
        var avg := Average(a);
        if IsZero(avg) then (if a.n == 8 then Abort else Count)
        else Fill(avg)
  }

  /** The pixel after the pass: the average where the pass fills, the old
      pixel elsewhere. */
  function NextPixel(img: Image, w: nat, h: nat, x: nat, y: nat): Rgb
    requires Rect(img, w, h) && x < w && y < h
  {
    match Decide(img, w, h, x, y)
    case Fill(p) => p
    case _ => img[y][x]
  }

  /** The image after one complete pass. */
  function Next(img: Image, w: nat, h: nat): (r: Image)
    requires Rect(img, w, h)
    ensures Rect(r, w, h)
    ensures forall y, x :: 0 <= y < h && 0 <= x < w ==> r[y][x] == NextPixel(img, w, h, x, y)
  {
    seq(h, y requires 0 <= y < h => seq(w, x requires 0 <= x < w => NextPixel(img, w, h, x, y)))
  }

  /** The pass gives up somewhere on this image. */
  predicate RowAborts(img: Image, w: nat, h: nat, y: nat, n: nat)
    requires Rect(img, w, h) && y < h && n <= w
  {
    exists x :: 0 <= x < n && Decide(img, w, h, x, y).Abort?
  }

  predicate Aborts(img: Image, w: nat, h: nat)
    requires Rect(img, w, h)
  {
    exists y :: 0 <= y < h && RowAborts(img, w, h, y, w)
  }

  /** The holes among the first `n` pixels of a row. */
  function ZerosInRow(row: seq<Rgb>, n: nat): (c: nat)
    requires n <= |row|
    ensures c <= n
  {
    if n == 0 then 0 else ZerosInRow(row, n - 1) + (if IsZero(row[n - 1]) then 1 else 0)
  }

  /** The holes in the first `k` rows. */
  function Zeros(img: Image, w: nat, h: nat, k: nat): (c: nat)
    requires Rect(img, w, h) && k <= h
    ensures c <= k * w
  {
    if k == 0 then 0 else Zeros(img, w, h, k - 1) + ZerosInRow(img[k - 1], w)
  }

  /** The pixels of a row's first `n` that the pass counts in `n_zeros`. */
  function CountedInRow(img: Image, w: nat, h: nat, y: nat, n: nat): nat
    requires Rect(img, w, h) && y < h && n <= w
  {
    if n == 0 then 0
    else CountedInRow(img, w, h, y, n - 1) + (if Decide(img, w, h, n - 1, y).Count? then 1 else 0)
  }

  /** `n_zeros` after the first `k` rows of a pass. */
  function Counted(img: Image, w: nat, h: nat, k: nat): nat
    requires Rect(img, w, h) && k <= h
  {
    if k == 0 then 0 else Counted(img, w, h, k - 1) + CountedInRow(img, w, h, k - 1, w)
  }

  /** A pass that does not give up counts exactly the holes it leaves. */
  lemma {:induction false} CountedRowIsZeros(img: Image, w: nat, h: nat, y: nat, n: nat)
    requires Rect(img, w, h) && y < h && n <= w
    requires !RowAborts(img, w, h, y, n)
    ensures CountedInRow(img, w, h, y, n) == ZerosInRow(Next(img, w, h)[y], n)
  {
    if n > 0 {
      assert !RowAborts(img, w, h, y, n - 1);
      CountedRowIsZeros(img, w, h, y, n - 1);
      assert !Decide(img, w, h, n - 1, y).Abort?;
    }
  }

  lemma {:induction false} CountedIsZeros(img: Image, w: nat, h: nat, k: nat)
    requires Rect(img, w, h) && k <= h && !Aborts(img, w, h)
    ensures Counted(img, w, h, k) == Zeros(Next(img, w, h), w, h, k)
  {
    if k > 0 {
      var nx := Next(img, w, h);
      CountedIsZeros(img, w, h, k - 1);
      assert !RowAborts(img, w, h, k - 1, w);
      CountedRowIsZeros(img, w, h, k - 1, w);
      assert Counted(img, w, h, k) == Counted(img, w, h, k - 1) + CountedInRow(img, w, h, k - 1, w);
      assert Zeros(nx, w, h, k) == Zeros(nx, w, h, k - 1) + ZerosInRow(nx[k - 1], w);
    }
  }

  /** A pass only counts holes, so `n_zeros` never exceeds the holes it
      started from. */
  lemma {:induction false} CountedRowLe(img: Image, w: nat, h: nat, y: nat, n: nat)
    requires Rect(img, w, h) && y < h && n <= w
    ensures CountedInRow(img, w, h, y, n) <= ZerosInRow(img[y], n)
  {
    if n > 0 {
      CountedRowLe(img, w, h, y, n - 1);
    }
  }

  lemma {:induction false} CountedLe(img: Image, w: nat, h: nat, k: nat)
    requires Rect(img, w, h) && k <= h
    ensures Counted(img, w, h, k) <= Zeros(img, w, h, k)
  {
    if k > 0 {
      CountedLe(img, w, h, k - 1);
      CountedRowLe(img, w, h, k - 1, w);
    }
  }

  /** No hole is left exactly when the hole count is zero. */
  lemma {:induction false} ZerosInRowNone(row: seq<Rgb>, n: nat)
    requires n <= |row|
    ensures ZerosInRow(row, n) == 0 <==> forall x :: 0 <= x < n ==> !IsZero(row[x])
  {
    if n > 0 {
      ZerosInRowNone(row, n - 1);
    }
  }

  lemma {:induction false} ZerosNone(img: Image, w: nat, h: nat, k: nat)
    requires Rect(img, w, h) && k <= h
    ensures Zeros(img, w, h, k) == 0 <==> forall y, x :: 0 <= y < k && 0 <= x < w ==> !IsZero(img[y][x])
  {
    if k > 0 {
      ZerosNone(img, w, h, k - 1);
      ZerosInRowNone(img[k - 1], w);
    }
  }

  /** The `while n_zeros > 0` loop from an image with `last_n_zeros = last`:
      `None` where `zero_fill` returns `None`. Each pass leaves strictly
      fewer holes, or the loop gives up, so it terminates. */
  function Loop(img: Image, w: nat, h: nat, last: int): Option<Image>
    requires Rect(img, w, h) && (last < 0 || last == Zeros(img, w, h, h))
    decreases if last < 0 then h * w + 1 else last
  {
    if Aborts(img, w, h) then None
    else
      var next := Next(img, w, h);
      var n := Counted(img, w, h, h);
      CountedIsZeros(img, w, h, h);
      CountedLe(img, w, h, h);
      if n == last then None
      else if n == 0 then Some(next)
      else Loop(next, w, h, n)
  }

  /** `zero_fill(image)`. On `Some(out)`: `out` has the input's size, no
      hole is left, and every pixel that was not a hole is unchanged. */
  function ZeroFillSpec(img: Image, w: nat, h: nat): (r: Option<Image>)
    requires Rect(img, w, h)
    ensures r.Some? ==> Rect(r.value, w, h)
    ensures r.Some? ==> forall y, x :: 0 <= y < h && 0 <= x < w ==> !IsZero(r.value[y][x])
    ensures r.Some? ==> forall y, x :: 0 <= y < h && 0 <= x < w && !IsZero(img[y][x]) ==> r.value[y][x] == img[y][x]
  {
    var r := Loop(img, w, h, -1);
    if r.Some? then LoopResult(img, w, h, -1); r else r
  }

  /** A pass never changes a pixel that is not a hole. */
  lemma NextKeeps(img: Image, w: nat, h: nat, x: nat, y: nat)
    requires Rect(img, w, h) && x < w && y < h && !IsZero(img[y][x])
    ensures Next(img, w, h)[y][x] == img[y][x]
  {
  }

  /** What every run of the loop that ends in `Some` delivers. */
  lemma {:induction false} LoopResult(img: Image, w: nat, h: nat, last: int)
    requires Rect(img, w, h) && (last < 0 || last == Zeros(img, w, h, h))
    requires Loop(img, w, h, last).Some?
    ensures Rect(Loop(img, w, h, last).value, w, h)
    ensures forall y, x :: 0 <= y < h && 0 <= x < w ==> !IsZero(Loop(img, w, h, last).value[y][x])
    ensures forall y, x :: 0 <= y < h && 0 <= x < w && !IsZero(img[y][x]) ==>
      Loop(img, w, h, last).value[y][x] == img[y][x]
    decreases if last < 0 then h * w + 1 else last
  {
    var next := Next(img, w, h);
    var n := Counted(img, w, h, h);
    CountedIsZeros(img, w, h, h);
    CountedLe(img, w, h, h);
    if n == 0 {
      ZerosNone(next, w, h, h);
    } else {
      LoopResult(next, w, h, n);
      forall y, x | 0 <= y < h && 0 <= x < w && !IsZero(img[y][x])
        ensures Loop(img, w, h, last).value[y][x] == img[y][x]
      {
        NextKeeps(img, w, h, x, y);
      }
    }
  }

  /** An image without holes comes back unchanged after one pass, so
      `zero_fill` is idempotent on what it returns. */
  lemma NoHoles(img: Image, w: nat, h: nat)
    requires Rect(img, w, h) && forall y, x :: 0 <= y < h && 0 <= x < w ==> !IsZero(img[y][x])
    ensures ZeroFillSpec(img, w, h) == Some(img)
  {
    var next := Next(img, w, h);
    assert !Aborts(img, w, h);
    forall y | 0 <= y < h
      ensures next[y] == img[y]
    {
    }
    assert next == img;
    ZerosNone(img, w, h, h);
    CountedLe(img, w, h, h);
  }

  lemma Idempotent(img: Image, w: nat, h: nat)
    requires Rect(img, w, h) && ZeroFillSpec(img, w, h).Some?
    ensures ZeroFillSpec(ZeroFillSpec(img, w, h).value, w, h) == ZeroFillSpec(img, w, h)
  {
    NoHoles(ZeroFillSpec(img, w, h).value, w, h);
  }

  // ---------------------------------------------------------------------
  // The imperative loops

  /** The contents of the `new_image` buffer. */
  function Snapshot(a: array2<Rgb>): (img: Image)
    reads a
    ensures Rect(img, a.Length1, a.Length0)
    ensures forall y, x :: 0 <= y < a.Length0 && 0 <= x < a.Length1 ==> img[y][x] == a[y, x]
  {
    seq(a.Length0, y requires 0 <= y < a.Length0 reads a =>
      seq(a.Length1, x requires 0 <= x < a.Length1 reads a => a[y, x]))
  }

  /** The inner loop over `NEIGHBORS`. */
  method Neighbours(img: Image, w: nat, h: nat, x: nat, y: nat) returns (a: Acc)
    requires Rect(img, w, h) && x < w && y < h
    ensures a == Gather(img, w, h, x, y, |NEIGHBORS|)
  {
    a := Acc(0, 0, 0, 0);
    for k := 0 to |NEIGHBORS|
      invariant a == Gather(img, w, h, x, y, k)
    {
      var nx, ny := x + NEIGHBORS[k].0, y + NEIGHBORS[k].1;
      if nx < 0 || ny < 0 || nx >= w || ny >= h {
        assert Gather(img, w, h, x, y, k + 1) == a;
        continue;
      }
      var p := img[ny][nx];
      if IsZero(p) {
        assert Gather(img, w, h, x, y, k + 1) == a;
        continue;
      }
      a := Acc(a.n + 1, a.s0 + p.r, a.s1 + p.g, a.s2 + p.b);
      assert Gather(img, w, h, x, y, k + 1) == a;
    }
  }

  /** One row of a pass: holes are judged on `img` and filled in `buf`. */
  method PassRow(img: Image, w: nat, h: nat, y: nat, buf: array2<Rgb>) returns (count: nat, abort: bool)
    requires Rect(img, w, h) && y < h && buf.Length0 == h && buf.Length1 == w
    requires forall x :: 0 <= x < w ==> buf[y, x] == img[y][x]
    modifies buf
    ensures abort ==> RowAborts(img, w, h, y, w)
    ensures !abort ==> !RowAborts(img, w, h, y, w) && count == CountedInRow(img, w, h, y, w)
    ensures !abort ==> forall x :: 0 <= x < w ==> buf[y, x] == NextPixel(img, w, h, x, y)
    ensures forall y', x :: 0 <= y' < h && y' != y && 0 <= x < w ==> buf[y', x] == old(buf[y', x])
  {
    count := 0;
    for x := 0 to w
      invariant !RowAborts(img, w, h, y, x) && count == CountedInRow(img, w, h, y, x)
      invariant forall x' :: 0 <= x' < x ==> buf[y, x'] == NextPixel(img, w, h, x', y)
      invariant forall x' :: x <= x' < w ==> buf[y, x'] == img[y][x']
      invariant forall y', x' :: 0 <= y' < h && y' != y && 0 <= x' < w ==> buf[y', x'] == old(buf[y', x'])
    {
      var pixel := img[y][x];
      if !IsZero(pixel) {
        continue;
      }
      var a := Neighbours(img, w, h, x, y);
      if a.n <= 1 {
        count := count + 1;
        continue;
      }
      var avg := Average(a);
      if IsZero(avg) {
        if a.n == 8 {
          assert Decide(img, w, h, x, y).Abort?;
          return 0, true;
        }
        count := count + 1;
        continue;
      }
      buf[y, x] := avg;
    }
    abort := false;
  }

  /** One pass over the whole image. */
  method Pass(img: Image, w: nat, h: nat, buf: array2<Rgb>) returns (count: nat, abort: bool)
    requires Rect(img, w, h) && buf.Length0 == h && buf.Length1 == w && Snapshot(buf) == img
    modifies buf
    ensures abort ==> Aborts(img, w, h)
    ensures !abort ==> !Aborts(img, w, h) && count == Counted(img, w, h, h) && Snapshot(buf) == Next(img, w, h)
  {
    count := 0;
    for y := 0 to h
      invariant count == Counted(img, w, h, y)
      invariant forall y' :: 0 <= y' < y ==> !RowAborts(img, w, h, y', w)
      invariant forall y', x :: 0 <= y' < y && 0 <= x < w ==> buf[y', x] == NextPixel(img, w, h, x, y')
      invariant forall y', x :: y <= y' < h && 0 <= x < w ==> buf[y', x] == img[y'][x]
    {
      var c, ab := PassRow(img, w, h, y, buf);
      if ab {
        return 0, true;
      }
      count := count + c;
    }
    abort := false;
    var next := Next(img, w, h);
    forall y | 0 <= y < h
      ensures Snapshot(buf)[y] == next[y]
    {
    }
  }

  /** `zero_fill`: passes over a double buffer until no hole is left. */
  method ZeroFill(input: Image, w: nat, h: nat) returns (r: Option<Image>)
    requires Rect(input, w, h)
    ensures r == ZeroFillSpec(input, w, h)
  {
    var image := input;
    var buf := new Rgb[h, w]((y, x) requires 0 <= y < h && 0 <= x < w => input[y][x]);
    assert Snapshot(buf) == image by {
      forall y | 0 <= y < h
        ensures Snapshot(buf)[y] == image[y]
      {
      }
    }
    var nZeros: int := 1;
    var last: int := -1;
    while nZeros > 0
      invariant Rect(image, w, h) && buf.Length0 == h && buf.Length1 == w && Snapshot(buf) == image
      invariant last < 0 || last == Zeros(image, w, h, h)
      invariant nZeros > 0 ==> ZeroFillSpec(input, w, h) == Loop(image, w, h, last)
      invariant nZeros <= 0 ==> ZeroFillSpec(input, w, h) == Some(image)
      decreases if nZeros <= 0 then 0 else if last < 0 then h * w + 2 else last + 1
    {
      var n, abort := Pass(image, w, h, buf);
      if abort {
        return None;
      }
      CountedIsZeros(image, w, h, h);
      CountedLe(image, w, h, h);
      image := Snapshot(buf);
      if n == last {
        return None;
      }
      last := n;
      nZeros := n;
    }
    return Some(image);
  }
}
