/** A model of the task-parallel FPGA kernel `krnl_heavy_compute_parallel`.

    The kernel maps a scalar compute engine over two input vectors: an outer
    loop walks the data in chunks of `N_PIPELINES` elements, an inner loop
    forms the lane index `i + k` of each element of the chunk, and a guard
    `index < size` protects every load and store so that a last, partial chunk
    touches nothing beyond `size`.

    The model has three layers:
    - index schedules: the order in which the loop nest (`TiledFrom`,
      `ChunkLanes`) and a plain sequential loop (`Range`) visit indices;
    - the effect of a schedule on the output buffer (`ApplyWrites`, and
      `ApplyWritesInPlace` for an output that is also the first input);
    - the kernel itself as a method over arrays, proved to perform exactly
      the writes of the tiled schedule, in order.
    The scalar engine `compute_scalar` is a parameter of type `ScalarFn`. */
module HeavyCompute {

  /** The C type `int32_t`, also used for the kernel's 32-bit `int` counters. */
  newtype int32 = x: int | -0x8000_0000 <= x < 0x8000_0000

  /** The number of parallel compute engines, i.e. the chunk width. */
  const N_PIPELINES: int32 := 8

  /** `compute_scalar`: a pure, deterministic map from two int32 values to one. */
  type ScalarFn = (int32, int32) -> int32

  function Min(x: int, y: int): int { if x <= y then x else y }

  // ---------------------------------------------------------------------------
  // Index schedules
  // ---------------------------------------------------------------------------

  /** The indices `lo, lo + 1, ..., hi - 1`: what `for (j = lo; j < hi; j++)` visits. */
  function Range(lo: int, hi: int): (r: seq<int>)
    ensures |r| == if lo < hi then hi - lo else 0
    ensures forall p :: 0 <= p < |r| ==> r[p] == lo + p
    decreases hi - lo
  {
    if lo >= hi then [] else [lo] + Range(lo + 1, hi)
  }

  /** The indices the unrolled inner loop stores to, for the chunk starting at
      `i`, from lane `k` on: lane `k` forms `i + k` and stores only when the
      guard `i + k < size` holds. */
  function ChunkLanes(i: int, k: int, width: int, size: int): (r: seq<int>)
    requires 0 <= k <= width
    ensures |r| <= width - k
    ensures forall p :: 0 <= p < |r| ==> i + k <= r[p] < i + width && r[p] < size
    decreases width - k
  {
    if k == width then []
    else (if i + k < size then [i + k] else []) + ChunkLanes(i, k + 1, width, size)
  }

  /** The indices the outer loop stores to from position `i` on, in order:
      while `i < size`, one chunk, then the rest from `i + width`. */
  function TiledFrom(i: int, width: int, size: int): (r: seq<int>)
    requires width > 0
    ensures forall p :: 0 <= p < |r| ==> i <= r[p] < size
    decreases size - i
  {
    if i >= size then [] else ChunkLanes(i, 0, width, size) + TiledFrom(i + width, width, size)
  }

  /** The whole store schedule of the loop nest, which starts at `i = 0`. */
  function TiledSchedule(size: int, width: int): (r: seq<int>)
    requires width > 0
    ensures forall p :: 0 <= p < |r| ==> 0 <= r[p] < size
  {
    TiledFrom(0, width, size)
  }

  lemma {:induction false} RangeSplit(lo: int, mid: int, hi: int)
    requires lo <= mid <= hi
    ensures Range(lo, mid) + Range(mid, hi) == Range(lo, hi)
  {
    var r := Range(lo, mid) + Range(mid, hi);
    forall p | 0 <= p < |r| ensures r[p] == Range(lo, hi)[p] {
      if p >= |Range(lo, mid)| {
        assert r[p] == Range(mid, hi)[p - (mid - lo)];
      }
    }
  }

  lemma AppendAssoc(x: seq<int>, y: seq<int>, z: seq<int>)
    ensures (x + y) + z == x + (y + z)
  {
  }

  /** The lanes of one chunk, from lane `k` on, are the consecutive indices
      from `i + k` up to the chunk end or `size`, whichever comes first. */
  lemma {:induction false} ChunkLanesAreRange(i: int, k: int, width: int, size: int)
    requires 0 <= k <= width
    ensures ChunkLanes(i, k, width, size) == Range(i + k, Min(i + width, size))
    decreases width - k
  {
    if k < width {
      ChunkLanesAreRange(i, k + 1, width, size);
      if i + k < size {
        assert Range(i + k, Min(i + width, size))
            == [i + k] + Range(i + k + 1, Min(i + width, size));
      }
    }
  }

  /** From any position `i`, the outer loop stores to exactly the indices a
      sequential loop from `i` to `size` would, in the same order. */
  lemma {:induction false} TiledFromIsRange(i: int, width: int, size: int)
    requires width > 0
    ensures TiledFrom(i, width, size) == Range(i, size)
    decreases size - i
  {
    if i < size {
      var m := Min(i + width, size);
      ChunkLanesAreRange(i, 0, width, size);
      TiledFromIsRange(i + width, width, size);
      assert Range(i + width, size) == Range(m, size);
      RangeSplit(i, m, size);
    }
  }

  /** The tiled loop nest is a plain `for (j = 0; j < size; j++)` loop: its
      store schedule is `0, 1, ..., size - 1`, for every chunk width, and it
      is empty when `size <= 0`. */
  lemma {:induction false} TiledIsSequential(size: int, width: int)
    requires width > 0
    ensures TiledSchedule(size, width) == Range(0, size)
    ensures size <= 0 ==> TiledSchedule(size, width) == []
  {
    TiledFromIsRange(0, width, size);
  }

  /** Every index stored to lies in `[0, size)` (also when `size` is not a
      multiple of the width), every index of `[0, size)` is stored to, and
      none is stored to twice. */
  lemma {:induction false} TiledCoversOnce(size: int, width: int)
    requires width > 0
    ensures forall x :: x in TiledSchedule(size, width) <==> 0 <= x < size
    ensures forall p, q :: 0 <= p < q < |TiledSchedule(size, width)| ==>
              TiledSchedule(size, width)[p] != TiledSchedule(size, width)[q]
  {
    TiledIsSequential(size, width);
    var r := Range(0, size);
    forall x | 0 <= x < size ensures x in r {
      assert r[x] == x;
    }
  }

  // ---------------------------------------------------------------------------
  // The effect of a schedule on the output buffer
  // ---------------------------------------------------------------------------

  /** All indices of `order` address an element of `out`, `a` and `b`. */
  predicate InBounds(order: seq<int>, out: seq<int32>, a: seq<int32>, b: seq<int32>)
  {
    forall p :: 0 <= p < |order| ==> 0 <= order[p] < |out| && order[p] < |a| && order[p] < |b|
  }

  /** The buffer `out` after the stores `out[x] := f(a[x], b[x])` for each `x`
      of `order`, in order, with `a` and `b` read from buffers that no store
      touches. */
  function ApplyWrites(out: seq<int32>, a: seq<int32>, b: seq<int32>, order: seq<int>, f: ScalarFn): (r: seq<int32>)
    requires InBounds(order, out, a, b)
    ensures |r| == |out|
    decreases |order|
  {
    if order == [] then out
    else
      var x := order[|order| - 1];
      ApplyWrites(out, a, b, order[..|order| - 1], f)[x := f(a[x], b[x])]
  }

  /** The buffer `buf` after the stores `buf[x] := f(buf[x], b[x])` for each
      `x` of `order`, in order: the kernel run with `out` and `in1` the same
      buffer, where each load sees the stores made before it. */
  function ApplyWritesInPlace(buf: seq<int32>, b: seq<int32>, order: seq<int>, f: ScalarFn): (r: seq<int32>)
    requires InBounds(order, buf, buf, b)
    ensures |r| == |buf|
    decreases |order|
  {
    if order == [] then buf
    else
      var x := order[|order| - 1];
      var s := ApplyWritesInPlace(buf, b, order[..|order| - 1], f);
      s[x := f(s[x], b[x])]
  }

  /** After a schedule, an element holds `f` of its inputs exactly when its
      index was scheduled, and keeps its old value otherwise. */
  lemma {:induction false} ApplyWritesAt(out: seq<int32>, a: seq<int32>, b: seq<int32>, order: seq<int>, f: ScalarFn, j: int)
    requires InBounds(order, out, a, b)
    requires 0 <= j < |out|
    ensures ApplyWrites(out, a, b, order, f)[j] == if j in order then f(a[j], b[j]) else out[j]
    decreases |order|
  {
    if order != [] {
      var pre := order[..|order| - 1];
      assert order == pre + [order[|order| - 1]];
      ApplyWritesAt(out, a, b, pre, f, j);
    }
  }

  /** One more store at the end of a schedule updates the one element it addresses. */
  lemma {:induction false} ApplyWritesSnoc(out: seq<int32>, a: seq<int32>, b: seq<int32>, order: seq<int>, x: int, f: ScalarFn)
    requires InBounds(order, out, a, b)
    requires 0 <= x < |out| && x < |a| && x < |b|
    ensures InBounds(order + [x], out, a, b)
    ensures ApplyWrites(out, a, b, order + [x], f) == ApplyWrites(out, a, b, order, f)[x := f(a[x], b[x])]
  {
    assert (order + [x])[..|order|] == order;
  }

  /** The processing order does not matter: two schedules that store to the
      same set of indices leave the same buffer (repetitions included). */
  lemma {:induction false} OrderIndependent(out: seq<int32>, a: seq<int32>, b: seq<int32>, o1: seq<int>, o2: seq<int>, f: ScalarFn)
    requires InBounds(o1, out, a, b)
    requires forall x :: x in o1 <==> x in o2
    ensures InBounds(o2, out, a, b)
    ensures ApplyWrites(out, a, b, o1, f) == ApplyWrites(out, a, b, o2, f)
  {
    forall p | 0 <= p < |o2| ensures 0 <= o2[p] < |out| && o2[p] < |a| && o2[p] < |b| {
      var x := o2[p];
      assert x in o2;
      assert x in o1;
      var q :| 0 <= q < |o1| && o1[q] == x;
    }
    forall j | 0 <= j < |out|
      ensures ApplyWrites(out, a, b, o1, f)[j] == ApplyWrites(out, a, b, o2, f)[j]
    {
      ApplyWritesAt(out, a, b, o1, f, j);
      ApplyWritesAt(out, a, b, o2, f, j);
    }
  }

  /** The tiled kernel leaves the buffer exactly as the sequential loop does:
      `f` of the inputs on `[0, size)`, the old contents elsewhere. */
  lemma {:induction false} TiledMatchesSequential(out: seq<int32>, a: seq<int32>, b: seq<int32>, size: int, width: int, f: ScalarFn)
    requires width > 0
    requires size <= |out| && size <= |a| && size <= |b|
    ensures InBounds(TiledSchedule(size, width), out, a, b)
    ensures ApplyWrites(out, a, b, TiledSchedule(size, width), f) == ApplyWrites(out, a, b, Range(0, size), f)
    ensures forall j :: 0 <= j < |out| ==>
              ApplyWrites(out, a, b, TiledSchedule(size, width), f)[j]
              == if j < size then f(a[j], b[j]) else out[j]
  {
    var s := TiledSchedule(size, width);
    TiledIsSequential(size, width);
    assert InBounds(s, out, a, b);
    forall j | 0 <= j < |out|
      ensures ApplyWrites(out, a, b, s, f)[j] == if j < size then f(a[j], b[j]) else out[j]
    {
      ApplyWritesAt(out, a, b, s, f, j);
      if j < size {
        assert s[j] == j;
      }
    }
  }

  /** The chunk width is a performance parameter only: any two positive
      widths leave the same buffer. */
  lemma {:induction false} WidthIndependent(out: seq<int32>, a: seq<int32>, b: seq<int32>, size: int, w1: int, w2: int, f: ScalarFn)
    requires w1 > 0 && w2 > 0
    requires size <= |out| && size <= |a| && size <= |b|
    ensures InBounds(TiledSchedule(size, w1), out, a, b)
    ensures InBounds(TiledSchedule(size, w2), out, a, b)
    ensures ApplyWrites(out, a, b, TiledSchedule(size, w1), f) == ApplyWrites(out, a, b, TiledSchedule(size, w2), f)
  {
    TiledMatchesSequential(out, a, b, size, w1, f);
    TiledMatchesSequential(out, a, b, size, w2, f);
  }

  /** Storing in place is safe when no index is scheduled twice: each element
      is loaded before the one store to it, so every load still sees the
      original input. */
  lemma {:induction false} InPlaceAgrees(buf: seq<int32>, b: seq<int32>, order: seq<int>, f: ScalarFn)
    requires InBounds(order, buf, buf, b)
    requires forall p, q :: 0 <= p < q < |order| ==> order[p] != order[q]
    ensures ApplyWritesInPlace(buf, b, order, f) == ApplyWrites(buf, buf, b, order, f)
    decreases |order|
  {
    if order != [] {
      var n := |order| - 1;
      var pre, x := order[..n], order[n];
      InPlaceAgrees(buf, b, pre, f);
      assert x !in pre by {
        forall p | 0 <= p < n ensures pre[p] != x {
          assert pre[p] == order[p];
        }
      }
      ApplyWritesAt(buf, buf, b, pre, f, x);
    }
  }

  /** The tiled kernel run in place computes from the original input. */
  lemma {:induction false} TiledInPlace(buf: seq<int32>, b: seq<int32>, size: int, width: int, f: ScalarFn)
    requires width > 0
    requires size <= |buf| && size <= |b|
    ensures InBounds(TiledSchedule(size, width), buf, buf, b)
    ensures forall j :: 0 <= j < |buf| ==>
              ApplyWritesInPlace(buf, b, TiledSchedule(size, width), f)[j]
              == if j < size then f(buf[j], b[j]) else buf[j]
  {
    TiledMatchesSequential(buf, buf, b, size, width, f);
    TiledCoversOnce(size, width);
    InPlaceAgrees(buf, b, TiledSchedule(size, width), f);
  }

  // ---------------------------------------------------------------------------
  // The kernel
  // ---------------------------------------------------------------------------

  /** The unrolled inner loop `task_parallel_loop_k` for the chunk at `i`:
      lane `k` forms `index = i + k` and, when `index < size`, loads both
      inputs, applies `f` and stores the result. `trace` lists the indices
      stored to before this chunk, and `O`, `A`, `B` are the three buffers as
      they were when the kernel started; the chunk extends the trace by exactly
      its guarded lanes. */
  method StoreChunk(in1: array<int32>, in2: array<int32>, out: array<int32>, i: int32, size: int32, width: int32, f: ScalarFn,
                    ghost O: seq<int32>, ghost A: seq<int32>, ghost B: seq<int32>, ghost trace: seq<int>)
    returns (ghost trace': seq<int>)
    requires width > 0 && 0 <= i < size
    requires size as int <= in1.Length && size as int <= in2.Length && size as int <= out.Length
    requires i as int + width as int <= 0x8000_0000
    requires |O| == out.Length && |A| == in1.Length && |B| == in2.Length
    requires (in1 == out ==> A == O) && (in1 != out ==> in1[..] == A)
    requires (in2 == out ==> B == O) && (in2 != out ==> in2[..] == B)
    requires forall p :: 0 <= p < |trace| ==> 0 <= trace[p] < i as int
    requires out[..] == ApplyWrites(O, A, B, trace, f)
    modifies out
    ensures trace' == trace + ChunkLanes(i as int, 0, width as int, size as int)
    ensures forall p :: 0 <= p < |trace'| ==> 0 <= trace'[p] < i as int + width as int && trace'[p] < size as int
    ensures out[..] == ApplyWrites(O, A, B, trace', f)
  {
    ghost var I, W, S := i as int, width as int, size as int;
    trace' := trace;
    for k: int32 := 0 to width
      invariant trace' + ChunkLanes(I, k as int, W, S) == trace + ChunkLanes(I, 0, W, S)
      invariant forall p :: 0 <= p < |trace'| ==> 0 <= trace'[p] < I + k as int && trace'[p] < S
      invariant out[..] == ApplyWrites(O, A, B, trace', f)
    {
      var index := i + k;
      ghost var lanes := ChunkLanes(I, k as int + 1, W, S);
      if index < size {
        // index has not been stored to yet, so an input that is also the
        // output still holds its entry value there
        assert index as int !in trace';
        ApplyWritesAt(O, A, B, trace', f, index as int);
        var a := in1[index];
        var b := in2[index];
        assert a == A[index] && b == B[index];
        var result := f(a, b);
        out[index] := result;
        assert ChunkLanes(I, k as int, W, S) == [index as int] + lanes;
        AppendAssoc(trace', [index as int], lanes);
        ApplyWritesSnoc(O, A, B, trace', index as int, f);
        trace' := trace' + [index as int];
      } else {
        assert ChunkLanes(I, k as int, W, S) == [] + lanes == lanes;
      }
    }
    assert ChunkLanes(I, W, W, S) == [];
    assert trace' + [] == trace';
  }

  /** The loop nest of `krnl_heavy_compute_parallel` for chunk width `width`:
      `main_loop_i` advances `i` by `width` while `i < size` and runs one chunk
      per step. The buffers may alias; the results are stated against the
      inputs as they were on entry. `trace` lists the indices stored to, in
      the order of the stores. */
  method TiledMap(in1: array<int32>, in2: array<int32>, out: array<int32>, size: int32, width: int32, f: ScalarFn)
    returns (ghost trace: seq<int>)
    requires width > 0
    requires size as int <= in1.Length && size as int <= in2.Length && size as int <= out.Length
    // `i += width` and `i + k` must stay within a 32-bit `int`
    requires size as int + width as int <= 0x8000_0000
    modifies out
    ensures trace == TiledSchedule(size as int, width as int)
    ensures InBounds(trace, old(out[..]), old(in1[..]), old(in2[..]))
    ensures out[..] == ApplyWrites(old(out[..]), old(in1[..]), old(in2[..]), trace, f)
    ensures in1 != out ==> in1[..] == old(in1[..])
    ensures in2 != out ==> in2[..] == old(in2[..])
  {
    ghost var O, A, B := out[..], in1[..], in2[..];
    ghost var W, S := width as int, size as int;
    ghost var full := TiledSchedule(S, W);
    // the indices stored to so far, in order
    trace := [];
    var i: int32 := 0;
    while i < size
      invariant 0 <= i as int
      invariant trace + TiledFrom(i as int, W, S) == full
      invariant forall p :: 0 <= p < |trace| ==> 0 <= trace[p] < i as int && trace[p] < S
      invariant out[..] == ApplyWrites(O, A, B, trace, f)
      decreases S - i as int
    {
      ghost var I := i as int;
      ghost var chunk, rest := ChunkLanes(I, 0, W, S), TiledFrom(I + W, W, S);
      assert TiledFrom(I, W, S) == chunk + rest;
      ghost var before := trace;
      trace := StoreChunk(in1, in2, out, i, size, width, f, O, A, B, trace);
      AppendAssoc(before, chunk, rest);
      i := i + width;
      assert i as int == I + W;
    }
    assert TiledFrom(i as int, W, S) == [];
    assert trace + [] == trace;
  }

  /** `krnl_heavy_compute_parallel`: `out[j] = compute_scalar(in1[j], in2[j])`
      for every `j` in `[0, size)`, with `N_PIPELINES` lanes per chunk; nothing
      at or beyond `size` is touched, and nothing at all when `size <= 0`. */
  method KrnlHeavyComputeParallel(in1: array<int32>, in2: array<int32>, out: array<int32>, size: int32, computeScalar: ScalarFn)
    requires size as int <= in1.Length && size as int <= in2.Length && size as int <= out.Length
    requires size as int <= 0x8000_0000 - N_PIPELINES as int
    modifies out
    ensures forall j :: 0 <= j < out.Length ==>
              out[j] == if j < size as int then computeScalar(old(in1[j]), old(in2[j])) else old(out[j])
    ensures size <= 0 ==> out[..] == old(out[..])
    ensures in1 != out ==> in1[..] == old(in1[..])
    ensures in2 != out ==> in2[..] == old(in2[..])
  {
    ghost var O, A, B := out[..], in1[..], in2[..];
    TiledMatchesSequential(O, A, B, size as int, N_PIPELINES as int, computeScalar);
    ghost var trace := TiledMap(in1, in2, out, size, N_PIPELINES, computeScalar);
  }

  /** The kernel called with `out` the same buffer as `in1`: the buffer ends
      as the in-place schedule leaves it, where each load sees the stores made
      before it, and that is `compute_scalar` of the original contents. */
  method KernelInPlace(buf: array<int32>, in2: array<int32>, size: int32, computeScalar: ScalarFn)
    requires size as int <= buf.Length && size as int <= in2.Length
    requires size as int <= 0x8000_0000 - N_PIPELINES as int
    modifies buf
    ensures InBounds(TiledSchedule(size as int, N_PIPELINES as int), old(buf[..]), old(buf[..]), old(in2[..]))
    ensures buf[..] == ApplyWritesInPlace(old(buf[..]), old(in2[..]), TiledSchedule(size as int, N_PIPELINES as int), computeScalar)
    ensures forall j :: 0 <= j < size as int ==> buf[j] == computeScalar(old(buf[j]), old(in2[j]))
    ensures forall j :: 0 <= j < buf.Length && size as int <= j ==> buf[j] == old(buf[j])
  {
    ghost var O, B := buf[..], in2[..];
    TiledMatchesSequential(O, O, B, size as int, N_PIPELINES as int, computeScalar);
    TiledCoversOnce(size as int, N_PIPELINES as int);
    InPlaceAgrees(O, B, TiledSchedule(size as int, N_PIPELINES as int), computeScalar);
    ghost var trace := TiledMap(buf, in2, buf, size, N_PIPELINES, computeScalar);
  }
}
