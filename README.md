# Task-parallel heavy-compute kernel

This project models the FPGA kernel `krnl_heavy_compute_parallel` and proves
properties of the model. The kernel reads two vectors of 32-bit integers,
`in1` and `in2`, and writes `out[index] = compute_scalar(in1[index], in2[index])`
for every `index` below `size`.

It does this with two nested loops. The outer loop `main_loop_i` advances `i`
from 0 in steps of `N_PIPELINES` (8) while `i < size`. The inner loop
`task_parallel_loop_k` runs over the lanes `k = 0 .. N_PIPELINES - 1` of one
chunk and forms `index = i + k`. A guard `index < size` protects each load and
each store, so a last, partial chunk touches nothing at or past `size`.

All of it is in `krnl_heavy_compute_parallel.dfy`, module `HeavyCompute`:

- `int32` is the C type `int32_t`. It is also the type of the kernel's `int`
  loop counters, so every `i += width` and every `i + k` is checked not to
  overflow.
- `compute_scalar` is a parameter of type `ScalarFn = (int32, int32) -> int32`.
  A Dafny function value is pure and deterministic, which is all the kernel
  relies on.
- Index schedules. `ChunkLanes` and `TiledFrom` list, in order, the indices the
  loop nest stores to. `TiledSchedule` is the whole list. `Range(lo, hi)` is
  what a plain sequential `for` loop visits.
- `ApplyWrites` gives the output buffer after a schedule, with both inputs read
  from buffers that no store touches. `ApplyWritesInPlace` is the same with
  `out` and `in1` being one buffer, so each load sees the stores made before it.
- The kernel is three methods over `array<int32>`. `StoreChunk` is the inner
  loop. `TiledMap` is the loop nest for any positive chunk width.
  `KrnlHeavyComputeParallel` is the entry point, which fixes the width to
  `N_PIPELINES`. A ghost trace records every store that `StoreChunk` and
  `TiledMap` make. `StoreChunk` returns the trace extended by exactly
  `ChunkLanes`, and `TiledMap` returns a trace that its contract states is
  exactly `TiledSchedule`, in order. Both contracts state that the buffer is
  the matching `ApplyWrites`.
- The buffers may alias. Nothing in `TiledMap` requires them to be distinct.
  Its results are stated against the inputs as they were on entry, and
  `KernelInPlace` is a caller that passes one buffer as both `in1` and `out`.

A negative `size` is a caller error that a port might reject. The kernel has
no such check: when `size <= 0` the outer loop body never runs and nothing is
read or written. The model follows the kernel.

## Model

| member | source | states |
|---|---|---|
| `HeavyCompute.ChunkLanes` | kernels/fpga/krnl_heavy_compute_parallel.cpp:93-100 | Defines the indices `i + k` for lanes `k` in `[k0, width)` that pass the guard `i + k < size`, in lane order. Its contract bounds them to `[i + k0, i + width)` and below `size`, with at most `width - k0` of them |
| `HeavyCompute.TiledFrom` | kernels/fpga/krnl_heavy_compute_parallel.cpp:82-100 | Defines the store order of the outer loop from position `i` on: while `i < size`, the chunk at `i`, then the rest from `i + width`. Its contract bounds every index to `[i, size)` |
| `HeavyCompute.TiledSchedule` | kernels/fpga/krnl_heavy_compute_parallel.cpp:82 | Defines the whole store order of the loop nest, which starts at `i = 0`. Its contract bounds every index to `[0, size)` |
| `HeavyCompute.ApplyWrites` | kernels/fpga/krnl_heavy_compute_parallel.cpp:100-109 | Defines the buffer after the stores `out[x] = f(a[x], b[x])` for each index of a schedule, in order, with the inputs read from buffers no store touches. Its contract keeps the buffer length |
| `HeavyCompute.ApplyWritesInPlace` | kernels/fpga/krnl_heavy_compute_parallel.cpp:102-109 | Defines the same effect with `out` and `in1` one buffer, so each load sees the stores made before it. Its contract keeps the buffer length |
| `HeavyCompute.ChunkLanesAreRange` | kernels/fpga/krnl_heavy_compute_parallel.cpp:93-100 | From lane `k` on, the guarded lanes of the chunk at `i` store to the consecutive indices from `i + k` up to `min(i + width, size)`, and to nothing else |
| `HeavyCompute.TiledFromIsRange` | kernels/fpga/krnl_heavy_compute_parallel.cpp:82-100 | From any outer position `i`, the loop nest stores to `i, i + 1, ..., size - 1`, in that order |
| `HeavyCompute.TiledIsSequential` | kernels/fpga/krnl_heavy_compute_parallel.cpp:82-100 | The tiled store schedule equals the sequential loop `0 .. size - 1` for every positive width. It is empty when `size <= 0` |
| `HeavyCompute.TiledCoversOnce` | kernels/fpga/krnl_heavy_compute_parallel.cpp:97-100 | An index is stored to if and only if `0 <= index < size`, also when `size` is not a multiple of the width. No index is stored to twice |
| `HeavyCompute.ApplyWritesAt` | kernels/fpga/krnl_heavy_compute_parallel.cpp:100-109 | After a schedule, element `j` holds `f(a[j], b[j])` if `j` was scheduled and keeps its old value otherwise |
| `HeavyCompute.OrderIndependent` | kernels/fpga/krnl_heavy_compute_parallel.cpp:93-109 | Any two schedules that store to the same set of indices leave the same buffer, so the order of the lanes does not matter |
| `HeavyCompute.TiledMatchesSequential` | kernels/fpga/krnl_heavy_compute_parallel.cpp:82-109 | The tiled schedule leaves the same buffer as the sequential loop: `f` of the inputs on `[0, size)` and the old contents everywhere else |
| `HeavyCompute.WidthIndependent` | kernels/fpga/krnl_heavy_compute_parallel.cpp:82-93 | Any two positive chunk widths leave the same buffer, so the width only affects performance |
| `HeavyCompute.InPlaceAgrees` | kernels/fpga/krnl_heavy_compute_parallel.cpp:102-109 | If no index is scheduled twice, storing into the first input gives the same buffer as storing into a separate output, because each element is loaded before its only store |
| `HeavyCompute.TiledInPlace` | kernels/fpga/krnl_heavy_compute_parallel.cpp:97-109 | Run in place, the tiled schedule leaves `f(old buf[j], b[j])` on `[0, size)` and the old contents elsewhere |
| `HeavyCompute.StoreChunk` | kernels/fpga/krnl_heavy_compute_parallel.cpp:93-111 | One chunk adds exactly its guarded lanes `ChunkLanes(i, 0, width, size)` to the trace, and the buffer becomes the `ApplyWrites` of the extended trace. Each load sees the entry value of its input, even when that input is `out` |
| `HeavyCompute.TiledMap` | kernels/fpga/krnl_heavy_compute_parallel.cpp:82-112 | The returned trace of stores is exactly `TiledSchedule(size, width)`, in order. Every index of it is in bounds of all three buffers. `out` ends as the `ApplyWrites` of that schedule from the entry contents, and an input that is not `out` is unchanged |
| `HeavyCompute.KrnlHeavyComputeParallel` | kernels/fpga/krnl_heavy_compute_parallel.cpp:73-113 | `out[j] == compute_scalar(old in1[j], old in2[j])` for every `0 <= j < size`. Every other element of `out` is unchanged, `out` is untouched when `size <= 0`, and only capacity `size` is needed |
| `HeavyCompute.KernelInPlace` | kernels/fpga/krnl_heavy_compute_parallel.cpp:100-109 | With `out` the same buffer as `in1`, the buffer ends as the in-place schedule leaves it, which is `compute_scalar(old buf[j], old in2[j])` on `[0, size)` with the rest unchanged |

## Left out

- The numeric body of `compute_scalar` (kernels/fpga/krnl_heavy_compute_parallel.cpp:46-61) is not modelled. It is single-precision `hls::sinf`/`hls::cosf` arithmetic with a float-to-int truncation, from a vendor math library that is not part of this model. Every member takes it as a function parameter instead.
- The `#pragma HLS` directives (`INTERFACE m_axi`, `PIPELINE II=1`, `UNROLL`, `LOOP_TRIPCOUNT`) and the `DATA_SIZE`/`c_size` constants they use are synthesis hints with no effect on behaviour. The 8 hardware lanes of a chunk run in the same cycle, but the model runs them one after another. `OrderIndependent` shows that the order does not change the result.
- src/common/device_constants.h defines five device-name strings. It has no operations and is not part of this model.
- TiledMap, KrnlHeavyComputeParallel and KernelInPlace require `size + width <= 2^31`. A larger `size` would overflow the signed `int` in `i += N_PIPELINES`, which is undefined behaviour in C. The model proves that under this bound no counter overflows, and it does not model wrap-around. For `N_PIPELINES` (8), which divides 2^31, the bound is exact: with `size > 2^31 - 8` the last `i += 8` reaches 2^31. For a width that does not divide 2^31, TiledMap's bound is conservative. It also excludes some inputs that never overflow, for example width 3 and size 2^31 - 2.
- A C pointer may point into the middle of another buffer, but a Dafny array aliases another array only as a whole. Partial overlap of `out` with an input at a different offset is therefore not modelled.
