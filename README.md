# sycl-blas core, modelled in Dafny

This project models five small, sequential pieces of the sycl-blas library and
its benchmarks, and proves what each promises:

- **BLAS-1 expression nodes** (`blas1_trees.dfy`, module `Blas1Trees`).
  - A reduction node `ReductionExpr<Functor, LHS, RHS>` holds a destination
    and a source subexpression, both by value, and forwards `getSize()` and
    `value_type` to the source.
  - The five named builders each fix one functor tag.
  - The three `make_expr` overloads build an n-ary node. It keeps an
    optional operator tag first, then the subexpressions in the order given.
  - Functors are opaque tags.
- **Launch geometry and packet traits** (`packet_traits.dfy`, module
  `PacketTraitsSycl`).
  - `SYCLDevice::parallel_for_setup` is a method with three out-values. It
    is given both in the 64-bit arithmetic the source writes and in a form
    that cannot wrap.
  - `Packet_traits` is a constant table: vector width 1 for the generic
    case and 4 for `float`, with every capability flag set.
- **Strided swap** (`swap_contract.dfy`, module `Blas1Swap`). The swap kernel
  is not part of this model, so its unit test defines its contract. The
  method `StridedSwap` on two arrays exchanges the elements at physical
  index `j * strd` for every logical index `j < count`. `SwapAsTested` is
  the test's call with `count = (size + strd - 1) / strd`, together with
  the test's checks.
- **Benchmark helpers** (`common_utils.dfy`, module `BenchUtils`).
  - Transposition flags and their one-letter strings, with both round trips.
  - `get_type_name` and `const_data`.
  - The line splitting in `parse_csv_file`:
    - one `std::getline(stream, cell, ',')` is the method `Getline`, and
      the inner loop is `SplitCells`;
    - both are proved equal to `GetlineCells`, the cells repeated
      `std::getline` extracts. That agrees with the reference split `Cells`
      on every string not ending in `,`, as every NUL-terminated line is;
    - the outer loop over the file's lines is `ParseCsvLines`.
- **GEMM benchmark arithmetic** (`gemm_bench.dfy`, module `GemmBench`).
  - Leading dimensions chosen from the transposition flags.
  - Operand buffer sizes and the zero-filled output buffer.
  - The flop and byte counters, computed as the source does: assigned,
    then reduced when `beta == 0`.
  - The benchmark name `BM_Gemm<type>/t1/t2/m/k/n`, whose fields are
    recovered by splitting at `/`.

`scalar_types.dfy` (module `ScalarTypes`) names the scalar types the
templates are instantiated with: `float`, `double`, or another type known
only by its `typeid` name. `ceil_div.dfy` (module `CeilDivision`) holds the
ceiling division shared by the launch geometry and the swap test's element
count.

## Model

| member | source | states |
|---|---|---|
| Blas1Trees.MakeReductionExpr | include/operations/blas1_trees.hpp:41-57 | the node has functor `F`, destination `l` and source `r` unchanged; its size and value type are the source's |
| Blas1Trees.ReductionExpr.GetSize | include/operations/blas1_trees.hpp:51 | `getSize()` of a node is the `getSize()` of its source subexpression |
| Blas1Trees.ReductionExpr.ValueType | include/operations/blas1_trees.hpp:43 | the node's `value_type` is its source subexpression's `value_type` |
| Blas1Trees.GetSizeIgnoresDestination | include/operations/blas1_trees.hpp:43-51 | two nodes over the same source have the same `getSize()` and `value_type`, whatever their destinations and functors |
| Blas1Trees.MakeAddReductionExpr | include/operations/blas1_trees.hpp:59-63 | selects `addOp2` and keeps `l` and `r` |
| Blas1Trees.MakePrdReductionExpr | include/operations/blas1_trees.hpp:65-69 | selects `prdOp2` and keeps `l` and `r` |
| Blas1Trees.MakeAddAbsReductionExpr | include/operations/blas1_trees.hpp:71-75 | selects `addAbsOp2` and keeps `l` and `r` |
| Blas1Trees.MakeMaxIndReductionExpr | include/operations/blas1_trees.hpp:77-81 | selects `maxIndOp2` and keeps `l` and `r` |
| Blas1Trees.MakeMinIndReductionExpr | include/operations/blas1_trees.hpp:83-87 | selects `minIndOp2` and keeps `l` and `r` |
| Blas1Trees.NamedBuildersSelectDistinctFunctors | include/operations/blas1_trees.hpp:59-87 | the five builders pick five distinct functors that together are all of them, and their results differ in the functor only |
| Blas1Trees.SubArgs | include/operations/blas1_trees.hpp:98-101 | a pack of subexpressions expands to one template argument per subexpression, in pack order |
| Blas1Trees.MakeExpr | include/operations/blas1_trees.hpp:98-101 | no operator tag; the subexpressions are kept in number and order, as constructor and as type arguments |
| Blas1Trees.MakeOpExpr | include/operations/blas1_trees.hpp:113-117 | the operator tag is the first type argument, followed by the subexpressions in order; the constructor gets the subexpressions only |
| Blas1Trees.MakeOpExprFirstByValue | include/operations/blas1_trees.hpp:134-139 | the by-value first subexpression stays first, directly after the tag, and the rest follow in order |
| CeilDivision.CeilDivCovers | include/executors/blas_packet_traits_sycl.hpp:60 | the ceiling quotient times the divisor covers the dividend |
| CeilDivision.CeilDivNoSurplus | include/executors/blas_packet_traits_sycl.hpp:60 | for a positive dividend, one group fewer would not cover it |
| CeilDivision.CeilDivZero | include/executors/blas_packet_traits_sycl.hpp:60 | the ceiling quotient is zero exactly when the dividend is |
| CeilDivision.CeilDivCounts | include/executors/blas_packet_traits_sycl.hpp:60 | group `q` starts below `n` if and only if `q` is below the ceiling quotient |
| CeilDivision.CeilDivMonotone | include/executors/blas_packet_traits_sycl.hpp:60 | the ceiling quotient does not decrease as the dividend grows |
| PacketTraitsSycl.GroupCountAsWritten | include/executors/blas_packet_traits_sycl.hpp:60 | the 64-bit computation equals the ceiling quotient when the sum does not wrap, and is 0 when it does |
| PacketTraitsSycl.GroupCountAsWrittenMissesLargeExtent | include/executors/blas_packet_traits_sycl.hpp:60 | for `N = 2^64 - 1` the 64-bit computation gives 0 groups, which cover none of the `N` items |
| PacketTraitsSycl.GroupCount | include/executors/blas_packet_traits_sycl.hpp:60 | the corrected count is the ceiling of `N / 256` and fits in `size_t` |
| PacketTraitsSycl.GroupCountAgreesWithoutWrap | include/executors/blas_packet_traits_sycl.hpp:60 | wherever the source's sum does not wrap, the corrected count is the source's count |
| PacketTraitsSycl.ParallelForSetupAsWritten | include/executors/blas_packet_traits_sycl.hpp:57-61 | local size 256, global size `N`, and the group count in the source's 64-bit arithmetic |
| PacketTraitsSycl.ParallelForSetup | include/executors/blas_packet_traits_sycl.hpp:57-61 | local size 256 and global size `N`; the groups cover every index with no surplus group, and there are none exactly when `N == 0` |
| PacketTraitsSycl.GroupCountMonotone | include/executors/blas_packet_traits_sycl.hpp:60 | the group count is monotone in `N` |
| PacketTraitsSycl.GenericTraits | include/executors/blas_packet_traits_sycl.hpp:67-87 | the generic specialisation: the scalar itself as packet type, `Size` 1, `Supported` 1 and every `has_*` flag 1 |
| PacketTraitsSycl.FloatTraits | include/executors/blas_packet_traits_sycl.hpp:89-109 | the `float` specialisation: `cl_float4` as packet type, `Size` 4, `Supported` 1 and every `has_*` flag 1 |
| PacketTraitsSycl.TraitsFor | include/executors/blas_packet_traits_sycl.hpp:67-109 | width 4 with a `float4` packet for `float` and width 1 with a scalar packet otherwise; `Supported` and every capability flag are 1 |
| PacketTraitsSycl.SizeIsPacketWidth | include/executors/blas_packet_traits_sycl.hpp:69-93 | `Size` is the number of lanes of `packet_type` for every scalar type |
| PacketTraitsSycl.FloatDiffersOnlyInPacket | include/executors/blas_packet_traits_sycl.hpp:89-109 | the `float` specialisation equals the generic traits with only `packet_type` and `Size` changed |
| Blas1Swap.StridedSwap | test/unittest/blas1_swap_test.cpp:67-79 | positions `j * strd` with `j < count` trade values between the buffers, every other position keeps its value, and the values of both buffers together are a permutation of the old ones |
| Blas1Swap.TestCountTouchesMultiples | test/unittest/blas1_swap_test.cpp:67-72 | with `count = (size + strd - 1) / strd`, the positions touched below `size` are exactly the multiples of `strd` |
| Blas1Swap.TestCountInBounds | test/unittest/blas1_swap_test.cpp:67 | with that count, every touched physical index lies below `size` |
| Blas1Swap.SwapAsTested | test/unittest/blas1_swap_test.cpp:49-79 | after the test's call, multiples of `strd` are exchanged and all other positions are unchanged; with `strd == 1` the vectors are exchanged completely; no value is lost or invented |
| BenchUtils.PossibleTranspositionsComplete | benchmark/common_utils.hpp:131-135 | `possible_transpositions` lists every transposition, each once |
| BenchUtils.ToTransposeEnum | benchmark/common_utils.hpp:140-148 | "t" maps to Transposed and "c" to Conjugate, each if and only if; every other string, "n" and "" included, maps to Normal |
| BenchUtils.FromTransposeEnum | benchmark/common_utils.hpp:153-167 | the result is always "n", "t" or "c" |
| BenchUtils.TransposeEnumRoundTrip | benchmark/common_utils.hpp:140-167 | converting a transposition to its string and back gives the transposition |
| BenchUtils.TransposeStringRoundTrip | benchmark/common_utils.hpp:140-167 | converting "n", "t" or "c" to a transposition and back gives the string |
| BenchUtils.GetTypeName | benchmark/common_utils.hpp:82-90 | "float" for `float`, "double" for `double`, and the `typeid` name for any other type |
| BenchUtils.ConstData | benchmark/common_utils.hpp:123-129 | a vector of `size` elements, each equal to the constant |
| BenchUtils.ConstDataDefault | benchmark/common_utils.hpp:124-125 | without a constant, `size` elements that are all zero |
| BenchUtils.IndexFrom | benchmark/common_utils.hpp:46 | the position where `std::getline` stops: no delimiter before it, and it is the end or a delimiter |
| BenchUtils.Getline | benchmark/common_utils.hpp:46 | one `std::getline` fails exactly when the stream is exhausted; otherwise it extracts up to the next delimiter and consumes that delimiter, so the cells still to come lose exactly the one extracted |
| BenchUtils.SplitCells | benchmark/common_utils.hpp:43-48 | the inner loop collects exactly the cells that repeated `std::getline` extracts |
| BenchUtils.GetlineMatchesCells | benchmark/common_utils.hpp:42-48 | on a non-empty stream that does not end in the delimiter, which the appended NUL guarantees, `std::getline` extracts the reference cells |
| BenchUtils.TrailingDelimiterLosesCell | benchmark/common_utils.hpp:42-48 | without the NUL, "a," would yield one cell where its split has two, and with the NUL both cells survive |
| BenchUtils.CellsCount | benchmark/common_utils.hpp:42-48 | a line splits into one more cell than it has commas |
| BenchUtils.CellsHaveNoDelimiter | benchmark/common_utils.hpp:46-48 | no cell contains the delimiter |
| BenchUtils.JoinCells | benchmark/common_utils.hpp:42-48 | joining the cells with the delimiter gives back the line, NUL included |
| BenchUtils.CellsOfJoin | benchmark/common_utils.hpp:46-48 | splitting a join of delimiter-free pieces gives back the pieces |
| BenchUtils.CellsOfField | benchmark/common_utils.hpp:46-48 | a string without the delimiter is a single cell |
| BenchUtils.CellsSnoc | benchmark/common_utils.hpp:46-48 | appending a delimiter and a delimiter-free field adds exactly that field as the last cell |
| BenchUtils.CellsFromShift | benchmark/common_utils.hpp:46-48 | the cells of a suffix do not depend on what precedes it |
| BenchUtils.NonEmptyLinesAppend | benchmark/common_utils.hpp:40-41 | filtering out empty lines distributes over concatenation, so records keep file order |
| BenchUtils.NonEmptyLinesSingle | benchmark/common_utils.hpp:41 | an empty line gives no record and a non-empty line exactly one |
| BenchUtils.LineRecordCells | benchmark/common_utils.hpp:42-48 | for every line with the NUL appended, `std::getline` extracts the reference cells; there is one more cell than the line has commas, no cell contains a comma, and the cells joined with commas give the line followed by the NUL |
| BenchUtils.CountFromSnoc | benchmark/common_utils.hpp:42 | appending a character other than the delimiter, as the NUL is, adds no delimiter |
| BenchUtils.ParseCsvLines | benchmark/common_utils.hpp:33-52 | one record per non-empty line, in file order; record `r` is `func` applied to the comma-split cells of the `r`-th non-empty line with a NUL appended |
| GemmBench.LeadingDimensions | benchmark/syclblas/blas3/gemm.cpp:40-49 | `lda` is `m` for a Normal A and `k` otherwise; `ldb` is `k` for a Normal B and `n` otherwise; `ldc` is `m` |
| GemmBench.LeadingDimensionsFromFlags | benchmark/syclblas/blas3/gemm.cpp:135-137 | from the parameter strings, only "t" and "c" change a leading dimension, and "c" acts exactly like "t" |
| GemmBench.LeadingDimensionsSpanBuffers | benchmark/syclblas/blas3/gemm.cpp:47-81 | for either flag, each leading dimension times the other extent of its stored matrix is that operand's buffer size: `m*k`, `k*n`, `m*n` |
| GemmBench.MakeOutputBuffer | benchmark/syclblas/blas3/gemm.cpp:76-77 | the construction fails with a length error exactly when the `index_t` product `m*n` is negative; otherwise C holds `m*n` elements, all zero |
| GemmBench.GemmCounters | benchmark/syclblas/blas3/gemm.cpp:61-69 | for any `index_t` extents, negative ones included: the flop counter is `m*n` entries of `2k+1` operations plus 2 more unless `beta == 0`; the byte counter is A, B and C moved once plus C read again unless `beta == 0`, times the scalar size |
| GemmBench.NatToString | benchmark/syclblas/blas3/gemm.cpp:31-32 | the decimal text of a natural number is non-empty digits with no leading zero, and the number those digits denote is the input |
| GemmBench.IntToString | benchmark/syclblas/blas3/gemm.cpp:31-32 | the text `operator<<` writes for an `int`: never empty and never containing `/`; a negative value prints as a minus sign followed by digits with no leading zero denoting its magnitude; any other value prints as digits denoting it, with a leading zero only for 0, which prints as "0" |
| GemmBench.SlashSeparatedFields | benchmark/syclblas/blas3/gemm.cpp:31-32 | six `/`-free fields written with `/` between them split back into those six fields |
| GemmBench.GetName | benchmark/syclblas/blas3/gemm.cpp:28-34 | the name written by `get_name` holds its six fields plus exactly 14 characters: `BM_Gemm<`, `>` and five `/`; `GetNameFields` gives the order of the fields |
| GemmBench.GetNameFields | benchmark/syclblas/blas3/gemm.cpp:28-34 | splitting the benchmark name at `/` gives `BM_Gemm<type>`, `t1`, `t2`, `m`, `k`, `n` in that order |

## Left out

- The SYCL queue, its device and the asynchronous exception handler of `SYCLDevice` are runtime objects and callbacks to standard error.
- `src/policy/sycl_policy_handler.cpp` holds only explicit template instantiations, and the memory operations it names are in a header that is not part of this model.
- `include/executors/blas_pointer_struct.hpp` holds type aliases only.
- The arithmetic of the functors (`addOp2_struct` and the others), the executor, and the kernels behind `_swap` and `_gemm` are not part of this model. Functors are opaque tags, and the swap is specified only by its test.
- Benchmark timing, event profiling, warm-up, counter averaging and benchmark registration are clocks and Google Benchmark state.
- The test harness around the swap is not modelled: random initialisation, queue creation, buffer views and reading results back.
- `random_scalar` and `random_data` depend on `rand()`. The contents of A and B are not modelled; only their sizes are.
- Opening the parameter file, `std::stoi` and `get_params` are not modelled. `ParseCsvLines` takes the file as its sequence of lines and takes `func` as a parameter.
- The other sources are left out. `tests/blas1_interface_test.cpp` is floating-point reference checks. The gemm type-list tests hold no logic. `bench/clblast_benchmark.cpp` and `gbench/` are timing code. `conanfile.py` is packaging.
- Concurrency is not modelled: event waits and out-of-order launches.
- Blas1Swap.StridedSwap: requires two distinct buffers of equal length, which is how the test calls it. Aliased or differently sized views are not modelled.
- Blas1Swap.StridedSwap: exchanges elements one by one, in logical order. The order and parallelism of the real kernel are not modelled.
- GemmBench.GemmCounters: the counters are exact integers. The source computes them in `double`; that rounding is not modelled.
- GemmBench.LeadingDimensions: `index_t` is a 32-bit `int` in the source but unbounded here. Negative extents are modelled; the overflow of `m * k` and the other buffer sizes in `index_t` is not.
- GemmBench.MakeOutputBuffer: the exception that `std::vector` throws is modelled as the `LengthError` result. The A and B buffers come from `random_data`, which is not modelled, so their failure on a negative `m * k` or `k * n` is not modelled either.
- GemmBench.MakeOutputBuffer: scalars are `real`, so `float` and `double` rounding is not modelled.
- BenchUtils.ConstData: every scalar type is modelled by `real`.
- BenchUtils.GetTypeName: for types other than `float` and `double`, the `typeid` name is implementation-defined and is taken as given.
- BenchUtils.FromTransposeEnum: the `default` branch, for an integer outside the enumeration cast to `Transposition`, cannot arise in the model, whose enumeration is closed.
- BenchUtils.Getline: works on a string. Stream state flags and line endings other than `\n`, such as a trailing `\r`, are not modelled.
- BenchUtils.Getline: a failing call returns an empty cell. After an extraction that reached end-of-file, the real `std::getline` leaves the previous cell in place. With the appended NUL that happens on the last call for every line, but the caller discards the cell of a failing call, so the records are unaffected.

## Findings

| source | as written | input that shows it | evidently intended | confidence | as-written member | corrected member |
|---|---|---|---|---|---|---|
| include/executors/blas_packet_traits_sycl.hpp:60 | `nWG = (globalSize + localSize - 1) / localSize` in 64-bit `size_t`, so the sum wraps for `N > 2^64 - 256` and `nWG` becomes 0 | `N = 2^64 - 1`: the sum wraps to 254 and `nWG == 0`, so no work-group covers the `N` items | `nWG = ceil(N / 256)` for every `size_t` value of `N`, computed without the overflowing sum | not executed | PacketTraitsSycl.GroupCountAsWrittenMissesLargeExtent | PacketTraitsSycl.ParallelForSetup |
