# tt-metal fabric test harness, watcher stack usage and RISC-V add kernels in Dafny

A model of three pieces of tt-metal, with proofs about each.

- **The fabric routing test harness.**
  - `TestPhysicalMeshes` builds one 2D grid of physical chip ids per user mesh of the control plane. It keeps a reverse map from each chip id to its stored coordinates. It answers the queries "other chips on my row" and "other chips on my column".
  - `TestFabricFixture` enumerates the physical chip ids and looks up device handles.
  - `TestContext` sets both up, opens one test device per chip, and validates a declared traffic case (`handle_traffic_config`).
  - The worker-setup records (`TestTrafficConfig`, `TestTrafficSenderConfig`, …) are plain datatypes.
- **The watcher's stack-usage watermark.**
  - Before a kernel runs, the stack below `sp` is filled with `0xBABABABA`.
  - Afterwards the stack is scanned from its base for the first word the kernel overwrote.
  - The deepest use seen so far is kept per RISC-V in the watcher mailbox.
- **Three element-wise add kernels.**
  - The `uint32_t` add over three L1 partitions.
  - The DRAM-paged data-movement variant: read pages, add, write pages.
  - The `int32_t` variant with a signed element count.

Modules follow the source files:

| module | file | models |
|---|---|---|
| `Common` | `common.dfy` | fixed-width integers, `Result`/`Option`, the harness's error kinds |
| `WorkerSetup` | `worker_setup.dfy` | the traffic configuration records |
| `PhysicalMeshes` | `physical_meshes.dfy` | `TestPhysicalMeshes` |
| `FabricFixture` | `fabric_fixture.dfy` | the chip-id part of `TestFabricFixture` |
| `TestContext` | `test_context.dfy` | `TestContext` and the start of the test's `main` |
| `StackUsage` | `stack_usage.dfy` | `dirty_stack_memory`, `record_stack_usage` |
| `EltwiseAdd` | `eltwise_add.dfy` | the `uint32_t` add loop and the RISC-V add kernel |
| `DataMoveKernel` | `data_move_kernel.dfy` | the paged DRAM add kernel |
| `FastTensorAddKernel` | `fast_tensor_add_kernel.dfy` | the `int32_t` add kernel |

Modelling choices:

- **Control plane.** It is a value of function-typed fields: user mesh ids, mesh shape, physical id of a fabric node, and mesh of a physical chip. The harness state is an immutable `Meshes` record. Every method returns the new state.
- **`Wf` invariant.** `Wf` says every grid the object holds was generated from its own control plane. Each generation step preserves it.
- **Device memory.** L1 and the stack are sequences of 32-bit words indexed by word address, that is byte address / 4. Every byte address passed in must be 4-aligned.
- **Integer wrap-around.** `uint32_t` wrap-around is explicit (`AddU32`, `MulU32`, `WrapU32`).
- **Signed overflow.** A signed overflow, which is undefined behaviour in C++, makes the `int32_t` kernel return `None`.
- **Runtime results.** Results of the device runtime (the device map `CreateDevices` returns, the L1 image after DRAM reads) are parameters. NoC transfers are recorded in a log rather than performed.
- **Broken names followed as intended.** The harness source uses a few names it does not declare, and the model follows what they evidently mean:
  - `get_chip_location_from_physical_id` is `get_chip_coords_from_physical_id`.
  - `control_plane_` and `control_plane_ptr_` are one field.
  - `it` in `handle_traffic_config` is `test_device_it`.
  - `emplace_back` on the `test_devices_` map inserts a chip only when absent, as `emplace` does.

## Model

| member | source | states |
|---|---|---|
| FabricFixture.SetupDevices | tests/tt_metal/tt_metal/perf_microbenchmark/routing/tt_fabric_test_common.hpp:41-47 | the id list has one entry per available device, entry k is offset + k (offset 4 on TG, else 0), it is strictly increasing and holds exactly the ids of [offset, offset + n); the device map is untouched |
| FabricFixture.GetDeviceHandle | tests/tt_metal/tt_metal/perf_microbenchmark/routing/tt_fabric_test_common.hpp:59-65 | succeeds exactly for chips in the device map, with that chip's handle; any other chip gives the device-handle-lookup error naming it |
| PhysicalMeshes.SetMeshDimsAndSize | tests/tt_metal/tt_metal/perf_microbenchmark/routing/tt_fabric_test_common.hpp:139-145 | the dims slot holds (rows, cols), the size slot the swapped pair (cols, rows); other meshes, the grids and the reverse maps are unchanged |
| PhysicalMeshes.GenerateRow | tests/tt_metal/tt_metal/perf_microbenchmark/routing/tt_fabric_test_common.hpp:158-165 | row i holds the physical ids of logical chips i * cols .. i * cols + cols - 1 in order, and the reverse map gains their placements with later logical ids overwriting earlier ones |
| PhysicalMeshes.GenerateGrid | tests/tt_metal/tt_metal/perf_microbenchmark/routing/tt_fabric_test_common.hpp:155-166 | the grid is rows x cols with cell (i, j) the physical id of logical chip i * cols + j; the reverse map keeps its old keys and places every id of the grid at its last cell, stored as (j, i) |
| PhysicalMeshes.GeneratePhysicalChipView | tests/tt_metal/tt_metal/perf_microbenchmark/routing/tt_fabric_test_common.hpp:147-167 | preserves the invariant, adds the mesh to the known meshes and leaves every other mesh's grid, dims and reverse map unchanged |
| PhysicalMeshes.SetupPhysicalMeshes | tests/tt_metal/tt_metal/perf_microbenchmark/routing/tt_fabric_test_common.hpp:183-190 | the result satisfies the invariant and knows exactly the control plane's user meshes |
| PhysicalMeshes.GetChipCoordsFromPhysicalId | tests/tt_metal/tt_metal/perf_microbenchmark/routing/tt_fabric_test_common.hpp:169-174 | after `validate_mesh_id` and `validate_physical_chip_id` (lines 124-137): unknown mesh gives the mesh error, unknown chip the chip error, checked in that order; it succeeds exactly when both are known, with the stored pair |
| PhysicalMeshes.GetChipCoordsFromLogicalId | tests/tt_metal/tt_metal/perf_microbenchmark/routing/tt_fabric_test_common.hpp:176-181 | the control plane's physical id for the logical id is looked up with the same checks: unknown mesh, then unknown chip, otherwise the stored pair; `LogicalCoordsRoundTrip` proves that on a generated mesh every logical id inside the shape is found and leads back to itself when ids are distinct |
| PhysicalMeshes.RemoveAll | tests/tt_metal/tt_metal/perf_microbenchmark/routing/tt_fabric_test_common.hpp:211 | erase-remove: the element no longer occurs, every other element keeps its multiplicity, and a list without it is returned unchanged |
| PhysicalMeshes.RemoveAllAppend | tests/tt_metal/tt_metal/perf_microbenchmark/routing/tt_fabric_test_common.hpp:211 | erase-remove keeps the order of what remains: removing from a concatenation is the concatenation of the removals |
| PhysicalMeshes.OtherChipsOnSameRow | tests/tt_metal/tt_metal/perf_microbenchmark/routing/tt_fabric_test_common.hpp:202-214 | lookup errors propagate unchanged; otherwise the result is grid row number chip_row (the first stored coordinate) without the chip |
| PhysicalMeshes.ColumnOf | tests/tt_metal/tt_metal/perf_microbenchmark/routing/tt_fabric_test_common.hpp:224-227 | the column has one entry per recorded row, entry i being the cell of row i in that column |
| PhysicalMeshes.OtherChipsOnSameCol | tests/tt_metal/tt_metal/perf_microbenchmark/routing/tt_fabric_test_common.hpp:216-231 | lookup errors propagate unchanged; otherwise the result is grid column number chip_col (the second stored coordinate) over the recorded rows, without the chip, and no longer than the row count |
| PhysicalMeshes.IntendedOtherChipsOnSameRow | tests/tt_metal/tt_metal/perf_microbenchmark/routing/tt_fabric_test_common.hpp:209-211 | corrected query (row numbered by the chip's row index): lookup errors propagate, otherwise a list without the chip |
| PhysicalMeshes.IntendedOtherChipsOnSameCol | tests/tt_metal/tt_metal/perf_microbenchmark/routing/tt_fabric_test_common.hpp:223-228 | corrected query (column numbered by the chip's column index): lookup errors propagate, otherwise a list without the chip |
| PhysicalMeshes.CoordsLandOnTheirChip | tests/tt_metal/tt_metal/perf_microbenchmark/routing/tt_fabric_test_common.hpp:162-163 | a successful lookup returns a pair (c, r) inside the mesh whose grid cell [r][c] holds the chip |
| PhysicalMeshes.PlacedChipIsFound | tests/tt_metal/tt_metal/perf_microbenchmark/routing/tt_fabric_test_common.hpp:157-163 | every chip in a generated grid is found by the coordinate lookup |
| PhysicalMeshes.CoordsFoundIffPlaced | tests/tt_metal/tt_metal/perf_microbenchmark/routing/tt_fabric_test_common.hpp:169-174 | the lookup succeeds exactly for the chips that occur in the mesh's grid |
| PhysicalMeshes.CoordsOfDistinctMesh | tests/tt_metal/tt_metal/perf_microbenchmark/routing/tt_fabric_test_common.hpp:163 | with distinct physical ids, the chip in row i, column j is looked up as the pair (j, i), column first |
| PhysicalMeshes.DistinctMeshCoordsCount | tests/tt_metal/tt_metal/perf_microbenchmark/routing/tt_fabric_test_common.hpp:157-165 | with distinct physical ids the reverse map has exactly rows * cols entries |
| PhysicalMeshes.LogicalCoordsRoundTrip | tests/tt_metal/tt_metal/perf_microbenchmark/routing/tt_fabric_test_common.hpp:176-181 | a logical id's lookup succeeds and leads back to the last logical id with the same physical id, which is the id itself when ids are distinct |
| PhysicalMeshes.ChipInRowIffItsRow | tests/tt_metal/tt_metal/perf_microbenchmark/routing/tt_fabric_test_common.hpp:157-162 | with distinct ids, grid row r contains the chip placed at (i, j) exactly when r == i |
| PhysicalMeshes.ChipInColumnIffItsColumn | tests/tt_metal/tt_metal/perf_microbenchmark/routing/tt_fabric_test_common.hpp:224-227 | with distinct ids, grid column c contains the chip placed at (i, j) exactly when c == j |
| PhysicalMeshes.SameRowQueryReadsRowNumberedByColumn | tests/tt_metal/tt_metal/perf_microbenchmark/routing/tt_fabric_test_common.hpp:209-211 | for the chip at (i, j) the same-row query returns grid row j without the chip, and that row holds the chip only when i == j |
| PhysicalMeshes.SameColQueryReadsColumnNumberedByRow | tests/tt_metal/tt_metal/perf_microbenchmark/routing/tt_fabric_test_common.hpp:223-228 | for the chip at (i, j) the same-column query returns grid column i without the chip, and that column holds the chip only when i == j |
| PhysicalMeshes.RowQueryInBoundsIffColumnBelowRows | tests/tt_metal/tt_metal/perf_microbenchmark/routing/tt_fabric_test_common.hpp:209-210 | the as-written same-row query for the chip at (i, j) indexes an existing grid row exactly when j < rows; on a mesh with more columns than rows every chip of a column numbered rows or above reads past the last row |
| PhysicalMeshes.ColQueryInBoundsIffRowBelowCols | tests/tt_metal/tt_metal/perf_microbenchmark/routing/tt_fabric_test_common.hpp:223-226 | the as-written same-column query for the chip at (i, j) stays inside every row exactly when i < cols; on a mesh with more rows than columns every chip of a row numbered cols or above reads past the end of the rows |
| PhysicalMeshes.IntendedSameRowQueryIsRowPeers | tests/tt_metal/tt_metal/perf_microbenchmark/routing/tt_fabric_test_common.hpp:202-214 | the corrected query returns the chip's own row with just its cell removed: cols - 1 chips in column order |
| PhysicalMeshes.IntendedSameColQueryIsColumnPeers | tests/tt_metal/tt_metal/perf_microbenchmark/routing/tt_fabric_test_common.hpp:216-231 | the corrected query returns the chip's own column with just its cell removed: rows - 1 chips in row order |
| PhysicalMeshes.ExampleLookup | tests/tt_metal/tt_metal/perf_microbenchmark/routing/tt_fabric_test_common.hpp:163 | on a 2 x 2 mesh with ids 10..13, chip 11 (row 0, column 1) is stored as (1, 0) |
| PhysicalMeshes.SameRowQueryMissesOffDiagonal | tests/tt_metal/tt_metal/perf_microbenchmark/routing/tt_fabric_test_common.hpp:209-211 | on that mesh the same-row query for chip 11 returns [12, 13], the other row, where the corrected query returns [10] |
| PhysicalMeshes.SameColQueryMissesOffDiagonal | tests/tt_metal/tt_metal/perf_microbenchmark/routing/tt_fabric_test_common.hpp:223-228 | on that mesh the same-column query for chip 11 returns [10, 12], the other column, where the corrected query returns [13] |
| TestContext.Init | tests/tt_metal/tt_metal/perf_microbenchmark/routing/test_tt_fabric.cpp:32-37 | meshes are generated for exactly the user meshes and satisfy the invariant; the available ids are the fixture's ids, offset + k for k < n; no device is open |
| TestContext.OpenDevices | tests/tt_metal/tt_metal/perf_microbenchmark/routing/test_tt_fabric.cpp:39-45 | succeeds exactly when every available id has a handle; otherwise fails with the error of the first id without one; on success existing test devices are kept and each new id gets a test device with its handle |
| TestContext.HandleTrafficConfig | tests/tt_metal/tt_metal/perf_microbenchmark/routing/test_tt_fabric.cpp:47-74 | unknown source, neither destinations nor hops, both given: the three errors in that order; succeeds exactly when the source is known and exactly one is given, with the source's test device, the given destinations (none for hops), an empty hop map and the data config copied into the sender |
| TestContext.InitThenOpen | tests/tt_metal/tt_metal/perf_microbenchmark/routing/test_tt_fabric.cpp:107-110 | setup succeeds exactly when the runtime opened every id of [offset, offset + n); then exactly those ids have test devices, each with the runtime's handle |
| StackUsage.DirtyStackMemory | tt_metal/hw/inc/debug/stack_usage.h:88-97 | every word from the stack base up to below sp holds the sentinel; every other word is unchanged |
| StackUsage.ScanEnd | tt_metal/hw/inc/debug/stack_usage.h:103-107 | the scan stops at a word at or above its start that differs from the sentinel, with only sentinels before it |
| StackUsage.ScanEndIsFirst | tt_metal/hw/inc/debug/stack_usage.h:106-107 | a non-sentinel word preceded only by sentinels is where the scan stops |
| StackUsage.UsageBytesFacts | tt_metal/hw/inc/debug/stack_usage.h:108 | the usage in bytes is a multiple of 4, and exactly 4 * (untouched words subtracted from the stack size) when the scan stopped inside the stack |
| StackUsage.RecordInMailbox | tt_metal/hw/inc/debug/stack_usage.h:111-118 | only slot idx changes; an empty slot takes the usage, a filled one the maximum; when it changes it takes the launch's kernel id; it is unchanged exactly when the slot was filled with a usage at least as deep, or already held this usage and id |
| StackUsage.RecordStackUsage | tt_metal/hw/inc/debug/stack_usage.h:99-119 | the usage is 4 * (stack top - first overwritten word) when the scan stops inside the stack, always a multiple of 4, within the stack size unless the scan ran past the top, and the mailbox is updated with it |
| StackUsage.DirtyThenRecord | tt_metal/hw/inc/debug/stack_usage.h:88-119 | dirtying below sp and recording right after measures exactly 4 * (top - sp) bytes |
| StackUsage.RecordAllIsMax | tt_metal/hw/inc/debug/stack_usage.h:111-118 | after runs with a non-zero kernel id the slot is filled and holds the maximum of the usages (and of the old watermark if the slot was filled); a filled slot's watermark never decreases |
| EltwiseAdd.AddWordsU32 | tt_metal/programming_examples/rpsingh_examples/add_2_integers_in_riscv/kernels/add_2_integers_in_riscv_kernel.cpp:26-27 | only the n output words change; when no input is overwritten before it is read, output word i is the wrapping sum of input words i |
| EltwiseAdd.HostLayoutDisjoint | tt_metal/programming_examples/rpsingh_examples/add_2_integers_in_riscv/add_2_integers_in_riscv_rpsingh.cpp:45-56 | the host's back-to-back partitions are aligned, adjacent and disjoint, so the add loop reads only original inputs |
| EltwiseAdd.Add2IntegersKernel | tt_metal/programming_examples/rpsingh_examples/add_2_integers_in_riscv/kernels/add_2_integers_in_riscv_kernel.cpp:14-29 | with arguments (count, base0, base1, base2): only partition 2 changes, it receives the wrapping sums when the inputs are read before being overwritten, and a zero count changes nothing |
| EltwiseAdd.Add2IntegersOnTriscs | tt_metal/programming_examples/rpsingh_examples/add_2_integers_in_riscv/add_2_integers_in_riscv_rpsingh.cpp:57-66 | the compute kernel's loop runs once per TRISC; with inputs disjoint from the output, the three passes leave every sum in partition 2 and change nothing else, as one pass does |
| EltwiseAdd.Add2IntegersOnHostLayout | tt_metal/programming_examples/rpsingh_examples/add_2_integers_in_riscv/add_2_integers_in_riscv_rpsingh.cpp:45-56 | launched on the host's layout, partition 2 holds every sum and both input partitions are unchanged |
| DataMoveKernel.ReadDramPages | tt_metal/programming_examples/rpsingh_examples/add_2_integers_in_riscv/kernels/data_move_kernel.cpp:8-19 | one read per page, each from bank page_count % 12 at the given DRAM address into page i of the L1 region |
| DataMoveKernel.WriteDramPages | tt_metal/programming_examples/rpsingh_examples/add_2_integers_in_riscv/kernels/data_move_kernel.cpp:21-30 | one write per page, each from page i of the L1 region to bank page_count % 12 at the given DRAM address |
| DataMoveKernel.ReadPlanSingleBankAndAddress | tt_metal/programming_examples/rpsingh_examples/add_2_integers_in_riscv/kernels/data_move_kernel.cpp:13-16 | every read of one call is from the same valid bank (below 12) and the same DRAM address, with the page size |
| DataMoveKernel.PagesTile | tt_metal/programming_examples/rpsingh_examples/add_2_integers_in_riscv/kernels/data_move_kernel.cpp:11-16 | without wrap-around page i starts at l1 + i * page_size, pages are in order and disjoint, and together cover the region byte for byte |
| DataMoveKernel.PageSizeCoversRegion | tt_metal/programming_examples/rpsingh_examples/add_2_integers_in_riscv/kernels/data_move_kernel.cpp:50 | page_count pages of the truncated page size cover at most the region, and all of it exactly when page_count divides it |
| DataMoveKernel.LayoutContiguous | tt_metal/programming_examples/rpsingh_examples/add_2_integers_in_riscv/kernels/data_move_kernel.cpp:45-50 | when the three regions fit, they are back to back, 4 * input_size bytes each, and the pages fit in one region |
| DataMoveKernel.ReadPlanInside | tt_metal/programming_examples/rpsingh_examples/add_2_integers_in_riscv/kernels/data_move_kernel.cpp:16 | every read lands inside its L1 region when the pages fit |
| DataMoveKernel.WritePlanInside | tt_metal/programming_examples/rpsingh_examples/add_2_integers_in_riscv/kernels/data_move_kernel.cpp:27 | every write is taken from inside its L1 region when the pages fit |
| DataMoveKernel.KernelMain | tt_metal/programming_examples/rpsingh_examples/add_2_integers_in_riscv/kernels/data_move_kernel.cpp:32-69 | the log is the reads of input 0, the reads of input 1, then the writes of the output, each touching only its own region; output word i is the wrapping sum of input words i and nothing outside the output region changes |
| DataMoveKernel.ReadPlanRefetchesOneLocation | tt_metal/programming_examples/rpsingh_examples/add_2_integers_in_riscv/kernels/data_move_kernel.cpp:13-16 | with two or more pages, pages 0 and 1 are fetched from the same bank and DRAM address into different L1 pages |
| DataMoveKernel.HostExampleReadsOneLocation | tt_metal/programming_examples/rpsingh_examples/add_2_integers_in_riscv/add_2_integers_in_riscv_via_DRAM_rpsingh.cpp:126-133 | with the host's four pages of six bytes, at any L1 base whose 24 bytes do not wrap around, every read goes to bank 4 at the buffer's base address, into distinct L1 pages |
| DataMoveKernel.IntendedReadDramPages | tt_metal/programming_examples/rpsingh_examples/add_2_integers_in_riscv/kernels/data_move_kernel.cpp:8-19 | corrected reads for the interleaved buffer the host allocates: page i from bank i % 12 at (i / 12) pages above the base, into page i of the L1 region |
| DataMoveKernel.IntendedWriteDramPages | tt_metal/programming_examples/rpsingh_examples/add_2_integers_in_riscv/kernels/data_move_kernel.cpp:21-30 | corrected writes for the interleaved output buffer: page i of the L1 region to bank i % 12 at (i / 12) pages above the base |
| DataMoveKernel.InterleavedLocationsDistinct | tt_metal/programming_examples/rpsingh_examples/add_2_integers_in_riscv/add_2_integers_in_riscv_via_DRAM_rpsingh.cpp:57-62 | distinct pages of an interleaved buffer live at distinct (bank, address) locations |
| DataMoveKernel.InterleavedPlanFetchesEachPageOnce | tt_metal/programming_examples/rpsingh_examples/add_2_integers_in_riscv/add_2_integers_in_riscv_via_DRAM_rpsingh.cpp:57-66 | the corrected reads of one call fetch pairwise different DRAM locations: every page once |
| DataMoveKernel.IntendedKernelMain | tt_metal/programming_examples/rpsingh_examples/add_2_integers_in_riscv/kernels/data_move_kernel.cpp:32-69 | the kernel over the corrected transfers: log of interleaved reads of both inputs then interleaved writes of the output, and the same sums in L1 |
| FastTensorAddKernel.ElementCount | ttnn/cpp/ttnn/operations/eltwise/binary/device/kernels/compute/fast_tensor_add_kernel.cpp:23-24 | the loop runs the argument's count when it is a non-negative int32_t, and not at all when the argument reads as negative |
| FastTensorAddKernel.FastTensorAdd | ttnn/cpp/ttnn/operations/eltwise/binary/device/kernels/compute/fast_tensor_add_kernel.cpp:13-26 | a zero count changes nothing; only destination words change; when the sources are read before being overwritten, the kernel is defined exactly when no sum overflows int32_t, and then destination i is the sum of source words i |
| FastTensorAddKernel.FastTensorAddOnTriscs | ttnn/cpp/ttnn/operations/eltwise/binary/device/fast_tensor_add_factory.cpp:48-55 | the compute kernel's loop runs once per TRISC; with both sources disjoint from the destination, the three passes are defined exactly when no sum overflows int32_t, and then leave the sums and change nothing else |
| FastTensorAddKernel.SignedSumMatchesUnsignedSum | ttnn/cpp/ttnn/operations/eltwise/binary/device/kernels/compute/fast_tensor_add_kernel.cpp:25 | a non-overflowing int32_t sum has the bit pattern of the wrapping uint32_t sum, the value the uint32_t kernels store |
| FastTensorAddKernel.OverflowedSumDiffers | ttnn/cpp/ttnn/operations/eltwise/binary/device/kernels/compute/fast_tensor_add_kernel.cpp:25 | once the int32_t sum overflows, the wrapping uint32_t sum read back as int32_t is a different number |

## Left out

- Device runtime calls are not modelled. These are `get_arch_from_string` (the fixture's `arch_` field, set in `setup_devices`), the cluster-type query that picks the TG offset (a parameter), `InitializeFabricConfig`, `CreateDevices`, `CloseDevices`, `run_program_non_blocking`, `wait_for_program_done` and the slow-dispatch environment switch. The device map `CreateDevices` returns is the parameter `created` of `OpenDevices`.
- `close_devices` of the fixture and of `TestContext` is left out: it only calls the runtime. The fixture's device map is not cleared there either.
- `print_meshes`, `parse_config`, `setup_fabric` and all logging and `DPRINT` output are left out: they are output only or empty.
- The control plane is a pure value. `get_fabric_node_id_from_physical_chip_id` contributes only its mesh id, through `MeshOf`, because that is all the harness reads.
- The TODOs in `handle_traffic_config` are not modelled: hop counts to destinations, destinations from hops, and sender and receiver allocation. The source does not do them.
- `TestTrafficSenderConfig` is default-initialised in the source, so its scalar fields are indeterminate. They are taken from the parameter `uninit`.
- `chip_id_t` is an unbounded integer. The `chip_id_t` logical-id counter in `generate_physical_chip_view` is not given a 32-bit width. Mesh dimensions are `uint32_t`.
- `PhysicalMeshes.GeneratePhysicalChipView` requires the class invariant `Wf`. In the source, `resize` over an earlier grid of another shape keeps stale cells, and when the earlier rows are shorter than the new column count, the `[i][j]` writes land past their ends, which is undefined behaviour. Every state built by `setup_physical_meshes` satisfies the invariant.
- `PhysicalMeshes.OtherChipsOnSameRow` and `PhysicalMeshes.OtherChipsOnSameCol` require the grid indices they read to exist (`RowQueryInBounds`, `ColQueryInBounds`). The source reads out of bounds there, which is undefined behaviour. Well-formed meshes reach that case whenever they are not square, because of the swapped coordinates: `RowQueryInBoundsIffColumnBelowRows` and `ColQueryInBoundsIffRowBelowCols` say exactly which chips.
- Stack geometry and runtime values are parameters: `get_stack_size`, `get_stack_top`, `debug_get_which_riscv`, the mailbox addresses, the dispatch class and the kernel id read from the launch message. `sp`, read by inline assembly, is a parameter too.
- The mailbox fields `max_usage` and `watcher_kernel_id` are taken to be 32-bit. dev_msgs.h is not part of this model.
- `StackUsage.DirtyStackMemory` requires `sp` at or above the stack base. Otherwise `while (ptr != base)` never ends.
- `StackUsage.RecordStackUsage` requires a non-sentinel word at or above the base. The source relies on one existing: it has no bound check.
- Memory is word-addressed. Byte addresses must be 4-aligned, and L1 holds at most 2^30 words, so no computed byte address wraps around.
- `EltwiseAdd.AddWordsU32`: when an input partition overlaps the output ahead of the loop, only the frame (which words may change) is stated, not the values written.
- `EltwiseAdd.Add2IntegersKernel`: the same as `EltwiseAdd.AddWordsU32` for overlapping partitions. It also models a single pass of `MAIN`. Both add kernels are compute kernels (`ComputeConfig`), so `MAIN` runs on the three TRISCs at once. For an overlapping layout such as in-place, a pass that reads words another pass already wrote computes other values. The sums it promises for such layouts therefore hold for one pass, not on hardware. `EltwiseAdd.Add2IntegersOnTriscs` gives the three-pass result for disjoint layouts, run one after another. The interleaving of the TRISCs is not modelled.
- `FastTensorAddKernel.FastTensorAdd`:
  - When a source overlaps the destination ahead of the loop, only the frame is stated.
  - After a signed overflow (undefined behaviour) nothing is promised.
  - It models a single pass of `MAIN`, which runs on the three TRISCs at once. For overlapping layouts, the sums and the overflow condition hold for one pass only, not on hardware. `FastTensorAddKernel.FastTensorAddOnTriscs` covers three passes for disjoint layouts, as for the `uint32_t` kernel.
- NoC transfers are not performed against a model of DRAM. They are logged as (bank, address, L1 address, size). The L1 image after both reads is a parameter of `DataMoveKernel.KernelMain`, so the model does not relate L1 contents to DRAM contents. The barriers and `get_noc_addr_from_bank_id` are not modelled.
- `DataMoveKernel.KernelMain` requires `page_count > 0`, because the source divides by it, and requires the three regions to fit in L1.
- The corrected interleaved addressing strides by the page size. The allocator's alignment of the page stride within a bank is not modelled.
- The fast-tensor-add device operation, program factory and Python bindings are left out: they build the arguments and launch the kernel but do not compute.

## Findings

| source | as written | input that shows it | evidently intended | confidence | as-written member | corrected member |
|---|---|---|---|---|---|---|
| tests/tt_metal/tt_metal/perf_microbenchmark/routing/tt_fabric_test_common.hpp:209-210 | coordinates are stored as (column, row) at line 163 but unpacked as `[chip_row, chip_col]`, so the same-row query reads the grid row numbered by the chip's column; on a mesh with more columns than rows, chips in a column numbered rows or above make it index past the last row (undefined behaviour) | 2 x 2 mesh with physical ids 10, 11 / 12, 13: the query for chip 11 returns [12, 13]; on a 2 x 4 mesh, the chip at row 0, column 3 reads row 3 of 2 | the other chips of the chip's own row, here [10] | high, not executed | PhysicalMeshes.SameRowQueryMissesOffDiagonal | PhysicalMeshes.IntendedSameRowQueryIsRowPeers |
| tests/tt_metal/tt_metal/perf_microbenchmark/routing/tt_fabric_test_common.hpp:223-226 | by the same swap, the same-column query reads the grid column numbered by the chip's row; on a mesh with more rows than columns, chips in a row numbered cols or above make it index past the end of every row | the same mesh: the query for chip 11 returns [10, 12]; on a 4 x 2 mesh, the chip at row 3, column 0 reads column 3 of 2 | the other chips of the chip's own column, here [13] | high, not executed | PhysicalMeshes.SameColQueryMissesOffDiagonal | PhysicalMeshes.IntendedSameColQueryIsColumnPeers |
| tt_metal/programming_examples/rpsingh_examples/add_2_integers_in_riscv/kernels/data_move_kernel.cpp:13-16 | every page of a call uses bank `page_count % 12` and the unchanged DRAM address, so every page fetches (and, at lines 25-27, stores) the same DRAM location | the host's call with four pages of six bytes: all four reads of input 0 go to bank 4 at the buffer's base | page i of the interleaved buffer from bank i % 12 at (i / 12) pages above the base, each page once | medium, not executed | DataMoveKernel.HostExampleReadsOneLocation | DataMoveKernel.InterleavedPlanFetchesEachPageOnce |
