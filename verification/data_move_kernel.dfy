/** The data-movement variant of the add kernel: both inputs are read page by
    page from DRAM into three contiguous L1 regions, added word by word, and
    the sums written back to DRAM page by page.

    The NoC transfers are not executed against a DRAM model: each one is
    recorded in a log as (bank, DRAM address, L1 address, size). The add step
    runs on the L1 image as it stands after both reads completed, which is a
    parameter. */
module DataMoveKernel {
  import opened Common
  import opened EltwiseAdd

  /** Number of DRAM banks of a Wormhole chip. */
  const DRAM_BANK_COUNT: u32 := 12

  datatype NocTransfer =
    | NocRead(bankId: u32, dramAddress: u32, l1Address: u32, size: u32)
    | NocWrite(l1Address: u32, bankId: u32, dramAddress: u32, size: u32)

  /** Byte address of page i of a region at `l1Addr`: `l1_addr + i *
      page_size` in `uint32_t` arithmetic. */
  function PageAddress(l1Addr: u32, i: u32, pageSize: u32): u32 {
    AddU32(l1Addr, MulU32(i, pageSize))
  }

  /** `log` is what `read_dram_pages` issues: one read per page, every one
      from bank `page_count % 12` at the same DRAM address, the i-th into
      page i of the L1 region. */
  ghost predicate IsReadPlan(log: seq<NocTransfer>, dramAddress: u32, l1Addr: u32, pageCount: u32, pageSize: u32) {
    && |log| == pageCount
    && forall i :: 0 <= i < |log| ==>
         log[i] == NocRead(pageCount % DRAM_BANK_COUNT, dramAddress, PageAddress(l1Addr, i, pageSize), pageSize)
  }

  /** `log` is what `write_dram_pages` issues, symmetrically. */
  ghost predicate IsWritePlan(log: seq<NocTransfer>, dramAddress: u32, l1Addr: u32, pageCount: u32, pageSize: u32) {
    && |log| == pageCount
    && forall i :: 0 <= i < |log| ==>
         log[i] == NocWrite(PageAddress(l1Addr, i, pageSize), pageCount % DRAM_BANK_COUNT, dramAddress, pageSize)
  }

  /** `read_dram_pages`. */
  method ReadDramPages(srcDramAddress: u32, l1Addr: u32, pageCount: u32, pageSize: u32) returns (log: seq<NocTransfer>)
    ensures IsReadPlan(log, srcDramAddress, l1Addr, pageCount, pageSize)
  {
    log := [];
    var i: u32 := 0;
    while i < pageCount
      invariant i <= pageCount && |log| == i
      invariant forall k :: 0 <= k < i ==>
                  log[k] == NocRead(pageCount % DRAM_BANK_COUNT, srcDramAddress, PageAddress(l1Addr, k, pageSize), pageSize)
    {
      var bankId := pageCount % DRAM_BANK_COUNT;
      log := log + [NocRead(bankId, srcDramAddress, AddU32(l1Addr, MulU32(i, pageSize)), pageSize)];
      i := i + 1;
    }
  }

  /** `write_dram_pages`. */
  method WriteDramPages(dstDramAddress: u32, l1Addr: u32, pageCount: u32, pageSize: u32) returns (log: seq<NocTransfer>)
    ensures IsWritePlan(log, dstDramAddress, l1Addr, pageCount, pageSize)
  {
    log := [];
    var i: u32 := 0;
    while i < pageCount
      invariant i <= pageCount && |log| == i
      invariant forall k :: 0 <= k < i ==>
                  log[k] == NocWrite(PageAddress(l1Addr, k, pageSize), pageCount % DRAM_BANK_COUNT, dstDramAddress, pageSize)
    {
      var bankId := pageCount % DRAM_BANK_COUNT;
      log := log + [NocWrite(AddU32(l1Addr, MulU32(i, pageSize)), bankId, dstDramAddress, pageSize)];
      i := i + 1;
    }
  }

  /** Every transfer of one call uses the same bank, a valid one, and the
      same DRAM address: no per-page offset is added. */
  lemma ReadPlanSingleBankAndAddress(log: seq<NocTransfer>, dramAddress: u32, l1Addr: u32, pageCount: u32, pageSize: u32)
    requires IsReadPlan(log, dramAddress, l1Addr, pageCount, pageSize)
    ensures forall t :: t in log ==>
              && t.NocRead?
              && t.bankId < DRAM_BANK_COUNT
              && t.bankId == pageCount % DRAM_BANK_COUNT
              && t.dramAddress == dramAddress
              && t.size == pageSize
  {
    forall t | t in log
      ensures t.NocRead? && t.bankId == pageCount % DRAM_BANK_COUNT && t.dramAddress == dramAddress
    {
      var i :| 0 <= i < |log| && log[i] == t;
    }
  }

  // ---------------------------------------------------------------------
  // Page arithmetic
  // ---------------------------------------------------------------------

  /** Some page of the region starts at or below byte b and ends above it. */
  ghost predicate Covered(l1Addr: u32, pageCount: u32, pageSize: u32, b: int) {
    exists i :: 0 <= i < pageCount && PageAddress(l1Addr, i, pageSize) <= b < PageAddress(l1Addr, i, pageSize) + pageSize
  }

  /** Without wrap-around page i starts at l1_addr + i * page_size. */
  lemma PageAddressExact(l1Addr: u32, pageCount: u32, pageSize: u32, i: u32)
    requires l1Addr + pageCount * pageSize <= U32_MODULUS && i < pageCount
    ensures PageAddress(l1Addr, i, pageSize) as int == l1Addr + i * pageSize
    ensures PageAddress(l1Addr, i, pageSize) + pageSize <= l1Addr + pageCount * pageSize
  {
    var offset := i * pageSize;
    MulMonotone(i + 1, pageCount, pageSize);
    assert (i + 1) * pageSize == offset + pageSize;
    assert MulU32(i, pageSize) == offset;
    assert AddU32(l1Addr, offset) == l1Addr + offset;
  }

  /** The pages of a region that does not wrap tile
      [l1_addr, l1_addr + page_count * page_size): in address order, without
      overlap, and with every byte of the range inside some page. */
  lemma PagesTile(l1Addr: u32, pageCount: u32, pageSize: u32)
    requires l1Addr + pageCount * pageSize <= U32_MODULUS
    ensures forall i :: 0 <= i < pageCount ==> PageAddress(l1Addr, i, pageSize) as int == l1Addr + i * pageSize
    ensures forall i, j :: 0 <= i < j < pageCount ==>
              PageAddress(l1Addr, i, pageSize) + pageSize <= PageAddress(l1Addr, j, pageSize)
    ensures forall b :: l1Addr <= b < l1Addr + pageCount * pageSize ==> Covered(l1Addr, pageCount, pageSize, b)
  {
    forall i | 0 <= i < pageCount
      ensures PageAddress(l1Addr, i, pageSize) as int == l1Addr + i * pageSize
    {
      PageAddressExact(l1Addr, pageCount, pageSize, i);
    }
    forall i, j | 0 <= i < j < pageCount
      ensures PageAddress(l1Addr, i, pageSize) + pageSize <= PageAddress(l1Addr, j, pageSize)
    {
      PageAddressExact(l1Addr, pageCount, pageSize, i);
      PageAddressExact(l1Addr, pageCount, pageSize, j);
      MulMonotone(i + 1, j, pageSize);
      assert (i + 1) * pageSize == i * pageSize + pageSize;
    }
    forall b | l1Addr <= b < l1Addr + pageCount * pageSize
      ensures Covered(l1Addr, pageCount, pageSize, b)
    {
      PageCovering(l1Addr, pageCount, pageSize, b);
    }
  }

  /** Products with a common factor compare like the other factors. */
  lemma MulCancel(a: nat, b: nat, c: nat)
    ensures a * c < b * c ==> a < b
  {
    if b <= a {
      MulMonotone(b, a, c);
    }
  }

  lemma DivBounds(x: nat, d: nat)
    requires d > 0
    ensures (x / d) * d <= x < (x / d) * d + d
  {
    assert x == (x / d) * d + x % d;
  }

  /** The page holding byte b is page (b - l1_addr) / page_size. */
  lemma PageCovering(l1Addr: u32, pageCount: u32, pageSize: u32, b: int)
    requires l1Addr + pageCount * pageSize <= U32_MODULUS
    requires l1Addr <= b < l1Addr + pageCount * pageSize
    ensures Covered(l1Addr, pageCount, pageSize, b)
  {
    var off := b - l1Addr;
    var i := off / pageSize;
    DivBounds(off, pageSize);
    MulCancel(i, pageCount, pageSize);
    PageAddressExact(l1Addr, pageCount, pageSize, i);
  }

  /** `page_size = input_size_in_bytes / page_count` (page_count must not be
      0): the pages cover at most the region, exactly when page_count divides
      it. */
  lemma PageSizeCoversRegion(regionBytes: u32, pageCount: u32)
    requires pageCount > 0
    ensures pageCount * (regionBytes / pageCount) <= regionBytes
    ensures pageCount * (regionBytes / pageCount) == regionBytes <==> regionBytes % pageCount == 0
  {
    assert regionBytes == pageCount * (regionBytes / pageCount) + regionBytes % pageCount;
  }

  /** Every transfer of `log` touches only L1 bytes of [lo, lo + bytes). */
  ghost predicate StaysInside(log: seq<NocTransfer>, lo: int, bytes: int) {
    forall t :: t in log ==> lo <= t.l1Address && t.l1Address + t.size <= lo + bytes
  }

  lemma PageInside(l1Addr: u32, pageCount: u32, pageSize: u32, bytes: nat, i: u32)
    requires pageCount * pageSize <= bytes && l1Addr + bytes <= U32_MODULUS && i < pageCount
    ensures l1Addr <= PageAddress(l1Addr, i, pageSize)
    ensures PageAddress(l1Addr, i, pageSize) + pageSize <= l1Addr + bytes
  {
    PageAddressExact(l1Addr, pageCount, pageSize, i);
  }

  /** A region of page_count pages of page_size bytes that fits in `bytes`
      keeps every read inside it. */
  lemma ReadPlanInside(log: seq<NocTransfer>, dramAddress: u32, l1Addr: u32, pageCount: u32, pageSize: u32, bytes: nat)
    requires IsReadPlan(log, dramAddress, l1Addr, pageCount, pageSize)
    requires pageCount * pageSize <= bytes && l1Addr + bytes <= U32_MODULUS
    ensures StaysInside(log, l1Addr, bytes)
  {
    forall t | t in log
      ensures l1Addr <= t.l1Address && t.l1Address + t.size <= l1Addr + bytes
    {
      var i :| 0 <= i < |log| && log[i] == t;
      PageInside(l1Addr, pageCount, pageSize, bytes, i);
    }
  }

  /** The same for the writes. */
  lemma WritePlanInside(log: seq<NocTransfer>, dramAddress: u32, l1Addr: u32, pageCount: u32, pageSize: u32, bytes: nat)
    requires IsWritePlan(log, dramAddress, l1Addr, pageCount, pageSize)
    requires pageCount * pageSize <= bytes && l1Addr + bytes <= U32_MODULUS
    ensures StaysInside(log, l1Addr, bytes)
  {
    forall t | t in log
      ensures l1Addr <= t.l1Address && t.l1Address + t.size <= l1Addr + bytes
    {
      var i :| 0 <= i < |log| && log[i] == t;
      PageInside(l1Addr, pageCount, pageSize, bytes, i);
    }
  }

  // ---------------------------------------------------------------------
  // kernel_main
  // ---------------------------------------------------------------------

  /** The L1 layout `kernel_main` derives from its compile-time arguments. */
  datatype Layout = Layout(input0: u32, input1: u32, output: u32, pageSize: u32)

  function KernelLayout(pageCount: u32, l1MemAddr: u32, inputSize: u32): Layout
    requires pageCount > 0
  {
    var inputSizeInBytes := MulU32(inputSize, 4);
    var input1 := AddU32(l1MemAddr, inputSizeInBytes);
    Layout(l1MemAddr, input1, AddU32(input1, inputSizeInBytes), inputSizeInBytes / pageCount)
  }

  /** When the three regions fit below 4 GiB, they are contiguous, each
      4 * input_size bytes, hence pairwise disjoint, and the pages of each
      stay inside it. */
  lemma LayoutContiguous(pageCount: u32, l1MemAddr: u32, inputSize: u32)
    requires pageCount > 0
    requires l1MemAddr + 12 * inputSize <= U32_MODULUS
    ensures var layout := KernelLayout(pageCount, l1MemAddr, inputSize);
            && layout.input0 == l1MemAddr
            && layout.input1 as int == l1MemAddr + 4 * inputSize
            && layout.output as int == l1MemAddr + 8 * inputSize
            && pageCount * layout.pageSize <= 4 * inputSize
  {
    var bytes := 4 * inputSize;
    assert MulU32(inputSize, 4) == bytes;
    assert AddU32(l1MemAddr, bytes) == l1MemAddr + bytes;
    assert AddU32(l1MemAddr + bytes, bytes) == l1MemAddr + 2 * bytes;
    PageSizeCoversRegion(bytes, pageCount);
  }

  /** `kernel_main`. Compile-time arguments, in order: page count, L1 base
      address, element count, and the DRAM addresses of input 0, input 1 and
      the output. The log holds the reads of input 0, then those of input 1,
      then the writes of the output. */
  method KernelMain(compileArgs: seq<u32>, l1AfterReads: seq<u32>)
    returns (log: seq<NocTransfer>, l1': seq<u32>)
    requires |compileArgs| >= 6 && compileArgs[0] > 0
    requires |l1AfterReads| <= MAX_L1_WORDS
    requires compileArgs[1] % 4 == 0 && compileArgs[1] / 4 + 3 * compileArgs[2] <= |l1AfterReads|
    ensures var pageCount, n := compileArgs[0] as int, compileArgs[2];
            var layout := KernelLayout(compileArgs[0], compileArgs[1], n);
            && |log| == 3 * pageCount
            && IsReadPlan(log[..pageCount], compileArgs[3], layout.input0, pageCount, layout.pageSize)
            && IsReadPlan(log[pageCount..2 * pageCount], compileArgs[4], layout.input1, pageCount, layout.pageSize)
            && IsWritePlan(log[2 * pageCount..], compileArgs[5], layout.output, pageCount, layout.pageSize)
            && StaysInside(log[..pageCount], layout.input0, 4 * n)
            && StaysInside(log[pageCount..2 * pageCount], layout.input1, 4 * n)
            && StaysInside(log[2 * pageCount..], layout.output, 4 * n)
    ensures var n, in0 := compileArgs[2], compileArgs[1] / 4;
            && |l1'| == |l1AfterReads|
            && (forall i :: 0 <= i < n ==>
                  Word(l1', in0 + 2 * n, i) == AddU32(Word(l1AfterReads, in0, i), Word(l1AfterReads, in0 + n, i)))
            && (forall a :: 0 <= a < |l1AfterReads| && !(in0 + 2 * n <= a < in0 + 3 * n) ==> l1'[a] == l1AfterReads[a])
  {
    var pageCount := compileArgs[0];
    var l1MemAddr := compileArgs[1];
    var inputSize := compileArgs[2];
    var layout := KernelLayout(pageCount, l1MemAddr, inputSize);
    LayoutContiguous(pageCount, l1MemAddr, inputSize);
    var reads0 := ReadDramPages(compileArgs[3], layout.input0, pageCount, layout.pageSize);
    var reads1 := ReadDramPages(compileArgs[4], layout.input1, pageCount, layout.pageSize);
    var w0 := l1MemAddr / 4;
    assert layout.input1 / 4 == w0 + inputSize && layout.output / 4 == w0 + 2 * inputSize;
    l1' := AddWordsU32(l1AfterReads, w0, w0 + inputSize, w0 + 2 * inputSize, inputSize);
    var writes := WriteDramPages(compileArgs[5], layout.output, pageCount, layout.pageSize);
    ReadPlanInside(reads0, compileArgs[3], layout.input0, pageCount, layout.pageSize, 4 * inputSize);
    ReadPlanInside(reads1, compileArgs[4], layout.input1, pageCount, layout.pageSize, 4 * inputSize);
    WritePlanInside(writes, compileArgs[5], layout.output, pageCount, layout.pageSize, 4 * inputSize);
    log := reads0 + reads1 + writes;
    assert log[..pageCount] == reads0;
    assert log[pageCount..2 * pageCount] == reads1;
    assert log[2 * pageCount..] == writes;
  }

  // ---------------------------------------------------------------------
  // Page addressing of an interleaved DRAM buffer
  // ---------------------------------------------------------------------

  /** As written, two reads of one call differ only in their L1 page: with
      two or more pages, page 0 and page 1 are fetched from the same DRAM
      location, so the L1 region receives copies of one page. */
  lemma ReadPlanRefetchesOneLocation(log: seq<NocTransfer>, dramAddress: u32, l1Addr: u32, pageCount: u32, pageSize: u32)
    requires IsReadPlan(log, dramAddress, l1Addr, pageCount, pageSize)
    requires pageCount >= 2 && pageSize > 0 && l1Addr + pageCount * pageSize <= U32_MODULUS
    ensures log[0].bankId == log[1].bankId && log[0].dramAddress == log[1].dramAddress
    ensures log[0].l1Address != log[1].l1Address
  {
    PageAddressExact(l1Addr, pageCount, pageSize, 0);
    PageAddressExact(l1Addr, pageCount, pageSize, 1);
  }

  /** The host's own call: six elements in four pages of six bytes, at any
      L1 base whose four pages do not wrap around. All four reads of input 0
      go to bank 4 at the buffer's base address. */
  lemma HostExampleReadsOneLocation(log: seq<NocTransfer>, dramAddress: u32, l1Addr: u32)
    requires l1Addr + 24 <= U32_MODULUS && IsReadPlan(log, dramAddress, l1Addr, 4, 6)
    ensures forall t :: t in log ==> t.bankId == 4 && t.dramAddress == dramAddress
    ensures log[0].l1Address != log[1].l1Address
  {
    ReadPlanSingleBankAndAddress(log, dramAddress, l1Addr, 4, 6);
    ReadPlanRefetchesOneLocation(log, dramAddress, l1Addr, 4, 6);
  }

  /** The bank holding page i of an interleaved buffer: pages are dealt to
      the banks round-robin. */
  function InterleavedBank(i: u32): u32 {
    i % DRAM_BANK_COUNT
  }

  /** The address of page i inside its bank: i / 12 pages above the
      buffer's base address. */
  function InterleavedAddress(dramAddress: u32, i: u32, pageSize: u32): u32 {
    AddU32(dramAddress, MulU32(i / DRAM_BANK_COUNT, pageSize))
  }

  /** The reads `read_dram_pages` evidently means to issue: page i from its
      own bank and offset into page i of the L1 region. */
  ghost predicate IsInterleavedReadPlan(log: seq<NocTransfer>, dramAddress: u32, l1Addr: u32, pageCount: u32, pageSize: u32) {
    && |log| == pageCount
    && forall i :: 0 <= i < |log| ==>
         log[i] == NocRead(InterleavedBank(i), InterleavedAddress(dramAddress, i, pageSize), PageAddress(l1Addr, i, pageSize), pageSize)
  }

  ghost predicate IsInterleavedWritePlan(log: seq<NocTransfer>, dramAddress: u32, l1Addr: u32, pageCount: u32, pageSize: u32) {
    && |log| == pageCount
    && forall i :: 0 <= i < |log| ==>
         log[i] == NocWrite(PageAddress(l1Addr, i, pageSize), InterleavedBank(i), InterleavedAddress(dramAddress, i, pageSize), pageSize)
  }

  /** `read_dram_pages` with the bank and offset taken from the page index. */
  method IntendedReadDramPages(srcDramAddress: u32, l1Addr: u32, pageCount: u32, pageSize: u32) returns (log: seq<NocTransfer>)
    ensures IsInterleavedReadPlan(log, srcDramAddress, l1Addr, pageCount, pageSize)
  {
    log := [];
    var i: u32 := 0;
    while i < pageCount
      invariant i <= pageCount && |log| == i
      invariant forall k :: 0 <= k < i ==>
                  log[k] == NocRead(InterleavedBank(k), InterleavedAddress(srcDramAddress, k, pageSize),
                                    PageAddress(l1Addr, k, pageSize), pageSize)
    {
      var bankId := i % DRAM_BANK_COUNT;
      var offset := MulU32(i / DRAM_BANK_COUNT, pageSize);
      log := log + [NocRead(bankId, AddU32(srcDramAddress, offset), AddU32(l1Addr, MulU32(i, pageSize)), pageSize)];
      i := i + 1;
    }
  }

  /** `write_dram_pages` with the bank and offset taken from the page index. */
  method IntendedWriteDramPages(dstDramAddress: u32, l1Addr: u32, pageCount: u32, pageSize: u32) returns (log: seq<NocTransfer>)
    ensures IsInterleavedWritePlan(log, dstDramAddress, l1Addr, pageCount, pageSize)
  {
    log := [];
    var i: u32 := 0;
    while i < pageCount
      invariant i <= pageCount && |log| == i
      invariant forall k :: 0 <= k < i ==>
                  log[k] == NocWrite(PageAddress(l1Addr, k, pageSize), InterleavedBank(k),
                                     InterleavedAddress(dstDramAddress, k, pageSize), pageSize)
    {
      var bankId := i % DRAM_BANK_COUNT;
      var offset := MulU32(i / DRAM_BANK_COUNT, pageSize);
      log := log + [NocWrite(AddU32(l1Addr, MulU32(i, pageSize)), bankId, AddU32(dstDramAddress, offset), pageSize)];
      i := i + 1;
    }
  }

  /** Distinct pages of an interleaved buffer that fits below 4 GiB live at
      distinct (bank, address) locations. */
  lemma InterleavedLocationsDistinct(dramAddress: u32, pageCount: u32, pageSize: u32, i: u32, j: u32)
    requires pageSize > 0 && dramAddress + pageCount * pageSize <= U32_MODULUS
    requires i < pageCount && j < pageCount && i != j
    ensures InterleavedBank(i) != InterleavedBank(j)
            || InterleavedAddress(dramAddress, i, pageSize) != InterleavedAddress(dramAddress, j, pageSize)
  {
    var qi, qj := i / DRAM_BANK_COUNT, j / DRAM_BANK_COUNT;
    OffsetExact(dramAddress, pageCount, pageSize, i);
    OffsetExact(dramAddress, pageCount, pageSize, j);
    if InterleavedBank(i) == InterleavedBank(j) && qi != qj {
      if qi < qj {
        MulMonotone(qi + 1, qj, pageSize);
      } else {
        MulMonotone(qj + 1, qi, pageSize);
      }
    }
  }

  /** Without wrap-around page i sits (i / 12) * page_size bytes above the
      base address. */
  lemma OffsetExact(dramAddress: u32, pageCount: u32, pageSize: u32, i: u32)
    requires pageSize > 0 && dramAddress + pageCount * pageSize <= U32_MODULUS && i < pageCount
    ensures InterleavedAddress(dramAddress, i, pageSize) as int == dramAddress + (i / DRAM_BANK_COUNT) * pageSize
  {
    var q := i / DRAM_BANK_COUNT;
    assert q < pageCount;
    var offset := q * pageSize;
    MulMonotone(q + 1, pageCount, pageSize);
    assert (q + 1) * pageSize == offset + pageSize;
    assert offset < U32_MODULUS;
    assert MulU32(q, pageSize) == offset;
  }

  /** With the page index selecting bank and offset, no two reads of one
      call fetch the same DRAM location: every page of the buffer is read
      once. */
  lemma InterleavedPlanFetchesEachPageOnce(log: seq<NocTransfer>, dramAddress: u32, l1Addr: u32, pageCount: u32, pageSize: u32)
    requires IsInterleavedReadPlan(log, dramAddress, l1Addr, pageCount, pageSize)
    requires pageSize > 0 && dramAddress + pageCount * pageSize <= U32_MODULUS
    ensures forall i, j :: 0 <= i < j < |log| ==>
              log[i].bankId != log[j].bankId || log[i].dramAddress != log[j].dramAddress
  {
    forall i, j | 0 <= i < j < |log|
      ensures log[i].bankId != log[j].bankId || log[i].dramAddress != log[j].dramAddress
    {
      InterleavedLocationsDistinct(dramAddress, pageCount, pageSize, i, j);
    }
  }

  /** `kernel_main` over the corrected page transfers; the add step is the
      same. */
  method IntendedKernelMain(compileArgs: seq<u32>, l1AfterReads: seq<u32>)
    returns (log: seq<NocTransfer>, l1': seq<u32>)
    requires |compileArgs| >= 6 && compileArgs[0] > 0
    requires |l1AfterReads| <= MAX_L1_WORDS
    requires compileArgs[1] % 4 == 0 && compileArgs[1] / 4 + 3 * compileArgs[2] <= |l1AfterReads|
    ensures var pageCount, n := compileArgs[0] as int, compileArgs[2];
            var layout := KernelLayout(compileArgs[0], compileArgs[1], n);
            && |log| == 3 * pageCount
            && IsInterleavedReadPlan(log[..pageCount], compileArgs[3], layout.input0, pageCount, layout.pageSize)
            && IsInterleavedReadPlan(log[pageCount..2 * pageCount], compileArgs[4], layout.input1, pageCount, layout.pageSize)
            && IsInterleavedWritePlan(log[2 * pageCount..], compileArgs[5], layout.output, pageCount, layout.pageSize)
    ensures var n, in0 := compileArgs[2], compileArgs[1] / 4;
            && |l1'| == |l1AfterReads|
            && (forall i :: 0 <= i < n ==>
                  Word(l1', in0 + 2 * n, i) == AddU32(Word(l1AfterReads, in0, i), Word(l1AfterReads, in0 + n, i)))
            && (forall a :: 0 <= a < |l1AfterReads| && !(in0 + 2 * n <= a < in0 + 3 * n) ==> l1'[a] == l1AfterReads[a])
  {
    var pageCount := compileArgs[0];
    var l1MemAddr := compileArgs[1];
    var inputSize := compileArgs[2];
    var layout := KernelLayout(pageCount, l1MemAddr, inputSize);
    LayoutContiguous(pageCount, l1MemAddr, inputSize);
    var reads0 := IntendedReadDramPages(compileArgs[3], layout.input0, pageCount, layout.pageSize);
    var reads1 := IntendedReadDramPages(compileArgs[4], layout.input1, pageCount, layout.pageSize);
    var w0 := l1MemAddr / 4;
    assert layout.input1 / 4 == w0 + inputSize && layout.output / 4 == w0 + 2 * inputSize;
    l1' := AddWordsU32(l1AfterReads, w0, w0 + inputSize, w0 + 2 * inputSize, inputSize);
    var writes := IntendedWriteDramPages(compileArgs[5], layout.output, pageCount, layout.pageSize);
    log := reads0 + reads1 + writes;
    assert log[..pageCount] == reads0;
    assert log[pageCount..2 * pageCount] == reads1;
    assert log[2 * pageCount..] == writes;
  }
}
