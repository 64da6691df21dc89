/** The watcher's stack-usage watermark. Before a kernel runs, every stack
    word below the current `sp` is filled with a sentinel; after it
    ran, the stack is scanned upwards from its base for the first word the
    kernel overwrote, and the deepest use seen so far is kept per RISC-V in
    the watcher mailbox.

    Memory is an array of 32-bit words indexed by word address (byte address
    / 4). The stack occupies the words [top - size/4, top); `sp` is a word
    address too. The size, top, RISC-V index and the kernel id read from the
    launch message are parameters. */
module StackUsage {
  import opened Common

  const STACK_DIRTY_PATTERN: u32 := 0xBABA_BABA

  /** The stack's lowest word address: `top` minus the stack size in words. */
  function StackBase(stackTop: nat, stackSizeBytes: u32): int {
    stackTop - stackSizeBytes / 4
  }

  /** `dirty_stack_memory`: walks down from `sp` to the stack base writing
      the sentinel. The loop `while (ptr != base)` only ends if it starts at
      or above the base, which is therefore demanded. */
  method DirtyStackMemory(mem: seq<u32>, stackTop: nat, stackSizeBytes: u32, sp: nat) returns (mem': seq<u32>)
    requires 0 <= StackBase(stackTop, stackSizeBytes) <= sp <= |mem|
    ensures |mem'| == |mem|
    ensures forall a :: StackBase(stackTop, stackSizeBytes) <= a < sp ==> mem'[a] == STACK_DIRTY_PATTERN
    ensures forall a :: 0 <= a < |mem| && !(StackBase(stackTop, stackSizeBytes) <= a < sp) ==> mem'[a] == mem[a]
  {
    var base := StackBase(stackTop, stackSizeBytes);
    var ptr := sp;
    mem' := mem;
    while ptr != base
      invariant base <= ptr <= sp
      invariant |mem'| == |mem|
      invariant forall a :: ptr <= a < sp ==> mem'[a] == STACK_DIRTY_PATTERN
      invariant forall a :: 0 <= a < |mem| && !(ptr <= a < sp) ==> mem'[a] == mem[a]
      decreases ptr - base
    {
      ptr := ptr - 1;
      mem' := mem'[ptr := STACK_DIRTY_PATTERN];
    }
  }

  /** The scan `while (*stack_ptr == STACK_DIRTY_PATTERN) stack_ptr++` from
      word p: the first word at or above p that differs from the sentinel.
      The scan has no bound check; it stays inside memory only when such a
      word exists, which is therefore demanded. */
  function ScanEnd(mem: seq<u32>, p: nat): (q: nat)
    requires exists w :: p <= w < |mem| && mem[w] != STACK_DIRTY_PATTERN
    ensures p <= q < |mem|
    ensures mem[q] != STACK_DIRTY_PATTERN
    ensures forall a :: p <= a < q ==> mem[a] == STACK_DIRTY_PATTERN
    decreases |mem| - p
  {
    if mem[p] != STACK_DIRTY_PATTERN then p
    else
      assert exists w :: p + 1 <= w < |mem| && mem[w] != STACK_DIRTY_PATTERN;
      ScanEnd(mem, p + 1)
  }

  /** `(stack_words - (stack_ptr - base)) * sizeof(uint32_t)` stored in a
      `uint32_t`: the words from the first overwritten one up to the top, in
      bytes, reduced modulo 2^32 (the difference is negative when the scan
      ran past the top). */
  function UsageBytes(stackWords: nat, scanned: nat): u32 {
    WrapU32((stackWords - scanned) * 4)
  }

  /** The per-RISC-V watermark slots of the watcher mailbox. */
  datatype StackUsageMsg = StackUsageMsg(maxUsage: seq<u32>, watcherKernelId: seq<u32>)

  /** The mailbox update of `record_stack_usage`: an empty slot (kernel id 0)
      or a deeper use overwrites both the watermark and the kernel id of slot
      idx; otherwise nothing changes. */
  function RecordInMailbox(msg: StackUsageMsg, idx: nat, usage: u32, launchKernelId: u32): (r: StackUsageMsg)
    requires idx < |msg.maxUsage| && idx < |msg.watcherKernelId|
    ensures |r.maxUsage| == |msg.maxUsage| && |r.watcherKernelId| == |msg.watcherKernelId|
    ensures forall j :: 0 <= j < |msg.maxUsage| && j != idx ==> r.maxUsage[j] == msg.maxUsage[j]
    ensures forall j :: 0 <= j < |msg.watcherKernelId| && j != idx ==> r.watcherKernelId[j] == msg.watcherKernelId[j]
    ensures msg.watcherKernelId[idx] != 0 ==> r.maxUsage[idx] == Max(msg.maxUsage[idx], usage)
    ensures msg.watcherKernelId[idx] == 0 ==> r.maxUsage[idx] == usage
    ensures r.watcherKernelId[idx] == launchKernelId || r == msg
    ensures r == msg <==> (msg.watcherKernelId[idx] != 0 && usage <= msg.maxUsage[idx])
                          || (msg.maxUsage[idx] == usage && msg.watcherKernelId[idx] == launchKernelId)
  {
    if msg.watcherKernelId[idx] == 0 || msg.maxUsage[idx] < usage then
      StackUsageMsg(msg.maxUsage[idx := usage], msg.watcherKernelId[idx := launchKernelId])
    else
      msg
  }

  function Max(a: int, b: int): int {
    if a < b then b else a
  }

  /** `record_stack_usage`: scans from the stack base for the first word the
      kernel touched, converts the untouched depth into bytes used, and
      updates slot idx of the mailbox. */
  method RecordStackUsage(mem: seq<u32>, stackTop: nat, stackSizeBytes: u32,
                          msg: StackUsageMsg, idx: nat, launchKernelId: u32)
    returns (usage: u32, msg': StackUsageMsg)
    requires 0 <= StackBase(stackTop, stackSizeBytes)
    requires exists w :: StackBase(stackTop, stackSizeBytes) <= w < |mem| && mem[w] != STACK_DIRTY_PATTERN
    requires idx < |msg.maxUsage| && idx < |msg.watcherKernelId|
    ensures var base := StackBase(stackTop, stackSizeBytes);
            var stop := ScanEnd(mem, base);
            && usage == UsageBytes(stackSizeBytes / 4, stop - base)
            && (stop <= stackTop ==> usage as int == (stackTop - stop) * 4)
    ensures usage % 4 == 0
    ensures usage <= (stackSizeBytes / 4) * 4 || ScanEnd(mem, StackBase(stackTop, stackSizeBytes)) >= stackTop
    ensures msg' == RecordInMailbox(msg, idx, usage, launchKernelId)
  {
    var base := StackBase(stackTop, stackSizeBytes);
    var stackWords := stackSizeBytes / 4;
    ghost var stop := ScanEnd(mem, base);
    var stackPtr: nat := base;
    while mem[stackPtr] == STACK_DIRTY_PATTERN
      invariant base <= stackPtr <= stop
      decreases stop - stackPtr
    {
      stackPtr := stackPtr + 1;
    }
    usage := UsageBytes(stackWords, stackPtr - base);
    UsageBytesFacts(stackWords, stackPtr - base);
    msg' := RecordInMailbox(msg, idx, usage, launchKernelId);
  }

  /** The byte count is always a multiple of 4, and exact (no wrap) when the
      scan stopped inside the stack. */
  lemma UsageBytesFacts(stackWords: nat, scanned: nat)
    requires stackWords * 4 < U32_MODULUS
    ensures UsageBytes(stackWords, scanned) % 4 == 0
    ensures scanned <= stackWords ==> UsageBytes(stackWords, scanned) as int == (stackWords - scanned) * 4
  {
    var x := (stackWords - scanned) * 4;
    assert x % U32_MODULUS == x - (x / U32_MODULUS) * U32_MODULUS;
    assert U32_MODULUS == 4 * 0x4000_0000;
  }

  /** Dirtying the stack below `sp` and scanning it again with nothing
      written in between measures exactly the bytes between `sp` and the
      top, provided the word at `sp` is not itself the sentinel. */
  method DirtyThenRecord(mem: seq<u32>, stackTop: nat, stackSizeBytes: u32, sp: nat,
                         msg: StackUsageMsg, idx: nat, launchKernelId: u32)
    returns (usage: u32, msg': StackUsageMsg)
    requires 0 <= StackBase(stackTop, stackSizeBytes) <= sp < |mem| && sp <= stackTop
    requires mem[sp] != STACK_DIRTY_PATTERN
    requires idx < |msg.maxUsage| && idx < |msg.watcherKernelId|
    ensures usage as int == (stackTop - sp) * 4
    ensures msg' == RecordInMailbox(msg, idx, usage, launchKernelId)
  {
    var dirty := DirtyStackMemory(mem, stackTop, stackSizeBytes, sp);
    assert dirty[sp] == mem[sp];
    usage, msg' := RecordStackUsage(dirty, stackTop, stackSizeBytes, msg, idx, launchKernelId);
    ScanEndIsFirst(dirty, StackBase(stackTop, stackSizeBytes), sp);
  }

  /** A word differing from the sentinel with only sentinels between p and it
      is where the scan from p stops. */
  lemma ScanEndIsFirst(mem: seq<u32>, p: nat, q: nat)
    requires p <= q < |mem| && mem[q] != STACK_DIRTY_PATTERN
    requires forall a :: p <= a < q ==> mem[a] == STACK_DIRTY_PATTERN
    ensures ScanEnd(mem, p) == q
  {
  }

  // ---------------------------------------------------------------------
  // The watermark over a sequence of kernel runs
  // ---------------------------------------------------------------------

  /** Largest of a non-empty sequence of usages. */
  function SeqMax(usages: seq<u32>): u32
    requires |usages| > 0
  {
    if |usages| == 1 then usages[0] else Max(usages[0], SeqMax(usages[1..])) as u32
  }

  /** Recording the usages of successive runs into slot idx, each run with a
      non-zero kernel id. */
  function RecordAll(msg: StackUsageMsg, idx: nat, usages: seq<u32>, launchKernelId: u32): (r: StackUsageMsg)
    requires idx < |msg.maxUsage| && idx < |msg.watcherKernelId|
    ensures |r.maxUsage| == |msg.maxUsage| && |r.watcherKernelId| == |msg.watcherKernelId|
    decreases |usages|
  {
    if |usages| == 0 then msg
    else RecordAll(RecordInMailbox(msg, idx, usages[0], launchKernelId), idx, usages[1..], launchKernelId)
  }

  /** After at least one run with a non-zero kernel id, slot idx holds the
      largest usage recorded since the slot last held kernel id 0, and a
      non-empty slot's watermark never went down. */
  lemma {:induction false} RecordAllIsMax(msg: StackUsageMsg, idx: nat, usages: seq<u32>, launchKernelId: u32)
    requires idx < |msg.maxUsage| && idx < |msg.watcherKernelId|
    requires launchKernelId != 0 && |usages| > 0
    ensures var r := RecordAll(msg, idx, usages, launchKernelId);
            && r.watcherKernelId[idx] != 0
            && r.maxUsage[idx] == (if msg.watcherKernelId[idx] == 0 then SeqMax(usages)
                                   else Max(msg.maxUsage[idx], SeqMax(usages)))
            && (msg.watcherKernelId[idx] != 0 ==> r.maxUsage[idx] >= msg.maxUsage[idx])
    decreases |usages|
  {
    var next := RecordInMailbox(msg, idx, usages[0], launchKernelId);
    assert next.watcherKernelId[idx] != 0;
    if |usages| > 1 {
      RecordAllIsMax(next, idx, usages[1..], launchKernelId);
    }
  }
}
