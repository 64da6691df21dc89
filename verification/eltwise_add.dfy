/** The element-wise `uint32_t` add loop `out[i] = in0[i] + in1[i]` that the
    RISC-V add kernels run over L1, and the add kernel that consists of
    nothing but that loop over three L1 partitions.

    L1 is an array of 32-bit words indexed by word address (byte address / 4)
    and holding at most 2^30 words, so that no byte address computed inside
    it wraps around. */
module EltwiseAdd {
  import opened Common

  const MAX_L1_WORDS: nat := 0x4000_0000

  /** A partition of n words starting at a 4-byte aligned byte address lies
      inside L1. */
  predicate PartitionFits(mem: seq<u32>, baseAddr: u32, n: nat) {
    baseAddr % 4 == 0 && baseAddr / 4 + n <= |mem|
  }

  /** Element i of the partition starting at word address `base`. */
  function Word(mem: seq<u32>, base: nat, i: nat): u32
    requires base + i < |mem|
  {
    mem[base + i]
  }

  /** The add loop reads input word i after having written output words
      0 .. i-1 only; it reads the original input when the input starts at or
      after the output, or ends before it. */
  predicate ReadsAhead(src: nat, dst: nat, n: nat) {
    dst <= src || src + n <= dst
  }

  /** Input and output partitions of n words share no word. */
  predicate Disjoint(src: nat, dst: nat, n: nat) {
    src + n <= dst || dst + n <= src
  }

  /** `for (i = 0; i < n; ++i) mem[dst + i] = mem[src0 + i] + mem[src1 + i]`
      on word addresses, with `uint32_t` wrap-around. Only the n output words
      are written; when neither input is overwritten before it is read, each
      output word is the sum of the original inputs. */
  method AddWordsU32(mem: seq<u32>, src0: nat, src1: nat, dst: nat, n: nat) returns (mem': seq<u32>)
    requires src0 + n <= |mem| && src1 + n <= |mem| && dst + n <= |mem|
    ensures |mem'| == |mem|
    ensures forall a :: 0 <= a < |mem| && !(dst <= a < dst + n) ==> mem'[a] == mem[a]
    ensures ReadsAhead(src0, dst, n) && ReadsAhead(src1, dst, n) ==>
              forall i :: 0 <= i < n ==> Word(mem', dst, i) == AddU32(Word(mem, src0, i), Word(mem, src1, i))
  {
    mem' := mem;
    var i := 0;
    while i < n
      invariant i <= n
      invariant |mem'| == |mem|
      invariant forall a :: 0 <= a < |mem| && !(dst <= a < dst + i) ==> mem'[a] == mem[a]
      invariant ReadsAhead(src0, dst, n) && ReadsAhead(src1, dst, n) ==>
                  forall k :: 0 <= k < i ==> Word(mem', dst, k) == AddU32(Word(mem, src0, k), Word(mem, src1, k))
    {
      mem' := mem'[dst + i := AddU32(mem'[src0 + i], mem'[src1 + i])];
      i := i + 1;
    }
  }

  /** The host's partition layout: partition 1 starts right after the n
      words of partition 0, and partition 2 right after partition 1. */
  predicate HostLayout(numElements: nat, base0: nat, base1: nat, base2: nat) {
    base1 == base0 + 4 * numElements && base2 == base1 + 4 * numElements
  }

  /** In the host layout the three partitions are pairwise disjoint, so the
      add loop reads original inputs and leaves them alone. */
  lemma HostLayoutDisjoint(numElements: nat, base0: nat, base1: nat, base2: nat)
    requires HostLayout(numElements, base0, base1, base2)
    requires base0 % 4 == 0
    ensures base1 % 4 == 0 && base2 % 4 == 0
    ensures base0 / 4 + numElements == base1 / 4 && base1 / 4 + numElements == base2 / 4
    ensures ReadsAhead(base0 / 4, base2 / 4, numElements) && ReadsAhead(base1 / 4, base2 / 4, numElements)
  {
  }

  /** The `MAIN` of the RISC-V add kernel. Its compile-time arguments are, in
      order, the element count and the byte base addresses of partitions 0,
      1 and 2; partition 2 receives the sums. */
  method Add2IntegersKernel(compileArgs: seq<u32>, mem: seq<u32>) returns (mem': seq<u32>)
    requires |compileArgs| >= 4 && |mem| <= MAX_L1_WORDS
    requires PartitionFits(mem, compileArgs[1], compileArgs[0])
    requires PartitionFits(mem, compileArgs[2], compileArgs[0])
    requires PartitionFits(mem, compileArgs[3], compileArgs[0])
    ensures |mem'| == |mem|
    ensures var out, n := compileArgs[3] / 4, compileArgs[0];
            forall a :: 0 <= a < |mem| && !(out <= a < out + n) ==> mem'[a] == mem[a]
    ensures var in0, in1, out, n := compileArgs[1] / 4, compileArgs[2] / 4, compileArgs[3] / 4, compileArgs[0];
            ReadsAhead(in0, out, n) && ReadsAhead(in1, out, n) ==>
              forall i :: 0 <= i < n ==> Word(mem', out, i) == AddU32(Word(mem, in0, i), Word(mem, in1, i))
    ensures compileArgs[0] == 0 ==> mem' == mem
  {
    var numElements := compileArgs[0];
    var partition0 := compileArgs[1] / 4;
    var partition1 := compileArgs[2] / 4;
    var partition2 := compileArgs[3] / 4;
    mem' := AddWordsU32(mem, partition0, partition1, partition2, numElements);
  }

  /** `MAIN` of a compute kernel runs on the unpack, math and pack TRISCs
      alike, so the add loop runs three times over the same L1. With input
      partitions disjoint from the output, no pass writes a word any pass
      reads, so the passes, here run one after another, leave exactly the
      result of a single pass: the sums in partition 2 and nothing else
      changed. */
  method Add2IntegersOnTriscs(compileArgs: seq<u32>, mem: seq<u32>) returns (mem': seq<u32>)
    requires |compileArgs| >= 4 && |mem| <= MAX_L1_WORDS
    requires PartitionFits(mem, compileArgs[1], compileArgs[0])
    requires PartitionFits(mem, compileArgs[2], compileArgs[0])
    requires PartitionFits(mem, compileArgs[3], compileArgs[0])
    requires Disjoint(compileArgs[1] / 4, compileArgs[3] / 4, compileArgs[0])
    requires Disjoint(compileArgs[2] / 4, compileArgs[3] / 4, compileArgs[0])
    ensures |mem'| == |mem|
    ensures var out, n := compileArgs[3] / 4, compileArgs[0];
            forall a :: 0 <= a < |mem| && !(out <= a < out + n) ==> mem'[a] == mem[a]
    ensures var in0, in1, out, n := compileArgs[1] / 4, compileArgs[2] / 4, compileArgs[3] / 4, compileArgs[0];
            forall i :: 0 <= i < n ==> Word(mem', out, i) == AddU32(Word(mem, in0, i), Word(mem, in1, i))
  {
    var in0, in1, out, n := compileArgs[1] / 4, compileArgs[2] / 4, compileArgs[3] / 4, compileArgs[0] as nat;
    var unpack := Add2IntegersKernel(compileArgs, mem);
    assert forall i :: 0 <= i < n ==> Word(unpack, in0, i) == Word(mem, in0, i) && Word(unpack, in1, i) == Word(mem, in1, i);
    var math := Add2IntegersKernel(compileArgs, unpack);
    assert forall i :: 0 <= i < n ==> Word(math, in0, i) == Word(mem, in0, i) && Word(math, in1, i) == Word(mem, in1, i);
    mem' := Add2IntegersKernel(compileArgs, math);
  }

  /** Launched on the host's layout, the add kernel writes every sum into
      partition 2 and leaves both input partitions unchanged. */
  method Add2IntegersOnHostLayout(numElements: u32, base0: u32, mem: seq<u32>) returns (mem': seq<u32>)
    requires |mem| <= MAX_L1_WORDS && base0 % 4 == 0
    requires base0 / 4 + 3 * numElements <= |mem|
    ensures var in0, in1, out := base0 / 4, base0 / 4 + numElements, base0 / 4 + 2 * numElements;
            && |mem'| == |mem|
            && (forall i :: 0 <= i < numElements ==> Word(mem', out, i) == AddU32(Word(mem, in0, i), Word(mem, in1, i)))
            && (forall a :: in0 <= a < out ==> mem'[a] == mem[a])
  {
    var base1 := base0 + 4 * numElements;
    var base2 := base1 + 4 * numElements;
    HostLayoutDisjoint(numElements, base0, base1, base2);
    mem' := Add2IntegersKernel([numElements, base0, base1, base2], mem);
  }
}
