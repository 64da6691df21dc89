/** The `int32_t` variant of the element-wise add: `dst[i] = src0[i] +
    src1[i]` for i below a signed element count.

    L1 is an array of 32-bit words indexed by word address, as for the
    `uint32_t` kernels, but the words are read as `int32_t`. A signed sum
    outside the `int32_t` range is undefined behaviour in C++; the kernel's
    result is then `None`, and nothing is promised about it. */
module FastTensorAddKernel {
  import opened Common
  import EltwiseAdd

  /** Element i of the `int32_t` partition starting at word address `base`. */
  function Elem(mem: seq<i32>, base: nat, i: nat): i32
    requires base + i < |mem|
  {
    mem[base + i]
  }

  /** The loop `for (int32_t i = 0; i < num_elements; i++)` runs
      `max(num_elements, 0)` times, with `num_elements` the fourth compile-time
      argument read as `int32_t`. */
  function ElementCount(arg: u32): (n: nat)
    ensures arg <= I32_MAX ==> n == arg
    ensures arg > I32_MAX ==> n == 0
  {
    var count := ToI32(arg);
    if count <= 0 then 0 else count
  }

  /** None of the first n element sums leaves the `int32_t` range. */
  ghost predicate NoOverflow(mem: seq<i32>, src0: nat, src1: nat, n: nat)
    requires src0 + n <= |mem| && src1 + n <= |mem|
  {
    forall i :: 0 <= i < n ==> InI32(Elem(mem, src0, i) + Elem(mem, src1, i))
  }

  /** The kernel's `MAIN`. Compile-time arguments, in order: byte addresses
      of source 0, source 1 and the destination, then the element count.
      When neither source is overwritten before it is read, the kernel is
      defined exactly when no sum overflows, and then every destination
      element is the sum of the original sources. Only destination words
      change. */
  method FastTensorAdd(compileArgs: seq<u32>, mem: seq<i32>) returns (r: Option<seq<i32>>)
    requires |compileArgs| >= 4 && |mem| <= EltwiseAdd.MAX_L1_WORDS
    requires compileArgs[0] % 4 == 0 && compileArgs[1] % 4 == 0 && compileArgs[2] % 4 == 0
    requires compileArgs[0] / 4 + ElementCount(compileArgs[3]) <= |mem|
    requires compileArgs[1] / 4 + ElementCount(compileArgs[3]) <= |mem|
    requires compileArgs[2] / 4 + ElementCount(compileArgs[3]) <= |mem|
    ensures ElementCount(compileArgs[3]) == 0 ==> r == Some(mem)
    ensures r.Some? ==>
              var dst, n := compileArgs[2] / 4, ElementCount(compileArgs[3]);
              && |r.value| == |mem|
              && forall a :: 0 <= a < |mem| && !(dst <= a < dst + n) ==> r.value[a] == mem[a]
    ensures var src0, src1, dst := compileArgs[0] / 4, compileArgs[1] / 4, compileArgs[2] / 4;
            var n := ElementCount(compileArgs[3]);
            EltwiseAdd.ReadsAhead(src0, dst, n) && EltwiseAdd.ReadsAhead(src1, dst, n) ==>
              && (r.Some? <==> NoOverflow(mem, src0, src1, n))
              && (r.Some? ==> forall i :: 0 <= i < n ==>
                                Elem(r.value, dst, i) == Elem(mem, src0, i) + Elem(mem, src1, i))
  {
    var src0 := compileArgs[0] / 4;
    var src1 := compileArgs[1] / 4;
    var dst := compileArgs[2] / 4;
    var numElements := ElementCount(compileArgs[3]);
    ghost var ahead := EltwiseAdd.ReadsAhead(src0, dst, numElements) && EltwiseAdd.ReadsAhead(src1, dst, numElements);
    var m: seq<i32> := mem;
    var i := 0;
    while i < numElements
      invariant i <= numElements && |m| == |mem|
      invariant forall a :: 0 <= a < |mem| && !(dst <= a < dst + i) ==> m[a] == mem[a]
      invariant ahead ==> forall k :: 0 <= k < i ==> InI32(Elem(mem, src0, k) + Elem(mem, src1, k))
      invariant ahead ==> forall k :: 0 <= k < i ==> Elem(m, dst, k) == Elem(mem, src0, k) + Elem(mem, src1, k)
    {
      var sum := m[src0 + i] as int + m[src1 + i] as int;
      if !InI32(sum) {
        assert ahead ==> !InI32(Elem(mem, src0, i) + Elem(mem, src1, i));
        return None;
      }
      m := m[dst + i := sum as i32];
      i := i + 1;
    }
    if numElements == 0 {
      assert m == mem;
    }
    r := Some(m);
  }

  /** `MAIN` runs on the unpack, math and pack TRISCs alike, so the loop
      runs three times over the same L1. With both sources disjoint from the
      destination no pass writes a word any pass reads: the passes, here run
      one after another, are defined exactly when a single pass is, and
      leave the same sums with nothing else changed. */
  method FastTensorAddOnTriscs(compileArgs: seq<u32>, mem: seq<i32>) returns (r: Option<seq<i32>>)
    requires |compileArgs| >= 4 && |mem| <= EltwiseAdd.MAX_L1_WORDS
    requires compileArgs[0] % 4 == 0 && compileArgs[1] % 4 == 0 && compileArgs[2] % 4 == 0
    requires compileArgs[0] / 4 + ElementCount(compileArgs[3]) <= |mem|
    requires compileArgs[1] / 4 + ElementCount(compileArgs[3]) <= |mem|
    requires compileArgs[2] / 4 + ElementCount(compileArgs[3]) <= |mem|
    requires EltwiseAdd.Disjoint(compileArgs[0] / 4, compileArgs[2] / 4, ElementCount(compileArgs[3]))
    requires EltwiseAdd.Disjoint(compileArgs[1] / 4, compileArgs[2] / 4, ElementCount(compileArgs[3]))
    ensures var src0, src1, dst := compileArgs[0] / 4, compileArgs[1] / 4, compileArgs[2] / 4;
            var n := ElementCount(compileArgs[3]);
            && (r.Some? <==> NoOverflow(mem, src0, src1, n))
            && (r.Some? ==>
                  && |r.value| == |mem|
                  && (forall a :: 0 <= a < |mem| && !(dst <= a < dst + n) ==> r.value[a] == mem[a])
                  && (forall i :: 0 <= i < n ==> Elem(r.value, dst, i) == Elem(mem, src0, i) + Elem(mem, src1, i)))
  {
    var src0, src1, n := compileArgs[0] / 4, compileArgs[1] / 4, ElementCount(compileArgs[3]);
    var unpack := FastTensorAdd(compileArgs, mem);
    if unpack.None? {
      return None;
    }
    assert forall i :: 0 <= i < n ==> Elem(unpack.value, src0, i) == Elem(mem, src0, i) && Elem(unpack.value, src1, i) == Elem(mem, src1, i);
    var math := FastTensorAdd(compileArgs, unpack.value);
    if math.None? {
      return None;
    }
    assert forall i :: 0 <= i < n ==> Elem(math.value, src0, i) == Elem(mem, src0, i) && Elem(math.value, src1, i) == Elem(mem, src1, i);
    r := FastTensorAdd(compileArgs, math.value);
  }

  /** Two's-complement agreement with the `uint32_t` kernels: when an `int32_t`
      sum does not overflow, it has the bit pattern that the wrapping
      `uint32_t` sum of the operands' bit patterns has. */
  lemma SignedSumMatchesUnsignedSum(a: i32, b: i32)
    requires InI32(a + b)
    ensures ToI32(AddU32(WrapU32(a), WrapU32(b))) == a + b
  {
    var ua, ub := WrapU32(a), WrapU32(b);
    assert ua == if a < 0 then a + U32_MODULUS else a;
    assert ub == if b < 0 then b + U32_MODULUS else b;
  }

  /** Read back as `int32_t`, the wrapping `uint32_t` sum is never the
      mathematical sum once that sum overflows. */
  lemma OverflowedSumDiffers(a: i32, b: i32)
    requires !InI32(a + b)
    ensures ToI32(AddU32(WrapU32(a), WrapU32(b))) != a + b
  {
  }
}
