/** Shared vocabulary of the fabric test harness and the device kernels:
    fixed-width integer types, the failure-carrying result type and the
    harness's error kinds. */
module Common {

  const U32_MODULUS: int := 0x1_0000_0000
  const I32_MIN: int := -0x8000_0000
  const I32_MAX: int := 0x7FFF_FFFF

  /** `uint32_t` */
  type u32 = x: int | 0 <= x < 0x1_0000_0000
  /** `size_t` on the 64-bit host */
  type u64 = x: int | 0 <= x < 0x1_0000_0000_0000_0000
  /** `int32_t` */
  type i32 = x: int | -0x8000_0000 <= x <= 0x7FFF_FFFF

  /** `chip_id_t`: a physical (or logical) chip identifier */
  type ChipId = int
  /** `mesh_id_t`: a logical mesh identifier */
  type MeshId = nat

  /** Unsigned 32-bit addition, wrapping as C++ `uint32_t` arithmetic does. */
  function AddU32(a: u32, b: u32): u32 {
    (a + b) % U32_MODULUS
  }

  /** Unsigned 32-bit multiplication, wrapping likewise. */
  function MulU32(a: u32, b: u32): u32 {
    (a * b) % U32_MODULUS
  }

  /** Reduction of an arbitrary integer into `uint32_t`, as an implicit
      conversion to an unsigned 32-bit type performs it. */
  function WrapU32(x: int): u32 {
    x % U32_MODULUS
  }

  /** Conversion of a `uint32_t` to `int32_t` (two's complement). */
  function ToI32(x: u32): i32 {
    if x <= I32_MAX then x else x - U32_MODULUS
  }

  predicate InI32(x: int) {
    I32_MIN <= x <= I32_MAX
  }

  /** Multiplying by the same factor keeps the order of the multiplicands. */
  lemma MulMonotone(a: nat, b: nat, c: nat)
    requires a <= b
    ensures a * c <= b * c
  {
  }

  datatype Option<+T> = None | Some(value: T)

  /** The `std::runtime_error`s the harness throws, one kind per check. */
  datatype Error =
    | UnknownMesh(mesh: MeshId)                 // "Unexpected mesh_id"
    | UnknownChip(mesh: MeshId, chip: ChipId)   // "Unexpected chip_id"
    | UnknownDeviceChip(chip: ChipId)           // "... for device handle lookup"
    | UnknownSrcChip(chip: ChipId)              // "... for test device lookup"
    | NoDestinationOrHops                       // "Unexpected test config", none given
    | BothDestinationAndHops                    // "Unexpected test config", both given

  datatype Result<+T> = Ok(value: T) | Err(error: Error) {
    predicate IsFailure() {
      Err?
    }

    function PropagateFailure<U>(): Result<U>
      requires Err?
    {
      Err(error)
    }

    function Extract(): T
      requires Ok?
    {
      value
    }
  }
}
