/** Constants and the integer round-up shared by the kernel's modules. */
module Common {
  datatype Option<+T> = None | Some(value: T) {
    predicate IsFailure() {
      None?
    }

    function PropagateFailure<U>(): Option<U>
      requires None?
    {
      None
    }

    function Extract(): T
      requires Some?
    {
      value
    }
  }

  const KB: nat := 0x400
  const MB: nat := 0x100000
  const PAGE_SIZE: nat := 4 * KB
  /** Where the linker script puts the kernel image. */
  const KERNEL_START_ADDR: nat := 0x100000
  const KERNEL_SPACE_SIZE: nat := 8 * MB
  /** Number of values of a 64-bit `size_t` or `uintptr_t`. */
  const SIZE_VALUES: nat := 0x1_0000_0000_0000_0000
  /** Number of values of a 32-bit `uint32_t` or `unsigned int`. */
  const UINT32_VALUES: nat := 0x1_0000_0000

  /** Arithmetic on `size_t` wraps around. */
  function Wrap(x: int): (r: nat)
    ensures r < SIZE_VALUES
    ensures 0 <= x < SIZE_VALUES ==> r == x
  {
    x % SIZE_VALUES
  }

  lemma WrapAdd(a: int, b: int)
    ensures Wrap(Wrap(a) + b) == Wrap(a + b)
  {
  }

  /** `ALIGN` on integers with the multiples `a` the kernel uses (8 and the page size), before truncation. */
  function Align(x: nat, a: nat): (r: nat)
    requires a == 8 || a == PAGE_SIZE
    ensures r % a == 0 && x <= r < x + a
  {
    (x + a - 1) / a * a
  }
}
