/** Machine words and the constants the kernel's code shares. */
module Words {
  const TWO_32: int := 0x1_0000_0000
  const PAGE_SIZE: int := 4096
  const KERNEL_VIRT_BASE: int := 0xC000_0000

  /** An unsigned 32-bit word, the only integer width of the i386 kernel. */
  type u32 = x: int | 0 <= x < 0x1_0000_0000

  type Byte = b: int | 0 <= b < 256

  /** Truncation to 32 bits, as every `uint32_t` and `size_t` operation does on i386. */
  function Wrap(x: int): u32 {
    x % TWO_32
  }

  lemma Regroup<T>(a: seq<T>, b: seq<T>, c: seq<T>)
    ensures a + (b + c) == a + b + c
  {
  }

  /** Bit j of a word, counted from the lowest. */
  predicate Bit(x: nat, j: nat) {
    if j == 0 then x % 2 == 1 else Bit(x / 2, j - 1)
  }

  lemma {:induction false} NoBits(j: nat)
    ensures !Bit(0, j)
  {
    if j > 0 {
      NoBits(j - 1);
    }
  }

  /** The low bits come from the flags, the high bits from the page number. */
  lemma {:induction false} SumBits(q: nat, low: nat, unit: nat, n: nat, j: nat)
    requires unit == Power(n) && low < unit
    ensures Bit(unit * q + low, j) == if j < n then Bit(low, j) else Bit(q, j - n)
    decreases j
  {
    if n > 0 {
      var half := Power(n - 1);
      assert unit * q == 2 * (half * q);
      assert (unit * q + low) % 2 == low % 2;
      if j > 0 {
        assert (unit * q + low) / 2 == half * q + low / 2;
        SumBits(q, low / 2, half, n - 1, j - 1);
      }
    }
  }

  function Power(n: nat): (unit: nat)
    ensures unit > 0
  {
    if n == 0 then 1 else 2 * Power(n - 1)
  }
}
