/** Machine words and bytes: the kernel is built for a 32-bit machine. */
module Words {

  // One more than the greatest size_t, uint32_t or address.
  const SIZE_LIMIT: nat := 0x1_0000_0000

  type Byte = x: int | 0 <= x < 256

  function AddSize(x: nat, y: nat): nat {
    (x + y) % SIZE_LIMIT
  }

  lemma SumWraps(x: nat, y: nat)
    requires x < SIZE_LIMIT && y < SIZE_LIMIT
    ensures AddSize(x, y) == if x + y < SIZE_LIMIT then x + y else x + y - SIZE_LIMIT
  {
  }
}
