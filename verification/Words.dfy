/** The sizes of machine words, and the error numbers (pxbee/headers/types.h). */
module Words {

  const WORD16: int := 0x1_0000
  const WORD32: int := 0x1_0000_0000

  const ENOENT: int := 2
  const EIO: int := 5
  const ENODEV: int := 19
  const EINVAL: int := 22
  const ETIMEDOUT: int := 212

  function Minimum(a: nat, b: nat): nat { if a <= b then a else b }

  /** The numbers themselves. */
  lemma ErrorNumbers()
    ensures [ENOENT, EIO, ENODEV, EINVAL, ETIMEDOUT] == [2, 5, 19, 22, 212]
    ensures WORD16 == 65536 && WORD32 == 4294967296
  {
  }
}
