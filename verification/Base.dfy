/** Types, bounds and small functions that several parts of the model use. */
module Base {
  type byte = x: int | 0 <= x < 256

  const UINT: nat := 0x1_0000_0000   // an unsigned int is below this
  const SHORT: nat := 0x1_0000       // an unsigned short
  const SB: nat := 1                 // sector of the superblock
  const ROOTINO: nat := 1            // inode number of the root directory

  function Min(a: int, b: int): int { if a < b then a else b }

  function Max(a: int, b: int): int { if a > b then a else b }
}
