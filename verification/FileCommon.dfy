/**
 What the open-file routines share: bytes, the error numbers they return, and the two bits
 of a file's flag word that they use.
 */
module FileCommon {

  newtype Byte = x: int | 0 <= x < 256

  /** The size of a default file buffer. */
  const BUFSIZ := 1024

  /** Marks a file structure as valid. */
  const MAGIC := 1234

  const EBADF := 9
  const EINVAL := 22

  /** Ok to read, ok to write. */
  datatype Flags = Flags(srd: bool, swr: bool)

  const NONE := Flags(false, false)
  const SRD := Flags(true, false)
  const SWR := Flags(false, true)

  function Min(a: int, b: int): int {
    if a <= b then a else b
  }
}
