/** 32-bit words of device and pool memory, and results that may be missing. */
module Words {
  const WORD_LIMIT: nat := 0x1_0000_0000

  type Word = x: nat | x < WORD_LIMIT

  datatype Option<T> = None | Some(value: T)
}
