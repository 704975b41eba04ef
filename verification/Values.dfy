/** Machine words, bytes and stored objects, shared by every module that has them. */
module Values {
  newtype byte = x: int | 0 <= x < 256

  const TWO_32: nat := 0x1_0000_0000
  const TWO_64: nat := 0x1_0000_0000_0000_0000

  type U32 = x: int | 0 <= x < TWO_32

  /** The objects of a backend namespace. */
  type Objects = map<string, seq<byte>>
}
