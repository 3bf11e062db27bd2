/** What the disk, the messages and the connections have in common. */
module Wire {
  type Byte = x: int | 0 <= x < 256

  /** The length of a packet goes in front of it, in four bytes. */
  const LENGTH_SIZE := 4
}
