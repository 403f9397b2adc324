/** Numbers that several components share. */
module Constants {

  const TWO_16 := 0x1_0000
  const TWO_32 := 0x1_0000_0000
  const TWO_64 := 0x1_0000_0000_0000_0000

  const NUM_SEQ_PKTS := 16        // sequence templates of a port
}
