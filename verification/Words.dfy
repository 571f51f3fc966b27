/** Machine words: where 64-bit values wrap around they do so modulo this number. */
module Words {
  const TWO64: nat := 0x1_0000_0000_0000_0000
}
