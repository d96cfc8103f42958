module Words {

  type Byte = b: int | 0 <= b < 0x100

  type U64 = n: nat | n < 0x1_0000_0000_0000_0000
}
