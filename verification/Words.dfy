/** Unsigned machine words, and an optional value. */
module Words {

  datatype Option<T> = None | Some(value: T)

  type u8 = x: nat | x < 0x100
  type u16 = x: nat | x < 0x1_0000
  type u32 = x: nat | x < 0x1_0000_0000

  // 2^32
  const W32: nat := 0x1_0000_0000

  // Two bytes in network order
  function BigEndian(hi: u8, lo: u8): u16 {
    var h: nat := hi;
    256 * h + lo
  }
}
