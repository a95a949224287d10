module MachineInts {
  newtype u16 = x: int | 0 <= x < 0x1_0000
  newtype i32 = x: int | -0x8000_0000 <= x < 0x8000_0000
  newtype u64 = x: int | 0 <= x < 0x1_0000_0000_0000_0000
}
