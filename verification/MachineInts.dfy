/** The integer types of the source that appear in several modules. */
module MachineInts {
  type Int16 = x: int | -0x8000 <= x < 0x8000
  type Int32 = x: int | -0x8000_0000 <= x < 0x8000_0000

  const UINT32_MAX: nat := 0xFFFF_FFFF
}
