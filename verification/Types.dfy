/** Machine widths, on-disk records and constants shared by every module. */
module Types {

  // The C integer types the source stores into.
  type byte = x: int | 0 <= x < 0x100
  type u16 = x: int | 0 <= x < 0x1_0000
  type u32 = x: int | 0 <= x < 0x1_0000_0000

  /** A NUL-terminated C string, without its terminator. */
  type CString = s: seq<byte> | 0 !in s

  type Block = seq<byte>

  const FAT_EOC: u16 := 0xFFFF
  const FS_FILENAME_LEN: nat := 16
  const FS_FILE_MAX_COUNT: nat := 128
  const FS_OPEN_MAX_COUNT: nat := 32
  const ROOT_PAD_LEN: nat := 10
  const ROOT_ENTRY_LEN: nat := 32
  const BLOCK_SIZE: nat := 4096
  const INT_MAX: nat := 0x7FFF_FFFF

  datatype Option<+T> = None | Some(value: T)

  /** struct SuperBlock, without signature and padding. */
  datatype SuperBlock = SuperBlock(numBlocks: u16, rootIndex: u16, dataStart: u16, numData: u16, numFat: byte)

  /** struct File: one of the 128 root directory entries. */
  datatype File = File(name: seq<byte>, size: u32, first: u16, padding: seq<byte>)

  /** struct FileDescriptor. The File pointer is the number of the root slot it points to. */
  datatype Descriptor = Descriptor(file: nat, offset: u16)

  function Min(a: int, b: int): int { if a <= b then a else b }

  function Max(a: int, b: int): int { if a <= b then b else a }
}
