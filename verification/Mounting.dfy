/** Leaving and re-entering a volume through its on-disk image. */
module Mounting {
  import opened Types
  import opened Blocks
  import opened Volumes
  import opened Codec
  import opened FlatModel
  import opened Accounting

  function NoDescriptors(): (fds: seq<Option<Descriptor>>)
    ensures |fds| == FS_OPEN_MAX_COUNT
  {
    var none: Option<Descriptor> := None;
    seq(FS_OPEN_MAX_COUNT, _ => none)
  }

  /** The checks of fs_mount on table and root directory. */
  ghost predicate ImageLoads(disk: seq<Block>, sb: SuperBlock, stack: nat -> u16)
    requires BlocksOf(disk, BLOCK_SIZE) && 1 <= sb.numData && sb.numFat + 1 < |disk|
  {
    LoadedFat(disk, sb.numData, sb.numFat, stack)[0] == FAT_EOC && RootLoads(disk[sb.numFat + 1])
  }

  /** The globals after a successful mount. */
  ghost function MountedVolume(disk: seq<Block>, sb: SuperBlock, stack: nat -> u16, numOpen: int,
                               chains: seq<seq<nat>>): Volume
    requires BlocksOf(disk, BLOCK_SIZE) && sb.numFat + 1 < |disk|
  {
    Volume(BLOCK_SIZE, sb, disk, LoadedFat(disk, sb.numData, sb.numFat, stack),
           DecodeRoot(disk[sb.numFat + 1], FS_FILE_MAX_COUNT), NoDescriptors(), numOpen, chains)
  }

  /** block_read of one FAT block into the word buffer. */
  method ReadWords(buffer: array<u16>, at: nat, block: Block)
    requires |block| == BLOCK_SIZE && at + BLOCK_SIZE / 2 <= buffer.Length
    modifies buffer
    ensures forall j :: 0 <= j < buffer.Length ==>
              buffer[j] == if at <= j < at + BLOCK_SIZE / 2 then Word(block, j - at) else old(buffer[j])
  {
    var m := 0;
    while m < BLOCK_SIZE / 2
      invariant 0 <= m <= BLOCK_SIZE / 2
      invariant forall j :: 0 <= j < buffer.Length ==>
                  buffer[j] == if at <= j < at + m then Word(block, j - at) else old(buffer[j])
    {
      buffer[at + m] := Word(block, m);
      m := m + 1;
    }
  }

  /** The superblock provides exactly the FAT blocks its table needs, one for every 2048 entries. */
  predicate FatFits(sb: SuperBlock) {
    (sb.numFat - 1) * (BLOCK_SIZE / 2) < sb.numData <= sb.numFat * (BLOCK_SIZE / 2)
  }

  lemma FatFitsIff(sb: SuperBlock)
    ensures FatFits(sb) && sb.numData >= 1 <==> sb.numFat == (sb.numData + 2047) / 2048 && sb.numData >= 1
  {
  }

  /** buf_size, the number of words in the buffer of load_fat: a byte count kept in 16 bits. */
  function BufferSize(numData: u16): u16 {
    if 2 * numData > BLOCK_SIZE then 2 * numData % 0x1_0000 else BLOCK_SIZE
  }

  /** Every access of load_fat to its buffer is inside it: block i fills 2048 words from word
      BLOCK_SIZE * i on, and the first numData words are copied. Otherwise its behaviour is undefined. */
  predicate LoadDefined(sb: SuperBlock) {
    && sb.numData <= BufferSize(sb.numData)
    && forall i :: 0 <= i < sb.numFat ==> BLOCK_SIZE * i + BLOCK_SIZE / 2 <= BufferSize(sb.numData)
  }

  /** The same in numbers, for any superblock: the buffer has 4096 words for a table of one block and otherwise
      twice numData modulo 65536, and the last FAT block ends at word 4096 * numFat - 2048. */
  lemma LoadDefinedInNumbers(sb: SuperBlock)
    ensures var words := if sb.numData <= 2048 then 4096 else 2 * sb.numData % 65536;
            LoadDefined(sb) <==> sb.numData <= words && 4096 * sb.numFat - 2048 <= words
  {
    if 4096 * sb.numFat - 2048 <= BufferSize(sb.numData) {
      assert forall i :: 0 <= i < sb.numFat ==> BLOCK_SIZE * i + BLOCK_SIZE / 2 <= BufferSize(sb.numData);
    }
    if sb.numFat > 0 {
      var last := sb.numFat - 1;
      assert LoadDefined(sb) ==> BLOCK_SIZE * last + BLOCK_SIZE / 2 <= BufferSize(sb.numData);
    }
  }

  /** load_fat stays inside its buffer exactly for tables of one block, and for tables of fewer than 32768
      entries whose last block is at least half full. */
  lemma LoadDefinedIff(sb: SuperBlock)
    requires FatFits(sb) && sb.numData >= 1
    ensures LoadDefined(sb)
       <==> sb.numData <= BLOCK_SIZE / 2 || (sb.numData < 0x8000 && (sb.numData - 1) % (BLOCK_SIZE / 2) >= 1023)
  {
    var last := sb.numFat - 1;
    assert sb.numData - 1 == last * 2048 + (sb.numData - 1) % 2048;
    assert LoadDefined(sb) ==> BLOCK_SIZE * last + BLOCK_SIZE / 2 <= BufferSize(sb.numData);
    if BLOCK_SIZE * last + BLOCK_SIZE / 2 <= BufferSize(sb.numData) {
      assert forall i :: 0 <= i < sb.numFat ==> BLOCK_SIZE * i + BLOCK_SIZE / 2 <= BufferSize(sb.numData);
    }
  }

  /** load_fat without its check: FAT block i is read to word BLOCK_SIZE * i of a buffer, as if that were
      its byte position, and the table is then copied from the buffer entry by entry. */
  method LoadFat(disk: seq<Block>, sb: SuperBlock, stack: nat -> u16) returns (fat: array<u16>)
    requires BlocksOf(disk, BLOCK_SIZE) && sb.numFat + 1 < |disk| && LoadDefined(sb)
    ensures fresh(fat) && fat[..] == LoadedFat(disk, sb.numData, sb.numFat, stack)
  {
    fat := new u16[sb.numData];
    var buffer := new u16[BufferSize(sb.numData)];
    forall j | 0 <= j < buffer.Length {
      buffer[j] := stack(j);
    }
    var i := 0;
    while i < sb.numFat
      invariant 0 <= i <= sb.numFat
      invariant forall j :: 0 <= j < buffer.Length ==> buffer[j] == LoadedEntry(disk, i, stack, j)
    {
      ReadWords(buffer, BLOCK_SIZE * i, disk[i + 1]);
      i := i + 1;
    }
    i := 0;
    while i < sb.numData
      invariant 0 <= i <= sb.numData
      invariant forall j :: 0 <= j < buffer.Length ==> buffer[j] == LoadedEntry(disk, sb.numFat, stack, j)
      invariant forall j :: 0 <= j < i ==> fat[j] == LoadedEntry(disk, sb.numFat, stack, j)
    {
      fat[i] := buffer[i];
      i := i + 1;
    }
  }

  /** Block b of the image fs_umount leaves behind. */
  ghost function UnmountedBlock(v: Volume, heap: nat -> u16, b: nat): (block: Block)
    requires WellFormed(v) && v.B == BLOCK_SIZE && b < |v.disk|
    ensures |block| == BLOCK_SIZE
  {
    RootEncodes(v);
    if 1 <= b <= v.sb.numFat then FatBlock(v.fat, heap, b - 1)
    else if b == v.sb.rootIndex then EncodeRoot(v.root)
    else v.disk[b]
  }

  /** The image fs_umount leaves behind. */
  ghost function UnmountedDisk(v: Volume, heap: nat -> u16): (disk: seq<Block>)
    requires WellFormed(v) && v.B == BLOCK_SIZE
    ensures |disk| == |v.disk| && BlocksOf(disk, BLOCK_SIZE)
  {
    seq(|v.disk|, b requires 0 <= b < |v.disk| => UnmountedBlock(v, heap, b))
  }

  lemma RootEncodes(v: Volume)
    requires WellFormed(v)
    ensures |EncodeRoot(v.root)| == BLOCK_SIZE && DecodeRoot(EncodeRoot(v.root), FS_FILE_MAX_COUNT) == v.root
  {
    hide EncodeRoot, DecodeRoot, Volumes.LayoutOk, Volumes.NamesUnique, Volumes.ChainsOk, Volumes.Disjoint, Volumes.FdsOk;
    assert |v.root| == FS_FILE_MAX_COUNT && forall i :: 0 <= i < |v.root| ==> EntryShape(v.root[i]);
    DecodeEncodeRoot(v.root);
  }

  // ----- the table -----

  lemma FitsAt(sb: SuperBlock, j: nat)
    requires FatFits(sb) && j < sb.numData
    ensures j / BLOCK_SIZE < sb.numFat
  {
  }

  /** Entry j survives an unmount and a mount exactly when it lies in the first half of its stride of
      BLOCK_SIZE entries; otherwise whatever the load buffer held takes its place. */
  lemma EntryAfterRemount(v: Volume, heap: nat -> u16, stack: nat -> u16, j: nat)
    requires WellFormed(v) && v.B == BLOCK_SIZE && FatFits(v.sb) && j < v.sb.numData
    ensures LoadedFat(UnmountedDisk(v, heap), v.sb.numData, v.sb.numFat, stack)[j]
         == if j % BLOCK_SIZE < BLOCK_SIZE / 2 then v.fat[j] else stack(j)
  {
    hide Codec.FatBlock;
    FitsAt(v.sb, j);
    if j % BLOCK_SIZE < BLOCK_SIZE / 2 {
      var disk, i, m := UnmountedDisk(v, heap), j / BLOCK_SIZE, j % BLOCK_SIZE;
      assert j == BLOCK_SIZE * i + m;
      assert disk[i + 1] == FatBlock(v.fat, heap, i);
      FatBlockWord(v.fat, heap, i, m);
    }
  }

  /** The table survives an unmount and a mount, whatever lies around it in memory, exactly when it fits
      one FAT block; a larger one is loaded past the end of the buffer, or with entries the buffer happened
      to hold. */
  lemma FatRoundTripIff(v: Volume, heap: nat -> u16)
    requires WellFormed(v) && v.B == BLOCK_SIZE && FatFits(v.sb)
    ensures v.sb.numData <= BLOCK_SIZE / 2
       <==> LoadDefined(v.sb)
            && forall stack: nat -> u16 :: LoadedFat(UnmountedDisk(v, heap), v.sb.numData, v.sb.numFat, stack) == v.fat
  {
    hide LoadedFat, UnmountedDisk;
    if v.sb.numData <= BLOCK_SIZE / 2 {
      LoadDefinedIff(v.sb);
      forall stack: nat -> u16
        ensures LoadedFat(UnmountedDisk(v, heap), v.sb.numData, v.sb.numFat, stack) == v.fat
      {
        SmallFatRoundTrip(v, heap, stack);
      }
    } else {
      var stack := LargeFatIsLost(v, heap);
    }
  }

  lemma SmallFatRoundTrip(v: Volume, heap: nat -> u16, stack: nat -> u16)
    requires WellFormed(v) && v.B == BLOCK_SIZE && FatFits(v.sb) && v.sb.numData <= BLOCK_SIZE / 2
    ensures LoadedFat(UnmountedDisk(v, heap), v.sb.numData, v.sb.numFat, stack) == v.fat
  {
    hide UnmountedDisk, LoadedFat;
    forall j | 0 <= j < v.sb.numData
      ensures LoadedFat(UnmountedDisk(v, heap), v.sb.numData, v.sb.numFat, stack)[j] == v.fat[j]
    {
      EntryAfterRemount(v, heap, stack, j);
    }
  }

  /** Entry 2048 of a larger table can be lost. */
  lemma LargeFatIsLost(v: Volume, heap: nat -> u16) returns (stack: nat -> u16)
    requires WellFormed(v) && v.B == BLOCK_SIZE && FatFits(v.sb) && v.sb.numData > BLOCK_SIZE / 2
    ensures LoadedFat(UnmountedDisk(v, heap), v.sb.numData, v.sb.numFat, stack) != v.fat
  {
    hide UnmountedDisk, LoadedFat;
    var half := BLOCK_SIZE / 2;
    var other: u16 := if v.fat[half] == 0 then 1 else 0;
    stack := _ => other;
    EntryAfterRemount(v, heap, stack, half);
    assert LoadedFat(UnmountedDisk(v, heap), v.sb.numData, v.sb.numFat, stack)[half] != v.fat[half];
  }

  // ----- the whole volume -----

  /** The volume found when the image is mounted again. */
  ghost function Remounted(v: Volume, heap: nat -> u16): Volume
    requires WellFormed(v) && v.B == BLOCK_SIZE
  {
    v.(disk := UnmountedDisk(v, heap), fds := NoDescriptors(), numOpen := 0)
  }

  lemma RemountedOk(v: Volume, heap: nat -> u16)
    requires WellFormed(v) && v.B == BLOCK_SIZE
    ensures WellFormed(Remounted(v, heap))
  {
    NoneIsOpen(FS_OPEN_MAX_COUNT);
  }

  /** No data block changes on the way out. */
  lemma RemountedBytes(v: Volume, heap: nat -> u16, i: nat)
    requires WellFormed(v) && v.B == BLOCK_SIZE && i < |v.root|
    ensures WellFormed(Remounted(v, heap)) && FileBytes(Remounted(v, heap), i) == FileBytes(v, i)
  {
    RemountedOk(v, heap);
    ChainOnDisk(v, i);
    ContentsFrame(v.disk, UnmountedDisk(v, heap), v.sb.dataStart, v.chains[i]);
  }

  lemma RootBlockWritten(v: Volume, heap: nat -> u16)
    requires WellFormed(v) && v.B == BLOCK_SIZE
    ensures v.sb.numFat + 1 < |v.disk| && UnmountedDisk(v, heap)[v.sb.numFat + 1] == EncodeRoot(v.root)
  {
  }

  lemma RemountedFiles(v: Volume, heap: nat -> u16)
    requires WellFormed(v) && v.B == BLOCK_SIZE
    ensures WellFormed(Remounted(v, heap)) && AbsFiles(Remounted(v, heap)) == AbsFiles(v)
  {
    hide UnmountedDisk;
    RemountedOk(v, heap);
    forall i | 0 <= i < |v.root| ensures FileBytes(Remounted(v, heap), i) == FileBytes(v, i) {
      RemountedBytes(v, heap, i);
    }
    assert Rows(Remounted(v, heap)) == Rows(v);
  }

  lemma RemountLoadsIff(v: Volume, heap: nat -> u16, stack: nat -> u16)
    requires WellFormed(v) && v.B == BLOCK_SIZE && FatFits(v.sb) && v.sb.numData <= BLOCK_SIZE / 2
    ensures ImageLoads(UnmountedDisk(v, heap), v.sb, stack) <==> v.fat[0] == FAT_EOC
  {
    hide LoadedFat, UnmountedDisk;
    SmallFatRoundTrip(v, heap, stack);
    RootEncodes(v);
    RootBlockWritten(v, heap);
  }

  lemma RemountedVolume(v: Volume, heap: nat -> u16, stack: nat -> u16)
    requires WellFormed(v) && v.B == BLOCK_SIZE && FatFits(v.sb) && v.sb.numData <= BLOCK_SIZE / 2
    ensures MountedVolume(UnmountedDisk(v, heap), v.sb, stack, 0, v.chains) == Remounted(v, heap)
  {
    hide LoadedFat, UnmountedDisk, EncodeRoot, DecodeRoot;
    SmallFatRoundTrip(v, heap, stack);
    RootEncodes(v);
    RootBlockWritten(v, heap);
  }

  /** Unmounting and mounting again is the identity on the table, the root directory and the files: with a
      table of one FAT block the image loads exactly when entry 0 still holds its mark, and then the mounted
      volume has the same table, the same root, the same chains and the same files, with nothing open. */
  lemma RemountIsIdentity(v: Volume, heap: nat -> u16, stack: nat -> u16)
    requires WellFormed(v) && v.B == BLOCK_SIZE && FatFits(v.sb) && v.sb.numData <= BLOCK_SIZE / 2
    ensures var disk := UnmountedDisk(v, heap);
            && (ImageLoads(disk, v.sb, stack) <==> v.fat[0] == FAT_EOC)
            && MountedVolume(disk, v.sb, stack, 0, v.chains) == Remounted(v, heap)
            && WellFormed(Remounted(v, heap)) && AbsFiles(Remounted(v, heap)) == AbsFiles(v)
  {
    hide ImageLoads, MountedVolume, UnmountedDisk, FlatModel.AbsFiles;
    RemountLoadsIff(v, heap, stack);
    RemountedVolume(v, heap, stack);
    RemountedFiles(v, heap);
  }
}
