/** The on-disk image byte by byte: where every field of the root directory and every entry of the table lies,
    what unmounting writes, and what mounting accepts. */
module Images {
  import opened Types
  import opened Blocks
  import opened Volumes
  import opened Codec
  import opened Mounting

  // ----- the table -----

  /** The 16-bit word m of a block, least significant byte first, is x. */
  predicate WordAt(b: seq<byte>, m: nat, x: u16) {
    2 * m + 1 < |b| && x == b[2 * m] as int + 256 * b[2 * m + 1] as int
  }

  // ----- unmount -----

  /** fs_umount writes the blocks of the table and the root block, and no other. */
  lemma UnmountFrame(v: Volume, heap: nat -> u16, b: nat)
    requires WellFormed(v) && v.B == BLOCK_SIZE && b < |v.disk|
    requires !(1 <= b <= v.sb.numFat) && b != v.sb.rootIndex
    ensures UnmountedDisk(v, heap)[b] == v.disk[b]
  {
  }

  /** Word m of FAT block i is table entry 4096 * i + m, and past the end of the table whatever the memory
      behind it holds. */
  lemma UnmountEntry(v: Volume, heap: nat -> u16, i: nat, m: nat)
    requires WellFormed(v) && v.B == BLOCK_SIZE && i < v.sb.numFat && m < 2048
    ensures var j := 4096 * i + m;
            WordAt(UnmountedDisk(v, heap)[1 + i], m, if j < |v.fat| then v.fat[j] else heap(j))
  {
    hide Codec.FatBlock;
    FatBlockWord(v.fat, heap, i, m);
    assert UnmountedDisk(v, heap)[1 + i] == FatBlock(v.fat, heap, i);
  }

  /** With the mark of entry 0 intact, block 1 of the image begins with 0xFF 0xFF. */
  lemma UnmountMark(v: Volume, heap: nat -> u16)
    requires WellFormed(v) && v.B == BLOCK_SIZE && v.sb.numFat >= 1
    ensures |UnmountedDisk(v, heap)[1]| == 4096
    ensures v.fat[0] == 65535 <==> UnmountedDisk(v, heap)[1][0] == 0xFF && UnmountedDisk(v, heap)[1][1] == 0xFF
    ensures v.fat[0] == 65535 || v.fat[0] == 0
  {
    hide UnmountedDisk;
    UnmountEntry(v, heap, 0, 0);
  }

  /** Root entry i lies in bytes 32*i to 32*i + 31 of the root block. */
  lemma UnmountRoot(v: Volume, heap: nat -> u16, i: nat)
    requires WellFormed(v) && v.B == BLOCK_SIZE && i < 128
    ensures |v.root| == 128 && |UnmountedDisk(v, heap)[v.sb.rootIndex]| == 4096
    ensures EntryAt(UnmountedDisk(v, heap)[v.sb.rootIndex], 32 * i, v.root[i])
  {
    hide Codec.EncodeRoot, Codec.DecodeRoot, EntryAt;
    RootEncodes(v);
    RootBlockWritten(v, heap);
    RootEntryAt(EncodeRoot(v.root), 128, i);
  }

  // ----- mount -----

  /** fs_mount accepts table and root directory exactly when block 1 begins with 0xFF 0xFF and bytes 22 to 31
      of every root entry are zero. */
  lemma MountLoadsIff(disk: seq<Block>, sb: SuperBlock, stack: nat -> u16)
    requires BlocksOf(disk, BLOCK_SIZE) && 1 <= sb.numData && sb.numFat + 1 < |disk| && sb.numFat >= 1
    ensures |disk[1]| == 4096 && |disk[sb.numFat + 1]| == 4096
    ensures ImageLoads(disk, sb, stack)
       <==> && disk[1][0] == 0xFF && disk[1][1] == 0xFF
            && forall i :: 0 <= i < 128 ==>
                 disk[sb.numFat + 1][32 * i + 22..32 * i + 32] == [0, 0, 0, 0, 0, 0, 0, 0, 0, 0]
  {
    RootLoadsIff(disk[sb.numFat + 1]);
    assert LoadedFat(disk, sb.numData, sb.numFat, stack)[0] == Word(disk[1], 0);
    assert Word(disk[1], 0) == disk[1][0] as int + 256 * disk[1][1] as int;
  }

  /** The mounted volume, read off the image: the entries of the table that the strides reach, the others from
      the uninitialised buffer, the 128 root entries, 32 free descriptors. */
  lemma MountReads(disk: seq<Block>, sb: SuperBlock, stack: nat -> u16, numOpen: int, owned: seq<seq<nat>>)
    requires BlocksOf(disk, BLOCK_SIZE) && sb.numFat + 1 < |disk|
    ensures var v := MountedVolume(disk, sb, stack, numOpen, owned);
            && v.B == 4096 && v.sb == sb && v.disk == disk && v.numOpen == numOpen && v.chains == owned
            && |v.fat| == sb.numData && |v.root| == 128 && v.fds == seq(32, _ => None)
            && (forall i :: 0 <= i < 128 ==> EntryAt(disk[sb.numFat + 1], 32 * i, v.root[i]))
            && forall j :: 0 <= j < sb.numData ==>
                 if j % 4096 < 2048 && j / 4096 < sb.numFat then WordAt(disk[1 + j / 4096], j % 4096, v.fat[j])
                 else v.fat[j] == stack(j)
  {
    var v := MountedVolume(disk, sb, stack, numOpen, owned);
    forall i | 0 <= i < 128 ensures EntryAt(disk[sb.numFat + 1], 32 * i, v.root[i]) {
      RootEntryAt(disk[sb.numFat + 1], 128, i);
    }
    assert v.fds == seq(32, _ => None);
  }
}
