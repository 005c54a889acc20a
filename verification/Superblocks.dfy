/** Block 0 of a disk: its checks, and leaving and re-entering a volume from nothing but the bytes on disk. */
module Superblocks {
  import opened Types
  import opened Blocks
  import opened Volumes
  import opened Codec
  import opened FlatModel
  import opened Runs
  import opened Mounting
  import opened Accounting
  import opened LongDeletes
  import opened Images

  const SUPERBLOCK_SIG_LEN: nat := 8
  const SUPERBLOCK_PAD_LEN: nat := 4079

  /** The fields of a superblock; the 8 bytes of the signature are not among them. */
  function SuperBlockOf(b: Block): SuperBlock
    requires |b| == BLOCK_SIZE
  {
    SuperBlock(Concat2(b[8], b[9]), Concat2(b[10], b[11]), Concat2(b[12], b[13]), Concat2(b[14], b[15]), b[16])
  }

  /** The checks of load_superblock, on a disk of count blocks. The signature is not checked. */
  ghost predicate SuperLoads(b: Block, count: nat)
    requires |b| == BLOCK_SIZE
  {
    var sb := SuperBlockOf(b);
    && sb.numBlocks == count && sb.rootIndex != 0 && sb.dataStart != 0 && sb.dataStart != sb.rootIndex
    && sb.numData < sb.numBlocks && sb.numFat < sb.numBlocks
    && forall i :: 17 <= i < BLOCK_SIZE ==> b[i] == 0
  }

  /** load_superblock: field after field, giving up at the first check that fails. */
  method LoadSuperblock(b: Block, count: nat) returns (sb: SuperBlock, ok: bool)
    requires |b| == BLOCK_SIZE
    ensures ok <==> SuperLoads(b, count)
    ensures ok ==> sb == SuperBlockOf(b)
  {
    sb, ok := SuperBlock(0, 0, 0, 0, 0), false;
    var p := SUPERBLOCK_SIG_LEN;
    sb := sb.(numBlocks := Concat2(b[p], b[p + 1]));
    p := p + 2;
    if sb.numBlocks != count {
      return;
    }
    sb := sb.(rootIndex := Concat2(b[p], b[p + 1]));
    p := p + 2;
    if sb.rootIndex <= 0 {
      return;
    }
    sb := sb.(dataStart := Concat2(b[p], b[p + 1]));
    p := p + 2;
    if sb.dataStart == 0 || sb.dataStart == sb.rootIndex {
      return;
    }
    sb := sb.(numData := Concat2(b[p], b[p + 1]));
    p := p + 2;
    if sb.numData >= sb.numBlocks {
      return;
    }
    sb := sb.(numFat := b[p]);
    p := p + 1;
    if sb.numFat >= sb.numBlocks {
      return;
    }
    var i := 0;
    while i < SUPERBLOCK_PAD_LEN
      invariant 0 <= i <= SUPERBLOCK_PAD_LEN && p == 17 + i
      invariant forall k :: 17 <= k < p ==> b[k] == 0
    {
      if b[p] != 0 {
        return;
      }
      p := p + 1;
      i := i + 1;
    }
    ok := true;
  }

  /** Number k of block 0: two bytes, least significant first. */
  function Number(b: Block, k: nat): int
    requires k + 1 < |b|
  {
    b[k] as int + 256 * b[k + 1] as int
  }

  /** The checks and the fields, byte by byte. */
  lemma SuperLoadsIff(b: Block, count: nat)
    requires |b| == 4096
    ensures SuperLoads(b, count)
       <==> && Number(b, 8) == count && Number(b, 10) != 0 && Number(b, 12) != 0 && Number(b, 10) != Number(b, 12)
            && Number(b, 14) < count && b[16] as int < count
            && forall i :: 17 <= i < 4096 ==> b[i] == 0
    ensures var sb := SuperBlockOf(b);
            && sb.numBlocks == Number(b, 8) && sb.rootIndex == Number(b, 10) && sb.dataStart == Number(b, 12)
            && sb.numData == Number(b, 14) && sb.numFat == b[16]
  {
  }

  // ----- a whole disk -----

  /** What the source needs of a disk whose superblock passes its checks, or else its behaviour is undefined:
      a table of at least one entry that fits the buffer it is loaded through, and a root block on the disk. */
  ghost predicate Loadable(disk: seq<Block>) {
    && BlocksOf(disk, BLOCK_SIZE) && |disk| > 0
    && (SuperLoads(disk[0], |disk|) ==>
          var sb := SuperBlockOf(disk[0]);
          1 <= sb.numData && sb.numFat + 1 < |disk| && LoadDefined(sb))
  }

  /** fs_mount accepts the disk. */
  ghost predicate DiskLoads(disk: seq<Block>, stack: nat -> u16)
    requires Loadable(disk)
  {
    SuperLoads(disk[0], |disk|) && ImageLoads(disk, SuperBlockOf(disk[0]), stack)
  }

  /** The volume after that. */
  ghost function DiskVolume(disk: seq<Block>, stack: nat -> u16, numOpen: int, owned: seq<seq<nat>>): Volume
    requires Loadable(disk) && SuperLoads(disk[0], |disk|)
  {
    MountedVolume(disk, SuperBlockOf(disk[0]), stack, numOpen, owned)
  }

  /** Block 0 describes the volume. */
  ghost predicate Described(v: Volume) {
    |v.disk| > 0 && |v.disk[0]| == BLOCK_SIZE && SuperLoads(v.disk[0], |v.disk|) && SuperBlockOf(v.disk[0]) == v.sb
  }

  /** No call writes block 0 or changes the superblock in memory. */
  lemma NextKeepsBlockZero(v: Volume, op: Op, v': Volume, r: Outcome)
    requires WellFormed(v) && Admissible(op) && Next(v, op, v', r)
    ensures |v'.disk| == |v.disk| > 0 && v'.disk[0] == v.disk[0] && v'.sb == v.sb && v'.B == v.B
  {
    hide Blocks.NumTarget, Blocks.Contents, Chains.Extended;
  }

  lemma HasBlockZero(v: Volume)
    requires WellFormed(v)
    ensures |v.disk| > 0
  {
  }

  lemma {:induction false} RunKeepsBlockZero(vs: seq<Volume>, ops: seq<Op>, rs: seq<Outcome>, n: nat)
    requires Run(vs, ops, rs) && n <= |ops|
    ensures WellFormed(vs[n])
    ensures |vs[n].disk| == |vs[0].disk| > 0 && vs[n].disk[0] == vs[0].disk[0] && vs[n].sb == vs[0].sb && vs[n].B == vs[0].B
  {
    hide Volumes.Next, Volumes.WellFormed;
    RunKeepsInvariant(vs, ops, rs, n);
    HasBlockZero(vs[0]);
    if n > 0 {
      RunKeepsBlockZero(vs, ops, rs, n - 1);
      assert Step(vs[n - 1], ops[n - 1], vs[n - 1 + 1], rs[n - 1]);
      NextKeepsBlockZero(vs[n - 1], ops[n - 1], vs[n], rs[n - 1]);
    }
  }

  /** fs_umount keeps block 0, so a described volume leaves a disk that the checks of block 0 accept, with the
      same superblock. */
  lemma UnmountedIsDescribed(v: Volume, heap: nat -> u16)
    requires WellFormed(v) && v.B == BLOCK_SIZE && Described(v)
    ensures var disk := UnmountedDisk(v, heap);
            |disk| == |v.disk| && disk[0] == v.disk[0] && SuperLoads(disk[0], |disk|) && SuperBlockOf(disk[0]) == v.sb
  {
  }

  /** v' is v with nothing open: the same table, root directory, chains and files, block 0 included. */
  ghost predicate Reentered(v: Volume, v': Volume)
    requires WellFormed(v)
  {
    && WellFormed(v') && Described(v') && v'.sb == v.sb && v'.numOpen == 0 && v'.fds == seq(32, _ => None)
    && v'.fat == v.fat && v'.root == v.root && v'.chains == v.chains && AbsFiles(v') == AbsFiles(v)
  }

  /** Leaving a described volume and coming back. */
  lemma Reenters(v: Volume, heap: nat -> u16, stack: nat -> u16)
    requires WellFormed(v) && v.B == BLOCK_SIZE && FatFits(v.sb) && v.sb.numData <= BLOCK_SIZE / 2 && Described(v)
    ensures var disk := UnmountedDisk(v, heap);
            && Loadable(disk) && SuperLoads(disk[0], |disk|)
            && (DiskLoads(disk, stack) <==> v.fat[0] == FAT_EOC)
            && WellFormed(DiskVolume(disk, stack, 0, v.chains)) && Reentered(v, DiskVolume(disk, stack, 0, v.chains))
  {
    hide ImageLoads, UnmountedDisk, MountedVolume, SuperLoads, AbsFiles, LoadDefined, FatFits;
    UnmountedIsDescribed(v, heap);
    LoadDefinedIff(v.sb);
    RemountIsIdentity(v, heap, stack);
    assert Remounted(v, heap).fds == seq(32, _ => None);
  }

  /** A whole session: the disk left by any run of calls and an unmount is accepted by fs_mount, from its bytes
      alone, exactly when the run accepted no delete of a file of two or more blocks; the mounted volume is then
      the one that was left, with nothing open, and holds the same files. */
  lemma SessionRemounts(vs: seq<Volume>, ops: seq<Op>, rs: seq<Outcome>, heap: nat -> u16, stack: nat -> u16)
    requires Run(vs, ops, rs) && vs[0].fat[0] == FAT_EOC && Described(vs[0])
    requires vs[0].B == BLOCK_SIZE && FatFits(vs[0].sb) && vs[0].sb.numData <= BLOCK_SIZE / 2
    ensures WellFormed(vs[|ops|]) && vs[|ops|].B == BLOCK_SIZE
    ensures var v := vs[|ops|];
            var disk := UnmountedDisk(v, heap);
            && Loadable(disk) && SuperLoads(disk[0], |disk|)
            && (DiskLoads(disk, stack) <==> forall i :: 0 <= i < |ops| ==> !LongDelete(vs[i], ops[i]))
            && Reentered(v, DiskVolume(disk, stack, 0, v.chains))
  {
    hide Volumes.Next, LongDelete, UnmountedDisk, DiskLoads, DiskVolume, SuperLoads, LoadDefined, FatFits;
    RunKeepsBlockZero(vs, ops, rs, |ops|);
    RunMark(vs, ops, rs, |ops|);
    Reenters(vs[|ops|], heap, stack);
  }

  /** fs_mount byte by byte: block 0 passes its checks, the first word of the table is 0xFF 0xFF, and bytes 22
      to 31 of every root entry are zero. */
  lemma DiskLoadsIff(disk: seq<Block>, stack: nat -> u16)
    requires Loadable(disk)
    ensures |disk[0]| == 4096
    ensures SuperLoads(disk[0], |disk|) ==> |disk| > disk[0][16] as int + 1 && |disk[1]| == |disk[disk[0][16] as int + 1]| == 4096
    ensures DiskLoads(disk, stack)
       <==> && SuperLoads(disk[0], |disk|)
            && (if disk[0][16] >= 1 then disk[1][0] == 0xFF && disk[1][1] == 0xFF else stack(0) == 65535)
            && forall i :: 0 <= i < 128 ==>
                 disk[disk[0][16] as int + 1][32 * i + 22..32 * i + 32] == [0, 0, 0, 0, 0, 0, 0, 0, 0, 0]
  {
    hide SuperLoads;
    if SuperLoads(disk[0], |disk|) {
      var sb := SuperBlockOf(disk[0]);
      if sb.numFat >= 1 {
        MountLoadsIff(disk, sb, stack);
      } else {
        RootLoadsIff(disk[1]);
      }
    }
  }
}
