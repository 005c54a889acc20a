/** The file system calls of libfs/fs.c over the mutable globals they work on. */
module FileSystems {
  import opened Types
  import opened Blocks
  import opened Chains
  import opened Names
  import opened Volumes
  import opened Invariant
  import opened Codec
  import opened Mounting
  import opened Superblocks

  /** The documented result of fs_umount: failure when nothing is mounted or descriptors are open. */
  function DocumentedUmount(mounted: bool, numOpen: int): int {
    if !mounted || numOpen > 0 then -1 else 0
  }

  class FileSystem {
    /** The block size; 4096 in the source. */
    const B: nat
    var mounted: bool
    var sb: SuperBlock
    /** The device: one entry per block. */
    var disk: seq<Block>
    var fat: array<u16>
    var root: array<File>
    var openFiles: array<Option<Descriptor>>
    var numOpen: byte
    /** The data blocks of each root slot, in file order. */
    ghost var chains: seq<seq<nat>>

    ghost function Model(): Volume
      reads this, fat, root, openFiles
    {
      Volume(B, sb, disk, fat[..], root[..], openFiles[..], numOpen, chains)
    }

    ghost predicate Valid()
      reads this, fat, root, openFiles
    {
      mounted ==> WellFormed(Model())
    }

    constructor (blockSize: nat, device: seq<Block>)
      ensures !mounted && Valid() && B == blockSize && disk == device && numOpen == 0
      ensures fresh(fat) && fresh(root) && fresh(openFiles)
    {
      B := blockSize;
      mounted := false;
      disk := device;
      sb := SuperBlock(0, 0, 0, 0, 0);
      fat := new u16[0];
      root := new File[0];
      openFiles := new Option<Descriptor>[0];
      numOpen := 0;
      chains := [];
    }

    // ----- mount and unmount -----

    /** fs_mount: block 0, the table, the root directory. stack is the uninitialised buffer the table is loaded
        through, owned the chains of the image, for which the mounted volume is well-formed if the image is and
        nothing was left open. A failed mount leaves the disk flagged as mounted. */
    method Mount(stack: nat -> u16, ghost owned: seq<seq<nat>>) returns (r: int)
      requires Valid() && B == BLOCK_SIZE && (!mounted ==> Loadable(disk))
      modifies this
      ensures B == BLOCK_SIZE && disk == old(disk) && numOpen == old(numOpen)
      ensures old(mounted) ==> r == -1 && Valid() && Model() == old(Model())
      ensures old(mounted) ==> fat == old(fat) && root == old(root) && openFiles == old(openFiles)
      ensures !old(mounted) ==> mounted && r == if DiskLoads(disk, stack) then 0 else -1
      ensures !old(mounted) && r == 0 ==> Model() == DiskVolume(disk, stack, numOpen, owned) && Described(Model())
      ensures !old(mounted) && r == 0 ==> fresh(fat) && fresh(root) && fresh(openFiles)
    {
      hide Codec.LoadedFat, Codec.DecodeRoot, Codec.RootLoads, Superblocks.SuperLoads;
      if mounted {
        return -1;
      }
      mounted := true;
      var image, ok := LoadSuperblock(disk[0], |disk|);
      sb := image;
      if !ok {
        return -1;
      }
      fat := LoadFat(disk, image, stack);
      if fat[0] != FAT_EOC {
        return -1;
      }
      root := new File[FS_FILE_MAX_COUNT](_ => File([], 0, 0, []));
      ok := LoadRootDirectory(disk[image.numFat + 1], root);
      if !ok {
        return -1;
      }
      openFiles := new Option<Descriptor>[FS_OPEN_MAX_COUNT](_ => None);
      chains := owned;
      assert openFiles[..] == NoDescriptors();
      return 0;
    }

    /** The table, block by block. */
    method StoreFat(heap: nat -> u16)
      requires sb.numFat < |disk|
      modifies `disk
      ensures |disk| == |old(disk)|
      ensures forall b :: 0 <= b < |disk| ==>
                disk[b] == if 1 <= b <= sb.numFat then FatBlock(fat[..], heap, b - 1) else old(disk)[b]
    {
      hide Codec.FatBlock;
      var i := 0;
      while i < sb.numFat
        invariant 0 <= i <= sb.numFat && |disk| == |old(disk)|
        invariant forall b :: 0 <= b < |disk| ==>
                    disk[b] == if 1 <= b <= i then FatBlock(fat[..], heap, b - 1) else old(disk)[b]
      {
        var block := FatBlock(fat[..], heap, i);
        disk := disk[i + 1 := block];
        i := i + 1;
      }
    }

    /** fs_umount: writes the table and the root directory. It does not refuse when files are open. heap is
        the memory past the end of the table. */
    method Umount(heap: nat -> u16) returns (r: int)
      requires Valid() && B == BLOCK_SIZE
      modifies `disk, `mounted
      ensures Valid()
      ensures if old(mounted) then r == 0 && !mounted && disk == UnmountedDisk(old(Model()), heap)
              else r == -1 && Model() == old(Model()) && !mounted
      ensures |disk| == |old(disk)|
      ensures forall b :: 0 <= b < |disk| && !(1 <= b <= sb.numFat) && b != sb.rootIndex ==> disk[b] == old(disk)[b]
      ensures r == DocumentedUmount(old(mounted), numOpen) <==> !old(mounted) || numOpen == 0
    {
      hide Codec.FatBlock, Codec.EncodeRoot;
      if !mounted {
        return -1;
      }
      ghost var v := Model();
      StoreFat(heap);
      var rootArray := SerializeRoot(root);
      disk := disk[sb.rootIndex as int := rootArray[..]];
      ghost var image := UnmountedDisk(v, heap);
      forall b | 0 <= b < |disk| ensures disk[b] == image[b] {
      }
      mounted := false;
      return 0;
    }

    // ----- names -----

    method FindMatchingFilename(s: CString) returns (r: int)
      ensures r == FindName(root[..], s)
    {
      var i := 0;
      while i < root.Length
        invariant 0 <= i <= root.Length
        invariant forall j :: 0 <= j < i ==> CName(root[j].name) != s
      {
        if CName(root[i].name) == s {
          return i;
        }
        i := i + 1;
      }
      return -1;
    }

    method FindEmptyRootEntry() returns (r: int)
      requires forall i :: 0 <= i < root.Length ==> |root[i].name| == FS_FILENAME_LEN
      ensures r == FindEmpty(root[..])
    {
      var i := 0;
      while i < root.Length
        invariant 0 <= i <= root.Length
        invariant forall j :: 0 <= j < i ==> Used(root[j])
      {
        if root[i].name[0] == 0 {
          return i;
        }
        i := i + 1;
      }
      return -1;
    }

    // ----- create, open, close, stat, lseek -----

    method Create(filename: Option<CString>) returns (r: int)
      requires Valid()
      modifies root
      ensures Valid()
      ensures if mounted then CreateNext(old(Model()), filename, Model(), Outcome(r, []))
              else r == -1 && Model() == old(Model())
    {
      hide Volumes.ChainsOk, Volumes.Disjoint, Volumes.NamesUnique, Volumes.FdsOk, Volumes.LayoutOk;
      if !mounted {
        return -1;
      }
      if Invalid(filename) {
        return -1;
      }
      var s := filename.value;
      var existing := FindMatchingFilename(s);
      if existing != -1 {
        return -1;
      }
      var slot := FindEmptyRootEntry();
      if slot == -1 {
        return -1;
      }
      ghost var v := Model();
      StoreName(slot, s);
      root[slot] := root[slot].(size := 0);
      root[slot] := root[slot].(first := FAT_EOC);
      ghost var e := v.root[slot];
      assert root[..] == v.root[slot := e.(name := StoredName(e.name, s), size := 0, first := FAT_EOC)];
      CreateKeeps(v, filename, Model(), Outcome(0, []));
      return 0;
    }

    /** The byte-by-byte copy of a name and its terminator into a root entry. */
    method StoreName(slot: nat, s: CString)
      requires slot < root.Length && |s| < |root[slot].name|
      modifies root
      ensures root[..] == old(root[..])[slot := old(root[slot]).(name := StoredName(old(root[slot].name), s))]
    {
      ghost var name := root[slot].name;
      var i := 0;
      while i < |s|
        invariant 0 <= i <= |s|
        invariant root[slot] == old(root[slot]).(name := root[slot].name)
        invariant |root[slot].name| == |name| && root[slot].name[..i] == s[..i] && root[slot].name[i..] == name[i..]
        invariant forall j :: 0 <= j < root.Length && j != slot ==> root[j] == old(root[j])
      {
        root[slot] := root[slot].(name := root[slot].name[i := s[i]]);
        i := i + 1;
      }
      root[slot] := root[slot].(name := root[slot].name[|s| := 0]);
      assert root[slot].name == StoredName(name, s);
    }

    /** add_file_to_fd_array: the guard admits one file too many, the search for a free slot does not. */
    method AddFileToFdArray(file: nat) returns (fd: int)
      requires openFiles.Length == 32 && numOpen == OpenCount(openFiles[..])
      modifies `numOpen, openFiles
      ensures fd == FindFd(old(openFiles[..]))
      ensures fd == -1 ==> openFiles[..] == old(openFiles[..]) && numOpen == old(numOpen)
      ensures fd != -1 ==> openFiles[..] == old(openFiles[..])[fd := Some(Descriptor(file, 0))]
      ensures fd != -1 ==> numOpen == old(numOpen) + 1
    {
      if numOpen > FS_OPEN_MAX_COUNT {
        return -1;
      }
      var d := Descriptor(file, 0);
      fd := -1;
      var i := 0;
      while i < FS_OPEN_MAX_COUNT
        invariant 0 <= i <= FS_OPEN_MAX_COUNT
        invariant openFiles[..] == old(openFiles[..]) && numOpen == old(numOpen) && fd == -1
        invariant forall j :: 0 <= j < i ==> openFiles[j].Some?
      {
        if openFiles[i].None? {
          openFiles[i] := Some(d);
          fd := i;
          numOpen := numOpen + 1;
          break;
        }
        i := i + 1;
      }
    }

    method Open(filename: Option<CString>) returns (r: int)
      requires Valid()
      modifies `numOpen, openFiles
      ensures Valid()
      ensures if mounted then OpenNext(old(Model()), filename, Model(), Outcome(r, []))
              else r == -1 && Model() == old(Model())
    {
      if !mounted {
        return -1;
      }
      if Invalid(filename) {
        return -1;
      }
      var index := FindMatchingFilename(filename.value);
      if index == -1 {
        return -1;
      }
      ghost var v := Model();
      var fd := AddFileToFdArray(index);
      OpenKeeps(v, filename, Model(), Outcome(fd, []));
      return fd;
    }

    method Close(fd: int) returns (r: int)
      requires Valid() && Admissible(Op.Close(fd))
      modifies `numOpen, openFiles
      ensures Valid()
      ensures if mounted then CloseNext(old(Model()), fd, Model(), Outcome(r, []))
              else r == -1 && Model() == old(Model())
    {
      if !mounted {
        return -1;
      }
      if fd < 0 || fd >= FS_FILE_MAX_COUNT {
        return -1;
      }
      if openFiles[fd].None? {
        return -1;
      }
      ghost var v := Model();
      OpenCountUpdate(v.fds, fd, None);
      openFiles[fd] := None;
      numOpen := numOpen - 1;
      CloseKeeps(v, fd, Model(), Outcome(0, []));
      return 0;
    }

    method Stat(fd: int) returns (r: int)
      requires Valid() && Admissible(Op.Stat(fd))
      ensures if mounted then StatNext(Model(), fd, Model(), Outcome(r, [])) else r == -1
      ensures mounted && 0 <= fd < openFiles.Length && openFiles[fd].Some? ==>
        openFiles[fd].value.file < root.Length &&
        var size := root[openFiles[fd].value.file].size;
        r == if size <= 0x7FFF_FFFF then size else size - 0x1_0000_0000
    {
      if !mounted {
        return -1;
      }
      if fd < 0 || fd >= FS_FILE_MAX_COUNT {
        return -1;
      }
      if openFiles[fd].None? {
        return -1;
      }
      return ToInt(root[openFiles[fd].value.file].size);
    }

    method Lseek(fd: int, offset: nat) returns (r: int)
      requires Valid() && Admissible(Op.Lseek(fd, offset))
      modifies openFiles
      ensures Valid()
      ensures if mounted then LseekNext(old(Model()), fd, offset, Model(), Outcome(r, []))
              else r == -1 && Model() == old(Model())
    {
      if !mounted {
        return -1;
      }
      if fd < 0 || fd >= FS_FILE_MAX_COUNT {
        return -1;
      }
      if openFiles[fd].None? {
        return -1;
      }
      if offset > root[openFiles[fd].value.file].size {
        return -1;
      }
      ghost var v := Model();
      openFiles[fd] := Some(openFiles[fd].value.(offset := offset % 0x1_0000));
      SeekKeeps(v, fd, offset % 0x1_0000);
      return 0;
    }

    // ----- the allocation table -----

    /** find_data_block: the index of block number blockNum of the file, or FAT_EOC beyond its end. */
    method FindDataBlock(fd: int, blockNum: nat) returns (b: u16)
      requires 0 <= fd < openFiles.Length && openFiles[fd].Some?
      requires openFiles[fd].value.file < root.Length == |chains| && fat.Length < FAT_EOC
      requires IsChain(fat[..], root[openFiles[fd].value.file].first, chains[openFiles[fd].value.file])
      ensures var c := chains[openFiles[fd].value.file];
              b == if blockNum < |c| then c[blockNum] else FAT_EOC
    {
      ghost var c := chains[openFiles[fd].value.file];
      var first := root[openFiles[fd].value.file].first;
      if blockNum == 0 {
        return first;
      }
      var blockIndex := first;
      var i := 0;
      while i < blockNum
        invariant 0 <= i <= blockNum && i <= |c|
        invariant blockIndex == if i < |c| then c[i] else FAT_EOC
      {
        if blockIndex == FAT_EOC {
          return FAT_EOC;
        }
        assert fat[..][c[i]] == Link(c, i);
        blockIndex := fat[blockIndex];
        i := i + 1;
      }
      return blockIndex;
    }

    /** One of the two searches of allocate_blocks_in_fat: the first free entry from index 1 on; 0 when there is none. */
    method FindFreeEntry() returns (i: u16)
      requires 1 <= fat.Length == sb.numData
      ensures i == 0 ==> forall j :: 1 <= j < fat.Length ==> fat[j] != 0
      ensures i != 0 ==> LeastFreeEntry(fat[..], i)
    {
      var k := 1;
      while k < sb.numData
        invariant 1 <= k <= fat.Length
        invariant forall j :: 1 <= j < k ==> fat[j] != 0
      {
        if fat[k] == 0 {
          return k;
        }
        k := k + 1;
      }
      return 0;
    }

    /** The first stage of allocate_blocks_in_fat: an empty file gets its first block, if one is free. */
    method AllocateFirstBlock(f: nat) returns (ok: bool)
      requires f < root.Length == |chains| && 1 <= fat.Length == sb.numData < FAT_EOC
      requires root[f].first == FAT_EOC && chains[f] == []
      modifies fat, root, `chains
      ensures ok <==> Free(old(fat[..])) != []
      ensures !ok ==> fat[..] == old(fat[..]) && root[..] == old(root[..]) && chains == old(chains)
      ensures ok ==> Grown(old(fat[..]), fat[..], root[f].first, [], 1)
      ensures ok ==> root[..] == old(root[..])[f := old(root[f]).(first := root[f].first)]
      ensures ok ==> chains == old(chains)[f := Free(old(fat[..]))[..1]] && chains[f] != []
      ensures ok ==> IsChain(fat[..], root[f].first, chains[f])
    {
      ghost var fat0 := fat[..];
      var i := FindFreeEntry();
      if i == 0 {
        FreeFacts(fat0);
        EmptyOrHead(Free(fat0));
        return false;
      }
      FreeHead(fat0, i);
      GrowFirst(fat0, i);
      fat[i] := FAT_EOC;
      assert fat[..] == fat0[i as int := FAT_EOC];
      root[f] := root[f].(first := i);
      chains := chains[f := Free(fat0)[..1]];
      assert [] + Free(fat0)[..1] == Free(fat0)[..1];
      return true;
    }

    /** The second stage: the walk to the last block of a non-empty chain, counting blocks. */
    method FindTail(f: nat) returns (tail: u16, num: nat)
      requires f < root.Length == |chains| && fat.Length < FAT_EOC
      requires IsChain(fat[..], root[f].first, chains[f]) && chains[f] != []
      ensures num == |chains[f]| && tail == chains[f][num - 1]
    {
      ghost var c := chains[f];
      num := 1;
      tail := root[f].first;
      assert fat[..][c[0]] == Link(c, 0);
      while fat[tail] != FAT_EOC
        invariant 1 <= num <= |c| && tail == c[num - 1] && fat[tail] == Link(c, num - 1)
        decreases |c| - num
      {
        tail := fat[tail];
        num := num + 1;
        assert fat[..][c[num - 1]] == Link(c, num - 1);
      }
    }

    method LinkBehind(blockIndex: u16, i: u16)
      requires blockIndex < fat.Length && i < fat.Length
      modifies fat
      ensures fat[..] == old(fat[..])[blockIndex as int := i][i as int := FAT_EOC]
    {
      fat[blockIndex] := i;
      fat[i] := FAT_EOC;
    }

    /** The third stage: one free block after the other is linked behind the tail. The ghost parameters
        describe the table before the first stage and the n blocks added since. */
    method ExtendChain(f: nat, tail: u16, len: nat, target: nat,
                       ghost fat0: seq<u16>, ghost first0: u16, ghost c: seq<nat>, ghost n0: nat)
      returns (ok: bool, ghost n: nat)
      requires f < root.Length == |chains| && 1 <= fat.Length == sb.numData == |fat0| < FAT_EOC
      requires IsChain(fat0, first0, c) && Grown(fat0, fat[..], root[f].first, c, n0)
      requires len == |c| + n0 && Tail(fat0, c, n0, tail)
      modifies fat, `chains
      ensures Grown(fat0, fat[..], root[f].first, c, n)
      ensures chains == old(chains)[f := c + Free(fat0)[..n]]
      ensures n == if ok then Max(n0, target - |c|) else |Free(fat0)|
      ensures !ok ==> |c| + n < target
    {
      n := n0;
      var num, blockIndex := len, tail;
      ok := true;
      while num < target
        invariant Grown(fat0, fat[..], root[f].first, c, n)
        invariant ok && chains == old(chains) && num == |c| + n && Tail(fat0, c, n, blockIndex)
        invariant num <= Max(len, target) && n0 <= n
      {
        var i := FindFreeEntry();
        if i == 0 {
          GrowEnd(fat0, first0, fat[..], root[f].first, c, n);
          ok := false;
          break;
        }
        GrowNext(fat0, first0, fat[..], root[f].first, c, n, blockIndex, i);
        LinkBehind(blockIndex, i);
        n := n + 1;
        num := num + 1;
        blockIndex := i;
      }
      chains := chains[f := c + Free(fat0)[..n]];
    }

    /** allocate_blocks_in_fat: first-fit extension of the file's chain to target blocks. The chain
        gains the smallest free indices in ascending order, as many as are needed or all there are. */
    method AllocateBlocksInFat(fd: int, target: nat) returns (r: int)
      requires 0 <= fd < openFiles.Length && openFiles[fd].Some?
      requires openFiles[fd].value.file < root.Length == |chains| && 1 <= fat.Length == sb.numData < FAT_EOC
      requires IsChain(fat[..], root[openFiles[fd].value.file].first, chains[openFiles[fd].value.file])
      modifies fat, root, `chains
      ensures var f := openFiles[fd].value.file;
              var c := old(chains)[f];
              var added := Fresh(old(fat[..]), |c|, target);
              && Extended(old(fat[..]), fat[..], root[f].first, c, added)
              && root[..] == old(root[..])[f := old(root[f]).(first := root[f].first)]
              && chains == old(chains)[f := c + added]
              && r == if |c + added| < target then -1 else 0
    {
      hide Chains.Extended, Chains.Free;
      ghost var fat0 := fat[..];
      var f := openFiles[fd].value.file;
      ghost var c, first0, n := chains[f], root[f].first, 0;
      GrownNone(fat0, first0, c);
      if target <= 0 {
        return 0;
      }
      if root[f].first == FAT_EOC {
        var ok := AllocateFirstBlock(f);
        if !ok {
          return -1;
        }
        n := 1;
        assert c + Free(fat0)[..1] == Free(fat0)[..1];
      }
      var tail, num := FindTail(f);
      assert chains[f] == c + Free(fat0)[..n];
      assert Tail(fat0, c, n, tail);
      var ok;
      ok, n := ExtendChain(f, tail, num, target, fat0, first0, c, n);
      return if ok then 0 else -1;
    }

    // ----- write -----

    /** The file of an open descriptor is a chain of distinct blocks, all on the device. */
    ghost predicate Transferable(fd: int)
      reads this, fat, root, openFiles
    {
      && B > 0 && BlocksOf(disk, B) && |disk| == sb.numBlocks && fat.Length < FAT_EOC
      && 0 <= fd < openFiles.Length && openFiles[fd].Some?
      && var f := openFiles[fd].value.file;
      && f < root.Length == |chains|
      && IsChain(fat[..], root[f].first, chains[f])
      && Injective(chains[f]) && OnDisk(disk, sb.dataStart, chains[f])
    }

    ghost function ChainOf(fd: int): seq<nat>
      requires Transferable(fd)
      reads this, fat, root, openFiles
    {
      chains[openFiles[fd].value.file]
    }

    /** Block k of the file through the bounce buffer: read it, overwrite part of it, write it back. */
    method PatchBlock(fd: int, ghost disk0: seq<Block>, ghost off: nat, ghost done: seq<byte>, ghost k: nat,
                      index: u16, inner: nat, data: seq<byte>)
      requires Transferable(fd) && BlocksOf(disk0, B)
      requires DiskWritten(disk0, disk, sb.dataStart, ChainOf(fd), off, done, B)
      requires k < |ChainOf(fd)| && index == ChainOf(fd)[k]
      requires off + |done| == k * B + inner && inner + |data| <= B && data != []
      modifies `disk
      ensures Transferable(fd)
      ensures DiskWritten(disk0, disk, sb.dataStart, ChainOf(fd), off, done + data, B)
    {
      hide Blocks.DiskWritten, Chains.IsChain;
      WriteStep(disk0, disk, sb.dataStart, ChainOf(fd), off, done, k, inner, data, B);
      var at: u16 := index + sb.dataStart;
      var bounce := disk[at];
      bounce := Splice(bounce, inner, data);
      disk := disk[at as int := bounce];
    }

    /** Block k of the file written as a whole. */
    method PutBlock(fd: int, ghost disk0: seq<Block>, ghost off: nat, ghost done: seq<byte>, ghost k: nat,
                    index: u16, data: seq<byte>)
      requires Transferable(fd) && BlocksOf(disk0, B)
      requires DiskWritten(disk0, disk, sb.dataStart, ChainOf(fd), off, done, B)
      requires k < |ChainOf(fd)| && index == ChainOf(fd)[k]
      requires off + |done| == k * B && |data| == B
      modifies `disk
      ensures Transferable(fd)
      ensures DiskWritten(disk0, disk, sb.dataStart, ChainOf(fd), off, done + data, B)
    {
      hide Blocks.DiskWritten, Chains.IsChain;
      WriteStep(disk0, disk, sb.dataStart, ChainOf(fd), off, done, k, 0, data, B);
      var at: u16 := index + sb.dataStart;
      assert Splice(disk[at], 0, data) == data;
      disk := disk[at as int := data];
    }

    /** The partial first block of a write. */
    method WriteHead(fd: int, offset: u16, buf: seq<byte>, count: nat) returns (done: nat, stop: bool)
      requires Transferable(fd) && 0 < count <= |buf| && offset % B != 0
      modifies `disk
      ensures Transferable(fd)
      ensures stop <==> |ChainOf(fd)| <= offset / B
      ensures stop ==> disk == old(disk) && done == 0
      ensures !stop ==> done == HeadAmount(offset, count, B) <= count
      ensures !stop ==> DiskWritten(old(disk), disk, sb.dataStart, ChainOf(fd), offset, buf[..done], B)
    {
      DivBounds(offset, B);
      var k := offset / B;
      var index := FindDataBlock(fd, k);
      if index == FAT_EOC {
        return 0, true;
      }
      if offset % B + count < B {
        done := count;
      } else {
        done := B - offset % B;
      }
      PatchBlock(fd, disk, offset, [], k, index, offset % B, buf[..done]);
      assert [] + buf[..done] == buf[..done];
      return done, false;
    }

    /** One whole block of a write. */
    method WriteWhole(fd: int, ghost disk0: seq<Block>, offset: u16, buf: seq<byte>, k: nat, done: nat) returns (stop: bool)
      requires Transferable(fd) && BlocksOf(disk0, B) && done + B <= |buf|
      requires DiskWritten(disk0, disk, sb.dataStart, ChainOf(fd), offset, buf[..done], B)
      requires offset + done == k * B
      modifies `disk
      ensures Transferable(fd)
      ensures stop <==> |ChainOf(fd)| <= k
      ensures DiskWritten(disk0, disk, sb.dataStart, ChainOf(fd), offset, buf[..if stop then done else done + B], B)
    {
      var index := FindDataBlock(fd, k);
      if index == FAT_EOC {
        return true;
      }
      PutBlock(fd, disk0, offset, buf[..done], k, index, buf[done..done + B]);
      assert buf[..done] + buf[done..done + B] == buf[..done + B];
      return false;
    }

    /** The whole blocks of a write: blocks start up to start + full, or up to the end of the chain. */
    method WriteFullBlocks(fd: int, ghost disk0: seq<Block>, offset: u16, buf: seq<byte>, ghost count: nat,
                           start: nat, full: nat, ghost target: nat, w: nat)
      returns (done: nat, stop: bool, ghost j: nat)
      requires Transferable(fd) && BlocksOf(disk0, B) && count <= |buf|
      requires Split(offset, count, B, w, start, full, target)
      requires DiskWritten(disk0, disk, sb.dataStart, ChainOf(fd), offset, buf[..w], B)
      modifies `disk
      ensures Transferable(fd)
      ensures done == w + j * B <= count && j <= full && (stop ==> j < full) && (!stop ==> j == full)
      ensures DiskWritten(disk0, disk, sb.dataStart, ChainOf(fd), offset, buf[..done], B)
      ensures j > 0 ==> start + j <= |ChainOf(fd)|
      ensures stop ==> |ChainOf(fd)| <= start + j && done < count
    {
      hide Blocks.DiskWritten;
      done, j, stop := w, 0, false;
      var i := start;
      while i < full + start
        invariant i == start + j && j <= full && done == w + j * B <= count
        invariant Transferable(fd)
        invariant DiskWritten(disk0, disk, sb.dataStart, ChainOf(fd), offset, buf[..done], B)
        invariant j > 0 ==> i <= |ChainOf(fd)|
      {
        SplitWhole(offset, count, B, w, start, full, target, j);
        stop := WriteWhole(fd, disk0, offset, buf, i, done);
        if stop {
          return;
        }
        done := done + B;
        i := i + 1;
        j := j + 1;
      }
      return done, false, j;
    }

    /** The partial last block of a write. */
    method WriteTail(fd: int, ghost disk0: seq<Block>, offset: u16, buf: seq<byte>, k: nat, rest: nat, done: nat)
      returns (stop: bool)
      requires Transferable(fd) && BlocksOf(disk0, B) && 0 < rest < B && done + rest <= |buf|
      requires DiskWritten(disk0, disk, sb.dataStart, ChainOf(fd), offset, buf[..done], B)
      requires offset + done == k * B
      modifies `disk
      ensures Transferable(fd)
      ensures stop <==> |ChainOf(fd)| <= k
      ensures DiskWritten(disk0, disk, sb.dataStart, ChainOf(fd), offset, buf[..if stop then done else done + rest], B)
    {
      var index := FindDataBlock(fd, k);
      if index == FAT_EOC {
        return true;
      }
      PatchBlock(fd, disk0, offset, buf[..done], k, index, 0, buf[done..done + rest]);
      assert buf[..done] + buf[done..done + rest] == buf[..done + rest];
      return false;
    }

    /** The whole blocks and the tail of a write whose head has w bytes. */
    method WriteRest(fd: int, ghost disk0: seq<Block>, offset: u16, buf: seq<byte>, count: nat,
                     start: nat, full: nat, target: nat, w: nat)
      returns (done: nat, short: bool)
      requires Transferable(fd) && BlocksOf(disk0, B) && count <= |buf|
      requires Split(offset, count, B, w, start, full, target) && (w > 0 ==> start <= |ChainOf(fd)|) && count > 0
      requires DiskWritten(disk0, disk, sb.dataStart, ChainOf(fd), offset, buf[..w], B)
      modifies `disk
      ensures Transferable(fd)
      ensures done == Reach(offset, count, |ChainOf(fd)|, B) && (short <==> done < count)
      ensures DiskWritten(disk0, disk, sb.dataStart, ChainOf(fd), offset, buf[..done], B)
    {
      hide Blocks.DiskWritten;
      ghost var n, j := |ChainOf(fd)|, 0;
      done, short, j := WriteFullBlocks(fd, disk0, offset, buf, count, start, full, target, w);
      if short {
        SplitShort(offset, count, B, w, start, full, target, n, j);
        return;
      }
      var rest := count - done;
      if rest != 0 {
        SplitTail(offset, count, B, w, start, full, target);
        short := WriteTail(fd, disk0, offset, buf, target - 1, rest, done);
        if short {
          SplitShort(offset, count, B, w, start, full, target, n, j);
          return;
        }
        done := done + rest;
      }
      SplitAll(offset, count, B, w, start, full, target, n);
    }

    /** The three stages of a write over the blocks the file now has. Stops early, without touching
        offset or size, at the first block that is missing. */
    method WriteStages(fd: int, offset: u16, buf: seq<byte>, count: nat) returns (done: nat, short: bool)
      requires Transferable(fd) && 0 < count <= |buf|
      modifies `disk
      ensures Transferable(fd)
      ensures done == Reach(offset, count, |ChainOf(fd)|, B) && (short <==> done < count)
      ensures DiskWritten(old(disk), disk, sb.dataStart, ChainOf(fd), offset, buf[..done], B)
    {
      ghost var disk0 := disk;
      SplitHolds(offset, count, B);
      var target := NumTarget(offset, count, B);
      done := 0;
      var start := offset / B;
      if offset % B != 0 {
        done, short := WriteHead(fd, offset, buf, count);
        if short {
          ReachNothing(offset, count, |ChainOf(fd)|, B);
          return;
        }
        start := start + 1;
      }
      var full := target - offset / B - (if done != 0 then 1 else 0);
      full := full - (if (count - done) % B != 0 then 1 else 0);
      done, short := WriteRest(fd, disk0, offset, buf, count, start, full, target, done);
    }

    /** The allocation of a write, leaving the file ready for the transfer. */
    method Prepare(fd: int, count: nat)
      requires mounted && WellFormed(Model()) && FdOpen(Model(), fd) && count > 0
      modifies fat, root, `chains
      ensures Transferable(fd)
      ensures var d := openFiles[fd].value;
              var added := Added(old(Model()), d.file, d.offset, count);
              && chains == old(chains)[d.file := old(chains)[d.file] + added]
              && Extended(old(fat[..]), fat[..], root[d.file].first, old(chains)[d.file], added)
              && root[..] == old(root[..])[d.file := old(root[d.file]).(first := root[d.file].first)]
    {
      ghost var v := Model();
      var d := openFiles[fd].value;
      var target := NumTarget(d.offset, count, B);
      // A failed allocation is not an error: the write goes as far as the blocks reach.
      var _ := AllocateBlocksInFat(fd, target);
      ExtendedOnDisk(v, d.file, fat[..], root[d.file].first, Added(v, d.file, d.offset, count));
    }

    method Write(fd: int, buf: Option<seq<byte>>, count: nat) returns (r: int)
      requires Valid() && Admissible(Op.Write(fd, buf, count))
      modifies `disk, `chains, fat, root, openFiles
      ensures Valid()
      ensures if mounted then WriteNext(old(Model()), fd, buf, count, Model(), Outcome(r, []))
              else r == -1 && Model() == old(Model())
    {
      if !mounted {
        return -1;
      }
      if fd < 0 || fd >= FS_FILE_MAX_COUNT {
        return -1;
      }
      if openFiles[fd].None? {
        return -1;
      }
      if buf.None? {
        return -1;
      }
      if count == 0 {
        return 0;
      }
      r := WriteBytes(fd, buf.value, count);
    }

    /** The bookkeeping after a complete write; both counters wrap at their width. */
    method Advance(fd: int, n: nat)
      requires 0 <= fd < openFiles.Length && openFiles[fd].Some? && openFiles[fd].value.file < root.Length
      modifies openFiles, root
      ensures var d := old(openFiles[fd].value);
              var e := old(root[openFiles[fd].value.file]);
              && openFiles[..] == old(openFiles[..])[fd := Some(d.(offset := (d.offset + n) % 0x1_0000))]
              && root[..] == old(root[..])[d.file := e.(size := (e.size + n) % 0x1_0000_0000)]
    {
      var d := openFiles[fd].value;
      openFiles[fd] := Some(d.(offset := (d.offset + n) % 0x1_0000));
      root[d.file] := root[d.file].(size := (root[d.file].size + n) % 0x1_0000_0000);
    }

    method WriteBytes(fd: int, buf: seq<byte>, count: nat) returns (r: int)
      requires mounted && Valid() && FdOpen(Model(), fd) && 0 < count <= |buf|
      modifies `disk, `chains, fat, root, openFiles
      ensures Valid() && Written(old(Model()), fd, buf, count, Model(), Outcome(r, []))
    {
      hide Blocks.DiskWritten, Blocks.NumTarget, Chains.Extended, Chains.IsChain, Volumes.NamesUnique, Volumes.Disjoint;
      ghost var v := Model();
      var d := openFiles[fd].value;
      Prepare(fd, count);
      var done, short := WriteStages(fd, d.offset, buf, count);
      assert v.fds[fd := v.fds[fd]] == v.fds;
      if !short {
        Advance(fd, done);
      }
      assert Model() == AfterWrite(v, fd, count, fat[..], root[d.file].first, disk, done);
      WrittenKeeps(v, fd, buf, count, Model(), Outcome(done, []));
      return done;
    }

    // ----- read -----

    /** The partial first block of a read; amount may be 0. */
    method ReadHead(fd: int, offset: u16, count: nat) returns (data: seq<byte>, stop: bool)
      requires Transferable(fd) && offset % B != 0
      ensures stop <==> |ChainOf(fd)| <= offset / B
      ensures stop ==> data == []
      ensures !stop ==> |data| == HeadAmount(offset, count, B) <= count
      ensures IsPart(disk, sb.dataStart, ChainOf(fd), offset, data)
    {
      DivBounds(offset, B);
      var index := FindDataBlock(fd, offset / B);
      if index == FAT_EOC {
        return [], true;
      }
      index := index + sb.dataStart;
      var bounce := disk[index];
      var amount;
      if offset % B + count < B {
        amount := count;
      } else {
        amount := B - offset % B;
      }
      ReadPart(disk, sb.dataStart, ChainOf(fd), offset / B, offset % B, amount, B, offset);
      return bounce[offset % B..offset % B + amount], false;
    }

    /** One whole block of a read. */
    method ReadWhole(fd: int, k: nat, ghost at: nat) returns (block: seq<byte>, stop: bool)
      requires Transferable(fd) && at == k * B
      ensures stop <==> |ChainOf(fd)| <= k
      ensures !stop ==> |block| == B && IsPart(disk, sb.dataStart, ChainOf(fd), at, block)
    {
      var index := FindDataBlock(fd, k);
      if index == FAT_EOC {
        return [], true;
      }
      index := index + sb.dataStart;
      ReadPart(disk, sb.dataStart, ChainOf(fd), k, 0, B, B, at);
      return disk[index], false;
    }

    /** The whole blocks of a read: blocks start up to start + full, or up to the end of the chain. */
    method ReadFullBlocks(fd: int, start: nat, full: nat) returns (data: seq<byte>, stop: bool, ghost j: nat)
      requires Transferable(fd)
      ensures |data| == j * B && j <= full && (stop ==> j < full) && (!stop ==> j == full)
      ensures IsPart(disk, sb.dataStart, ChainOf(fd), start * B, data)
      ensures j > 0 ==> start + j <= |ChainOf(fd)|
      ensures stop ==> |ChainOf(fd)| <= start + j
    {
      hide Blocks.IsPart;
      data, j, stop := [], 0, false;
      assert IsPart(disk, sb.dataStart, ChainOf(fd), start * B, []) by { PartNone(fd, start * B); }
      var i := start;
      while i < full + start
        invariant i == start + j && j <= full && |data| == j * B && !stop
        invariant IsPart(disk, sb.dataStart, ChainOf(fd), start * B, data)
        invariant j > 0 ==> i <= |ChainOf(fd)|
      {
        Distribute(start, j, B);
        Distribute(j, 1, B);
        var block;
        block, stop := ReadWhole(fd, i, start * B + |data|);
        if stop {
          return;
        }
        PartJoin(disk, sb.dataStart, ChainOf(fd), start * B, data, block);
        data := data + block;
        i := i + 1;
        j := j + 1;
      }
    }

    lemma PartNone(fd: int, at: nat)
      requires Transferable(fd)
      ensures IsPart(disk, sb.dataStart, ChainOf(fd), at, [])
    {
    }

    /** The partial last block of a read. */
    method ReadTail(fd: int, k: nat, rest: nat, ghost at: nat) returns (data: seq<byte>, stop: bool)
      requires Transferable(fd) && 0 < rest < B && at == k * B
      ensures stop <==> |ChainOf(fd)| <= k
      ensures |data| == if stop then 0 else rest
      ensures IsPart(disk, sb.dataStart, ChainOf(fd), at, data)
    {
      var index := FindDataBlock(fd, k);
      if index == FAT_EOC {
        return [], true;
      }
      index := index + sb.dataStart;
      var bounce := disk[index];
      ReadPart(disk, sb.dataStart, ChainOf(fd), k, 0, rest, B, at);
      return bounce[..rest], false;
    }

    /** The whole blocks and the tail of a read whose head has been read. For count > 0 the check on the
        remainder never fails; for count == 0 it fails when a whole block has been read. */
    method ReadRest(fd: int, offset: u16, count: nat, start: nat, full: nat, target: nat, head: seq<byte>)
      returns (r: int, data: seq<byte>, short: bool)
      requires Transferable(fd)
      requires count > 0 ==> IsPart(disk, sb.dataStart, ChainOf(fd), offset, head)
      requires count > 0 ==> Split(offset, count, B, |head|, start, full, target) && (head != [] ==> start <= |ChainOf(fd)|)
      requires count == 0 ==> head == [] && full <= 1
      ensures count > 0 ==> r == |data| == Reach(offset, count, |ChainOf(fd)|, B) && (short <==> |data| < count)
      ensures count > 0 ==> IsPart(disk, sb.dataStart, ChainOf(fd), offset, data)
      ensures count == 0 && full == 1 && start < |ChainOf(fd)| ==>
        r == -1 && |data| == B && IsPart(disk, sb.dataStart, ChainOf(fd), start * B, data)
      ensures count == 0 && (full == 0 || |ChainOf(fd)| <= start) ==> r == 0 && data == []
      ensures count == 0 ==> (short <==> full == 1)
    {
      hide Blocks.IsPart;
      ghost var n, w := |ChainOf(fd)|, |head|;
      var more;
      ghost var j;
      more, short, j := ReadFullBlocks(fd, start, full);
      data := head + more;
      if count > 0 {
        WholeFollowsHead(fd, offset, start, j, head, more, count, full, target);
      } else {
        assert data == more;
        Distribute(0, 1, B);
      }
      if short {
        if count > 0 {
          SplitWhole(offset, count, B, w, start, full, target, j);
          SplitShort(offset, count, B, w, start, full, target, n, j);
        }
        return |data|, data, true;
      }
      var rest := count - |data|;
      if rest < 0 || rest >= B {
        return -1, data, true;
      }
      if rest != 0 {
        SplitTail(offset, count, B, w, start, full, target);
        var last;
        last, short := ReadTail(fd, target - 1, rest, offset + |data|);
        if short {
          SplitShort(offset, count, B, w, start, full, target, n, j);
          return |data|, data, true;
        }
        PartJoin(disk, sb.dataStart, ChainOf(fd), offset, data, last);
        data := data + last;
      }
      if count > 0 {
        SplitAll(offset, count, B, w, start, full, target, n);
      }
      return |data|, data, false;
    }

    lemma WholeFollowsHead(fd: int, offset: u16, start: nat, j: nat, head: seq<byte>, more: seq<byte>,
                           count: nat, full: nat, target: nat)
      requires Transferable(fd) && Split(offset, count, B, |head|, start, full, target) && j <= full
      requires |more| == j * B
      requires IsPart(disk, sb.dataStart, ChainOf(fd), offset, head)
      requires IsPart(disk, sb.dataStart, ChainOf(fd), start * B, more)
      ensures IsPart(disk, sb.dataStart, ChainOf(fd), offset, head + more)
    {
      if j == 0 {
        assert head + more == head;
      } else {
        MulOrder(0, j, B);
        SplitWhole(offset, count, B, |head|, start, full, target, j - 1);
        PartJoin(disk, sb.dataStart, ChainOf(fd), offset, head, more);
      }
    }

    /** The stages of a read; short says that the offset stays. */
    method ReadStages(fd: int, offset: u16, count: nat) returns (r: int, data: seq<byte>, short: bool)
      requires Transferable(fd)
      ensures count > 0 ==> r == |data| == Reach(offset, count, |ChainOf(fd)|, B) && (short <==> |data| < count)
      ensures count > 0 ==> IsPart(disk, sb.dataStart, ChainOf(fd), offset, data)
      ensures count == 0 && offset % B != 0 && offset / B + 1 < |ChainOf(fd)| ==>
        r == -1 && short && |data| == B && IsPart(disk, sb.dataStart, ChainOf(fd), (offset / B + 1) * B, data)
      ensures count == 0 && !(offset % B != 0 && offset / B + 1 < |ChainOf(fd)|) ==> r == 0 && data == []
    {
      hide Blocks.IsPart;
      if count > 0 {
        SplitHolds(offset, count, B);
      } else {
        ZeroCount(offset, B);
      }
      DivBounds(offset, B);
      var target := NumTarget(offset, count, B);
      data := [];
      assert IsPart(disk, sb.dataStart, ChainOf(fd), offset, []) by { PartNone(fd, offset); }
      var start := offset / B;
      if offset % B != 0 {
        data, short := ReadHead(fd, offset, count);
        if short {
          ReachNothing(offset, count, |ChainOf(fd)|, B);
          return |data|, data, true;
        }
        start := start + 1;
      }
      var full := target - offset / B - (if |data| != 0 then 1 else 0);
      full := full - (if (count - |data|) % B != 0 then 1 else 0);
      r, data, short := ReadRest(fd, offset, count, start, full, target, data);
    }

    method Read(fd: int, isNull: bool, count: nat) returns (r: int, data: seq<byte>)
      requires Valid() && Admissible(Op.Read(fd, isNull, count))
      modifies openFiles
      ensures Valid()
      ensures if mounted then ReadNext(old(Model()), fd, isNull, count, Model(), Outcome(r, data))
              else r == -1 && data == [] && Model() == old(Model())
    {
      data := [];
      if !mounted {
        return -1, [];
      }
      if fd < 0 || fd >= FS_FILE_MAX_COUNT {
        return -1, [];
      }
      if openFiles[fd].None? {
        return -1, [];
      }
      if isNull {
        return -1, [];
      }
      r, data := ReadBytes(fd, count);
    }

    lemma OpenIsTransferable(fd: int)
      requires WellFormed(Model()) && FdOpen(Model(), fd)
      ensures Transferable(fd)
    {
      var v := Model();
      var f := v.fds[fd].value.file;
      ChainOnDisk(v, f);
      ChainInjective(v.fat, v.root[f].first, v.chains[f]);
    }

    /** The outcome of the stages is the one ReadNext specifies. */
    lemma StagesRead(fd: int, count: nat, r: int, data: seq<byte>, short: bool, v': Volume)
      requires WellFormed(Model()) && FdOpen(Model(), fd) && Transferable(fd)
      requires var d, c := openFiles[fd].value, ChainOf(fd);
               && (count > 0 ==> r == |data| == Reach(d.offset, count, |c|, B) && (short <==> |data| < count)
                                 && IsPart(disk, sb.dataStart, c, d.offset, data))
               && (Overrun(Model(), fd, count) ==> r == -1 && short && |data| == B
                                                   && IsPart(disk, sb.dataStart, c, (d.offset / B + 1) * B, data))
               && (count == 0 && !Overrun(Model(), fd, count) ==> r == 0 && data == [])
               && v' == if short then Model()
                        else Model().(fds := Model().fds[fd := Some(d.(offset := (d.offset + |data|) % 0x1_0000))])
      ensures ReadNext(Model(), fd, false, count, v', Outcome(r, data))
    {
      hide Blocks.NumTarget;
      var v := Model();
      assert v.fds[fd := v.fds[fd]] == v.fds;
    }

    method ReadBytes(fd: int, count: nat) returns (r: int, data: seq<byte>)
      requires mounted && Valid() && FdOpen(Model(), fd)
      modifies openFiles
      ensures Valid() && ReadNext(old(Model()), fd, false, count, Model(), Outcome(r, data))
    {
      hide Blocks.NumTarget, Blocks.IsPart, Volumes.ReadNext;
      ghost var v := Model();
      var d := openFiles[fd].value;
      OpenIsTransferable(fd);
      var short;
      r, data, short := ReadStages(fd, d.offset, count);
      SeekKeeps(v, fd, (d.offset + |data|) % 0x1_0000);
      ghost var moved := v.(fds := v.fds[fd := Some(d.(offset := (d.offset + |data|) % 0x1_0000))]);
      StagesRead(fd, count, r, data, short, if short then v else moved);
      if !short {
        openFiles[fd] := Some(d.(offset := (d.offset + |data|) % 0x1_0000));
        assert Model() == moved;
      }
    }

    // ----- delete -----

    /** The check that no descriptor refers to a file of this name. */
    method IsOpen(s: CString, ghost slot: int) returns (open: bool)
      requires mounted && WellFormed(Model()) && s != [] && slot == FindName(root[..], s) != -1
      ensures open <==> SlotOpen(Model(), slot)
    {
      hide Volumes.LayoutOk, Volumes.ChainsOk, Volumes.Disjoint;
      NoNul(s);
      assert Used(root[slot]);
      var i := 0;
      while i < FS_OPEN_MAX_COUNT
        invariant 0 <= i <= FS_OPEN_MAX_COUNT
        invariant forall j :: 0 <= j < i && openFiles[j].Some? ==> openFiles[j].value.file != slot
      {
        if openFiles[i].Some? {
          var f := openFiles[i].value.file;
          assert Used(root[..][f]) && (f != slot ==> CName(root[..][f].name) != CName(root[..][slot].name));
          var eq := Streq(root[f].name, s);
          if eq == 0 {
            assert Model().fds[i].Some? && Model().fds[i].value.file == slot;
            return true;
          }
        }
        i := i + 1;
      }
      return false;
    }

    /** The freeing loop of fs_delete, in the source's order: an entry is zeroed and only then followed. */
    method FreeBlocks(first: u16, ghost c: seq<nat>)
      requires 1 <= fat.Length < FAT_EOC && IsChain(fat[..], first, c)
      requires |c| <= 1 || fat[0] == FAT_EOC
      modifies fat
      ensures fat[..] == DeletedFat(old(fat[..]), c)
    {
      var blockIndex := first;
      if blockIndex != FAT_EOC {
        assert fat[..][c[0]] == Link(c, 0);
        while fat[blockIndex] != FAT_EOC
          invariant blockIndex < fat.Length
          invariant || (blockIndex == c[0] && fat[..] == old(fat[..]))
                    || (|c| > 1 && blockIndex == 0 && fat[0] == FAT_EOC && fat[..] == old(fat[..])[c[0] := 0])
          decreases blockIndex
        {
          var oldBlockIndex := blockIndex;
          fat[oldBlockIndex] := 0;
          blockIndex := fat[blockIndex];
        }
        fat[blockIndex] := 0;
      }
    }

    /** The entry of a deleted file becomes an empty one. */
    method ClearEntry(slot: nat)
      requires slot < root.Length == |chains| && |root[slot].name| > 0
      modifies root, `chains
      ensures var e := old(root[slot]);
              root[..] == old(root[..])[slot := e.(name := e.name[0 := 0], size := 0, first := FAT_EOC)]
      ensures chains == old(chains)[slot := []]
    {
      root[slot] := root[slot].(name := root[slot].name[0 := 0]);
      root[slot] := root[slot].(size := 0);
      root[slot] := root[slot].(first := FAT_EOC);
      chains := chains[slot := []];
    }

    /** fs_delete as it is written. It must not be called where its loop would not end. */
    method Delete(filename: Option<CString>) returns (r: int)
      requires Valid()
      requires mounted && Deletable(Model(), filename) ==> FreeingEnds(Model(), FindName(root[..], filename.value))
      modifies fat, root, `chains
      ensures Valid()
      ensures if mounted then DeleteNext(old(Model()), filename, Model(), Outcome(r, []))
              else r == -1 && Model() == old(Model())
    {
      if !mounted {
        return -1;
      }
      if Invalid(filename) {
        return -1;
      }
      var slot := FindMatchingFilename(filename.value);
      if slot == -1 {
        return -1;
      }
      var open := IsOpen(filename.value, slot);
      if open {
        return -1;
      }
      ghost var v := Model();
      NoNul(filename.value);
      assert Used(root[slot]);
      FreeBlocks(root[slot].first, chains[slot]);
      ClearEntry(slot);
      DeleteKeeps(v, filename, Model(), Outcome(0, []));
      return 0;
    }

    /** The count that fs_info prints as free FAT entries; it includes entry 0. */
    method FreeFatEntries() returns (n: nat)
      requires mounted && Valid()
      ensures n == |Free(fat[..])| + (if fat[0] == 0 then 1 else 0)
      ensures n == |set j | 0 <= j < fat.Length && fat[j] == 0|
    {
      FreeFromCount(fat[..], 0);
      assert (set j | 0 <= j < fat.Length && fat[j] == 0) == set j | 0 <= j < |fat[..]| && fat[..][j] == 0;
      n := 0;
      var i := 0;
      while i < sb.numData
        invariant 0 <= i <= fat.Length
        invariant n + |FreeFrom(fat[..], i)| == |FreeFrom(fat[..], 0)|
      {
        if fat[i] == 0 {
          n := n + 1;
        }
        i := i + 1;
      }
    }
  }

  /** A client that leaves a volume and comes back to it: with a table of one block and no descriptor open,
      the mount succeeds exactly when entry 0 still holds its mark, and then the files are the same. */
  method LeaveAndReturn(fs: FileSystem, heap: nat -> u16, stack: nat -> u16) returns (r: int)
    requires fs.mounted && fs.Valid() && fs.B == BLOCK_SIZE && fs.numOpen == 0 && Described(fs.Model())
    requires FatFits(fs.sb) && fs.sb.numData <= BLOCK_SIZE / 2
    modifies fs
    ensures r == 0 <==> old(fs.fat[0]) == FAT_EOC
    ensures r == 0 ==> fs.mounted && fs.Valid() && WellFormed(old(fs.Model())) && Reentered(old(fs.Model()), fs.Model())
    ensures |fs.disk| == |old(fs.disk)| && fs.disk[0] == old(fs.disk[0])
    ensures forall b :: 0 <= b < |fs.disk| && !(1 <= b <= old(fs.sb.numFat)) && b != old(fs.sb.rootIndex) ==>
              fs.disk[b] == old(fs.disk)[b]
  {
    hide Superblocks.DiskLoads, Superblocks.DiskVolume, Superblocks.Described, Superblocks.Reentered,
      Superblocks.SuperLoads, FlatModel.AbsFiles;
    ghost var v := fs.Model();
    Reenters(v, heap, stack);
    var _ := fs.Umount(heap);
    r := fs.Mount(stack, v.chains);
  }
}
