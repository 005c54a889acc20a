/** One concrete volume on which each deviation from the documented interface happens. */
module Witnesses {
  import opened Types
  import opened Blocks
  import opened Chains
  import opened Names
  import opened Volumes
  import opened Invariant
  import opened Refinement
  import opened Accounting
  import opened Deletion
  import opened Transfers
  import opened Outcomes

  const A: CString := [65]
  const SECOND: CString := [66]

  function NamedFile(name: byte, size: u32, first: u16): File {
    File([name] + Zeros(FS_FILENAME_LEN - 1), size, first, Zeros(ROOT_PAD_LEN))
  }

  function SampleFile(size: u32, i: nat): File {
    if i == 0 then NamedFile(65, size, 1)
    else if i == 1 then NamedFile(66, 2 * BLOCK_SIZE, 3)
    else File(Zeros(FS_FILENAME_LEN), 0, 0, Zeros(ROOT_PAD_LEN))
  }

  function SampleChain(i: nat): seq<nat> {
    if i == 0 then [1, 2] else if i == 1 then [3, 4] else []
  }

  function SampleFat(): seq<u16> {
    [FAT_EOC, 2, FAT_EOC, 4, FAT_EOC, 0]
  }

  function SampleFds(offset: Option<u16>): (fds: seq<Option<Descriptor>>)
    ensures |fds| == FS_OPEN_MAX_COUNT
  {
    var none: Option<Descriptor> := None;
    var fds := seq(FS_OPEN_MAX_COUNT, _ => none);
    if offset.None? then fds else fds[0 := Some(Descriptor(0, offset.value))]
  }

  /** Files "A" and "B" of two blocks each and one free block; "A" has the given recorded size and, if an offset
      is given, is open as descriptor 0. */
  function Sample(size: u32, offset: Option<u16>): Volume {
    Volume(BLOCK_SIZE, SuperBlock(9, 2, 3, 6, 1), seq(9, _ => Zeros(BLOCK_SIZE)), SampleFat(),
           seq(FS_FILE_MAX_COUNT, i requires 0 <= i < FS_FILE_MAX_COUNT => SampleFile(size, i)),
           SampleFds(offset), if offset.None? then 0 else 1,
           seq(FS_FILE_MAX_COUNT, i requires 0 <= i < FS_FILE_MAX_COUNT => SampleChain(i)))
  }

  lemma SampleChains()
    ensures IsChain(SampleFat(), 1, [1, 2]) && IsChain(SampleFat(), 3, [3, 4])
  {
    var fat := SampleFat();
    assert fat[[1, 2][0]] == Link([1, 2], 0) && fat[[1, 2][1]] == Link([1, 2], 1);
    assert fat[[3, 4][0]] == Link([3, 4], 0) && fat[[3, 4][1]] == Link([3, 4], 1);
  }

  lemma SampleFdsCount(offset: Option<u16>)
    ensures OpenCount(SampleFds(offset)) == if offset.None? then 0 else 1
  {
    NoneIsOpen(FS_OPEN_MAX_COUNT);
    var none: Option<Descriptor> := None;
    if offset.Some? {
      OpenCountUpdate(seq(FS_OPEN_MAX_COUNT, _ => none), 0, Some(Descriptor(0, offset.value)));
    }
  }

  lemma SampleNames(size: u32, i: nat)
    ensures |SampleFile(size, i).name| == FS_FILENAME_LEN && 0 in SampleFile(size, i).name
    ensures Used(SampleFile(size, i)) <==> i < 2
    ensures CName(SampleFile(size, i).name) == if i == 0 then A else if i == 1 then SECOND else []
  {
    var name := SampleFile(size, i).name;
    assert name[15] == 0;
    CNamePrefix(name, if i == 0 then A else if i == 1 then SECOND else []);
  }

  lemma SampleRoot(size: u32, offset: Option<u16>)
    ensures var root := Sample(size, offset).root;
            EntriesOk(root) && NamesUnique(root) && (forall i :: 0 <= i < |root| ==> (Used(root[i]) <==> i < 2))
  {
    hide SampleFile;
    var root := Sample(size, offset).root;
    forall i | 0 <= i < |root|
      ensures |root[i].name| == FS_FILENAME_LEN && 0 in root[i].name && (Used(root[i]) <==> i < 2)
      ensures CName(root[i].name) == if i == 0 then A else if i == 1 then SECOND else []
    {
      SampleNames(size, i);
    }
    SamplePadding(size, offset);
  }

  lemma SamplePadding(size: u32, offset: Option<u16>)
    ensures forall i :: 0 <= i < FS_FILE_MAX_COUNT ==> Sample(size, offset).root[i].padding == Zeros(ROOT_PAD_LEN)
  {
  }

  lemma SampleChainsOk(size: u32, offset: Option<u16>)
    ensures var v := Sample(size, offset); ChainsOk(v.fat, v.root, v.chains) && Disjoint(v.chains)
  {
    hide Names.Used, Chains.IsChain, EntriesOk, NamesUnique;
    SampleChains();
    SampleRoot(size, offset);
    var v := Sample(size, offset);
    assert v.root[0].first == 1 && v.root[1].first == 3;
    assert v.chains[0] == [1, 2] && v.chains[1] == [3, 4];
  }

  lemma SampleOk(size: u32, offset: Option<u16>)
    ensures WellFormed(Sample(size, offset))
  {
    hide EntriesOk, NamesUnique, ChainsOk, Disjoint, Names.Used, SampleFile;
    SampleFdsCount(offset);
    SampleRoot(size, offset);
    SampleChainsOk(size, offset);
    assert LayoutOk(Sample(size, offset));
    assert FdsOk(Sample(size, offset).fds, Sample(size, offset).root);
  }

  lemma SampleLookup(size: u32, offset: Option<u16>)
    ensures WellFormed(Sample(size, offset))
    ensures var v := Sample(size, offset);
            && FindName(v.root, A) == 0 && FindName(v.root, SECOND) == 1
            && v.chains[0] == [1, 2] && v.chains[1] == [3, 4] && Free(v.fat) == [5]
  {
    SampleOk(size, offset);
    var v := Sample(size, offset);
    SampleNames(size, 0);
    SampleNames(size, 1);
    assert CName(v.root[0].name) == A && CName(v.root[1].name) == SECOND;
    var fat := SampleFat();
    assert FreeFrom(fat, 5) == [5];
    assert FreeFrom(fat, 3) == [5];
    assert FreeFrom(fat, 1) == [5];
  }

  // ----- delete -----

  /** The volume after the delete of "A". */
  function AfterDelete(): Volume {
    var v := Sample(2 * BLOCK_SIZE, None);
    var e := v.root[0].(name := v.root[0].name[0 := 0], size := 0, first := FAT_EOC);
    v.(fat := [0, 0, FAT_EOC, 4, FAT_EOC, 0], root := v.root[0 := e], chains := v.chains[0 := []])
  }

  /** Deleting the two-block file "A" succeeds, but frees block 1 only: block 2 is neither free nor in a file, and
      entry 0 has lost its mark. */
  lemma LongDeleteLosesBlock()
    ensures var v, v' := Sample(2 * BLOCK_SIZE, None), AfterDelete();
            && WellFormed(v) && Next(v, Op.Delete(Some(A)), v', Outcome(0, []))
            && LongDelete(v, Op.Delete(Some(A)))
            && !Reclaimed(v.fat, v'.fat, v.chains[0])
            && v'.fat[0] != FAT_EOC && 2 !in Free(v'.fat) && forall i :: 0 <= i < |v'.chains| ==> 2 !in v'.chains[i]
  {
    var v, v' := Sample(2 * BLOCK_SIZE, None), AfterDelete();
    SampleLookup(2 * BLOCK_SIZE, None);
    assert !SlotOpen(v, 0);
    assert v'.fat[2] == FAT_EOC && 2 in v.chains[0];
    FreeFacts(v'.fat);
  }

  lemma AfterDeleteOk()
    ensures var v' := AfterDelete();
            && WellFormed(v') && Deletable(v', Some(SECOND)) && FindName(v'.root, SECOND) == 1
            && Used(v'.root[1]) && v'.chains[1] == [3, 4] && v'.fat[0] == 0
  {
    hide WellFormed;
    var v, v' := Sample(2 * BLOCK_SIZE, None), AfterDelete();
    LongDeleteLosesBlock();
    NextKeepsWellFormed(v, Op.Delete(Some(A)), v', Outcome(0, []));
    SampleLookup(2 * BLOCK_SIZE, None);
    SampleNames(2 * BLOCK_SIZE, 1);
    assert v'.root[1] == v.root[1] && v'.root[0].name[0] == 0;
    assert CName(v'.root[0].name) == [];
    assert FindName(v'.root, SECOND) == 1;
    assert !SlotOpen(v', 1);
  }

  /** Deleting the two-block file "B" after that passes every check and never returns. */
  lemma SecondDeleteHangs()
    ensures var v' := AfterDelete();
            && WellFormed(v') && Deletable(v', Some(SECOND)) && FindName(v'.root, SECOND) == 1
            && (forall k: nat :: Running(After(Loop(v'.fat, v'.root[1].first), k)))
            && forall w, r :: !Next(v', Op.Delete(Some(SECOND)), w, r)
  {
    hide WellFormed, AfterDelete, Deletable;
    AfterDeleteOk();
    FreeingEndsIff(AfterDelete(), 1);
    NextHasOutcomeIff(AfterDelete(), Op.Delete(Some(SECOND)));
  }

  // ----- reads -----

  /** A read of 0 bytes at offset 1 stores block 1 of the file, 4096 bytes, and returns -1. */
  lemma EmptyReadFails()
    ensures var v := Sample(2 * BLOCK_SIZE, Some(1));
            && WellFormed(v)
            && exists data :: |data| == BLOCK_SIZE && Next(v, Op.Read(0, false, 0), v, Outcome(-1, data))
  {
    var v := Sample(2 * BLOCK_SIZE, Some(1));
    SampleLookup(2 * BLOCK_SIZE, Some(1));
    FileLength(v, 0);
    var data := FileBytes(v, 0)[BLOCK_SIZE..2 * BLOCK_SIZE];
    assert Next(v, Op.Read(0, false, 0), v, Outcome(-1, data));
  }

  /** A file of recorded size 1 yields 2 bytes where the documentation allows 1. */
  lemma ReadPassesSize()
    ensures var v := Sample(1, Some(0));
            && WellFormed(v)
            && (exists v', r :: Next(v, Op.Read(0, false, 2), v', r))
            && (forall v', r :: Next(v, Op.Read(0, false, 2), v', r) ==> r.ret == 2)
            && DocumentedRead(v.root[0].size, 0, 2) == 1
  {
    var v := Sample(1, Some(0));
    SampleLookup(1, Some(0));
    NextHasOutcomeIff(v, Op.Read(0, false, 2));
    forall v', r | Next(v, Op.Read(0, false, 2), v', r) ensures r.ret == 2 {
      ReadCorrect(v, 0, false, 2, v', r);
    }
  }

  /** A read of 8193 bytes from an 8192-byte file returns 8192 and leaves the offset at 0. */
  lemma ShortReadStays()
    ensures var v := Sample(2 * BLOCK_SIZE, Some(0));
            var op := Op.Read(0, false, 2 * BLOCK_SIZE + 1);
            && WellFormed(v)
            && (exists v', r :: Next(v, op, v', r))
            && (forall v', r :: Next(v, op, v', r) ==> r.ret == 2 * BLOCK_SIZE && v' == v)
  {
    var v := Sample(2 * BLOCK_SIZE, Some(0));
    var op := Op.Read(0, false, 2 * BLOCK_SIZE + 1);
    SampleLookup(2 * BLOCK_SIZE, Some(0));
    NextHasOutcomeIff(v, op);
    forall v', r | Next(v, op, v', r) ensures r.ret == 2 * BLOCK_SIZE && v' == v {
      ReadCorrect(v, 0, false, 2 * BLOCK_SIZE + 1, v', r);
    }
  }

  // ----- writes -----

  lemma WriteOutcome(v: Volume, buf: seq<byte>, count: nat, v': Volume, r: Outcome)
    requires WellFormed(v) && FdOpen(v, 0) && v.fds[0].value == Descriptor(0, 0)
    requires 0 < count <= |buf| && Written(v, 0, buf, count, v', r)
    ensures r.ret == Min(count, (|v.chains[0]| + |Free(v.fat)|) * v.B)
    ensures |v'.root| == |v.root| && FdOpen(v', 0)
    ensures v'.root[0].size == if r.ret == count then (v.root[0].size + count) % 0x1_0000_0000 else v.root[0].size
    ensures v'.fds[0].value.offset == if r.ret == count then count % 0x1_0000 else 0
  {
    hide Blocks.DiskWritten, Chains.Extended, Blocks.NumTarget;
    WriteIsMaximal(v, 0, buf, count, v', r);
  }

  /** Overwriting the only byte of a file of size 1 makes its recorded size 2. */
  lemma OverwriteGrowsSize()
    ensures var v := Sample(1, Some(0));
            var op := Op.Write(0, Some([7]), 1);
            && WellFormed(v)
            && (exists v', r :: Next(v, op, v', r))
            && (forall v', r :: Next(v, op, v', r) ==> r.ret == 1 && |v'.root| == |v.root| && v'.root[0].size == 2)
  {
    hide WellFormed, Written;
    var v := Sample(1, Some(0));
    var op := Op.Write(0, Some([7]), 1);
    SampleLookup(1, Some(0));
    NextHasOutcomeIff(v, op);
    forall v', r | Next(v, op, v', r) ensures r.ret == 1 && |v'.root| == |v.root| && v'.root[0].size == 2 {
      WriteOutcome(v, [7], 1, v', r);
    }
  }

  /** With room for three blocks, a write of one byte more stores 12288 bytes past a recorded size of 0, and
      leaves that size and the offset at 0. */
  lemma ShortWriteStays(buf: seq<byte>)
    requires |buf| == 3 * BLOCK_SIZE + 1
    ensures var v := Sample(0, Some(0));
            var op := Op.Write(0, Some(buf), |buf|);
            && WellFormed(v)
            && (exists v', r :: Next(v, op, v', r))
            && (forall v', r :: Next(v, op, v', r) ==>
                  && r.ret == 3 * BLOCK_SIZE && |v'.root| == |v.root| && v'.root[0].size == 0
                  && FdOpen(v', 0) && v'.fds[0].value.offset == 0)
  {
    hide WellFormed, Written, SampleChain, SampleFat, Zeros;
    var v := Sample(0, Some(0));
    var op := Op.Write(0, Some(buf), |buf|);
    SampleLookup(0, Some(0));
    NextHasOutcomeIff(v, op);
    forall v', r | Next(v, op, v', r)
      ensures r.ret == 3 * BLOCK_SIZE && |v'.root| == |v.root| && v'.root[0].size == 0
      ensures FdOpen(v', 0) && v'.fds[0].value.offset == 0
    {
      WriteOutcome(v, buf, |buf|, v', r);
    }
  }

  // ----- seeking -----

  /** Seeking to the recorded end of a file of 65536 bytes succeeds and puts the offset at 0. */
  lemma SeekWraps()
    ensures var v, v' := Sample(0x1_0000, Some(5)), Sample(0x1_0000, Some(0));
            && WellFormed(v) && Next(v, Op.Lseek(0, 0x1_0000), v', Outcome(0, []))
            && FdOpen(v', 0) && v'.fds[0].value.offset == 0
  {
    var v, v' := Sample(0x1_0000, Some(5)), Sample(0x1_0000, Some(0));
    SampleLookup(0x1_0000, Some(5));
    assert v'.fds == v.fds[0 := Some(Descriptor(0, 0))];
  }
}
