/** What the first delete of a file of two or more blocks does to everything that follows it. */
module LongDeletes {
  import opened Types
  import opened Blocks
  import opened Chains
  import opened Names
  import opened Volumes
  import opened Refinement
  import opened Runs
  import opened Accounting
  import opened Deletion
  import opened Mounting

  /** Entry 0 holds its mark after a call exactly when it did before and the call was no long delete. */
  lemma NextMark(v: Volume, op: Op, v': Volume, r: Outcome)
    requires WellFormed(v) && Admissible(op) && Next(v, op, v', r)
    ensures |v'.fat| == |v.fat|
    ensures v'.fat[0] == FAT_EOC <==> v.fat[0] == FAT_EOC && !LongDelete(v, op)
  {
    hide Blocks.DiskWritten, Blocks.NumTarget, Chains.Extended;
    match op
    case Write(fd, buf, count) =>
      if FdOpen(v, fd) && buf.Some? && count > 0 {
        WrittenSentinel(v, fd, buf.value, count, v', r);
        WrittenTableSize(v, fd, buf.value, count, v', r);
      }
    case Delete(filename) =>
      if Deletable(v, filename) {
        NoNul(filename.value);
        assert Used(v.root[FindName(v.root, filename.value)]);
        DeleteSentinel(v, FindName(v.root, filename.value));
      }
    case _ =>
  }

  lemma WrittenTableSize(v: Volume, fd: int, buf: seq<byte>, count: nat, v': Volume, r: Outcome)
    requires WellFormed(v) && FdOpen(v, fd) && 0 < count <= |buf| && Written(v, fd, buf, count, v', r)
    ensures |v'.fat| == |v.fat|
  {
  }

  /** Over runs the mark is there exactly until the first long delete; no call puts it back. */
  lemma {:induction false} RunMark(vs: seq<Volume>, ops: seq<Op>, rs: seq<Outcome>, n: nat)
    requires Run(vs, ops, rs) && n <= |ops|
    ensures WellFormed(vs[n])
    ensures vs[n].fat[0] == FAT_EOC
       <==> vs[0].fat[0] == FAT_EOC && forall i :: 0 <= i < n ==> !LongDelete(vs[i], ops[i])
  {
    hide Volumes.Next, LongDelete;
    RunKeepsInvariant(vs, ops, rs, n);
    if n > 0 {
      RunMark(vs, ops, rs, n - 1);
      assert Step(vs[n - 1], ops[n - 1], vs[n - 1 + 1], rs[n - 1]);
      NextMark(vs[n - 1], ops[n - 1], vs[n], rs[n - 1]);
    }
  }

  /** After a long delete, another one never returns: its loop is still running after any number of
      iterations, and the call has no outcome. */
  lemma SecondLongDeleteHangs(vs: seq<Volume>, ops: seq<Op>, rs: seq<Outcome>, i: nat, n: nat, filename: Option<CString>)
    requires Run(vs, ops, rs) && i < n <= |ops| && LongDelete(vs[i], ops[i])
    requires LongDelete(vs[n], Op.Delete(filename))
    ensures WellFormed(vs[n])
    ensures var first := vs[n].root[FindName(vs[n].root, filename.value)].first;
            forall k: nat :: Running(After(Loop(vs[n].fat, first), k))
    ensures forall v', r :: !Next(vs[n], Op.Delete(filename), v', r)
  {
    var v := vs[n];
    RunMark(vs, ops, rs, n);
    var slot := FindName(v.root, filename.value);
    NoNul(filename.value);
    assert Used(v.root[slot]);
    FreeingEndsIff(v, slot);
    assert !FreeingEnds(v, slot);
  }

  /** The image left after a run, with a table of one block, can be mounted again exactly when the run
      accepted no long delete. */
  lemma RemountAfterRunIff(vs: seq<Volume>, ops: seq<Op>, rs: seq<Outcome>, heap: nat -> u16, stack: nat -> u16)
    requires Run(vs, ops, rs) && vs[0].fat[0] == FAT_EOC
    requires vs[0].B == BLOCK_SIZE && FatFits(vs[0].sb) && vs[0].sb.numData <= BLOCK_SIZE / 2
    ensures var v := vs[|ops|];
            && WellFormed(v) && v.B == BLOCK_SIZE && v.sb == vs[0].sb
            && (ImageLoads(UnmountedDisk(v, heap), v.sb, stack)
                <==> forall i :: 0 <= i < |ops| ==> !LongDelete(vs[i], ops[i]))
  {
    hide Volumes.Next, LongDelete, ImageLoads, UnmountedDisk;
    RunMark(vs, ops, rs, |ops|);
    RunKeepsSuperblock(vs, ops, rs, |ops|);
    RemountLoadsIff(vs[|ops|], heap, stack);
  }
}
