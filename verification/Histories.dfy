/** What a caller may rely on across several calls: what was written is read back, and appended
    buffers line up. */
module Histories {
  import opened Types
  import opened Blocks
  import opened Names
  import opened Volumes
  import opened FlatModel
  import opened Refinement
  import opened Runs
  import opened Transfers

  /** The flat model stays consistent. */
  lemma FlatStepOk(f: Flat, op: Op, f': Flat, r: Outcome)
    requires FlatStep(f, op, f', r)
    ensures FlatOk(f')
  {
    hide Blocks.NumTarget;
  }

  /** A call that neither closes fd nor writes to its file, through whichever descriptor. */
  ghost predicate Leaves(f: Flat, op: Op, fd: int) {
    && FlatFdOpen(f, fd)
    && op != Op.Close(fd)
    && !(op.Write? && FlatFdOpen(f, op.fd) && f.fds[op.fd].value.name == f.fds[fd].value.name)
  }

  /** On a volume, these are the calls other than closing fd and writing through a descriptor on the same entry. */
  lemma LeavesIff(v: Volume, op: Op, fd: int)
    requires WellFormed(v) && 0 <= fd < |v.fds| && v.fds[fd].Some?
    ensures Leaves(Abs(v), op, fd)
       <==> && op != Op.Close(fd)
            && !(op.Write? && 0 <= op.fd < |v.fds| && v.fds[op.fd].Some?
                 && v.fds[op.fd].value.file == v.fds[fd].value.file)
  {
    hide Volumes.LayoutOk, Volumes.ChainsOk, Volumes.Disjoint, FlatModel.AbsFiles, FlatModel.FlatOk;
    AbsFdOpen(v, fd);
    if op.Write? {
      AbsFdOpen(v, op.fd);
    }
  }

  /** Such a call leaves fd on its file and the file's bytes and size as they are. */
  lemma StepLeaves(f: Flat, op: Op, f': Flat, r: Outcome, fd: int)
    requires FlatStep(f, op, f', r) && FlatOk(f') && Leaves(f, op, fd)
    ensures FlatFdOpen(f', fd) && f'.fds[fd].value.name == f.fds[fd].value.name
    ensures FdFile(f', fd) == FdFile(f, fd)
  {
    hide Blocks.NumTarget;
    assert f.fds[fd].value.name in f.files;
  }

  lemma {:induction false} RunLeaves(fs: seq<Flat>, ops: seq<Op>, rs: seq<Outcome>, fd: int, lo: nat, hi: nat)
    requires FlatRun(fs, ops, rs) && lo <= hi <= |ops|
    requires FlatOk(fs[lo]) && FlatFdOpen(fs[lo], fd)
    requires forall i :: lo <= i < hi ==> Leaves(fs[i], ops[i], fd)
    ensures FlatOk(fs[hi]) && FlatFdOpen(fs[hi], fd)
    ensures FdFile(fs[hi], fd) == FdFile(fs[lo], fd)
    decreases hi - lo
  {
    hide FlatModel.FlatNext;
    if lo < hi {
      RunLeaves(fs, ops, rs, fd, lo, hi - 1);
      assert FlatStep(fs[hi - 1], ops[hi - 1], fs[hi - 1 + 1], rs[hi - 1]);
      FlatStepOk(fs[hi - 1], ops[hi - 1], fs[hi], rs[hi - 1]);
      StepLeaves(fs[hi - 1], ops[hi - 1], fs[hi], rs[hi - 1], fd);
    }
  }

  // ----- round trip -----

  /** A complete write leaves the buffer at the offset and the size grown by count. */
  lemma FlatWriteFull(f: Flat, fd: int, buf: seq<byte>, count: nat, f': Flat, r: Outcome)
    requires FlatOk(f) && FlatFdOpen(f, fd) && 0 < count <= |buf|
    requires FlatWrite(f, fd, Some(buf), count, f', r) && r.ret == count && FlatOk(f')
    ensures FlatFdOpen(f', fd)
    ensures var off, bytes' := f.fds[fd].value.offset, FdFile(f', fd).bytes;
            && off + count <= |bytes'| && bytes'[off..off + count] == buf[..count]
            && FdFile(f', fd).size == (FdFile(f, fd).size + count) % 0x1_0000_0000
  {
    hide Blocks.NumTarget;
  }

  /** Reading back at the same offset. */
  lemma SeekAndRead(f: Flat, fd: int, o: u16, count: nat, f1: Flat, r1: Outcome, f2: Flat, r2: Outcome)
    requires FlatOk(f) && FlatFdOpen(f, fd) && FlatLseek(f, fd, o, f1, r1)
    requires FlatOk(f1) && FlatRead(f1, fd, false, count, f2, r2)
    requires 0 < count && o + count <= |FdFile(f, fd).bytes|
    ensures r1.ret == 0 <==> o <= FdFile(f, fd).size
    ensures r1.ret == 0 ==> r2 == Outcome(count, FdFile(f, fd).bytes[o..o + count])
  {
    if r1.ret == 0 {
      assert o % 0x1_0000 == o;
      assert f1.fds[fd].value.offset == o && FdFile(f1, fd) == FdFile(f, fd);
    }
  }

  /** Round trip: after a complete write of count bytes and any calls that leave the file alone, seeking
      back to the offset of the write succeeds exactly when the recorded size, which the write grew by count
      modulo 2^32, is not below that offset; a read of count bytes then returns count and the written bytes. */
  lemma FlatRoundTrip(fs: seq<Flat>, ops: seq<Op>, rs: seq<Outcome>, fd: int, buf: seq<byte>, count: nat)
    requires FlatRun(fs, ops, rs) && |ops| >= 3 && FlatFdOpen(fs[0], fd) && 0 < count <= |buf|
    requires ops[0] == Op.Write(fd, Some(buf), count) && rs[0].ret == count
    requires forall i :: 1 <= i < |ops| - 2 ==> Leaves(fs[i], ops[i], fd)
    requires ops[|ops| - 2] == Op.Lseek(fd, fs[0].fds[fd].value.offset)
    requires ops[|ops| - 1] == Op.Read(fd, false, count)
    ensures rs[|ops| - 2].ret == 0 <==> fs[0].fds[fd].value.offset <= (FdFile(fs[0], fd).size + count) % 0x1_0000_0000
    ensures rs[|ops| - 2].ret == 0 ==> rs[|ops| - 1] == Outcome(count, buf[..count])
  {
    hide FlatModel.FlatWrite, FlatModel.FlatRead, FlatModel.FlatLseek, FlatModel.FlatOk;
    var n, o := |ops| - 2, fs[0].fds[fd].value.offset;
    assert FlatStep(fs[0], ops[0], fs[0 + 1], rs[0]);
    FlatStepOk(fs[0], ops[0], fs[1], rs[0]);
    FlatWriteFull(fs[0], fd, buf, count, fs[1], rs[0]);
    RunLeaves(fs, ops, rs, fd, 1, n);
    assert FlatStep(fs[n], ops[n], fs[n + 1], rs[n]);
    assert FlatStep(fs[n + 1], ops[n + 1], fs[n + 1 + 1], rs[n + 1]);
    SeekAndRead(fs[n], fd, o, count, fs[n + 1], rs[n], fs[n + 2], rs[n + 1]);
  }

  /** The round trip on volumes. */
  lemma RoundTrip(vs: seq<Volume>, ops: seq<Op>, rs: seq<Outcome>, fd: int, buf: seq<byte>, count: nat)
    requires Run(vs, ops, rs) && |ops| >= 3 && FdOpen(vs[0], fd) && 0 < count <= |buf|
    requires ops[0] == Op.Write(fd, Some(buf), count) && rs[0].ret == count
    requires ops[|ops| - 2] == Op.Lseek(fd, vs[0].fds[fd].value.offset)
    requires forall i :: 1 <= i < |ops| - 2 ==> WellFormed(vs[i]) ==> Leaves(Abs(vs[i]), ops[i], fd)
    requires ops[|ops| - 1] == Op.Read(fd, false, count)
    ensures var d := vs[0].fds[fd].value;
            rs[|ops| - 2].ret == 0 <==> d.offset <= (vs[0].root[d.file].size + count) % 0x1_0000_0000
    ensures rs[|ops| - 2].ret == 0 ==> rs[|ops| - 1] == Outcome(count, buf[..count])
  {
    hide FlatModel.FlatNext;
    RunRefines(vs, ops, rs);
    AbsFdOpen(vs[0], fd);
    FlatRoundTrip(AbsAll(vs), ops, rs, fd, buf, count);
  }

  // ----- stat -----

  /** After a complete write of count bytes through fd and any calls that leave the file alone, fs_stat returns
      the size before the write plus count, as long as that fits a C int; for a file that was empty, count. */
  lemma StatAfterWrite(vs: seq<Volume>, ops: seq<Op>, rs: seq<Outcome>, fd: int, buf: seq<byte>, count: nat)
    requires Run(vs, ops, rs) && |ops| >= 2 && FdOpen(vs[0], fd) && 0 < count <= |buf|
    requires ops[0] == Op.Write(fd, Some(buf), count) && rs[0].ret == count
    requires forall i :: 1 <= i < |ops| - 1 ==> WellFormed(vs[i]) ==> Leaves(Abs(vs[i]), ops[i], fd)
    requires ops[|ops| - 1] == Op.Stat(fd)
    ensures var size := vs[0].root[vs[0].fds[fd].value.file].size + count;
            && (size <= 2147483647 ==> rs[|ops| - 1].ret == size)
            && (2147483647 < size < 4294967296 ==> rs[|ops| - 1].ret == size - 4294967296)
  {
    hide FlatModel.FlatNext, Leaves;
    RunRefines(vs, ops, rs);
    AbsFdOpen(vs[0], fd);
    FlatStatAfterWrite(AbsAll(vs), ops, rs, fd, buf, count);
  }

  lemma FlatStatAfterWrite(fs: seq<Flat>, ops: seq<Op>, rs: seq<Outcome>, fd: int, buf: seq<byte>, count: nat)
    requires FlatRun(fs, ops, rs) && |ops| >= 2 && FlatFdOpen(fs[0], fd) && 0 < count <= |buf|
    requires ops[0] == Op.Write(fd, Some(buf), count) && rs[0].ret == count
    requires forall i :: 1 <= i < |ops| - 1 ==> Leaves(fs[i], ops[i], fd)
    requires ops[|ops| - 1] == Op.Stat(fd)
    ensures var size := FdFile(fs[0], fd).size + count;
            && (size <= 2147483647 ==> rs[|ops| - 1].ret == size)
            && (2147483647 < size < 4294967296 ==> rs[|ops| - 1].ret == size - 4294967296)
  {
    hide FlatModel.FlatWrite, FlatModel.FlatOk;
    var n := |ops| - 1;
    assert FlatStep(fs[0], ops[0], fs[0 + 1], rs[0]);
    FlatStepOk(fs[0], ops[0], fs[1], rs[0]);
    FlatWriteFull(fs[0], fd, buf, count, fs[1], rs[0]);
    RunLeaves(fs, ops, rs, fd, 1, n);
    assert FlatStep(fs[n], ops[n], fs[n + 1], rs[n]);
  }

  // ----- several descriptors on one file -----

  /** What was written through fd is what g, open on the same file, reads later, however the calls in between
      move the offset of g. */
  lemma FlatShared(fs: seq<Flat>, ops: seq<Op>, rs: seq<Outcome>, fd: int, g: int, buf: seq<byte>, count: nat, m: nat)
    requires FlatRun(fs, ops, rs) && |ops| >= 2 && FlatFdOpen(fs[0], fd) && FlatFdOpen(fs[0], g) && g != fd
    requires fs[0].fds[g].value.name == fs[0].fds[fd].value.name
    requires 0 < count <= |buf| && ops[0] == Op.Write(fd, Some(buf), count)
    requires forall i :: 1 <= i < |ops| - 1 ==> Leaves(fs[i], ops[i], g)
    requires ops[|ops| - 1] == Op.Read(g, false, m) && m > 0
    ensures fs[1].fds[g] == fs[0].fds[g]
    ensures FlatFdOpen(fs[|ops| - 1], g)
    ensures var off, at := fs[0].fds[fd].value.offset, fs[|ops| - 1].fds[g].value.offset;
            off <= at && at + m <= off + rs[0].ret ==>
              at - off + m <= |buf| && rs[|ops| - 1] == Outcome(m, buf[at - off..at - off + m])
  {
    hide FlatModel.FlatWrite, FlatModel.FlatRead, FlatModel.FlatOk, FlatModel.Slice;
    var n := |ops| - 1;
    assert FlatStep(fs[0], ops[0], fs[0 + 1], rs[0]);
    FlatStepOk(fs[0], ops[0], fs[1], rs[0]);
    OtherStays(fs[0], fd, buf, count, fs[1], rs[0], g);
    RunLeaves(fs, ops, rs, g, 1, n);
    assert FlatStep(fs[n], ops[n], fs[n + 1], rs[n]);
    var off, at := fs[0].fds[fd].value.offset, fs[n].fds[g].value.offset;
    if off <= at && at + m <= off + rs[0].ret {
      WrittenThroughOther(fs[0], fd, buf, count, fs[1], rs[0], g);
      SliceOfSlice(FdFile(fs[n], g).bytes, off, rs[0].ret, buf[..rs[0].ret], at - off, m);
      assert buf[..rs[0].ret][at - off..at - off + m] == buf[at - off..at - off + m];
      ReadIsSlice(fs[n], g, m, fs[n + 1], rs[n]);
      assert off + (at - off) == at;
    }
  }

  lemma OtherStays(f: Flat, fd: int, buf: seq<byte>, count: nat, f': Flat, r: Outcome, g: int)
    requires FlatOk(f) && FlatFdOpen(f, fd) && FlatFdOpen(f, g) && g != fd
    requires 0 < count <= |buf| && FlatWrite(f, fd, Some(buf), count, f', r)
    ensures |f'.fds| == |f.fds| && f'.fds[g] == f.fds[g]
  {
    hide Blocks.NumTarget;
  }

  lemma ReadIsSlice(f: Flat, g: int, m: nat, f': Flat, r: Outcome)
    requires FlatOk(f) && FlatFdOpen(f, g) && m > 0 && FlatRead(f, g, false, m, f', r)
    ensures var data := Slice(FdFile(f, g).bytes, f.fds[g].value.offset, m);
            r == Outcome(|data|, data)
  {
  }

  lemma OpenInBoth(v: Volume, fd: int)
    requires WellFormed(v)
    ensures FlatFdOpen(Abs(v), fd) <==> FdOpen(v, fd)
    ensures FdOpen(v, fd) ==>
      && v.fds[fd].value.file < |v.root|
      && Abs(v).fds[fd].value == FlatFd(CName(v.root[v.fds[fd].value.file].name), v.fds[fd].value.offset)
  {
    AbsFdOpen(v, fd);
  }

  /** Sharing on volumes: after a write through fd, complete or short, and any calls that leave the file
      alone and g open, a read through another descriptor g of the same file, inside the range that was
      stored, returns the written bytes. The write itself does not move g. */
  lemma WritesAreSeenByOthers(vs: seq<Volume>, ops: seq<Op>, rs: seq<Outcome>, fd: int, g: int,
                              buf: seq<byte>, count: nat, m: nat)
    requires Run(vs, ops, rs) && |ops| >= 2 && FdOpen(vs[0], fd) && FdOpen(vs[0], g) && g != fd
    requires vs[0].fds[g].value.file == vs[0].fds[fd].value.file
    requires 0 < count <= |buf| && ops[0] == Op.Write(fd, Some(buf), count)
    requires forall i :: 1 <= i < |ops| - 1 ==> WellFormed(vs[i]) ==> Leaves(Abs(vs[i]), ops[i], g)
    requires ops[|ops| - 1] == Op.Read(g, false, m) && m > 0
    ensures FdOpen(vs[1], g) && vs[1].fds[g].value.offset == vs[0].fds[g].value.offset
    ensures FdOpen(vs[|ops| - 1], g)
    ensures var off, at := vs[0].fds[fd].value.offset, vs[|ops| - 1].fds[g].value.offset;
            off <= at && at + m <= off + rs[0].ret ==>
              at - off + m <= |buf| && rs[|ops| - 1] == Outcome(m, buf[at - off..at - off + m])
  {
    hide FlatModel.FlatNext, FlatModel.Abs, FlatModel.FlatOk, Volumes.WellFormed, Leaves;
    var n := |ops| - 1;
    RunRefines(vs, ops, rs);
    OpenInBoth(vs[0], fd);
    OpenInBoth(vs[0], g);
    OpenInBoth(vs[1], g);
    OpenInBoth(vs[n], g);
    FlatShared(AbsAll(vs), ops, rs, fd, g, buf, count, m);
  }

  // ----- append-only files -----

  /** A call that also leaves the offset of fd alone. */
  ghost predicate Quiet(f: Flat, op: Op, fd: int) {
    Leaves(f, op, fd) && !((op.Lseek? || op.Read?) && op.fd == fd)
  }

  /** A write through fd that was carried out completely. */
  ghost predicate FullWrite(op: Op, r: Outcome, fd: int) {
    op.Write? && op.fd == fd && op.buf.Some? && r.ret == op.count
  }

  /** The buffers written through fd by the first n calls. */
  ghost function Appended(ops: seq<Op>, fd: int, n: nat): seq<byte>
    requires n <= |ops| && forall i :: 0 <= i < |ops| ==> Admissible(ops[i])
  {
    if n == 0 then []
    else
      var op := ops[n - 1];
      Appended(ops, fd, n - 1) + (if op.Write? && op.fd == fd && op.buf.Some? then op.buf.value[..op.count] else [])
  }

  /** The file behind fd starts with acc, is recorded to be exactly that long, has no more blocks than it
      needs, and fd stands at its end. */
  ghost predicate HoldsAppended(f: Flat, fd: int, acc: seq<byte>) {
    && FlatOk(f) && FlatFdOpen(f, fd)
    && f.fds[fd].value.offset == |acc| == FdFile(f, fd).size
    && acc <= FdFile(f, fd).bytes
    && |FdFile(f, fd).bytes| == NumTarget(0, |acc|, f.B) * f.B
  }

  /** A complete write at the end of a file of minimal length leaves it at minimal length. */
  lemma GrowthIsExact(f: Flat, len: nat, count: nat)
    requires f.B > 0 && count > 0
    requires var cap := NumTarget(0, len, f.B) * f.B;
             len + count <= cap + Growth(f, cap, len, count) * f.B
    ensures var cap := NumTarget(0, len, f.B) * f.B;
            cap + Growth(f, cap, len, count) * f.B == NumTarget(0, len + count, f.B) * f.B
  {
    var had, needs := NumTarget(0, len, f.B), NumTarget(len, count, f.B);
    assert needs == NumTarget(0, len + count, f.B);
    DivUnique(had * f.B, f.B, had, 0);
    var g := Growth(f, had * f.B, len, count);
    Distribute(had, g, f.B);
    NumTargetBounds(len, count, f.B);
    NumTargetBounds(0, len, f.B);
    if needs < had {
      MulMono(needs, had - 1, f.B);
    }
    if had + g < needs {
      MulMono(had + g, needs - 1, f.B);
    }
  }

  lemma AppendStep(f: Flat, fd: int, acc: seq<byte>, buf: seq<byte>, count: nat, f': Flat, r: Outcome)
    requires HoldsAppended(f, fd, acc) && 0 < count <= |buf| && |acc| + count < 0x1_0000
    requires FlatWrite(f, fd, Some(buf), count, f', r) && r.ret == count && FlatOk(f')
    ensures HoldsAppended(f', fd, acc + buf[..count])
  {
    hide Blocks.NumTarget;
    GrowthIsExact(f, |acc|, count);
    FlatWriteFull(f, fd, buf, count, f', r);
    var bytes, bytes' := FdFile(f, fd).bytes, FdFile(f', fd).bytes;
    assert acc == bytes'[..|acc|] by {
      assert forall j :: 0 <= j < |acc| ==> bytes'[j] == bytes[j] == acc[j];
    }
    assert bytes'[..|acc| + count] == bytes'[..|acc|] + bytes'[|acc|..|acc| + count];
  }

  lemma QuietStep(f: Flat, op: Op, f': Flat, r: Outcome, fd: int, acc: seq<byte>)
    requires FlatStep(f, op, f', r) && FlatOk(f') && Quiet(f, op, fd) && HoldsAppended(f, fd, acc)
    ensures HoldsAppended(f', fd, acc)
  {
    hide Blocks.NumTarget;
    StepLeaves(f, op, f', r, fd);
  }

  /** Append-only runs: when fd starts at the end of an empty file and every call is a complete write
      through fd or leaves file and offset alone, the file holds the concatenation of all buffers written,
      its recorded size is their total length, and it has exactly as many blocks as that takes. */
  lemma {:induction false} FlatAppends(fs: seq<Flat>, ops: seq<Op>, rs: seq<Outcome>, fd: int, n: nat)
    requires FlatRun(fs, ops, rs) && n <= |ops|
    requires forall i :: 0 <= i < |ops| ==> Admissible(ops[i])
    requires HoldsAppended(fs[0], fd, [])
    requires forall i :: 0 <= i < n ==> FullWrite(ops[i], rs[i], fd) || Quiet(fs[i], ops[i], fd)
    requires |Appended(ops, fd, n)| < 0x1_0000
    ensures HoldsAppended(fs[n], fd, Appended(ops, fd, n))
  {
    hide FlatModel.FlatWrite, FlatModel.FlatOk, HoldsAppended;
    if n > 0 {
      var i, op := n - 1, ops[n - 1];
      FlatAppends(fs, ops, rs, fd, i);
      assert FlatStep(fs[i], ops[i], fs[i + 1], rs[i]);
      FlatStepOk(fs[i], op, fs[n], rs[i]);
      if FullWrite(op, rs[i], fd) {
        WriteEnds(fs[i], fd, Appended(ops, fd, i), op.buf.value, op.count, fs[n], rs[i]);
      } else {
        QuietIsNoWrite(fs[i], op, fd);
        QuietStep(fs[i], op, fs[n], rs[i], fd, Appended(ops, fd, i));
        assert Appended(ops, fd, n) == Appended(ops, fd, i);
      }
    }
  }

  lemma QuietIsNoWrite(f: Flat, op: Op, fd: int)
    requires Quiet(f, op, fd)
    ensures !(op.Write? && op.fd == fd)
  {
  }

  lemma WriteEnds(f: Flat, fd: int, acc: seq<byte>, buf: seq<byte>, count: nat, f': Flat, r: Outcome)
    requires HoldsAppended(f, fd, acc) && count <= |buf| && |acc| + count < 0x1_0000 && FlatOk(f) && FlatOk(f')
    requires FlatWrite(f, fd, Some(buf), count, f', r) && r.ret == count
    ensures HoldsAppended(f', fd, acc + buf[..count])
  {
    if count > 0 {
      AppendStep(f, fd, acc, buf, count, f', r);
    } else {
      assert acc + buf[..count] == acc;
    }
  }

  /** The append law on volumes, for a descriptor just opened on a file just created. */
  lemma AppendsConcatenate(vs: seq<Volume>, ops: seq<Op>, rs: seq<Outcome>, fd: int)
    requires Run(vs, ops, rs) && FdOpen(vs[0], fd)
    requires forall i :: 0 <= i < |ops| ==> Admissible(ops[i])
    requires var d := vs[0].fds[fd].value;
             d.offset == 0 == vs[0].root[d.file].size && vs[0].chains[d.file] == []
    requires forall i :: 0 <= i < |ops| ==>
               FullWrite(ops[i], rs[i], fd) || (WellFormed(vs[i]) ==> Quiet(Abs(vs[i]), ops[i], fd))
    requires |Appended(ops, fd, |ops|)| < 0x1_0000
    ensures WellFormed(vs[|ops|]) && FdOpen(vs[|ops|], fd)
    ensures var v := vs[|ops|];
            var d, all := v.fds[fd].value, Appended(ops, fd, |ops|);
            && d.offset == v.root[d.file].size == |all|
            && all <= FileBytes(v, d.file)
            && v.B > 0 && |v.chains[d.file]| == NumTarget(0, |all|, v.B)
  {
    hide FlatModel.FlatNext;
    RunRefines(vs, ops, rs);
    AbsFdOpen(vs[0], fd);
    FileLength(vs[0], vs[0].fds[fd].value.file);
    EmptyTarget(vs[0].B);
    FlatAppends(AbsAll(vs), ops, rs, fd, |ops|);
    var v := vs[|ops|];
    AbsFdOpen(v, fd);
    FileLength(v, v.fds[fd].value.file);
    SameMultiple(|v.chains[v.fds[fd].value.file]|, NumTarget(0, |Appended(ops, fd, |ops|)|, v.B), v.B);
  }

  lemma EmptyTarget(B: nat)
    requires B > 0
    ensures NumTarget(0, 0, B) == 0
  {
    DivUnique(0, B, 0, 0);
  }

  lemma SameMultiple(a: nat, b: nat, B: nat)
    requires B > 0 && a * B == b * B
    ensures a == b
  {
    MulOrder(a, b, B);
    MulOrder(b, a, B);
  }
}
