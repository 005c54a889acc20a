/** Every call has exactly one outcome, except the delete whose loop does not end, which has none. */
module Outcomes {
  import opened Types
  import opened Blocks
  import opened Chains
  import opened Names
  import opened Volumes
  import opened Invariant
  import opened Refinement
  import opened Transfers

  /** The position of x in s. */
  ghost function Position(s: seq<nat>, x: nat): (k: nat)
    requires x in s
    ensures k < |s| && s[k] == x
  {
    var k :| 0 <= k < |s| && s[k] == x;
    k
  }

  // ----- a table for any list of distinct blocks -----

  ghost function LinkedEntry(fat: seq<u16>, d: seq<nat>, j: nat): u16
    requires |fat| <= FAT_EOC && j < |fat| && forall k :: 0 <= k < |d| ==> 1 <= d[k] < |fat|
  {
    if j in d then Link(d, Position(d, j)) else fat[j]
  }

  /** fat with the blocks of d linked into one chain. */
  ghost function Linked(fat: seq<u16>, d: seq<nat>): (fat': seq<u16>)
    requires |fat| <= FAT_EOC && forall k :: 0 <= k < |d| ==> 1 <= d[k] < |fat|
    ensures |fat'| == |fat|
  {
    seq(|fat|, j requires 0 <= j < |fat| => LinkedEntry(fat, d, j))
  }

  lemma LinkedExtends(fat: seq<u16>, c: seq<nat>, added: seq<nat>)
    requires |fat| <= FAT_EOC && Injective(c + added)
    requires forall k :: 0 <= k < |c + added| ==> 1 <= (c + added)[k] < |fat|
    ensures var d := c + added;
            Extended(fat, Linked(fat, d), if d == [] then FAT_EOC else d[0], c, added)
  {
    var d := c + added;
    var fat' := Linked(fat, d);
    forall k | 0 <= k < |d| ensures fat'[d[k]] == Link(d, k) {
      assert d[k] in d;
      assert Position(d, d[k]) == k;
    }
    forall j | 0 <= j < |fat| && j !in c && j !in added ensures fat'[j] == fat[j] {
      assert j !in d;
    }
  }

  // ----- a disk for any contents -----

  ghost function StoredBlock(disk: seq<Block>, ds: nat, d: seq<nat>, bytes: seq<byte>, B: nat, i: nat): Block
    requires i < |disk| && |bytes| == |d| * B
  {
    if i >= ds && i - ds in d then
      var k := Position(d, i - ds);
      MulMono(k + 1, |d|, B);
      Distribute(k, 1, B);
      bytes[k * B..k * B + B]
    else disk[i]
  }

  /** disk with the given bytes in the blocks of d. */
  ghost function Stored(disk: seq<Block>, ds: nat, d: seq<nat>, bytes: seq<byte>, B: nat): (disk': seq<Block>)
    requires |bytes| == |d| * B
    ensures |disk'| == |disk|
  {
    seq(|disk|, i requires 0 <= i < |disk| => StoredBlock(disk, ds, d, bytes, B, i))
  }

  lemma StoredAt(disk: seq<Block>, ds: nat, d: seq<nat>, bytes: seq<byte>, B: nat, k: nat)
    requires |bytes| == |d| * B && OnDisk(disk, ds, d) && Injective(d) && k < |d|
    ensures k * B + B <= |bytes| && Stored(disk, ds, d, bytes, B)[ds + d[k]] == bytes[k * B..k * B + B]
  {
    MulMono(k + 1, |d|, B);
    Distribute(k, 1, B);
    assert d[k] in d;
    assert Position(d, d[k]) == k;
  }

  /** Byte sequences that agree block by block are equal. */
  lemma SameByBlocks(s: seq<byte>, t: seq<byte>, n: nat, B: nat)
    requires B > 0 && |s| == |t| == n * B
    requires forall k :: 0 <= k < n ==> k * B + B <= n * B && s[k * B..k * B + B] == t[k * B..k * B + B]
    ensures s == t
  {
    forall j | 0 <= j < |s| ensures s[j] == t[j] {
      SameAt(s, t, n, B, j);
    }
  }

  lemma SameAt(s: seq<byte>, t: seq<byte>, n: nat, B: nat, j: nat)
    requires B > 0 && |s| == |t| == n * B && j < |s|
    requires forall k :: 0 <= k < n ==> k * B + B <= n * B && s[k * B..k * B + B] == t[k * B..k * B + B]
    ensures s[j] == t[j]
  {
    DivBounds(j, B);
    var k, r := j / B, j % B;
    if k >= n {
      MulMono(n, k, B);
    }
    assert s[j] == s[k * B..k * B + B][r];
    assert t[j] == t[k * B..k * B + B][r];
  }

  lemma StoredBlocks(disk: seq<Block>, ds: nat, d: seq<nat>, bytes: seq<byte>, B: nat)
    requires BlocksOf(disk, B) && OnDisk(disk, ds, d) && Injective(d) && |bytes| == |d| * B
    ensures BlocksOf(Stored(disk, ds, d, bytes, B), B)
    ensures forall i :: 0 <= i < |disk| && (i < ds || i - ds !in d) ==> Stored(disk, ds, d, bytes, B)[i] == disk[i]
  {
    forall i | 0 <= i < |disk| && i >= ds && i - ds in d ensures |Stored(disk, ds, d, bytes, B)[i]| == B {
      StoredAt(disk, ds, d, bytes, B, Position(d, i - ds));
    }
  }

  /** The contents of the stored disk are the bytes asked for. */
  lemma StoredContents(disk: seq<Block>, ds: nat, d: seq<nat>, bytes: seq<byte>, B: nat)
    requires B > 0 && BlocksOf(disk, B) && OnDisk(disk, ds, d) && Injective(d) && |bytes| == |d| * B
    ensures Contents(Stored(disk, ds, d, bytes, B), ds, d) == bytes
  {
    hide Stored;
    var disk' := Stored(disk, ds, d, bytes, B);
    StoredBlocks(disk, ds, d, bytes, B);
    ContentsLength(disk', ds, d, B);
    var stored := Contents(disk', ds, d);
    forall k | 0 <= k < |d|
      ensures k * B + B <= |d| * B && stored[k * B..k * B + B] == bytes[k * B..k * B + B]
    {
      StoredAt(disk, ds, d, bytes, B, k);
      ContentsBlock(disk', ds, d, k, B);
    }
    SameByBlocks(stored, bytes, |d|, B);
  }

  lemma StoredWrites(disk: seq<Block>, ds: nat, d: seq<nat>, off: nat, data: seq<byte>, B: nat)
    requires BlocksOf(disk, B) && OnDisk(disk, ds, d) && Injective(d)
    requires B > 0 && data != [] && off + |data| <= |d| * B
    ensures |Contents(disk, ds, d)| == |d| * B
    ensures DiskWritten(disk, Stored(disk, ds, d, Splice(Contents(disk, ds, d), off, data), B), ds, d, off, data, B)
  {
    hide Stored, Contents, Splice;
    ContentsLength(disk, ds, d, B);
    var bytes := Splice(Contents(disk, ds, d), off, data);
    StoredBlocks(disk, ds, d, bytes, B);
    StoredContents(disk, ds, d, bytes, B);
  }

  // ----- outcomes -----

  /** The blocks of the file after a write are distinct, in bounds and on the disk. */
  lemma ExtendedFacts(v: Volume, f: nat, off: nat, count: nat)
    requires WellFormed(v) && f < |v.root| && Used(v.root[f])
    ensures var d := v.chains[f] + Added(v, f, off, count);
            && Injective(d) && OnDisk(v.disk, v.sb.dataStart, d)
            && forall k :: 0 <= k < |d| ==> 1 <= d[k] < |v.fat|
  {
    var c, added := v.chains[f], Added(v, f, off, count);
    var d := c + added;
    AddedFacts(v, f, off, count);
    FreeFacts(v.fat);
    ChainInjective(v.fat, v.root[f].first, c);
    forall k | 0 <= k < |d| ensures 1 <= d[k] < |v.fat| {
      if k >= |c| {
        assert d[k] in added;
      }
    }
    forall i, j | 0 <= i < j < |d| ensures d[i] != d[j] {
      if i < |c| <= j {
        assert d[i] in c && d[j] in added;
      }
    }
  }

  lemma WriteHasOutcome(v: Volume, fd: int, buf: seq<byte>, count: nat) returns (v': Volume, r: Outcome)
    requires WellFormed(v) && FdOpen(v, fd) && 0 < count <= |buf|
    ensures Written(v, fd, buf, count, v', r)
  {
    hide Blocks.NumTarget, Blocks.DiskWritten, Chains.Extended;
    var a := v.fds[fd].value;
    var c, added := v.chains[a.file], Added(v, a.file, a.offset, count);
    var d := c + added;
    var n := Reach(a.offset, count, |d|, v.B);
    ExtendedFacts(v, a.file, a.offset, count);
    LinkedExtends(v.fat, c, added);
    var disk' := WriteDisk(v.disk, v.sb.dataStart, d, a.offset, buf[..n], v.B);
    v' := AfterWrite(v, fd, count, Linked(v.fat, d), if d == [] then FAT_EOC else d[0], disk', n);
    r := Outcome(n, []);
  }

  lemma WriteDisk(disk: seq<Block>, ds: nat, d: seq<nat>, off: nat, data: seq<byte>, B: nat) returns (disk': seq<Block>)
    requires BlocksOf(disk, B) && OnDisk(disk, ds, d) && Injective(d)
    requires B > 0 && (data != [] ==> off + |data| <= |d| * B)
    ensures DiskWritten(disk, disk', ds, d, off, data, B)
  {
    if data == [] {
      disk' := disk;
    } else {
      StoredWrites(disk, ds, d, off, data, B);
      disk' := Stored(disk, ds, d, Splice(Contents(disk, ds, d), off, data), B);
    }
  }

  /** A delete that passes all checks but whose loop does not end. */
  ghost predicate Hangs(v: Volume, op: Op)
    requires WellFormed(v)
  {
    op.Delete? && Deletable(v, op.filename) && !FreeingEnds(v, FindName(v.root, op.filename.value))
  }

  lemma BlockInside(q: nat, n: nat, B: nat)
    requires q < n
    ensures q * B + B <= n * B
  {
    MulMono(q + 1, n, B);
    Distribute(q, 1, B);
  }

  lemma OverrunHasOutcome(v: Volume, fd: int, count: nat) returns (r: Outcome)
    requires WellFormed(v) && FdOpen(v, fd) && Overrun(v, fd, count)
    ensures ReadNext(v, fd, false, count, v, r)
  {
    var d := v.fds[fd].value;
    var bytes, q := FileBytes(v, d.file), d.offset / v.B + 1;
    FileLength(v, d.file);
    BlockInside(q, |v.chains[d.file]|, v.B);
    r := Outcome(-1, bytes[q * v.B..q * v.B + v.B]);
  }

  lemma ReadHasOutcome(v: Volume, fd: int, isNull: bool, count: nat) returns (v': Volume, r: Outcome)
    requires WellFormed(v)
    ensures ReadNext(v, fd, isNull, count, v', r)
  {
    v', r := v, FAIL;
    if FdOpen(v, fd) && !isNull {
      if Overrun(v, fd, count) {
        r := OverrunHasOutcome(v, fd, count);
      } else {
        hide Overrun, Blocks.Contents;
        var d := v.fds[fd].value;
        var bytes, n := FileBytes(v, d.file), Reach(d.offset, count, |v.chains[d.file]|, v.B);
        FileLength(v, d.file);
        r := Outcome(n, if n == 0 then [] else bytes[d.offset..d.offset + n]);
        v' := if n == count then v.(fds := v.fds[fd := Some(d.(offset := (d.offset + n) % 0x1_0000))]) else v;
      }
    }
  }

  lemma DeleteHasOutcome(v: Volume, filename: Option<CString>) returns (v': Volume, r: Outcome)
    requires WellFormed(v) && !Hangs(v, Op.Delete(filename))
    ensures DeleteNext(v, filename, v', r)
  {
    v', r := v, FAIL;
    if Deletable(v, filename) {
      var slot := FindName(v.root, filename.value);
      NoNul(filename.value);
      assert Used(v.root[slot]);
      var e := v.root[slot].(name := v.root[slot].name[0 := 0], size := 0, first := FAT_EOC);
      v' := v.(fat := DeletedFat(v.fat, v.chains[slot]), root := v.root[slot := e], chains := v.chains[slot := []]);
      r := Outcome(0, []);
    }
  }

  /** Progress: from every well-formed state every call goes on, except the delete that hangs. */
  lemma NextHasOutcomeIff(v: Volume, op: Op)
    requires WellFormed(v) && Admissible(op)
    ensures (exists v', r :: Next(v, op, v', r)) <==> !Hangs(v, op)
  {
    if !Hangs(v, op) {
      var v', r := SomeOutcome(v, op);
    }
  }

  lemma SomeOutcome(v: Volume, op: Op) returns (v': Volume, r: Outcome)
    requires WellFormed(v) && Admissible(op) && !Hangs(v, op)
    ensures Next(v, op, v', r)
  {
    hide Blocks.NumTarget, Blocks.DiskWritten, Chains.Extended, Volumes.Written, Volumes.ReadNext, Volumes.DeleteNext;
    v', r := v, FAIL;
    match op
    case Create(filename) =>
      if !Invalid(filename) && FindName(v.root, filename.value) == -1 && FindEmpty(v.root) != -1 {
        var slot := FindEmpty(v.root);
        var name := StoredName(v.root[slot].name, filename.value);
        v' := v.(root := v.root[slot := v.root[slot].(name := name, size := 0, first := FAT_EOC)]);
        r := Outcome(0, []);
      }
    case Delete(filename) => v', r := DeleteHasOutcome(v, filename);
    case Open(filename) =>
      if !Invalid(filename) && FindName(v.root, filename.value) != -1 && FindFd(v.fds) != -1 {
        var d := Descriptor(FindName(v.root, filename.value), 0);
        v' := v.(fds := v.fds[FindFd(v.fds) := Some(d)], numOpen := v.numOpen + 1);
        r := Outcome(FindFd(v.fds), []);
      }
    case Close(fd) =>
      if FdOpen(v, fd) {
        v', r := v.(fds := v.fds[fd := None], numOpen := v.numOpen - 1), Outcome(0, []);
      }
    case Stat(fd) =>
      if FdOpen(v, fd) {
        r := Outcome(ToInt(v.root[v.fds[fd].value.file].size), []);
      }
    case Lseek(fd, offset) =>
      if FdOpen(v, fd) && offset <= v.root[v.fds[fd].value.file].size {
        v' := v.(fds := v.fds[fd := Some(v.fds[fd].value.(offset := offset % 0x1_0000))]);
        r := Outcome(0, []);
      }
    case Write(fd, buf, count) =>
      if FdOpen(v, fd) && buf.Some? {
        if count == 0 {
          r := Outcome(0, []);
        } else {
          v', r := WriteHasOutcome(v, fd, buf.value, count);
        }
      }
    case Read(fd, isNull, count) => v', r := ReadHasOutcome(v, fd, isNull, count);
  }

  /** Determinism: a call has at most one outcome. */
  lemma NextIsDetermined(v: Volume, op: Op, v1: Volume, r1: Outcome, v2: Volume, r2: Outcome)
    requires WellFormed(v) && Admissible(op) && Next(v, op, v1, r1) && Next(v, op, v2, r2)
    ensures v1 == v2 && r1 == r2
  {
    hide Blocks.NumTarget, Blocks.DiskWritten, Chains.Extended, Volumes.Written;
    match op
    case Write(fd, buf, count) =>
      if FdOpen(v, fd) && buf.Some? && count > 0 {
        WriteIsDetermined(v, fd, buf.value, count, v1, r1, v2, r2);
      }
    case _ =>
  }
}
