/** The volume refines the flat model, call by call. */
module Refinement {
  import opened Types
  import opened Blocks
  import opened Chains
  import opened Names
  import opened Volumes
  import opened Invariant
  import opened FlatModel

  // ----- names and counts -----

  /** A valid name is a file of the flat model exactly when the root search finds it. */
  lemma AbsName(v: Volume, s: CString)
    requires WellFormed(v) && s != []
    ensures s in AbsFiles(v) <==> FindName(v.root, s) != -1
    ensures FindName(v.root, s) != -1 ==> Used(v.root[FindName(v.root, s)])
  {
    var i := FindName(v.root, s);
    NoNul(s);
    RowsAreUnique(v);
    TableAt(Rows(v), s);
    if i != -1 {
      assert Holds(Rows(v), i, s);
    }
  }

  /** All 128 root slots are taken exactly when the flat model holds 128 files. */
  lemma AbsFull(v: Volume)
    requires WellFormed(v)
    ensures FindEmpty(v.root) == -1 <==> |AbsFiles(v)| == FS_FILE_MAX_COUNT
  {
    RowsAreUnique(v);
    TableSize(Rows(v));
    assert forall i :: 0 <= i < |v.root| ==> (Rows(v)[i].Some? <==> Used(v.root[i]));
  }

  // ----- changing one root slot -----

  /** Slots other than f keep their name, size and bytes. */
  ghost predicate SameElsewhere(v: Volume, v': Volume, f: int)
    requires WellFormed(v) && WellFormed(v')
  {
    forall i :: 0 <= i < |v.root| && i != f ==>
      v'.root[i] == v.root[i] && (Used(v.root[i]) ==> FileBytes(v', i) == FileBytes(v, i))
  }

  lemma RowsElsewhere(v: Volume, v': Volume, f: int)
    requires WellFormed(v) && WellFormed(v') && 0 <= f < |v.root| && SameElsewhere(v, v', f)
    ensures Rows(v') == Rows(v)[f := Rows(v')[f]]
  {
  }

  lemma FilesReplaced(v: Volume, v': Volume, f: int)
    requires WellFormed(v) && WellFormed(v') && 0 <= f < |v.root| && SameElsewhere(v, v', f)
    requires Used(v'.root[f]) && (Used(v.root[f]) ==> CName(v'.root[f].name) == CName(v.root[f].name))
    ensures AbsFiles(v') == AbsFiles(v)[CName(v'.root[f].name) := FlatFileOf(v', f)]
  {
    RowsElsewhere(v, v', f);
    RowsAreUnique(v);
    RowsAreUnique(v');
    var row := Rows(v')[f].value;
    assert Rows(v') == Rows(v)[f := Some(row)];
    TableReplaced(Rows(v), f, row);
  }

  lemma FilesRemoved(v: Volume, v': Volume, f: int)
    requires WellFormed(v) && WellFormed(v') && 0 <= f < |v.root| && SameElsewhere(v, v', f)
    requires Used(v.root[f]) && !Used(v'.root[f])
    ensures AbsFiles(v') == AbsFiles(v) - {CName(v.root[f].name)}
  {
    RowsElsewhere(v, v', f);
    RowsAreUnique(v);
    TableRemoved(Rows(v), f);
  }

  /** With an unchanged root and unchanged file bytes the flat files are the same. */
  lemma FilesSame(v: Volume, v': Volume)
    requires WellFormed(v) && WellFormed(v')
    requires v'.root == v.root && v'.disk == v.disk && v'.chains == v.chains && v'.sb == v.sb
    ensures AbsFiles(v') == AbsFiles(v)
  {
    assert forall i :: 0 <= i < |v.root| ==> FileBytes(v', i) == FileBytes(v, i);
    assert Rows(v') == Rows(v);
  }

  /** Descriptors look the same when the names they refer to are the same. */
  lemma FdsSame(v: Volume, v': Volume)
    requires WellFormed(v) && WellFormed(v') && v'.fds == v.fds
    requires forall i :: 0 <= i < |v.root| && Used(v.root[i]) ==> CName(v'.root[i].name) == CName(v.root[i].name)
    ensures AbsFds(v') == AbsFds(v)
  {
  }

  lemma AbsFdOpen(v: Volume, fd: int)
    requires WellFormed(v)
    ensures FlatFdOpen(Abs(v), fd) <==> FdOpen(v, fd)
    ensures FlatOk(Abs(v))
    ensures FdOpen(v, fd) ==>
      var d := v.fds[fd].value;
      && Used(v.root[d.file])
      && Abs(v).fds[fd].value == FlatFd(CName(v.root[d.file].name), d.offset)
      && FdFile(Abs(v), fd) == FlatFileOf(v, d.file)
  {
    AbsOk(v);
    if FdOpen(v, fd) {
      AbsFile(v, v.fds[fd].value.file);
    }
  }

  // ----- one lemma per operation -----

  /** The new entry is an empty file. */
  lemma CreatedFile(v: Volume, filename: Option<CString>, v': Volume, r: Outcome)
    requires WellFormed(v) && WellFormed(v') && CreateNext(v, filename, v', r) && r.ret == 0
    ensures FindEmpty(v.root) != -1 && !Used(v.root[FindEmpty(v.root)]) && Used(v'.root[FindEmpty(v.root)])
    ensures CName(v'.root[FindEmpty(v.root)].name) == filename.value
    ensures FlatFileOf(v', FindEmpty(v.root)) == FlatFile([], 0)
    ensures SameElsewhere(v, v', FindEmpty(v.root))
  {
    CNamePrefix(v'.root[FindEmpty(v.root)].name, filename.value);
    NoNul(filename.value);
  }

  lemma CreateRefines(v: Volume, filename: Option<CString>, v': Volume, r: Outcome)
    requires WellFormed(v) && WellFormed(v') && CreateNext(v, filename, v', r)
    ensures FlatCreate(Abs(v), filename, Abs(v'), r)
  {
    hide Volumes.LayoutOk, Volumes.NamesUnique, Volumes.ChainsOk, Volumes.Disjoint, AbsFiles, AbsFds;
    if !Invalid(filename) {
      AbsName(v, filename.value);
      AbsFull(v);
      if r.ret == 0 {
        CreatedFile(v, filename, v', r);
        FilesReplaced(v, v', FindEmpty(v.root));
        FdsSame(v, v');
      }
    }
  }

  lemma SlotOpenIsNameOpen(v: Volume, slot: int)
    requires WellFormed(v) && 0 <= slot < |v.root| && Used(v.root[slot])
    ensures SlotOpen(v, slot) <==> NameOpen(Abs(v), CName(v.root[slot].name))
  {
    var s := CName(v.root[slot].name);
    if SlotOpen(v, slot) {
      var i :| 0 <= i < |v.fds| && v.fds[i].Some? && v.fds[i].value.file == slot;
      assert AbsFds(v)[i].value.name == s;
    }
    if NameOpen(Abs(v), s) {
      var i :| 0 <= i < |v.fds| && AbsFds(v)[i].Some? && AbsFds(v)[i].value.name == s;
      assert v.fds[i].value.file == slot;
    }
  }

  /** Freeing a file in the source's order gives back its first block only. */
  lemma DeletedFree(v: Volume, slot: int)
    requires WellFormed(v) && 0 <= slot < |v.root| && Used(v.root[slot]) && SlotInFat(v, slot)
    ensures |Free(DeletedFat(v.fat, v.chains[slot]))| == |Free(v.fat)| + (if v.chains[slot] == [] then 0 else 1)
  {
    var c := v.chains[slot];
    if c != [] {
      ChainNotFree(v.fat, v.root[slot].first, c, c[0]);
      FreeRelease(v.fat, DeletedFat(v.fat, c), 1, c[0]);
    }
  }

  lemma DeleteElsewhere(v: Volume, filename: Option<CString>, v': Volume, r: Outcome)
    requires WellFormed(v) && WellFormed(v') && Deletable(v, filename) && DeleteNext(v, filename, v', r)
    ensures SameElsewhere(v, v', FindName(v.root, filename.value))
  {
  }

  lemma FileLength(v: Volume, i: int)
    requires WellFormed(v) && 0 <= i < |v.root|
    ensures |FileBytes(v, i)| == |v.chains[i]| * v.B
  {
    ChainOnDisk(v, i);
    ContentsLength(v.disk, v.sb.dataStart, v.chains[i], v.B);
  }

  lemma DeleteRefines(v: Volume, filename: Option<CString>, v': Volume, r: Outcome)
    requires WellFormed(v) && WellFormed(v') && DeleteNext(v, filename, v', r)
    ensures FlatDelete(Abs(v), filename, Abs(v'), r)
  {
    if !Invalid(filename) {
      var s := filename.value;
      AbsName(v, s);
      var slot := FindName(v.root, s);
      if slot != -1 {
        SlotOpenIsNameOpen(v, slot);
        if !SlotOpen(v, slot) {
          AbsFile(v, slot);
          FileLength(v, slot);
          MulOrder(|v.chains[slot]|, 1, v.B);
          MulOrder(1, |v.chains[slot]|, v.B);
          DeleteElsewhere(v, filename, v', r);
          FilesRemoved(v, v', slot);
          DeletedFree(v, slot);
          DeleteFds(v, filename, v', r);
          DeleteSentinel(v, slot);
        }
      }
    }
  }

  lemma DeleteFds(v: Volume, filename: Option<CString>, v': Volume, r: Outcome)
    requires WellFormed(v) && WellFormed(v') && Deletable(v, filename) && DeleteNext(v, filename, v', r)
    ensures AbsFds(v') == AbsFds(v)
  {
    var slot := FindName(v.root, filename.value);
    forall i | 0 <= i < |v.fds| ensures AbsFds(v')[i] == AbsFds(v)[i] {
      assert v.fds[i].Some? ==> v.fds[i].value.file != slot;
    }
  }

  lemma DeleteSentinel(v: Volume, slot: int)
    requires WellFormed(v) && 0 <= slot < |v.root| && Used(v.root[slot]) && SlotInFat(v, slot)
    ensures DeletedFat(v.fat, v.chains[slot])[0] == if |v.chains[slot]| <= 1 then v.fat[0] else 0
  {
  }

  lemma FdAdded(v: Volume, v': Volume, fd: int, slot: nat)
    requires WellFormed(v) && WellFormed(v') && 0 <= fd < |v.fds| && slot < |v.root| && v'.root == v.root
    requires v'.fds == v.fds[fd := Some(Descriptor(slot, 0))]
    ensures AbsFds(v') == AbsFds(v)[fd := Some(FlatFd(CName(v.root[slot].name), 0))]
  {
    hide Volumes.LayoutOk, Volumes.NamesUnique, Volumes.ChainsOk, Volumes.Disjoint;
  }

  lemma AbsFdSome(v: Volume)
    requires WellFormed(v)
    ensures forall i :: 0 <= i < |v.fds| ==> (AbsFds(v)[i].Some? <==> v.fds[i].Some?)
  {
  }

  lemma OpenRefines(v: Volume, filename: Option<CString>, v': Volume, r: Outcome)
    requires WellFormed(v) && WellFormed(v') && OpenNext(v, filename, v', r)
    ensures FlatOpen(Abs(v), filename, Abs(v'), r)
  {
    hide Volumes.LayoutOk, Volumes.NamesUnique, Volumes.ChainsOk, Volumes.Disjoint, AbsFiles, AbsFds;
    AbsFdSome(v);
    if !Invalid(filename) {
      var s := filename.value;
      AbsName(v, s);
      var fd := FindFd(v.fds);
      if FindName(v.root, s) != -1 && fd != -1 {
        FilesSame(v, v');
        FdAdded(v, v', fd, FindName(v.root, s));
      }
    }
  }

  lemma CloseRefines(v: Volume, fd: int, v': Volume, r: Outcome)
    requires WellFormed(v) && WellFormed(v') && CloseNext(v, fd, v', r)
    ensures FlatClose(Abs(v), fd, Abs(v'), r)
  {
    AbsFdOpen(v, fd);
    if FdOpen(v, fd) {
      FilesSame(v, v');
      assert AbsFds(v') == AbsFds(v)[fd := None];
    }
  }

  lemma SeekRefines(v: Volume, fd: int, offset: nat)
    requires WellFormed(v) && FdOpen(v, fd)
    ensures var v' := v.(fds := v.fds[fd := Some(v.fds[fd].value.(offset := offset % 0x1_0000))]);
            WellFormed(v') && FlatFdOpen(Abs(v), fd) && Abs(v') == Moved(Abs(v), fd, offset)
  {
    SeekKeeps(v, fd, offset % 0x1_0000);
    var v' := v.(fds := v.fds[fd := Some(v.fds[fd].value.(offset := offset % 0x1_0000))]);
    AbsFdOpen(v, fd);
    FilesSame(v, v');
    assert AbsFds(v') == Moved(Abs(v), fd, offset).fds;
  }

  lemma LseekRefines(v: Volume, fd: int, offset: nat, v': Volume, r: Outcome)
    requires WellFormed(v) && WellFormed(v') && FlatOk(Abs(v)) && LseekNext(v, fd, offset, v', r)
    ensures FlatLseek(Abs(v), fd, offset, Abs(v'), r)
  {
    AbsFdOpen(v, fd);
    if FdOpen(v, fd) {
      SeekRefines(v, fd, offset);
    }
  }

  lemma OverrunSame(v: Volume, fd: int, count: nat)
    requires WellFormed(v) && FdOpen(v, fd)
    ensures var d := v.fds[fd].value;
            Overrun(v, fd, count) <==> FlatOverrun(v.B, d.offset, |FileBytes(v, d.file)|, count)
  {
    var d := v.fds[fd].value;
    FileLength(v, d.file);
    MulOrder(d.offset / v.B + 2, |v.chains[d.file]|, v.B);
  }

  /** Outside the overrun a read returns the slice of the file's bytes that the request covers. */
  lemma ReadSlice(v: Volume, fd: int, count: nat, v': Volume, r: Outcome)
    requires WellFormed(v) && FdOpen(v, fd) && !Overrun(v, fd, count) && ReadNext(v, fd, false, count, v', r)
    ensures var d := v.fds[fd].value;
            && r == Outcome(|r.data|, Slice(FileBytes(v, d.file), d.offset, count))
            && v' == if |r.data| == count
                     then v.(fds := v.fds[fd := Some(d.(offset := (d.offset + count) % 0x1_0000))])
                     else v
  {
    FileLength(v, v.fds[fd].value.file);
  }

  lemma ReadOverrun(v: Volume, fd: int, count: nat, v': Volume, r: Outcome)
    requires WellFormed(v) && FdOpen(v, fd) && Overrun(v, fd, count) && ReadNext(v, fd, false, count, v', r)
    ensures var d := v.fds[fd].value;
            v' == v && r == Outcome(-1, Slice(FileBytes(v, d.file), (d.offset / v.B + 1) * v.B, v.B))
  {
  }

  lemma ReadRefines(v: Volume, fd: int, isNull: bool, count: nat, v': Volume, r: Outcome)
    requires WellFormed(v) && WellFormed(v') && FlatOk(Abs(v)) && ReadNext(v, fd, isNull, count, v', r)
    ensures FlatRead(Abs(v), fd, isNull, count, Abs(v'), r)
  {
    AbsFdOpen(v, fd);
    if FdOpen(v, fd) && !isNull {
      OverrunSame(v, fd, count);
      if Overrun(v, fd, count) {
        ReadOverrun(v, fd, count, v', r);
      } else {
        ReadSlice(v, fd, count, v', r);
        SeekRefines(v, fd, v.fds[fd].value.offset + count);
      }
    }
  }

  // ----- writing -----

  /** The chain of the written file lies on the disk, before and after. */
  lemma WrittenOnDisk(v: Volume, fd: int, buf: seq<byte>, count: nat, v': Volume, r: Outcome)
    requires WellFormed(v) && WellFormed(v') && FdOpen(v, fd) && 0 < count <= |buf| && Written(v, fd, buf, count, v', r)
    ensures var f, ds := v.fds[fd].value.file, v.sb.dataStart;
            var c := v'.chains[f];
            && c == v.chains[f] + Added(v, f, v.fds[fd].value.offset, count)
            && OnDisk(v.disk, ds, c) && OnDisk(v'.disk, ds, c)
            && |Contents(v.disk, ds, c)| == |c| * v.B == |FileBytes(v', f)|
            && FileBytes(v, f) <= Contents(v.disk, ds, c)
            && FileBytes(v', f) == Contents(v'.disk, ds, c)
  {
    var d := v.fds[fd].value;
    var added := Added(v, d.file, d.offset, count);
    ChainOnDisk(v, d.file);
    ChainOnDisk(v', d.file);
    FreeFacts(v.fat);
    forall k | 0 <= k < |added| ensures v.sb.dataStart + added[k] < |v.disk| {
      assert added[k] in Free(v.fat);
    }
    ContentsAppend(v.disk, v.sb.dataStart, v.chains[d.file], added);
    ContentsLength(v.disk, v.sb.dataStart, v'.chains[d.file], v.B);
    ContentsLength(v'.disk, v.sb.dataStart, v'.chains[d.file], v.B);
  }

  /** No other file has a byte changed. */
  lemma WrittenElsewhere(v: Volume, fd: int, buf: seq<byte>, count: nat, v': Volume, r: Outcome)
    requires WellFormed(v) && WellFormed(v') && FdOpen(v, fd) && 0 < count <= |buf| && Written(v, fd, buf, count, v', r)
    ensures SameElsewhere(v, v', v.fds[fd].value.file)
  {
    var d := v.fds[fd].value;
    AddedFacts(v, d.file, d.offset, count);
    forall i | 0 <= i < |v.root| && i != d.file ensures FileBytes(v', i) == FileBytes(v, i) {
      WrittenFrame(v, fd, buf, count, v', r, i);
    }
  }

  lemma WrittenFrame(v: Volume, fd: int, buf: seq<byte>, count: nat, v': Volume, r: Outcome, i: nat)
    requires WellFormed(v) && WellFormed(v') && FdOpen(v, fd) && 0 < count <= |buf| && Written(v, fd, buf, count, v', r)
    requires i < |v.root| && i != v.fds[fd].value.file
    ensures FileBytes(v', i) == FileBytes(v, i)
  {
    var f := v.fds[fd].value.file;
    var c := v.chains[i];
    ChainOnDisk(v, i);
    ChainOnDisk(v', i);
    forall k | 0 <= k < |c| ensures v'.disk[v.sb.dataStart + c[k]] == v.disk[v.sb.dataStart + c[k]] {
      assert c[k] in v'.chains[i];
      assert c[k] !in v'.chains[f];
    }
    ContentsFrame(v.disk, v'.disk, v.sb.dataStart, c);
  }

  /** The flat effect of splicing data into the grown contents. */
  lemma SpliceOverwrites(before: seq<byte>, grown: seq<byte>, off: nat, data: seq<byte>)
    requires before <= grown && (data != [] ==> off + |data| <= |grown|)
    ensures Overwritten(before, if data == [] then grown else Splice(grown, off, data), |grown|, off, data)
  {
  }

  lemma WrittenBytes(v: Volume, fd: int, buf: seq<byte>, count: nat, v': Volume, r: Outcome)
    requires WellFormed(v) && WellFormed(v') && FdOpen(v, fd) && 0 < count <= |buf| && Written(v, fd, buf, count, v', r)
    ensures var d := v.fds[fd].value;
            var bytes, bytes' := FileBytes(v, d.file), FileBytes(v', d.file);
            0 <= r.ret <= count && Overwritten(bytes, bytes', |v'.chains[d.file]| * v.B, d.offset, buf[..r.ret])
  {
    var d := v.fds[fd].value;
    WrittenOnDisk(v, fd, buf, count, v', r);
    SpliceOverwrites(FileBytes(v, d.file), Contents(v.disk, v.sb.dataStart, v'.chains[d.file]), d.offset, buf[..r.ret]);
  }

  /** The blocks a write adds are the first free ones, as many as the flat model says. */
  lemma AddedCount(v: Volume, f: nat, off: nat, count: nat)
    requires WellFormed(v) && f < |v.root|
    ensures var grown := Growth(Abs(v), |FileBytes(v, f)|, off, count);
            grown <= |Free(v.fat)| && Added(v, f, off, count) == Free(v.fat)[..grown]
  {
    hide Blocks.NumTarget;
    FileLength(v, f);
    DivUnique(|v.chains[f]| * v.B, v.B, |v.chains[f]|, 0);
  }

  /** How many bytes a write adds to the file. */
  lemma WrittenLength(v: Volume, fd: int, buf: seq<byte>, count: nat, v': Volume, r: Outcome)
    requires WellFormed(v) && WellFormed(v') && FdOpen(v, fd) && 0 < count <= |buf| && Written(v, fd, buf, count, v', r)
    ensures var d := v.fds[fd].value;
            var n := |FileBytes(v, d.file)|;
            |v'.chains[d.file]| * v.B == n + Growth(Abs(v), n, d.offset, count) * v.B
  {
    hide Blocks.DiskWritten, Blocks.NumTarget;
    var d := v.fds[fd].value;
    FileLength(v, d.file);
    AddedCount(v, d.file, d.offset, count);
    Distribute(|v.chains[d.file]|, Growth(Abs(v), |FileBytes(v, d.file)|, d.offset, count), v.B);
  }

  /** How many blocks remain free. */
  lemma WrittenFree(v: Volume, fd: int, buf: seq<byte>, count: nat, v': Volume, r: Outcome)
    requires WellFormed(v) && FdOpen(v, fd) && 0 < count <= |buf| && Written(v, fd, buf, count, v', r)
    ensures var d := v.fds[fd].value;
            Free(v'.fat) == Free(v.fat)[|Added(v, d.file, d.offset, count)|..]
  {
    var d := v.fds[fd].value;
    var added := Added(v, d.file, d.offset, count);
    assert added == Free(v.fat)[..|added|];
    assert Used(v.root[d.file]);
    ExtendFree(v.fat, v'.fat, v.root[d.file].first, v'.root[d.file].first, v.chains[d.file], |added|);
  }

  lemma FdMoved(v: Volume, v': Volume, fd: int, offset: u16)
    requires WellFormed(v) && WellFormed(v') && FdOpen(v, fd)
    requires v'.fds == v.fds[fd := Some(v.fds[fd].value.(offset := offset))]
    requires forall i :: 0 <= i < |v.root| ==> v'.root[i].name == v.root[i].name
    ensures AbsFds(v') == AbsFds(v)[fd := Some(FlatFd(CName(v.root[v.fds[fd].value.file].name), offset))]
  {
    hide Volumes.LayoutOk, Volumes.NamesUnique, Volumes.ChainsOk, Volumes.Disjoint, Volumes.EntriesOk;
  }

  /** The file map after the call, in flat terms. */
  ghost predicate FlatFilesWritten(f: Flat, fd: int, f': Flat, file': FlatFile)
    requires FlatFdOpen(f, fd)
  {
    f'.files == f.files[f.fds[fd].value.name := file']
  }

  /** The descriptors after the call, in flat terms. */
  ghost predicate FlatFdsWritten(f: Flat, fd: int, count: nat, f': Flat, r: Outcome)
    requires FlatFdOpen(f, fd)
  {
    f'.fds == if r.ret == count then Moved(f, fd, f.fds[fd].value.offset + count).fds else f.fds
  }

  /** The remaining fields after the call, in flat terms. */
  ghost predicate FlatCountsWritten(f: Flat, fd: int, count: nat, f': Flat)
    requires FlatOk(f) && FlatFdOpen(f, fd)
  {
    && f'.free == f.free - Growth(f, |FdFile(f, fd).bytes|, f.fds[fd].value.offset, count)
    && f'.B == f.B && f'.sentinel == f.sentinel
  }

  lemma WrittenDescriptor(v: Volume, fd: int, buf: seq<byte>, count: nat, v': Volume, r: Outcome)
    requires WellFormed(v) && WellFormed(v') && FdOpen(v, fd) && 0 < count <= |buf| && Written(v, fd, buf, count, v', r)
    ensures var d := v.fds[fd].value;
            v'.fds == v.fds[fd := Some(d.(offset := if r.ret == count then (d.offset + count) % 0x1_0000 else d.offset))]
    ensures forall i :: 0 <= i < |v.root| ==> v'.root[i].name == v.root[i].name
  {
    hide Blocks.DiskWritten, Blocks.NumTarget;
  }

  lemma WrittenFds(v: Volume, fd: int, buf: seq<byte>, count: nat, v': Volume, r: Outcome)
    requires WellFormed(v) && WellFormed(v') && FdOpen(v, fd) && 0 < count <= |buf| && Written(v, fd, buf, count, v', r)
    ensures FlatFdOpen(Abs(v), fd)
    ensures FlatFdsWritten(Abs(v), fd, count, Abs(v'), r)
  {
    hide Volumes.Written, Volumes.LayoutOk, Volumes.NamesUnique, Volumes.ChainsOk, Volumes.Disjoint, Volumes.EntriesOk;
    hide AbsFds, AbsFiles, FlatOk;
    var d := v.fds[fd].value;
    AbsFdOpen(v, fd);
    WrittenDescriptor(v, fd, buf, count, v', r);
    FdMoved(v, v', fd, if r.ret == count then (d.offset + count) % 0x1_0000 else d.offset);
  }

  /** The fields of a write's result that do not concern its bytes. */
  lemma WrittenFields(v: Volume, fd: int, buf: seq<byte>, count: nat, v': Volume, r: Outcome)
    requires WellFormed(v) && WellFormed(v') && FdOpen(v, fd) && 0 < count <= |buf| && Written(v, fd, buf, count, v', r)
    ensures var d := v.fds[fd].value;
            var f := v.root[d.file];
            && Used(f) && Used(v'.root[d.file]) && v'.root[d.file].name == f.name
            && r.data == [] && r.ret == Reach(d.offset, count, |v'.chains[d.file]|, v.B)
            && v'.root[d.file].size == (if r.ret == count then (f.size + count) % 0x1_0000_0000 else f.size)
            && v'.B == v.B
  {
    hide Blocks.DiskWritten, Blocks.NumTarget;
  }

  /** The written file after the call, in flat terms. */
  ghost predicate FlatFileWritten(f: Flat, fd: int, buf: seq<byte>, count: nat, r: Outcome, file': FlatFile)
    requires FlatOk(f) && FlatFdOpen(f, fd) && 0 < count <= |buf|
  {
    var d, file := f.fds[fd].value, FdFile(f, fd);
    var cap := |file.bytes| + Growth(f, |file.bytes|, d.offset, count) * f.B;
    && r == Outcome(Min(count, Max(0, cap - d.offset)), [])
    && Overwritten(file.bytes, file'.bytes, cap, d.offset, buf[..r.ret])
    && file'.size == (if r.ret == count then (file.size + count) % 0x1_0000_0000 else file.size)
  }

  lemma WrittenFlatFile(v: Volume, fd: int, buf: seq<byte>, count: nat, v': Volume, r: Outcome)
    requires WellFormed(v) && WellFormed(v') && FdOpen(v, fd) && 0 < count <= |buf| && Written(v, fd, buf, count, v', r)
    ensures FlatOk(Abs(v)) && FlatFdOpen(Abs(v), fd)
    ensures FlatFileWritten(Abs(v), fd, buf, count, r, FlatFileOf(v', v.fds[fd].value.file))
  {
    hide Blocks.DiskWritten, Blocks.NumTarget;
    AbsFdOpen(v, fd);
    WrittenBytes(v, fd, buf, count, v', r);
    WrittenLength(v, fd, buf, count, v', r);
    WrittenFields(v, fd, buf, count, v', r);
  }

  lemma WrittenFiles(v: Volume, fd: int, buf: seq<byte>, count: nat, v': Volume, r: Outcome)
    requires WellFormed(v) && WellFormed(v') && FdOpen(v, fd) && 0 < count <= |buf| && Written(v, fd, buf, count, v', r)
    ensures FlatFdOpen(Abs(v), fd)
    ensures FlatFilesWritten(Abs(v), fd, Abs(v'), FlatFileOf(v', v.fds[fd].value.file))
  {
    hide Blocks.DiskWritten, Blocks.NumTarget;
    AbsFdOpen(v, fd);
    WrittenFields(v, fd, buf, count, v', r);
    WrittenElsewhere(v, fd, buf, count, v', r);
    FilesReplaced(v, v', v.fds[fd].value.file);
  }

  lemma WrittenCounts(v: Volume, fd: int, buf: seq<byte>, count: nat, v': Volume, r: Outcome)
    requires WellFormed(v) && WellFormed(v') && FdOpen(v, fd) && 0 < count <= |buf| && Written(v, fd, buf, count, v', r)
    ensures FlatOk(Abs(v)) && FlatFdOpen(Abs(v), fd)
    ensures FlatCountsWritten(Abs(v), fd, count, Abs(v'))
  {
    hide Blocks.DiskWritten, Blocks.NumTarget;
    AbsFdOpen(v, fd);
    AddedCount(v, v.fds[fd].value.file, v.fds[fd].value.offset, count);
    WrittenFree(v, fd, buf, count, v', r);
    WrittenSentinel(v, fd, buf, count, v', r);
  }

  lemma FlatWritten(f: Flat, fd: int, buf: seq<byte>, count: nat, f': Flat, r: Outcome, file': FlatFile)
    requires FlatOk(f) && FlatFdOpen(f, fd) && 0 < count <= |buf|
    requires FlatFileWritten(f, fd, buf, count, r, file')
    requires FlatFilesWritten(f, fd, f', file') && FlatFdsWritten(f, fd, count, f', r) && FlatCountsWritten(f, fd, count, f')
    ensures FlatWrite(f, fd, Some(buf), count, f', r)
  {
    assert f'.files[f.fds[fd].value.name] == file';
  }

  lemma WriteRefines(v: Volume, fd: int, buf: seq<byte>, count: nat, v': Volume, r: Outcome)
    requires WellFormed(v) && WellFormed(v') && FdOpen(v, fd) && 0 < count <= |buf| && Written(v, fd, buf, count, v', r)
    ensures FlatOk(Abs(v)) && FlatWrite(Abs(v), fd, Some(buf), count, Abs(v'), r)
  {
    WrittenFlatFile(v, fd, buf, count, v', r);
    WrittenFiles(v, fd, buf, count, v', r);
    WrittenCounts(v, fd, buf, count, v', r);
    WrittenFds(v, fd, buf, count, v', r);
    FlatWritten(Abs(v), fd, buf, count, Abs(v'), r, FlatFileOf(v', v.fds[fd].value.file));
  }

  lemma WrittenSentinel(v: Volume, fd: int, buf: seq<byte>, count: nat, v': Volume, r: Outcome)
    requires WellFormed(v) && FdOpen(v, fd) && 0 < count <= |buf| && Written(v, fd, buf, count, v', r)
    ensures v'.fat[0] == v.fat[0]
  {
    var d := v.fds[fd].value;
    AddedFacts(v, d.file, d.offset, count);
    FreeFacts(v.fat);
    assert Used(v.root[d.file]);
    assert 0 !in v.chains[d.file] && 0 !in Added(v, d.file, d.offset, count);
  }

  /** Refinement: a call on a volume is a call on its flat model, with the same return value and the
      same bytes handed to the caller. */
  lemma NextRefines(v: Volume, op: Op, v': Volume, r: Outcome)
    requires WellFormed(v) && Admissible(op) && Next(v, op, v', r)
    ensures WellFormed(v') && FlatOk(Abs(v)) && FlatNext(Abs(v), op, Abs(v'), r)
  {
    NextKeepsWellFormed(v, op, v', r);
    AbsOk(v);
    match op
    case Create(filename) => CreateRefines(v, filename, v', r);
    case Delete(filename) => DeleteRefines(v, filename, v', r);
    case Open(filename) => OpenRefines(v, filename, v', r);
    case Close(fd) => CloseRefines(v, fd, v', r);
    case Stat(fd) => AbsFdOpen(v, fd);
    case Lseek(fd, offset) => LseekRefines(v, fd, offset, v', r);
    case Write(fd, buf, count) =>
      AbsFdOpen(v, fd);
      if FdOpen(v, fd) && buf.Some? && count > 0 {
        WriteRefines(v, fd, buf.value, count, v', r);
      }
    case Read(fd, isNull, count) => ReadRefines(v, fd, isNull, count, v', r);
  }
}
