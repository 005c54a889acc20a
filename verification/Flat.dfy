/** The file system without blocks: a map from names to byte sequences. Every call on a volume is a
    call on this flat model with the same results. */
module FlatModel {
  import opened Types
  import opened Blocks
  import opened Chains
  import opened Names
  import opened Volumes

  /** bytes is everything the file's blocks can hold; size is the recorded file size. */
  datatype FlatFile = FlatFile(bytes: seq<byte>, size: u32)
  datatype FlatFd = FlatFd(name: seq<byte>, offset: u16)

  /** free counts the allocatable blocks; sentinel says that entry 0 still holds its reserved mark. */
  datatype Flat = Flat(B: nat, files: map<seq<byte>, FlatFile>, fds: seq<Option<FlatFd>>, free: nat, sentinel: bool)

  ghost predicate FlatOk(f: Flat) {
    && f.B > 0 && |f.fds| == FS_OPEN_MAX_COUNT
    && (forall i :: 0 <= i < |f.fds| && f.fds[i].Some? ==> f.fds[i].value.name in f.files)
  }

  ghost predicate FlatFdOpen(f: Flat, fd: int) {
    0 <= fd < |f.fds| && f.fds[fd].Some?
  }

  ghost predicate NameOpen(f: Flat, name: seq<byte>) {
    exists i :: 0 <= i < |f.fds| && f.fds[i].Some? && f.fds[i].value.name == name
  }

  ghost predicate LeastFree(f: Flat, fd: int) {
    0 <= fd < |f.fds| && f.fds[fd].None? && forall i :: 0 <= i < fd ==> f.fds[i].Some?
  }

  /** The file a descriptor refers to. */
  ghost function FdFile(f: Flat, fd: int): FlatFile
    requires FlatOk(f) && FlatFdOpen(f, fd)
  {
    f.files[f.fds[fd].value.name]
  }

  /** The block a file of this many bytes needs for a transfer up to byte off + count, as far as there are any. */
  ghost function Growth(f: Flat, len: nat, off: nat, count: nat): nat
    requires f.B > 0
  {
    Min(Max(0, NumTarget(off, count, f.B) - len / f.B), f.free)
  }

  /** bytes' is bytes grown to the length cap with data written at off; what the new blocks hold
      elsewhere is not specified. */
  ghost predicate Overwritten(bytes: seq<byte>, bytes': seq<byte>, cap: nat, off: nat, data: seq<byte>) {
    && |bytes'| == cap && |bytes| <= cap && (data != [] ==> off + |data| <= cap)
    && (data != [] ==> bytes'[off..off + |data|] == data)
    && forall j :: 0 <= j < |bytes| && !(off <= j < off + |data|) ==> bytes'[j] == bytes[j]
  }

  ghost predicate FlatCreate(f: Flat, filename: Option<CString>, f': Flat, r: Outcome) {
    if Invalid(filename) || filename.value in f.files || |f.files| == FS_FILE_MAX_COUNT then f' == f && r == FAIL
    else f' == f.(files := f.files[filename.value := FlatFile([], 0)]) && r == Outcome(0, [])
  }

  /** Delete frees one block at most; on a file of several blocks it also spends the mark of entry 0,
      and does not return when that is spent already. */
  ghost predicate FlatDelete(f: Flat, filename: Option<CString>, f': Flat, r: Outcome) {
    if Invalid(filename) || filename.value !in f.files || NameOpen(f, filename.value) then f' == f && r == FAIL
    else
      var len := |f.files[filename.value].bytes|;
      && (len <= f.B || f.sentinel)
      && f' == f.(files := f.files - {filename.value},
                  free := f.free + (if len == 0 then 0 else 1),
                  sentinel := f.sentinel && len <= f.B)
      && r == Outcome(0, [])
  }

  ghost predicate FlatOpen(f: Flat, filename: Option<CString>, f': Flat, r: Outcome) {
    if Invalid(filename) || filename.value !in f.files || (forall i :: 0 <= i < |f.fds| ==> f.fds[i].Some?) then
      f' == f && r == FAIL
    else
      && LeastFree(f, r.ret) && r.data == []
      && f' == f.(fds := f.fds[r.ret := Some(FlatFd(filename.value, 0))])
  }

  ghost predicate FlatClose(f: Flat, fd: int, f': Flat, r: Outcome) {
    if !FlatFdOpen(f, fd) then f' == f && r == FAIL
    else f' == f.(fds := f.fds[fd := None]) && r == Outcome(0, [])
  }

  ghost predicate FlatStat(f: Flat, fd: int, f': Flat, r: Outcome)
    requires FlatOk(f)
  {
    f' == f && r == if FlatFdOpen(f, fd) then Outcome(ToInt(FdFile(f, fd).size), []) else FAIL
  }

  ghost function Moved(f: Flat, fd: int, offset: nat): Flat
    requires FlatFdOpen(f, fd)
  {
    f.(fds := f.fds[fd := Some(f.fds[fd].value.(offset := offset % 0x1_0000))])
  }

  ghost predicate FlatLseek(f: Flat, fd: int, offset: nat, f': Flat, r: Outcome)
    requires FlatOk(f)
  {
    if !FlatFdOpen(f, fd) || offset > FdFile(f, fd).size then f' == f && r == FAIL
    else f' == Moved(f, fd, offset) && r == Outcome(0, [])
  }

  ghost predicate FlatWrite(f: Flat, fd: int, buf: Option<seq<byte>>, count: nat, f': Flat, r: Outcome)
    requires FlatOk(f) && (buf.Some? ==> count <= |buf.value|)
  {
    if !FlatFdOpen(f, fd) || buf.None? then f' == f && r == FAIL
    else if count == 0 then f' == f && r == Outcome(0, [])
    else
      var d := f.fds[fd].value;
      var file := FdFile(f, fd);
      var grown := Growth(f, |file.bytes|, d.offset, count);
      var cap := |file.bytes| + grown * f.B;
      var n := Min(count, Max(0, cap - d.offset));
      var size := if n == count then (file.size + n) % 0x1_0000_0000 else file.size;
      && r == Outcome(n, [])
      && d.name in f'.files
      && Overwritten(file.bytes, f'.files[d.name].bytes, cap, d.offset, buf.value[..n])
      && f' == (if n == count then Moved(f, fd, d.offset + n) else f).(
           files := f.files[d.name := FlatFile(f'.files[d.name].bytes, size)],
           free := f.free - grown)
  }

  /** A read of 0 bytes inside a block that is not the last. */
  ghost predicate FlatOverrun(B: nat, off: nat, len: nat, count: nat)
    requires B > 0
  {
    count == 0 && off % B != 0 && (off / B + 2) * B <= len
  }

  /** What a read of [off, off + count) yields. */
  ghost function Slice(bytes: seq<byte>, off: nat, count: nat): (r: seq<byte>)
    ensures |r| == Min(count, Max(0, |bytes| - off))
  {
    if off <= |bytes| then bytes[off..Min(off + count, |bytes|)] else []
  }

  ghost predicate FlatRead(f: Flat, fd: int, isNull: bool, count: nat, f': Flat, r: Outcome)
    requires FlatOk(f)
  {
    if !FlatFdOpen(f, fd) || isNull then f' == f && r == FAIL
    else
      var off := f.fds[fd].value.offset;
      var bytes := FdFile(f, fd).bytes;
      if FlatOverrun(f.B, off, |bytes|, count) then
        f' == f && r == Outcome(-1, Slice(bytes, (off / f.B + 1) * f.B, f.B))
      else
        var data := Slice(bytes, off, count);
        r == Outcome(|data|, data) && f' == if |data| == count then Moved(f, fd, off + count) else f
  }

  ghost predicate FlatNext(f: Flat, op: Op, f': Flat, r: Outcome)
    requires FlatOk(f) && Admissible(op)
  {
    match op
    case Create(filename) => FlatCreate(f, filename, f', r)
    case Delete(filename) => FlatDelete(f, filename, f', r)
    case Open(filename) => FlatOpen(f, filename, f', r)
    case Close(fd) => FlatClose(f, fd, f', r)
    case Stat(fd) => FlatStat(f, fd, f', r)
    case Lseek(fd, offset) => FlatLseek(f, fd, offset, f', r)
    case Write(fd, buf, count) => FlatWrite(f, fd, buf, count, f', r)
    case Read(fd, isNull, count) => FlatRead(f, fd, isNull, count, f', r)
  }

  // ----- abstraction -----

  ghost function FlatFileOf(v: Volume, i: int): FlatFile
    requires WellFormed(v) && 0 <= i < |v.root|
  {
    FlatFile(FileBytes(v, i), v.root[i].size)
  }

  /** One root slot as the flat model sees it. */
  datatype Row = Row(name: seq<byte>, file: FlatFile)

  ghost function Rows(v: Volume): (r: seq<Option<Row>>)
    requires WellFormed(v)
    ensures |r| == |v.root|
  {
    seq(|v.root|, i requires 0 <= i < |v.root| =>
      if Used(v.root[i]) then Some(Row(CName(v.root[i].name), FlatFileOf(v, i))) else None)
  }

  ghost function Table(rows: seq<Option<Row>>): map<seq<byte>, FlatFile> {
    if rows == [] then map[]
    else
      var n := |rows| - 1;
      if rows[n].Some? then Table(rows[..n])[rows[n].value.name := rows[n].value.file] else Table(rows[..n])
  }

  ghost predicate RowsUnique(rows: seq<Option<Row>>) {
    forall i, j :: 0 <= i < j < |rows| && rows[i].Some? && rows[j].Some? ==> rows[i].value.name != rows[j].value.name
  }

  ghost predicate Holds(rows: seq<Option<Row>>, i: int, name: seq<byte>) {
    0 <= i < |rows| && rows[i].Some? && rows[i].value.name == name
  }

  /** The table maps a name to the one row that holds it. */
  lemma {:induction false} TableAt(rows: seq<Option<Row>>, name: seq<byte>)
    requires RowsUnique(rows)
    ensures name in Table(rows) <==> exists i :: Holds(rows, i, name)
    ensures forall i :: Holds(rows, i, name) ==> name in Table(rows) && Table(rows)[name] == rows[i].value.file
  {
    if rows != [] {
      var n := |rows| - 1;
      TableAt(rows[..n], name);
      forall i | Holds(rows, i, name) && i < n ensures Holds(rows[..n], i, name) {
      }
      forall i | Holds(rows[..n], i, name) ensures Holds(rows, i, name) {
      }
      assert rows[n].Some? && rows[n].value.name == name ==> Holds(rows, n, name);
    }
  }

  /** The number of names is the number of rows in use. */
  lemma {:induction false} TableSize(rows: seq<Option<Row>>)
    requires RowsUnique(rows)
    ensures |Table(rows)| <= |rows|
    ensures |Table(rows)| == |rows| <==> forall i :: 0 <= i < |rows| ==> rows[i].Some?
  {
    if rows != [] {
      var n := |rows| - 1;
      TableSize(rows[..n]);
      assert forall i :: 0 <= i < n ==> rows[..n][i] == rows[i];
      if rows[n].Some? {
        TableAt(rows[..n], rows[n].value.name);
        assert rows[n].value.name !in Table(rows[..n]);
      }
      assert (forall i :: 0 <= i < |rows| ==> rows[i].Some?)
         <==> rows[n].Some? && forall i :: 0 <= i < n ==> rows[..n][i].Some?;
    }
  }

  /** Filling or renewing row f updates the table at one name. */
  lemma TableReplaced(rows: seq<Option<Row>>, f: nat, row: Row)
    requires f < |rows| && RowsUnique(rows) && RowsUnique(rows[f := Some(row)])
    requires rows[f].Some? ==> rows[f].value.name == row.name
    ensures Table(rows[f := Some(row)]) == Table(rows)[row.name := row.file]
  {
    var rows' := rows[f := Some(row)];
    var m, m' := Table(rows), Table(rows');
    forall t ensures t in m' <==> t == row.name || t in m
             ensures t in m' ==> m'[t] == if t == row.name then row.file else m[t] {
      TableAt(rows, t);
      TableAt(rows', t);
      assert Holds(rows', f, row.name);
      forall i ensures i != f ==> (Holds(rows', i, t) <==> Holds(rows, i, t)) {
      }
      assert Holds(rows, f, t) ==> t == row.name;
    }
  }

  /** Clearing row f removes its name from the table. */
  lemma TableRemoved(rows: seq<Option<Row>>, f: nat)
    requires f < |rows| && RowsUnique(rows) && rows[f].Some?
    ensures Table(rows[f := None]) == Table(rows) - {rows[f].value.name}
  {
    var rows' := rows[f := None];
    var m, m' := Table(rows), Table(rows');
    forall t ensures t in m' <==> t in m && t != rows[f].value.name
             ensures t in m' ==> m'[t] == m[t] {
      TableAt(rows, t);
      TableAt(rows', t);
      assert Holds(rows, f, rows[f].value.name);
      forall i ensures Holds(rows', i, t) <==> i != f && Holds(rows, i, t) {
      }
    }
  }

  ghost function AbsFiles(v: Volume): map<seq<byte>, FlatFile>
    requires WellFormed(v)
  {
    Table(Rows(v))
  }

  lemma RowsAreUnique(v: Volume)
    requires WellFormed(v)
    ensures RowsUnique(Rows(v))
  {
  }

  ghost function AbsFds(v: Volume): (r: seq<Option<FlatFd>>)
    requires WellFormed(v)
    ensures |r| == |v.fds|
  {
    seq(|v.fds|, i requires 0 <= i < |v.fds| =>
      if v.fds[i].None? then None
      else Some(FlatFd(CName(v.root[v.fds[i].value.file].name), v.fds[i].value.offset)))
  }

  ghost function Abs(v: Volume): Flat
    requires WellFormed(v)
  {
    Flat(v.B, AbsFiles(v), AbsFds(v), |Free(v.fat)|, v.fat[0] == FAT_EOC)
  }

  lemma AbsFile(v: Volume, i: int)
    requires WellFormed(v) && 0 <= i < |v.root| && Used(v.root[i])
    ensures CName(v.root[i].name) in AbsFiles(v) && AbsFiles(v)[CName(v.root[i].name)] == FlatFileOf(v, i)
  {
    RowsAreUnique(v);
    TableAt(Rows(v), CName(v.root[i].name));
    assert Holds(Rows(v), i, CName(v.root[i].name));
  }

  lemma AbsOk(v: Volume)
    requires WellFormed(v)
    ensures FlatOk(Abs(v))
  {
    forall i | 0 <= i < |v.fds| && v.fds[i].Some? ensures Abs(v).fds[i].value.name in Abs(v).files {
      AbsFile(v, v.fds[i].value.file);
    }
  }
}
