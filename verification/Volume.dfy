/** A mounted volume as a value, its invariant, and what one call of each file system operation
    does to it. */
module Volumes {
  import opened Types
  import opened Blocks
  import opened Chains
  import opened Names

  /** The globals of a mounted file system. chains lists the data blocks of every root slot; the
      table determines it (Chains.ChainUnique). */
  datatype Volume = Volume(
    B: nat,
    sb: SuperBlock,
    disk: seq<Block>,
    fat: seq<u16>,
    root: seq<File>,
    fds: seq<Option<Descriptor>>,
    numOpen: int,
    chains: seq<seq<nat>>)

  // ----- the invariant -----

  ghost predicate LayoutOk(v: Volume) {
    && v.B > 0
    && 1 <= v.sb.numData == |v.fat|
    && v.sb.dataStart + v.sb.numData <= v.sb.numBlocks == |v.disk|
    && v.sb.rootIndex == v.sb.numFat + 1 < v.sb.dataStart
    && BlocksOf(v.disk, v.B)
    && (v.fat[0] == FAT_EOC || v.fat[0] == 0)
  }

  function Zeros(n: nat): (z: seq<byte>)
    ensures |z| == n && forall j :: 0 <= j < n ==> z[j] == 0
  {
    seq(n, _ => 0)
  }

  ghost predicate EntriesOk(root: seq<File>) {
    && |root| == FS_FILE_MAX_COUNT
    && (forall i :: 0 <= i < |root| ==> |root[i].name| == FS_FILENAME_LEN && 0 in root[i].name)
    && (forall i :: 0 <= i < |root| ==> root[i].padding == Zeros(ROOT_PAD_LEN))
  }

  ghost predicate NamesUnique(root: seq<File>) {
    forall i, j :: 0 <= i < j < |root| && Used(root[i]) && Used(root[j]) ==>
      CName(root[i].name) != CName(root[j].name)
  }

  ghost predicate ChainsOk(fat: seq<u16>, root: seq<File>, chains: seq<seq<nat>>) {
    && |chains| == |root|
    && forall i :: 0 <= i < |root| ==>
         if Used(root[i]) then IsChain(fat, root[i].first, chains[i]) else chains[i] == []
  }

  ghost predicate Disjoint(chains: seq<seq<nat>>) {
    forall i, j, x :: 0 <= i < |chains| && 0 <= j < |chains| && i != j && x in chains[i] ==> x !in chains[j]
  }

  ghost predicate FdsOk(fds: seq<Option<Descriptor>>, root: seq<File>) {
    && |fds| == FS_OPEN_MAX_COUNT
    && forall i :: 0 <= i < |fds| && fds[i].Some? ==> fds[i].value.file < |root| && Used(root[fds[i].value.file])
  }

  /** The number of non-NULL slots among the first n descriptors. */
  ghost function OpenCount(fds: seq<Option<Descriptor>>): (n: nat)
    ensures n <= |fds|
  {
    if fds == [] then 0
    else OpenCount(fds[..|fds| - 1]) + (if fds[|fds| - 1].Some? then 1 else 0)
  }

  ghost predicate WellFormed(v: Volume) {
    && LayoutOk(v)
    && EntriesOk(v.root) && NamesUnique(v.root)
    && ChainsOk(v.fat, v.root, v.chains) && Disjoint(v.chains)
    && FdsOk(v.fds, v.root) && v.numOpen == OpenCount(v.fds)
  }

  // ----- lookups -----

  /** find_matching_filename: the slot of the entry with this name, or -1. */
  function FindName(root: seq<File>, s: CString): (r: int)
    ensures -1 <= r < |root|
    ensures r >= 0 ==> CName(root[r].name) == s && forall i :: 0 <= i < r ==> CName(root[i].name) != s
    ensures r == -1 ==> forall i :: 0 <= i < |root| ==> CName(root[i].name) != s
  {
    if root == [] then -1
    else if CName(root[0].name) == s then 0
    else
      var r := FindName(root[1..], s);
      assert forall i :: 1 <= i < |root| ==> root[i] == root[1..][i - 1];
      if r == -1 then -1 else r + 1
  }

  /** find_empty_root_entry: the first slot that is not in use, or -1. */
  function FindEmpty(root: seq<File>): (r: int)
    ensures -1 <= r < |root|
    ensures r >= 0 ==> !Used(root[r]) && forall i :: 0 <= i < r ==> Used(root[i])
    ensures r == -1 ==> forall i :: 0 <= i < |root| ==> Used(root[i])
  {
    if root == [] then -1
    else if !Used(root[0]) then 0
    else
      var r := FindEmpty(root[1..]);
      assert forall i :: 1 <= i < |root| ==> root[i] == root[1..][i - 1];
      if r == -1 then -1 else r + 1
  }

  /** The least free descriptor slot, or -1 when all are taken. */
  function FindFd(fds: seq<Option<Descriptor>>): (r: int)
    ensures -1 <= r < |fds|
    ensures r >= 0 ==> fds[r].None? && forall i :: 0 <= i < r ==> fds[i].Some?
    ensures r == -1 ==> forall i :: 0 <= i < |fds| ==> fds[i].Some?
  {
    if fds == [] then -1
    else if fds[0].None? then 0
    else
      var r := FindFd(fds[1..]);
      assert forall i :: 1 <= i < |fds| ==> fds[i] == fds[1..][i - 1];
      if r == -1 then -1 else r + 1
  }

  ghost predicate FdOpen(v: Volume, fd: int) {
    0 <= fd < |v.fds| && v.fds[fd].Some?
  }

  ghost predicate SlotOpen(v: Volume, slot: int) {
    exists i :: 0 <= i < |v.fds| && v.fds[i].Some? && v.fds[i].value.file == slot
  }

  lemma ChainOnDisk(v: Volume, i: int)
    requires WellFormed(v) && 0 <= i < |v.root|
    ensures OnDisk(v.disk, v.sb.dataStart, v.chains[i])
  {
    assert Used(v.root[i]) ==> IsChain(v.fat, v.root[i].first, v.chains[i]);
  }

  /** All bytes of the blocks linked to a root slot. */
  ghost function FileBytes(v: Volume, i: int): seq<byte>
    requires WellFormed(v) && 0 <= i < |v.root|
  {
    ChainOnDisk(v, i);
    Contents(v.disk, v.sb.dataStart, v.chains[i])
  }

  // ----- operations -----

  datatype Op =
    | Create(filename: Option<CString>)
    | Delete(filename: Option<CString>)
    | Open(filename: Option<CString>)
    | Close(fd: int)
    | Stat(fd: int)
    | Lseek(fd: int, offset: nat)
    | Write(fd: int, buf: Option<seq<byte>>, count: nat)
    | Read(fd: int, isNull: bool, count: nat)

  /** The return value of a call and the bytes it stored in the caller's buffer. */
  datatype Outcome = Outcome(ret: int, data: seq<byte>)

  const FAIL := Outcome(-1, [])

  /** What the source assumes of a call: descriptors that its loose bound check lets through lie in
      the table, a write buffer holds count bytes, and count fits a C int. */
  ghost predicate Admissible(op: Op) {
    match op
    case Close(fd) => fd < FS_OPEN_MAX_COUNT || fd >= FS_FILE_MAX_COUNT
    case Stat(fd) => fd < FS_OPEN_MAX_COUNT || fd >= FS_FILE_MAX_COUNT
    case Lseek(fd, offset) => fd < FS_OPEN_MAX_COUNT || fd >= FS_FILE_MAX_COUNT
    case Write(fd, buf, count) =>
      (fd < FS_OPEN_MAX_COUNT || fd >= FS_FILE_MAX_COUNT) && count <= INT_MAX && (buf.Some? ==> count <= |buf.value|)
    case Read(fd, isNull, count) =>
      (fd < FS_OPEN_MAX_COUNT || fd >= FS_FILE_MAX_COUNT) && count <= INT_MAX
    case _ => true
  }

  /** The name array after writing s and its terminator over the previous occupant's bytes. */
  function StoredName(before: seq<byte>, s: CString): seq<byte>
    requires |s| < |before|
  {
    s + [0] + before[|s| + 1..]
  }

  ghost predicate CreateNext(v: Volume, filename: Option<CString>, v': Volume, r: Outcome)
    requires WellFormed(v)
  {
    if Invalid(filename) || FindName(v.root, filename.value) != -1 || FindEmpty(v.root) == -1 then
      v' == v && r == FAIL
    else
      var slot := FindEmpty(v.root);
      var e := v.root[slot].(name := StoredName(v.root[slot].name, filename.value), size := 0, first := FAT_EOC);
      v' == v.(root := v.root[slot := e]) && r == Outcome(0, [])
  }

  /** The table after fs_delete, for a file with chain c, as the source frees it: every entry is
      zeroed before it is followed. */
  ghost function DeletedFat(fat: seq<u16>, c: seq<nat>): seq<u16>
    requires |fat| >= 1 && forall k :: 0 <= k < |c| ==> c[k] < |fat|
  {
    if c == [] then fat else if |c| == 1 then fat[c[0] := 0] else fat[c[0] := 0][0 := 0]
  }

  /** fs_delete accepts the name: the file exists and no descriptor refers to it. */
  ghost predicate Deletable(v: Volume, filename: Option<CString>)
  {
    !Invalid(filename) && FindName(v.root, filename.value) != -1 && !SlotOpen(v, FindName(v.root, filename.value))
  }

  /** The freeing loop of fs_delete comes to an end. */
  ghost predicate FreeingEnds(v: Volume, slot: int)
    requires WellFormed(v) && 0 <= slot < |v.root|
  {
    |v.chains[slot]| <= 1 || v.fat[0] == FAT_EOC
  }

  ghost predicate DeleteNext(v: Volume, filename: Option<CString>, v': Volume, r: Outcome)
    requires WellFormed(v)
  {
    if !Deletable(v, filename) then
      v' == v && r == FAIL
    else
      var slot := FindName(v.root, filename.value);
      ChainOnDisk(v, slot);
      var e := v.root[slot].(name := v.root[slot].name[0 := 0], size := 0, first := FAT_EOC);
      && FreeingEnds(v, slot)
      && SlotInFat(v, slot)
      && v' == v.(fat := DeletedFat(v.fat, v.chains[slot]), root := v.root[slot := e], chains := v.chains[slot := []])
      && r == Outcome(0, [])
  }

  ghost predicate SlotInFat(v: Volume, slot: int)
    requires 0 <= slot < |v.chains|
  {
    forall k :: 0 <= k < |v.chains[slot]| ==> v.chains[slot][k] < |v.fat|
  }

  ghost predicate OpenNext(v: Volume, filename: Option<CString>, v': Volume, r: Outcome)
    requires WellFormed(v)
  {
    if Invalid(filename) || FindName(v.root, filename.value) == -1 || FindFd(v.fds) == -1 then
      v' == v && r == FAIL
    else
      var fd := FindFd(v.fds);
      && v' == v.(fds := v.fds[fd := Some(Descriptor(FindName(v.root, filename.value), 0))], numOpen := v.numOpen + 1)
      && r == Outcome(fd, [])
  }

  ghost predicate CloseNext(v: Volume, fd: int, v': Volume, r: Outcome)
    requires WellFormed(v)
  {
    if !FdOpen(v, fd) then
      v' == v && r == FAIL
    else
      v' == v.(fds := v.fds[fd := None], numOpen := v.numOpen - 1) && r == Outcome(0, [])
  }

  /** Conversion of a 32-bit size to the C int that fs_stat returns. */
  function ToInt(x: u32): int {
    if x <= INT_MAX then x else x - 0x1_0000_0000
  }

  ghost predicate StatNext(v: Volume, fd: int, v': Volume, r: Outcome)
    requires WellFormed(v)
  {
    v' == v && r == if FdOpen(v, fd) then Outcome(ToInt(v.root[v.fds[fd].value.file].size), []) else FAIL
  }

  ghost predicate LseekNext(v: Volume, fd: int, offset: nat, v': Volume, r: Outcome)
    requires WellFormed(v)
  {
    if !FdOpen(v, fd) || offset > v.root[v.fds[fd].value.file].size then
      v' == v && r == FAIL
    else
      && v' == v.(fds := v.fds[fd := Some(v.fds[fd].value.(offset := offset % 0x1_0000))])
      && r == Outcome(0, [])
  }

  /** The blocks fs_write appends to the chain of slot f. */
  ghost function Added(v: Volume, f: nat, off: nat, count: nat): seq<nat>
    requires WellFormed(v) && f < |v.root|
  {
    Fresh(v.fat, |v.chains[f]|, NumTarget(off, count, v.B))
  }

  /** The state after a write that stored n bytes, from its table, its disk and the file's first block. */
  ghost function AfterWrite(v: Volume, fd: int, count: nat, fat': seq<u16>, first': u16, disk': seq<Block>, n: nat): Volume
    requires WellFormed(v) && FdOpen(v, fd)
  {
    var d := v.fds[fd].value;
    var f := d.file;
    var size := if n == count then (v.root[f].size + n) % 0x1_0000_0000 else v.root[f].size;
    var offset := if n == count then (d.offset + n) % 0x1_0000 else d.offset;
    v.(fat := fat',
       disk := disk',
       root := v.root[f := v.root[f].(first := first', size := size)],
       fds := v.fds[fd := Some(d.(offset := offset))],
       chains := v.chains[f := v.chains[f] + Added(v, f, d.offset, count)])
  }

  /** A write of count > 0 bytes through an open descriptor. */
  ghost predicate Written(v: Volume, fd: int, buf: seq<byte>, count: nat, v': Volume, r: Outcome)
    requires WellFormed(v) && FdOpen(v, fd) && 0 < count <= |buf|
  {
    var d := v.fds[fd].value;
    var f := d.file;
    var added := Added(v, f, d.offset, count);
    var c := v.chains[f] + added;
    var n := Reach(d.offset, count, |c|, v.B);
    && r == Outcome(n, [])
    && |v'.root| == |v.root|
    && Extended(v.fat, v'.fat, v'.root[f].first, v.chains[f], added)
    && DiskWritten(v.disk, v'.disk, v.sb.dataStart, c, d.offset, buf[..n], v.B)
    && v' == AfterWrite(v, fd, count, v'.fat, v'.root[f].first, v'.disk, n)
  }

  ghost predicate WriteNext(v: Volume, fd: int, buf: Option<seq<byte>>, count: nat, v': Volume, r: Outcome)
    requires WellFormed(v) && (buf.Some? ==> count <= |buf.value|)
  {
    if !FdOpen(v, fd) || buf.None? then v' == v && r == FAIL
    else if count == 0 then v' == v && r == Outcome(0, [])
    else Written(v, fd, buf.value, count, v', r)
  }

  /** A read of 0 bytes in the middle of a block, with another block behind it: the source takes one
      whole block too many. */
  ghost predicate Overrun(v: Volume, fd: int, count: nat)
    requires WellFormed(v) && FdOpen(v, fd)
  {
    var d := v.fds[fd].value;
    count == 0 && d.offset % v.B != 0 && d.offset / v.B + 1 < |v.chains[d.file]|
  }

  ghost predicate ReadNext(v: Volume, fd: int, isNull: bool, count: nat, v': Volume, r: Outcome)
    requires WellFormed(v)
  {
    if !FdOpen(v, fd) || isNull then v' == v && r == FAIL
    else
      var d := v.fds[fd].value;
      var bytes := FileBytes(v, d.file);
      if Overrun(v, fd, count) then
        var p := (d.offset / v.B + 1) * v.B;
        v' == v && r.ret == -1 && p + v.B <= |bytes| && r.data == bytes[p..p + v.B]
      else
        var n := Reach(d.offset, count, |v.chains[d.file]|, v.B);
        && (n == 0 || d.offset + n <= |bytes|)
        && r == Outcome(n, if n == 0 then [] else bytes[d.offset..d.offset + n])
        && v' == if n == count then v.(fds := v.fds[fd := Some(d.(offset := (d.offset + n) % 0x1_0000))]) else v
  }

  /** One call: op takes v to v' and yields r. A delete whose freeing loop never ends has no successor. */
  ghost predicate Next(v: Volume, op: Op, v': Volume, r: Outcome)
    requires WellFormed(v) && Admissible(op)
  {
    match op
    case Create(filename) => CreateNext(v, filename, v', r)
    case Delete(filename) => DeleteNext(v, filename, v', r)
    case Open(filename) => OpenNext(v, filename, v', r)
    case Close(fd) => CloseNext(v, fd, v', r)
    case Stat(fd) => StatNext(v, fd, v', r)
    case Lseek(fd, offset) => LseekNext(v, fd, offset, v', r)
    case Write(fd, buf, count) => WriteNext(v, fd, buf, count, v', r)
    case Read(fd, isNull, count) => ReadNext(v, fd, isNull, count, v', r)
  }
}
