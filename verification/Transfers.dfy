/** What single reads and writes promise, and where they fall short of the documented interface. */
module Transfers {
  import opened Types
  import opened Blocks
  import opened Chains
  import opened Names
  import opened Volumes
  import opened Invariant
  import opened FlatModel
  import opened Refinement
  import opened Descriptors

  // ----- writes -----

  /** A write stores the longest prefix the disk has room for: with L blocks in the file and F free,
      min(count, max(0, (L + F)*B - offset)) bytes. */
  lemma WriteIsMaximal(v: Volume, fd: int, buf: seq<byte>, count: nat, v': Volume, r: Outcome)
    requires WellFormed(v) && FdOpen(v, fd) && 0 < count <= |buf| && Written(v, fd, buf, count, v', r)
    ensures var d := v.fds[fd].value;
            r.ret == Min(count, Max(0, (|v.chains[d.file]| + |Free(v.fat)|) * v.B - d.offset))
  {
    hide Blocks.DiskWritten, Chains.Extended, Blocks.NumTarget;
    var d := v.fds[fd].value;
    var target := NumTarget(d.offset, count, v.B);
    var n := |v.chains[d.file]| + |Added(v, d.file, d.offset, count)|;
    ReachFromAdded(d.offset, count, |v.chains[d.file]|, |Free(v.fat)|, n, v.B);
  }

  lemma ReachFromAdded(off: nat, count: nat, len: nat, free: nat, n: nat, B: nat)
    requires B > 0 && n == len + Min(Max(0, NumTarget(off, count, B) - len), free)
    ensures Reach(off, count, n, B) == Reach(off, count, len + free, B)
  {
    var target := NumTarget(off, count, B);
    if n != len + free {
      NumTargetBounds(off, count, B);
      MulMono(target, n, B);
      MulMono(n, len + free, B);
    }
  }

  /** A write puts the buffer at the offset and changes no other byte: not of this file as it was, not of
      any other file, and not of the blocks before the data region (superblock, table and root). */
  lemma WriteCorrect(v: Volume, fd: int, buf: seq<byte>, count: nat, v': Volume, r: Outcome)
    requires WellFormed(v) && FdOpen(v, fd) && 0 < count <= |buf| && Written(v, fd, buf, count, v', r)
    ensures WellFormed(v')
    ensures var d := v.fds[fd].value;
            var n, bytes, bytes' := r.ret, FileBytes(v, d.file), FileBytes(v', d.file);
            && 0 <= n <= count && |bytes| <= |bytes'|
            && (n > 0 ==> d.offset + n <= |bytes'| && bytes'[d.offset..d.offset + n] == buf[..n])
            && (forall j :: 0 <= j < |bytes| && !(d.offset <= j < d.offset + n) ==> bytes'[j] == bytes[j])
            && (forall i :: 0 <= i < |v.root| && i != d.file ==> v'.root[i] == v.root[i] && v'.chains[i] == v.chains[i])
            && (forall i :: 0 <= i < |v.root| && i != d.file && Used(v.root[i]) ==> FileBytes(v', i) == FileBytes(v, i))
            && |v'.disk| == |v.disk| && forall i :: 0 <= i < v.sb.dataStart ==> v'.disk[i] == v.disk[i]
  {
    WrittenKeeps(v, fd, buf, count, v', r);
    WrittenBytes(v, fd, buf, count, v', r);
    WrittenElsewhere(v, fd, buf, count, v', r);
  }

  /** The disk after a write is determined by the disk before it. */
  lemma DiskDetermined(disk: seq<Block>, d1: seq<Block>, d2: seq<Block>, ds: nat, c: seq<nat>, off: nat, data: seq<byte>,
                       B: nat)
    requires DiskWritten(disk, d1, ds, c, off, data, B) && DiskWritten(disk, d2, ds, c, off, data, B)
    ensures d1 == d2
  {
    if data != [] {
      forall i | 0 <= i < |disk| ensures d1[i] == d2[i] {
        if i >= ds && i - ds in c {
          var k :| 0 <= k < |c| && c[k] == i - ds;
          ContentsBlock(d1, ds, c, k, B);
          ContentsBlock(d2, ds, c, k, B);
        }
      }
    }
  }

  lemma FatDetermined(fat: seq<u16>, f1: seq<u16>, f2: seq<u16>, g1: u16, g2: u16, c: seq<nat>, added: seq<nat>)
    requires Extended(fat, f1, g1, c, added) && Extended(fat, f2, g2, c, added)
    ensures f1 == f2 && g1 == g2
  {
    var d := c + added;
    forall j | 0 <= j < |fat| ensures f1[j] == f2[j] {
      if j in d {
        var k :| 0 <= k < |d| && d[k] == j;
        assert f1[d[k]] == Link(d, k) && f2[d[k]] == Link(d, k);
      }
    }
  }

  /** The specification of write leaves no freedom: two results of the same call are the same. */
  lemma WriteIsDetermined(v: Volume, fd: int, buf: seq<byte>, count: nat, v1: Volume, r1: Outcome, v2: Volume, r2: Outcome)
    requires WellFormed(v) && FdOpen(v, fd) && 0 < count <= |buf|
    requires Written(v, fd, buf, count, v1, r1) && Written(v, fd, buf, count, v2, r2)
    ensures v1 == v2 && r1 == r2
  {
    var d := v.fds[fd].value;
    var added := Added(v, d.file, d.offset, count);
    FatDetermined(v.fat, v1.fat, v2.fat, v1.root[d.file].first, v2.root[d.file].first, v.chains[d.file], added);
    DiskDetermined(v.disk, v1.disk, v2.disk, v.sb.dataStart, v.chains[d.file] + added, d.offset, buf[..r1.ret], v.B);
  }

  /** The bytes a file could hold if it were given all the free blocks. */
  ghost function Room(v: Volume, fd: int): nat
    requires WellFormed(v) && FdOpen(v, fd)
  {
    (|v.chains[v.fds[fd].value.file]| + |Free(v.fat)|) * v.B
  }

  /** The recorded size after a write is the documented one, grown just enough to cover the bytes stored,
      exactly when a write that fits appends without leaving 32 bits, and one that does not fit stores
      nothing, or nothing past the size. */
  lemma WriteSizeIff(v: Volume, fd: int, buf: seq<byte>, count: nat, v': Volume, r: Outcome)
    requires WellFormed(v) && FdOpen(v, fd) && 0 < count <= |buf| && Written(v, fd, buf, count, v', r)
    requires count <= INT_MAX
    ensures var d := v.fds[fd].value;
            var size, room := v.root[d.file].size, Room(v, fd);
            v'.root[d.file].size == (if r.ret == 0 then size else Max(size, d.offset + r.ret))
            <==> if d.offset + count <= room then d.offset == size && size + count < 0x1_0000_0000
                 else room <= Max(d.offset, size)
  {
    hide Blocks.DiskWritten, Chains.Extended, Blocks.NumTarget;
    WriteIsMaximal(v, fd, buf, count, v', r);
  }

  /** The offset after a write has advanced by the number of bytes stored exactly when nothing could be
      stored, or all of it could and the new offset fits 16 bits. */
  lemma WriteOffsetIff(v: Volume, fd: int, buf: seq<byte>, count: nat, v': Volume, r: Outcome)
    requires WellFormed(v) && FdOpen(v, fd) && 0 < count <= |buf| && Written(v, fd, buf, count, v', r)
    ensures FdOpen(v', fd)
    ensures var d, room := v.fds[fd].value, Room(v, fd);
            v'.fds[fd].value.offset == d.offset + r.ret
            <==> room <= d.offset || (d.offset + count <= room && d.offset + count < 0x1_0000)
  {
    hide Blocks.DiskWritten, Chains.Extended, Blocks.NumTarget;
    WriteIsMaximal(v, fd, buf, count, v', r);
  }

  // ----- reads -----

  /** A read changes nothing but its descriptor's offset, and yields the part of the file's bytes the
      request covers, unless it is the overrun of an empty request. */
  lemma ReadCorrect(v: Volume, fd: int, isNull: bool, count: nat, v': Volume, r: Outcome)
    requires WellFormed(v) && ReadNext(v, fd, isNull, count, v', r)
    ensures v' == v.(fds := v'.fds) && forall i :: 0 <= i < |v.fds| && i != fd ==> v'.fds[i] == v.fds[i]
    ensures FdOpen(v, fd) && !isNull && !Overrun(v, fd, count) ==>
      var d := v.fds[fd].value;
      && r.ret == Reach(d.offset, count, |v.chains[d.file]|, v.B)
      && r.data == Slice(FileBytes(v, d.file), d.offset, count)
      && v'.fds[fd] == Some(d.(offset := if d.offset + count <= |v.chains[d.file]| * v.B
                                         then (d.offset + count) % 0x1_0000 else d.offset))
  {
    if FdOpen(v, fd) && !isNull && !Overrun(v, fd, count) {
      var d := v.fds[fd].value;
      FileLength(v, d.file);
      ReadSlice(v, fd, count, v', r);
    }
  }

  /** The offset after a read of count > 0 bytes has advanced by the number of bytes read, as documented,
      exactly when there was nothing to read, or all of the request and the new offset fits 16 bits. */
  lemma ReadOffsetIff(v: Volume, fd: int, count: nat, v': Volume, r: Outcome)
    requires WellFormed(v) && FdOpen(v, fd) && count > 0 && ReadNext(v, fd, false, count, v', r)
    ensures FdOpen(v', fd)
    ensures var d := v.fds[fd].value;
            var capacity := |v.chains[d.file]| * v.B;
            v'.fds[fd].value.offset == d.offset + r.ret
            <==> capacity <= d.offset || (d.offset + count <= capacity && d.offset + count < 0x1_0000)
  {
    ReadCorrect(v, fd, false, count, v', r);
  }

  /** A read of an open file into a buffer fails exactly for an empty request in the middle of a block
      that is not the file's last; for count > 0 it never does. */
  lemma ReadFailsIff(v: Volume, fd: int, count: nat, v': Volume, r: Outcome)
    requires WellFormed(v) && FdOpen(v, fd) && ReadNext(v, fd, false, count, v', r)
    ensures var d := v.fds[fd].value;
            r.ret == -1 <==> count == 0 && d.offset % v.B != 0 && d.offset / v.B + 1 < |v.chains[d.file]|
  {
    ReadCorrect(v, fd, false, count, v', r);
  }

  /** The documented result, which stops at the recorded file size. */
  ghost function DocumentedRead(size: nat, off: nat, count: nat): nat {
    Min(count, Max(0, size - off))
  }

  /** A read returns the documented number of bytes exactly when the recorded size and the blocks of the
      file agree on the request: both reach its end, neither reaches its start, or they are equal. */
  lemma ReadStopsAtSizeIff(v: Volume, fd: int, count: nat, v': Volume, r: Outcome)
    requires WellFormed(v) && FdOpen(v, fd) && count > 0 && ReadNext(v, fd, false, count, v', r)
    ensures var d := v.fds[fd].value;
            var size, capacity := v.root[d.file].size, |v.chains[d.file]| * v.B;
            r.ret == DocumentedRead(size, d.offset, count)
            <==> size == capacity || d.offset + count <= Min(size, capacity) || Max(size, capacity) <= d.offset
  {
    ReadCorrect(v, fd, false, count, v', r);
  }

  /** Appending the documented way: stat, seek to the returned size, write. The write starts at the recorded
      end of the file exactly for sizes below 65536; up to INT_MAX it otherwise lands on the bytes from
      size modulo 65536 on. */
  lemma StatSeekWrite(v: Volume, fd: int, s: Outcome, v1: Volume, r: Outcome, buf: seq<byte>, count: nat, v2: Volume, q: Outcome)
    requires WellFormed(v) && FdOpen(v, fd) && StatNext(v, fd, v, s)
    requires s.ret >= -0x8000_0000 && LseekNext(v, fd, ToSize(s.ret), v1, r)
    requires WellFormed(v1) && FdOpen(v1, fd) && 0 < count <= |buf| && Written(v1, fd, buf, count, v2, q)
    ensures WellFormed(v2)
    ensures var f := v.fds[fd].value.file;
            var size := v.root[f].size;
            && (r.ret == 0 && v1.fds[fd].value.offset == size <==> size < 0x1_0000)
            && (size <= INT_MAX && q.ret > 0 ==>
                  var at := size % 0x1_0000;
                  at + q.ret <= |FileBytes(v2, f)| && q.ret <= count
                  && FileBytes(v2, f)[at..at + q.ret] == buf[..q.ret])
  {
    StatSeekIff(v, fd, v, s, v1, r);
    WriteCorrect(v1, fd, buf, count, v2, q);
  }

  // ----- descriptors on one file -----

  /** The descriptor g sees the file as the write through fd left it, and has not moved. */
  lemma WrittenThroughOther(f: Flat, fd: int, buf: seq<byte>, count: nat, f': Flat, r: Outcome, g: int)
    requires FlatOk(f) && FlatOk(f') && FlatFdOpen(f, fd) && FlatFdOpen(f, g) && g != fd
    requires f.fds[g].value.name == f.fds[fd].value.name
    requires 0 < count <= |buf| && FlatWrite(f, fd, Some(buf), count, f', r) && r.ret > 0
    ensures f'.fds[g] == f.fds[g] && r.ret <= count
    ensures var off, bytes' := f.fds[fd].value.offset, FdFile(f', g).bytes;
            off + r.ret <= |bytes'| && bytes'[off..off + r.ret] == buf[..r.ret]
  {
    hide Blocks.NumTarget;
  }

  lemma SliceOfSlice(s: seq<byte>, off: nat, n: nat, t: seq<byte>, at: nat, m: nat)
    requires off + n <= |s| && s[off..off + n] == t && at + m <= n
    ensures Slice(s, off + at, m) == t[at..at + m]
  {
    var u := Slice(s, off + at, m);
    forall i | 0 <= i < m ensures u[i] == t[at..at + m][i] {
      assert u[i] == s[off + at + i];
      assert s[off..off + n][at + i] == s[off + (at + i)];
    }
    assert u == t[at..at + m];
  }

  /** What one descriptor writes, another descriptor on the same file reads, at its own, unmoved offset. */
  lemma WritesAreShared(f: Flat, fd: int, buf: seq<byte>, count: nat, f': Flat, r: Outcome,
                        g: int, f'': Flat, q: Outcome, n: nat)
    requires FlatOk(f) && FlatOk(f') && FlatFdOpen(f, fd) && FlatFdOpen(f, g) && g != fd
    requires f.fds[g].value.name == f.fds[fd].value.name
    requires 0 < count <= |buf| && FlatWrite(f, fd, Some(buf), count, f', r)
    requires 0 < n && f.fds[fd].value.offset <= f.fds[g].value.offset
    requires f.fds[g].value.offset + n <= f.fds[fd].value.offset + r.ret
    requires FlatRead(f', g, false, n, f'', q)
    ensures f'.fds[g] == f.fds[g]
    ensures var at := f.fds[g].value.offset - f.fds[fd].value.offset;
            at + n <= |buf| && q == Outcome(n, buf[at..at + n])
  {
    hide FlatModel.FlatWrite;
    WrittenThroughOther(f, fd, buf, count, f', r, g);
    var off := f.fds[fd].value.offset;
    var at := f.fds[g].value.offset - off;
    SliceOfSlice(FdFile(f', g).bytes, off, r.ret, buf[..r.ret], at, n);
    assert buf[..r.ret][at..at + n] == buf[at..at + n];
    assert q.data == Slice(FdFile(f', g).bytes, off + at, n);
  }
}
