/** Every operation keeps the volume invariant: linked lists in bounds, acyclic, terminated and
    pairwise disjoint, unique names, live descriptors, an exact open counter. */
module Invariant {
  import opened Types
  import opened Blocks
  import opened Chains
  import opened Names
  import opened Volumes

  lemma {:induction false} OpenCountUpdate(fds: seq<Option<Descriptor>>, i: nat, x: Option<Descriptor>)
    requires i < |fds|
    ensures OpenCount(fds[i := x])
         == OpenCount(fds) - (if fds[i].Some? then 1 else 0) + (if x.Some? then 1 else 0)
  {
    var n := |fds| - 1;
    var fds' := fds[i := x];
    if i == n {
      assert fds'[..n] == fds[..n];
    } else {
      assert fds'[..n] == fds[..n][i := x];
      OpenCountUpdate(fds[..n], i, x);
    }
  }

  lemma CreateKeeps(v: Volume, filename: Option<CString>, v': Volume, r: Outcome)
    requires WellFormed(v) && CreateNext(v, filename, v', r)
    ensures WellFormed(v')
  {
    if v' != v {
      var s := filename.value;
      var slot := FindEmpty(v.root);
      var stored := v'.root[slot].name;
      NoNul(s);
      CNamePrefix(stored, s);
      assert stored[|s|] == 0;
      forall i | 0 <= i < |v'.root| && i != slot ensures v'.root[i] == v.root[i] {
      }
    }
  }

  lemma DeletedFatFrame(fat: seq<u16>, c: seq<nat>, first: u16, d: seq<nat>)
    requires |fat| >= 1 && (forall k :: 0 <= k < |c| ==> c[k] < |fat|)
    requires IsChain(fat, first, d) && forall x :: x in c ==> x !in d
    ensures IsChain(DeletedFat(fat, c), first, d)
  {
    var fat' := DeletedFat(fat, c);
    forall j | 0 <= j < |fat| && j in d ensures fat'[j] == fat[j] {
      ChainNotFree(fat, first, d, j);
      if c != [] {
        assert c[0] in c;
      }
    }
    ChainFrame(fat, fat', first, d);
  }

  lemma DeleteKeeps(v: Volume, filename: Option<CString>, v': Volume, r: Outcome)
    requires WellFormed(v) && DeleteNext(v, filename, v', r)
    ensures WellFormed(v')
  {
    if Deletable(v, filename) {
      var slot := FindName(v.root, filename.value);
      forall i | 0 <= i < |v.root| && i != slot && Used(v.root[i])
        ensures IsChain(v'.fat, v'.root[i].first, v'.chains[i])
      {
        DeletedFatFrame(v.fat, v.chains[slot], v.root[i].first, v.chains[i]);
      }
      assert 0 in v'.root[slot].name by {
        assert v'.root[slot].name[0] == 0;
      }
      assert !Used(v'.root[slot]);
      assert FdsOk(v'.fds, v'.root);
    }
  }

  lemma OpenKeeps(v: Volume, filename: Option<CString>, v': Volume, r: Outcome)
    requires WellFormed(v) && OpenNext(v, filename, v', r)
    ensures WellFormed(v')
  {
    if v' != v {
      var slot := FindName(v.root, filename.value);
      NoNul(filename.value);
      assert Used(v.root[slot]);
      OpenCountUpdate(v.fds, FindFd(v.fds), Some(Descriptor(slot, 0)));
    }
  }

  lemma CloseKeeps(v: Volume, fd: int, v': Volume, r: Outcome)
    requires WellFormed(v) && CloseNext(v, fd, v', r)
    ensures WellFormed(v')
  {
    if FdOpen(v, fd) {
      OpenCountUpdate(v.fds, fd, None);
    }
  }

  /** Moving the offset of an open descriptor. */
  lemma SeekKeeps(v: Volume, fd: int, offset: u16)
    requires WellFormed(v) && FdOpen(v, fd)
    ensures WellFormed(v.(fds := v.fds[fd := Some(v.fds[fd].value.(offset := offset))]))
  {
    OpenCountUpdate(v.fds, fd, Some(v.fds[fd].value.(offset := offset)));
  }

  /** Facts about the chain a write leaves behind. */
  lemma AddedFacts(v: Volume, f: nat, off: nat, count: nat)
    requires WellFormed(v) && f < |v.root|
    ensures forall x :: x in Added(v, f, off, count) ==> x in Free(v.fat)
    ensures forall i, x :: 0 <= i < |v.chains| && x in v.chains[i] ==> x !in Added(v, f, off, count)
  {
    FreeFacts(v.fat);
    forall i, x | 0 <= i < |v.chains| && x in v.chains[i] ensures x !in Added(v, f, off, count) {
      ChainNotFree(v.fat, v.root[i].first, v.chains[i], x);
    }
  }

  lemma WrittenChains(v: Volume, fd: int, buf: seq<byte>, count: nat, v': Volume, r: Outcome)
    requires WellFormed(v) && FdOpen(v, fd) && 0 < count <= |buf| && Written(v, fd, buf, count, v', r)
    ensures ChainsOk(v'.fat, v'.root, v'.chains) && Disjoint(v'.chains)
  {
    var d := v.fds[fd].value;
    var f := d.file;
    var added := Added(v, f, d.offset, count);
    AddedFacts(v, f, d.offset, count);
    forall i | 0 <= i < |v.root| && i != f && Used(v.root[i])
      ensures IsChain(v'.fat, v'.root[i].first, v'.chains[i])
    {
      ExtendFrame(v.fat, v'.fat, v'.root[f].first, v.chains[f], added, v.root[i].first, v.chains[i]);
    }
  }

  lemma WrittenKeeps(v: Volume, fd: int, buf: seq<byte>, count: nat, v': Volume, r: Outcome)
    requires WellFormed(v) && FdOpen(v, fd) && 0 < count <= |buf| && Written(v, fd, buf, count, v', r)
    ensures WellFormed(v')
  {
    WrittenChains(v, fd, buf, count, v', r);
    var d := v.fds[fd].value;
    OpenCountUpdate(v.fds, fd, v'.fds[fd]);
    assert v'.fat[0] == v.fat[0] by {
      var added := Added(v, d.file, d.offset, count);
      AddedFacts(v, d.file, d.offset, count);
      FreeFacts(v.fat);
      assert Used(v.root[d.file]);
    }
    assert LayoutOk(v');
    assert EntriesOk(v'.root) && NamesUnique(v'.root);
    assert FdsOk(v'.fds, v'.root);
  }

  /** The extended chain is a list of distinct blocks on the disk. */
  lemma ExtendedOnDisk(v: Volume, f: nat, fat': seq<u16>, first': u16, added: seq<nat>)
    requires WellFormed(v) && f < |v.root|
    requires Extended(v.fat, fat', first', v.chains[f], added)
    ensures Injective(v.chains[f] + added) && OnDisk(v.disk, v.sb.dataStart, v.chains[f] + added)
  {
    ChainInjective(fat', first', v.chains[f] + added);
  }

  /** The invariant is inductive: it holds after any call made in a state where it holds. */
  lemma NextKeepsWellFormed(v: Volume, op: Op, v': Volume, r: Outcome)
    requires WellFormed(v) && Admissible(op) && Next(v, op, v', r)
    ensures WellFormed(v')
  {
    match op
    case Create(filename) => CreateKeeps(v, filename, v', r);
    case Delete(filename) => DeleteKeeps(v, filename, v', r);
    case Open(filename) => OpenKeeps(v, filename, v', r);
    case Close(fd) => CloseKeeps(v, fd, v', r);
    case Stat(fd) =>
    case Lseek(fd, offset) =>
      if FdOpen(v, fd) {
        SeekKeeps(v, fd, offset % 0x1_0000);
      }
    case Write(fd, buf, count) =>
      if FdOpen(v, fd) && buf.Some? && count > 0 {
        WrittenKeeps(v, fd, buf.value, count, v', r);
      }
    case Read(fd, isNull, count) =>
      if FdOpen(v, fd) && v' != v {
        SeekKeeps(v, fd, v'.fds[fd].value.offset);
      }
  }
}
