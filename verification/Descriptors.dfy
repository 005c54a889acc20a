/** The descriptor table. */
module Descriptors {
  import opened Types
  import opened Names
  import opened Volumes

  lemma {:induction false} CountIsFull(fds: seq<Option<Descriptor>>)
    ensures OpenCount(fds) == |fds| <==> forall i :: 0 <= i < |fds| ==> fds[i].Some?
  {
    if fds != [] {
      var n := |fds| - 1;
      CountIsFull(fds[..n]);
      assert forall i :: 0 <= i < n ==> fds[..n][i] == fds[i];
      if forall i :: 0 <= i < n ==> fds[..n][i].Some? {
        assert forall i :: 0 <= i < n ==> fds[i].Some?;
      }
      if forall i :: 0 <= i < |fds| ==> fds[i].Some? {
        assert forall i :: 0 <= i < n ==> fds[..n][i].Some?;
      }
    }
  }

  /** Some root entry in use carries the name. */
  ghost predicate Exists(v: Volume, s: CString) {
    exists i :: 0 <= i < |v.root| && Used(v.root[i]) && CName(v.root[i].name) == s
  }

  /** fs_open fails exactly for NULL, a name of 0 or more than 15 bytes, a missing file, or 32 open descriptors,
      although its guard lets a 33rd through; otherwise it returns the least free descriptor, at offset 0 of the named file. */
  lemma OpenFailsIff(v: Volume, filename: Option<CString>, v': Volume, r: Outcome)
    requires WellFormed(v) && OpenNext(v, filename, v', r)
    ensures r.ret == -1
       <==> filename.None? || !(1 <= |filename.value| <= 15) || !Exists(v, filename.value) || v.numOpen == 32
    ensures r.ret != -1 ==>
      && 0 <= r.ret < 32 && v.fds[r.ret].None? && (forall i :: 0 <= i < r.ret ==> v.fds[i].Some?)
      && FdOpen(v', r.ret) && v'.fds[r.ret].value.offset == 0
      && v'.root == v.root && CName(v.root[v'.fds[r.ret].value.file].name) == filename.value
      && forall i :: 0 <= i < |v.fds| && i != r.ret ==> v'.fds[i] == v.fds[i]
  {
    CountIsFull(v.fds);
    if !Invalid(filename) {
      var slot := FindName(v.root, filename.value);
      NoNul(filename.value);
      assert slot != -1 ==> Used(v.root[slot]);
    }
  }

  /** fs_delete refuses exactly NULL, a name of 0 or more than 15 bytes, a missing file, and a file that a
      descriptor refers to. */
  lemma DeleteFailsIff(v: Volume, filename: Option<CString>, v': Volume, r: Outcome)
    requires WellFormed(v) && DeleteNext(v, filename, v', r)
    ensures r.ret == -1
       <==> || filename.None? || !(1 <= |filename.value| <= 15) || !Exists(v, filename.value)
            || exists i :: 0 <= i < |v.fds| && v.fds[i].Some? && CName(v.root[v.fds[i].value.file].name) == filename.value
  {
    if !Invalid(filename) {
      var slot := FindName(v.root, filename.value);
      NoNul(filename.value);
      assert slot != -1 ==> Used(v.root[slot]);
      if slot != -1 && SlotOpen(v, slot) {
        var i :| 0 <= i < |v.fds| && v.fds[i].Some? && v.fds[i].value.file == slot;
        assert CName(v.root[v.fds[i].value.file].name) == filename.value;
      }
      forall i | 0 <= i < |v.fds| && v.fds[i].Some? && CName(v.root[v.fds[i].value.file].name) == filename.value
        ensures SlotOpen(v, slot)
      {
        assert v.fds[i].value.file == slot;
      }
    }
  }

  /** fs_create fails exactly for NULL, a name of 0 or more than 15 bytes, an existing file, or a full directory;
      otherwise it adds an empty file of that name to the first entry not in use and changes nothing else. */
  lemma CreateFailsIff(v: Volume, filename: Option<CString>, v': Volume, r: Outcome)
    requires WellFormed(v) && CreateNext(v, filename, v', r)
    ensures r.ret == -1
       <==> || filename.None? || !(1 <= |filename.value| <= 15) || Exists(v, filename.value)
            || forall i :: 0 <= i < |v.root| ==> Used(v.root[i])
    ensures r.ret == -1 ==> v' == v
    ensures r.ret != -1 ==>
      && Exists(v', filename.value) && v' == v.(root := v'.root) && |v'.root| == |v.root|
      && exists slot :: 0 <= slot < |v.root| && !Used(v.root[slot]) && v'.chains[slot] == []
                        && (forall i :: 0 <= i < slot ==> Used(v.root[i]))
                        && CName(v'.root[slot].name) == filename.value && v'.root[slot].size == 0
                        && forall i :: 0 <= i < |v.root| && i != slot ==> v'.root[i] == v.root[i]
  {
    if !Invalid(filename) {
      var s := filename.value;
      NoNul(s);
      var at := FindName(v.root, s);
      assert at != -1 ==> Used(v.root[at]) && Exists(v, s);
      var slot := FindEmpty(v.root);
      if at == -1 && slot != -1 {
        CNamePrefix(v'.root[slot].name, s);
        assert Used(v'.root[slot]);
        assert !Used(v.root[slot]);
      }
    }
  }

  // ----- seeking -----

  /** A seek of an open descriptor is refused exactly beyond the recorded size, and sets the offset to its
      argument, as documented, exactly up to the size and below 65536. */
  lemma LseekSetsIff(v: Volume, fd: int, offset: nat, v': Volume, r: Outcome)
    requires WellFormed(v) && FdOpen(v, fd) && LseekNext(v, fd, offset, v', r)
    ensures FdOpen(v', fd)
    ensures r.ret == 0 <==> offset <= v.root[v.fds[fd].value.file].size
    ensures r.ret == 0 && v'.fds[fd].value.offset == offset
       <==> offset <= v.root[v.fds[fd].value.file].size && offset < 0x1_0000
  {
  }

  /** Conversion of a C int to size_t. */
  function ToSize(x: int): nat
    requires -0x8000_0000 <= x
  {
    if x >= 0 then x else x + 0x1_0000_0000_0000_0000
  }

  /** The documented way to append, a seek to what fs_stat returned, reaches the recorded end of the file
      exactly for sizes below 65536. */
  lemma StatSeekIff(v: Volume, fd: int, v0: Volume, s: Outcome, v': Volume, r: Outcome)
    requires WellFormed(v) && FdOpen(v, fd) && StatNext(v, fd, v0, s)
    requires s.ret >= -0x8000_0000 && LseekNext(v0, fd, ToSize(s.ret), v', r)
    ensures var size := v.root[v.fds[fd].value.file].size;
            && v0 == v && -0x8000_0000 <= ToInt(size)
            && FdOpen(v', fd) && (r.ret == 0 && v'.fds[fd].value.offset == size <==> size < 0x1_0000)
            && (r.ret == -1 <==> size > 0x7FFF_FFFF)
  {
    LseekSetsIff(v, fd, ToSize(s.ret), v', r);
  }
}
