/** The calls in plain terms: entries, bytes and numbers as the C interface has them, stated without the
    definitions that specification and code share. */
module Calls {
  import opened Types
  import opened Blocks
  import opened Chains
  import opened Names
  import opened Volumes
  import opened Invariant
  import opened Refinement
  import opened Transfers
  import opened Accounting
  import opened Outcomes

  /** The 16-byte name of e holds the string s and its terminator. */
  predicate Carries(e: File, s: seq<byte>) {
    |s| < |e.name| && e.name[..|s|] == s && e.name[|s|] == 0
  }

  lemma CarriesIff(e: File, s: CString)
    requires 0 in e.name
    ensures Carries(e, s) <==> CName(e.name) == s
  {
    Terminated(e.name);
    if Carries(e, s) {
      CNamePrefix(e.name, s);
    }
  }

  /** A name a call accepts: not NULL, and 1 to 15 bytes long. */
  predicate Acceptable(filename: Option<CString>) {
    filename.Some? && 1 <= |filename.value| <= 15
  }

  /** What every volume of a run looks like in numbers. */
  lemma WellFormedShape(v: Volume)
    requires WellFormed(v)
    ensures |v.root| == 128 && |v.fds| == 32 && 0 <= v.numOpen <= 32
    ensures forall i :: 0 <= i < 128 ==> |v.root[i].name| == 16 && |v.root[i].padding| == 10
    ensures forall i, j :: 0 <= i < 128 && 0 <= j < 10 ==> v.root[i].padding[j] == 0
    ensures forall i :: 0 <= i < 128 && v.root[i].name[0] == 0 ==> v.chains[i] == []
  {
  }

  lemma {:induction false} OpenCountIs(fds: seq<Option<Descriptor>>)
    ensures OpenCount(fds) == |set i | 0 <= i < |fds| && fds[i].Some?|
  {
    var s := set i | 0 <= i < |fds| && fds[i].Some?;
    if fds == [] {
      assert s == {};
    } else {
      var n := |fds| - 1;
      OpenCountIs(fds[..n]);
      var t := set i | 0 <= i < |fds[..n]| && fds[..n][i].Some?;
      assert s == if fds[n].Some? then t + {n} else t;
    }
  }

  lemma ChainIff(fat: seq<u16>, first: u16, c: seq<nat>)
    ensures IsChain(fat, first, c)
       <==> && first == (if c == [] then 65535 else c[0])
            && (forall k :: 0 <= k < |c| ==> 1 <= c[k] < |fat|)
            && forall k :: 0 <= k < |c| ==> fat[c[k]] == if k == |c| - 1 then 65535 else c[k + 1]
  {
    if (forall k :: 0 <= k < |c| ==> 1 <= c[k] < |fat|)
       && forall k :: 0 <= k < |c| ==> fat[c[k]] == if k == |c| - 1 then 65535 else c[k + 1] {
      forall k | 0 <= k < |c| ensures fat[c[k]] == Link(c, k) {
        assert 1 <= c[k] < |fat|;
        assert fat[c[k]] == if k == |c| - 1 then 65535 else c[k + 1];
      }
    }
    if IsChain(fat, first, c) {
      forall k | 0 <= k < |c| ensures fat[c[k]] == if k == |c| - 1 then 65535 else c[k + 1] {
        assert fat[c[k]] == Link(c, k);
      }
    }
  }

  /** The layout of a volume. */
  lemma LayoutIff(v: Volume)
    ensures LayoutOk(v)
       <==> && v.B > 0 && |v.fat| == v.sb.numData >= 1
            && v.sb.dataStart + v.sb.numData <= v.sb.numBlocks == |v.disk|
            && v.sb.rootIndex == v.sb.numFat + 1 < v.sb.dataStart
            && (forall b :: 0 <= b < |v.disk| ==> |v.disk[b]| == v.B)
            && (v.fat[0] == 65535 || v.fat[0] == 0)
  {
  }

  /** The root directory of a volume: 128 entries with terminated 16-byte names and ten zero padding bytes, and
      no two entries in use with the same name. */
  lemma RootIff(root: seq<File>)
    ensures EntriesOk(root) && NamesUnique(root)
       <==> && |root| == 128
            && (forall i :: 0 <= i < 128 ==> |root[i].name| == 16 && 0 in root[i].name)
            && (forall i :: 0 <= i < 128 ==> root[i].padding == [0, 0, 0, 0, 0, 0, 0, 0, 0, 0])
            && forall i, j, s: CString :: 0 <= i < j < 128 && root[i].name[0] != 0 && Carries(root[i], s) ==> !Carries(root[j], s)
  {
    assert Zeros(10) == [0, 0, 0, 0, 0, 0, 0, 0, 0, 0];
    if |root| == 128 && forall i :: 0 <= i < 128 ==> |root[i].name| == 16 && 0 in root[i].name {
      NamesIff(root);
    }
  }

  lemma CarriedTwice(root: seq<File>, i: int, j: int, s: CString)
    requires 0 <= i < j < |root| && |root[i].name| == |root[j].name| == 16 && 0 in root[i].name && 0 in root[j].name
    requires forall k :: 0 <= k < |root| ==> |root[k].name| == 16
    requires root[i].name[0] != 0 && Carries(root[i], s) && Carries(root[j], s)
    ensures !NamesUnique(root)
  {
    CarriesIff(root[i], s);
    CarriesIff(root[j], s);
  }

  lemma NamedTwice(root: seq<File>, i: int, j: int)
    requires 0 <= i < j < |root| && |root[i].name| == |root[j].name| == 16 && 0 in root[i].name && 0 in root[j].name
    requires Used(root[i]) && Used(root[j]) && CName(root[i].name) == CName(root[j].name)
    ensures root[i].name[0] != 0 && Carries(root[i], CName(root[i].name)) && Carries(root[j], CName(root[i].name))
  {
    CarriesIff(root[i], CName(root[i].name));
    CarriesIff(root[j], CName(root[i].name));
  }

  lemma NamesIff(root: seq<File>)
    requires |root| == 128 && forall i :: 0 <= i < 128 ==> |root[i].name| == 16 && 0 in root[i].name
    ensures NamesUnique(root)
       <==> forall i, j, s: CString :: 0 <= i < j < 128 && root[i].name[0] != 0 && Carries(root[i], s) ==> !Carries(root[j], s)
  {
    forall i, j, s: CString | 0 <= i < j < 128 && root[i].name[0] != 0 && Carries(root[i], s) && Carries(root[j], s)
      ensures !NamesUnique(root)
    {
      CarriedTwice(root, i, j, s);
    }
    forall i, j | 0 <= i < j < 128 && Used(root[i]) && Used(root[j]) && CName(root[i].name) == CName(root[j].name)
      ensures root[i].name[0] != 0 && Carries(root[i], CName(root[i].name)) && Carries(root[j], CName(root[i].name))
    {
      NamedTwice(root, i, j);
    }
  }

  /** The files of a volume: each entry in use owns the blocks the table links from its first index to a final
      65535, entries not in use own none, and no block has two owners. */
  lemma FilesIff(v: Volume)
    requires |v.root| == 128 && forall i :: 0 <= i < 128 ==> |v.root[i].name| == 16
    ensures ChainsOk(v.fat, v.root, v.chains) && Disjoint(v.chains)
       <==> && |v.chains| == 128
            && (forall i :: 0 <= i < 128 && v.root[i].name[0] == 0 ==> v.chains[i] == [])
            && (forall i :: 0 <= i < 128 && v.root[i].name[0] != 0 ==> IsChain(v.fat, v.root[i].first, v.chains[i]))
            && forall i, j, b :: 0 <= i < 128 && 0 <= j < 128 && i != j && b in v.chains[i] ==> b !in v.chains[j]
  {
  }

  /** The descriptors of a volume: 32 slots, the open ones on entries in use, and a counter of those. */
  lemma DescriptorsIff(v: Volume)
    requires |v.root| == 128 && forall i :: 0 <= i < 128 ==> |v.root[i].name| == 16
    ensures FdsOk(v.fds, v.root) && v.numOpen == OpenCount(v.fds)
       <==> && |v.fds| == 32
            && (forall i :: 0 <= i < 32 && v.fds[i].Some? ==>
                  v.fds[i].value.file < 128 && v.root[v.fds[i].value.file].name[0] != 0)
            && v.numOpen == |set i | 0 <= i < |v.fds| && v.fds[i].Some?|
  {
    OpenCountIs(v.fds);
  }

  /** The invariant is these four parts, and nothing else. */
  lemma WellFormedIff(v: Volume)
    ensures WellFormed(v)
       <==> && LayoutOk(v)
            && (EntriesOk(v.root) && NamesUnique(v.root))
            && (ChainsOk(v.fat, v.root, v.chains) && Disjoint(v.chains))
            && (FdsOk(v.fds, v.root) && v.numOpen == OpenCount(v.fds))
  {
  }

  /** The last block of a file is marked 65535 in the table, every other block names its successor, and a file
      without blocks has first index 65535. */
  lemma ChainInNumbers(v: Volume, i: int, k: int)
    requires WellFormed(v) && 0 <= i < |v.root| && v.root[i].name[0] != 0 && 0 <= k < |v.chains[i]|
    ensures v.root[i].first == v.chains[i][0] && 1 <= v.chains[i][k] < |v.fat|
    ensures v.fat[v.chains[i][k]] == if k == |v.chains[i]| - 1 then 65535 else v.chains[i][k + 1]
  {
    assert IsChain(v.fat, v.root[i].first, v.chains[i]);
    assert v.fat[v.chains[i][k]] == Link(v.chains[i], k);
  }

  lemma EmptyInNumbers(v: Volume, i: int)
    requires WellFormed(v) && 0 <= i < |v.root| && v.root[i].name[0] != 0 && v.chains[i] == []
    ensures v.root[i].first == 65535
  {
    assert IsChain(v.fat, v.root[i].first, v.chains[i]);
  }

  /** The calls the model covers. */
  lemma AdmissibleInNumbers(op: Op)
    ensures op.Create? || op.Delete? || op.Open? ==> Admissible(op)
    ensures op.Close? || op.Stat? || op.Lseek? ==> (Admissible(op) <==> op.fd < 32 || op.fd >= 128)
    ensures op.Read? ==> (Admissible(op) <==> (op.fd < 32 || op.fd >= 128) && op.count <= 2147483647)
    ensures op.Write? ==> (Admissible(op) <==> (op.fd < 32 || op.fd >= 128) && op.count <= 2147483647
                                               && (op.buf.Some? ==> op.count <= |op.buf.value|))
  {
  }

  // ----- create, open, delete, close -----

  lemma FoundIff(v: Volume, s: CString)
    requires WellFormed(v) && s != []
    ensures FindName(v.root, s) != -1 <==> exists i :: 0 <= i < 128 && Carries(v.root[i], s)
    ensures forall i :: 0 <= i < 128 && Carries(v.root[i], s) ==> i == FindName(v.root, s) && v.root[i].name[0] != 0
  {
    NoNul(s);
    var at := FindName(v.root, s);
    forall i | 0 <= i < |v.root| ensures Carries(v.root[i], s) <==> CName(v.root[i].name) == s {
      CarriesIff(v.root[i], s);
    }
    if at != -1 {
      assert Carries(v.root[at], s);
    }
    forall i | 0 <= i < 128 && Carries(v.root[i], s) ensures i == at && v.root[i].name[0] != 0 {
      assert v.root[i].name[0] == s[0];
      assert Used(v.root[i]);
    }
  }

  /** fs_create succeeds exactly for a name of 1 to 15 bytes that no entry carries while one of the 128 entries
      is unused; it then turns the first unused entry into an empty file of that name, leaving the rest of the
      name array and the padding, and changes nothing else. Otherwise it changes nothing. */
  lemma CreateExactly(v: Volume, filename: Option<CString>, v': Volume, r: Outcome) returns (slot: int)
    requires WellFormed(v) && CreateNext(v, filename, v', r)
    ensures |v.root| == 128 && r.data == [] && (r.ret == 0 || r.ret == -1)
    ensures r.ret == 0
       <==> && Acceptable(filename)
            && (forall i :: 0 <= i < 128 ==> !Carries(v.root[i], filename.value))
            && exists i :: 0 <= i < 128 && v.root[i].name[0] == 0
    ensures r.ret == -1 ==> v' == v
    ensures r.ret == 0 ==>
      && 0 <= slot < 128 && v.root[slot].name[0] == 0 && (forall i :: 0 <= i < slot ==> v.root[i].name[0] != 0)
      && var s := filename.value;
         var e := File(s + [0] + v.root[slot].name[|s| + 1..], 0, 65535, v.root[slot].padding);
         v' == v.(root := v.root[slot := e])
  {
    slot := FindEmpty(v.root);
    if filename.Some? && filename.value != [] {
      FoundIff(v, filename.value);
    }
    if slot != -1 {
      assert v.root[slot].name[0] == 0;
    }
  }

  /** fs_open fails exactly for NULL, a name of 0 or more than 15 bytes, a name no entry carries, or 32 open
      descriptors; otherwise it puts the entry at offset 0 into the least free of the 32 slots, counts it, and
      changes nothing else. */
  lemma OpenExactly(v: Volume, filename: Option<CString>, v': Volume, r: Outcome) returns (slot: int)
    requires WellFormed(v) && OpenNext(v, filename, v', r)
    ensures |v.fds| == 32 && |v.root| == 128 && r.data == [] && -1 <= r.ret < 32
    ensures r.ret == -1
       <==> || !Acceptable(filename)
            || (forall i :: 0 <= i < 128 ==> !Carries(v.root[i], filename.value))
            || (forall i :: 0 <= i < 32 ==> v.fds[i].Some?)
    ensures r.ret == -1 ==> v' == v
    ensures r.ret != -1 ==>
      && v.fds[r.ret].None? && (forall i :: 0 <= i < r.ret ==> v.fds[i].Some?)
      && 0 <= slot < 128 && Carries(v.root[slot], filename.value)
      && v' == v.(fds := v.fds[r.ret := Some(Descriptor(slot, 0))], numOpen := v.numOpen + 1)
  {
    slot := -1;
    if filename.Some? && filename.value != [] {
      FoundIff(v, filename.value);
      slot := FindName(v.root, filename.value);
    }
  }

  /** With 31 descriptors open and the last slot free, opening an existing file returns 31. */
  lemma OpenLast(v: Volume, filename: Option<CString>, v': Volume, r: Outcome, i: int)
    requires WellFormed(v) && OpenNext(v, filename, v', r)
    requires Acceptable(filename) && 0 <= i < |v.root| && Carries(v.root[i], filename.value)
    requires v.fds[31].None? && forall k :: 0 <= k < 31 ==> v.fds[k].Some?
    ensures r.ret == 31 && v'.numOpen == 32
  {
    var slot := OpenExactly(v, filename, v', r);
    OpenKeeps(v, filename, v', r);
    forall k | 0 <= k < 32 ensures v'.fds[k].Some? {
    }
    AllOpen(v'.fds);
  }

  lemma {:induction false} AllOpen(fds: seq<Option<Descriptor>>)
    requires forall k :: 0 <= k < |fds| ==> fds[k].Some?
    ensures OpenCount(fds) == |fds|
  {
    if fds != [] {
      AllOpen(fds[..|fds| - 1]);
    }
  }

  /** fs_delete fails exactly for NULL, a name of 0 or more than 15 bytes, a name no entry carries, or an entry
      some descriptor refers to. Otherwise it marks the entry unused, with size 0 and first index 65535, and frees
      the first block of the file; from a file of more blocks it also zeroes entry 0. Nothing else changes. */
  lemma DeleteExactly(v: Volume, filename: Option<CString>, v': Volume, r: Outcome) returns (slot: int)
    requires WellFormed(v) && DeleteNext(v, filename, v', r)
    ensures |v.fds| == 32 && |v.root| == 128 && r.data == [] && (r.ret == 0 || r.ret == -1)
    ensures r.ret == 0
       <==> && Acceptable(filename)
            && exists i :: 0 <= i < 128 && Carries(v.root[i], filename.value)
                           && forall k :: 0 <= k < 32 && v.fds[k].Some? ==> v.fds[k].value.file != i
    ensures r.ret == -1 ==> v' == v
    ensures r.ret == 0 ==>
      && 0 <= slot < 128 && Carries(v.root[slot], filename.value)
      && var e, c := v.root[slot], v.chains[slot];
      && v' == v.(fat := v'.fat, root := v.root[slot := File(e.name[0 := 0], 0, 65535, e.padding)],
                  chains := v.chains[slot := []])
      && |v'.fat| == |v.fat|
      && forall j :: 0 <= j < |v.fat| ==>
           v'.fat[j] == if (|c| >= 1 && j == c[0]) || (|c| >= 2 && j == 0) then 0 else v.fat[j]
  {
    slot := -1;
    if filename.Some? && filename.value != [] {
      FoundIff(v, filename.value);
      slot := FindName(v.root, filename.value);
    }
  }

  /** The call names a file that fs_delete accepts: a valid name carried by entry i, to which no descriptor refers. */
  predicate Accepted(v: Volume, filename: Option<CString>, i: int)
    requires |v.root| == 128 && |v.fds| == 32
  {
    && 0 <= i < 128 && Acceptable(filename) && Carries(v.root[i], filename.value)
    && forall k :: 0 <= k < 32 && v.fds[k].Some? ==> v.fds[k].value.file != i
  }

  lemma AcceptedIff(v: Volume, filename: Option<CString>)
    requires WellFormed(v)
    ensures |v.root| == |v.chains| == 128 && |v.fds| == 32
    ensures Deletable(v, filename) <==> exists i :: Accepted(v, filename, i)
    ensures forall i :: Accepted(v, filename, i) ==> i == FindName(v.root, filename.value)
  {
    if filename.Some? && filename.value != [] {
      FoundIff(v, filename.value);
      var slot := FindName(v.root, filename.value);
      if Deletable(v, filename) {
        assert Accepted(v, filename, slot);
      }
    }
  }

  /** fs_delete does not return exactly for a file of two or more blocks while entry 0 is zero. */
  lemma DeleteHangsIff(v: Volume, filename: Option<CString>)
    requires WellFormed(v)
    ensures |v.root| == |v.chains| == 128 && |v.fds| == 32
    ensures (forall v', r :: !DeleteNext(v, filename, v', r))
       <==> exists i :: Accepted(v, filename, i) && |v.chains[i]| >= 2 && v.fat[0] == 0
  {
    AcceptedIff(v, filename);
    var op := Op.Delete(filename);
    NextHasOutcomeIff(v, op);
    assert (exists v', r :: Next(v, op, v', r)) <==> exists v', r :: DeleteNext(v, filename, v', r) by {
      assert forall v', r :: Next(v, op, v', r) <==> DeleteNext(v, filename, v', r);
    }
  }

  lemma LongDeleteIff(v: Volume, op: Op)
    requires WellFormed(v)
    ensures |v.root| == |v.chains| == 128 && |v.fds| == 32
    ensures LongDelete(v, op) <==> op.Delete? && exists i :: Accepted(v, op.filename, i) && |v.chains[i]| >= 2
  {
    if op.Delete? {
      AcceptedIff(v, op.filename);
    }
  }

  /** fs_close of an open descriptor frees its slot and lowers the counter; of any other number it fails. */
  lemma CloseExactly(v: Volume, fd: int, v': Volume, r: Outcome)
    requires WellFormed(v) && CloseNext(v, fd, v', r)
    ensures |v.fds| == 32
    ensures r == Outcome(if 0 <= fd < 32 && v.fds[fd].Some? then 0 else -1, [])
    ensures v' == if 0 <= fd < 32 && v.fds[fd].Some?
                  then v.(fds := v.fds[fd := None], numOpen := v.numOpen - 1) else v
  {
  }

  // ----- stat and lseek -----

  /** fs_stat returns the recorded size as a 32-bit int and changes nothing. */
  lemma StatExactly(v: Volume, fd: int, v': Volume, r: Outcome)
    requires WellFormed(v) && StatNext(v, fd, v', r)
    ensures |v.fds| == 32 && v' == v && r.data == []
    ensures !(0 <= fd < 32 && v.fds[fd].Some?) ==> r.ret == -1
    ensures 0 <= fd < 32 && v.fds[fd].Some? ==>
      var size := v.root[v.fds[fd].value.file].size;
      r.ret == if size <= 2147483647 then size else size - 4294967296
  {
  }

  /** fs_lseek stores the offset modulo 65536, or refuses beyond the recorded size. */
  lemma LseekExactly(v: Volume, fd: int, offset: nat, v': Volume, r: Outcome)
    requires WellFormed(v) && LseekNext(v, fd, offset, v', r)
    ensures |v.fds| == 32
    ensures var ok := 0 <= fd < 32 && v.fds[fd].Some? && offset <= v.root[v.fds[fd].value.file].size;
            && r == Outcome(if ok then 0 else -1, [])
            && v' == if ok then v.(fds := v.fds[fd := Some(Descriptor(v.fds[fd].value.file, offset % 65536))]) else v
  {
  }

  // ----- write and read -----

  /** fs_write fails exactly for a bad descriptor or a NULL buffer. */
  lemma WriteFailsIff(v: Volume, fd: int, buf: Option<seq<byte>>, count: nat, v': Volume, r: Outcome)
    requires WellFormed(v) && (buf.Some? ==> count <= |buf.value|) && WriteNext(v, fd, buf, count, v', r)
    ensures |v.fds| == 32
    ensures r.ret == -1 <==> !(0 <= fd < 32 && v.fds[fd].Some?) || buf.None?
    ensures r.data == [] && (r.ret == -1 || count == 0 ==> v' == v && r.ret <= 0)
  {
  }

  /** The books after a write of count > 0 bytes. With room for all of them, counting every free block, offset and
      size grow by count modulo 65536 and 4294967296; otherwise both stay. The entry keeps its name and padding,
      other entries, descriptors and the counter stay, and so does every block of the disk and every entry of the
      table outside the file's blocks. */
  lemma WriteBooks(v: Volume, fd: int, buf: seq<byte>, count: nat, v': Volume, r: Outcome)
    requires WellFormed(v) && FdOpen(v, fd) && 0 < count <= |buf| && Written(v, fd, buf, count, v', r)
    ensures |v'.root| == |v.root| && |v'.chains| == |v.chains| && v'.B == v.B && v'.sb == v.sb && v'.numOpen == v.numOpen
    ensures var d := v.fds[fd].value;
            var e, c, c' := v.root[d.file], v.chains[d.file], v'.chains[d.file];
            var fits := d.offset + count <= (|c| + |Free(v.fat)|) * v.B;
            && r.ret == (if fits then count else Max(0, (|c| + |Free(v.fat)|) * v.B - d.offset))
            && v'.fds == v.fds[fd := Some(Descriptor(d.file, if fits then (d.offset + count) % 65536 else d.offset))]
            && v'.root == v.root[d.file := File(e.name, if fits then (e.size + count) % 4294967296 else e.size,
                                                if c' == [] then 65535 else c'[0], e.padding)]
            && c <= c' && v'.chains == v.chains[d.file := c']
            && |v'.fat| == |v.fat| && (forall j :: 0 <= j < |v.fat| && j !in c' ==> v'.fat[j] == v.fat[j])
            && |v'.disk| == |v.disk|
            && forall b :: 0 <= b < |v.disk| && (b < v.sb.dataStart || b - v.sb.dataStart !in c') ==> v'.disk[b] == v.disk[b]
  {
    hide Blocks.NumTarget, Blocks.Contents;
    WriteIsMaximal(v, fd, buf, count, v', r);
  }

  /** The blocks a write adds to its file: zero entries, in ascending order, the smallest there are, no more than
      the transfer needs, and as many as it needs while there are any. */
  lemma WriteAllocates(v: Volume, fd: int, buf: seq<byte>, count: nat, v': Volume, r: Outcome)
    requires WellFormed(v) && FdOpen(v, fd) && 0 < count <= |buf| && Written(v, fd, buf, count, v', r)
    ensures |v'.chains| == |v.chains|
    ensures v.chains[v.fds[fd].value.file] <= v'.chains[v.fds[fd].value.file]
    ensures var d := v.fds[fd].value;
            var c' := v'.chains[d.file];
            var s := c'[|v.chains[d.file]|..];
            && (forall k :: 0 <= k < |s| ==> 1 <= s[k] < |v.fat| && v.fat[s[k]] == 0)
            && (forall k, l :: 0 <= k < l < |s| ==> s[k] < s[l])
            && (forall k, j :: 0 <= k < |s| && 1 <= j < s[k] && v.fat[j] == 0 ==> j in s)
            && (s == [] || (|c'| - 1) * v.B < d.offset + count)
            && (d.offset + count <= |c'| * v.B || forall j :: 1 <= j < |v.fat| && v.fat[j] == 0 ==> j in s)
  {
    hide Blocks.NumTarget, Blocks.Contents, Blocks.DiskWritten, Chains.Extended, Chains.Free;
    var d := v.fds[fd].value;
    var c, added, target := v.chains[d.file], Added(v, d.file, d.offset, count), NumTarget(d.offset, count, v.B);
    assert (c + added)[|c|..] == added;
    FirstFree(v.fat, |added|);
    NumTargetBounds(d.offset, count, v.B);
    if |c| + |added| >= target {
      MulMono(target, |c| + |added|, v.B);
    }
    if |added| > 0 {
      MulMono(|c| + |added| - 1, target - 1, v.B);
    }
  }

  /** Where the bytes of a file are: byte j of its k-th block lies in disk block dataStart + chains[i][k]. */
  lemma FileBytesAt(v: Volume, i: int, k: nat, j: nat)
    requires WellFormed(v) && 0 <= i < |v.root| && k < |v.chains[i]| && j < v.B
    ensures |FileBytes(v, i)| == |v.chains[i]| * v.B && 0 <= k * v.B && k * v.B + j < |FileBytes(v, i)|
    ensures v.sb.dataStart + v.chains[i][k] < |v.disk| && |v.disk[v.sb.dataStart + v.chains[i][k]]| == v.B
    ensures FileBytes(v, i)[k * v.B + j] == v.disk[v.sb.dataStart + v.chains[i][k]][j]
  {
    hide Blocks.Contents;
    FileLength(v, i);
    ChainOnDisk(v, i);
    ContentsBlock(v.disk, v.sb.dataStart, v.chains[i], k, v.B);
    assert FileBytes(v, i)[k * v.B..k * v.B + v.B][j] == FileBytes(v, i)[k * v.B + j];
  }

  /** fs_read into a buffer, in plain terms; an empty request inside a block that is not the last is the overrun. */
  lemma ReadExactly(v: Volume, fd: int, isNull: bool, count: nat, v': Volume, r: Outcome)
    requires WellFormed(v) && ReadNext(v, fd, isNull, count, v', r)
    ensures |v.fds| == 32
    ensures !(0 <= fd < 32 && v.fds[fd].Some?) || isNull ==> v' == v && r == Outcome(-1, [])
    ensures 0 <= fd < 32 && v.fds[fd].Some? && !isNull ==>
      var d := v.fds[fd].value;
      var bytes := FileBytes(v, d.file);
      if count == 0 && d.offset % v.B != 0 && d.offset / v.B + 1 < |v.chains[d.file]| then
        var p := (d.offset / v.B + 1) * v.B;
        v' == v && r.ret == -1 && p + v.B <= |bytes| && r.data == bytes[p..p + v.B]
      else if d.offset + count <= |bytes| then
        && r == Outcome(count, bytes[d.offset..d.offset + count])
        && v' == v.(fds := v.fds[fd := Some(Descriptor(d.file, (d.offset + count) % 65536))])
      else
        && v' == v
        && r == Outcome(if d.offset <= |bytes| then |bytes| - d.offset else 0,
                        if d.offset <= |bytes| then bytes[d.offset..] else [])
  {
    hide Blocks.Contents;
    if FdOpen(v, fd) && !isNull {
      var d := v.fds[fd].value;
      FileLength(v, d.file);
      assert v.fds[fd := v.fds[fd]] == v.fds;
      if !Overrun(v, fd, count) {
        ReadCorrect(v, fd, isNull, count, v', r);
      }
    }
  }
}
