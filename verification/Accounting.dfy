/** Where the data blocks are: free, in a file, or lost. */
module Accounting {
  import opened Types
  import opened Blocks
  import opened Chains
  import opened Names
  import opened Volumes
  import opened FlatModel
  import opened Refinement
  import opened Runs

  ghost function SumLengths(chains: seq<seq<nat>>): nat {
    if chains == [] then 0 else SumLengths(chains[..|chains| - 1]) + |chains[|chains| - 1]|
  }

  lemma {:induction false} SumUpdate(chains: seq<seq<nat>>, i: nat, c: seq<nat>)
    requires i < |chains|
    ensures SumLengths(chains[i := c]) == SumLengths(chains) - |chains[i]| + |c|
  {
    var n := |chains| - 1;
    var chains' := chains[i := c];
    if i == n {
      assert chains'[..n] == chains[..n];
    } else {
      assert chains'[..n] == chains[..n][i := c];
      SumUpdate(chains[..n], i, c);
    }
  }

  /** Free blocks and blocks in files. */
  ghost function Accounted(v: Volume): nat {
    |Free(v.fat)| + SumLengths(v.chains)
  }

  /** The blocks a call loses: all but the first of a deleted file. */
  ghost function Lost(v: Volume, op: Op): nat
    requires WellFormed(v)
  {
    if op.Delete? && Deletable(v, op.filename) then Max(0, |v.chains[FindName(v.root, op.filename.value)]| - 1) else 0
  }

  lemma DeleteAccounts(v: Volume, filename: Option<CString>, v': Volume, r: Outcome)
    requires WellFormed(v) && Deletable(v, filename) && DeleteNext(v, filename, v', r)
    ensures Accounted(v') == Accounted(v) - Lost(v, Op.Delete(filename))
  {
    var slot := FindName(v.root, filename.value);
    NoNul(filename.value);
    DeletedFree(v, slot);
    SumUpdate(v.chains, slot, []);
  }

  lemma WriteAccounts(v: Volume, fd: int, buf: seq<byte>, count: nat, v': Volume, r: Outcome)
    requires WellFormed(v) && FdOpen(v, fd) && 0 < count <= |buf| && Written(v, fd, buf, count, v', r)
    ensures Accounted(v') == Accounted(v)
  {
    hide Blocks.DiskWritten, Blocks.NumTarget;
    var d := v.fds[fd].value;
    WrittenFree(v, fd, buf, count, v', r);
    SumUpdate(v.chains, d.file, v'.chains[d.file]);
  }

  /** Conservation in one call. */
  lemma NextAccounts(v: Volume, op: Op, v': Volume, r: Outcome)
    requires WellFormed(v) && Admissible(op) && Next(v, op, v', r)
    ensures Accounted(v') == Accounted(v) - Lost(v, op)
  {
    match op
    case Delete(filename) =>
      if Deletable(v, filename) {
        DeleteAccounts(v, filename, v', r);
      }
    case Write(fd, buf, count) =>
      if FdOpen(v, fd) && buf.Some? && count > 0 {
        WriteAccounts(v, fd, buf.value, count, v', r);
      }
    case _ =>
  }

  /** What the first n calls of a run lose together. */
  ghost function LostInRun(vs: seq<Volume>, ops: seq<Op>, rs: seq<Outcome>, n: nat): nat
    requires Run(vs, ops, rs) && n <= |ops|
  {
    if n == 0 then 0
    else
      RunKeepsInvariant(vs, ops, rs, n - 1);
      LostInRun(vs, ops, rs, n - 1) + Lost(vs[n - 1], ops[n - 1])
  }

  /** Conservation over runs: free blocks, blocks in files and blocks lost by deletes add up to what
      there was at the start. */
  lemma {:induction false} RunConserves(vs: seq<Volume>, ops: seq<Op>, rs: seq<Outcome>, n: nat)
    requires Run(vs, ops, rs) && n <= |ops|
    ensures Accounted(vs[n]) + LostInRun(vs, ops, rs, n) == Accounted(vs[0])
  {
    hide Volumes.WellFormed, Volumes.Next, Volumes.Deletable;
    if n > 0 {
      RunKeepsInvariant(vs, ops, rs, n - 1);
      RunConserves(vs, ops, rs, n - 1);
      assert Step(vs[n - 1], ops[n - 1], vs[n - 1 + 1], rs[n - 1]);
      NextAccounts(vs[n - 1], ops[n - 1], vs[n], rs[n - 1]);
    }
  }

  // ----- accounting is complete -----

  /** Every data block but the reserved one is free or part of a file. */
  ghost predicate NothingLost(v: Volume) {
    forall j :: 1 <= j < |v.fat| && v.fat[j] != 0 ==> InSomeFile(v.chains, j)
  }

  ghost predicate InSomeFile(chains: seq<seq<nat>>, j: nat) {
    exists i :: 0 <= i < |chains| && j in chains[i]
  }

  /** All blocks of all files in one list. */
  ghost function Joined(chains: seq<seq<nat>>): seq<nat> {
    if chains == [] then [] else Joined(chains[..|chains| - 1]) + chains[|chains| - 1]
  }

  lemma {:induction false} JoinedLength(chains: seq<seq<nat>>)
    ensures |Joined(chains)| == SumLengths(chains)
  {
    if chains != [] {
      JoinedLength(chains[..|chains| - 1]);
    }
  }

  lemma {:induction false} JoinedMembers(chains: seq<seq<nat>>, j: nat)
    ensures j in Joined(chains) <==> InSomeFile(chains, j)
  {
    if chains != [] {
      var n := |chains| - 1;
      JoinedMembers(chains[..n], j);
      if j in Joined(chains) && j !in chains[n] {
        var i :| 0 <= i < n && j in chains[..n][i];
        assert j in chains[i];
      }
      if InSomeFile(chains, j) && j !in chains[n] {
        var i :| 0 <= i < |chains| && j in chains[i];
        assert j in chains[..n][i];
      }
    }
  }

  lemma {:induction false} JoinedInjective(chains: seq<seq<nat>>)
    requires Disjoint(chains) && forall i :: 0 <= i < |chains| ==> Injective(chains[i])
    ensures Injective(Joined(chains))
  {
    if chains != [] {
      var n := |chains| - 1;
      var front := chains[..n];
      assert forall i :: 0 <= i < n ==> front[i] == chains[i];
      JoinedInjective(front);
      forall a, b | 0 <= a < |Joined(front)| && 0 <= b < |chains[n]| ensures Joined(front)[a] != chains[n][b] {
        JoinedMembers(front, Joined(front)[a]);
        var i :| 0 <= i < n && Joined(front)[a] in front[i];
        assert Joined(front)[a] in chains[i];
        assert chains[n][b] in chains[n];
      }
    }
  }

  ghost function Range(lo: nat, hi: nat): (s: set<nat>)
    requires lo <= hi
    ensures forall x :: x in s <==> lo <= x < hi
    ensures |s| == hi - lo
    decreases hi - lo
  {
    if lo == hi then {} else {lo} + Range(lo + 1, hi)
  }

  ghost function Elements(s: seq<nat>): set<nat> {
    set x | x in s
  }

  lemma {:induction false} ElementsSize(s: seq<nat>)
    requires Injective(s)
    ensures |Elements(s)| == |s|
  {
    if s != [] {
      var n := |s| - 1;
      ElementsSize(s[..n]);
      assert Elements(s) == Elements(s[..n]) + {s[n]};
      assert s[n] !in s[..n];
    }
  }

  lemma SubsetSize(a: set<nat>, b: set<nat>)
    requires a <= b
    ensures |a| <= |b| && (|a| == |b| <==> a == b)
  {
    assert b == a + (b - a);
    assert |b| == |a| + |b - a|;
  }

  /** Every number between 1 and n occurs in s. */
  ghost predicate Covers(s: seq<nat>, n: nat) {
    forall x: nat :: 1 <= x < n ==> x in s
  }

  /** Pigeonhole: distinct blocks between 1 and n number at most n - 1, and exactly that many when they
      are all there. */
  lemma AllOrFewer(s: seq<nat>, n: nat)
    requires n >= 1 && Injective(s) && forall k :: 0 <= k < |s| ==> 1 <= s[k] < n
    ensures |s| <= n - 1
    ensures |s| == n - 1 <==> Covers(s, n)
  {
    ElementsSize(s);
    var r := Range(1, n);
    SubsetSize(Elements(s), r);
    assert forall x :: x in Elements(s) <==> x in s;
    if Elements(s) == r {
      forall x: nat | 1 <= x < n ensures x in s {
        assert x in r;
      }
    }
    if Covers(s, n) {
      assert Elements(s) == r;
    }
  }

  lemma FileBlocks(v: Volume)
    requires WellFormed(v)
    ensures Injective(Joined(v.chains))
    ensures forall x :: x in Joined(v.chains) ==> 1 <= x < |v.fat| && v.fat[x] != 0
  {
    forall i | 0 <= i < |v.chains| ensures Injective(v.chains[i]) {
      if Used(v.root[i]) {
        ChainInjective(v.fat, v.root[i].first, v.chains[i]);
      }
    }
    JoinedInjective(v.chains);
    forall x | x in Joined(v.chains) ensures 1 <= x < |v.fat| && v.fat[x] != 0 {
      JoinedMembers(v.chains, x);
      var i :| 0 <= i < |v.chains| && x in v.chains[i];
      ChainNotFree(v.fat, v.root[i].first, v.chains[i], x);
    }
  }

  lemma ConcatInjective(a: seq<nat>, b: seq<nat>)
    requires Injective(a) && Injective(b) && forall x :: x in a ==> x !in b
    ensures Injective(a + b)
  {
    forall i, j | 0 <= i < j < |a + b| ensures (a + b)[i] != (a + b)[j] {
      if i < |a| <= j {
        assert a[i] in a && b[j - |a|] in b;
      }
    }
  }

  /** Free blocks, blocks in files and the reserved block never exceed the data blocks of the volume, and
      they make up all of them exactly when no block is lost. */
  lemma AccountingIsComplete(v: Volume)
    requires WellFormed(v)
    ensures Accounted(v) + 1 <= v.sb.numData
    ensures Accounted(v) + 1 == v.sb.numData <==> NothingLost(v)
  {
    var free, owned := Free(v.fat), Joined(v.chains);
    FreeFacts(v.fat);
    FileBlocks(v);
    JoinedLength(v.chains);
    assert Injective(free);
    ConcatInjective(free, owned);
    var all := free + owned;
    forall k | 0 <= k < |all| ensures 1 <= all[k] < |v.fat| {
      assert all[k] in all;
      assert all[k] in free || all[k] in owned;
    }
    AllOrFewer(all, |v.fat|);
    AllIffNothingLost(v);
  }

  lemma AllIffNothingLost(v: Volume)
    requires WellFormed(v)
    ensures Covers(Free(v.fat) + Joined(v.chains), |v.fat|) <==> NothingLost(v)
  {
    var all := Free(v.fat) + Joined(v.chains);
    FreeFacts(v.fat);
    forall x: nat | 1 <= x < |v.fat| ensures x in all <==> v.fat[x] == 0 || InSomeFile(v.chains, x) {
      JoinedMembers(v.chains, x);
      assert x in all <==> x in Free(v.fat) || x in Joined(v.chains);
    }
    if NothingLost(v) {
      assert Covers(all, |v.fat|);
    }
    if Covers(all, |v.fat|) {
      forall j | 1 <= j < |v.fat| && v.fat[j] != 0 ensures InSomeFile(v.chains, j) {
        assert j in all;
      }
    }
  }

  lemma {:induction false} RunKeepsSuperblock(vs: seq<Volume>, ops: seq<Op>, rs: seq<Outcome>, i: nat)
    requires Run(vs, ops, rs) && i < |vs|
    ensures vs[i].sb == vs[0].sb && vs[i].B == vs[0].B
  {
    if i > 0 {
      RunKeepsSuperblock(vs, ops, rs, i - 1);
      RunKeepsInvariant(vs, ops, rs, i - 1);
      assert Step(vs[i - 1], ops[i - 1], vs[i - 1 + 1], rs[i - 1]);
      NextKeepsSuperblock(vs[i - 1], ops[i - 1], vs[i], rs[i - 1]);
    }
  }

  lemma NextKeepsSuperblock(v: Volume, op: Op, v': Volume, r: Outcome)
    requires WellFormed(v) && Admissible(op) && Next(v, op, v', r)
    ensures v'.sb == v.sb && v'.B == v.B
  {
    hide Blocks.DiskWritten, Blocks.NumTarget, Chains.Extended;
  }

  /** A delete that is accepted for a file of two or more blocks. */
  ghost predicate LongDelete(v: Volume, op: Op) {
    && op.Delete? && Deletable(v, op.filename)
    && FindName(v.root, op.filename.value) < |v.chains|
    && |v.chains[FindName(v.root, op.filename.value)]| >= 2
  }

  lemma LostIffLong(v: Volume, op: Op)
    requires WellFormed(v)
    ensures Lost(v, op) == 0 <==> !LongDelete(v, op)
  {
  }

  lemma {:induction false} LostInRunIff(vs: seq<Volume>, ops: seq<Op>, rs: seq<Outcome>, n: nat)
    requires Run(vs, ops, rs) && n <= |ops|
    ensures LostInRun(vs, ops, rs, n) == 0 <==> forall i :: 0 <= i < n ==> !LongDelete(vs[i], ops[i])
  {
    hide Volumes.WellFormed, LongDelete, Lost;
    if n > 0 {
      RunKeepsInvariant(vs, ops, rs, n - 1);
      LostInRunIff(vs, ops, rs, n - 1);
      LostIffLong(vs[n - 1], ops[n - 1]);
    }
  }

  /** A volume without lost blocks has none after a run exactly when no accepted delete was of a file of
      two or more blocks. */
  lemma NothingLostOverRun(vs: seq<Volume>, ops: seq<Op>, rs: seq<Outcome>)
    requires Run(vs, ops, rs) && NothingLost(vs[0])
    ensures WellFormed(vs[|ops|])
    ensures NothingLost(vs[|ops|]) <==> forall i :: 0 <= i < |ops| ==> !LongDelete(vs[i], ops[i])
  {
    hide Volumes.WellFormed, LongDelete, NothingLost;
    RunKeepsInvariant(vs, ops, rs, |ops|);
    RunConserves(vs, ops, rs, |ops|);
    RunKeepsSuperblock(vs, ops, rs, |ops|);
    AccountingIsComplete(vs[0]);
    AccountingIsComplete(vs[|ops|]);
    LostInRunIff(vs, ops, rs, |ops|);
  }

  /** A freshly formatted volume: only entry 0 of the table is taken, and no file exists. */
  ghost function Formatted(B: nat, sb: SuperBlock, disk: seq<Block>): Volume
    requires sb.numData >= 1
  {
    var none: Option<Descriptor> := None;
    Volume(B, sb, disk, [FAT_EOC] + seq(sb.numData - 1, _ => 0),
           seq(FS_FILE_MAX_COUNT, _ => File(Zeros(FS_FILENAME_LEN), 0, 0, Zeros(ROOT_PAD_LEN))),
           seq(FS_OPEN_MAX_COUNT, _ => none), 0, seq(FS_FILE_MAX_COUNT, _ => []))
  }

  /** Runs have a start: a formatted volume is well-formed, and all its blocks but one are free. */
  lemma FormattedIsWellFormed(B: nat, sb: SuperBlock, disk: seq<Block>)
    requires B > 0 && sb.numData >= 1 && BlocksOf(disk, B) && |disk| == sb.numBlocks
    requires sb.dataStart + sb.numData <= sb.numBlocks && sb.rootIndex == sb.numFat + 1 < sb.dataStart
    ensures var v := Formatted(B, sb, disk);
            && WellFormed(v) && NothingLost(v) && FlatOk(Abs(v)) && Abs(v).files == map[]
            && |Free(v.fat)| == sb.numData - 1
  {
    var v := Formatted(B, sb, disk);
    NoneIsOpen(FS_OPEN_MAX_COUNT);
    forall i | 0 <= i < |v.root| ensures 0 in v.root[i].name && !Used(v.root[i]) {
      assert v.root[i].name[0] == 0;
    }
    assert WellFormed(v);
    assert NothingLost(v);
    AbsOk(v);
    assert forall i :: 0 <= i < |v.root| ==> Rows(v)[i] == None;
    NoRows(Rows(v));
    NoLengths(v.chains);
    AccountingIsComplete(v);
  }

  lemma {:induction false} NoneIsOpen(n: nat)
    ensures var none: Option<Descriptor> := None; OpenCount(seq(n, _ => none)) == 0
  {
    var none: Option<Descriptor> := None;
    if n > 0 {
      assert seq(n, _ => none)[..n - 1] == seq(n - 1, _ => none);
      NoneIsOpen(n - 1);
    }
  }

  lemma {:induction false} NoRows(rows: seq<Option<Row>>)
    requires forall i :: 0 <= i < |rows| ==> rows[i] == None
    ensures Table(rows) == map[]
  {
    if rows != [] {
      NoRows(rows[..|rows| - 1]);
    }
  }

  lemma {:induction false} NoLengths(chains: seq<seq<nat>>)
    requires forall i :: 0 <= i < |chains| ==> chains[i] == []
    ensures SumLengths(chains) == 0
  {
    if chains != [] {
      NoLengths(chains[..|chains| - 1]);
    }
  }
}
