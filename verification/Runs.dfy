/** Whole runs: any finite sequence of calls on a mounted volume. */
module Runs {
  import opened Names
  import opened Volumes
  import opened Invariant
  import opened FlatModel
  import opened Refinement

  /** One recorded call: a state the specification covers is followed as specified. */
  ghost predicate Step(v: Volume, op: Op, v': Volume, r: Outcome) {
    Admissible(op) && (WellFormed(v) ==> Next(v, op, v', r))
  }

  /** vs are the states, ops the calls between them and rs their results. Only the first state is
      assumed to be well-formed. */
  ghost predicate Run(vs: seq<Volume>, ops: seq<Op>, rs: seq<Outcome>) {
    && |vs| == |ops| + 1 && |rs| == |ops|
    && WellFormed(vs[0])
    && forall i :: 0 <= i < |ops| ==> Step(vs[i], ops[i], vs[i + 1], rs[i])
  }

  /** Runs are what they are meant to be: one starts at any well-formed volume, and any further call the
      specification allows continues it. */
  lemma RunBegins(v: Volume)
    requires WellFormed(v)
    ensures Run([v], [], [])
  {
  }

  lemma RunGoesOn(vs: seq<Volume>, ops: seq<Op>, rs: seq<Outcome>, op: Op, v': Volume, r: Outcome)
    requires Run(vs, ops, rs) && WellFormed(vs[|ops|]) && Admissible(op) && Next(vs[|ops|], op, v', r)
    ensures Run(vs + [v'], ops + [op], rs + [r])
  {
    hide Volumes.WellFormed, Volumes.Next, Volumes.Admissible;
    forall i | 0 <= i < |ops| + 1
      ensures Step((vs + [v'])[i], (ops + [op])[i], (vs + [v'])[i + 1], (rs + [r])[i])
    {
      assert i < |ops| ==> Step(vs[i], ops[i], vs[i + 1], rs[i]);
    }
  }

  ghost predicate FlatStep(f: Flat, op: Op, f': Flat, r: Outcome) {
    FlatOk(f) && Admissible(op) && FlatNext(f, op, f', r)
  }

  ghost predicate FlatRun(fs: seq<Flat>, ops: seq<Op>, rs: seq<Outcome>) {
    && |fs| == |ops| + 1 && |rs| == |ops| && FlatOk(fs[0])
    && forall i :: 0 <= i < |ops| ==> FlatStep(fs[i], ops[i], fs[i + 1], rs[i])
  }

  /** Safety: every state of every run is well-formed. */
  lemma {:induction false} RunKeepsInvariant(vs: seq<Volume>, ops: seq<Op>, rs: seq<Outcome>, i: nat)
    requires Run(vs, ops, rs) && i < |vs|
    ensures WellFormed(vs[i])
  {
    hide Volumes.WellFormed, Volumes.Next;
    if i > 0 {
      RunKeepsInvariant(vs, ops, rs, i - 1);
      assert Step(vs[i - 1], ops[i - 1], vs[i - 1 + 1], rs[i - 1]);
      NextKeepsWellFormed(vs[i - 1], ops[i - 1], vs[i], rs[i - 1]);
    }
  }

  /** The flat image of a run. */
  ghost function AbsAll(vs: seq<Volume>): (fs: seq<Flat>)
    requires forall i :: 0 <= i < |vs| ==> WellFormed(vs[i])
    ensures |fs| == |vs|
  {
    seq(|vs|, i requires 0 <= i < |vs| => Abs(vs[i]))
  }

  /** Refinement over whole runs: the same calls with the same results and the same bytes read are a run
      of the flat model. */
  lemma RunRefines(vs: seq<Volume>, ops: seq<Op>, rs: seq<Outcome>)
    requires Run(vs, ops, rs)
    ensures forall i :: 0 <= i < |vs| ==> WellFormed(vs[i])
    ensures FlatRun(AbsAll(vs), ops, rs)
  {
    hide Volumes.WellFormed, Volumes.Next, FlatModel.FlatNext, FlatModel.FlatOk, FlatModel.Abs;
    forall i | 0 <= i < |vs| ensures WellFormed(vs[i]) {
      RunKeepsInvariant(vs, ops, rs, i);
    }
    var fs := AbsAll(vs);
    forall i | 0 <= i < |ops| ensures FlatStep(fs[i], ops[i], fs[i + 1], rs[i]) {
      assert Step(vs[i], ops[i], vs[i + 1], rs[i]);
      NextRefines(vs[i], ops[i], vs[i + 1], rs[i]);
    }
    AbsOk(vs[0]);
  }

  // ----- descriptors stay attached -----

  /** A call that does not close fd leaves it open on the same file, which stays in the directory. */
  lemma StepKeepsAttached(f: Flat, op: Op, f': Flat, r: Outcome, fd: int)
    requires FlatStep(f, op, f', r) && FlatOk(f') && FlatFdOpen(f, fd) && op != Op.Close(fd)
    ensures FlatFdOpen(f', fd) && f'.fds[fd].value.name == f.fds[fd].value.name
    ensures f.fds[fd].value.name in f.files && f.fds[fd].value.name in f'.files
  {
  }

  /** A call that does not close fd leaves it on its root slot. */
  lemma StepKeepsSlot(v: Volume, op: Op, v': Volume, r: Outcome, fd: int)
    requires WellFormed(v) && Admissible(op) && Next(v, op, v', r) && FdOpen(v, fd) && op != Op.Close(fd)
    ensures FdOpen(v', fd) && v'.fds[fd].value.file == v.fds[fd].value.file
  {
    hide Blocks.DiskWritten, Blocks.NumTarget, Chains.Extended;
  }

  /** Within a mount, an open descriptor refers to its file until it is closed: the file cannot be deleted,
      and so its entry is not reused. */
  lemma {:induction false} DescriptorStaysAttached(vs: seq<Volume>, ops: seq<Op>, rs: seq<Outcome>, fd: int, i: nat)
    requires Run(vs, ops, rs) && FdOpen(vs[0], fd) && i < |vs|
    requires forall k :: 0 <= k < i ==> ops[k] != Op.Close(fd)
    ensures WellFormed(vs[i]) && FdOpen(vs[i], fd)
    ensures vs[i].fds[fd].value.file == vs[0].fds[fd].value.file
    ensures Used(vs[0].root[vs[0].fds[fd].value.file]) && Used(vs[i].root[vs[i].fds[fd].value.file])
    ensures CName(vs[i].root[vs[i].fds[fd].value.file].name) == CName(vs[0].root[vs[0].fds[fd].value.file].name)
  {
    hide Volumes.Next, FlatModel.FlatNext;
    RunKeepsInvariant(vs, ops, rs, i);
    AbsFdOpen(vs[i], fd);
    if i > 0 {
      var v, v' := vs[i - 1], vs[i];
      DescriptorStaysAttached(vs, ops, rs, fd, i - 1);
      assert Step(v, ops[i - 1], vs[i - 1 + 1], rs[i - 1]);
      NextRefines(v, ops[i - 1], v', rs[i - 1]);
      StepKeepsSlot(v, ops[i - 1], v', rs[i - 1], fd);
      AbsFdOpen(v, fd);
      StepKeepsAttached(Abs(v), ops[i - 1], Abs(v'), rs[i - 1], fd);
    }
  }
}
