/** fs_delete frees blocks in the wrong order: an entry is zeroed before it is followed. When that loop
    ends, what it reclaims, what it loses, and the corrected order. */
module Deletion {
  import opened Types
  import opened Blocks
  import opened Chains
  import opened Names
  import opened Volumes
  import opened Invariant
  import opened Accounting

  // ----- the loop as written -----

  /** The state of the freeing loop. */
  datatype Loop = Loop(fat: seq<u16>, at: u16)

  ghost predicate Running(s: Loop) {
    s.at < |s.fat| && s.fat[s.at] != FAT_EOC
  }

  /** One iteration: the entry is zeroed, and the index to go on with is read from the zeroed entry. */
  ghost function Iterate(s: Loop): Loop
    requires Running(s)
  {
    var fat' := s.fat[s.at as int := 0];
    Loop(fat', fat'[s.at])
  }

  /** The state after n iterations, or after the last one. */
  ghost function After(s: Loop, n: nat): Loop
    decreases n
  {
    if n == 0 || !Running(s) then s else After(Iterate(s), n - 1)
  }

  /** At entry 0 without its reserved mark the loop never leaves. */
  lemma {:induction false} StuckAtZero(s: Loop, n: nat)
    requires s.at == 0 && |s.fat| > 0 && s.fat[0] != FAT_EOC
    ensures Running(After(s, n))
    decreases n
  {
    if n > 0 {
      StuckAtZero(Iterate(s), n - 1);
    }
  }

  /** The loop ends exactly when the file has at most one block or entry 0 still holds its mark: the
      second delete of a longer file within one mount never returns. */
  lemma FreeingEndsIff(v: Volume, slot: int)
    requires WellFormed(v) && 0 <= slot < |v.root| && Used(v.root[slot]) && v.chains[slot] != []
    ensures FreeingEnds(v, slot) <==> exists n :: !Running(After(Loop(v.fat, v.root[slot].first), n))
  {
    var c := v.chains[slot];
    var s := Loop(v.fat, v.root[slot].first);
    assert v.fat[c[0]] == Link(c, 0);
    if |c| == 1 {
      assert !Running(After(s, 0));
    } else {
      var t := Iterate(s);
      assert t.at == 0 && t.fat[0] == v.fat[0];
      if v.fat[0] == FAT_EOC {
        assert After(s, 1) == After(t, 0) == t;
        assert !Running(After(s, 1));
      } else {
        assert Running(s);
        forall n: nat ensures Running(After(s, n)) {
          if n > 0 {
            StuckAtZero(t, n - 1);
          }
        }
      }
    }
  }

  // ----- what is reclaimed -----

  /** Exactly the entries of c have become free. */
  ghost predicate Reclaimed(fat: seq<u16>, fat': seq<u16>, c: seq<nat>) {
    |fat'| == |fat| && forall j :: 0 <= j < |fat| ==> fat'[j] == if j in c then 0 else fat[j]
  }

  /** The documented effect of delete on the table is met exactly for files of at most one block. */
  lemma DeleteReclaimsIff(v: Volume, slot: int)
    requires WellFormed(v) && 0 <= slot < |v.root| && Used(v.root[slot])
    ensures SlotInFat(v, slot)
    ensures Reclaimed(v.fat, DeletedFat(v.fat, v.chains[slot]), v.chains[slot]) <==> |v.chains[slot]| <= 1
  {
    var c := v.chains[slot];
    if |c| > 1 {
      ChainInjective(v.fat, v.root[slot].first, c);
      ChainNotFree(v.fat, v.root[slot].first, c, c[1]);
      assert DeletedFat(v.fat, c)[c[1]] != 0;
    }
  }

  /** A two-block file: its second block stays occupied and entry 0 loses its mark. */
  lemma DeleteLosesBlock()
    ensures var fat := [FAT_EOC, 2, FAT_EOC, 0];
            && IsChain(fat, 1, [1, 2])
            && DeletedFat(fat, [1, 2]) == [0, 0, FAT_EOC, 0]
            && !Reclaimed(fat, DeletedFat(fat, [1, 2]), [1, 2])
  {
    var fat: seq<u16> := [FAT_EOC, 2, FAT_EOC, 0];
    assert fat[[1, 2][0]] == Link([1, 2], 0) && fat[[1, 2][1]] == Link([1, 2], 1);
    assert DeletedFat(fat, [1, 2])[2] == FAT_EOC && 2 in [1, 2];
  }

  /** After the delete of a longer file every block but its first is neither free nor part of any file. */
  lemma DeleteLeaks(v: Volume, filename: Option<CString>, v': Volume, r: Outcome, k: nat)
    requires WellFormed(v) && Deletable(v, filename) && DeleteNext(v, filename, v', r)
    requires 1 <= k < |v.chains[FindName(v.root, filename.value)]|
    ensures var x := v.chains[FindName(v.root, filename.value)][k];
            && x !in Free(v'.fat)
            && forall i :: 0 <= i < |v'.chains| ==> x !in v'.chains[i]
  {
    var slot := FindName(v.root, filename.value);
    var c := v.chains[slot];
    NoNul(filename.value);
    assert Used(v.root[slot]);
    ChainInjective(v.fat, v.root[slot].first, c);
    ChainNotFree(v.fat, v.root[slot].first, c, c[k]);
    FreeFacts(v'.fat);
    assert c[k] in v.chains[slot];
  }

  /** Delete, even as written, touches no other file: names, sizes, chains and bytes stay. */
  lemma DeleteFrame(v: Volume, filename: Option<CString>, v': Volume, r: Outcome, i: int)
    requires WellFormed(v) && Deletable(v, filename) && DeleteNext(v, filename, v', r)
    requires 0 <= i < |v.root| && i != FindName(v.root, filename.value) && Used(v.root[i])
    ensures WellFormed(v') && v'.root[i] == v.root[i]
    ensures v'.chains[i] == v.chains[i] && FileBytes(v', i) == FileBytes(v, i)
  {
    DeleteKeeps(v, filename, v', r);
  }

  // ----- the corrected order -----

  /** The table with every entry of c zeroed. */
  ghost function Cleared(fat: seq<u16>, c: seq<nat>): (r: seq<u16>)
    requires forall k :: 0 <= k < |c| ==> c[k] < |fat|
    ensures |r| == |fat|
    decreases |c|
  {
    if c == [] then fat else Cleared(fat[c[0] := 0], c[1..])
  }

  lemma {:induction false} ClearedReclaims(fat: seq<u16>, c: seq<nat>)
    requires forall k :: 0 <= k < |c| ==> c[k] < |fat|
    ensures Reclaimed(fat, Cleared(fat, c), c)
    decreases |c|
  {
    if c != [] {
      ClearedReclaims(fat[c[0] := 0], c[1..]);
      assert forall j :: j in c <==> j == c[0] || j in c[1..];
    }
  }

  /** Reclaiming one chain leaves every chain disjoint from it as it was. */
  lemma ReclaimedFrame(fat: seq<u16>, fat': seq<u16>, c: seq<nat>, first: u16, d: seq<nat>)
    requires Reclaimed(fat, fat', c) && IsChain(fat, first, d) && forall x :: x in d ==> x !in c
    ensures IsChain(fat', first, d)
  {
    ChainFrame(fat, fat', first, d);
  }

  /** Reclaiming a whole chain raises the free count by its length. */
  lemma {:induction false} ClearedFree(fat: seq<u16>, c: seq<nat>)
    requires forall k :: 0 <= k < |c| ==> 1 <= c[k] < |fat|
    requires forall k :: 0 <= k < |c| ==> fat[c[k]] != 0
    requires Injective(c)
    ensures |Free(Cleared(fat, c))| == |Free(fat)| + |c|
    decreases |c|
  {
    if c != [] {
      var fat' := fat[c[0] := 0];
      FreeRelease(fat, fat', 1, c[0]);
      forall k | 0 <= k < |c[1..]| ensures fat'[c[1..][k]] != 0 {
        assert c[1..][k] == c[k + 1] != c[0];
      }
      ClearedFree(fat', c[1..]);
    }
  }

  /** Not in the source: the freeing loop with the next index saved before the entry is zeroed. It ends
      for every chain, whatever entry 0 holds, and reclaims exactly the file's blocks. */
  method ReclaimChain(fat: array<u16>, first: u16, ghost c: seq<nat>)
    requires fat.Length < FAT_EOC && IsChain(fat[..], first, c)
    modifies fat
    ensures Reclaimed(old(fat[..]), fat[..], c)
    ensures |Free(fat[..])| == |Free(old(fat[..]))| + |c|
  {
    ghost var fat0 := fat[..];
    var at := first;
    ghost var k := 0;
    ChainInjective(fat0, first, c);
    while at != FAT_EOC
      invariant k <= |c| && at == if k < |c| then c[k] else FAT_EOC
      invariant forall j :: 0 <= j < fat.Length ==> fat[j] == if j in c[..k] then 0 else fat0[j]
      decreases |c| - k
    {
      assert fat0[c[k]] == Link(c, k);
      assert c[k] !in c[..k];
      var next := fat[at];
      fat[at] := 0;
      assert c[..k + 1] == c[..k] + [c[k]];
      at := next;
      k := k + 1;
    }
    assert c[..k] == c;
    ClearedReclaims(fat0, c);
    assert fat[..] == Cleared(fat0, c);
    forall i | 0 <= i < |c| ensures fat0[c[i]] != 0 {
      ChainNotFree(fat0, first, c, c[i]);
    }
    ClearedFree(fat0, c);
  }

  /** Not in the source: the volume after a delete in the corrected order. */
  ghost function CorrectlyDeleted(v: Volume, slot: nat): Volume
    requires WellFormed(v) && slot < |v.root| && SlotInFat(v, slot)
  {
    var e := v.root[slot].(name := v.root[slot].name[0 := 0], size := 0, first := FAT_EOC);
    v.(fat := Cleared(v.fat, v.chains[slot]), root := v.root[slot := e], chains := v.chains[slot := []])
  }

  /** The corrected delete of a file that no descriptor refers to keeps the invariant, entry 0 included, and
      every block of every other file. */
  lemma CorrectedKeeps(v: Volume, slot: nat)
    requires WellFormed(v) && slot < |v.root| && Used(v.root[slot]) && !SlotOpen(v, slot)
    ensures SlotInFat(v, slot) && WellFormed(CorrectlyDeleted(v, slot))
    ensures var v' := CorrectlyDeleted(v, slot);
            && v'.fat[0] == v.fat[0]
            && forall i :: 0 <= i < |v.root| && i != slot ==>
                 v'.root[i] == v.root[i] && v'.chains[i] == v.chains[i] && FileBytes(v', i) == FileBytes(v, i)
  {
    var c := v.chains[slot];
    assert IsChain(v.fat, v.root[slot].first, c);
    var v' := CorrectlyDeleted(v, slot);
    ClearedReclaims(v.fat, c);
    forall i | 0 <= i < |v.root| && i != slot && Used(v.root[i])
      ensures IsChain(v'.fat, v'.root[i].first, v'.chains[i])
    {
      ReclaimedFrame(v.fat, v'.fat, c, v.root[i].first, v.chains[i]);
    }
    assert v'.root[slot].name[0] == 0;
    assert 0 !in c;
    forall i | 0 <= i < |v.root| && i != slot ensures v'.root[i] == v.root[i] {
    }
    assert EntriesOk(v'.root) && NamesUnique(v'.root);
    assert FdsOk(v'.fds, v'.root);
  }

  /** The corrected delete loses nothing: the blocks it takes from the file are free. */
  lemma CorrectedAccounts(v: Volume, slot: nat)
    requires WellFormed(v) && slot < |v.root| && Used(v.root[slot]) && SlotInFat(v, slot)
    ensures Accounted(CorrectlyDeleted(v, slot)) == Accounted(v)
  {
    var c := v.chains[slot];
    ChainInjective(v.fat, v.root[slot].first, c);
    forall k | 0 <= k < |c| ensures v.fat[c[k]] != 0 {
      ChainNotFree(v.fat, v.root[slot].first, c, c[k]);
    }
    ClearedFree(v.fat, c);
    SumUpdate(v.chains, slot, []);
  }

  /** The delete of the source is the corrected one exactly for files of at most one block. */
  lemma SourceIsCorrectedIff(v: Volume, filename: Option<CString>, v': Volume, r: Outcome)
    requires WellFormed(v) && Deletable(v, filename) && DeleteNext(v, filename, v', r)
    ensures var slot := FindName(v.root, filename.value);
            SlotInFat(v, slot) && (v' == CorrectlyDeleted(v, slot) <==> |v.chains[slot]| <= 1)
  {
    var slot := FindName(v.root, filename.value);
    NoNul(filename.value);
    assert Used(v.root[slot]);
    DeleteReclaimsIff(v, slot);
    ClearedReclaims(v.fat, v.chains[slot]);
    ReclaimedUnique(v.fat, v'.fat, Cleared(v.fat, v.chains[slot]), v.chains[slot]);
  }

  lemma ReclaimedUnique(fat: seq<u16>, f1: seq<u16>, f2: seq<u16>, c: seq<nat>)
    requires |f1| == |fat| && Reclaimed(fat, f2, c)
    ensures f1 == f2 <==> Reclaimed(fat, f1, c)
  {
    if Reclaimed(fat, f1, c) {
      forall j | 0 <= j < |fat| ensures f1[j] == f2[j] {
      }
    }
  }
}
