/** The file allocation table: linked lists of data blocks threaded through one array. */
module Chains {
  import opened Types

  /** What the entry of the k-th block of a chain must hold. */
  ghost function Link(c: seq<nat>, k: nat): int {
    if k + 1 < |c| then c[k + 1] else FAT_EOC
  }

  /** Starting at first, the table links exactly the blocks of c, in order, and ends in FAT_EOC.
      Block 0 is reserved and never part of a chain. */
  ghost predicate IsChain(fat: seq<u16>, first: u16, c: seq<nat>) {
    && first == (if c == [] then FAT_EOC else c[0])
    && (forall k :: 0 <= k < |c| ==> 1 <= c[k] < |fat|)
    && (forall k {:trigger fat[c[k]]} :: 0 <= k < |c| ==> fat[c[k]] == Link(c, k))
  }

  /** Chains never meet themselves: the walk from the first block is acyclic. */
  lemma {:induction false} ChainAcyclic(fat: seq<u16>, first: u16, c: seq<nat>, i: nat, j: nat)
    requires IsChain(fat, first, c) && |fat| <= FAT_EOC && i < j < |c|
    ensures c[i] != c[j]
    decreases |c| - j
  {
    assert fat[c[i]] == c[i + 1] && fat[c[j]] == Link(c, j);
    if c[i] == c[j] && j + 1 < |c| {
      ChainAcyclic(fat, first, c, i + 1, j + 1);
    }
  }

  lemma ChainInjective(fat: seq<u16>, first: u16, c: seq<nat>)
    requires IsChain(fat, first, c) && |fat| <= FAT_EOC
    ensures forall i, j :: 0 <= i < j < |c| ==> c[i] != c[j]
  {
    forall i, j | 0 <= i < j < |c| ensures c[i] != c[j] {
      ChainAcyclic(fat, first, c, i, j);
    }
  }

  /** The table and the first index determine the chain. */
  lemma {:induction false} ChainUnique(fat: seq<u16>, first: u16, c: seq<nat>, d: seq<nat>)
    requires IsChain(fat, first, c) && IsChain(fat, first, d) && |fat| <= FAT_EOC
    ensures c == d
    decreases |c|
  {
    if c != [] && d != [] {
      var next: u16 := fat[c[0]];
      assert fat[d[0]] == Link(d, 0);
      ChainTail(fat, first, c);
      ChainTail(fat, first, d);
      ChainUnique(fat, next, c[1..], d[1..]);
      assert c == [c[0]] + c[1..] && d == [d[0]] + d[1..];
    }
  }

  lemma ChainTail(fat: seq<u16>, first: u16, c: seq<nat>)
    requires IsChain(fat, first, c) && c != []
    ensures IsChain(fat, fat[c[0]], c[1..])
  {
    assert fat[c[0]] == Link(c, 0);
    var d := c[1..];
    forall k | 0 <= k < |d| ensures fat[d[k]] == Link(d, k) {
      assert fat[c[k + 1]] == Link(c, k + 1);
    }
  }

  /** A chain survives any change to entries outside it. */
  lemma ChainFrame(fat: seq<u16>, fat': seq<u16>, first: u16, c: seq<nat>)
    requires IsChain(fat, first, c) && |fat'| == |fat|
    requires forall j :: 0 <= j < |fat| && j in c ==> fat'[j] == fat[j]
    ensures IsChain(fat', first, c)
  {
    forall k | 0 <= k < |c| ensures fat'[c[k]] == Link(c, k) {
      assert c[k] in c;
      assert fat[c[k]] == Link(c, k);
    }
  }

  /** The blocks of a chain are not free. */
  lemma ChainNotFree(fat: seq<u16>, first: u16, c: seq<nat>, j: nat)
    requires IsChain(fat, first, c) && j in c
    ensures 1 <= j < |fat| && fat[j] != 0
  {
    var k :| 0 <= k < |c| && c[k] == j;
    assert fat[c[k]] == Link(c, k);
  }

  // ----- free entries -----

  /** The free entries from index i on, in ascending order. */
  ghost function FreeFrom(fat: seq<u16>, i: nat): seq<nat>
    decreases |fat| - i
  {
    if i >= |fat| then [] else (if fat[i] == 0 then [i] else []) + FreeFrom(fat, i + 1)
  }

  ghost predicate Ascending(s: seq<nat>) {
    forall a, b :: 0 <= a < b < |s| ==> s[a] < s[b]
  }

  lemma {:induction false} FreeFromMembers(fat: seq<u16>, i: nat, j: nat)
    ensures j in FreeFrom(fat, i) <==> i <= j < |fat| && fat[j] == 0
    decreases |fat| - i
  {
    if i < |fat| {
      FreeFromMembers(fat, i + 1, j);
    }
  }

  lemma {:induction false} FreeFromAscending(fat: seq<u16>, i: nat)
    ensures Ascending(FreeFrom(fat, i))
    decreases |fat| - i
  {
    if i < |fat| {
      var rest := FreeFrom(fat, i + 1);
      FreeFromAscending(fat, i + 1);
      forall a | 0 <= a < |rest| ensures i < rest[a] {
        FreeFromMembers(fat, i + 1, rest[a]);
      }
    }
  }

  /** The length of the free list is the number of zero entries. */
  lemma {:induction false} FreeFromCount(fat: seq<u16>, i: nat)
    ensures |FreeFrom(fat, i)| == |set j | i <= j < |fat| && fat[j] == 0|
    decreases |fat| - i
  {
    var s := set j | i <= j < |fat| && fat[j] == 0;
    if i < |fat| {
      FreeFromCount(fat, i + 1);
      var t := set j | i + 1 <= j < |fat| && fat[j] == 0;
      assert s == if fat[i] == 0 then t + {i} else t;
    } else {
      assert s == {};
    }
  }

  /** The allocatable entries: free, and not the reserved entry 0. */
  ghost function Free(fat: seq<u16>): seq<nat> {
    FreeFrom(fat, 1)
  }

  /** The free list holds exactly the free indices, in ascending order. */
  lemma FreeFacts(fat: seq<u16>)
    ensures forall j: nat :: j in Free(fat) <==> 1 <= j < |fat| && fat[j] == 0
    ensures Ascending(Free(fat))
  {
    FreeFromAscending(fat, 1);
    forall j: nat ensures j in Free(fat) <==> 1 <= j < |fat| && fat[j] == 0 {
      FreeFromMembers(fat, 1, j);
    }
  }

  lemma {:induction false} FreeUnchanged(fat: seq<u16>, fat': seq<u16>, i: nat)
    requires |fat'| == |fat|
    requires forall j :: i <= j < |fat| ==> (fat'[j] == 0 <==> fat[j] == 0)
    ensures FreeFrom(fat', i) == FreeFrom(fat, i)
    decreases |fat| - i
  {
    if i < |fat| {
      FreeUnchanged(fat, fat', i + 1);
    }
  }

  /** Occupying the least free entry removes the head of the free list. */
  lemma {:induction false} FreeTake(fat: seq<u16>, fat': seq<u16>, i: nat, x: nat)
    requires |fat'| == |fat| && i <= x < |fat|
    requires fat[x] == 0 && fat'[x] != 0 && forall j :: i <= j < x ==> fat[j] != 0
    requires forall j :: i <= j < |fat| && j != x ==> (fat'[j] == 0 <==> fat[j] == 0)
    ensures FreeFrom(fat, i) == [x] + FreeFrom(fat', i)
    decreases x - i
  {
    if i == x {
      FreeUnchanged(fat, fat', i + 1);
    } else {
      FreeTake(fat, fat', i + 1, x);
    }
  }

  /** Releasing one entry adds one element to the free list. */
  lemma {:induction false} FreeRelease(fat: seq<u16>, fat': seq<u16>, i: nat, x: nat)
    requires |fat'| == |fat| && i <= x < |fat|
    requires fat[x] != 0 && fat'[x] == 0
    requires forall j :: i <= j < |fat| && j != x ==> (fat'[j] == 0 <==> fat[j] == 0)
    ensures |FreeFrom(fat', i)| == |FreeFrom(fat, i)| + 1
    decreases x - i
  {
    if i == x {
      FreeUnchanged(fat, fat', i + 1);
    } else {
      FreeRelease(fat, fat', i + 1, x);
    }
  }

  // ----- allocation -----

  /** The blocks allocation adds to a chain of length len so that it reaches target blocks:
      the smallest free indices, as many as are needed or all there are. */
  ghost function Fresh(fat: seq<u16>, len: nat, target: nat): seq<nat> {
    Free(fat)[..Min(Max(0, target - len), |Free(fat)|)]
  }

  /** fat' is fat with the chain c extended by added, and nothing else changed. */
  ghost predicate Extended(fat: seq<u16>, fat': seq<u16>, first': u16, c: seq<nat>, added: seq<nat>) {
    && |fat'| == |fat|
    && IsChain(fat', first', c + added)
    && forall j :: 0 <= j < |fat| && j !in c && j !in added ==> fat'[j] == fat[j]
  }

  /** Linking a free block i behind the last block of a chain. */
  lemma AppendBlock(fat: seq<u16>, first: u16, c: seq<nat>, i: u16)
    requires IsChain(fat, first, c) && |fat| <= FAT_EOC && c != []
    requires 1 <= i < |fat| && fat[i] == 0
    ensures IsChain(fat[c[|c| - 1] := i][i as int := FAT_EOC], first, c + [i])
  {
    var n := |c| - 1;
    var fat' := fat[c[n] := i][i as int := FAT_EOC];
    var d := c + [i];
    ChainInjective(fat, first, c);
    forall k | 0 <= k < |d| ensures fat'[d[k]] == Link(d, k) {
      if k < |c| {
        assert fat[c[k]] == Link(c, k);
        assert c[k] != i;
      }
    }
  }

  /** The chain c of fat0 has been extended by the first n free blocks of fat0. */
  ghost predicate Grown(fat0: seq<u16>, fat: seq<u16>, first: u16, c: seq<nat>, n: nat) {
    n <= |Free(fat0)| && Extended(fat0, fat, first, c, Free(fat0)[..n])
  }

  /** A chain that has been extended by nothing. */
  lemma GrownNone(fat: seq<u16>, first: u16, c: seq<nat>)
    requires IsChain(fat, first, c)
    ensures c + Free(fat)[..0] == c && Grown(fat, fat, first, c, 0)
    ensures Fresh(fat, |c|, 0) == Free(fat)[..0]
  {
  }

  ghost predicate LeastFreeEntry(fat: seq<u16>, i: nat) {
    1 <= i < |fat| && fat[i] == 0 && forall j :: 1 <= j < i ==> fat[j] != 0
  }

  /** Taking the least free entry as the first block of an empty chain. */
  lemma GrowFirst(fat: seq<u16>, i: u16)
    requires LeastFreeEntry(fat, i)
    ensures Grown(fat, fat[i as int := FAT_EOC], i, [], 1)
  {
    FreeHead(fat, i);
    assert [] + Free(fat)[..1] == [i as nat];
  }

  lemma FreeHead(fat: seq<u16>, i: nat)
    requires LeastFreeEntry(fat, i)
    ensures Free(fat) != [] && Free(fat)[0] == i
  {
    FreeFacts(fat);
    assert i in Free(fat);
    var a :| 0 <= a < |Free(fat)| && Free(fat)[a] == i;
    assert Free(fat)[0] in Free(fat);
  }

  /** b is the last block of the chain c extended by the first n free blocks of fat0. */
  ghost predicate Tail(fat0: seq<u16>, c: seq<nat>, n: nat, b: nat) {
    n <= |Free(fat0)| && |c| + n >= 1 && b == (c + Free(fat0)[..n])[|c| + n - 1]
  }

  /** The least free entry is the next block of the original free list. */
  lemma GrowHead(fat0: seq<u16>, first0: u16, fat: seq<u16>, first: u16, c: seq<nat>, n: nat, i: u16)
    requires IsChain(fat0, first0, c) && Grown(fat0, fat, first, c, n) && LeastFreeEntry(fat, i)
    ensures n < |Free(fat0)| && Free(fat0)[n] == i
    ensures Free(fat0)[..n + 1] == Free(fat0)[..n] + [i as nat]
  {
    ExtendFree(fat0, fat, first0, first, c, n);
    FreeHead(fat, i);
  }

  lemma LinkFrame(fat0: seq<u16>, fat: seq<u16>, first: u16, c: seq<nat>, added: seq<nat>, b: u16, i: u16)
    requires |fat0| <= FAT_EOC && Extended(fat0, fat, first, c, added) && c + added != []
    requires b == (c + added)[|c + added| - 1] && 1 <= i < |fat| && fat[i] == 0
    ensures b < |fat|
    ensures Extended(fat0, fat[b as int := i][i as int := FAT_EOC], first, c, added + [i as nat])
  {
    var cur := c + added;
    AppendBlock(fat, first, cur, i);
    assert c + (added + [i as nat]) == cur + [i as nat];
    assert b in cur;
  }

  /** Linking the least free entry behind the last block takes the next block of the free list. */
  lemma GrowNext(fat0: seq<u16>, first0: u16, fat: seq<u16>, first: u16, c: seq<nat>, n: nat, b: u16, i: u16)
    requires IsChain(fat0, first0, c) && |fat0| <= FAT_EOC
    requires Grown(fat0, fat, first, c, n) && Tail(fat0, c, n, b) && LeastFreeEntry(fat, i)
    ensures n < |Free(fat0)| && b < |fat|
    ensures Grown(fat0, fat[b as int := i][i as int := FAT_EOC], first, c, n + 1)
    ensures Tail(fat0, c, n + 1, i)
  {
    GrowHead(fat0, first0, fat, first, c, n, i);
    LinkFrame(fat0, fat, first, c, Free(fat0)[..n], b, i);
  }

  lemma EmptyOrHead(s: seq<nat>)
    ensures s == [] || s[0] in s
  {
  }

  /** When no free entry is left, all of them have been appended. */
  lemma GrowEnd(fat0: seq<u16>, first0: u16, fat: seq<u16>, first: u16, c: seq<nat>, n: nat)
    requires IsChain(fat0, first0, c) && Grown(fat0, fat, first, c, n)
    requires forall j :: 1 <= j < |fat| ==> fat[j] != 0
    ensures n == |Free(fat0)|
  {
    ExtendFree(fat0, fat, first0, first, c, n);
    FreeFacts(fat);
    EmptyOrHead(Free(fat));
  }

  /** A chain disjoint from c and from the added blocks is not touched by extending c. */
  lemma ExtendFrame(fat: seq<u16>, fat': seq<u16>, first': u16, c: seq<nat>, added: seq<nat>, g: u16, d: seq<nat>)
    requires Extended(fat, fat', first', c, added) && IsChain(fat, g, d)
    requires forall x :: x in added ==> x in Free(fat)
    requires forall x :: x in d ==> x !in c
    ensures IsChain(fat', g, d)
    ensures forall x :: x in d ==> x !in c + added
  {
    FreeFacts(fat);
    forall x | x in d ensures x !in added {
      ChainNotFree(fat, g, d, x);
    }
    ChainFrame(fat, fat', g, d);
  }

  lemma AscendingSplit(s: seq<nat>, n: nat, j: nat)
    requires n <= |s| && Ascending(s)
    ensures j in s[n..] <==> j in s && j !in s[..n]
  {
    if j in s {
      var a :| 0 <= a < |s| && s[a] == j;
      if a < n {
        assert s[..n][a] == j;
      } else {
        assert s[n..][a - n] == j;
      }
    }
  }

  lemma AscendingPrefix(s: seq<nat>, n: nat, k: nat, j: nat)
    requires k < n <= |s| && Ascending(s) && j in s && j < s[k]
    ensures j in s[..n]
  {
    var a :| 0 <= a < |s| && s[a] == j;
    assert a < k && s[..n][a] == j;
  }

  /** The first n free blocks: the n smallest zero entries from 1 on, in ascending order. */
  lemma FirstFree(fat: seq<u16>, n: nat)
    requires n <= |Free(fat)|
    ensures var s := Free(fat)[..n];
            && (forall k :: 0 <= k < n ==> 1 <= s[k] < |fat| && fat[s[k]] == 0)
            && (forall k, l :: 0 <= k < l < n ==> s[k] < s[l])
            && (forall k, j :: 0 <= k < n && 1 <= j < s[k] && fat[j] == 0 ==> j in s)
            && (n == |Free(fat)| ==> forall j :: 1 <= j < |fat| && fat[j] == 0 ==> j in s)
  {
    var free := Free(fat);
    FreeFacts(fat);
    forall k | 0 <= k < n ensures 1 <= free[k] < |fat| && fat[free[k]] == 0 {
      assert free[k] in free;
    }
    forall k, j | 0 <= k < n && 1 <= j < free[k] && fat[j] == 0 ensures j in free[..n] {
      assert j < |fat|;
      AscendingPrefix(free, n, k, j);
    }
    assert free[..|free|] == free;
  }

  /** After an extension the entry j is free exactly when it was free and was not added. */
  lemma ExtendFreeAt(fat: seq<u16>, fat': seq<u16>, first: u16, first': u16, c: seq<nat>, added: seq<nat>, j: nat)
    requires IsChain(fat, first, c) && Extended(fat, fat', first', c, added)
    requires 1 <= j < |fat|
    ensures fat'[j] == 0 <==> fat[j] == 0 && j !in added
  {
    if j in c + added {
      ChainNotFree(fat', first', c + added, j);
      if j in c {
        ChainNotFree(fat, first, c, j);
      }
    }
  }

  /** Extending a chain by the first n free blocks leaves exactly the other free blocks. */
  lemma ExtendFree(fat: seq<u16>, fat': seq<u16>, first: u16, first': u16, c: seq<nat>, n: nat)
    requires IsChain(fat, first, c) && n <= |Free(fat)| && Extended(fat, fat', first', c, Free(fat)[..n])
    ensures Free(fat') == Free(fat)[n..]
  {
    var free := Free(fat);
    FreeFacts(fat);
    FreeFacts(fat');
    forall j: nat ensures j in Free(fat') <==> j in free[n..] {
      AscendingSplit(free, n, j);
      if 1 <= j < |fat| {
        ExtendFreeAt(fat, fat', first, first', c, free[..n], j);
      }
    }
    AscendingUnique(Free(fat'), free[n..]);
  }

  /** Two ascending lists with the same members are equal. */
  lemma {:induction false} AscendingUnique(r: seq<nat>, s: seq<nat>)
    requires Ascending(r) && Ascending(s)
    requires forall x :: x in r <==> x in s
    ensures r == s
  {
    if |s| > 0 {
      assert s[0] in s;
    }
    if |r| > 0 {
      assert r[0] in r;
      var a :| 0 <= a < |s| && s[a] == r[0];
      var b :| 0 <= b < |r| && r[b] == s[0];
      assert r[0] == s[0];
      forall x ensures x in r[1..] <==> x in s[1..] {
        if x in r[1..] {
          assert x in s && x != s[0];
        }
        if x in s[1..] {
          assert x in r && x != r[0];
        }
      }
      AscendingUnique(r[1..], s[1..]);
    }
  }
}
