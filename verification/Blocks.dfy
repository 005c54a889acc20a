/** A byte range of a file as blocks on disk: the flat contents of a chain, overwriting a
    range, and the head / whole blocks / tail split used by fs_write and fs_read. */
module Blocks {
  import opened Types

  /** Every data block named by c lies on the disk. */
  ghost predicate OnDisk(disk: seq<Block>, ds: nat, c: seq<nat>) {
    forall k :: 0 <= k < |c| ==> ds + c[k] < |disk|
  }

  ghost predicate BlocksOf(disk: seq<Block>, B: nat) {
    forall i :: 0 <= i < |disk| ==> |disk[i]| == B
  }

  ghost predicate Injective(c: seq<nat>) {
    forall i, j :: 0 <= i < j < |c| ==> c[i] != c[j]
  }

  /** The bytes of the data blocks listed in c, one block after the other. */
  ghost function Contents(disk: seq<Block>, ds: nat, c: seq<nat>): seq<byte>
    requires OnDisk(disk, ds, c)
  {
    if c == [] then [] else disk[ds + c[0]] + Contents(disk, ds, c[1..])
  }

  /** s with the bytes from position i on replaced by t. */
  function Splice(s: seq<byte>, i: nat, t: seq<byte>): (r: seq<byte>)
    requires i + |t| <= |s|
    ensures |r| == |s|
  {
    s[..i] + t + s[i + |t|..]
  }

  lemma {:induction false} ContentsLength(disk: seq<Block>, ds: nat, c: seq<nat>, B: nat)
    requires OnDisk(disk, ds, c) && BlocksOf(disk, B)
    ensures |Contents(disk, ds, c)| == |c| * B
  {
    if c != [] {
      ContentsLength(disk, ds, c[1..], B);
      assert |c| * B == B + (|c| - 1) * B;
    }
  }

  lemma {:induction false} ContentsAppend(disk: seq<Block>, ds: nat, c: seq<nat>, d: seq<nat>)
    requires OnDisk(disk, ds, c) && OnDisk(disk, ds, d)
    ensures OnDisk(disk, ds, c + d)
    ensures Contents(disk, ds, c + d) == Contents(disk, ds, c) + Contents(disk, ds, d)
  {
    if c == [] {
      assert c + d == d;
    } else {
      ContentsAppend(disk, ds, c[1..], d);
      assert (c + d)[1..] == c[1..] + d;
    }
  }

  lemma {:induction false} ContentsFrame(disk: seq<Block>, disk': seq<Block>, ds: nat, c: seq<nat>)
    requires OnDisk(disk, ds, c) && OnDisk(disk', ds, c)
    requires forall k :: 0 <= k < |c| ==> disk'[ds + c[k]] == disk[ds + c[k]]
    ensures Contents(disk', ds, c) == Contents(disk, ds, c)
  {
    if c != [] {
      assert disk'[ds + c[0]] == disk[ds + c[0]];
      forall k | 0 <= k < |c[1..]| ensures disk'[ds + c[1..][k]] == disk[ds + c[1..][k]] {
        assert c[1..][k] == c[k + 1];
      }
      ContentsFrame(disk, disk', ds, c[1..]);
    }
  }

  lemma ContentsSplit(disk: seq<Block>, ds: nat, c: seq<nat>, k: nat)
    requires OnDisk(disk, ds, c) && k < |c|
    ensures OnDisk(disk, ds, c[..k]) && OnDisk(disk, ds, c[k + 1..])
    ensures Contents(disk, ds, c) == Contents(disk, ds, c[..k]) + disk[ds + c[k]] + Contents(disk, ds, c[k + 1..])
  {
    assert c == c[..k] + c[k..];
    ContentsAppend(disk, ds, c[..k], c[k..]);
    assert c[k..][1..] == c[k + 1..];
  }

  /** Block k of the file is bytes k*B up to (k+1)*B of its contents. */
  lemma ContentsBlock(disk: seq<Block>, ds: nat, c: seq<nat>, k: nat, B: nat)
    requires OnDisk(disk, ds, c) && BlocksOf(disk, B) && k < |c|
    ensures |Contents(disk, ds, c)| == |c| * B && k * B + B <= |c| * B
    ensures Contents(disk, ds, c)[k * B..k * B + B] == disk[ds + c[k]]
  {
    ContentsSplit(disk, ds, c, k);
    ContentsLength(disk, ds, c[..k], B);
    ContentsLength(disk, ds, c[k + 1..], B);
    ContentsLength(disk, ds, c, B);
    assert |c| * B == k * B + B + (|c| - k - 1) * B;
  }

  /** Rewriting block x leaves the contents of chains without x alone. */
  lemma UpdateFrame(disk: seq<Block>, ds: nat, d: seq<nat>, x: nat, block: Block)
    requires OnDisk(disk, ds, d) && ds + x < |disk| && x !in d
    ensures OnDisk(disk[ds + x := block], ds, d)
    ensures Contents(disk[ds + x := block], ds, d) == Contents(disk, ds, d)
  {
    ContentsFrame(disk, disk[ds + x := block], ds, d);
  }

  lemma SpliceMiddle(a: seq<byte>, b: seq<byte>, c: seq<byte>, b': seq<byte>)
    requires |b| == |b'|
    ensures Splice(a + b + c, |a|, b') == a + b' + c
  {
  }

  /** Rewriting block k of the file on disk splices that block into the contents. */
  lemma ContentsUpdate(disk: seq<Block>, ds: nat, c: seq<nat>, k: nat, block: Block, B: nat)
    requires OnDisk(disk, ds, c) && BlocksOf(disk, B) && k < |c| && Injective(c) && |block| == B
    ensures k * B + B <= |Contents(disk, ds, c)|
    ensures var disk' := disk[ds + c[k] := block];
            OnDisk(disk', ds, c) && Contents(disk', ds, c) == Splice(Contents(disk, ds, c), k * B, block)
  {
    var disk' := disk[ds + c[k] := block];
    ContentsSplit(disk, ds, c, k);
    ContentsSplit(disk', ds, c, k);
    UpdateFrame(disk, ds, c[..k], c[k], block);
    UpdateFrame(disk, ds, c[k + 1..], c[k], block);
    ContentsLength(disk, ds, c[..k], B);
    SpliceMiddle(Contents(disk, ds, c[..k]), disk[ds + c[k]], Contents(disk, ds, c[k + 1..]), block);
  }

  /** Splicing into one block and putting the block back is splicing into the whole. */
  lemma SpliceNested(s: seq<byte>, p: nat, n: nat, i: nat, t: seq<byte>)
    requires p + n <= |s| && i + |t| <= n
    ensures Splice(s, p, Splice(s[p..p + n], i, t)) == Splice(s, p + i, t)
  {
    var u := s[p..p + n];
    assert u[..i] == s[p..p + i];
    assert u[i + |t|..] == s[p + i + |t|..p + n];
    assert s[..p] + s[p..p + i] == s[..p + i];
    assert s[p + i + |t|..p + n] + s[p + n..] == s[p + i + |t|..];
  }

  /** Two adjacent splices are one splice of both pieces. */
  lemma SpliceAppend(s: seq<byte>, i: nat, t: seq<byte>, u: seq<byte>)
    requires i + |t| + |u| <= |s|
    ensures Splice(Splice(s, i, t), i + |t|, u) == Splice(s, i, t + u)
  {
    var r := Splice(s, i, t);
    assert r[..i + |t|] == s[..i] + t;
    assert r[i + |t| + |u|..] == s[i + |t| + |u|..];
  }

  /** disk' is disk with data written over the bytes of the chain c from position off on; every
      block outside the chain keeps its bytes. */
  ghost predicate DiskWritten(disk: seq<Block>, disk': seq<Block>, ds: nat, c: seq<nat>, off: nat, data: seq<byte>, B: nat) {
    && |disk'| == |disk| && BlocksOf(disk', B)
    && OnDisk(disk, ds, c)
    && (forall i :: 0 <= i < |disk| && (i < ds || i - ds !in c) ==> disk'[i] == disk[i])
    && if data == [] then disk' == disk
       else off + |data| <= |Contents(disk, ds, c)| && Contents(disk', ds, c) == Splice(Contents(disk, ds, c), off, data)
  }

  /** Overwriting part of block k on disk overwrites that part of the file's bytes. */
  lemma WritePart(disk: seq<Block>, ds: nat, c: seq<nat>, k: nat, inner: nat, data: seq<byte>, B: nat, at: nat)
    requires BlocksOf(disk, B) && OnDisk(disk, ds, c) && Injective(c) && k < |c|
    requires at == k * B + inner && inner + |data| <= B
    ensures at + |data| <= |Contents(disk, ds, c)| && |disk[ds + c[k]]| == B
    ensures var disk' := disk[ds + c[k] := Splice(disk[ds + c[k]], inner, data)];
            && OnDisk(disk', ds, c) && BlocksOf(disk', B)
            && Contents(disk', ds, c) == Splice(Contents(disk, ds, c), at, data)
  {
    ContentsUpdate(disk, ds, c, k, Splice(disk[ds + c[k]], inner, data), B);
    ContentsBlock(disk, ds, c, k, B);
    SpliceNested(Contents(disk, ds, c), k * B, B, inner, data);
  }

  /** Overwriting part of block k, where the bytes written so far end, extends the written range. */
  lemma WriteStep(disk: seq<Block>, disk': seq<Block>, ds: nat, c: seq<nat>, off: nat, done: seq<byte>,
                  k: nat, inner: nat, data: seq<byte>, B: nat)
    requires BlocksOf(disk, B) && Injective(c) && DiskWritten(disk, disk', ds, c, off, done, B)
    requires k < |c| && off + |done| == k * B + inner && inner + |data| <= B && data != []
    ensures ds + c[k] < |disk'| && |disk'[ds + c[k]]| == B
    ensures DiskWritten(disk, disk'[ds + c[k] := Splice(disk'[ds + c[k]], inner, data)], ds, c, off, done + data, B)
  {
    assert c[k] in c;
    assert ds + c[k] < |disk|;
    WritePart(disk', ds, c, k, inner, data, B, off + |done|);
    WriteJoin(disk, disk', ds, c, off, done, data, B, disk'[ds + c[k] := Splice(disk'[ds + c[k]], inner, data)]);
  }

  lemma WriteJoin(disk: seq<Block>, disk': seq<Block>, ds: nat, c: seq<nat>, off: nat, done: seq<byte>, data: seq<byte>,
                  B: nat, disk'': seq<Block>)
    requires BlocksOf(disk, B) && DiskWritten(disk, disk', ds, c, off, done, B) && data != []
    requires |disk''| == |disk| && BlocksOf(disk'', B)
    requires forall i :: 0 <= i < |disk| && (i < ds || i - ds !in c) ==> disk''[i] == disk'[i]
    requires off + |done| + |data| <= |Contents(disk', ds, c)|
    requires Contents(disk'', ds, c) == Splice(Contents(disk', ds, c), off + |done|, data)
    ensures DiskWritten(disk, disk'', ds, c, off, done + data, B)
  {
    if done != [] {
      SpliceAppend(Contents(disk, ds, c), off, done, data);
    } else {
      assert done + data == data;
    }
  }

  /** data is the part of the file's bytes that starts at position at. */
  ghost predicate IsPart(disk: seq<Block>, ds: nat, c: seq<nat>, at: nat, data: seq<byte>) {
    && OnDisk(disk, ds, c)
    && (data != [] ==> at + |data| <= |Contents(disk, ds, c)| && data == Contents(disk, ds, c)[at..at + |data|])
  }

  /** A piece of block k is that part of the file's bytes. */
  lemma ReadPart(disk: seq<Block>, ds: nat, c: seq<nat>, k: nat, inner: nat, n: nat, B: nat, at: nat)
    requires BlocksOf(disk, B) && OnDisk(disk, ds, c) && k < |c| && at == k * B + inner && inner + n <= B
    ensures |disk[ds + c[k]]| == B && IsPart(disk, ds, c, at, disk[ds + c[k]][inner..inner + n])
  {
    ContentsBlock(disk, ds, c, k, B);
    var D := Contents(disk, ds, c);
    assert D[k * B..k * B + B][inner..inner + n] == D[at..at + n];
  }

  lemma PartJoin(disk: seq<Block>, ds: nat, c: seq<nat>, at: nat, data: seq<byte>, more: seq<byte>)
    requires IsPart(disk, ds, c, at, data) && IsPart(disk, ds, c, at + |data|, more)
    ensures IsPart(disk, ds, c, at, data + more)
  {
    if data == [] {
      assert data + more == more;
    } else if more == [] {
      assert data + more == data;
    }
  }

  // ----- the split of a transfer -----

  /** find_num_target_blocks: blocks 0 up to the result (exclusive) hold bytes 0 up to off + count. */
  function NumTarget(off: nat, count: nat, B: nat): nat
    requires B > 0
  {
    var data := off + count;
    DivBounds(data, B);
    data / B + (if data % B != 0 then 1 else 0)
  }

  /** The target is the least number of blocks that covers the transfer. */
  lemma NumTargetBounds(off: nat, count: nat, B: nat)
    requires B > 0
    ensures var t := NumTarget(off, count, B);
            off + count <= t * B && (t > 0 ==> (t - 1) * B < off + count)
  {
    DivBounds(off + count, B);
  }

  lemma DivBounds(x: nat, B: nat)
    requires B > 0
    ensures x / B >= 0 && 0 <= x % B < B
    ensures x == (x / B) * B + x % B
    ensures (x / B + 1) * B == (x / B) * B + B
    ensures (x / B - 1) * B == (x / B) * B - B
  {
  }

  lemma MulOrder(a: nat, b: nat, B: nat)
    requires B > 0
    ensures a <= b <==> a * B <= b * B
    ensures a == 0 <==> a * B == 0
  {
    if a <= b {
      assert b * B == a * B + (b - a) * B;
    } else {
      MulAtLeast(a - b, B);
      assert a * B == b * B + (a - b) * B;
    }
    if a > 0 { MulAtLeast(a, B); }
  }

  lemma MulAtLeast(a: int, B: nat)
    requires a >= 1
    ensures a * B >= B
  {
    assert a * B == (a - 1) * B + B;
  }

  lemma QuotientUnique(k: int, r: int, q: int, t: int, B: nat)
    requires 0 <= r < B && 0 <= t < B && k * B + r == q * B + t
    ensures k == q && r == t
  {
    assert (k - q) * B == k * B - q * B == t - r;
    assert (q - k) * B == q * B - k * B;
    if k > q {
      MulAtLeast(k - q, B);
    } else if k < q {
      MulAtLeast(q - k, B);
    }
  }

  /** k is the quotient and r the remainder of x. */
  lemma DivUnique(x: nat, B: nat, k: int, r: int)
    requires B > 0 && 0 <= r < B && x == k * B + r
    ensures x / B == k && x % B == r
  {
    DivBounds(x, B);
    QuotientUnique(k, r, x / B, x % B, B);
  }

  // ----- head, whole blocks and tail, exactly as the source computes them -----

  /** Bytes moved through the bounce buffer of a partial first block (0 when off is block-aligned). */
  function HeadAmount(off: nat, count: nat, B: nat): (w: nat)
    requires B > 0
  {
    if off % B == 0 then 0 else if off % B + count < B then count else B - off % B
  }

  /** full_block_start_index after the head stage. */
  function FullStart(off: nat, B: nat): nat
    requires B > 0
  {
    off / B + (if off % B != 0 then 1 else 0)
  }

  /** num_full_blocks; done is the number of bytes the head stage moved. */
  function NumFull(off: nat, count: nat, done: nat, B: nat): int
    requires B > 0 && done <= count
  {
    NumTarget(off, count, B) - off / B - (if done != 0 then 1 else 0) - (if (count - done) % B != 0 then 1 else 0)
  }

  /** The target count from the quotient and remainder of the end position. */
  lemma NumTargetUnique(off: nat, count: nat, B: nat, k: nat, r: nat)
    requires B > 0 && r < B && off + count == k * B + r
    ensures NumTarget(off, count, B) == k + (if r != 0 then 1 else 0)
  {
    DivUnique(off + count, B, k, r);
  }

  /** A transfer that ends inside its first, partial block, or exactly at its end. */
  lemma TilingShort(off: nat, count: nat, B: nat)
    requires B > 0 && count > 0 && off % B != 0 && off % B + count <= B
    ensures HeadAmount(off, count, B) == count
    ensures NumFull(off, count, count, B) == 0
    ensures NumTarget(off, count, B) == FullStart(off, B)
  {
    DivBounds(off, B);
    var q, r := off / B, off % B;
    if r + count < B {
      NumTargetUnique(off, count, B, q, r + count);
    } else {
      NumTargetUnique(off, count, B, q + 1, 0);
    }
    DivUnique(0, B, 0, 0);
  }

  /** The head of a transfer that reaches past its first block boundary ends at that boundary, byte start*B. */
  lemma HeadEnds(off: nat, count: nat, B: nat)
    requires B > 0 && count > 0 && (off % B != 0 ==> off % B + count > B)
    ensures var w, start := HeadAmount(off, count, B), FullStart(off, B);
            w < count && off + w == start * B && start - off / B == if w != 0 then 1 else 0
  {
    DivBounds(off, B);
  }

  lemma TilingLong(off: nat, count: nat, B: nat)
    requires B > 0 && count > 0 && (off % B != 0 ==> off % B + count > B)
    ensures var w, start := HeadAmount(off, count, B), FullStart(off, B);
            && w < count && off + w == start * B
            && var full := NumFull(off, count, w, B);
               var rest := count - w - full * B;
               0 <= full && 0 <= rest < B && NumTarget(off, count, B) == start + full + (if rest > 0 then 1 else 0)
  {
    hide HeadAmount, FullStart, NumTarget;
    HeadEnds(off, count, B);
    var w, start := HeadAmount(off, count, B), FullStart(off, B);
    var n := count - w;
    DivBounds(n, B);
    var q, m := n / B, n % B;
    Distribute(start, q, B);
    NumTargetUnique(off, count, B, start + q, m);
    assert NumFull(off, count, w, B) == q;
  }

  /** The three stages tile [off, off + count): the head lies inside block off/B and ends at a block
      boundary unless it is the whole transfer, the whole blocks follow it, and fewer than B bytes remain
      at the start of block NumTarget - 1. */
  lemma Tiling(off: nat, count: nat, B: nat)
    requires B > 0 && count > 0
    ensures var w, start := HeadAmount(off, count, B), FullStart(off, B);
            w <= count &&
            var full := NumFull(off, count, w, B);
            var rest := count - w - full * B;
            && (off % B != 0 ==> 0 < w && off % B + w <= B)
            && (w < count ==> off + w == start * B)
            && 0 <= full && 0 <= rest < B
            && NumTarget(off, count, B) == start + full + (if rest > 0 then 1 else 0)
            && (full > 0 ==> w < count)
  {
    DivBounds(off, B);
    if off % B != 0 && off % B + count <= B {
      TilingShort(off, count, B);
    } else {
      TilingLong(off, count, B);
    }
  }

  // ----- how far a transfer gets in a chain of n blocks -----

  /** The number of bytes of [off, off + count) that lie inside a chain of n blocks. */
  function Reach(off: nat, count: nat, n: nat, B: nat): (r: nat)
    ensures r <= count
  {
    Min(count, Max(0, n * B - off))
  }

  lemma MulMono(a: int, b: int, B: nat)
    requires a <= b
    ensures a * B <= b * B
  {
    assert b * B == a * B + (b - a) * B;
  }

  lemma ReachExact(off: nat, count: nat, n: nat, B: nat, bytes: nat)
    requires bytes <= count && (n * B == off + bytes || (bytes == 0 && n * B <= off))
    ensures Reach(off, count, n, B) == bytes
  {
  }

  /** The block of the head is missing: nothing is transferred. */
  lemma ReachNothing(off: nat, count: nat, n: nat, B: nat)
    requires B > 0 && n <= off / B
    ensures Reach(off, count, n, B) == 0
  {
    DivBounds(off, B);
    MulMono(n, off / B, B);
    ReachExact(off, count, n, B, 0);
  }

  lemma Distribute(a: nat, b: nat, B: nat)
    ensures (a + b) * B == a * B + b * B
  {
  }

  /** A transfer split into a head of w bytes, full whole blocks from block start on, and fewer than
      B bytes in the last of target blocks. */
  ghost predicate Split(off: nat, count: nat, B: nat, w: nat, start: nat, full: nat, target: nat) {
    && 0 < B && w + full * B <= count < w + full * B + B
    && (w < count ==> off + w == start * B)
    && (w == 0 ==> off == start * B)
    && off + w <= start * B
    && target == start + full + (if w + full * B < count then 1 else 0)
  }

  lemma SplitHolds(off: nat, count: nat, B: nat)
    requires B > 0 && count > 0
    ensures var w := HeadAmount(off, count, B);
            && w <= count && 0 <= NumFull(off, count, w, B)
            && Split(off, count, B, w, FullStart(off, B), NumFull(off, count, w, B), NumTarget(off, count, B))
  {
    Tiling(off, count, B);
    DivBounds(off, B);
  }

  /** The k-th whole block of a transfer. */
  lemma SplitWhole(off: nat, count: nat, B: nat, w: nat, start: nat, full: nat, target: nat, j: nat)
    requires Split(off, count, B, w, start, full, target) && j < full
    ensures off + w + j * B == (start + j) * B
    ensures j * B + B == (j + 1) * B && w + j * B + B <= count
  {
    Distribute(start, j, B);
    Distribute(j, 1, B);
    MulMono(j + 1, full, B);
  }

  /** A request for no bytes inside a block makes the source's count of whole blocks one too large. */
  lemma ZeroCount(off: nat, B: nat)
    requires B > 0
    ensures HeadAmount(off, 0, B) == 0
    ensures NumFull(off, 0, 0, B) == if off % B != 0 then 1 else 0
  {
    DivBounds(off, B);
    DivUnique(0, B, 0, 0);
  }

  /** The tail begins where the whole blocks end. */
  lemma SplitTail(off: nat, count: nat, B: nat, w: nat, start: nat, full: nat, target: nat)
    requires Split(off, count, B, w, start, full, target) && w + full * B < count
    ensures off + w + full * B == (target - 1) * B
  {
    MulOrder(0, full, B);
    Distribute(start, full, B);
  }

  /** A transfer whose block start + j is missing, while the blocks before it are there, moves the head
      and j whole blocks. */
  lemma SplitShort(off: nat, count: nat, B: nat, w: nat, start: nat, full: nat, target: nat, n: nat, j: nat)
    requires Split(off, count, B, w, start, full, target)
    requires j <= full && w + j * B < count
    requires (w > 0 ==> start <= n) && n <= start + j && (j > 0 ==> n == start + j)
    ensures Reach(off, count, n, B) == w + j * B
  {
    MulOrder(0, j, B);
    Distribute(start, j, B);
    if n < start + j {
      MulMono(n, start, B);
    }
    ReachExact(off, count, n, B, w + j * B);
  }

  /** A transfer whose blocks are all there is complete. */
  lemma SplitAll(off: nat, count: nat, B: nat, w: nat, start: nat, full: nat, target: nat, n: nat)
    requires Split(off, count, B, w, start, full, target) && target <= n
    ensures Reach(off, count, n, B) == count && off + count <= n * B
  {
    MulMono(target, n, B);
    Distribute(start, full, B);
    Distribute(start + full, 1, B);
  }
}
