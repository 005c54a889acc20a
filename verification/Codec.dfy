/** The on-disk form of the root directory and the allocation table, little-endian. */
module Codec {
  import opened Types
  import opened Volumes

  // ----- integers -----

  /** concatenate_two_bytes. */
  function Concat2(byte1: byte, byte2: byte): u16 {
    256 * byte2 + byte1
  }

  /** concatenate_four_bytes. */
  function Concat4(byte1: byte, byte2: byte, byte3: byte, byte4: byte): u32 {
    0x100_0000 * byte4 + 0x1_0000 * byte3 + 0x100 * byte2 + byte1
  }

  /** x >> 8; a shift by 16 or 24 is two or three of them. */
  function Shift(x: u32): u32 { x / 0x100 }

  function Byte0(x: u32): byte { x % 0x100 }
  function Byte1(x: u32): byte { Shift(x) % 0x100 }
  function Byte2(x: u32): byte { Shift(Shift(x)) % 0x100 }
  function Byte3(x: u32): byte { Shift(Shift(Shift(x))) % 0x100 }

  lemma ShiftInverse(x: u32)
    ensures x == 0x100 * Shift(x) + x % 0x100
  {
  }

  lemma ShiftUnique(q: u32, r: byte)
    requires 0x100 * q + r < 0x1_0000_0000
    ensures Shift(0x100 * q + r) == q && Byte0(0x100 * q + r) == r
  {
  }

  lemma Concat2Inverse(x: u16)
    ensures Concat2(Byte0(x), Byte1(x)) == x
  {
  }

  lemma Split2Inverse(a: byte, b: byte)
    ensures Byte0(Concat2(a, b)) == a && Byte1(Concat2(a, b)) == b
  {
  }

  lemma Concat4Inverse(x: u32)
    ensures Concat4(Byte0(x), Byte1(x), Byte2(x), Byte3(x)) == x
  {
    hide Shift;
    ShiftInverse(x);
    ShiftInverse(Shift(x));
    ShiftInverse(Shift(Shift(x)));
    assert Shift(Shift(Shift(x))) < 0x100;
  }

  lemma Split4Inverse(a: byte, b: byte, c: byte, d: byte)
    ensures var x := Concat4(a, b, c, d);
            Byte0(x) == a && Byte1(x) == b && Byte2(x) == c && Byte3(x) == d
  {
    var y: u32 := 0x100 * d + c;
    var z: u32 := 0x100 * y + b;
    assert Concat4(a, b, c, d) == 0x100 * z + a;
    ShiftUnique(z, a);
    ShiftUnique(y, b);
    ShiftUnique(d, c);
  }

  // ----- root entries -----

  ghost predicate EntryShape(e: File) {
    |e.name| == FS_FILENAME_LEN && |e.padding| == ROOT_PAD_LEN
  }

  function EncodeSize(x: u32): (b: seq<byte>)
    ensures |b| == 4
  {
    [Byte0(x), Byte1(x), Byte2(x), Byte3(x)]
  }

  function EncodeIndex(x: u16): (b: seq<byte>)
    ensures |b| == 2
  {
    [Byte0(x), Byte1(x)]
  }

  /** The 32 bytes of one root entry. */
  function EncodeEntry(e: File): seq<byte> {
    e.name + EncodeSize(e.size) + EncodeIndex(e.first) + e.padding
  }

  function DecodeEntry(b: seq<byte>): (e: File)
    requires |b| == ROOT_ENTRY_LEN
    ensures |e.name| == FS_FILENAME_LEN && |e.padding| == ROOT_PAD_LEN
  {
    File(b[..16], Concat4(b[16], b[17], b[18], b[19]), Concat2(b[20], b[21]), b[22..])
  }

  lemma DecodeEncodeEntry(e: File)
    requires EntryShape(e)
    ensures |EncodeEntry(e)| == ROOT_ENTRY_LEN && DecodeEntry(EncodeEntry(e)) == e
  {
    var b := EncodeEntry(e);
    assert b[..16] == e.name && b[22..] == e.padding;
    assert b[16..20] == EncodeSize(e.size);
    assert b[20..22] == EncodeIndex(e.first);
    Concat4Inverse(e.size);
    Concat2Inverse(e.first);
  }

  lemma EncodeSizeInverse(b: seq<byte>)
    requires |b| == 4
    ensures EncodeSize(Concat4(b[0], b[1], b[2], b[3])) == b
  {
    Split4Inverse(b[0], b[1], b[2], b[3]);
  }

  lemma EncodeIndexInverse(b: seq<byte>)
    requires |b| == 2
    ensures EncodeIndex(Concat2(b[0], b[1])) == b
  {
    Split2Inverse(b[0], b[1]);
  }

  lemma EncodeDecodeEntry(b: seq<byte>)
    requires |b| == ROOT_ENTRY_LEN
    ensures EncodeEntry(DecodeEntry(b)) == b
  {
    hide Concat4, Concat2, EncodeSize, EncodeIndex;
    EncodeSizeInverse(b[16..20]);
    EncodeIndexInverse(b[20..22]);
    assert b == b[..16] + b[16..20] + b[20..22] + b[22..];
  }

  // ----- the root directory -----

  /** The root entries one after the other. */
  function EncodeRoot(root: seq<File>): seq<byte> {
    if root == [] then [] else EncodeRoot(root[..|root| - 1]) + EncodeEntry(root[|root| - 1])
  }

  /** The first n entries of a root block. */
  function DecodeRoot(b: seq<byte>, n: nat): (r: seq<File>)
    requires n * ROOT_ENTRY_LEN <= |b|
    ensures |r| == n
  {
    if n == 0 then [] else DecodeRoot(b, n - 1) + [DecodeEntry(b[(n - 1) * 32..n * 32])]
  }

  /** load_root_directory accepts a block when all padding bytes are zero. */
  ghost predicate RootLoads(b: seq<byte>)
    requires |b| == BLOCK_SIZE
  {
    forall i :: 0 <= i < FS_FILE_MAX_COUNT ==> DecodeRoot(b, FS_FILE_MAX_COUNT)[i].padding == Zeros(ROOT_PAD_LEN)
  }

  lemma {:induction false} DecodeRootPrefix(b: seq<byte>, c: seq<byte>, n: nat)
    requires n * 32 <= |b|
    ensures DecodeRoot(b + c, n) == DecodeRoot(b, n)
  {
    hide DecodeEntry;
    if n > 0 {
      DecodeRootPrefix(b, c, n - 1);
      assert (b + c)[(n - 1) * 32..n * 32] == b[(n - 1) * 32..n * 32];
    }
  }

  /** Parsing what was serialised gives the entries back. */
  lemma {:induction false} DecodeEncodeRoot(root: seq<File>)
    requires forall i :: 0 <= i < |root| ==> EntryShape(root[i])
    ensures |EncodeRoot(root)| == |root| * 32 && DecodeRoot(EncodeRoot(root), |root|) == root
  {
    hide EncodeEntry, DecodeEntry;
    if root != [] {
      var n := |root| - 1;
      var x, y := EncodeRoot(root[..n]), EncodeEntry(root[n]);
      DecodeEncodeRoot(root[..n]);
      DecodeEncodeEntry(root[n]);
      DecodeRootPrefix(x, y, n);
      assert (x + y)[n * 32..(n + 1) * 32] == y;
      assert DecodeRoot(x + y, n + 1) == DecodeRoot(x + y, n) + [DecodeEntry(y)];
      assert root == root[..n] + [root[n]];
    }
  }

  /** Serialising what was parsed gives the bytes back. */
  lemma {:induction false} EncodeDecodeRoot(b: seq<byte>, n: nat)
    requires n * 32 <= |b|
    ensures EncodeRoot(DecodeRoot(b, n)) == b[..n * 32]
  {
    hide EncodeEntry, DecodeEntry;
    if n > 0 {
      var k := (n - 1) * 32;
      EncodeDecodeRoot(b, n - 1);
      EncodeDecodeEntry(b[k..k + 32]);
      assert DecodeRoot(b, n) == DecodeRoot(b, n - 1) + [DecodeEntry(b[k..k + 32])];
      EncodeRootAppend(DecodeRoot(b, n - 1), DecodeEntry(b[k..k + 32]));
      assert b[..k + 32] == b[..k] + b[k..k + 32];
    }
  }

  lemma EncodeRootAppend(root: seq<File>, e: File)
    ensures EncodeRoot(root + [e]) == EncodeRoot(root) + EncodeEntry(e)
  {
    assert (root + [e])[..|root|] == root;
  }

  lemma {:induction false} DecodeRootAt(b: seq<byte>, n: nat, i: nat)
    requires n * 32 <= |b| && i < n
    ensures i * 32 + 32 <= |b| && DecodeRoot(b, n)[i] == DecodeEntry(b[i * 32..i * 32 + 32])
  {
    if i < n - 1 {
      DecodeRootAt(b, n - 1, i);
    }
  }

  // ----- the root directory byte by byte -----

  /** The 32 bytes from position at on are the entry e: name, size and first index with the least significant
      byte first, padding. */
  predicate EntryAt(b: seq<byte>, at: nat, e: File) {
    && at + 32 <= |b|
    && e.name == b[at..at + 16]
    && e.size == b[at + 16] as int + 256 * b[at + 17] as int + 65536 * b[at + 18] as int + 16777216 * b[at + 19] as int
    && e.first == b[at + 20] as int + 256 * b[at + 21] as int
    && e.padding == b[at + 22..at + 32]
  }

  lemma DecodedAt(b: seq<byte>, at: nat)
    requires at + 32 <= |b|
    ensures EntryAt(b, at, DecodeEntry(b[at..at + 32]))
  {
    var c := b[at..at + 32];
    assert c[..16] == b[at..at + 16] && c[22..] == b[at + 22..at + 32];
  }

  /** Entry i of a parsed root block is read from bytes 32*i on. */
  lemma RootEntryAt(b: seq<byte>, n: nat, i: nat)
    requires n * 32 <= |b| && i < n
    ensures EntryAt(b, 32 * i, DecodeRoot(b, n)[i])
  {
    DecodeRootAt(b, n, i);
    DecodedAt(b, 32 * i);
  }

  /** A root block loads exactly when bytes 22 to 31 of each of its 128 entries are zero. */
  lemma RootLoadsIff(b: seq<byte>)
    requires |b| == 4096
    ensures RootLoads(b) <==> forall i :: 0 <= i < 128 ==> b[32 * i + 22..32 * i + 32] == [0, 0, 0, 0, 0, 0, 0, 0, 0, 0]
  {
    forall i | 0 <= i < 128
      ensures DecodeRoot(b, 128)[i].padding == Zeros(10)
         <==> b[32 * i + 22..32 * i + 32] == [0, 0, 0, 0, 0, 0, 0, 0, 0, 0]
    {
      RootEntryAt(b, 128, i);
      assert Zeros(10) == [0, 0, 0, 0, 0, 0, 0, 0, 0, 0];
    }
    if RootLoads(b) {
      forall i | 0 <= i < 128 ensures b[32 * i + 22..32 * i + 32] == [0, 0, 0, 0, 0, 0, 0, 0, 0, 0] {
        assert DecodeRoot(b, FS_FILE_MAX_COUNT)[i].padding == Zeros(ROOT_PAD_LEN);
      }
    }
    if forall i :: 0 <= i < 128 ==> b[32 * i + 22..32 * i + 32] == [0, 0, 0, 0, 0, 0, 0, 0, 0, 0] {
      forall i | 0 <= i < FS_FILE_MAX_COUNT
        ensures DecodeRoot(b, FS_FILE_MAX_COUNT)[i].padding == Zeros(ROOT_PAD_LEN)
      {
        assert b[32 * i + 22..32 * i + 32] == [0, 0, 0, 0, 0, 0, 0, 0, 0, 0];
      }
    }
  }

  /** Writing the root block in place of the serialised one: the source's loop over a flat array. */
  method SerializeRoot(root: array<File>) returns (a: array<byte>)
    requires root.Length == FS_FILE_MAX_COUNT && forall i :: 0 <= i < root.Length ==> EntryShape(root[i])
    ensures fresh(a) && a[..] == EncodeRoot(root[..])
  {
    a := new byte[BLOCK_SIZE](_ => 0);
    var i := 0;
    while i < FS_FILE_MAX_COUNT
      invariant 0 <= i <= FS_FILE_MAX_COUNT
      invariant a[..32 * i] == EncodeRoot(root[..i])
    {
      ghost var before := a[..32 * i];
      var file := root[i];
      SerializeEntry(a, 32 * i, file);
      assert a[..32 * (i + 1)] == a[..32 * i] + a[32 * i..32 * i + 32];
      assert a[..32 * i] == before;
      assert root[..i + 1][..i] == root[..i];
      i := i + 1;
    }
    assert a[..] == a[..32 * 128];
    assert root[..] == root[..128];
  }

  /** The body of that loop. */
  method SerializeEntry(a: array<byte>, at: nat, file: File)
    requires at + ROOT_ENTRY_LEN <= a.Length && EntryShape(file)
    modifies a
    ensures a[at..at + 32] == EncodeEntry(file)
    ensures forall k :: 0 <= k < a.Length && !(at <= k < at + 32) ==> a[k] == old(a[k])
  {
    hide EncodeSize, EncodeIndex;
    CopyBytes(a, at, file.name);
    StoreNumbers(a, at + 16, file.size, file.first);
    CopyBytes(a, at + 22, file.padding);
    assert a[at..at + 16] == file.name;
    assert a[at + 16..at + 22] == EncodeSize(file.size) + EncodeIndex(file.first);
    assert a[at..at + 32] == a[at..at + 16] + a[at + 16..at + 22] + a[at + 22..at + 32];
  }

  /** The byte-by-byte copies of name and padding. */
  method CopyBytes(a: array<byte>, at: nat, s: seq<byte>)
    requires at + |s| <= a.Length
    modifies a
    ensures a[at..at + |s|] == s
    ensures forall k :: 0 <= k < a.Length && !(at <= k < at + |s|) ==> a[k] == old(a[k])
  {
    var j := 0;
    while j < |s|
      invariant 0 <= j <= |s| && forall k :: 0 <= k < j ==> a[at + k] == s[k]
      invariant forall k :: 0 <= k < a.Length && !(at <= k < at + |s|) ==> a[k] == old(a[k])
    {
      a[at + j] := s[j];
      j := j + 1;
    }
  }

  /** Size and first index, least significant byte first. */
  method StoreNumbers(a: array<byte>, at: nat, size: u32, first: u16)
    requires at + 6 <= a.Length
    modifies a
    ensures a[at..at + 6] == EncodeSize(size) + EncodeIndex(first)
    ensures forall k :: 0 <= k < a.Length && !(at <= k < at + 6) ==> a[k] == old(a[k])
  {
    a[at + 3] := Byte3(size);
    a[at + 2] := Byte2(size);
    a[at + 1] := Byte1(size);
    a[at] := Byte0(size);
    a[at + 5] := Byte1(first);
    a[at + 4] := Byte0(first);
  }

  /** load_root_directory: entry after entry; it gives up at the first padding byte that is not zero. */
  method LoadRootDirectory(b: seq<byte>, root: array<File>) returns (ok: bool)
    requires |b| == BLOCK_SIZE && root.Length == FS_FILE_MAX_COUNT
    modifies root
    ensures ok <==> RootLoads(b)
    ensures ok <==> forall i :: 0 <= i < 128 ==> b[32 * i + 22..32 * i + 32] == [0, 0, 0, 0, 0, 0, 0, 0, 0, 0]
    ensures ok ==> root[..] == DecodeRoot(b, FS_FILE_MAX_COUNT)
  {
    hide DecodeEntry;
    var f := 0;
    while f < FS_FILE_MAX_COUNT
      invariant 0 <= f <= FS_FILE_MAX_COUNT
      invariant root[..f] == DecodeRoot(b, f)
      invariant forall i :: 0 <= i < f ==> root[i].padding == Zeros(ROOT_PAD_LEN)
    {
      var e, zero := ParseEntry(b, 32 * f);
      DecodeRootAt(b, FS_FILE_MAX_COUNT, f);
      if !zero {
        RootLoadsIff(b);
        return false;
      }
      root[f] := e;
      assert root[..f + 1] == root[..f] + [e];
      f := f + 1;
    }
    assert root[..] == root[..128];
    RootLoadsIff(b);
    return true;
  }

  /** The body of that loop: one entry byte by byte, with the check of its padding. */
  method ParseEntry(b: seq<byte>, at: nat) returns (e: File, zero: bool)
    requires at + ROOT_ENTRY_LEN <= |b|
    ensures e == DecodeEntry(b[at..at + 32]) || !zero
    ensures zero ==> EntryAt(b, at, e)
    ensures zero <==> DecodeEntry(b[at..at + 32]).padding == Zeros(ROOT_PAD_LEN)
    ensures zero <==> b[at + 22..at + 32] == [0, 0, 0, 0, 0, 0, 0, 0, 0, 0]
  {
    DecodedAt(b, at);
    assert Zeros(ROOT_PAD_LEN) == [0, 0, 0, 0, 0, 0, 0, 0, 0, 0];
    var p, name := at, [];
    var i := 0;
    while i < FS_FILENAME_LEN
      invariant 0 <= i <= FS_FILENAME_LEN && p == at + i && name == b[at..at + i]
    {
      name := name + [b[p]];
      p := p + 1;
      i := i + 1;
    }
    var size := Concat4(b[p], b[p + 1], b[p + 2], b[p + 3]);
    p := p + 4;
    var first := Concat2(b[p], b[p + 1]);
    p := p + 2;
    var padding: seq<byte> := [];
    i := 0;
    ghost var all := DecodeEntry(b[at..at + 32]).padding;
    assert all == b[at + 22..at + 32];
    while i < ROOT_PAD_LEN
      invariant 0 <= i <= ROOT_PAD_LEN && p == at + 22 + i && padding == b[at + 22..at + 22 + i]
      invariant forall j :: 0 <= j < i ==> all[j] == 0
    {
      padding := padding + [b[p]];
      if b[p] != 0 {
        assert all[i] != 0 && Zeros(ROOT_PAD_LEN)[i] == 0;
        return File(name, size, first, padding), false;
      }
      p := p + 1;
      i := i + 1;
    }
    assert all == Zeros(ROOT_PAD_LEN);
    return File(name, size, first, padding), true;
  }

  // ----- the allocation table -----

  /** The word number m of a block of little-endian 16-bit words. */
  function Word(block: Block, m: nat): u16
    requires 2 * m + 1 < |block|
  {
    Concat2(block[2 * m], block[2 * m + 1])
  }

  /** The memory the table lies in: its entries, and past its end whatever the heap holds there. */
  function MemoryWord(fat: seq<u16>, heap: nat -> u16, j: nat): u16 {
    if j < |fat| then fat[j] else heap(j)
  }

  /** The block fs_umount writes for FAT block i: 4096 bytes from entry BLOCK_SIZE * i on. */
  function FatBlock(fat: seq<u16>, heap: nat -> u16, i: nat): (b: Block)
    ensures |b| == BLOCK_SIZE
  {
    seq(BLOCK_SIZE, k requires 0 <= k < BLOCK_SIZE =>
      var w := MemoryWord(fat, heap, BLOCK_SIZE * i + k / 2);
      if k % 2 == 0 then Byte0(w) else Byte1(w))
  }

  lemma FatBlockWord(fat: seq<u16>, heap: nat -> u16, i: nat, m: nat)
    requires m < BLOCK_SIZE / 2
    ensures Word(FatBlock(fat, heap, i), m) == MemoryWord(fat, heap, BLOCK_SIZE * i + m)
  {
    var b, w := FatBlock(fat, heap, i), MemoryWord(fat, heap, BLOCK_SIZE * i + m);
    assert (2 * m) / 2 == m && (2 * m + 1) / 2 == m;
    assert b[2 * m] == Byte0(w) && b[2 * m + 1] == Byte1(w);
    Concat2Inverse(w);
  }

  /** Entry j as load_fat reads it: FAT block i fills 2048 words of the buffer from word BLOCK_SIZE * i on,
      and every other word is what the uninitialised buffer held. */
  function LoadedEntry(disk: seq<Block>, numFat: nat, stack: nat -> u16, j: nat): u16
    requires numFat < |disk| && forall i :: 0 <= i < |disk| ==> |disk[i]| == BLOCK_SIZE
  {
    if j % BLOCK_SIZE < BLOCK_SIZE / 2 && j / BLOCK_SIZE < numFat
    then Word(disk[j / BLOCK_SIZE + 1], j % BLOCK_SIZE)
    else stack(j)
  }

  function LoadedFat(disk: seq<Block>, numData: nat, numFat: nat, stack: nat -> u16): (fat: seq<u16>)
    requires numFat < |disk| && forall i :: 0 <= i < |disk| ==> |disk[i]| == BLOCK_SIZE
    ensures |fat| == numData
  {
    seq(numData, j requires 0 <= j < numData => LoadedEntry(disk, numFat, stack, j))
  }
}
