/**
 * Reading files (drivers/fs.c): an inode maps a file onto 4 KB data blocks scattered over the
 * image, and open files track a position. Memory is a function from addresses, counted from the
 * boot block, to bytes, so that reads past a table or a file have a value too.
 */
module FileSystem {
  import opened Bytes

  type Memory = nat -> byte

  /** The little-endian 32-bit word at `a`. */
  function Word(mem: Memory, a: nat): nat {
    mem(a) + 0x100 * mem(a + 1) + 0x1_0000 * mem(a + 2) + 0x100_0000 * mem(a + 3)
  }

  function InodeAddr(inode: nat): nat { (inode + 1) * 4096 }

  /** inode->length. */
  function FileLength(mem: Memory, inode: nat): nat { Word(mem, InodeAddr(inode)) }

  /** The address of data block number inode->data[k]; the boot block holds the number of inodes. */
  function BlockAddr(mem: Memory, inode: nat, k: nat): nat {
    (Word(mem, 4) + 1) * 4096 + Word(mem, InodeAddr(inode) + 4 + 4 * k) * 4096
  }

  /** The one length, beyond what any inode can map, for which the 32-bit offset could never exceed it. */
  predicate WellFormed(mem: Memory, inode: nat) {
    FileLength(mem, inode) != 0xFFFF_FFFF
  }

  // ----- the file as one flat sequence of bytes -----

  function Block(mem: Memory, a: nat): (b: seq<byte>)
    ensures |b| == 4096 && forall i :: 0 <= i < 4096 ==> b[i] == mem(a + i)
  {
    seq<byte>(4096, i requires 0 <= i < 4096 => mem(a + i))
  }

  /** The first `n` mapped blocks, one after the other. */
  function Blocks(mem: Memory, inode: nat, n: nat): (bs: seq<byte>)
    ensures |bs| == n * 4096
  {
    if n == 0 then [] else Blocks(mem, inode, n - 1) + Block(mem, BlockAddr(mem, inode, n - 1))
  }

  /** The mapped blocks, cut off at the file's length. */
  function Content(mem: Memory, inode: nat): (c: seq<byte>)
    ensures |c| == FileLength(mem, inode)
  {
    Blocks(mem, inode, FileLength(mem, inode) / 4096 + 1)[..FileLength(mem, inode)]
  }

  /** The byte the block map gives for position `p`, inside the file or not. */
  function ByteAt(mem: Memory, inode: nat, p: nat): byte {
    Mapped(mem, k => BlockAddr(mem, inode, k), p)
  }

  function Mapped(mem: Memory, blocks: nat -> nat, p: nat): byte {
    mem(blocks(p / 4096) + p % 4096)
  }

  lemma {:induction false} BlocksAt(mem: Memory, inode: nat, n: nat, p: nat)
    requires p < n * 4096
    ensures Blocks(mem, inode, n)[p] == ByteAt(mem, inode, p)
  {
    if p < (n - 1) * 4096 {
      BlocksAt(mem, inode, n - 1, p);
    } else {
      assert p / 4096 == n - 1 && p % 4096 == p - (n - 1) * 4096;
    }
  }

  /** The block map and the flat file agree at every position. */
  lemma ContentAt(mem: Memory, inode: nat, p: nat)
    requires p < FileLength(mem, inode)
    ensures Content(mem, inode)[p] == ByteAt(mem, inode, p)
  {
    BlocksAt(mem, inode, FileLength(mem, inode) / 4096 + 1, p);
  }

  // ----- the image format -----

  /** What an image is meant to hold: for each inode a length and its block numbers, and the data blocks. */
  datatype Inode = Inode(length: nat, blocks: seq<nat>)

  datatype Image = Image(inodes: seq<Inode>, data: seq<seq<byte>>)

  ghost predicate Proper(img: Image) {
    && |img.inodes| < 0x1_0000_0000 && |img.data| <= 0x1_0000_0000
    && (forall j :: 0 <= j < |img.data| ==> |img.data[j]| == 4096)
    && (forall i :: 0 <= i < |img.inodes| ==> ProperInode(img.inodes[i], |img.data|))
  }

  ghost predicate ProperInode(d: Inode, blocks: nat) {
    && |d.blocks| <= 1023 && d.length <= 4096 * |d.blocks|
    && forall k :: 0 <= k < |d.blocks| ==> d.blocks[k] < blocks
  }

  /** Byte `b` of 4 KB block `n` of the image. */
  function ByteOf(mem: Memory, n: nat, b: nat): byte { mem(4096 * n + b) }

  /** Byte `j` of a number, lowest first. */
  function Octet(v: nat, j: nat): byte {
    if j == 0 then v % 256 else Octet(v / 256, j - 1)
  }

  /** Word `k` of block `n` is stored as the four bytes of `v`, lowest first. */
  ghost predicate Stored(mem: Memory, n: nat, k: nat, v: nat) {
    forall j :: 0 <= j < 4 ==> ByteOf(mem, n, 4 * k + j) == Octet(v, j)
  }

  /**
   * Boot block, inodes and data blocks follow one another, byte by byte. The boot block counts inodes
   * in its second word; an inode begins with its length, and its block numbers follow.
   */
  ghost predicate Laid(mem: Memory, img: Image) {
    var n := |img.inodes|;
    && Stored(mem, 0, 1, n)
    && (forall i :: 0 <= i < n ==> Stored(mem, 1 + i, 0, img.inodes[i].length))
    && (forall i, k :: 0 <= i < n && 0 <= k < |img.inodes[i].blocks| ==>
          Stored(mem, 1 + i, 1 + k, img.inodes[i].blocks[k]))
    && (forall j, b :: 0 <= j < |img.data| && 0 <= b < |img.data[j]| ==> ByteOf(mem, 1 + n + j, b) == img.data[j][b])
  }

  lemma OctetsMake(v: nat)
    requires v < 0x1_0000_0000
    ensures v == Octet(v, 0) + 0x100 * Octet(v, 1) + 0x1_0000 * Octet(v, 2) + 0x100_0000 * Octet(v, 3)
  {
    assert Octet(v, 1) == v / 256 % 256;
    assert Octet(v, 2) == Octet(v / 256, 1) == v / 256 / 256 % 256;
    assert Octet(v, 3) == Octet(v / 256, 2) == Octet(v / 256 / 256, 1) == v / 256 / 256 / 256 % 256;
  }

  /** The processor reads back what was stored. */
  lemma StoredWord(mem: Memory, n: nat, k: nat, v: nat)
    requires Stored(mem, n, k, v) && v < 0x1_0000_0000
    ensures Word(mem, 4096 * n + 4 * k) == v
  {
    OctetsMake(v);
    assert ByteOf(mem, n, 4 * k + 0) == Octet(v, 0) && ByteOf(mem, n, 4 * k + 1) == Octet(v, 1);
    assert ByteOf(mem, n, 4 * k + 2) == Octet(v, 2) && ByteOf(mem, n, 4 * k + 3) == Octet(v, 3);
  }

  function Joined(data: seq<seq<byte>>, blocks: seq<nat>): seq<byte>
    requires forall k :: 0 <= k < |blocks| ==> blocks[k] < |data|
  {
    if blocks == [] then [] else Joined(data, blocks[..|blocks| - 1]) + data[blocks[|blocks| - 1]]
  }

  lemma {:induction false} JoinedAt(data: seq<seq<byte>>, blocks: seq<nat>, p: nat)
    requires forall k :: 0 <= k < |blocks| ==> blocks[k] < |data| && |data[blocks[k]]| == 4096
    ensures |Joined(data, blocks)| == 4096 * |blocks|
    ensures p < 4096 * |blocks| ==> Joined(data, blocks)[p] == data[blocks[p / 4096]][p % 4096]
  {
    if blocks != [] {
      var n := |blocks| - 1;
      JoinedAt(data, blocks[..n], p);
      if 4096 * n <= p < 4096 * (n + 1) { assert p / 4096 == n && p % 4096 == p - 4096 * n; }
    }
  }

  lemma LaidBlock(mem: Memory, img: Image, i: nat, k: nat)
    requires Proper(img) && Laid(mem, img) && i < |img.inodes| && k < |img.inodes[i].blocks|
    ensures BlockAddr(mem, i, k) == 4096 * (1 + |img.inodes| + img.inodes[i].blocks[k])
  {
    assert ProperInode(img.inodes[i], |img.data|);
    assert Stored(mem, 1 + i, 1 + k, img.inodes[i].blocks[k]);
    StoredWord(mem, 0, 1, |img.inodes|);
    StoredWord(mem, 1 + i, 1 + k, img.inodes[i].blocks[k]);
  }

  lemma LaidByte(mem: Memory, img: Image, i: nat, p: nat)
    requires Proper(img) && Laid(mem, img) && i < |img.inodes| && p < img.inodes[i].length
    ensures p / 4096 < |img.inodes[i].blocks|
    ensures ByteAt(mem, i, p) == img.data[img.inodes[i].blocks[p / 4096]][p % 4096]
  {
    var d := img.inodes[i];
    assert ProperInode(d, |img.data|) && p / 4096 < |d.blocks|;
    LaidBlock(mem, img, i, p / 4096);
    assert ByteOf(mem, 1 + |img.inodes| + d.blocks[p / 4096], p % 4096) ==
           img.data[d.blocks[p / 4096]][p % 4096];
  }

  lemma LaidLength(mem: Memory, img: Image, i: nat)
    requires Proper(img) && Laid(mem, img) && i < |img.inodes|
    ensures FileLength(mem, i) == img.inodes[i].length && ProperInode(img.inodes[i], |img.data|) && WellFormed(mem, i)
  {
    assert ProperInode(img.inodes[i], |img.data|);
    StoredWord(mem, 1 + i, 0, img.inodes[i].length);
  }

  lemma ContentByte(mem: Memory, img: Image, i: nat, p: nat)
    requires Proper(img) && Laid(mem, img) && i < |img.inodes| && p < img.inodes[i].length
    requires ProperInode(img.inodes[i], |img.data|) && |Content(mem, i)| == img.inodes[i].length
    ensures p < |Joined(img.data, img.inodes[i].blocks)|
    ensures Content(mem, i)[p] == Joined(img.data, img.inodes[i].blocks)[p]
  {
    LaidByte(mem, img, i, p);
    ContentAt(mem, i, p);
    JoinedAt(img.data, img.inodes[i].blocks, p);
  }

  /** In a laid-out image the flat file is the inode's data blocks joined, cut off at its length. */
  lemma ContentIsFile(mem: Memory, img: Image, i: nat)
    requires Proper(img) && Laid(mem, img) && i < |img.inodes|
    ensures ProperInode(img.inodes[i], |img.data|) && WellFormed(mem, i)
    ensures img.inodes[i].length <= |Joined(img.data, img.inodes[i].blocks)|
    ensures Content(mem, i) == Joined(img.data, img.inodes[i].blocks)[..img.inodes[i].length]
  {
    LaidLength(mem, img, i);
    var d, file := img.inodes[i], Content(mem, i);
    JoinedAt(img.data, d.blocks, 0);
    forall p | 0 <= p < d.length ensures file[p] == Joined(img.data, d.blocks)[p] {
      ContentByte(mem, img, i, p);
    }
  }

  // ----- read_data -----

  /** How many bytes a read of `length` at `offset` yields. */
  function Available(size: nat, offset: nat, length: nat): (n: nat)
    ensures n <= length && (offset <= size ==> offset + n <= size) && (offset > size ==> n == 0)
  {
    if offset >= size then 0 else if length < size - offset then length else size - offset
  }

  /** The next offset, a 32-bit value that wraps around. */
  function Next(offset: nat): nat {
    if offset == 0xFFFF_FFFF then 0 else offset + 1
  }

  /** The offset `i` bytes after `start`. */
  function Offset(start: nat, i: nat): nat {
    if i == 0 then start else Next(Offset(start, i - 1))
  }

  lemma {:induction false} OffsetIs(start: nat, i: nat)
    requires start + i < 0x1_0000_0000
    ensures Offset(start, i) == start + i
  {
    if i != 0 { OffsetIs(start, i - 1); }
  }

  /**
   * read_data into `buf` from index `at` on. When the file ends before the request is filled, one
   * more byte is stored behind the last one counted: whatever the block map holds past the end. For
   * the one length that no 32-bit offset exceeds, a read from inside always fills the request.
   */
  method ReadData(mem: Memory, inode: nat, start: nat, buf: array<byte>, at: nat, length: nat) returns (n: nat)
    requires at + length <= buf.Length
    modifies buf
    ensures WellFormed(mem, inode) ==> n == Available(FileLength(mem, inode), start, length)
    ensures WellFormed(mem, inode) && n > 0 ==> buf[at..at + n] == Content(mem, inode)[start..start + n]
    ensures !WellFormed(mem, inode) && start <= 0xFFFF_FFFF ==>
              n == length &&
              forall k :: at <= k < at + n ==> buf[k] == ByteAt(mem, inode, Offset(start, k - at))
    ensures forall k :: 0 <= k < buf.Length && (k < at || k > at + n || (k == at + n && n == length)) ==>
              buf[k] == old(buf[k])
  {
    WordBound(mem, InodeAddr(inode));
    n := 0;
    if start > FileLength(mem, inode) { return; }
    n := CopyBytes(mem, k => BlockAddr(mem, inode, k), start, FileLength(mem, inode), buf, at, length);
    if WellFormed(mem, inode) {
      CopiedContent(mem, inode, start, n, buf[at..at + n]);
    }
  }

  lemma WordBound(mem: Memory, a: nat)
    ensures Word(mem, a) < 0x1_0000_0000
  {
  }

  /** The loop of read_data, which fetches a block address each time the offset enters a block. */
  method CopyBytes(mem: Memory, blocks: nat -> nat, start: nat, size: nat, buf: array<byte>, at: nat, length: nat)
    returns (n: nat)
    requires start <= size < 0x1_0000_0000 && at + length <= buf.Length
    modifies buf
    ensures n == if size == 0xFFFF_FFFF || length < size - start then length else size - start
    ensures forall k :: at <= k < at + n ==> buf[k] == Mapped(mem, blocks, Offset(start, k - at))
    ensures forall k :: 0 <= k < buf.Length && (k < at || k > at + n || (k == at + n && n == length)) ==>
              buf[k] == old(buf[k])
  {
    var offset := start;
    var block := blocks(offset / 4096);
    n := 0;
    var i := 0;
    while i < length
      invariant 0 <= i <= length && n == i && offset == Offset(start, i) && offset <= size
      invariant size < 0xFFFF_FFFF ==> offset == start + i
      invariant block == blocks(offset / 4096)
      invariant forall k :: at <= k < at + i ==> buf[k] == Mapped(mem, blocks, Offset(start, k - at))
      invariant forall k :: 0 <= k < buf.Length && (k < at || k >= at + i) ==> buf[k] == old(buf[k])
    {
      buf[at + i] := mem(block + offset % 4096);
      SameBlock(offset);
      offset := Next(offset);
      if offset % 4096 == 0 {
        block := blocks(offset / 4096);
      }
      if offset > size { break; }
      n := n + 1;
      i := i + 1;
    }
  }

  lemma SameBlock(offset: nat)
    ensures (offset + 1) % 4096 != 0 ==> (offset + 1) / 4096 == offset / 4096
  {
  }

  lemma CopiedContent(mem: Memory, inode: nat, start: nat, n: nat, got: seq<byte>)
    requires start + n <= FileLength(mem, inode) && |got| == n
    requires forall k :: 0 <= k < n ==> got[k] == ByteAt(mem, inode, Offset(start, k))
    ensures got == Content(mem, inode)[start..start + n]
  {
    forall k | 0 <= k < n ensures got[k] == Content(mem, inode)[start..start + n][k] {
      WordBound(mem, InodeAddr(inode));
      OffsetIs(start, k);
      ContentAt(mem, inode, start + k);
    }
  }

  // ----- open files -----

  /** What `n`-byte reads in succession return: each the next slice, as long as there is one. */
  function Chunks(content: seq<byte>, pos: nat, sizes: seq<nat>): (cs: seq<seq<byte>>)
    requires pos <= |content|
    decreases |sizes|
  {
    if sizes == [] then []
    else
      var n := Available(|content|, pos, sizes[0]);
      [content[pos..pos + n]] + Chunks(content, pos + n, sizes[1..])
  }

  function Sum(sizes: seq<nat>): nat {
    if sizes == [] then 0 else sizes[0] + Sum(sizes[1..])
  }

  function Concat(cs: seq<seq<byte>>): seq<byte> {
    if cs == [] then [] else cs[0] + Concat(cs[1..])
  }

  /** Reads of any sizes, one after another, put together the file from where they began. */
  lemma {:induction false} ChunksConcat(content: seq<byte>, pos: nat, sizes: seq<nat>)
    requires pos <= |content|
    ensures Concat(Chunks(content, pos, sizes)) == content[pos..pos + Available(|content|, pos, Sum(sizes))]
    decreases |sizes|
  {
    if sizes != [] {
      var n := Available(|content|, pos, sizes[0]);
      ChunksConcat(content, pos + n, sizes[1..]);
      var m := Available(|content|, pos + n, Sum(sizes[1..]));
      assert Available(|content|, pos, Sum(sizes)) == n + m;
      assert content[pos..pos + n] + content[pos + n..pos + n + m] == content[pos..pos + n + m];
    }
  }

  /** A file descriptor on a regular file. */
  class OpenFile {
    const mem: Memory
    const inode: nat
    ghost const file: seq<byte>
    var inUse: bool
    var position: nat

    constructor (mem: Memory, inode: nat)
      requires WellFormed(mem, inode)
      ensures Valid() && this.mem == mem && this.inode == inode && inUse && position == 0
      ensures file == Content(mem, inode)
    {
      this.mem, this.inode, inUse, position := mem, inode, true, 0;
      file := Content(mem, inode);
    }

    ghost predicate Valid()
      reads this
    {
      WellFormed(mem, inode) && file == Content(mem, inode) && position <= |file|
    }

    /** file_read into `buf` from index `at` on. */
    method Read(buf: array<byte>, at: nat, bytes: nat) returns (r: int)
      requires Valid() && at + bytes <= buf.Length
      modifies this`position, buf
      ensures Valid()
      ensures !inUse ==> r == -1 && position == old(position) && buf[..] == old(buf[..])
      ensures inUse ==> r == Available(|file|, old(position), bytes) && position == old(position) + r
      ensures inUse && r > 0 ==> buf[at..at + r] == file[old(position)..position]
      ensures inUse ==> forall k :: 0 <= k < buf.Length && (k < at || k > at + r || (k == at + r && r == bytes)) ==>
                buf[k] == old(buf[k])
    {
      if !inUse { return -1; }
      r := ReadData(mem, inode, position, buf, at, bytes);
      position := position + r;
    }
  }

  /** The cat program: copy the file to the output, 1024 bytes at a time. */
  method Cat(f: OpenFile) returns (out: seq<byte>, code: int)
    requires f.Valid()
    modifies f`position
    ensures f.Valid()
    ensures f.inUse ==> code == 0 && out == f.file[old(f.position)..] && f.position == |f.file|
    ensures !f.inUse ==> code == 3 && out == []
  {
    var buf := new byte[1024];
    out := [];
    while true
      invariant f.Valid() && old(f.position) <= f.position && buf.Length == 1024 && fresh(buf)
      invariant out == f.file[old(f.position)..f.position]
      invariant !f.inUse ==> f.position == old(f.position)
      decreases |f.file| - f.position
    {
      ghost var pos := f.position;
      var cnt := f.Read(buf, 0, 1024);
      if cnt == 0 { break; }
      if cnt == -1 { return out, 3; }
      out := out + buf[..cnt];
      assert f.file[old(f.position)..pos] + f.file[pos..f.position] == f.file[old(f.position)..f.position];
    }
    return out, 0;
  }
}
