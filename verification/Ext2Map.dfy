/**
 The block map of ext2: finding the disk block of a file block through up to three levels of indirect blocks,
 two of which are kept in buffers from call to call (loader/filesys/fsys_ext2fs.c).
 */
module Ext2Map {
  import opened Common
  import Arith
  import opened Bits

  const NDIR := 12
  const IND := 12
  const DIND := 13
  const TIND := 14

  /** The blocks of the volume as arrays of 2^bits pointers. */
  datatype Volume = Volume(disk: seq<seq<Word>>, bits: nat)
  {
    ghost predicate Valid() {
      0 < |disk| < 0x8000_0000 && forall b :: 0 <= b < |disk| ==> |disk[b]| == Pow2(bits)
    }

    /** A pointer in block `b`; None when the block cannot be read.  The format gives 0 for "no block": a reader
        that knows about holes takes the pointers of such a block to be 0, too.  The driver reads block 0. */
    function Pointer(holes: bool, b: Word, i: nat): Option<Word>
      requires i < Pow2(bits) && Valid()
    {
      if holes && b == 0 then Some(0) else if b < |disk| then Some(disk[b][i]) else None
    }

    function Then(holes: bool, p: Option<Word>, i: nat): Option<Word>
      requires i < Pow2(bits) && Valid()
    {
      if p.Some? then Pointer(holes, p.value, i) else None
    }

    /** The lookup without any buffers. */
    function Lookup(holes: bool, inode: seq<Word>, l: nat): Option<Word>
      requires Valid() && |inode| == 15 && InRange(l)
    {
      var n := Pow2(bits);
      if l < NDIR then Some(inode[l])
      else if l - NDIR < n then Pointer(holes, inode[IND], l - NDIR)
      else if l - NDIR - n < Pow2(2 * bits) then Double(holes, inode[DIND], l - NDIR - n)
      else Triple(holes, inode[TIND], l - NDIR - n - Pow2(2 * bits))
    }

    /** The size of a block is 2^Bits() bytes, four for every pointer. */
    function Bits(): nat { bits + 2 }

    function BlockSize(): nat { Pow2(Bits()) }

    /** What the three levels can address: 12 + N + N^2 + N^3 blocks. */
    predicate InRange(l: nat) { l < NDIR + Pow2(bits) + Pow2(2 * bits) + Pow2(3 * bits) }

    function Double(holes: bool, b: Word, l: nat): Option<Word>
      requires Valid() && l < Pow2(2 * bits)
    {
      Parts(l, bits, bits);
      Then(holes, Pointer(holes, b, Shr(l, bits)), Low(l, bits))
    }

    function Triple(holes: bool, b: Word, l: nat): Option<Word>
      requires Valid() && l < Pow2(3 * bits)
    {
      TripleParts(l, bits);
      Then(holes, Then(holes, Pointer(holes, b, Shr(l, 2 * bits)), Low(Shr(l, bits), bits)), Low(l, bits))
    }
  }

  lemma Parts(l: nat, k: nat, j: nat)
    requires l < Pow2(j + k)
    ensures Shr(l, k) < Pow2(j) && Low(l, k) < Pow2(k)
  {
    ShrBelow(l, j, k);
    LowBelow(l, k);
  }

  lemma {:induction false} TripleParts(l: nat, k: nat)
    requires l < Pow2(3 * k)
    ensures Shr(l, 2 * k) < Pow2(k) && Low(Shr(l, k), k) < Pow2(k) && Low(l, k) < Pow2(k)
  {
    Parts(l, 2 * k, k);
    Parts(l, k, 2 * k);
    LowBelow(Shr(l, k), k);
  }

  // ---------- The block list a file stands for ----------

  /** The pointers stored in a block; a missing or unreadable one counts as empty pointers. */
  function Pointers(v: Volume, holes: bool, b: Word): (s: seq<Word>)
    requires v.Valid()
    ensures |s| == Pow2(v.bits)
  {
    if b < |v.disk| && !(holes && b == 0) then v.disk[b] else seq<Word>(Pow2(v.bits), _ => 0)
  }

  /** The data blocks below an indirect block of the given level, in file order. */
  function Leaves(v: Volume, holes: bool, level: nat, b: Word): seq<Word>
    requires v.Valid()
    decreases level, 1, 0
  {
    if level == 0 then [b] else LeavesOf(v, holes, level - 1, Pointers(v, holes, b))
  }

  function LeavesOf(v: Volume, holes: bool, level: nat, bs: seq<Word>): seq<Word>
    requires v.Valid()
    decreases level, 2, |bs|
  {
    if bs == [] then [] else Leaves(v, holes, level, bs[0]) + LeavesOf(v, holes, level, bs[1..])
  }

  /** All blocks of the file: the direct ones, then those below the three indirect blocks. */
  function BlockList(v: Volume, holes: bool, inode: seq<Word>): seq<Word>
    requires v.Valid() && |inode| == 15
  {
    inode[..NDIR] + Leaves(v, holes, 1, inode[IND]) + Leaves(v, holes, 2, inode[DIND])
    + Leaves(v, holes, 3, inode[TIND])
  }

  lemma {:induction false} LeavesLength(v: Volume, holes: bool, level: nat, b: Word)
    requires v.Valid()
    ensures |Leaves(v, holes, level, b)| == Pow2(level * v.bits)
    decreases level, 1, 0
  {
    if level > 0 {
      LeavesOfLength(v, holes, level - 1, Pointers(v, holes, b));
      Pow2Adds(v.bits, (level - 1) * v.bits);
      assert v.bits + (level - 1) * v.bits == level * v.bits;
    }
  }

  lemma {:induction false} LeavesOfLength(v: Volume, holes: bool, level: nat, bs: seq<Word>)
    requires v.Valid()
    ensures |LeavesOf(v, holes, level, bs)| == |bs| * Pow2(level * v.bits)
    decreases level, 2, |bs|
  {
    if bs != [] {
      LeavesLength(v, holes, level, bs[0]);
      LeavesOfLength(v, holes, level, bs[1..]);
      assert |bs| * Pow2(level * v.bits) == Pow2(level * v.bits) + (|bs| - 1) * Pow2(level * v.bits);
    }
  }

  /** Entry i * 2^k + j of the leaves of several blocks is leaf j of block i. */
  lemma {:induction false} LeavesOfAt(v: Volume, holes: bool, level: nat, bs: seq<Word>, i: nat, j: nat)
    requires v.Valid() && i < |bs| && j < Pow2(level * v.bits)
    ensures |Leaves(v, holes, level, bs[i])| == Pow2(level * v.bits)
    ensures i * Pow2(level * v.bits) + j < |LeavesOf(v, holes, level, bs)|
    ensures LeavesOf(v, holes, level, bs)[i * Pow2(level * v.bits) + j] == Leaves(v, holes, level, bs[i])[j]
    decreases i
  {
    var n := Pow2(level * v.bits);
    LeavesLength(v, holes, level, bs[0]);
    LeavesLength(v, holes, level, bs[i]);
    if i > 0 {
      LeavesOfAt(v, holes, level, bs[1..], i - 1, j);
      assert i * n == (i - 1) * n + n;
      assert bs[1..][i - 1] == bs[i];
    }
  }

  /** Leaf l of an indirect block is leaf Low(l) of the block its pointer number Shr(l) names. */
  lemma {:induction false} LeavesAt(v: Volume, holes: bool, level: nat, b: Word, l: nat)
    requires v.Valid() && level > 0 && l < Pow2(level * v.bits)
    ensures var k := (level - 1) * v.bits;
      && Shr(l, k) < Pow2(v.bits) && Low(l, k) < Pow2(k)
      && |Leaves(v, holes, level, b)| == Pow2(level * v.bits)
      && |Leaves(v, holes, level - 1, Pointers(v, holes, b)[Shr(l, k)])| == Pow2(k)
      && Leaves(v, holes, level, b)[l] == Leaves(v, holes, level - 1, Pointers(v, holes, b)[Shr(l, k)])[Low(l, k)]
  {
    var k := (level - 1) * v.bits;
    Arith.MulAdd(level - 1, 1, v.bits);
    Parts(l, k, v.bits);
    ShrLow(l, k);
    LeavesLength(v, holes, level, b);
    LeavesOfAt(v, holes, level - 1, Pointers(v, holes, b), Shr(l, k), Low(l, k));
  }

  /** Below a missing block the file has nothing but holes. */
  lemma {:induction false} MissingLeaves(v: Volume, level: nat, l: nat)
    requires v.Valid() && l < |Leaves(v, true, level, 0)|
    ensures Leaves(v, true, level, 0)[l] == 0
  {
    if level > 0 {
      LeavesLength(v, true, level, 0);
      LeavesAt(v, true, level, 0, l);
      MissingLeaves(v, level - 1, Low(l, (level - 1) * v.bits));
    }
  }

  lemma {:induction false} SingleAt(v: Volume, holes: bool, b: Word, l: nat)
    requires v.Valid() && l < Pow2(v.bits)
    ensures |Leaves(v, holes, 1, b)| == Pow2(v.bits) && Leaves(v, holes, 1, b)[l] == Pointers(v, holes, b)[l]
  {
    assert 1 * v.bits == v.bits && (1 - 1) * v.bits == 0;
    LeavesAt(v, holes, 1, b, l);
  }

  lemma {:induction false} DoubleAt(v: Volume, holes: bool, b: Word, l: nat)
    requires v.Valid() && l < Pow2(2 * v.bits)
    ensures |Leaves(v, holes, 2, b)| == Pow2(2 * v.bits)
    ensures v.Double(holes, b, l).Some? ==> v.Double(holes, b, l).value == Leaves(v, holes, 2, b)[l]
  {
    assert (2 - 1) * v.bits == v.bits;
    LeavesAt(v, holes, 2, b, l);
    SingleAt(v, holes, Pointers(v, holes, b)[Shr(l, v.bits)], Low(l, v.bits));
  }

  lemma {:induction false} TripleAt(v: Volume, holes: bool, b: Word, l: nat)
    requires v.Valid() && l < Pow2(3 * v.bits)
    ensures |Leaves(v, holes, 3, b)| == Pow2(3 * v.bits)
    ensures v.Triple(holes, b, l).Some? ==> v.Triple(holes, b, l).value == Leaves(v, holes, 3, b)[l]
  {
    assert (3 - 1) * v.bits == 2 * v.bits == v.bits + v.bits;
    LeavesAt(v, holes, 3, b, l);
    ShrOfLow(l, v.bits, v.bits);
    DoubleAt(v, holes, Pointers(v, holes, b)[Shr(l, 2 * v.bits)], Low(l, 2 * v.bits));
    TripleParts(l, v.bits);
  }

  lemma JoinedAt(a: seq<Word>, b: seq<Word>, c: seq<Word>, d: seq<Word>, i: nat)
    requires i < |a| + |b| + |c| + |d|
    ensures (a + b + c + d)[i] ==
            if i < |a| then a[i]
            else if i - |a| < |b| then b[i - |a|]
            else if i - |a| - |b| < |c| then c[i - |a| - |b|]
            else d[i - |a| - |b| - |c|]
  {
  }

  /** The lookup finds exactly the l-th block of the file, whenever the blocks on its way can be read. */
  lemma {:induction false} LookupIsBlockList(v: Volume, holes: bool, inode: seq<Word>, l: nat)
    requires v.Valid() && |inode| == 15 && v.InRange(l)
    ensures l < |BlockList(v, holes, inode)|
    ensures v.Lookup(holes, inode, l).Some? ==> v.Lookup(holes, inode, l).value == BlockList(v, holes, inode)[l]
  {
    hide Leaves, Pow2, Shr, Low;
    var n, n2, n3 := Pow2(v.bits), Pow2(2 * v.bits), Pow2(3 * v.bits);
    var b1, b2 := Leaves(v, holes, 1, inode[IND]), Leaves(v, holes, 2, inode[DIND]);
    var b3 := Leaves(v, holes, 3, inode[TIND]);
    SingleAt(v, holes, inode[IND], if NDIR <= l < NDIR + n then l - NDIR else 0);
    DoubleAt(v, holes, inode[DIND], if NDIR + n <= l < NDIR + n + n2 then l - NDIR - n else 0);
    TripleAt(v, holes, inode[TIND], if NDIR + n + n2 <= l then l - NDIR - n - n2 else 0);
    JoinedAt(inode[..NDIR], b1, b2, b3, l);
  }

  // ---------- Holes ----------

  predicate ZeroAt(v: Volume, b: Word, i: nat)
    requires v.Valid() && i < Pow2(v.bits)
  {
    b < |v.disk| && v.disk[b][i] == 0
  }

  predicate ZeroVia(v: Volume, b: Word, i: nat, j: nat)
    requires v.Valid() && i < Pow2(v.bits) && j < Pow2(v.bits)
  {
    b < |v.disk| && ZeroAt(v, v.disk[b][i], j)
  }

  predicate ZeroVia2(v: Volume, b: Word, i: nat, j: nat, k: nat)
    requires v.Valid() && i < Pow2(v.bits) && j < Pow2(v.bits) && k < Pow2(v.bits)
  {
    b < |v.disk| && ZeroVia(v, v.disk[b][i], j, k)
  }

  /** If a pointer on the way to block `l` is 0, the words of block 0 that are taken for those of the missing block
      lead to a 0 in the end. */
  predicate HoleReadsAsZero(v: Volume, inode: seq<Word>, l: nat)
    requires v.Valid() && |inode| == 15 && v.InRange(l)
  {
    var n := Pow2(v.bits);
    if l < NDIR then true
    else if l - NDIR < n then
      inode[IND] == 0 ==> ZeroAt(v, 0, l - NDIR)
    else if l - NDIR - n < Pow2(2 * v.bits) then
      var r := l - NDIR - n;
      Parts(r, v.bits, v.bits);
      var hi, lo := Shr(r, v.bits), Low(r, v.bits);
      if inode[DIND] == 0 then ZeroVia(v, 0, hi, lo)
      else ZeroAt(v, inode[DIND], hi) ==> ZeroAt(v, 0, lo)
    else
      var r := l - NDIR - n - Pow2(2 * v.bits);
      TripleParts(r, v.bits);
      var hi, mid, lo := Shr(r, 2 * v.bits), Low(Shr(r, v.bits), v.bits), Low(r, v.bits);
      if inode[TIND] == 0 then ZeroVia2(v, 0, hi, mid, lo)
      else if ZeroAt(v, inode[TIND], hi) then ZeroVia(v, 0, mid, lo)
      else ZeroVia(v, inode[TIND], hi, mid) ==> ZeroAt(v, 0, lo)
  }

  /** The driver reads block 0 where an indirect block is missing, on whatever level.  The block it finds is that of
      the sparse file exactly when the words it meets there lead to 0. */
  lemma MissingIndirectBlock(v: Volume, inode: seq<Word>, l: nat)
    requires v.Valid() && |inode| == 15 && v.InRange(l)
    ensures v.Lookup(false, inode, l) == v.Lookup(true, inode, l) <==> HoleReadsAsZero(v, inode, l)
  {
  }

  /** Volumes on which it is wrong: block 0 is not all zeros, and the file has no single, double or triple indirect
      block. */
  lemma MissingIndirectBlockExample(l: nat)
    requires l in {NDIR, NDIR + 2, NDIR + 6}
    ensures var v := Volume([[1, 1], [1, 7]], 1); var inode := seq<Word>(15, _ => 0);
      && v.Valid() && v.InRange(l) && !HoleReadsAsZero(v, inode, l)
      && v.Lookup(false, inode, l) == Some(1) && v.Lookup(true, inode, l) == Some(0)
  {
    assert Pow2(1) == 2 && Pow2(2) == 4 && Pow2(3) == 8;
    assert Shr(0, 1) == Shr(0, 2) == Low(0, 1) == 0;
  }

  /** `block` is block `l` of the file in which missing blocks are holes, or are block 0, and all pointers on the way to
      it can be read. */
  ghost predicate IsBlock(v: Volume, holes: bool, inode: seq<Word>, l: nat, block: Option<Word>)
    requires v.Valid() && |inode| == 15
  {
    && block.Some? && v.InRange(l) && block == v.Lookup(holes, inode, l)
    && l < |BlockList(v, holes, inode)| && block.value == BlockList(v, holes, inode)[l]
  }

  lemma FoundIsBlock(v: Volume, inode: seq<Word>, l: nat)
    requires v.Valid() && |inode| == 15 && v.InRange(l)
    ensures forall holes :: v.Lookup(holes, inode, l).Some? ==>
              IsBlock(v, holes, inode, l, v.Lookup(holes, inode, l))
  {
    LookupIsBlockList(v, false, inode, l);
    LookupIsBlockList(v, true, inode, l);
  }

  // ---------- The bytes of a file ----------

  /** Byte `o` of a block of little-endian words. */
  function ByteOf(block: seq<Word>, o: nat): Byte
    requires o < 4 * |block|
  {
    var w := block[o / 4];
    if o % 4 == 0 then w % 0x100
    else if o % 4 == 1 then w / 0x100 % 0x100
    else if o % 4 == 2 then w / 0x1_0000 % 0x100
    else w / 0x100_0000
  }

  /** Byte `o` of data block `p`; block 0 stands for a hole. */
  function DataByte(v: Volume, p: Word, o: nat): (b: Option<Byte>)
    requires v.Valid() && o < v.BlockSize()
  {
    assert Pow2(v.Bits()) == 2 * Pow2(v.bits + 1) == 4 * Pow2(v.bits);
    if p == 0 then Some(0) else if p < |v.disk| then Some(ByteOf(v.disk[p], o)) else None
  }

  /** Byte `b` is at position `pos` of the file. */
  ghost predicate IsByte(v: Volume, holes: bool, inode: seq<Word>, pos: nat, b: Byte)
    requires v.Valid() && |inode| == 15
  {
    LowBelow(pos, v.Bits());
    var l, o := Shr(pos, v.Bits()), Low(pos, v.Bits());
    && l < |BlockList(v, holes, inode)| && IsBlock(v, holes, inode, l, Some(BlockList(v, holes, inode)[l]))
    && DataByte(v, BlockList(v, holes, inode)[l], o) == Some(b)
  }

  /** The bytes are those of the file from position `from` on. */
  ghost predicate HasBytes(v: Volume, holes: bool, inode: seq<Word>, data: seq<Byte>, from: nat)
    requires v.Valid() && |inode| == 15
  {
    forall i :: 0 <= i < |data| ==> IsByte(v, holes, inode, from + i, data[i])
  }

  lemma JoinBytes(v: Volume, holes: bool, inode: seq<Word>, a: seq<Byte>, b: seq<Byte>, from: nat)
    requires v.Valid() && |inode| == 15
    requires HasBytes(v, holes, inode, a, from) && HasBytes(v, holes, inode, b, from + |a|)
    ensures HasBytes(v, holes, inode, a + b, from)
  {
    forall i | 0 <= i < |a + b|
      ensures IsByte(v, holes, inode, from + i, (a + b)[i])
    {
      if i >= |a| {
        assert IsByte(v, holes, inode, from + |a| + (i - |a|), b[i - |a|]);
      }
    }
  }

  lemma ShrOfPlace(l: nat, o: nat, k: nat)
    requires o < Pow2(k)
    ensures l * Pow2(k) + o >= 0 && Shr(l * Pow2(k) + o, k) == l && Low(l * Pow2(k) + o, k) == o
  {
    Arith.MulMonotone(0, l, Pow2(k));
    var pos := l * Pow2(k) + o;
    ShrLow(pos, k);
    LowBelow(pos, k);
    Arith.DivMod(pos, Pow2(k), l, o);
    Arith.DivMod(pos, Pow2(k), Shr(pos, k), Low(pos, k));
  }

  /** A piece of one data block. */
  lemma PieceHasBytes(v: Volume, holes: bool, inode: seq<Word>, l: nat, off: nat, p: Word, piece: seq<Byte>, from: nat)
    requires v.Valid() && |inode| == 15 && IsBlock(v, holes, inode, l, Some(p)) && off + |piece| <= v.BlockSize()
    requires forall i :: 0 <= i < |piece| ==> DataByte(v, p, off + i) == Some(piece[i])
    requires from == l * v.BlockSize() + off
    ensures HasBytes(v, holes, inode, piece, from)
  {
    forall i | 0 <= i < |piece|
      ensures IsByte(v, holes, inode, from + i, piece[i])
    {
      ShrOfPlace(l, off + i, v.Bits());
    }
  }

  /** The words of block 0 lead to zeros wherever they are taken for those of a missing block that `n` bytes from
      position `from` on need. */
  ghost predicate HolesRead(v: Volume, inode: seq<Word>, from: nat, n: nat)
    requires v.Valid() && |inode| == 15
  {
    forall l: nat :: v.InRange(l) && l * v.BlockSize() < from + n && from < (l + 1) * v.BlockSize() ==>
      HoleReadsAsZero(v, inode, l)
  }

  // ---------- The driver ----------

  /** The static variables of the driver and the buffers they describe. */
  class Mapper {
    const v: Volume
    const buf1: array<Word>    // DATABLOCK1
    const buf2: array<Word>    // DATABLOCK2
    var inode: seq<Word>       // i_block of the file being read
    var mapblock1: int         // which indirect block of the inode buf1 holds: 1, 2 or 3; -1 for none
    var mapblock2: int         // the number of the block buf2 holds; -1 for none
    var filepos: nat
    var error: bool            // errnum is set

    ghost predicate Valid()
      reads this, buf1, buf2
    {
      && v.Valid() && |inode| == 15 && buf1 != buf2 && buf1.Length == buf2.Length == Pow2(v.bits)
      && (mapblock1 == -1 ||
          (1 <= mapblock1 <= 3 && inode[11 + mapblock1] < |v.disk| && buf1[..] == v.disk[inode[11 + mapblock1]]))
      && (mapblock2 == -1 || (0 <= mapblock2 < |v.disk| && buf2[..] == v.disk[mapblock2]))
    }

    constructor (v: Volume, inode: seq<Word>)
      requires v.Valid() && |inode| == 15
      ensures Valid() && fresh(buf1) && fresh(buf2) && this.v == v && this.inode == inode
    {
      this.v, this.inode := v, inode;
      buf1 := new Word[Pow2(v.bits)];
      buf2 := new Word[Pow2(v.bits)];
      mapblock1, mapblock2, filepos, error := -1, -1, 0, false;
    }

    /** A new inode has been read: the indirect blocks in the buffers belong to another file. */
    method SetInode(inode': seq<Word>)
      requires Valid() && |inode'| == 15
      modifies this`inode, this`mapblock1, this`mapblock2
      ensures Valid() && inode == inode'
    {
      inode := inode';
      mapblock1, mapblock2 := -1, -1;
    }

    /** The directory scan reads a directory block into the second buffer. */
    method BorrowBuffer(b: Word) returns (ok: bool)
      requires Valid()
      modifies this`mapblock2, buf2
      ensures Valid() && inode == old(inode)
      ensures ok <==> b < |v.disk|
      ensures ok ==> buf2[..] == v.disk[b]
    {
      mapblock2 := -1;
      ok := ReadBlock(b, buf2);
    }

    /** ext2_rdfsb */
    method ReadBlock(b: Word, buffer: array<Word>) returns (ok: bool)
      requires v.Valid() && buffer.Length == Pow2(v.bits)
      modifies buffer
      ensures ok <==> b < |v.disk|
      ensures buffer[..] == if ok then v.disk[b] else old(buffer[..])
    {
      if b >= |v.disk| {
        assert buffer[..] == old(buffer[..]);
        return false;
      }
      forall i | 0 <= i < buffer.Length {
        buffer[i] := v.disk[b][i];
      }
      ok := true;
    }

    /** Makes the first buffer hold indirect block number `which` of the inode. */
    method Load1(which: int) returns (ok: bool)
      requires Valid() && 1 <= which <= 3
      modifies this`mapblock1, buf1
      ensures Valid()
      ensures ok <==> inode[11 + which] < |v.disk|
      ensures ok ==> mapblock1 == which && buf1[..] == v.disk[inode[11 + which]]
    {
      if mapblock1 != which {
        ok := ReadBlock(inode[11 + which], buf1);
        if !ok {
          return;
        }
      }
      mapblock1 := which;
      ok := true;
    }

    /** The value of a 32-bit pointer in the int the driver compares it with. */
    function ToInt(w: Word): int { if w < 0x8000_0000 then w else w - 0x1_0000_0000 }

    /** The pointer to follow below the double indirect block is 0xffffffff, which as an int equals the mark of an
        empty second buffer, and that buffer is empty. */
    predicate TakenForMark(l: nat)
      requires v.Valid() && |inode| == 15 && l < Pow2(2 * v.bits)
      reads this
    {
      Parts(l, v.bits, v.bits);
      mapblock2 == -1 && v.Pointer(false, inode[DIND], Shr(l, v.bits)) == Some(0xFFFF_FFFF)
    }

    /** Below the double indirect block the second buffer is reused when it holds the right block.  If the pointer is
        taken for the mark of an empty buffer, whatever the buffer contains is used. */
    method MapDouble(l: nat) returns (block: Option<Word>)
      requires Valid() && l < Pow2(2 * v.bits)
      modifies this`mapblock1, this`mapblock2, buf1, buf2
      ensures Valid()
      ensures !old(TakenForMark(l)) ==> block == v.Double(false, inode[DIND], l)
      ensures old(TakenForMark(l)) ==>
                Low(l, v.bits) < buf2.Length && block == Some(old(buf2[..])[Low(l, v.bits)]) &&
                v.Double(false, inode[DIND], l) == None
    {
      Parts(l, v.bits, v.bits);
      var ok := Load1(2);
      if !ok {
        return None;
      }
      var bnum := buf1[Shr(l, v.bits)];
      assert bnum == v.disk[inode[DIND]][Shr(l, v.bits)];
      if ToInt(bnum) != mapblock2 {
        ok := ReadBlock(bnum, buf2);
        if !ok {
          return None;
        }
      }
      mapblock2 := ToInt(bnum);
      assert mapblock2 != -1 ==> buf2[..] == v.disk[bnum];
      block := Some(buf2[Low(l, v.bits)]);
    }

    /** Below the triple indirect block both lower levels go through the second buffer, one after the other. */
    method MapTriple(l: nat) returns (block: Option<Word>)
      requires Valid() && l < Pow2(3 * v.bits)
      modifies this`mapblock1, this`mapblock2, buf1, buf2
      ensures Valid() && block == v.Triple(false, inode[TIND], l)
    {
      TripleParts(l, v.bits);
      mapblock2 := -1;
      var ok := Load1(3);
      if !ok {
        return None;
      }
      ghost var p1 := v.disk[inode[TIND]][Shr(l, 2 * v.bits)];
      assert buf1[Shr(l, 2 * v.bits)] == p1;
      ok := ReadBlock(buf1[Shr(l, 2 * v.bits)], buf2);
      if !ok {
        return None;
      }
      assert buf2[Low(Shr(l, v.bits), v.bits)] == v.disk[p1][Low(Shr(l, v.bits), v.bits)];
      ok := ReadBlock(buf2[Low(Shr(l, v.bits), v.bits)], buf2);
      if !ok {
        return None;
      }
      block := Some(buf2[Low(l, v.bits)]);
    }

    /** The block map goes wrong in this one state only. */
    predicate Mistaken(l: nat)
      requires v.Valid() && |inode| == 15
      reads this
    {
      var first := NDIR + Pow2(v.bits);
      first <= l < first + Pow2(2 * v.bits) && TakenForMark(l - first)
    }

    /** The way through the buffers. */
    method Find(logicalBlock: nat) returns (block: Option<Word>)
      requires Valid() && v.InRange(logicalBlock)
      modifies this`mapblock1, this`mapblock2, buf1, buf2
      ensures Valid()
      ensures block == v.Lookup(false, inode, logicalBlock) <==> !old(Mistaken(logicalBlock))
    {
      var l := logicalBlock;
      if l < NDIR {
        return Some(inode[l]);
      }
      l := l - NDIR;
      if l < Pow2(v.bits) {
        var ok := Load1(1);
        return if ok then Some(buf1[l]) else None;
      }
      l := l - Pow2(v.bits);
      if l < Pow2(2 * v.bits) {
        block := MapDouble(l);
        return;
      }
      l := l - Pow2(2 * v.bits);
      block := MapTriple(l);
    }

    /** ext2fs_block_map: whatever calls came before, the answer is that of the lookup without buffers, and it is
        the block of the sparse file unless words of block 0 were taken for pointers. */
    method BlockMap(logicalBlock: nat) returns (block: Option<Word>)
      requires Valid() && v.InRange(logicalBlock)
      modifies this`mapblock1, this`mapblock2, buf1, buf2
      ensures Valid()
      ensures block == v.Lookup(false, inode, logicalBlock) <==> !old(Mistaken(logicalBlock))
      ensures !old(Mistaken(logicalBlock)) ==>
                (block == v.Lookup(true, inode, logicalBlock) <==> HoleReadsAsZero(v, inode, logicalBlock))
      ensures forall holes :: block.Some? && block == v.Lookup(holes, inode, logicalBlock) ==>
                IsBlock(v, holes, inode, logicalBlock, block)
    {
      block := Find(logicalBlock);
      FoundIsBlock(v, inode, logicalBlock);
      MissingIndirectBlock(v, inode, logicalBlock);
    }

    // ---------- Reading ----------

    /** No pointer of the double indirect block is taken for the mark of an empty buffer. */
    ghost predicate NoMark()
      requires v.Valid() && |inode| == 15
      reads this`inode
    {
      forall i: nat :: i < Pow2(v.bits) ==> v.Pointer(false, inode[DIND], i) != Some(0xFFFF_FFFF)
    }

    lemma NoMistake(l: nat)
      requires v.Valid() && |inode| == 15 && NoMark()
      ensures !Mistaken(l)
    {
      var first := NDIR + Pow2(v.bits);
      if first <= l < first + Pow2(2 * v.bits) {
        Parts(l - first, v.bits, v.bits);
      }
    }

    /** devread of bytes of one block. */
    method ReadData(p: Word, off: nat, size: nat) returns (piece: seq<Byte>)
      requires v.Valid() && off + size <= v.BlockSize() && p != 0
      modifies this`error
      ensures |piece| == size && (error <==> old(error) || p >= |v.disk|)
      ensures p < |v.disk| ==> forall i :: 0 <= i < size ==> DataByte(v, p, off + i) == Some(piece[i])
    {
      if p >= |v.disk| {
        error := true;
        return seq<Byte>(size, _ => 0);
      }
      assert v.BlockSize() == 2 * Pow2(v.bits + 1) == 4 * Pow2(v.bits);
      piece := seq<Byte>(size, i requires 0 <= i < size => ByteOf(v.disk[p], off + i));
    }

    method ZeroData(size: nat, ghost off: nat) returns (piece: seq<Byte>)
      requires v.Valid() && off + size <= v.BlockSize()
      ensures |piece| == size && forall i :: 0 <= i < size ==> DataByte(v, 0, off + i) == Some(piece[i])
    {
      piece := seq<Byte>(size, _ => 0);
    }

    /** What the block map answers for the block at the file position stops the reading: an error, or a number that is
        negative as an int. */
    ghost predicate Stops(block: Option<Word>) { block.None? || block.value >= 0x8000_0000 }

    /** Block `l` cannot be read: a pointer on the way to it, or the block itself, is not on the volume. */
    ghost predicate Unreadable(l: nat)
      requires v.Valid() && |inode| == 15 && v.InRange(l)
      reads this`inode
    {
      var block := v.Lookup(false, inode, l);
      block.None? || (!Stops(block) && block.value >= |v.disk|)
    }

    /** A block that `len` bytes from position `from` on need cannot be read. */
    ghost predicate NeedsUnreadable(from: nat, len: nat)
      requires v.Valid() && |inode| == 15
      reads this`inode
    {
      exists l: nat ::
        l * v.BlockSize() < from + len && from < (l + 1) * v.BlockSize() && v.InRange(l) && Unreadable(l)
    }

    lemma UnreadableNeeded(l: nat, pos: nat, from: nat, len: nat)
      requires v.Valid() && |inode| == 15 && v.InRange(l) && Unreadable(l)
      requires from <= pos < from + len && l * v.BlockSize() <= pos < (l + 1) * v.BlockSize()
      ensures NeedsUnreadable(from, len)
    {
    }

    /** One round of ext2fs_read: what one block has of the `left` bytes wanted. */
    method ReadPiece(l: nat, off: nat, left: nat) returns (go: bool, piece: seq<Byte>)
      requires Valid() && left > 0 && off < v.BlockSize() && filepos == l * v.BlockSize() + off && v.InRange(l)
      modifies this`mapblock1, this`mapblock2, this`filepos, this`error, buf1, buf2
      ensures Valid() && filepos == old(filepos) + |piece|
      ensures NoMark() ==>
                var block := v.Lookup(false, inode, l);
                && (go <==> !Stops(block))
                && (error <==> old(error) || Unreadable(l)) && (block.None? ==> error)
      ensures go ==> |piece| == if v.BlockSize() - off < left then v.BlockSize() - off else left
      ensures !go ==> piece == []
      ensures NoMark() && !error ==> HasBytes(v, false, inode, piece, old(filepos))
      ensures NoMark() && !error && HoleReadsAsZero(v, inode, l) ==> HasBytes(v, true, inode, piece, old(filepos))
    {
      piece := [];
      hide HoleReadsAsZero, IsBlock, IsByte, Mistaken, Volume.Lookup, DataByte, BlockList, Pow2, Shr, Low;
      if NoMark() {
        NoMistake(l);
      }
      var block := BlockMap(l);
      if block.None? {
        error := true;
        return false, piece;
      }
      if block.value >= 0x8000_0000 {
        return false, piece;
      }
      var size := v.BlockSize() - off;
      if size > left {
        size := left;
      }
      go := true;
      if block.value == 0 {
        piece := ZeroData(size, off);
      } else {
        piece := ReadData(block.value, off, size);
      }
      if NoMark() && !error {
        assert block == v.Lookup(false, inode, l) && block == Some(block.value);
        PieceHasBytes(v, false, inode, l, off, block.value, piece, filepos);
        if HoleReadsAsZero(v, inode, l) {
          PieceHasBytes(v, true, inode, l, off, block.value, piece, filepos);
        }
      }
      filepos := filepos + size;
    }

    /** ext2fs_read.  What it delivers are the bytes of the file's blocks, zeros for block 0; they are those of the
        sparse file if block 0 leads to zeros wherever it is taken for a missing block.  A read stops short only at a
        block number that is negative as an int. */
    method Read(len: nat) returns (ok: bool, data: seq<Byte>)
      requires Valid() && !error && (len > 0 ==> v.InRange(Shr(filepos + len - 1, v.Bits())))
      modifies this`mapblock1, this`mapblock2, this`filepos, this`error, buf1, buf2
      ensures Valid() && (ok <==> !error) && (!ok ==> data == [])
      ensures ok ==> |data| <= len && filepos == old(filepos) + |data|
      ensures NoMark() && ok ==> HasBytes(v, false, inode, data, old(filepos))
      ensures NoMark() && ok && HolesRead(v, inode, old(filepos), len) ==>
                HasBytes(v, true, inode, data, old(filepos))
      ensures NoMark() && !ok ==> NeedsUnreadable(old(filepos), len)
      ensures NoMark() && ok && |data| < len ==>
                && v.InRange(Shr(filepos, v.Bits()))
                && v.Lookup(false, inode, Shr(filepos, v.Bits())).Some?
                && Stops(v.Lookup(false, inode, Shr(filepos, v.Bits())))
    {
      hide HoleReadsAsZero, Volume.Lookup, IsByte, NoMark, Unreadable, NeedsUnreadable;
      data := [];
      var left := len;
      ghost var start := filepos;
      while left > 0
        invariant Valid() && 0 <= left && left + |data| == len && filepos == start + |data|
        invariant NoMark() && !error ==> HasBytes(v, false, inode, data, start)
        invariant NoMark() && !error && HolesRead(v, inode, start, len) ==> HasBytes(v, true, inode, data, start)
        invariant NoMark() && error ==> NeedsUnreadable(start, len)
        decreases left
      {
        var l, off := Shr(filepos, v.Bits()), Low(filepos, v.Bits());
        InsideRange(v, filepos, start + len - 1);
        ghost var pos, before := filepos, error;
        var go, piece := ReadPiece(l, off, left);
        if NoMark() && error && !before {
          UnreadableNeeded(l, pos, start, len);
        }
        if !go {
          break;
        }
        if NoMark() && !error {
          JoinBytes(v, false, inode, data, piece, start);
          if HolesRead(v, inode, start, len) {
            JoinBytes(v, true, inode, data, piece, start);
          }
        }
        data := data + piece;
        left := left - |piece|;
      }
      ok := !error;
      if error {
        data := [];
      }
    }
  }

  lemma {:induction false} InsideRange(v: Volume, pos: nat, last: nat)
    requires pos <= last && v.InRange(Shr(last, v.Bits()))
    ensures var l, o, n := Shr(pos, v.Bits()), Low(pos, v.Bits()), v.BlockSize();
      v.InRange(l) && o < n && pos == l * n + o < (l + 1) * n
  {
    var n := v.BlockSize();
    ShrLow(pos, v.Bits());
    ShrLow(last, v.Bits());
    LowBelow(pos, v.Bits());
    LowBelow(last, v.Bits());
    Arith.MulSucc(Shr(pos, v.Bits()), n);
    Arith.MulSucc(Shr(last, v.Bits()), n);
    if Shr(pos, v.Bits()) > Shr(last, v.Bits()) {
      Arith.MulMonotone(Shr(last, v.Bits()) + 1, Shr(pos, v.Bits()), n);
      assert false;
    }
  }
}
