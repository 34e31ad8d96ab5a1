/**
 The blocks of an ext2 file in terms of division: which words of the volume name them, and which bytes of the volume a
 read delivers (loader/filesys/fsys_ext2fs.c).
 */
module Ext2Layout {
  import opened Common
  import Arith
  import opened Bits
  import opened Ext2Map

  /** Word `i` of block `b` is `w`; if there is no block, and zeros are to be read then, it is 0. */
  predicate Slot(v: Volume, holes: bool, b: Word, i: nat, w: Word) {
    if holes && b == 0 then w == 0 else b < |v.disk| && i < |v.disk[b]| && v.disk[b][i] == w
  }

  ghost predicate Slot2(v: Volume, holes: bool, b: Word, i: nat, j: nat, w: Word) {
    exists m :: Slot(v, holes, b, i, m) && Slot(v, holes, m, j, w)
  }

  ghost predicate Slot3(v: Volume, holes: bool, b: Word, i: nat, j: nat, k: nat, w: Word) {
    exists m :: Slot(v, holes, b, i, m) && Slot2(v, holes, m, j, k, w)
  }

  function Div(a: nat, n: nat): nat requires n > 0 { a / n }

  function Mod(a: nat, n: nat): nat requires n > 0 { a % n }

  /** Block `l` of the file is block `w` of the volume, whose blocks have `n` words. */
  ghost predicate MapsTo(v: Volume, n: nat, holes: bool, inode: seq<Word>, l: nat, w: Word)
    requires n > 0 && |inode| == 15
  {
    if l < 12 then inode[l] == w
    else if l < 12 + n then Slot(v, holes, inode[12], l - 12, w)
    else if l < 12 + n + n * n then
      var r := l - 12 - n;
      Slot2(v, holes, inode[13], Div(r, n), Mod(r, n), w)
    else
      var r := l - 12 - n - n * n;
      Slot3(v, holes, inode[14], Div(Div(r, n), n), Mod(Div(r, n), n), Mod(r, n), w)
  }

  lemma {:induction false} ShrTwice(l: nat, j: nat, k: nat)
    ensures Shr(l, j + k) == Shr(Shr(l, j), k)
    decreases j
  {
    if j > 0 {
      ShrTwice(l / 2, j - 1, k);
    }
  }

  lemma SlotIsPointer(v: Volume, holes: bool, b: Word, i: nat, w: Word)
    requires v.Valid() && i < Pow2(v.bits)
    ensures Slot(v, holes, b, i, w) <==> v.Pointer(holes, b, i) == Some(w)
  {
  }

  lemma Slot2IsPointer(v: Volume, holes: bool, b: Word, i: nat, j: nat, w: Word)
    requires v.Valid() && i < Pow2(v.bits) && j < Pow2(v.bits)
    ensures Slot2(v, holes, b, i, j, w) <==> v.Then(holes, v.Pointer(holes, b, i), j) == Some(w)
  {
    forall m: Word
      ensures Slot(v, holes, b, i, m) <==> v.Pointer(holes, b, i) == Some(m)
      ensures Slot(v, holes, m, j, w) <==> v.Pointer(holes, m, j) == Some(w)
    {
      SlotIsPointer(v, holes, b, i, m);
      SlotIsPointer(v, holes, m, j, w);
    }
  }

  lemma Slot3IsPointer(v: Volume, holes: bool, b: Word, i: nat, j: nat, k: nat, w: Word)
    requires v.Valid() && i < Pow2(v.bits) && j < Pow2(v.bits) && k < Pow2(v.bits)
    ensures Slot3(v, holes, b, i, j, k, w) <==>
            v.Then(holes, v.Then(holes, v.Pointer(holes, b, i), j), k) == Some(w)
  {
    hide Slot, Slot2;
    forall m: Word
      ensures Slot(v, holes, b, i, m) <==> v.Pointer(holes, b, i) == Some(m)
      ensures Slot2(v, holes, m, j, k, w) <==> v.Then(holes, v.Pointer(holes, m, j), k) == Some(w)
    {
      SlotIsPointer(v, holes, b, i, m);
      Slot2IsPointer(v, holes, m, j, k, w);
    }
  }

  lemma Powers(bits: nat)
    ensures Pow2(2 * bits) == Pow2(bits) * Pow2(bits) && Pow2(3 * bits) == Pow2(2 * bits) * Pow2(bits)
    ensures Pow2(bits + 2) == 4 * Pow2(bits)
  {
    Pow2Adds(bits, bits);
    Pow2Adds(2 * bits, bits);
    assert Pow2(bits + 2) == 2 * Pow2(bits + 1) == 4 * Pow2(bits);
  }

  /** The lookup goes that way. */
  lemma LookupIsDivision(v: Volume, holes: bool, inode: seq<Word>, l: nat, w: Word)
    requires v.Valid() && |inode| == 15 && v.InRange(l)
    ensures v.Lookup(holes, inode, l) == Some(w) <==> MapsTo(v, Pow2(v.bits), holes, inode, l, w)
  {
    hide Slot, Slot2, Slot3, Volume.Pointer, Volume.Then, Shr, Low, Pow2;
    var n := Pow2(v.bits);
    Powers(v.bits);
    if 12 <= l < 12 + n {
      SlotIsPointer(v, holes, inode[12], l - 12, w);
    } else if 12 + n <= l < 12 + n + n * n {
      var r := l - 12 - n;
      Parts(r, v.bits, v.bits);
      SplitIsDivision(r, v.bits);
      Slot2IsPointer(v, holes, inode[13], r / n, r % n, w);
    } else if 12 + n + n * n <= l {
      var r := l - 12 - n - n * n;
      TripleParts(r, v.bits);
      SplitIsDivision(r, v.bits);
      ShrTwice(r, v.bits, v.bits);
      SplitIsDivision(r / n, v.bits);
      Slot3IsPointer(v, holes, inode[14], r / n / n, r / n % n, r % n, w);
    }
  }

  // ---------- Bytes ----------

  /** Bytes 4i to 4i + 3 of a block, lowest first, make word i. */
  lemma BytesMakeWord(block: seq<Word>, i: nat)
    requires i < |block|
    ensures block[i] == ByteOf(block, 4 * i) + 0x100 * ByteOf(block, 4 * i + 1) + 0x1_0000 * ByteOf(block, 4 * i + 2)
                        + 0x100_0000 * ByteOf(block, 4 * i + 3)
  {
    var w := block[i];
    var a := w / 0x100;
    var b := a / 0x100;
    Arith.DivMod(w, 0x1_0000, b, a % 0x100 * 0x100 + w % 0x100);
    Arith.DivMod(w, 0x100_0000, b / 0x100, b % 0x100 * 0x1_0000 + a % 0x100 * 0x100 + w % 0x100);
    Arith.DivMod(4 * i + 1, 4, i, 1);
    Arith.DivMod(4 * i + 2, 4, i, 2);
    Arith.DivMod(4 * i + 3, 4, i, 3);
  }

  function Weight(k: nat): (w: nat)
    ensures w > 0
  {
    if k == 0 then 1 else if k == 1 then 0x100 else if k == 2 then 0x1_0000 else 0x100_0000
  }

  /** Byte `o` of data block `p`, which has none if it is 0. */
  predicate BlockByte(v: Volume, p: Word, o: nat, b: Byte) {
    if p == 0 then b == 0
    else p < |v.disk| && o / 4 < |v.disk[p]| && b == v.disk[p][o / 4] / Weight(o % 4) % 0x100
  }

  /** Byte `b` is at position `pos` of the file. */
  ghost predicate FileByte(v: Volume, n: nat, holes: bool, inode: seq<Word>, pos: nat, b: Byte)
    requires n > 0 && |inode| == 15
  {
    exists p :: MapsTo(v, n, holes, inode, pos / (4 * n), p) && BlockByte(v, p, pos % (4 * n), b)
  }

  lemma ByteIsDivision(v: Volume, holes: bool, inode: seq<Word>, pos: nat, b: Byte)
    requires v.Valid() && |inode| == 15 && IsByte(v, holes, inode, pos, b)
    ensures FileByte(v, Pow2(v.bits), holes, inode, pos, b)
  {
    hide MapsTo, BlockList, Shr, Low, Pow2, Volume.Lookup;
    var n := Pow2(v.bits);
    Powers(v.bits);
    SplitIsDivision(pos, v.Bits());
    LowBelow(pos, v.Bits());
    var l, o := Shr(pos, v.Bits()), Low(pos, v.Bits());
    var p := BlockList(v, holes, inode)[l];
    LookupIsDivision(v, holes, inode, l, p);
    BlockByteIs(v, p, o, b);
  }

  lemma BlockByteIs(v: Volume, p: Word, o: nat, b: Byte)
    requires v.Valid() && o < v.BlockSize() && DataByte(v, p, o) == Some(b)
    ensures BlockByte(v, p, o, b)
  {
    Powers(v.bits);
  }

  /** Block `l` of the file is a block of the volume, or a hole, and so are the blocks with the pointers to it. */
  ghost predicate HasBlock(v: Volume, n: nat, inode: seq<Word>, l: nat)
    requires n > 0 && |inode| == 15
  {
    exists w: Word :: MapsTo(v, n, false, inode, l, w) && w < |v.disk|
  }

  lemma ReadableBlock(m: Mapper, l: nat)
    requires m.v.Valid() && |m.inode| == 15 && m.v.InRange(l) && HasBlock(m.v, Pow2(m.v.bits), m.inode, l)
    ensures !m.Unreadable(l) && !m.Stops(m.v.Lookup(false, m.inode, l))
  {
    hide MapsTo, Volume.Lookup;
    var w: Word :| MapsTo(m.v, Pow2(m.v.bits), false, m.inode, l, w) && w < |m.v.disk|;
    LookupIsDivision(m.v, false, m.inode, l, w);
  }

  /** If a read fails or stops short, a block is missing. */
  lemma SomethingMissing(m: Mapper, from: nat, len: nat, ok: bool, n: nat)
    requires m.v.Valid() && |m.inode| == 15 && n <= len
    requires !ok ==> m.NeedsUnreadable(from, len)
    requires ok ==>
      var l := Shr(from + n, m.v.Bits()); n < len && m.v.InRange(l) && m.Stops(m.v.Lookup(false, m.inode, l))
    ensures exists l: nat ::
              && l * (4 * Pow2(m.v.bits)) < from + len && from < (l + 1) * (4 * Pow2(m.v.bits))
              && !HasBlock(m.v, Pow2(m.v.bits), m.inode, l)
  {
    hide HasBlock, Mapper.Unreadable, Mapper.Stops, Pow2, Shr, Low, Volume.Lookup;
    Powers(m.v.bits);
    var size := m.v.BlockSize();
    var l: nat;
    if !ok {
      l :| l * size < from + len && from < (l + 1) * size && m.v.InRange(l) && m.Unreadable(l);
    } else {
      l := Shr(from + n, m.v.Bits());
      ShrLow(from + n, m.v.Bits());
      LowBelow(from + n, m.v.Bits());
      Arith.MulSucc(l, size);
    }
    if HasBlock(m.v, Pow2(m.v.bits), m.inode, l) {
      ReadableBlock(m, l);
    }
  }

  /** Reading a file from any position: every byte is the byte of the block that division of its position finds.  That
      goes for the sparse file, too, if block 0 leads to zeros wherever it is taken for a missing block. */
  method ReadWritten(m: Mapper, len: nat) returns (ok: bool, data: seq<Byte>)
    requires m.Valid() && !m.error && m.NoMark()
    requires len > 0 ==>
               var n, l := Pow2(m.v.bits), (m.filepos + len - 1) / (4 * Pow2(m.v.bits));
               l < 12 + n + n * n + n * n * n
    modifies m`mapblock1, m`mapblock2, m`filepos, m`error, m.buf1, m.buf2
    ensures ok ==> |data| <= len && m.filepos == old(m.filepos) + |data|
    ensures (forall l: nat :: l * (4 * Pow2(m.v.bits)) < old(m.filepos) + len &&
                              old(m.filepos) < (l + 1) * (4 * Pow2(m.v.bits)) ==>
                              HasBlock(m.v, Pow2(m.v.bits), m.inode, l)) ==>
              ok && |data| == len
    ensures ok ==> forall i :: 0 <= i < |data| ==>
                     FileByte(m.v, Pow2(m.v.bits), false, m.inode, old(m.filepos) + i, data[i])
    ensures ok && old(HolesRead(m.v, m.inode, m.filepos, len)) ==>
              forall i :: 0 <= i < |data| ==>
                FileByte(m.v, Pow2(m.v.bits), true, m.inode, old(m.filepos) + i, data[i])
  {
    hide FileByte, IsByte, HolesRead, HasBlock, Mapper.NoMark, Mapper.Unreadable, Mapper.Stops, Pow2, Shr, Low;
    ghost var from := m.filepos;
    Powers(m.v.bits);
    if len > 0 {
      SplitIsDivision(from + len - 1, m.v.Bits());
    }
    ok, data := m.Read(len);
    if !ok || |data| < len {
      SomethingMissing(m, from, len, ok, |data|);
    }
    if ok {
      forall i, holes | 0 <= i < |data| && HasBytes(m.v, holes, m.inode, data, from)
        ensures FileByte(m.v, Pow2(m.v.bits), holes, m.inode, from + i, data[i])
      {
        ByteIsDivision(m.v, holes, m.inode, from + i, data[i]);
      }
    }
  }
}
