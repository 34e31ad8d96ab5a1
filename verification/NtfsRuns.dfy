/**
 Run lists of NTFS attributes, and reading a file that is not compressed (loader/filesys/fsys_ntfs.c).
 */
module NtfsRuns {
  import opened Common
  import Arith

  function Wrap(x: int): Word { x % 0x1_0000_0000 }

  /** Memory behind the list reads as its end. */
  function ByteAt(s: seq<Byte>, i: nat): Byte { if i < |s| then s[i] else 0 }

  // ---------- Numbers of one run ----------

  function Pow256(n: nat): (p: nat)
    ensures p > 0
  {
    if n == 0 then 1 else 256 * Pow256(n - 1)
  }

  /** The number `n` bytes stand for, lowest byte first. */
  function Little(s: seq<Byte>, p: nat, n: nat): nat
    decreases n
  {
    if n == 0 then 0 else Little(s, p, n - 1) + Pow256(n - 1) * ByteAt(s, p + n - 1)
  }

  /** The same in two's complement. */
  function Signed(s: seq<Byte>, p: nat, n: nat): int {
    Little(s, p, n) - if n > 0 && ByteAt(s, p + n - 1) >= 128 then Pow256(n) else 0
  }

  /** The weight of byte `n` as a machine word. */
  function Weight(n: nat): Word { if n == 0 then 1 else Wrap(Weight(n - 1) * 256) }

  lemma SmallPowers()
    ensures Pow256(0) == 1 && Pow256(1) == 256 && Pow256(2) == 0x1_0000 && Pow256(3) == 0x100_0000
    ensures Pow256(4) == 0x1_0000_0000
    ensures Weight(1) == 256 && Weight(2) == 0x1_0000 && Weight(3) == 0x100_0000 && Weight(4) == 0
  {
    assert Pow256(3) == 256 * Pow256(2) && Pow256(2) == 256 * Pow256(1) && Pow256(1) == 256 * Pow256(0);
    assert Weight(3) == Wrap(Weight(2) * 256) && Weight(2) == Wrap(Weight(1) * 256);
    assert Weight(1) == Wrap(Weight(0) * 256);
  }

  lemma {:induction false} WeightIsPower(n: nat)
    ensures n < 4 ==> Weight(n) == Pow256(n)
    ensures n >= 4 ==> Weight(n) == 0
  {
    SmallPowers();
    if n > 4 {
      WeightIsPower(n - 1);
    }
  }

  lemma {:induction false} HighPowers(n: nat)
    requires n >= 4
    ensures Pow256(n) == 0x1_0000_0000 * Pow256(n - 4)
  {
    SmallPowers();
    if n > 4 {
      HighPowers(n - 1);
    }
  }

  lemma MultipleIsZero(q: int)
    ensures Wrap(0x1_0000_0000 * q) == 0
  {
  }

  lemma {:induction false} WrapAdds(a: int, b: int)
    ensures Wrap(a + b) == Wrap(Wrap(a) + Wrap(b))
  {
  }

  lemma {:induction false} WeightTimes(n: nat, b: Byte)
    ensures Wrap(Pow256(n) * b) == Wrap(Weight(n) * b)
  {
    WeightIsPower(n);
    if n >= 4 {
      HighPowers(n);
      assert Pow256(n) * b == 0x1_0000_0000 * (Pow256(n - 4) * b);
      MultipleIsZero(Pow256(n - 4) * b);
    }
  }

  /** x & m, for a mask of at most one bit */
  predicate HasBit(x: Word, m: Word) { m > 0 && x / m % 2 == 1 }

  lemma Unrolled(s: seq<Byte>, p: nat)
    ensures Little(s, p, 1) == ByteAt(s, p) && Little(s, p, 2) == ByteAt(s, p) + 0x100 * ByteAt(s, p + 1)
    ensures Little(s, p, 3) == Little(s, p, 2) + 0x1_0000 * ByteAt(s, p + 2)
  {
    SmallPowers();
    assert Little(s, p, 1) == Little(s, p, 0) + Pow256(0) * ByteAt(s, p);
    assert Little(s, p, 2) == Little(s, p, 1) + Pow256(1) * ByteAt(s, p + 1);
    assert Little(s, p, 3) == Little(s, p, 2) + Pow256(2) * ByteAt(s, p + 2);
  }

  /** The sign is the top bit of the last byte. */
  lemma {:induction false} SignBit(s: seq<Byte>, p: nat, n: nat)
    requires 0 < n < 4
    ensures Little(s, p, n) < 0x100_0000
    ensures HasBit(Wrap(Little(s, p, n)), Weight(n) / 2) <==> ByteAt(s, p + n - 1) >= 128
  {
    SmallPowers();
    Unrolled(s, p);
    var b0: nat, b1: nat, b2: nat := ByteAt(s, p), ByteAt(s, p + 1), ByteAt(s, p + 2);
    TopBit(b0, b1, b2);
    var x := Little(s, p, n);
    assert x == if n == 1 then b0 else if n == 2 then b0 + 0x100 * b1 else b0 + 0x100 * b1 + 0x1_0000 * b2;
    assert x < 0x100_0000 && Wrap(x) == x;
    assert Weight(n) / 2 == if n == 1 then 128 else if n == 2 then 0x8000 else 0x80_0000;
  }

  lemma TopBit(b0: nat, b1: nat, b2: nat)
    requires b0 < 256 && b1 < 256 && b2 < 256
    ensures b0 / 128 % 2 == 1 <==> b0 >= 128
    ensures (b0 + 0x100 * b1) / 0x8000 == b1 / 128 && (b1 / 128 % 2 == 1 <==> b1 >= 128)
    ensures (b0 + 0x100 * b1 + 0x1_0000 * b2) / 0x80_0000 == b2 / 128 && (b2 / 128 % 2 == 1 <==> b2 >= 128)
  {
  }

  lemma {:induction false} SignedWraps(s: seq<Byte>, p: nat, n: nat)
    ensures Wrap(Signed(s, p, n)) ==
            if HasBit(Wrap(Little(s, p, n)), Weight(n) / 2) then Wrap(Wrap(Little(s, p, n)) - Weight(n))
            else Wrap(Little(s, p, n))
  {
    hide Little, ByteAt;
    if 0 < n < 4 {
      hide Pow256, Weight, HasBit;
      SmallPowers();
      SignBit(s, p, n);
      assert Pow256(n) == Weight(n);
    } else if n >= 4 {
      hide Pow256;
      WeightIsPower(n);
      WideSigned(s, p, n);
    }
  }

  /** From four bytes on, the sign does not show in a word. */
  lemma {:induction false} WideSigned(s: seq<Byte>, p: nat, n: nat)
    requires n >= 4
    ensures Wrap(Signed(s, p, n)) == Wrap(Little(s, p, n))
  {
    hide Little, Pow256, ByteAt;
    HighPowers(n);
    var high: int := Pow256(n - 4);
    MultipleIsZero(-high);
    WrapAdds(Little(s, p, n), -(0x1_0000_0000 * high));
  }

  lemma LittleGrows(s: seq<Byte>, p: nat, n: nat)
    ensures Wrap(Little(s, p, n + 1)) == Wrap(Wrap(Little(s, p, n)) + Weight(n) * ByteAt(s, p + n))
  {
    var b := ByteAt(s, p + n);
    WeightTimes(n, b);
    WrapReplaces(Little(s, p, n), Pow256(n) * b, Weight(n) * b);
  }

  lemma WrapReplaces(l: int, x: int, y: int)
    requires Wrap(x) == Wrap(y)
    ensures Wrap(l + x) == Wrap(Wrap(l) + y)
  {
    WrapAdds(l, x);
    WrapAdds(Wrap(l), y);
  }

  method ReadRunData(s: seq<Byte>, at: nat, width: nat, sig: bool) returns (val: Word, run: nat)
    ensures val == Wrap(if sig then Signed(s, at, width) else Little(s, at, width)) && run == at + width
  {
    assert Little(s, at, 0) == 0;
    hide Little, Signed, Pow256, ByteAt;
    var r: Word, v: Word := 0, 1;
    var nn := width;
    run := at;
    while nn > 0
      invariant 0 <= nn <= width && run == at + (width - nn)
      invariant r == Wrap(Little(s, at, width - nn)) && v == Weight(width - nn)
    {
      LittleGrows(s, at, width - nn);
      r := Wrap(r + v * ByteAt(s, run));
      v := Wrap(v * 256);
      run := run + 1;
      nn := nn - 1;
    }
    SignedWraps(s, at, width);
    if sig && HasBit(r, v / 2) {
      r := Wrap(r - v);
    }
    val := r;
  }

  // ---------- The list ----------

  datatype Run = Run(length: nat, delta: int, next: nat)

  predicate EndsAt(s: seq<Byte>, p: nat) { ByteAt(s, p) % 16 == 0 }

  /** The run at position `p`: how many clusters it has, and how far they are behind those of the run before it. */
  function RunAt(s: seq<Byte>, p: nat): Run {
    var c1: nat, c2: nat := ByteAt(s, p) % 16, ByteAt(s, p) / 16;
    Run(Little(s, p + 1, c1), Signed(s, p + 1 + c1, c2), p + 1 + c1 + c2)
  }

  datatype Place = Nowhere | Hole | Sector(n: int)

  /** Where sector `q` of a file is; the runs from position `p` on start at cluster `vcn`, and the clusters of the run
      before them at cluster `lcn` of the disk. */
  function Where(s: seq<Byte>, p: nat, vcn: nat, lcn: int, spc: nat, q: nat): Place
    decreases |s| - p
  {
    if EndsAt(s, p) then Nowhere
    else
      var r := RunAt(s, p);
      if q < (vcn + r.length) * spc then
        if r.delta == 0 then Hole else Sector((lcn + r.delta) * spc + (q - vcn * spc))
      else Where(s, r.next, vcn + r.length, lcn + r.delta, spc, q)
  }

  /** All cluster numbers of the list fit a machine word. */
  predicate Fits(s: seq<Byte>, p: nat, vcn: nat, lcn: int)
    decreases |s| - p
  {
    EndsAt(s, p)
    || (var r := RunAt(s, p);
        vcn + r.length < 0x1_0000_0000 && 0 <= lcn + r.delta < 0x1_0000_0000
        && Fits(s, r.next, vcn + r.length, lcn + r.delta))
  }

  /** read_ctx of an attribute that is not compressed. */
  class Context {
    const runs: seq<Byte>        // the list
    const first: nat             // the first VCN of the attribute
    const disk: seq<seq<Byte>>   // the sectors of the partition
    const zeros: seq<Byte>       // an empty sector
    const spc: nat               // sectors per cluster
    const reliable: bool         // whether devread reads whatever lies on the disk
    var curRun: nat
    var targetVcn: Word
    var vcnOffset: nat
    var currVcn: Word
    var nextVcn: Word
    var currLcn: Word
    var blank: bool
    var error: bool              // a read has failed

    constructor (runs: seq<Byte>, first: Word, disk: seq<seq<Byte>>, zeros: seq<Byte>, spc: nat, reliable: bool)
      requires spc > 0
      ensures this.runs == runs && this.first == first && this.disk == disk && this.zeros == zeros && this.spc == spc
      ensures this.reliable == reliable
      ensures curRun == 0 && currVcn == nextVcn == first && currLcn == 0 && !error
    {
      this.runs, this.first, this.disk, this.zeros, this.spc := runs, first, disk, zeros, spc;
      this.reliable := reliable;
      curRun, targetVcn, vcnOffset, currVcn, nextVcn, currLcn, blank, error := 0, 0, 0, first, first, 0, false, false;
    }

    /** read_run_list, for an attribute without an attribute list: prefix sums of lengths and deltas. */
    method ReadRunList() returns (ok: bool)
      modifies this`curRun, this`currVcn, this`nextVcn, this`currLcn, this`blank
      ensures ok <==> !old(EndsAt(runs, curRun))
      ensures ok ==> var r := old(RunAt(runs, curRun));
              && curRun == r.next && currVcn == old(nextVcn) && nextVcn == Wrap(old(nextVcn) + r.length)
              && currLcn == Wrap(old(currLcn) + r.delta) && (blank <==> Wrap(r.delta) == 0)
      ensures !ok ==> unchanged(this)
    {
      hide Little, Signed, Wrap;
      var c1: nat, c2: nat := ByteAt(runs, curRun) % 16, ByteAt(runs, curRun) / 16;
      if c1 == 0 {
        return false;
      }
      var length, run := ReadRunData(runs, curRun + 1, c1, false);
      WrapWord(nextVcn, Little(runs, curRun + 1, c1));
      currVcn := nextVcn;
      nextVcn := Wrap(nextVcn + length);
      ghost var delta := Signed(runs, run, c2);
      WrapWord(currLcn, delta);
      var offset;
      offset, curRun := ReadRunData(runs, run, c2, true);
      currLcn := Wrap(currLcn + offset);
      blank := offset == 0;
      ok := true;
    }

    // ---------- Where the file is ----------

    /** Where sector `q` of the file is. */
    ghost function File(q: nat): Place { Where(runs, 0, first, 0, spc, q) }

    /** Where the context places it. */
    ghost function Now(q: nat): Place
      reads this
    {
      if q < nextVcn * spc then if blank then Hole else Sector(currLcn * spc + (q - currVcn * spc))
      else Where(runs, curRun, nextVcn, currLcn, spc, q)
    }

    /** From sector `lo` on, the context places the file right. */
    ghost predicate Tracks(lo: nat)
      reads this
    {
      && spc > 0 && Fits(runs, curRun, nextVcn, currLcn)
      && forall q: nat :: q >= lo ==> Now(q) == File(q)
    }

    /** The next sector to read. */
    ghost function Position(): nat
      reads this
    {
      targetVcn * spc + vcnOffset
    }

    ghost predicate Valid()
      reads this
    {
      && spc > 0 && vcnOffset < spc && currVcn * spc <= Position() <= nextVcn * spc && Tracks(Position())
    }

    /** The next run, once all sectors of the current one lie behind. */
    method TakeRun(ghost lo: nat) returns (ok: bool)
      requires Tracks(lo) && nextVcn * spc <= lo
      modifies this`curRun, this`currVcn, this`nextVcn, this`currLcn, this`blank
      ensures ok ==> Tracks(lo) && currVcn == old(nextVcn) && currVcn * spc <= nextVcn * spc
      ensures ok ==> old(curRun) < |runs| && old(curRun) < curRun
      ensures !ok ==> unchanged(this) && forall q: nat :: q >= lo ==> File(q) == Nowhere
    {
      ghost var at, vcn, lcn := curRun, nextVcn, currLcn;
      ok := ReadRunList();
      if ok {
        Arith.MulMonotone(currVcn, nextVcn, spc);
        assert nextVcn == vcn + RunAt(runs, at).length && currLcn == lcn + RunAt(runs, at).delta;
        forall q: nat | q >= lo
          ensures Now(q) == File(q)
        {
          assert File(q) == Where(runs, at, vcn, lcn, spc, q);
        }
      } else {
        forall q: nat | q >= lo
          ensures File(q) == Nowhere
        {
          assert File(q) == Where(runs, at, vcn, lcn, spc, q);
        }
      }
    }

    // ---------- Reading ----------

    /** The sector is what the place holds. */
    ghost predicate Shows(place: Place, sector: seq<Byte>) {
      match place
      case Nowhere => false
      case Hole => sector == zeros
      case Sector(n) => 0 <= n < |disk| && sector == disk[n]
    }

    ghost predicate HasSectors(data: seq<seq<Byte>>, from: nat) {
      forall q :: from <= q < from + |data| ==> Shows(File(q), data[q - from])
    }

    /** Sector `q` of the file can be read. */
    ghost predicate Readable(q: nat) {
      var place := File(q);
      place.Hole? || (place.Sector? && 0 <= place.n < |disk|)
    }

    ghost predicate SomeUnreadable(from: nat, n: nat) { exists q: nat :: from <= q < from + n && !Readable(q) }

    lemma UnreadableAt(q: nat, from: nat, n: nat)
      requires from <= q < from + n && !Readable(q)
      ensures SomeUnreadable(from, n)
    {
    }

    lemma UnreadableInside(at: nat, k: nat, from: nat, n: nat)
      requires SomeUnreadable(at, k) && from <= at && at + k <= from + n
      ensures SomeUnreadable(from, n)
    {
    }

    /** devread: sectors of the partition, unless the read fails. */
    method DevRead(sector: int, count: nat) returns (ok: bool, data: seq<seq<Byte>>)
      modifies this`error
      ensures ok ==> 0 <= sector && sector + count <= |disk| && data == disk[sector..sector + count]
      ensures ok ==> error == old(error)
      ensures !ok ==> error && (reliable ==> sector < 0 || sector + count > |disk|)
    {
      ok, data := false, [];
      if sector < 0 || sector + count > |disk| {
        error := true;
        return;
      }
      var works := *;
      if !works && !reliable {
        error := true;
        return;
      }
      ok, data := true, disk[sector..sector + count];
    }

    /** `nn` sectors of the current run. */
    method ReadPiece(nn: nat) returns (ok: bool, data: seq<seq<Byte>>)
      requires Valid() && 0 < nn && Position() + nn <= nextVcn * spc
      modifies this`error
      ensures Valid() && Position() == old(Position())
      ensures ok ==> |data| == nn && HasSectors(data, Position()) && error == old(error)
      ensures !ok ==> error && (reliable ==> SomeUnreadable(Position(), nn))
    {
      ghost var at := Position();
      assert forall q: nat :: at <= q < at + nn ==> Now(q) == File(q);
      if blank {
        ok, data := true, seq(nn, i => zeros);
      } else {
        Arith.MulAdd(targetVcn, currVcn, spc);
        Arith.MulAdd(targetVcn - currVcn, currLcn, spc);
        ok, data := DevRead((targetVcn - currVcn + currLcn) * spc + vcnOffset, nn);
        if !ok && reliable {
          UnreadableAt(if Readable(at) then at + nn - 1 else at, at, nn);
        }
      }
    }

    lemma JoinSectors(a: seq<seq<Byte>>, b: seq<seq<Byte>>, from: nat)
      requires HasSectors(a, from) && HasSectors(b, from + |a|)
      ensures HasSectors(a + b, from)
    {
      forall q | from <= q < from + |a + b|
        ensures Shows(File(q), (a + b)[q - from])
      {
        assert q >= from + |a| ==> (a + b)[q - from] == b[q - (from + |a|)];
      }
    }

    /** Moves the position by `nn` sectors. */
    method Advance(nn: nat)
      requires Valid() && Position() + nn <= nextVcn * spc
      modifies this`targetVcn, this`vcnOffset
      ensures vcnOffset < spc && Position() == old(Position()) + nn
      ensures targetVcn >= nextVcn <==> Position() == nextVcn * spc
    {
      var ss := targetVcn * spc + vcnOffset + nn;
      QuotientBelow(ss, spc, nextVcn);
      targetVcn, vcnOffset := ss / spc, ss % spc;
    }

    /** Positions the context on sector `q`, if the list has it. */
    method Seek(q: nat) returns (ok: bool)
      requires spc > 0 && curRun == 0 && currVcn == nextVcn == first && currLcn == 0 && Fits(runs, 0, first, 0)
      requires first * spc <= q && q / spc < 0x1_0000_0000
      modifies this`targetVcn, this`vcnOffset, this`curRun, this`currVcn, this`nextVcn, this`currLcn, this`blank
      ensures ok ==> Valid() && Position() == q
      ensures ok <==> File(q) != Nowhere
    {
      targetVcn, vcnOffset := q / spc, q % spc;
      Arith.DivMod(q, spc, q / spc, q % spc);
      while nextVcn <= targetVcn
        invariant Tracks(q) && Position() == q && vcnOffset < spc && currVcn * spc <= q
        decreases |runs| - curRun
      {
        Arith.MulMonotone(nextVcn, targetVcn, spc);
        ok := TakeRun(q);
        if !ok {
          return;
        }
      }
      Arith.MulMonotone(targetVcn + 1, nextVcn, spc);
      Arith.MulAdd(targetVcn, 1, spc);
      assert Now(q) == File(q);
      ok := true;
    }

    /** What the current run has of the next `num` sectors. */
    method ReadCurrent(num: nat) returns (ok: bool, piece: seq<seq<Byte>>)
      requires Valid()
      modifies this`targetVcn, this`vcnOffset, this`error
      ensures ok ==> Valid() && Position() == old(Position()) + |piece| && HasSectors(piece, old(Position()))
      ensures ok ==> |piece| <= num && error == old(error)
      ensures ok && |piece| < num ==> Position() == nextVcn * spc && targetVcn >= nextVcn
      ensures !ok ==> error
      ensures !ok && reliable ==> SomeUnreadable(old(Position()), num)
    {
      Arith.MulAdd(nextVcn, targetVcn, spc);
      var nn := (nextVcn - targetVcn) * spc - vcnOffset;
      if nn > num {
        nn := num;
      }
      ok, piece := true, [];
      if nn != 0 {
        ghost var at := Position();
        ok, piece := ReadPiece(nn);
        if !ok {
          if reliable {
            UnreadableInside(at, nn, at, num);
          }
          return;
        }
      }
      Advance(nn);
    }

    /** read_block: the sectors asked for, as the list places them; it fails only if a read fails or the list ends. */
    method ReadBlock(count: nat) returns (ok: bool, buf: seq<seq<Byte>>)
      requires Valid()
      modifies this`targetVcn, this`vcnOffset, this`error
      modifies this`curRun, this`currVcn, this`nextVcn, this`currLcn, this`blank
      ensures ok ==> |buf| == count && HasSectors(buf, old(Position())) && error == old(error)
      ensures ok ==> Valid() && Position() == old(Position()) + count
      ensures !ok ==> error || exists q: nat :: old(Position()) <= q < old(Position()) + count && File(q) == Nowhere
      ensures !ok && reliable ==> SomeUnreadable(old(Position()), count)
    {
      buf := [];
      assert HasSectors(buf, Position());
      hide HasSectors, SomeUnreadable, Where, Fits;
      var num := count;
      ghost var start := Position();
      while num > 0
        invariant 0 <= num == count - |buf| && Valid() && Position() == start + |buf| && HasSectors(buf, start)
        invariant error == old(error)
        decreases num, |runs| - curRun
      {
        var piece;
        ghost var at := Position();
        ok, piece := ReadCurrent(num);
        if !ok {
          if reliable {
            UnreadableInside(at, num, start, count);
          }
          return;
        }
        JoinSectors(buf, piece, start);
        buf := buf + piece;
        num := num - |piece|;
        if num == 0 {
          break;
        }
        if targetVcn >= nextVcn {
          ok := TakeRun(Position());
          if !ok {
            assert File(Position()) == Nowhere;
            UnreadableAt(Position(), start, count);
            return;
          }
        }
      }
      ok := true;
    }
  }

  lemma QuotientBelow(x: nat, m: nat, w: nat)
    requires m > 0 && x <= w * m
    ensures x / m <= w && (x / m == w <==> x == w * m)
    ensures (x / m) * m + x % m == x && 0 <= x % m < m
  {
    if x == w * m {
      Arith.DivMod(x, m, w, 0);
    } else {
      Arith.DivBelow(x, m, w);
    }
  }

  lemma WrapWord(w: Word, x: int)
    ensures Wrap(w + x) == Wrap(w + Wrap(x))
  {
    WrapAdds(w, x);
    WrapAdds(w, Wrap(x));
  }
}
