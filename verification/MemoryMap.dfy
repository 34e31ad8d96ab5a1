/**
 The end of the memory that is available from an address on, from the BIOS memory map
 (loader/preldr/common.c; section 15.1 of the ACPI specification).
 */
module MemoryMap {
  import opened Common

  const MB_ARD_MEMORY := 1

  type Quad = w: int | 0 <= w < 0x1_0000_0000_0000_0000

  datatype Region = Region(base: Quad, length: Quad, kind: Word)

  /** The end of a region, in 64 bits. */
  function End(r: Region): Quad { (r.base + r.length) % 0x1_0000_0000_0000_0000 }

  predicate Covers(r: Region, a: nat) { r.kind == MB_ARD_MEMORY && r.base <= a < End(r) }

  /** Some available region has the address. */
  predicate Available(rs: seq<Region>, a: nat) { exists i :: 0 <= i < |rs| && Covers(rs[i], a) }

  /** That is, one of type 1 which the address is in; one whose end is beyond 64 bits has none. */
  lemma AvailableMemory(rs: seq<Region>, a: nat)
    ensures Available(rs, a) <==>
            exists i :: 0 <= i < |rs| && rs[i].kind == 1 && rs[i].base <= a < rs[i].base + rs[i].length
                        && rs[i].base + rs[i].length < 0x1_0000_0000_0000_0000
  {
    forall i | 0 <= i < |rs|
      ensures Covers(rs[i], a) <==>
              && rs[i].kind == 1 && rs[i].base <= a < rs[i].base + rs[i].length
              && rs[i].base + rs[i].length < 0x1_0000_0000_0000_0000
    {
      var end: int := rs[i].base + rs[i].length;
      assert end < 0x1_0000_0000_0000_0000 ==> End(rs[i]) == end;
      assert end >= 0x1_0000_0000_0000_0000 ==> End(rs[i]) == end - 0x1_0000_0000_0000_0000;
    }
  }

  /** Everything from `bottom` up to `top` is available, and `top` is not. */
  ghost predicate IsTop(rs: seq<Region>, bottom: nat, top: nat) {
    && bottom <= top && !Available(rs, top)
    && forall a: nat :: bottom <= a < top ==> Available(rs, a)
  }

  /** There is at most one such top, and it depends on nothing but which addresses are available: not on the order
      of the regions, nor on whether they overlap or are listed twice. */
  lemma TopIsUnique(rs: seq<Region>, ts: seq<Region>, bottom: nat, top: nat, other: nat)
    requires IsTop(rs, bottom, top) && IsTop(ts, bottom, other)
    requires forall a: nat :: Available(rs, a) <==> Available(ts, a)
    ensures top == other
  {
    assert top < other ==> Available(ts, top);
    assert other < top ==> Available(rs, other);
  }

  /** Lists of the same regions make the same addresses available. */
  lemma SameRegions(rs: seq<Region>, ts: seq<Region>)
    requires forall r :: r in rs <==> r in ts
    ensures forall a: nat :: Available(rs, a) <==> Available(ts, a)
  {
    forall a: nat
      ensures Available(rs, a) <==> Available(ts, a)
    {
      SameRegionsOneWay(rs, ts, a);
      SameRegionsOneWay(ts, rs, a);
    }
  }

  lemma SameRegionsOneWay(rs: seq<Region>, ts: seq<Region>, a: nat)
    requires forall r :: r in rs ==> r in ts
    ensures Available(rs, a) ==> Available(ts, a)
  {
    if Available(rs, a) {
      var i :| 0 <= i < |rs| && Covers(rs[i], a);
      assert rs[i] in ts;
      var j :| 0 <= j < |ts| && ts[j] == rs[i];
      assert Covers(ts[j], a);
    }
  }

  /** How many regions end above an address. */
  function Above(rs: seq<Region>, a: nat, n: nat): nat
    requires n <= |rs|
  {
    if n == 0 then 0 else Above(rs, a, n - 1) + if End(rs[n - 1]) > a then 1 else 0
  }

  lemma {:induction false} AboveShrinks(rs: seq<Region>, a: nat, b: nat, n: nat)
    requires n <= |rs| && a <= b
    ensures Above(rs, b, n) <= Above(rs, a, n)
    ensures (exists i :: 0 <= i < n && a < End(rs[i]) <= b) ==> Above(rs, b, n) < Above(rs, a, n)
    decreases n
  {
    if n > 0 {
      AboveShrinks(rs, a, b, n - 1);
    }
  }

  class Mmap {
    const regions: seq<Region>

    constructor (regions: seq<Region>)
      ensures this.regions == regions
    {
      this.regions := regions;
    }

    /** One pass over the map: raises `top`, past available addresses only. */
    method Pass(bottom: nat, from: nat) returns (top: nat, cont: nat)
      requires bottom <= from && forall a: nat :: bottom <= a < from ==> Available(regions, a)
      ensures from <= top && forall a: nat :: bottom <= a < top ==> Available(regions, a)
      ensures cont == 0 ==> top == from && !Available(regions, top)
      ensures cont > 0 ==> Above(regions, top, |regions|) < Above(regions, from, |regions|)
    {
      top, cont := from, 0;
      var i := 0;
      while i < |regions|
        invariant 0 <= i <= |regions| && from <= top
        invariant forall a: nat :: bottom <= a < top ==> Available(regions, a)
        invariant cont == 0 ==> top == from && forall j :: 0 <= j < i ==> !Covers(regions[j], top)
        invariant cont > 0 ==> exists j :: 0 <= j < i && from < End(regions[j]) <= top
      {
        var desc := regions[i];
        if desc.kind == MB_ARD_MEMORY && desc.base <= top && End(desc) > top {
          forall a: nat | bottom <= a < End(desc)
            ensures Available(regions, a)
          {
            if a >= top {
              assert Covers(regions[i], a);
            }
          }
          top := End(desc);
          cont := cont + 1;
        }
        i := i + 1;
      }
      AboveShrinks(regions, from, top, |regions|);
    }

    /** mmap_avail_at: how much memory is available from `bottom` on, in 32 bits. */
    method AvailAt(bottom: Word) returns (size: Word)
      ensures exists top: nat :: IsTop(regions, bottom, top) && size == (top - bottom) % 0x1_0000_0000
    {
      hide Available, Above;
      var top: nat := bottom;
      while true
        invariant bottom <= top && forall a: nat :: bottom <= a < top ==> Available(regions, a)
        decreases Above(regions, top, |regions|)
      {
        var cont;
        top, cont := Pass(bottom, top);
        if cont == 0 {
          break;
        }
      }
      assert IsTop(regions, bottom, top);
      size := (top % 0x1_0000_0000 - bottom) % 0x1_0000_0000;
    }
  }

  /** A machine of 512 MB: 639 kB in front of a reserved region, and the rest in two pieces from 1 MB on, listed the
      other way round. */
  method Example() returns (below: Word, above: Word)
    ensures below == 0x9_FC00 && above == 0x1FF0_0000
  {
    var mmap := new Mmap([Region(0x100_0000, 0x1F00_0000, 1), Region(0, 0x9_FC00, 1), Region(0xF_0000, 0x1_0000, 2),
                         Region(0x10_0000, 0xF0_0000, 1)]);
    ghost var rs := mmap.regions;
    forall a: nat
      ensures Available(rs, a) <==>
              0x100_0000 <= a < 0x2000_0000 || a < 0x9_FC00 || 0x10_0000 <= a < 0x100_0000
    {
      assert Covers(rs[0], a) <==> 0x100_0000 <= a < 0x2000_0000;
      assert Covers(rs[1], a) <==> a < 0x9_FC00;
      assert !Covers(rs[2], a);
      assert Covers(rs[3], a) <==> 0x10_0000 <= a < 0x100_0000;
    }
    assert IsTop(rs, 0, 0x9_FC00) && IsTop(rs, 0x10_0000, 0x2000_0000);
    below := mmap.AvailAt(0);
    above := mmap.AvailAt(0x10_0000);
    ghost var top: nat :| IsTop(rs, 0, top) && below == top % 0x1_0000_0000;
    TopIsUnique(rs, rs, 0, top, 0x9_FC00);
    ghost var end: nat :| IsTop(rs, 0x10_0000, end) && above == (end - 0x10_0000) % 0x1_0000_0000;
    TopIsUnique(rs, rs, 0x10_0000, end, 0x2000_0000);
  }
}
