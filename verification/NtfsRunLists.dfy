/**
 NTFS run lists as they are written, and what reading a file through one delivers (loader/filesys/fsys_ntfs.c).
 */
module NtfsRunLists {
  import opened Common
  import Arith
  import opened NtfsRuns

  // ---------- Numbers ----------

  /** `n` bytes of a number, lowest first; a negative one in two's complement. */
  function Bytes(x: int, n: nat): (s: seq<Byte>)
    ensures |s| == n
    decreases n
  {
    if n == 0 then [] else [x % 0x100] + Bytes(x / 0x100, n - 1)
  }

  predicate Unsigned(x: int, n: nat)
    decreases n
  {
    if n == 0 then x == 0 else x >= 0 && Unsigned(x / 0x100, n - 1)
  }

  predicate TwosComplement(x: int, n: nat)
    decreases n
  {
    if n == 0 then x == 0 else if n == 1 then -128 <= x < 128 else TwosComplement(x / 0x100, n - 1)
  }

  ghost predicate Stands(s: seq<Byte>, p: nat, b: seq<Byte>) {
    p + |b| <= |s| && forall i :: 0 <= i < |b| ==> s[p + i] == b[i]
  }

  lemma StandsOn(s: seq<Byte>, p: nat, a: seq<Byte>, b: seq<Byte>)
    requires Stands(s, p, a + b)
    ensures Stands(s, p, a) && Stands(s, p + |a|, b)
  {
    var c := a + b;
    forall i | 0 <= i < |a|
      ensures s[p + i] == a[i]
    {
      assert c[i] == a[i];
    }
    forall i | 0 <= i < |b|
      ensures s[p + |a| + i] == b[i]
    {
      assert s[p + (|a| + i)] == c[|a| + i];
    }
  }

  lemma {:induction false} LittleHead(s: seq<Byte>, p: nat, n: nat)
    requires n > 0
    ensures Little(s, p, n) == ByteAt(s, p) + 0x100 * Little(s, p + 1, n - 1)
  {
    if n > 1 {
      LittleHead(s, p, n - 1);
      var b: int, w: int := ByteAt(s, p + n - 1), Pow256(n - 2);
      assert Pow256(n - 1) == 0x100 * w;
      assert 0x100 * w * b == 0x100 * (w * b);
    } else {
      assert Pow256(0) == 1 && Little(s, p, 0) == 0 && Little(s, p + 1, 0) == 0;
      assert Little(s, p, 1) == Little(s, p, 0) + Pow256(0) * ByteAt(s, p);
    }
  }

  lemma BytesStand(s: seq<Byte>, p: nat, x: int, n: nat)
    requires n > 0 && Stands(s, p, Bytes(x, n))
    ensures ByteAt(s, p) == x % 0x100 && Stands(s, p + 1, Bytes(x / 0x100, n - 1))
  {
    var first: seq<Byte> := [x % 0x100];
    StandsOn(s, p, first, Bytes(x / 0x100, n - 1));
    assert first[0] == x % 0x100;
  }

  lemma {:induction false} LittleOfBytes(s: seq<Byte>, p: nat, x: int, n: nat)
    requires Unsigned(x, n) && Stands(s, p, Bytes(x, n))
    ensures Little(s, p, n) == x
    decreases n
  {
    hide Bytes, Stands;
    if n > 0 {
      BytesStand(s, p, x, n);
      LittleOfBytes(s, p + 1, x / 0x100, n - 1);
      LittleHead(s, p, n);
    }
  }

  lemma SignedHead(s: seq<Byte>, p: nat, n: nat)
    requires n > 1
    ensures Signed(s, p, n) == ByteAt(s, p) + 0x100 * Signed(s, p + 1, n - 1)
  {
    hide Little, ByteAt;
    LittleHead(s, p, n);
    assert Pow256(n) == 0x100 * Pow256(n - 1);
  }

  lemma {:induction false} SignedOfBytes(s: seq<Byte>, p: nat, x: int, n: nat)
    requires TwosComplement(x, n) && Stands(s, p, Bytes(x, n))
    ensures Signed(s, p, n) == x
    decreases n
  {
    hide Bytes, Stands;
    if n > 0 {
      BytesStand(s, p, x, n);
    }
    if n == 1 {
      LittleHead(s, p, 1);
      SmallPowers();
    } else if n > 1 {
      SignedOfBytes(s, p + 1, x / 0x100, n - 1);
      SignedHead(s, p, n);
    }
  }

  // ---------- Lists ----------

  /** A run: how many clusters, and how far they are behind those of the run before it, 0 if there are none; and the
      widths of both numbers. */
  datatype Extent = Extent(length: nat, delta: int, lengthWidth: nat, deltaWidth: nat)
  {
    predicate Valid() {
      && 0 < lengthWidth < 16 && deltaWidth < 16
      && Unsigned(length, lengthWidth) && TwosComplement(delta, deltaWidth)
    }

    function Written(): (s: seq<Byte>)
      requires Valid()
    {
      [deltaWidth * 0x10 + lengthWidth] + (Bytes(length, lengthWidth) + Bytes(delta, deltaWidth))
    }
  }

  predicate AllValid(rs: seq<Extent>) { forall i :: 0 <= i < |rs| ==> rs[i].Valid() }

  /** The runs, and a 0 behind them. */
  function List(rs: seq<Extent>): seq<Byte>
    requires AllValid(rs)
  {
    if rs == [] then [0] else rs[0].Written() + List(rs[1..])
  }

  lemma RunIsWritten(s: seq<Byte>, p: nat, r: Extent)
    requires r.Valid() && Stands(s, p, r.Written())
    ensures !EndsAt(s, p) && RunAt(s, p) == Run(r.length, r.delta, p + |r.Written()|)
  {
    hide Bytes, Little, Signed, Unsigned, TwosComplement;
    var a, b := Bytes(r.length, r.lengthWidth), Bytes(r.delta, r.deltaWidth);
    var header: seq<Byte> := [r.deltaWidth * 0x10 + r.lengthWidth];
    StandsOn(s, p, header, a + b);
    StandsOn(s, p + 1, a, b);
    assert header[0] == r.deltaWidth * 0x10 + r.lengthWidth;
    LittleOfBytes(s, p + 1, r.length, r.lengthWidth);
    SignedOfBytes(s, p + 1 + r.lengthWidth, r.delta, r.deltaWidth);
  }

  lemma {:induction false} ListStands(s: seq<Byte>, p: nat, rs: seq<Extent>)
    requires AllValid(rs) && Stands(s, p, List(rs))
    ensures rs == [] ==> EndsAt(s, p)
    ensures rs != [] ==>
      && AllValid(rs[1..]) && !EndsAt(s, p)
      && RunAt(s, p).length == rs[0].length && RunAt(s, p).delta == rs[0].delta
      && Stands(s, RunAt(s, p).next, List(rs[1..]))
  {
    hide Bytes, RunAt;
    var list := List(rs);
    assert rs == [] ==> list[0] == 0;
    if rs != [] {
      StandsOn(s, p, rs[0].Written(), List(rs[1..]));
      RunIsWritten(s, p, rs[0]);
    }
  }

  // ---------- Prefix sums ----------

  /** What is known behind a run: its clusters are those from `vcn` to `next` of the file, from `lcn` of the disk on. */
  datatype Step = Step(vcn: nat, next: nat, lcn: int, blank: bool)

  function Sums(rs: seq<Extent>, vcn: nat, lcn: int): seq<Step> {
    if rs == [] then []
    else
      var (next, l) := (vcn + rs[0].length, lcn + rs[0].delta);
      [Step(vcn, next, l, rs[0].delta == 0)] + Sums(rs[1..], next, l)
  }

  /** All cluster numbers fit a word. */
  predicate SumsFit(rs: seq<Extent>, vcn: nat, lcn: int) {
    rs == [] ||
    (&& vcn + rs[0].length < 0x1_0000_0000 && 0 <= lcn + rs[0].delta < 0x1_0000_0000
     && SumsFit(rs[1..], vcn + rs[0].length, lcn + rs[0].delta))
  }

  lemma {:induction false} SumsAreFits(s: seq<Byte>, p: nat, rs: seq<Extent>, vcn: nat, lcn: int)
    requires AllValid(rs) && Stands(s, p, List(rs)) && SumsFit(rs, vcn, lcn)
    ensures Fits(s, p, vcn, lcn)
    decreases |rs|
  {
    hide RunAt, List, EndsAt;
    ListStands(s, p, rs);
    if rs != [] {
      SumsAreFits(s, RunAt(s, p).next, rs[1..], vcn + rs[0].length, lcn + rs[0].delta);
    }
  }

  lemma DeltaWraps(delta: int, lcn: nat)
    requires lcn < 0x1_0000_0000 && 0 <= lcn + delta < 0x1_0000_0000
    ensures Wrap(lcn + delta) == lcn + delta && (Wrap(delta) == 0 <==> delta == 0)
  {
  }

  /** read_run_list, again and again, from the start of a written list. */
  method TakeAll(c: Context, ghost rs: seq<Extent>) returns (seen: seq<Step>)
    requires AllValid(rs) && Stands(c.runs, c.curRun, List(rs)) && SumsFit(rs, c.nextVcn, c.currLcn)
    modifies c`curRun, c`currVcn, c`nextVcn, c`currLcn, c`blank
    ensures seen == Sums(rs, old(c.nextVcn), old(c.currLcn))
  {
    hide List, RunAt, EndsAt, Stands, Wrap;
    seen := [];
    ghost var rest, all := rs, Sums(rs, c.nextVcn, c.currLcn);
    while true
      invariant AllValid(rest) && Stands(c.runs, c.curRun, List(rest)) && SumsFit(rest, c.nextVcn, c.currLcn)
      invariant all == seen + Sums(rest, c.nextVcn, c.currLcn)
      decreases |rest|
    {
      ListStands(c.runs, c.curRun, rest);
      ghost var vcn, lcn := c.nextVcn, c.currLcn;
      var ok := c.ReadRunList();
      if !ok {
        break;
      }
      DeltaWraps(rest[0].delta, lcn);
      DeltaWraps(rest[0].length, vcn);
      var step := Step(c.currVcn, c.nextVcn, c.currLcn, c.blank);
      Assoc(seen, [step], Sums(rest[1..], c.nextVcn, c.currLcn));
      seen := seen + [step];
      rest := rest[1..];
    }
    assert seen + [] == seen;
  }

  // ---------- Reading ----------

  /** The sectors of the file, in order: sectors of the disk, or None where it has none. */
  function Sectors(rs: seq<Extent>, lcn: int, spc: nat): seq<Option<int>> {
    if rs == [] then []
    else
      var l := lcn + rs[0].delta;
      seq(rs[0].length * spc, i requires 0 <= i => if rs[0].delta == 0 then None else Some(l * spc + i))
      + Sectors(rs[1..], l, spc)
  }

  lemma {:induction false} WhereIsWritten(s: seq<Byte>, p: nat, rs: seq<Extent>, vcn: nat, lcn: int, spc: nat, q: nat)
    requires AllValid(rs) && Stands(s, p, List(rs)) && q >= vcn * spc
    ensures var all, i := Sectors(rs, lcn, spc), q - vcn * spc;
      Where(s, p, vcn, lcn, spc, q) ==
      if i >= |all| then Nowhere else if all[i].None? then Hole else Sector(all[i].value)
    decreases |rs|
  {
    hide List, RunAt, EndsAt, Stands;
    ListStands(s, p, rs);
    if rs != [] {
      Arith.MulAdd(vcn, rs[0].length, spc);
      if q >= (vcn + rs[0].length) * spc {
        WhereIsWritten(s, RunAt(s, p).next, rs[1..], vcn + rs[0].length, lcn + rs[0].delta, spc, q);
      }
    }
  }

  /** `sector` is what is there. */
  predicate Shows(sector: seq<Byte>, at: Option<int>, disk: seq<seq<Byte>>, zeros: seq<Byte>) {
    match at
    case None => sector == zeros
    case Some(n) => 0 <= n < |disk| && sector == disk[n]
  }

  /** The sectors read are those of the file from number `from` on. */
  ghost predicate IsRead(data: seq<seq<Byte>>, all: seq<Option<int>>, from: int, disk: seq<seq<Byte>>, zeros: seq<Byte>)
  {
    && 0 <= from && from + |data| <= |all|
    && forall i :: 0 <= i < |data| ==> Shows(data[i], all[from + i], disk, zeros)
  }

  /** The context is one of a file of these sectors. */
  ghost predicate Knows(c: Context, all: seq<Option<int>>) {
    forall q: nat :: q >= c.first * c.spc ==>
      var i := q - c.first * c.spc;
      c.File(q) == if i >= |all| then Nowhere else if all[i].None? then Hole else Sector(all[i].value)
  }

  lemma {:induction false} ContextKnows(c: Context, rs: seq<Extent>)
    requires AllValid(rs) && List(rs) <= c.runs
    ensures Knows(c, Sectors(rs, 0, c.spc))
  {
    hide List, Sectors, Where;
    assert Stands(c.runs, 0, List(rs));
    forall q: nat | q >= c.first * c.spc
      ensures var all, i := Sectors(rs, 0, c.spc), q - c.first * c.spc;
        c.File(q) == if i >= |all| then Nowhere else if all[i].None? then Hole else Sector(all[i].value)
    {
      WhereIsWritten(c.runs, 0, rs, c.first, 0, c.spc, q);
    }
  }

  lemma SectorIsRead(c: Context, all: seq<Option<int>>, data: seq<seq<Byte>>, q: nat, i: nat)
    requires Knows(c, all) && q >= c.first * c.spc && c.HasSectors(data, q) && i < |data|
    ensures var k := q - c.first * c.spc + i; k < |all| && Shows(data[i], all[k], c.disk, c.zeros)
  {
    hide Where;
    assert c.Shows(c.File(q + i), data[q + i - q]);
  }

  lemma SectorsAreRead(c: Context, all: seq<Option<int>>, data: seq<seq<Byte>>, q: nat)
    requires Knows(c, all) && q >= c.first * c.spc && q - c.first * c.spc <= |all| && c.HasSectors(data, q)
    ensures IsRead(data, all, q - c.first * c.spc, c.disk, c.zeros)
  {
    hide Where, Knows, Context.HasSectors, Shows;
    if data != [] {
      SectorIsRead(c, all, data, q, |data| - 1);
    }
    forall i: nat | i < |data|
      ensures Shows(data[i], all[q - c.first * c.spc + i], c.disk, c.zeros)
    {
      SectorIsRead(c, all, data, q, i);
    }
  }

  /** The sectors wanted are there, and on the disk. */
  predicate AllOnDisk(all: seq<Option<int>>, from: int, count: nat, disk: nat) {
    && 0 <= from && from + count <= |all|
    && forall i :: from <= i < from + count ==> all[i].None? || 0 <= all[i].value < disk
  }

  lemma SomethingOffDisk(c: Context, all: seq<Option<int>>, q: nat, count: nat)
    requires Knows(c, all) && q >= c.first * c.spc && c.SomeUnreadable(q, count)
    ensures !AllOnDisk(all, q - c.first * c.spc, count, |c.disk|)
  {
    hide Where;
    var s: nat :| q <= s < q + count && !c.Readable(s);
    var i := s - c.first * c.spc;
    assert i < |all| ==> all[i] in all;
  }

  lemma {:induction false} ListFits(runs: seq<Byte>, rs: seq<Extent>, first: nat)
    requires AllValid(rs) && SumsFit(rs, first, 0) && List(rs) <= runs
    ensures Fits(runs, 0, first, 0)
  {
    assert Stands(runs, 0, List(rs));
    SumsAreFits(runs, 0, rs, first, 0);
  }

  /** Reading `count` sectors from number `q` on of a file that starts with cluster `first` (0, unless other records
      describe what is in front of it). */
  method ReadWritten(disk: seq<seq<Byte>>, zeros: seq<Byte>, spc: nat, first: Word, runs: seq<Byte>, q: nat, count: nat,
                     reliable: bool, ghost rs: seq<Extent>)
    returns (found: bool, ok: bool, error: bool, data: seq<seq<Byte>>)
    requires spc > 0 && AllValid(rs) && SumsFit(rs, first, 0) && List(rs) <= runs
    requires first * spc <= q && q / spc < 0x1_0000_0000
    ensures found <==> q - first * spc < |Sectors(rs, 0, spc)|
    ensures ok ==> found && |data| == count && IsRead(data, Sectors(rs, 0, spc), q - first * spc, disk, zeros)
    ensures found && !ok ==> error || q - first * spc + count > |Sectors(rs, 0, spc)|
    ensures ok ==> !error
    ensures found && reliable && AllOnDisk(Sectors(rs, 0, spc), q - first * spc, count, |disk|) ==> ok
  {
    hide List, Sectors, Where, Fits, IsRead, SumsFit, AllValid, Context.HasSectors;
    var c := new Context(runs, first, disk, zeros, spc, reliable);
    ListFits(runs, rs, first);
    ContextKnows(c, rs);
    found := c.Seek(q);
    ok, error, data := false, c.error, [];
    if found {
      ok, data := c.ReadBlock(count);
      error := c.error;
    }
    if ok {
      SectorsAreRead(c, Sectors(rs, 0, spc), data, q);
    } else if found && reliable {
      SomethingOffDisk(c, Sectors(rs, 0, spc), q, count);
    }
  }

  // ---------- A list ----------

  /** 0x18 clusters from 0x5634 on, 2 clusters that are not there, and 1 cluster at 0x5634 - 0x100. */
  lemma Example()
    ensures var rs := [Extent(0x18, 0x5634, 1, 2), Extent(2, 0, 1, 0), Extent(1, -0x100, 1, 2)];
      && AllValid(rs) && SumsFit(rs, 0, 0)
      && List(rs) == [0x21, 0x18, 0x34, 0x56, 0x01, 0x02, 0x21, 0x01, 0x00, 0xFF, 0x00]
  {
    var a, b, c := Extent(0x18, 0x5634, 1, 2), Extent(2, 0, 1, 0), Extent(1, -0x100, 1, 2);
    assert a.Valid() && b.Valid() && c.Valid();
    assert a.Written() == [0x21, 0x18, 0x34, 0x56] && b.Written() == [0x01, 0x02];
    assert c.Written() == [0x21, 0x01, 0x00, 0xFF];
    assert [a, b, c][1..] == [b, c] && [b, c][1..] == [c] && [c][1..] == [];
    assert List([c]) == c.Written() + [0] && List([b, c]) == b.Written() + List([c]);
  }
}
