/**
 LZNT1 chunks as section 2.5 of [MS-XCA] writes them, in terms of distances and lengths, and what both NTFS decoders
 make of them (loader/filesys/fsys_ntfs.c, loader/filesys/fsys_ntfs1.c).
 */
module Lznt1Chunks {
  import opened Common
  import Arith
  import opened Bits
  import opened Lznt1
  import opened NtfsDecompress
  import NtfsUnits

  /** A byte, or `length` bytes that stand `distance` back. */
  datatype Piece = Single(b: Byte) | Back(distance: nat, length: nat)

  /** How many lengths a code can have behind `n` bytes of output. */
  function Lengths(n: nat): nat {
    if n <= 16 then 4096 else if n <= 32 then 2048 else if n <= 64 then 1024 else if n <= 128 then 512
    else if n <= 256 then 256 else if n <= 512 then 128 else if n <= 1024 then 64 else if n <= 2048 then 32 else 16
  }

  predicate CanStand(p: Piece, n: nat) {
    n <= 4096 && (p.Back? ==> 1 <= p.distance <= n && 3 <= p.length < 3 + Lengths(n))
  }

  function CodeOf(p: Piece, n: nat): nat
    requires p.Back? && CanStand(p, n)
  {
    (p.distance - 1) * Lengths(n) + (p.length - 3)
  }

  lemma CodeFits(p: Piece, n: nat)
    requires p.Back? && CanStand(p, n)
    ensures CodeOf(p, n) < 0x1_0000
  {
    assert (p.distance - 1) * Lengths(n) <= 4095 * 4096;
    var d := p.distance - 1;
    if n <= 16 { assert d <= 15; } else if n <= 32 { assert d <= 31; } else if n <= 64 { assert d <= 63; }
    else if n <= 128 { assert d <= 127; } else if n <= 256 { assert d <= 255; } else if n <= 512 { assert d <= 511; }
    else if n <= 1024 { assert d <= 1023; } else if n <= 2048 { assert d <= 2047; } else { assert d <= 4095; }
  }

  function BytesOf(p: Piece, n: nat): (s: seq<Byte>)
    requires CanStand(p, n)
  {
    match p
    case Single(b) => [b]
    case Back(_, _) =>
      CodeFits(p, n);
      var lo: Byte, hi: Byte := CodeOf(p, n) % 0x100, CodeOf(p, n) / 0x100;
      [lo, hi]
  }

  /** The last byte but `distance` - 1, again and again. */
  function Repeat(out: seq<Byte>, distance: nat, length: nat): (r: seq<Byte>)
    requires 1 <= distance <= |out|
    ensures |r| == |out| + length
  {
    if length == 0 then out
    else
      var r := Repeat(out, distance, length - 1);
      r + [r[|r| - distance]]
  }

  function Width(p: Piece): nat { if p.Single? then 1 else p.length }

  predicate CanFollow(ps: seq<Piece>, n: nat) {
    ps == [] || (CanStand(ps[0], n) && CanFollow(ps[1..], n + Width(ps[0])))
  }

  /** What the pieces stand for behind `out`. */
  function Text(ps: seq<Piece>, out: seq<Byte>): seq<Byte>
    requires CanFollow(ps, |out|)
    decreases |ps|
  {
    if ps == [] then out
    else
      match ps[0]
      case Single(b) => Text(ps[1..], out + [b])
      case Back(distance, length) => Text(ps[1..], Repeat(out, distance, length))
  }

  function BitValue(i: nat): nat {
    if i == 0 then 1 else if i == 1 then 2 else if i == 2 then 4 else if i == 3 then 8
    else if i == 4 then 16 else if i == 5 then 32 else if i == 6 then 64 else 128
  }

  /** The flags of the pieces from number `i` of a group on: a bit for each piece, set if it stands back. */
  function FlagSum(ps: seq<Piece>, i: nat): (f: nat)
    requires i <= 8
    ensures if i == 8 then f == 0 else f <= 0x100 - BitValue(i)
    decreases 8 - i
  {
    if i == 8 || i >= |ps| then 0 else (if ps[i].Back? then BitValue(i) else 0) + FlagSum(ps, i + 1)
  }

  /** The pieces behind `n` bytes of output, when `room` of them still fit the group: every eight have a byte of flags
      in front. */
  function Written(ps: seq<Piece>, n: nat, room: nat): seq<Byte>
    requires room <= 8 && CanFollow(ps, n)
    decreases |ps|, 8 - room
  {
    if ps == [] then []
    else if room == 0 then
      var flags: Byte := FlagSum(ps, 0);
      [flags] + Written(ps, n, 8)
    else BytesOf(ps[0], n) + Written(ps[1..], n + Width(ps[0]), room - 1)
  }

  /** A compressed chunk: its size in a word in front, with bits 12 to 15 set to 1011. */
  function ChunkOf(ps: seq<Piece>): seq<Byte>
    requires CanFollow(ps, 0) && 1 <= |Written(ps, 0, 0)| <= 4096
  {
    var body := Written(ps, 0, 0);
    var lo: Byte, hi: Byte := (|body| - 1) % 0x100, 0xB0 + (|body| - 1) / 0x100;
    [lo, hi] + body
  }

  // ---------- The decoders' terms ----------

  lemma LengthsIsPower(n: nat)
    requires 1 <= n <= 4096
    ensures Lengths(n) == Pow2(LenBits(n))
  {
    HalvingsRange(n);
    HalvingsAtMost8(n);
    Pow2Table();
    var k := Halvings(n);
    assert k == 0 || k == 1 || k == 2 || k == 3 || k == 4 || k == 5 || k == 6 || k == 7 || k == 8;
  }

  lemma CodeIsRead(p: Piece, n: nat)
    requires p.Back? && CanStand(p, n)
    ensures Delta(CodeOf(p, n), n) == p.distance - 1 && Length(CodeOf(p, n), n) == p.length
  {
    LengthsIsPower(n);
    SplitIsDivision(CodeOf(p, n), LenBits(n));
    Arith.DivMod(CodeOf(p, n), Lengths(n), p.distance - 1, p.length - 3);
  }

  lemma {:induction false} RepeatIsCopy(out: seq<Byte>, distance: nat, length: nat)
    requires 1 <= distance <= |out|
    ensures Repeat(out, distance, length) == Copy(out, distance - 1, length)
  {
    if length > 0 {
      RepeatIsCopy(out, distance, length - 1);
    }
  }

  function SymOf(p: Piece, n: nat): (t: Sym)
    requires CanStand(p, n)
    ensures t.Ref? <==> p.Back?
    ensures t.Bytes() == BytesOf(p, n)
  {
    match p
    case Single(b) => Lit(b)
    case Back(_, _) =>
      CodeFits(p, n);
      Ref(CodeOf(p, n) % 0x100, CodeOf(p, n) / 0x100)
  }

  function Syms(ps: seq<Piece>, n: nat): (ts: seq<Sym>)
    requires CanFollow(ps, n)
    ensures |ts| == |ps|
  {
    if ps == [] then [] else [SymOf(ps[0], n)] + Syms(ps[1..], n + Width(ps[0]))
  }

  lemma {:induction false} SymsKinds(ps: seq<Piece>, n: nat, i: nat)
    requires CanFollow(ps, n) && i < |ps|
    ensures Syms(ps, n)[i].Ref? <==> ps[i].Back?
    decreases i
  {
    if i > 0 {
      SymsKinds(ps[1..], n + Width(ps[0]), i - 1);
    }
  }

  lemma {:induction false} FlagSumIsFlags(ps: seq<Piece>, ts: seq<Sym>, i: nat)
    requires |ts| == |ps| && i <= 8 && forall j :: 0 <= j < |ps| ==> (ts[j].Ref? <==> ps[j].Back?)
    ensures i < 8 && i <= |ts| ==> FlagSum(ps, i) == BitValue(i) * Flags(Group(ts[i..], 8 - i))
    decreases 8 - i
  {
    if i < 8 && i < |ts| {
      FlagSumIsFlags(ps, ts, i + 1);
      GroupOf(ts, i);
      hide Group, FlagSum;
      var f := if i < 7 then Flags(Group(ts[i + 1..], 7 - i)) else 0;
      FlagStep(BitValue(i), if ts[i].Ref? then 1 else 0, f);
      NextFlag(ps, i);
    }
  }

  lemma NextFlag(ps: seq<Piece>, i: nat)
    requires i < 8 && i < |ps|
    ensures FlagSum(ps, i) == (if ps[i].Back? then BitValue(i) else 0) + FlagSum(ps, i + 1)
    ensures FlagSum(ps, 8) == 0 && (i < 7 ==> BitValue(i + 1) == 2 * BitValue(i))
  {
  }

  lemma GroupOf(ts: seq<Sym>, i: nat)
    requires i < 8 && i < |ts|
    ensures Flags(Group(ts[i..], 8 - i)) ==
            (if ts[i].Ref? then 1 else 0) + 2 * if i < 7 then Flags(Group(ts[i + 1..], 7 - i)) else 0
  {
    var g := Group(ts[i..], 8 - i);
    assert g[0] == ts[i] && (i < 7 ==> g[1..] == Group(ts[i + 1..], 7 - i)) && (i == 7 ==> g[1..] == []);
  }

  lemma FlagStep(w: nat, b: nat, f: nat)
    ensures w * (b + 2 * f) == w * b + 2 * w * f
  {
    assert w * (b + 2 * f) == w * b + w * (2 * f);
    assert w * (2 * f) == 2 * w * f;
  }

  lemma {:induction false} WrittenIsEncode(ps: seq<Piece>, n: nat, room: nat)
    requires room <= 8 && CanFollow(ps, n)
    ensures Written(ps, n, room) == Encode(Syms(ps, n), room)
    decreases |ps|, 8 - room
  {
    hide FlagSum, Flags, BytesOf;
    var ts := Syms(ps, n);
    if ps != [] {
      if room == 0 {
        WrittenIsEncode(ps, n, 8);
        forall j | 0 <= j < |ps|
          ensures ts[j].Ref? <==> ps[j].Back?
        {
          SymsKinds(ps, n, j);
        }
        FlagSumIsFlags(ps, ts, 0);
        assert ts[0..] == ts;
      } else {
        WrittenIsEncode(ps[1..], n + Width(ps[0]), room - 1);
        assert ts[1..] == Syms(ps[1..], n + Width(ps[0]));
      }
    }
  }

  lemma {:induction false} TextIsExpand(ps: seq<Piece>, out: seq<Byte>)
    requires CanFollow(ps, |out|)
    ensures Expand(Syms(ps, |out|), out) == Some(Text(ps, out))
    decreases |ps|
  {
    hide Delta, Length, Copy, Repeat, CodeOf, Lengths;
    if ps != [] {
      var t, n := SymOf(ps[0], |out|), |out|;
      match ps[0]
      case Single(b) =>
        TextIsExpand(ps[1..], out + [b]);
      case Back(distance, length) =>
        CodeFits(ps[0], n);
        CodeIsRead(ps[0], n);
        RepeatIsCopy(out, distance, length);
        assert t.Word() == CodeOf(ps[0], n);
        TextIsExpand(ps[1..], Repeat(out, distance, length));
    }
  }

  // ---------- The flat decoder ----------

  predicate IsChunk(ps: seq<Piece>) { CanFollow(ps, 0) && 1 <= |Written(ps, 0, 0)| <= 4096 }

  /** The chunk stands at position `at`. */
  predicate HasChunk(src: seq<Byte>, at: nat, ps: seq<Piece>)
    requires IsChunk(ps)
  {
    var c := ChunkOf(ps);
    at + |c| <= |src| && src[at..at + |c|] == c
  }

  lemma {:induction false} ChunkIsRead(src: seq<Byte>, at: nat, ps: seq<Piece>)
    requires IsChunk(ps) && HasChunk(src, at, ps)
    ensures StreamResult(src, at) == FlatResult(src, at) == Output(Text(ps, []))
    ensures BodyOutcome(src, at).Done? && BodyOutcome(src, at).end == ChunkEnd(src, at) == at + |ChunkOf(ps)|
    ensures Compressed(Header(src, at))
  {
    hide Decode, Expand, Encode, Written, Text;
    var ts := Syms(ps, 0);
    WrittenIsEncode(ps, 0, 0);
    TextIsExpand(ps, []);
    assert Chunk(ts) == ChunkOf(ps);
    ChunkDecodes(src, at, ts);
    ChunkHeader(src, at, ts);
  }

  method DecompressWritten(dest: array<Byte>, src: seq<Byte>, at: nat, ghost ps: seq<Piece>) returns (st: Status)
    requires dest.Length >= 4114 && IsChunk(ps) && HasChunk(src, at, ps)
    modifies dest
    ensures st == Ok(|Text(ps, [])|) && Text(ps, []) <= dest[..]
  {
    ChunkIsRead(src, at, ps);
    st := DecompressBlock(dest, src, at);
  }

  // ---------- The streaming decoder ----------

  /** `count` clusters from `start` on. */
  datatype Place = Place(start: nat, count: nat)

  function Flat(cs: seq<seq<Byte>>): seq<Byte> { if cs == [] then [] else cs[0] + Flat(cs[1..]) }

  predicate OnDisk(places: seq<Place>, clusters: nat) {
    forall i :: 0 <= i < |places| ==> places[i].count > 0 && places[i].start + places[i].count <= clusters
  }

  /** The bytes of a compression unit. */
  function UnitBytes(disk: seq<seq<Byte>>, places: seq<Place>): seq<Byte>
    requires OnDisk(places, |disk|)
  {
    if places == [] then []
    else
      var p := places[0];
      Flat(disk[p.start..p.start + p.count]) + UnitBytes(disk, places[1..])
  }

  /** The table that is recorded for it. */
  function TableOf(places: seq<Place>, vcn: nat): seq<Run> {
    if places == [] then []
    else
      var p := places[0];
      [Run(vcn + p.count, p.start + p.count)] + TableOf(places[1..], vcn + p.count)
  }

  lemma {:induction false} ClustersTail(disk: seq<seq<Byte>>, x: Run, rest: seq<Run>, i: nat, vcn: nat)
    requires i <= |rest| && RunsOk(rest, i, vcn, |disk|)
    ensures RunsOk([x] + rest, i + 1, vcn, |disk|)
    ensures Clusters(disk, [x] + rest, i + 1, vcn) == Clusters(disk, rest, i, vcn)
    decreases |rest| - i, if i == |rest| then 0 else rest[i].endVcn - vcn
  {
    NtfsUnits.RunsTail(x, rest, i, vcn, |disk|);
    if i < |rest| {
      if vcn + 1 < rest[i].endVcn {
        ClustersTail(disk, x, rest, i, vcn + 1);
      } else {
        ClustersTail(disk, x, rest, i + 1, vcn + 1);
      }
    }
  }

  lemma {:induction false} ClustersOfRun(disk: seq<seq<Byte>>, p: Place, rest: seq<Run>, vcn: nat, j: nat)
    requires j < p.count && p.start + p.count <= |disk| && RunsOk(rest, 0, vcn + p.count, |disk|)
    ensures var table := [Run(vcn + p.count, p.start + p.count)] + rest;
      && RunsOk(table, 0, vcn + j, |disk|)
      && Clusters(disk, table, 0, vcn + j) ==
           Flat(disk[p.start + j..p.start + p.count]) + Clusters(disk, rest, 0, vcn + p.count)
    decreases p.count - j
  {
    hide Clusters, RunsOk;
    var x := Run(vcn + p.count, p.start + p.count);
    var table, cs, tail := [x] + rest, disk[p.start + j..p.start + p.count], Clusters(disk, rest, 0, vcn + p.count);
    ClustersTail(disk, x, rest, 0, vcn + p.count);
    StepClusters(disk, table, vcn + j);
    assert cs[1..] == disk[p.start + j + 1..p.start + p.count];
    if j + 1 < p.count {
      ClustersOfRun(disk, p, rest, vcn, j + 1);
    } else {
      assert cs[1..] == [];
      EmptyLeft(tail);
    }
    Assoc(cs[0], Flat(cs[1..]), tail);
  }

  lemma StepClusters(disk: seq<seq<Byte>>, table: seq<Run>, vcn: nat)
    requires table != [] && vcn < table[0].endVcn && table[0].endVcn - vcn <= table[0].endLcn <= |disk|
    requires RunsOk(table, 1, table[0].endVcn, |disk|)
    ensures RunsOk(table, 0, vcn, |disk|)
    ensures vcn + 1 < table[0].endVcn ==> RunsOk(table, 0, vcn + 1, |disk|)
    ensures Clusters(disk, table, 0, vcn) ==
            disk[LcnOf(table[0], vcn)] +
            if vcn + 1 < table[0].endVcn then Clusters(disk, table, 0, vcn + 1)
            else Clusters(disk, table, 1, table[0].endVcn)
  {
  }

  lemma {:induction false} UnitIsClusters(disk: seq<seq<Byte>>, places: seq<Place>, vcn: nat)
    requires OnDisk(places, |disk|)
    ensures RunsOk(TableOf(places, vcn), 0, vcn, |disk|)
    ensures Clusters(disk, TableOf(places, vcn), 0, vcn) == UnitBytes(disk, places)
    decreases |places|
  {
    hide Clusters, RunsOk, Flat;
    if places == [] {
      NoClusters(disk, vcn);
    } else {
      UnitIsClusters(disk, places[1..], vcn + places[0].count);
      ClustersOfRun(disk, places[0], TableOf(places[1..], vcn + places[0].count), vcn, 0);
    }
  }

  lemma {:induction false} NoClusters(disk: seq<seq<Byte>>, vcn: nat)
    ensures RunsOk([], 0, vcn, |disk|) && Clusters(disk, [], 0, vcn) == []
  {
  }

  predicate AllChunks(css: seq<seq<Piece>>) { forall i :: 0 <= i < |css| ==> IsChunk(css[i]) }

  /** The chunks of a unit, one behind the other. */
  function ChunkBytes(css: seq<seq<Piece>>): seq<Byte>
    requires AllChunks(css)
  {
    if css == [] then [] else ChunkOf(css[0]) + ChunkBytes(css[1..])
  }

  function Texts(css: seq<seq<Piece>>): seq<seq<Byte>>
    requires AllChunks(css)
  {
    if css == [] then [] else [Text(css[0], [])] + Texts(css[1..])
  }

  lemma {:induction false} NextChunk(src: seq<Byte>, at: nat, css: seq<seq<Piece>>)
    requires AllChunks(css) && css != []
    requires at <= |src| && ChunkBytes(css) <= src[at..]
    ensures AllChunks(css[1..]) && HasChunk(src, at, css[0]) && at + 2 <= |src|
    ensures at + |ChunkOf(css[0])| <= |src| && ChunkBytes(css[1..]) <= src[at + |ChunkOf(css[0])|..]
  {
    hide ChunkOf, CanFollow, Written;
    assert AllChunks(css[1..]);
    ChunkHasHeader(css[0]);
    var c, rest := ChunkOf(css[0]), ChunkBytes(css[1..]);
    Prefixes(src[at..], c, rest);
    assert src[at..][..|c|] == src[at..at + |c|] && src[at..][|c|..] == src[at + |c|..];
  }

  lemma ChunkHasHeader(ps: seq<Piece>)
    requires IsChunk(ps)
    ensures |ChunkOf(ps)| >= 2
  {
  }

  lemma Prefixes(s: seq<Byte>, a: seq<Byte>, b: seq<Byte>)
    requires a + b <= s
    ensures |a| <= |s| && s[..|a|] == a && b <= s[|a|..]
  {
    assert s[..|a + b|] == a + b;
    assert s[..|a|] == s[..|a + b|][..|a|];
    assert s[|a|..][..|b|] == s[..|a + b|][|a|..];
  }

  method ReadChunk(s: Stream, dest: array<Byte>, ghost src: seq<Byte>, ghost at: nat, ghost ps: seq<Piece>)
    returns (ok: bool, text: seq<Byte>)
    requires IsChunk(ps) && HasChunk(src, at, ps) && at + 2 <= |src| && s.At(src, at)
    requires dest.Length >= 4114 && dest != s.cbuf
    modifies s`head, s`vcn, s`ofs, s.cbuf, dest
    ensures ok && text == Text(ps, []) && s.At(src, at + |ChunkOf(ps)|)
  {
    hide ChunkOf, CanFollow, Written, Text, HasChunk, StreamResult, BodyOutcome, Header;
    ChunkIsRead(src, at, ps);
    var st := s.DecompBlock(dest, src, at);
    ok, text := st.Ok?, if st.Ok? then dest[..st.copied] else [];
  }

  /** The streaming decoder delivers what the chunks of a unit stand for, however its clusters lie on the disk. */
  method ReadUnit(disk: seq<seq<Byte>>, size: nat, vcn: nat, places: seq<Place>, n: nat, ghost css: seq<seq<Piece>>)
    returns (ok: bool, texts: seq<seq<Byte>>)
    requires size > 0 && (forall i :: 0 <= i < |disk| ==> |disk[i]| == size) && OnDisk(places, |disk|)
    requires AllChunks(css) && n == |css| && ChunkBytes(css) <= UnitBytes(disk, places)
    ensures ok && texts == Texts(css)
  {
    hide Clusters, RunsOk, UnitBytes, ChunkOf, CanFollow, Written, Text, HasChunk, Stream.At;
    UnitIsClusters(disk, places, vcn);
    var s := new Stream(disk, size, TableOf(places, vcn), vcn);
    var dest := new Byte[4114];
    ghost var src, at: nat, rest := UnitBytes(disk, places), 0, css;
    assert src[0..] == src;
    StreamStarts(s, src);
    texts, ok := [], true;
    for i := 0 to n
      invariant |rest| == n - i && AllChunks(rest) && at <= |src| && ChunkBytes(rest) <= src[at..]
      invariant ok && texts + Texts(rest) == Texts(css) && s.At(src, at)
    {
      NextChunk(src, at, rest);
      var text;
      ok, text := ReadChunk(s, dest, src, at, rest[0]);
      at := at + |ChunkOf(rest[0])|;
      Assoc(texts, [text], Texts(rest[1..]));
      texts := texts + [text];
      rest := rest[1..];
    }
    assert texts + [] == texts;
  }

  lemma StreamStarts(s: Stream, src: seq<Byte>)
    requires s.Valid() && s.Rest() == src
    ensures s.At(src, 0)
  {
  }

  // ---------- A chunk ----------

  const ABABAB := [Single(0x61), Single(0x62), Back(2, 4)]

  lemma ExampleTails()
    ensures ABABAB[1..] == [Single(0x62), Back(2, 4)] && ABABAB[1..][1..] == [Back(2, 4)]
    ensures CanFollow(ABABAB, 0) && CanFollow(ABABAB[1..], 1) && CanFollow([Back(2, 4)], 2)
  {
    assert [Back(2, 4)][1..] == [];
  }

  lemma ExampleBody()
    ensures CanFollow(ABABAB, 0) && Written(ABABAB, 0, 0) == [0x04, 0x61, 0x62, 0x01, 0x10]
  {
    ExampleTails();
    hide CanFollow;
    assert BytesOf(Back(2, 4), 2) == [0x01, 0x10] && [Back(2, 4)][1..] == [];
    assert FlagSum(ABABAB, 3) == 0 && FlagSum(ABABAB, 2) == 4 && FlagSum(ABABAB, 1) == 4 && FlagSum(ABABAB, 0) == 4;
    assert Written([Back(2, 4)], 2, 6) == [0x01, 0x10] + [];
    assert Written(ABABAB[1..], 1, 7) == [0x62] + [0x01, 0x10];
    assert Written(ABABAB, 0, 8) == [0x61] + [0x62, 0x01, 0x10];
  }

  lemma ExampleText()
    ensures CanFollow(ABABAB, 0) && Text(ABABAB, []) == [0x61, 0x62, 0x61, 0x62, 0x61, 0x62]
  {
    ExampleTails();
    hide CanFollow;
    assert Repeat([0x61, 0x62], 2, 1) == [0x61, 0x62, 0x61] && Repeat([0x61, 0x62], 2, 2) == [0x61, 0x62, 0x61, 0x62];
    assert Repeat([0x61, 0x62], 2, 3) == [0x61, 0x62, 0x61, 0x62, 0x61] && [Back(2, 4)][1..] == [];
    assert [] + [0x61] == [0x61] && [0x61] + [0x62] == [0x61, 0x62];
    assert Text(ABABAB, []) == Text(ABABAB[1..], [0x61]) == Text([Back(2, 4)], [0x61, 0x62]);
  }

  /** "ababab" in two bytes and a code. */
  lemma Example()
    ensures IsChunk(ABABAB) && ChunkOf(ABABAB) == [0x04, 0xB0, 0x04, 0x61, 0x62, 0x01, 0x10]
    ensures Text(ABABAB, []) == [0x61, 0x62, 0x61, 0x62, 0x61, 0x62]
  {
    ExampleBody();
    ExampleText();
    hide CanFollow, Written, Text;
  }
}
