/**
 The two NTFS decompressors: the streaming one, which pulls bytes across cluster boundaries
 (loader/filesys/fsys_ntfs.c), and the one over a flat buffer (loader/filesys/fsys_ntfs1.c).

 Both are proved against Lznt1.Decode, so they agree with each other and invert Lznt1.Encode.
 */
module NtfsDecompress {
  import opened Common
  import Arith
  import opened Bits
  import opened Lznt1

  /** What a decoder reports: the number of bytes written, an error, or (Undefined) that the C code would
      now read in front of its buffer, which it does not check. */
  datatype Status = Ok(copied: nat) | Error | Undefined

  ghost predicate Reports(st: Status, dest: seq<Byte>, d: Outcome) {
    match d
    case Done(out, _) => st == Ok(|out|) && out <= dest
    case Stray => st == Undefined
    case _ => st == Error
  }

  function Header(src: seq<Byte>, at: nat): nat { At(src, at) + 0x100 * At(src, at + 1) }
  predicate Compressed(h: nat) { h >= 0x8000 }
  function BodySize(h: nat): (n: nat) ensures 1 <= n <= CHUNK { h % 0x1000 + 1 }

  /** What each decoder makes of the chunk at `at`.  They treat a chunk that is not compressed differently:
      the streaming one insists that it holds 4096 bytes, the flat one copies 4096 bytes regardless. */
  datatype Result = Output(out: seq<Byte>) | Failure | Beyond

  function OfOutcome(d: Outcome): Result {
    match d
    case Done(out, _) => Output(out)
    case Stray => Beyond
    case _ => Failure
  }

  function BodyOutcome(src: seq<Byte>, at: nat): Outcome {
    Decode(src, at + 2, BodySize(Header(src, at)), 0, 0, [])
  }

  function Stored(src: seq<Byte>, at: nat): (s: seq<Byte>)
    ensures |s| == CHUNK
  {
    seq<Byte>(CHUNK, i requires 0 <= i < CHUNK => At(src, at + 2 + i))
  }

  function StreamResult(src: seq<Byte>, at: nat): Result {
    if Compressed(Header(src, at)) then OfOutcome(BodyOutcome(src, at))
    else if BodySize(Header(src, at)) == CHUNK && at + 2 + CHUNK <= |src| then Output(src[at + 2..at + 2 + CHUNK])
    else Failure
  }

  function FlatResult(src: seq<Byte>, at: nat): Result {
    if Compressed(Header(src, at)) then OfOutcome(BodyOutcome(src, at)) else Output(Stored(src, at))
  }

  /** The two decoders agree on a chunk exactly when it is compressed or holds 4096 stored bytes, all of them in
      the stream. */
  lemma DecodersAgree(src: seq<Byte>, at: nat)
    ensures StreamResult(src, at) == FlatResult(src, at) <==>
            || Compressed(Header(src, at))
            || (BodySize(Header(src, at)) == CHUNK && at + 2 + CHUNK <= |src|)
  {
    if at + 2 + CHUNK <= |src| {
      var a, b := Stored(src, at), src[at + 2..at + 2 + CHUNK];
      forall i | 0 <= i < CHUNK
        ensures a[i] == b[i]
      {
        assert At(src, at + 2 + i) == src[at + 2 + i];
      }
      assert a == b;
    }
  }

  /** The flat decoder reads what stands behind its buffer.  That makes no difference if there is a byte behind the
      body of a compressed chunk. */
  lemma FlatResultFrame(src: seq<Byte>, behind: seq<Byte>, at: nat)
    requires Compressed(Header(src, at)) && at + 2 + BodySize(Header(src, at)) < |src|
    ensures FlatResult(src + behind, at) == FlatResult(src, at)
  {
    assert Header(src + behind, at) == Header(src, at);
    DecodeFrame(src, behind, at + 2, BodySize(Header(src, at)), 0, 0, []);
  }

  /** A chunk of one stored byte: one decoder refuses it, the other delivers 4096 bytes. */
  lemma DecodersDiffer()
    ensures var src: seq<Byte> := [0x00, 0x00, 0x61];
      StreamResult(src, 0) == Failure && FlatResult(src, 0) == Output(Stored(src, 0))
  {
  }

  // ---------- Chunks ----------

  /** A compressed chunk: the size and signature in a header word, then the tokens. */
  function Chunk(ts: seq<Sym>): (c: seq<Byte>)
    requires 1 <= |Encode(ts, 0)| <= CHUNK
  {
    var body := Encode(ts, 0);
    [(|body| - 1) % 0x100, 0xB0 + (|body| - 1) / 0x100] + body
  }

  /** Both decoders reproduce what the tokens of a chunk stand for, and decoding it, skipping it and stepping
      by the size in its header all end at the byte behind it. */
  lemma {:induction false} ChunkDecodes(src: seq<Byte>, at: nat, ts: seq<Sym>)
    requires 1 <= |Encode(ts, 0)| <= CHUNK && Expand(ts, []).Some? && Holds(src, at, Chunk(ts))
    ensures StreamResult(src, at) == FlatResult(src, at) == Output(Expand(ts, []).value)
    ensures BodyOutcome(src, at).Done? && BodyOutcome(src, at).end == at + |Chunk(ts)|
    ensures ChunkEnd(src, at) == at + CompressedBlockSize(src, at) == at + |Chunk(ts)|
  {
    ChunkHeader(src, at, ts);
    BodyDecodes(src, at + 2, ts, BodySize(Header(src, at)));
  }

  lemma {:induction false} BodyDecodes(src: seq<Byte>, at: nat, ts: seq<Sym>, n: nat)
    requires n == |Encode(ts, 0)| && Holds(src, at, Encode(ts, 0)) && Expand(ts, []).Some?
    ensures Decode(src, at, n, 0, 0, []) == Done(Expand(ts, []).value, at + n)
  {
    EncodeIsEncoded(src, at, ts, 0, 0);
    DecodeEncoded(src, at, at + n, ts, 0, 0, []);
  }

  lemma {:induction false} ChunkHeader(src: seq<Byte>, at: nat, ts: seq<Sym>)
    requires 1 <= |Encode(ts, 0)| <= CHUNK && Holds(src, at, Chunk(ts))
    ensures Compressed(Header(src, at)) && BodySize(Header(src, at)) == |Encode(ts, 0)|
    ensures CompressedBlockSize(src, at) == |Chunk(ts)| && Holds(src, at + 2, Encode(ts, 0))
  {
    var body := Encode(ts, 0);
    var h := [(|body| - 1) % 0x100, 0xB0 + (|body| - 1) / 0x100];
    HoldsParts(src, at, h, body);
    assert At(src, at + 0) == h[0] && At(src, at + 1) == h[1];
    HeaderWord(|body|);
  }

  lemma HeaderWord(n: nat)
    requires 1 <= n <= CHUNK
    ensures var h := (n - 1) % 0x100 + 0x100 * (0xB0 + (n - 1) / 0x100);
            h == 0xB000 + (n - 1) && Compressed(h) && h % 0x1000 == n - 1
  {
  }

  /** The distance to the next chunk of a flat buffer. */
  function CompressedBlockSize(src: seq<Byte>, at: nat): nat { 3 + Header(src, at) % 0x1000 }

  /** The byte behind a chunk, by the size in its header. */
  function ChunkEnd(src: seq<Byte>, at: nat): nat { at + 2 + BodySize(Header(src, at)) }

  /** The body of the chunk holds valid tokens. */
  ghost predicate WellFormed(src: seq<Byte>, at: nat) {
    HoldsTokens(src, at + 2, ChunkEnd(src, at), 0, 0, [])
  }

  /** Decoding a chunk ends where skipping it ends if and only if its body holds whole tokens; otherwise decoding
      takes one byte more. */
  lemma DecodingEnds(src: seq<Byte>, at: nat)
    requires BodyOutcome(src, at).Done?
    ensures BodyOutcome(src, at).end == if WellFormed(src, at) then ChunkEnd(src, at) else ChunkEnd(src, at) + 1
  {
    DecodeEnd(src, at + 2, BodySize(Header(src, at)), 0, 0, []);
  }

  /** A chunk no encoder writes: its last code starts in its last byte. */
  lemma DecodingMayOverrun()
    ensures var src: seq<Byte> := [0x02, 0xB0, 0x02, 0x61, 0x00, 0x00];
      && BodyOutcome(src, 0) == Done([0x61, 0x61, 0x61, 0x61], 6)
      && ChunkEnd(src, 0) == 5
  {
    var src: seq<Byte> := [0x02, 0xB0, 0x02, 0x61, 0x00, 0x00];
    assert Header(src, 0) == 0xB002;
    LastCode(src, 4, 0x61);
    assert [] + [At(src, 3)] == [0x61];
    assert Decode(src, 3, 2, 8, 2, []) == Decode(src, 4, 1, 7, 1, [0x61]);
  }

  /** A zero code in the last byte of a body repeats the one byte before it three times. */
  lemma LastCode(src: seq<Byte>, at: nat, b: Byte)
    requires At(src, at) == 0 && At(src, at + 1) == 0
    ensures Decode(src, at, 1, 7, 1, [b]) == Done([b, b, b, b], at + 2)
  {
    ShrOfZero(LenBits(1));
    assert Copy([b], 0, 3) == [b, b, b, b] by {
      assert Copy([b], 0, 1) == [b, b];
      assert Copy([b], 0, 2) == [b, b, b];
    }
    assert Decode(src, at, 1, 7, 1, [b]) == Token(src, at, 1, 7, 1, [b]);
  }

  lemma {:induction false} ShrOfZero(k: nat)
    ensures Shr(0, k) == 0 && Low(0, k) == 0
  {
    if k > 0 {
      ShrOfZero(k - 1);
    }
  }

  ghost predicate Matches(st: Status, dest: seq<Byte>, r: Result) {
    match r
    case Output(out) => st == Ok(|out|) && out <= dest
    case Failure => st == Error
    case Beyond => st == Undefined
  }

  /** The shifting loop both decoders run before they split a code. */
  method FieldWidths(copied: nat) returns (lmask: nat, dshift: nat)
    requires 1 <= copied <= CHUNK
    ensures dshift == LenBits(copied) && lmask == Pow2(dshift) - 1
  {
    var i := copied - 1;
    lmask, dshift := 0xFFF, 12;
    Pow2Table();
    HalvingsAtMost8(copied);
    while i >= 0x10
      invariant i >= 0 && dshift >= Halvings(i + 1)
      invariant dshift - Halvings(i + 1) == 12 - Halvings(copied)
      invariant lmask == Pow2(dshift) - 1
    {
      lmask := lmask / 2;
      dshift := dshift - 1;
      i := i / 2;
    }
  }

  /** The byte-by-byte copy inside the destination. */
  method CopyBack(dest: array<Byte>, from: nat, delta: nat, len: nat) returns (copied: nat)
    requires delta < from && from + len <= dest.Length
    modifies dest
    ensures copied == from + len
    ensures dest[..copied] == Copy(old(dest[..from]), delta, len)
  {
    copied := from;
    var i := 0;
    while i < len
      invariant i <= len && copied == from + i
      invariant dest[..copied] == Copy(old(dest[..from]), delta, i)
    {
      dest[copied] := dest[copied - delta - 1];
      copied := copied + 1;
      i := i + 1;
    }
  }

  /** Applies a code to the output written so far. */
  method CopyCode(dest: array<Byte>, from: nat, code: nat) returns (copied: nat)
    requires dest.Length >= MAX_OUT && 1 <= from <= CHUNK && Delta(code, from) < from
    modifies dest
    ensures copied == from + Length(code, from) <= MAX_OUT
    ensures dest[..copied] == Copy(old(dest[..from]), Delta(code, from), Length(code, from))
  {
    var lmask, dshift := FieldWidths(from);
    CopyFits(from);
    LowBelow(code, dshift);
    AndMask(code, dshift);
    copied := CopyBack(dest, from, Shr(code, dshift), And(code, lmask) + 3);
  }

  /** The checks both decoders make on a code before they apply it. */
  method ApplyCode(dest: array<Byte>, from: nat, code: nat) returns (st: Status)
    requires dest.Length >= MAX_OUT && from <= CHUNK
    modifies dest
    ensures from == 0 ==> st == Error
    ensures from > 0 && Delta(code, from) >= from ==> st == Undefined
    ensures from > 0 && Delta(code, from) < from ==>
              && st == Ok(from + Length(code, from)) && from < st.copied <= MAX_OUT
              && dest[..st.copied] == Copy(old(dest[..from]), Delta(code, from), Length(code, from))
  {
    if from == 0 {
      return Error;
    }
    if Delta(code, from) >= from {
      return Undefined;
    }
    var copied := CopyCode(dest, from, code);
    st := Ok(copied);
  }

  method ApplyLiteral(dest: array<Byte>, from: nat, b: Byte) returns (st: Status)
    requires from < dest.Length
    modifies dest
    ensures st == Ok(from + 1) && dest[..from + 1] == old(dest[..from]) + [b]
  {
    dest[from] := b;
    st := Ok(from + 1);
  }

  // ---------- fsys_ntfs1.c ----------

  /** One token at `s`: a literal or a copy. */
  method FlatToken(dest: array<Byte>, from: nat, src: seq<Byte>, s: nat, ghost cnt: nat, ghost bits: nat, tag: nat)
    returns (st: Status, s': nat)
    requires dest.Length >= MAX_OUT && from <= CHUNK && cnt > 0 && bits > 0
    modifies dest
    ensures s < s' <= s + 2
    ensures var d := Token(src, s, cnt, bits, tag, old(dest[..from]));
      if st.Ok? then
        && from < st.copied <= MAX_OUT
        && d == Decode(src, s', cnt - (s' - s), bits - 1, tag / 2, dest[..st.copied])
      else d == if st.Error? then NoSource else Stray
  {
    if tag % 2 == 1 {
      var code := At(src, s) + 0x100 * At(src, s + 1);
      s' := s + 2;
      st := ApplyCode(dest, from, code);
    } else {
      s' := s + 1;
      st := ApplyLiteral(dest, from, At(src, s));
    }
  }

  /** The decoding loop of decompress_block, from the first body byte to `last`. */
  method FlatBody(dest: array<Byte>, src: seq<Byte>, at: nat, last: nat) returns (st: Status)
    requires dest.Length >= MAX_OUT && at <= last
    modifies dest
    ensures Reports(st, dest[..], Decode(src, at, last - at + 1, 0, 0, []))
  {
    var s, copied, bits, tag := at, 0, 0, 0;
    ghost var goal := Decode(src, at, last - at + 1, 0, 0, []);
    while s <= last
      invariant at <= s <= last + 2 && 0 <= copied <= MAX_OUT && bits >= 0 && tag >= 0
      invariant goal == Decode(src, s, last - s + 1, bits, tag, dest[..copied])
      decreases last + 2 - s
    {
      if copied > 4096 {
        return Error;
      }
      if bits == 0 {
        tag := At(src, s);
        bits := 8;
        s := s + 1;
        if s > last {
          break;
        }
      }
      assert goal == Token(src, s, last - s + 1, bits, tag, dest[..copied]);
      st, s := FlatToken(dest, copied, src, s, last - s + 1, bits, tag);
      if !st.Ok? {
        return;
      }
      copied := st.copied;
      tag := tag / 2;
      bits := bits - 1;
    }
    st := Ok(copied);
  }

  method DecompressBlock(dest: array<Byte>, src: seq<Byte>, at: nat) returns (st: Status)
    requires dest.Length >= MAX_OUT
    modifies dest
    ensures Matches(st, dest[..], FlatResult(src, at))
  {
    if !Compressed(Header(src, at)) {
      forall i | 0 <= i < 0x1000 {
        dest[i] := At(src, at + 2 + i);
      }
      assert dest[..CHUNK] == Stored(src, at);
      return Ok(0x1000);
    }
    var head := Header(src, at) % 0x1000;
    if head == 0 {
      assert Decode(src, at + 2, 1, 0, 0, []) == Done([], at + 3);
      return Ok(0);
    }
    st := FlatBody(dest, src, at + 2, at + 2 + head);
  }

  // ---------- fsys_ntfs.c ----------

  /** An entry of comp_table: where a run of the compression unit ends, as a virtual and a logical cluster. */
  datatype Run = Run(endVcn: nat, endLcn: nat)

  /** The runs from number `i` on cover the virtual clusters from `vcn` on without gaps, and their clusters
      exist. */
  ghost predicate RunsOk(table: seq<Run>, i: nat, vcn: nat, clusters: nat)
    requires i <= |table|
    decreases |table| - i
  {
    i < |table| ==>
      && vcn < table[i].endVcn
      && table[i].endVcn - vcn <= table[i].endLcn <= clusters
      && RunsOk(table, i + 1, table[i].endVcn, clusters)
  }

  /** The logical cluster that holds virtual cluster `vcn`: counted back from the end of its run. */
  function LcnOf(run: Run, vcn: nat): int {
    run.endLcn - (run.endVcn - vcn)
  }

  /** The contents of the clusters from `vcn`, which lies in run `i`, to the end of the last run, in virtual
      order. */
  ghost function Clusters(disk: seq<seq<Byte>>, table: seq<Run>, i: nat, vcn: nat): seq<Byte>
    requires i <= |table| && RunsOk(table, i, vcn, |disk|)
    decreases |table| - i, if i == |table| then 0 else table[i].endVcn - vcn
  {
    if i == |table| then []
    else
      disk[LcnOf(table[i], vcn)] +
      if vcn + 1 < table[i].endVcn then Clusters(disk, table, i, vcn + 1)
      else Clusters(disk, table, i + 1, vcn + 1)
  }

  /** `vcn` is the next cluster to load and `head` the run it belongs to. */
  ghost predicate CursorOk(disk: seq<seq<Byte>>, size: nat, table: seq<Run>, head: nat, vcn: nat, ofs: nat) {
    && size > 0 && (forall i :: 0 <= i < |disk| ==> |disk[i]| == size)
    && head <= |table| && RunsOk(table, head, vcn, |disk|)
    && (head > 0 ==> table[head - 1].endVcn <= vcn)
    && (head == |table| > 0 ==> vcn == table[head - 1].endVcn)
    && ofs <= size
  }

  lemma {:induction false} ClustersLength(disk: seq<seq<Byte>>, size: nat, table: seq<Run>, i: nat, vcn: nat)
    requires i < |table| && RunsOk(table, i, vcn, |disk|) && forall k :: 0 <= k < |disk| ==> |disk[k]| == size
    ensures |Clusters(disk, table, i, vcn)| == (table[|table| - 1].endVcn - vcn) * size
    decreases |table| - i, table[i].endVcn - vcn
  {
    var left := table[|table| - 1].endVcn - (vcn + 1);
    Arith.MulSucc(left, size);
    assert table[|table| - 1].endVcn - vcn == left + 1;
    assert |disk[LcnOf(table[i], vcn)]| == size;
    if vcn + 1 < table[i].endVcn {
      ClustersLength(disk, size, table, i, vcn + 1);
    } else if i + 1 < |table| {
      ClustersLength(disk, size, table, i + 1, vcn + 1);
    } else {
      assert left == 0 && Clusters(disk, table, i + 1, vcn + 1) == [];
    }
  }

  /** Once a byte of the loaded cluster has been taken, what is left of the stream determines the whole
      cursor: run, cluster and offset. */
  lemma {:induction false} CursorDetermined(disk: seq<seq<Byte>>, size: nat, table: seq<Run>,
                         h1: nat, v1: nat, o1: nat, h2: nat, v2: nat, o2: nat)
    requires table != []
    requires CursorOk(disk, size, table, h1, v1, o1) && o1 > 0
    requires CursorOk(disk, size, table, h2, v2, o2) && o2 > 0 && h1 <= h2
    requires size - o1 + |Clusters(disk, table, h1, v1)| == size - o2 + |Clusters(disk, table, h2, v2)|
    ensures h1 == h2 && v1 == v2 && o1 == o2
  {
    hide Clusters, RunsOk;
    var e := table[|table| - 1].endVcn;
    LeftLength(disk, size, table, h1, v1, o1);
    LeftLength(disk, size, table, h2, v2, o2);
    SameQuotient(size, e - v1, o1, e - v2, o2);
    if h1 < h2 {
      RunsAhead(table, h1, v1, |disk|, h2 - 1);
    }
  }

  lemma {:induction false} LeftLength(disk: seq<seq<Byte>>, size: nat, table: seq<Run>, head: nat, vcn: nat, ofs: nat)
    requires table != [] && CursorOk(disk, size, table, head, vcn, ofs)
    ensures |Clusters(disk, table, head, vcn)| == (table[|table| - 1].endVcn - vcn) * size
  {
    if head < |table| {
      ClustersLength(disk, size, table, head, vcn);
    }
  }

  lemma {:induction false} RunsAhead(table: seq<Run>, h: nat, vcn: nat, clusters: nat, i: nat)
    requires h <= i < |table| && RunsOk(table, h, vcn, clusters)
    ensures vcn < table[i].endVcn
    decreases i - h
  {
    if h < i {
      RunsAhead(table, h + 1, table[h].endVcn, clusters, i);
    }
  }

  lemma SameQuotient(size: nat, q1: int, o1: nat, q2: int, o2: nat)
    requires 0 < o1 <= size && 0 < o2 <= size && size - o1 + q1 * size == size - o2 + q2 * size
    ensures q1 == q2 && o1 == o2
  {
    if q1 > q2 {
      Arith.MulSucc(q2, size);
      Arith.MulMonotone(q2 + 1, q1, size);
    } else if q1 < q2 {
      Arith.MulSucc(q1, size);
      Arith.MulMonotone(q1 + 1, q2, size);
    }
  }

  /** `rest` is what is left of `src` behind its first `at` bytes. */
  ghost predicate Follows(rest: seq<Byte>, src: seq<Byte>, at: nat) {
    && |rest| == (if at <= |src| then |src| - at else 0)
    && forall k :: 0 <= k < |rest| ==> rest[k] == src[at + k]
  }

  /** The static variables of the streaming decoder. */
  class Stream {
    const disk: seq<seq<Byte>>
    const size: nat            // bytes in a cluster
    const table: seq<Run>      // comp_table[0..comp_tail]
    const cbuf: array<Byte>
    var head: nat              // comp_head
    var vcn: nat               // cbuf_vcn: the next cluster to load
    var ofs: nat               // cbuf_ofs

    ghost predicate Valid()
      reads this, cbuf
    {
      cbuf.Length == size && CursorOk(disk, size, table, head, vcn, ofs)
    }

    /** The bytes still to come: the rest of the loaded cluster and the clusters behind it. */
    ghost function Rest(): seq<Byte>
      requires Valid()
      reads this, cbuf
    {
      cbuf[ofs..] + Clusters(disk, table, head, vcn)
    }

    /** The decoder has taken the first `at` bytes of `src`; it cannot take more than there are. */
    ghost predicate At(src: seq<Byte>, at: nat)
      reads this, cbuf
    {
      Valid() && Follows(Rest(), src, at)
    }

    /** The state in which a compression unit that starts at `vcn` is read: nothing loaded yet. */
    constructor (disk: seq<seq<Byte>>, size: nat, table: seq<Run>, vcn: nat)
      requires size > 0 && (forall i :: 0 <= i < |disk| ==> |disk[i]| == size) && RunsOk(table, 0, vcn, |disk|)
      ensures Valid() && fresh(cbuf) && ofs == size
      ensures this.disk == disk && this.size == size && this.table == table && head == 0 && this.vcn == vcn
      ensures Rest() == Clusters(disk, table, 0, vcn)
    {
      this.disk, this.size, this.table := disk, size, table;
      cbuf := new Byte[size];
      head, ofs, this.vcn := 0, size, vcn;
    }

    /** Loads the next cluster of the unit. */
    method NextVcn() returns (ok: bool)
      requires Valid()
      modifies this`head, this`vcn, this`ofs, cbuf
      ensures Valid()
      ensures ok <==> old(head) < |table|
      ensures !ok ==> unchanged(this) && unchanged(cbuf) && Clusters(disk, table, head, vcn) == []
      ensures ok ==>
                && ofs == 0 && vcn == old(vcn) + 1
                && 0 <= LcnOf(table[old(head)], old(vcn)) < |disk|
                && cbuf[..] == disk[LcnOf(table[old(head)], old(vcn))]
                && Rest() == Clusters(disk, table, old(head), old(vcn))
    {
      if head >= |table| {
        return false;
      }
      var run := table[head];
      var lcn := LcnOf(run, vcn);
      forall i | 0 <= i < size {
        cbuf[i] := disk[lcn][i];
      }
      assert cbuf[..] == disk[lcn];
      vcn := vcn + 1;
      if vcn >= run.endVcn {
        head := head + 1;
      }
      ofs := 0;
      assert cbuf[0..] == cbuf[..];
      ok := true;
    }

    /** Loading a cluster when the current one is used up does not change what is still to come. */
    method Advance() returns (ok: bool)
      requires Valid() && ofs == size
      modifies this`head, this`vcn, this`ofs, cbuf
      ensures Valid() && Rest() == old(Rest())
      ensures if ok then ofs == 0 else ofs == size && Rest() == []
    {
      assert cbuf[ofs..] == [];
      ok := NextVcn();
    }

    /** The next byte of the loaded cluster. */
    method Take() returns (b: Byte)
      requires Valid() && ofs < size
      modifies this`ofs
      ensures Valid() && ofs == old(ofs) + 1
      ensures old(Rest()) == [b] + Rest()
    {
      b := cbuf[ofs];
      assert cbuf[ofs..] == [b] + cbuf[ofs + 1..];
      ofs := ofs + 1;
    }

    /** The next byte; 0 when no cluster is left. */
    method Getch(ghost src: seq<Byte>, ghost at: nat) returns (b: Byte)
      requires At(src, at)
      modifies this`head, this`vcn, this`ofs, cbuf
      ensures b == Lznt1.At(src, at) && At(src, at + 1)
      ensures ofs > 0
    {
      if ofs >= size {
        var ok := Advance();
        if !ok {
          return 0;
        }
      }
      b := Take();
      TakeFromTail(src, at, b, Rest());
    }

    method GetWord(ghost src: seq<Byte>, ghost at: nat) returns (w: nat)
      requires At(src, at)
      modifies this`head, this`vcn, this`ofs, cbuf
      ensures w == Header(src, at) && At(src, at + 2)
      ensures ofs > 0
    {
      var lo: nat := Getch(src, at);
      var hi: nat := Getch(src, at + 1);
      w := lo + 0x100 * hi;
    }

    method GetReference(dest: array<Byte>, from: nat, ghost cnt: int, ghost bits: nat, ghost tag: nat,
                        ghost src: seq<Byte>, ghost at: nat, ghost goal: Outcome)
      returns (st: Status)
      requires At(src, at) && dest != cbuf && dest.Length >= MAX_OUT && tag % 2 == 1
      requires from <= CHUNK && cnt > 0 && bits > 0 && Ahead(goal, src, at, cnt, bits, tag, dest[..from])
      modifies this`head, this`vcn, this`ofs, cbuf, dest
      ensures At(src, at + 2) && ofs > 0 && (st.Ok? ==> from < st.copied <= MAX_OUT)
      ensures st.Ok? ==> Ahead(goal, src, at + 2, cnt - 2, bits - 1, tag / 2, dest[..st.copied])
      ensures !st.Ok? ==> goal == if st.Error? then NoSource else Stray
    {
      ghost var out := dest[..from];
      DecodeReference(src, at, cnt, bits, tag, out, Header(src, at));
      var code := GetWord(src, at);
      assert dest[..from] == out;
      st := ApplyCode(dest, from, code);
    }

    method GetLiteral(dest: array<Byte>, from: nat, ghost cnt: int, ghost bits: nat, ghost tag: nat,
                      ghost src: seq<Byte>, ghost at: nat, ghost goal: Outcome)
      returns (st: Status)
      requires At(src, at) && dest != cbuf && dest.Length >= MAX_OUT && tag % 2 != 1
      requires from <= CHUNK && cnt > 0 && bits > 0 && Ahead(goal, src, at, cnt, bits, tag, dest[..from])
      modifies this`head, this`vcn, this`ofs, cbuf, dest
      ensures At(src, at + 1) && ofs > 0 && st == Ok(from + 1)
      ensures Ahead(goal, src, at + 1, cnt - 1, bits - 1, tag / 2, dest[..from + 1])
    {
      ghost var out := dest[..from];
      DecodeLiteral(src, at, cnt, bits, tag, out);
      var b := Getch(src, at);
      assert dest[..from] == out;
      st := ApplyLiteral(dest, from, b);
    }

    /** One token; `from` counts the bytes written, `cnt` the bytes of the chunk that are left. */
    method GetToken(dest: array<Byte>, from: nat, cnt: int, ghost bits: nat, tag: nat,
                    ghost src: seq<Byte>, ghost at: nat, ghost goal: Outcome)
      returns (st: Status, cnt': int, ghost at': nat)
      requires At(src, at) && dest != cbuf && dest.Length >= MAX_OUT
      requires from <= CHUNK && cnt > 0 && bits > 0 && Ahead(goal, src, at, cnt, bits, tag, dest[..from])
      modifies this`head, this`vcn, this`ofs, cbuf, dest
      ensures cnt' < cnt && At(src, at') && ofs > 0 && (st.Ok? ==> from < st.copied <= MAX_OUT)
      ensures st.Ok? ==> Ahead(goal, src, at', cnt', bits - 1, tag / 2, dest[..st.copied])
      ensures !st.Ok? ==> goal == if st.Error? then NoSource else Stray
    {
      if tag % 2 == 1 {
        cnt', at' := cnt - 2, at + 2;
        st := GetReference(dest, from, cnt, bits, tag, src, at, goal);
      } else {
        cnt', at' := cnt - 1, at + 1;
        st := GetLiteral(dest, from, cnt, bits, tag, src, at, goal);
      }
    }

    /** A new flag byte, once the bits of the last one are used up. */
    method GetFlags(cnt: int, bits: nat, tag: nat, ghost src: seq<Byte>, ghost at: nat, ghost out: seq<Byte>,
                    ghost goal: Outcome)
      returns (cnt': int, bits': nat, tag': nat, ghost at': nat)
      requires At(src, at) && cnt > 0 && |out| <= CHUNK && Ahead(goal, src, at, cnt, bits, tag, out)
      modifies this`head, this`vcn, this`ofs, cbuf
      ensures At(src, at') && bits' > 0 && cnt - 1 <= cnt' <= cnt && (cnt' < cnt ==> ofs > 0)
      ensures Ahead(goal, src, at', cnt', bits', tag', out)
    {
      cnt', bits', tag', at' := cnt, bits, tag, at;
      if bits == 0 {
        tag' := Getch(src, at);
        bits', cnt', at' := 8, cnt - 1, at + 1;
      }
    }

    /** One round of the decoding loop; the bytes of a chunk may end with a flag byte. */
    method GetRound(dest: array<Byte>, copied: nat, cnt: int, bits: nat, tag: nat,
                    ghost src: seq<Byte>, ghost at: nat, ghost goal: Outcome)
      returns (st: Status, cnt': int, bits': nat, tag': nat, ghost at': nat)
      requires At(src, at) && dest != cbuf && dest.Length >= MAX_OUT
      requires copied <= CHUNK && cnt > 0 && Ahead(goal, src, at, cnt, bits, tag, dest[..copied])
      modifies this`head, this`vcn, this`ofs, cbuf, dest
      ensures cnt' < cnt && At(src, at') && ofs > 0 && (st.Ok? ==> st.copied <= MAX_OUT)
      ensures st.Ok? ==> Ahead(goal, src, at', cnt', bits', tag', dest[..st.copied])
      ensures !st.Ok? ==> goal == if st.Error? then NoSource else Stray
    {
      ghost var out := dest[..copied];
      cnt', bits', tag', at' := GetFlags(cnt, bits, tag, src, at, out, goal);
      assert dest[..copied] == out;
      if cnt' <= 0 {
        st := Ok(copied);
        return;
      }
      st, cnt', at' := GetToken(dest, copied, cnt', bits', tag', src, at', goal);
      tag', bits' := tag' / 2, bits' - 1;
    }

    /** The decoding loop of decomp_block. */
    method GetBody(dest: array<Byte>, size0: nat, ghost src: seq<Byte>, ghost at: nat) returns (st: Status)
      requires At(src, at) && dest != cbuf && dest.Length >= MAX_OUT && size0 > 0
      modifies this`head, this`vcn, this`ofs, cbuf, dest
      ensures var d := Decode(src, at, size0, 0, 0, []);
        Reports(st, dest[..], d) && (d.Done? ==> At(src, d.end) && ofs > 0)
    {
      var cnt: int, copied: nat, bits: nat, tag: nat := size0, 0, 0, 0;
      ghost var p: nat := at;
      ghost var goal := Decode(src, at, cnt, 0, 0, []);
      assert dest[..0] == [];
      while cnt > 0
        invariant At(src, p) && (cnt <= 0 ==> ofs > 0) && copied <= MAX_OUT
        invariant Ahead(goal, src, p, cnt, bits, tag, dest[..copied])
        decreases cnt
      {
        if copied > 4096 {
          DecodeEnds(src, p, cnt, bits, tag, dest[..copied]);
          return Error;
        }
        st, cnt, bits, tag, p := GetRound(dest, copied, cnt, bits, tag, src, p, goal);
        if !st.Ok? {
          return;
        }
        copied := st.copied;
      }
      DecodeEnds(src, p, cnt, bits, tag, dest[..copied]);
      st := Ok(copied);
    }

    /** Moves over `n` bytes of the loaded cluster. */
    method Pass(n: nat) returns (ghost moved: seq<Byte>)
      requires Valid() && ofs + n <= size
      modifies this`ofs
      ensures Valid() && ofs == old(ofs) + n
      ensures |moved| == n && moved == cbuf[old(ofs)..old(ofs) + n] && old(Rest()) == moved + Rest()
    {
      moved := cbuf[ofs..ofs + n];
      assert cbuf[ofs..] == moved + cbuf[ofs + n..];
      ofs := ofs + n;
    }

    method CopyOut(dest: array<Byte>, to: nat, n: nat)
      requires Valid() && dest != cbuf && to + n <= dest.Length && ofs + n <= size
      modifies dest
      ensures dest[..to + n] == old(dest[..to]) + cbuf[ofs..ofs + n]
    {
      forall i | to <= i < to + n {
        dest[i] := cbuf[ofs + (i - to)];
      }
    }

    /** One round of the byte-counting loop: what the loaded cluster has of the next `cnt` bytes. */
    method PassSome(dest: array?<Byte>, done: nat, cnt: nat) returns (n: nat, ghost moved: seq<Byte>)
      requires Valid() && cnt > 0
      requires dest != null ==> dest != cbuf && dest.Length >= done + cnt
      modifies this`ofs, dest
      ensures Valid() && old(Rest()) == moved + Rest() && |moved| == n <= cnt
      ensures if n < cnt then ofs == size else ofs > 0
      ensures old(ofs) < size ==> n > 0
      ensures dest != null ==> dest[..done + n] == old(dest[..done]) + moved
    {
      n := size - ofs;
      if n > cnt {
        n := cnt;
      }
      if dest != null && n != 0 {
        CopyOut(dest, done, n);
      }
      moved := Pass(n);
    }

    /** The byte-counting loop of decomp_block: copies a stored chunk, or skips any chunk when `dest` is null. */
    method PassChunk(dest: array?<Byte>, size0: nat) returns (ok: bool, ghost moved: seq<Byte>)
      requires Valid() && size0 > 0
      requires dest != null ==> dest != cbuf && dest.Length >= size0
      modifies this`head, this`vcn, this`ofs, cbuf, dest
      ensures Valid() && old(Rest()) == moved + Rest()
      ensures if ok then |moved| == size0 && ofs > 0 else |moved| < size0 && Rest() == []
      ensures ok && dest != null ==> dest[..size0] == moved
    {
      var cnt, done := size0, 0;
      moved := [];
      ghost var all := Rest();
      assert all == moved + Rest();
      while cnt > 0
        invariant cnt + done == size0 && 0 <= cnt && 0 <= done && Valid()
        invariant all == moved + Rest() && |moved| == done
        invariant cnt == 0 ==> ofs > 0
        invariant dest != null ==> dest[..done] == moved
        decreases cnt, if ofs == size then 1 else 0
      {
        var n;
        ghost var more;
        n, more := PassSome(dest, done, cnt);
        Assoc(moved, more, Rest());
        moved := moved + more;
        done := done + n;
        cnt := cnt - n;
        if cnt != 0 {
          ok := Advance();
          if !ok {
            return;
          }
        }
      }
      ok := true;
    }

    /** The same for a chunk of the stream `src`. */
    method PassBody(dest: array?<Byte>, size0: nat, ghost src: seq<Byte>, ghost at: nat) returns (ok: bool)
      requires At(src, at) && at <= |src| && size0 > 0
      requires dest != null ==> dest != cbuf && dest.Length >= size0
      modifies this`head, this`vcn, this`ofs, cbuf, dest
      ensures ok <==> at + size0 <= |src|
      ensures ok ==> At(src, at + size0) && ofs > 0
      ensures ok && dest != null ==> dest[..size0] == src[at..at + size0]
    {
      ghost var moved;
      ok, moved := PassChunk(dest, size0);
      TailSplit(src, at, moved, Rest());
    }

    /** Decompresses the chunk at the cursor into `dest`, or moves over it when `dest` is null. */
    method DecompBlock(dest: array?<Byte>, ghost src: seq<Byte>, ghost at: nat) returns (st: Status)
      requires At(src, at) && at + 2 <= |src|
      requires dest != null ==> dest != cbuf && dest.Length >= MAX_OUT
      modifies this`head, this`vcn, this`ofs, cbuf, dest
      ensures dest == null ==>
                if ChunkEnd(src, at) <= |src|
                then st == Ok(0) && At(src, ChunkEnd(src, at)) && ofs > 0
                else st == Error
      ensures dest != null ==> Matches(st, dest[..], StreamResult(src, at))
      ensures dest != null && st.Ok? ==>
                ofs > 0 &&
                At(src, if Compressed(Header(src, at)) then BodyOutcome(src, at).end else at + 2 + CHUNK)
    {
      var flg := GetWord(src, at);
      var cnt := BodySize(flg);
      if dest != null {
        if Compressed(flg) {
          st := GetBody(dest, cnt, src, at + 2);
          return;
        }
        if cnt != 4096 {
          return Error;
        }
      }
      var ok := PassBody(dest, cnt, src, at + 2);
      st := if !ok then Error else if dest == null then Ok(0) else Ok(CHUNK);
    }
  }

  /** The two decoders of a unit stand at the same place. */
  ghost predicate InStep(a: Stream, b: Stream)
    reads a, b
  {
    a.head == b.head && a.vcn == b.vcn && a.ofs == b.ofs
  }

  lemma SameRest(a: Stream, b: Stream)
    requires a.Valid() && b.Valid() && a.disk == b.disk && a.size == b.size && a.table == b.table != []
    requires a.ofs > 0 && b.ofs > 0
    ensures InStep(a, b) <==> |a.Rest()| == |b.Rest()|
  {
    if |a.Rest()| == |b.Rest()| {
      if a.head <= b.head {
        CursorDetermined(a.disk, a.size, a.table, a.head, a.vcn, a.ofs, b.head, b.vcn, b.ofs);
      } else {
        CursorDetermined(a.disk, a.size, a.table, b.head, b.vcn, b.ofs, a.head, a.vcn, a.ofs);
      }
    }
  }

  /** One stream decodes a chunk, another one skips it.  Afterwards they stand at the same place, run, cluster and
      offset, if and only if the chunk is stored or holds whole tokens, or nothing is left behind it. */
  method DecodeAndSkip(a: Stream, b: Stream, dest: array<Byte>, ghost src: seq<Byte>, ghost at: nat)
    returns (decoded: Status, skipped: Status)
    requires a != b && a.cbuf != b.cbuf && dest != a.cbuf && dest != b.cbuf && dest.Length >= MAX_OUT
    requires a.At(src, at) && b.At(src, at) && at + 2 <= |src|
    requires a.disk == b.disk && a.size == b.size && a.table == b.table != []
    modifies a, b, a.cbuf, b.cbuf, dest
    ensures Matches(decoded, dest[..], StreamResult(src, at))
    ensures skipped == if ChunkEnd(src, at) <= |src| then Ok(0) else Error
    ensures decoded.Ok? && skipped.Ok? ==>
              (InStep(a, b) <==> (Compressed(Header(src, at)) ==> WellFormed(src, at)) || ChunkEnd(src, at) == |src|)
  {
    skipped := b.DecompBlock(null, src, at);
    decoded := a.DecompBlock(dest, src, at);
    if decoded.Ok? && skipped.Ok? {
      if Compressed(Header(src, at)) {
        DecodingEnds(src, at);
      }
      SameRest(a, b);
    }
  }

  lemma TailSplit(src: seq<Byte>, at: nat, moved: seq<Byte>, rest: seq<Byte>)
    requires at <= |src| && Follows(moved + rest, src, at)
    ensures at + |moved| + |rest| == |src|
    ensures src[at..at + |moved|] == moved && Follows(rest, src, at + |moved|)
  {
    var all := moved + rest;
    forall k | 0 <= k < |moved|
      ensures src[at + k] == moved[k]
    {
      assert all[k] == moved[k];
    }
    forall k | 0 <= k < |rest|
      ensures rest[k] == src[at + |moved| + k]
    {
      assert all[|moved| + k] == rest[k];
    }
  }

  /** When the stream is `src` from `at` on and yields `b`, that is byte `at` of `src`. */
  lemma TakeFromTail(src: seq<Byte>, at: nat, b: Byte, rest: seq<Byte>)
    requires Follows([b] + rest, src, at)
    ensures at < |src| && src[at] == b && Follows(rest, src, at + 1)
  {
    var all := [b] + rest;
    assert all[0] == b;
    forall k | 0 <= k < |rest|
      ensures rest[k] == src[at + 1 + k]
    {
      assert all[1 + k] == rest[k];
    }
  }
}
