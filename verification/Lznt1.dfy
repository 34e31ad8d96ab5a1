/**
 The token semantics of LZNT1 (section 2.5 of [MS-XCA]) as both NTFS drivers apply it
 (loader/filesys/fsys_ntfs.c, loader/filesys/fsys_ntfs1.c), and the encoder it inverts.

 A compressed chunk is a sequence of groups: a flag byte and up to eight tokens, one flag bit each.  A token
 is a literal byte or a 16-bit code that splits into a displacement and a length; where it splits depends on
 how many bytes the chunk has produced so far.
 */
module Lznt1 {
  import opened Common
  import opened Bits

  const CHUNK := 4096

  /** No chunk ever produces more than this, whatever its tokens: a copy may start at 4096. */
  const MAX_OUT := 4114

  /** Bytes past the end read as 0, as decomp_getch returns when no cluster is left. */
  function At(src: seq<Byte>, i: nat): Byte {
    if i < |src| then src[i] else 0
  }

  // ---------- Codes ----------

  /** How often the split moves by one bit: once for every doubling of the output beyond 16 bytes. */
  function Halvings(n: nat): nat
    requires n >= 1
  {
    if n <= 16 then 0 else 1 + Halvings((n + 1) / 2)
  }

  lemma {:induction false} HalvingsRange(n: nat)
    requires n >= 1
    ensures var k := Halvings(n); n <= 16 * Pow2(k) && (k > 0 ==> n > 8 * Pow2(k))
  {
    if n > 16 {
      HalvingsRange((n + 1) / 2);
    }
  }

  lemma {:induction false} HalvingsAtMost8(n: nat)
    requires 1 <= n <= CHUNK
    ensures Halvings(n) <= 8
  {
    HalvingsRange(n);
    assert Pow2(9) == 512;
    if Halvings(n) >= 9 {
      Pow2Grows(9, Halvings(n));
    }
  }

  /** Width of the length field after `n` bytes; the displacement field has the other bits of the 16. */
  function LenBits(n: nat): (d: nat)
    requires 1 <= n <= CHUNK
    ensures 4 <= d <= 12
  {
    HalvingsAtMost8(n);
    12 - Halvings(n)
  }

  /** The displacement field always reaches back to the first byte, and no narrower field of at least 4
      bits would. */
  lemma {:induction false} DispFieldIsLeast(n: nat, d: nat)
    requires 1 <= n <= CHUNK && d >= 4
    ensures n <= Pow2(16 - LenBits(n))
    ensures n <= Pow2(d) ==> 16 - LenBits(n) <= d
  {
    var k := Halvings(n);
    HalvingsRange(n);
    HalvingsAtMost8(n);
    assert Pow2(4) == 16 && Pow2(3) == 8;
    Pow2Adds(4, k);
    Pow2Adds(3, k);
    if d < 4 + k {
      Pow2Grows(d, 3 + k);
    }
  }

  /** A copy that starts within the chunk ends within MAX_OUT. */
  lemma CopyFits(n: nat)
    requires 1 <= n <= CHUNK
    ensures n + Pow2(LenBits(n)) + 2 <= MAX_OUT
  {
    HalvingsRange(n);
    HalvingsAtMost8(n);
    var k := Halvings(n);
    Pow2Table();
    assert k == 0 || k == 1 || k == 2 || k == 3 || k == 4 || k == 5 || k == 6 || k == 7 || k == 8;
  }

  function Delta(code: nat, n: nat): (d: nat) requires 1 <= n <= CHUNK { Shr(code, LenBits(n)) }
  function Length(code: nat, n: nat): (l: nat) requires 1 <= n <= CHUNK { Low(code, LenBits(n)) + 3 }

  /** A displacement and a length that fit their fields after `n` bytes. */
  predicate Fits(delta: nat, len: nat, n: nat)
    requires 1 <= n <= CHUNK
  {
    delta < Pow2(16 - LenBits(n)) && 3 <= len < Pow2(LenBits(n)) + 3
  }

  function Code(delta: nat, len: nat, n: nat): nat
    requires 1 <= n <= CHUNK && Fits(delta, len, n)
  {
    Join(delta, len - 3, LenBits(n))
  }

  /** The 16-bit codes and the pairs (delta, length) that fit are in one-to-one correspondence. */
  lemma CodeIsSplit(n: nat, delta: nat, len: nat)
    requires 1 <= n <= CHUNK && Fits(delta, len, n)
    ensures Code(delta, len, n) < 0x1_0000
    ensures Delta(Code(delta, len, n), n) == delta && Length(Code(delta, len, n), n) == len
  {
    JoinParts(delta, len - 3, LenBits(n));
    JoinBelow(delta, len - 3, 16 - LenBits(n), LenBits(n));
    Pow2Of16();
  }

  lemma {:induction false} SplitIsCode(n: nat, code: nat)
    requires 1 <= n <= CHUNK && code < 0x1_0000
    ensures Fits(Delta(code, n), Length(code, n), n)
    ensures Code(Delta(code, n), Length(code, n), n) == code
  {
    Pow2Of16();
    var b := LenBits(n);
    LowBelow(code, b);
    ShrBelow(code, 16 - b, b);
    PartsJoin(code, b);
  }

  // ---------- Copying ----------

  /** Appends `len` bytes, each the one `delta + 1` places back; source and target may overlap. */
  function Copy(out: seq<Byte>, delta: nat, len: nat): (r: seq<Byte>)
    requires delta < |out|
    ensures |r| == |out| + len
  {
    if len == 0 then out
    else
      var r := Copy(out, delta, len - 1);
      r + [r[|r| - delta - 1]]
  }

  /** The old bytes stay, and every new byte equals the one delta + 1 places before it, new or old. */
  lemma {:induction false} CopyRefersBack(out: seq<Byte>, delta: nat, len: nat)
    requires delta < |out|
    ensures var r := Copy(out, delta, len);
      out <= r && forall k :: |out| <= k < |r| ==> r[k] == r[k - delta - 1]
  {
    if len > 0 {
      CopyRefersBack(out, delta, len - 1);
    }
  }

  // ---------- Decoding ----------

  /** The result of decoding a chunk body: the output and the position behind the last byte taken, or
      the reason to give up.  Stray is a reference before the start of the output, which C leaves undefined. */
  datatype Outcome = Done(out: seq<Byte>, end: nat) | TooLong | NoSource | Stray

  /** Decodes from position `at` with `cnt` bytes left; `bits` tokens of the current group remain, and `tag`
      holds their flags, lowest bit first. */
  function Decode(src: seq<Byte>, at: nat, cnt: int, bits: nat, tag: nat, out: seq<Byte>): (r: Outcome)
    requires |out| <= MAX_OUT
    ensures r.Done? ==> |out| <= |r.out| <= MAX_OUT
    ensures r.Done? ==> at <= r.end && (cnt >= 0 ==> at + cnt <= r.end <= at + cnt + 1)
    decreases if cnt > 0 then cnt else 0, 1
  {
    if cnt <= 0 then Done(out, at)
    else if |out| > CHUNK then TooLong
    else if bits == 0 then
      if cnt == 1 then Done(out, at + 1) else Token(src, at + 1, cnt - 1, 8, At(src, at), out)
    else Token(src, at, cnt, bits, tag, out)
  }

  /** One token and the rest of the body. */
  function Token(src: seq<Byte>, at: nat, cnt: int, bits: nat, tag: nat, out: seq<Byte>): (r: Outcome)
    requires cnt > 0 && bits > 0 && |out| <= CHUNK
    ensures r.Done? ==> |out| <= |r.out| <= MAX_OUT
    ensures r.Done? ==> at + cnt <= r.end <= at + cnt + 1
    decreases cnt, 0
  {
    if tag % 2 == 1 then
      var code := At(src, at) + 0x100 * At(src, at + 1);
      if out == [] then NoSource
      else if Delta(code, |out|) >= |out| then Stray
      else
        CopyFits(|out|);
        LowBelow(code, LenBits(|out|));
        Decode(src, at + 2, cnt - 2, bits - 1, tag / 2, Copy(out, Delta(code, |out|), Length(code, |out|)))
    else Decode(src, at + 1, cnt - 1, bits - 1, tag / 2, out + [At(src, at)])
  }

  /** Decoding ends when the bytes are used up, or when there is too much output. */
  lemma {:induction false} DecodeEnds(src: seq<Byte>, at: nat, cnt: int, bits: nat, tag: nat, out: seq<Byte>)
    requires |out| <= MAX_OUT
    ensures cnt <= 0 ==> Decode(src, at, cnt, bits, tag, out) == Done(out, at)
    ensures cnt > 0 && |out| > CHUNK ==> Decode(src, at, cnt, bits, tag, out) == TooLong
  {
  }

  lemma DecodeLiteral(src: seq<Byte>, at: nat, cnt: int, bits: nat, tag: nat, out: seq<Byte>)
    requires cnt > 0 && bits > 0 && |out| <= CHUNK && tag % 2 != 1
    ensures Decode(src, at, cnt, bits, tag, out)
            == Decode(src, at + 1, cnt - 1, bits - 1, tag / 2, out + [At(src, at)])
  {
    assert Decode(src, at, cnt, bits, tag, out) == Token(src, at, cnt, bits, tag, out);
  }

  lemma DecodeReference(src: seq<Byte>, at: nat, cnt: int, bits: nat, tag: nat, out: seq<Byte>, code: nat)
    requires cnt > 0 && bits > 0 && |out| <= CHUNK && tag % 2 == 1
    requires code == At(src, at) + 0x100 * At(src, at + 1)
    ensures var d := Decode(src, at, cnt, bits, tag, out);
      if out == [] then d == NoSource
      else if Delta(code, |out|) >= |out| then d == Stray
      else
        && |out| + Length(code, |out|) <= MAX_OUT
        && d == Decode(src, at + 2, cnt - 2, bits - 1, tag / 2, Copy(out, Delta(code, |out|), Length(code, |out|)))
  {
    var d := Decode(src, at, cnt, bits, tag, out);
    assert d == Token(src, at, cnt, bits, tag, out);
    if out != [] {
      CopyFits(|out|);
      LowBelow(code, LenBits(|out|));
    }
  }

  /** Decoding `cnt` bytes looks at them and at most one byte behind: what else is behind does not matter. */
  lemma {:induction false} DecodeFrame(src: seq<Byte>, behind: seq<Byte>, at: nat, cnt: int, bits: nat, tag: nat,
                                       out: seq<Byte>)
    requires |out| <= MAX_OUT && at < |src| && at + cnt < |src|
    ensures Decode(src + behind, at, cnt, bits, tag, out) == Decode(src, at, cnt, bits, tag, out)
    decreases if cnt > 0 then cnt else 0, 1
  {
    var m := src + behind;
    if cnt <= 0 || |out| > CHUNK {
      DecodeEnds(m, at, cnt, bits, tag, out);
      DecodeEnds(src, at, cnt, bits, tag, out);
    } else if bits > 0 {
      TokenFrame(src, behind, at, cnt, bits, tag, out);
    } else if cnt > 1 {
      assert At(m, at) == At(src, at);
      TokenFrame(src, behind, at + 1, cnt - 1, 8, At(src, at), out);
    }
  }

  lemma {:induction false} TokenFrame(src: seq<Byte>, behind: seq<Byte>, at: nat, cnt: nat, bits: nat, tag: nat,
                                      out: seq<Byte>)
    requires |out| <= CHUNK && cnt > 0 && bits > 0 && at + cnt < |src|
    ensures Decode(src + behind, at, cnt, bits, tag, out) == Decode(src, at, cnt, bits, tag, out)
    ensures Token(src + behind, at, cnt, bits, tag, out) == Token(src, at, cnt, bits, tag, out)
    decreases cnt, 0
  {
    var m := src + behind;
    assert At(m, at) == At(src, at) && At(m, at + 1) == At(src, at + 1);
    var code := At(src, at) + 0x100 * At(src, at + 1);
    if tag % 2 != 1 {
      DecodeLiteral(m, at, cnt, bits, tag, out);
      DecodeLiteral(src, at, cnt, bits, tag, out);
      DecodeFrame(src, behind, at + 1, cnt - 1, bits - 1, tag / 2, out + [At(src, at)]);
    } else {
      DecodeReference(m, at, cnt, bits, tag, out, code);
      DecodeReference(src, at, cnt, bits, tag, out, code);
      if out != [] && Delta(code, |out|) < |out| && cnt > 1 {
        DecodeFrame(src, behind, at + 2, cnt - 2, bits - 1, tag / 2,
                    Copy(out, Delta(code, |out|), Length(code, |out|)));
      } else if out != [] && Delta(code, |out|) < |out| {
        DecodeEnds(m, at + 2, -1, bits - 1, tag / 2, Copy(out, Delta(code, |out|), Length(code, |out|)));
        DecodeEnds(src, at + 2, -1, bits - 1, tag / 2, Copy(out, Delta(code, |out|), Length(code, |out|)));
      }
    }
  }

  /** Decoding comes to `goal` if it goes on from here. */
  ghost predicate Ahead(goal: Outcome, src: seq<Byte>, at: nat, cnt: int, bits: nat, tag: nat, out: seq<Byte>)
    requires |out| <= MAX_OUT
  {
    goal == Decode(src, at, cnt, bits, tag, out)
  }

  // ---------- Encoding ----------

  /** A token as it is stored: a literal byte, or the two bytes of a code. */
  datatype Sym = Lit(b: Byte) | Ref(lo: Byte, hi: Byte)
  {
    function Width(): nat { if Lit? then 1 else 2 }
    function Word(): nat requires Ref? { lo + 0x100 * hi }
    function Bytes(): (s: seq<Byte>) ensures |s| == Width() { if Lit? then [b] else [lo, hi] }
  }

  /** The token starts within the chunk and refers to bytes already produced. */
  predicate ValidSym(t: Sym, n: nat) {
    n <= CHUNK && (t.Ref? ==> n > 0 && Delta(t.Word(), n) < n)
  }

  function Apply(t: Sym, out: seq<Byte>): (r: seq<Byte>)
    requires ValidSym(t, |out|)
    ensures |out| < |r| <= MAX_OUT
  {
    match t
    case Lit(b) => out + [b]
    case Ref(_, _) =>
      CopyFits(|out|);
      LowBelow(t.Word(), LenBits(|out|));
      Copy(out, Delta(t.Word(), |out|), Length(t.Word(), |out|))
  }

  /** What a sequence of stored tokens stands for; None when one of them is not valid where it stands. */
  function Expand(ts: seq<Sym>, out: seq<Byte>): (r: Option<seq<Byte>>)
    ensures r.Some? && |out| <= MAX_OUT ==> |r.value| <= MAX_OUT
    decreases |ts|
  {
    if ts == [] then Some(out)
    else if !ValidSym(ts[0], |out|) then None
    else Expand(ts[1..], Apply(ts[0], out))
  }

  /** The flag bits of a group, lowest first. */
  function Flags(g: seq<Sym>): (f: nat) {
    if g == [] then 0 else (if g[0].Ref? then 1 else 0) + 2 * Flags(g[1..])
  }

  lemma {:induction false} FlagsBelow(g: seq<Sym>, k: nat)
    requires |g| <= k
    ensures Flags(g) < Pow2(k)
  {
    if g != [] {
      FlagsBelow(g[1..], k - 1);
    }
  }

  /** The tokens of `ts` that go into a group with `room` places left. */
  function Group(ts: seq<Sym>, room: nat): seq<Sym> { if |ts| <= room then ts else ts[..room] }

  function FlagByte(ts: seq<Sym>): Byte {
    FlagsBelow(Group(ts, 8), 8);
    assert Pow2(8) == 0x100;
    Flags(Group(ts, 8))
  }

  /** The bytes of `ts` when `room` tokens still fit the current group. */
  function Encode(ts: seq<Sym>, room: nat): seq<Byte>
    requires room <= 8
    decreases |ts|, 8 - room
  {
    if ts == [] then []
    else if room == 0 then [FlagByte(ts)] + Encode(ts, 8)
    else ts[0].Bytes() + Encode(ts[1..], room - 1)
  }

  // ---------- Decoding undoes encoding ----------

  /** The bytes of `src` from `at` to `end` are an encoding of `ts`, where `room` tokens still fit the current group
      and `tag` holds their flags.  Flag bits for which there is no token may have any value. */
  predicate Encoded(src: seq<Byte>, at: nat, end: nat, ts: seq<Sym>, room: nat, tag: nat)
    requires room <= 8
    decreases |ts|, 8 - room
  {
    if ts == [] then at == end
    else if room == 0 then at < end && Encoded(src, at + 1, end, ts, 8, At(src, at))
    else
      && (tag % 2 == 1 <==> ts[0].Ref?) && SymAt(src, at, ts[0]) && at + ts[0].Width() <= end
      && Encoded(src, at + ts[0].Width(), end, ts[1..], room - 1, tag / 2)
  }

  predicate SymAt(src: seq<Byte>, at: nat, t: Sym) {
    match t
    case Lit(b) => At(src, at) == b
    case Ref(lo, hi) => At(src, at) == lo && At(src, at + 1) == hi
  }

  predicate Holds(src: seq<Byte>, at: nat, e: seq<Byte>) {
    at + |e| <= |src| && src[at..at + |e|] == e
  }

  lemma HoldsParts(src: seq<Byte>, at: nat, a: seq<Byte>, b: seq<Byte>)
    requires Holds(src, at, a + b)
    ensures Holds(src, at + |a|, b)
    ensures forall i :: 0 <= i < |a| ==> At(src, at + i) == a[i]
  {
    var e := a + b;
    assert src[at + |a|..at + |a| + |b|] == e[|a|..];
    forall i | 0 <= i < |a|
      ensures At(src, at + i) == a[i]
    {
      assert src[at..at + |e|][i] == e[i];
    }
  }

  lemma {:induction false} EncodeIsEncoded(src: seq<Byte>, at: nat, ts: seq<Sym>, room: nat, tag: nat)
    requires room <= 8 && Holds(src, at, Encode(ts, room))
    requires room > 0 ==> tag == Flags(Group(ts, room))
    ensures Encoded(src, at, at + |Encode(ts, room)|, ts, room, tag)
    decreases |ts|, 8 - room
  {
    hide SymAt, Holds, Group, Flags;
    if ts != [] {
      if room == 0 {
        var flags := [FlagByte(ts)];
        HoldsParts(src, at, flags, Encode(ts, 8));
        assert At(src, at + 0) == flags[0];
        EncodeIsEncoded(src, at + 1, ts, 8, FlagByte(ts));
      } else {
        HoldsSym(src, at, ts[0], Encode(ts[1..], room - 1));
        GroupTail(ts, room);
        EncodeIsEncoded(src, at + ts[0].Width(), ts[1..], room - 1, tag / 2);
      }
    }
  }

  lemma HoldsSym(src: seq<Byte>, at: nat, t: Sym, rest: seq<Byte>)
    requires Holds(src, at, t.Bytes() + rest)
    ensures SymAt(src, at, t) && Holds(src, at + t.Width(), rest)
  {
    var bytes := t.Bytes();
    HoldsParts(src, at, bytes, rest);
    assert At(src, at + 0) == bytes[0];
    assert t.Ref? ==> At(src, at + 1) == bytes[1];
  }

  lemma DecodeSym(goal: Outcome, src: seq<Byte>, at: nat, t: Sym, out: seq<Byte>, cnt: nat, bits: nat, tag: nat)
    requires ValidSym(t, |out|) && SymAt(src, at, t) && cnt > 0 && bits > 0
    requires tag % 2 == 1 <==> t.Ref?
    requires Ahead(goal, src, at, cnt, bits, tag, out)
    ensures Ahead(goal, src, at + t.Width(), cnt - t.Width(), bits - 1, tag / 2, Apply(t, out))
  {
    if t.Lit? {
      DecodeLiteral(src, at, cnt, bits, tag, out);
    } else {
      DecodeReference(src, at, cnt, bits, tag, out, t.Word());
    }
  }

  lemma GroupTail(ts: seq<Sym>, room: nat)
    requires ts != [] && room > 0
    ensures var f := Flags(Group(ts, room));
      f % 2 == (if ts[0].Ref? then 1 else 0) && f / 2 == Flags(Group(ts[1..], room - 1))
  {
    assert Group(ts, room)[0] == ts[0] && Group(ts, room)[1..] == Group(ts[1..], room - 1);
    FlagsSplit(Group(ts, room));
  }

  lemma {:induction false} FlagsSplit(g: seq<Sym>)
    requires g != []
    ensures Flags(g) % 2 == (if g[0].Ref? then 1 else 0) && Flags(g) / 2 == Flags(g[1..])
  {
    Halved(if g[0].Ref? then 1 else 0, Flags(g[1..]));
  }

  lemma Halved(b: nat, n: nat)
    requires b < 2
    ensures (b + 2 * n) % 2 == b && (b + 2 * n) / 2 == n
  {
  }

  /** The places left in the last group after `n` more tokens. */
  function Left(room: nat, n: nat): nat
    requires room <= 8
    decreases n, 8 - room
  {
    if n == 0 then room else if room == 0 then Left(8, n) else Left(room - 1, n - 1)
  }

  /** Starting with a flag byte, no place is left after full groups of eight. */
  lemma {:induction false} LeftInLast(n: nat)
    ensures Left(0, n) == if n % 8 == 0 then 0 else 8 - n % 8
  {
    if n > 8 {
      LeftInLast(n - 8);
      LeftAfter(8, n, 8);
    } else {
      LeftAfter(8, n, n);
    }
  }

  lemma {:induction false} LeftAfter(room: nat, n: nat, k: nat)
    requires k <= n && k <= room <= 8
    ensures Left(room, n) == Left(room - k, n - k)
  {
    if k > 0 {
      LeftAfter(room - 1, n - 1, k - 1);
    }
  }

  /** Decoding goes over an encoding as its tokens say and then goes on with the `more` bytes behind it. */
  lemma {:induction false} DecodePrefix(goal: Outcome, src: seq<Byte>, at: nat, end: nat, ts: seq<Sym>, room: nat,
                                        tag: nat, out: seq<Byte>, all: seq<Byte>, more: nat) returns (tag': nat)
    requires |out| <= MAX_OUT && |all| <= MAX_OUT && room <= 8 && Expand(ts, out) == Some(all)
    requires Encoded(src, at, end, ts, room, tag) && Ahead(goal, src, at, end - at + more, room, tag, out)
    ensures at <= end && Ahead(goal, src, end, more, Left(room, |ts|), tag', all)
    decreases |ts|, 8 - room, 1
  {
    hide Decode;
    if ts == [] {
      tag' := tag;
    } else if room == 0 {
      EncodedFlags(src, at, end, ts, tag);
      DecodeFlags(goal, src, at, end - at + more, tag, out);
      tag' := DecodeGroup(goal, src, at + 1, end, ts, 8, At(src, at), out, all, more);
    } else {
      tag' := DecodeGroup(goal, src, at, end, ts, room, tag, out, all, more);
    }
  }

  /** The case of a group with places left: one token, then the rest. */
  lemma {:induction false} DecodeGroup(goal: Outcome, src: seq<Byte>, at: nat, end: nat, ts: seq<Sym>, room: nat,
                                       tag: nat, out: seq<Byte>, all: seq<Byte>, more: nat) returns (tag': nat)
    requires ts != [] && 0 < room <= 8 && |out| <= MAX_OUT && |all| <= MAX_OUT && Expand(ts, out) == Some(all)
    requires Encoded(src, at, end, ts, room, tag) && Ahead(goal, src, at, end - at + more, room, tag, out)
    ensures at < end && Ahead(goal, src, end, more, Left(room, |ts|), tag', all)
    decreases |ts|, 8 - room, 0
  {
    hide Decode, Encoded, Expand, Left;
    var w, out' := OneToken(goal, src, at, end, ts, room, tag, out, more);
    tag' := DecodePrefix(goal, src, at + w, end, ts[1..], room - 1, tag / 2, out', all, more);
  }

  lemma OneToken(goal: Outcome, src: seq<Byte>, at: nat, end: nat, ts: seq<Sym>, room: nat, tag: nat,
                 out: seq<Byte>, more: nat) returns (w: nat, out': seq<Byte>)
    requires ts != [] && 0 < room <= 8 && |out| <= MAX_OUT && Expand(ts, out).Some?
    requires Encoded(src, at, end, ts, room, tag) && Ahead(goal, src, at, end - at + more, room, tag, out)
    ensures w > 0 && at + w <= end && |out'| <= MAX_OUT && Expand(ts, out) == Expand(ts[1..], out')
    ensures Encoded(src, at + w, end, ts[1..], room - 1, tag / 2)
    ensures Ahead(goal, src, at + w, end - (at + w) + more, room - 1, tag / 2, out')
    ensures Left(room, |ts|) == Left(room - 1, |ts[1..]|)
  {
    hide Decode;
    FirstToken(src, at, end, ts, room, tag, out);
    w, out' := AheadSym(goal, src, at, ts[0], out, end - at + more, room, tag,
                       end - (at + ts[0].Width()) + more);
  }

  lemma AheadSym(goal: Outcome, src: seq<Byte>, at: nat, t: Sym, out: seq<Byte>, cnt: nat, bits: nat, tag: nat,
                 rest: int)
    returns (w: nat, out': seq<Byte>)
    requires ValidSym(t, |out|) && SymAt(src, at, t) && cnt > 0 && bits > 0
    requires (tag % 2 == 1 <==> t.Ref?) && rest == cnt - t.Width()
    requires Ahead(goal, src, at, cnt, bits, tag, out)
    ensures w == t.Width() && out' == Apply(t, out)
    ensures Ahead(goal, src, at + w, rest, bits - 1, tag / 2, out')
  {
    DecodeSym(goal, src, at, t, out, cnt, bits, tag);
    w, out' := t.Width(), Apply(t, out);
  }

  lemma FirstToken(src: seq<Byte>, at: nat, end: nat, ts: seq<Sym>, room: nat, tag: nat, out: seq<Byte>)
    requires ts != [] && 0 < room <= 8 && Expand(ts, out).Some? && Encoded(src, at, end, ts, room, tag)
    ensures ValidSym(ts[0], |out|) && Expand(ts, out) == Expand(ts[1..], Apply(ts[0], out))
    ensures (tag % 2 == 1 <==> ts[0].Ref?) && SymAt(src, at, ts[0]) && at + ts[0].Width() <= end
    ensures Encoded(src, at + ts[0].Width(), end, ts[1..], room - 1, tag / 2)
    ensures Left(room, |ts|) == Left(room - 1, |ts[1..]|)
  {
  }

  lemma {:induction false} EncodedFlags(src: seq<Byte>, at: nat, end: nat, ts: seq<Sym>, tag: nat)
    requires ts != [] && Encoded(src, at, end, ts, 0, tag)
    ensures Encoded(src, at + 1, end, ts, 8, At(src, at)) && at + 1 < end
  {
  }

  /** A flag byte with something behind it starts a group. */
  lemma DecodeFlags(goal: Outcome, src: seq<Byte>, at: nat, cnt: nat, tag: nat, out: seq<Byte>)
    requires |out| <= CHUNK && cnt > 1 && Ahead(goal, src, at, cnt, 0, tag, out)
    ensures Ahead(goal, src, at + 1, cnt - 1, 8, At(src, at), out)
  {
  }

  /** Decoding undoes encoding: the decoder reproduces what the tokens stand for and takes exactly their
      bytes, wherever they stand in the stream. */
  lemma {:induction false} DecodeEncoded(src: seq<Byte>, at: nat, end: nat, ts: seq<Sym>, room: nat, tag: nat,
                                         out: seq<Byte>)
    requires |out| <= MAX_OUT && room <= 8 && Expand(ts, out).Some?
    requires Encoded(src, at, end, ts, room, tag)
    ensures at <= end && Decode(src, at, end - at, room, tag, out) == Done(Expand(ts, out).value, end)
  {
    hide Decode, Expand, Encoded;
    EncodedForward(src, at, end, ts, room, tag);
    DecodeWhole(Decode(src, at, end - at, room, tag, out), src, at, end, ts, room, tag, out, Expand(ts, out).value);
  }

  lemma {:induction false} EncodedForward(src: seq<Byte>, at: nat, end: nat, ts: seq<Sym>, room: nat, tag: nat)
    requires room <= 8 && Encoded(src, at, end, ts, room, tag)
    ensures at <= end
  {
  }

  // ---------- Where decoding ends ----------

  /** `end` - `at` bytes that hold an encoding of `ts`, or one of full groups and the flag byte of one more. */
  predicate IsBody(src: seq<Byte>, at: nat, end: nat, ts: seq<Sym>, room: nat, tag: nat)
    requires room <= 8
  {
    || Encoded(src, at, end, ts, room, tag)
    || (at < end && Left(room, |ts|) == 0 && Encoded(src, at, end - 1, ts, room, tag))
  }

  lemma {:induction false} DecodeBody(goal: Outcome, src: seq<Byte>, at: nat, end: nat, ts: seq<Sym>, room: nat,
                                      tag: nat, out: seq<Byte>, all: seq<Byte>)
    requires |out| <= MAX_OUT && |all| <= MAX_OUT && room <= 8 && at <= end && Expand(ts, out) == Some(all)
    requires IsBody(src, at, end, ts, room, tag) && goal.Done? && Ahead(goal, src, at, end - at, room, tag, out)
    ensures goal == Done(all, end)
  {
    hide Decode, Encoded, Expand;
    if Encoded(src, at, end, ts, room, tag) {
      DecodeWhole(goal, src, at, end, ts, room, tag, out, all);
    } else {
      DecodeLone(goal, src, at, end - 1, ts, room, tag, out, all, end - at);
    }
  }

  lemma {:induction false} DecodeWhole(goal: Outcome, src: seq<Byte>, at: nat, end: nat, ts: seq<Sym>, room: nat,
                                       tag: nat, out: seq<Byte>, all: seq<Byte>)
    requires |out| <= MAX_OUT && |all| <= MAX_OUT && room <= 8 && at <= end && Expand(ts, out) == Some(all)
    requires Encoded(src, at, end, ts, room, tag) && Ahead(goal, src, at, end - at, room, tag, out)
    ensures goal == Done(all, end)
  {
    hide Decode, Encoded, Expand, Left;
    var tag' := DecodePrefix(goal, src, at, end, ts, room, tag, out, all, 0);
    DecodeEnds(src, end, 0, Left(room, |ts|), tag', all);
  }

  lemma {:induction false} DecodeLone(goal: Outcome, src: seq<Byte>, at: nat, end: nat, ts: seq<Sym>, room: nat,
                                      tag: nat, out: seq<Byte>, all: seq<Byte>, cnt: nat)
    requires |out| <= MAX_OUT && |all| <= MAX_OUT && room <= 8 && at <= end && Expand(ts, out) == Some(all)
    requires Encoded(src, at, end, ts, room, tag) && Left(room, |ts|) == 0
    requires goal.Done? && cnt == end - at + 1 && Ahead(goal, src, at, cnt, room, tag, out)
    ensures goal == Done(all, end + 1)
  {
    hide Decode, Encoded, Expand;
    var tag' := DecodePrefix(goal, src, at, end, ts, room, tag, out, all, 1);
    DecodeLoneFlags(goal, src, end, tag', all);
  }

  lemma DecodeLoneFlags(goal: Outcome, src: seq<Byte>, at: nat, tag: nat, out: seq<Byte>)
    requires |out| <= MAX_OUT && Ahead(goal, src, at, 1, 0, tag, out) && goal.Done?
    ensures goal == Done(out, at + 1)
  {
  }

  /** The tokens a decoder that comes to an end has met. */
  function Met(src: seq<Byte>, at: nat, cnt: int, bits: nat, tag: nat): seq<Sym>
    decreases if cnt > 0 then cnt else 0, 8 - bits
  {
    if cnt <= 0 then []
    else if bits == 0 then if cnt == 1 then [] else Met(src, at + 1, cnt - 1, 8, At(src, at))
    else
      var t := SymFor(src, at, tag);
      [t] + Met(src, at + t.Width(), cnt - t.Width(), bits - 1, tag / 2)
  }

  /** The token at `at` whose flag is the lowest one of `tag`. */
  function SymFor(src: seq<Byte>, at: nat, tag: nat): (t: Sym)
    ensures SymAt(src, at, t) && (t.Ref? <==> tag % 2 == 1)
  {
    if tag % 2 == 1 then Ref(At(src, at), At(src, at + 1)) else Lit(At(src, at))
  }

  /** `ts` stand for the output of `goal`, and they are the given bytes if `goal` takes no more than those. */
  ghost predicate Explains(goal: Outcome, ts: seq<Sym>, src: seq<Byte>, at: nat, cnt: int, bits: nat, tag: nat,
                           out: seq<Byte>)
    requires bits <= 8 && goal.Done?
  {
    && Expand(ts, out) == Some(goal.out)
    && (cnt >= 0 && goal.end == at + cnt ==> IsBody(src, at, goal.end, ts, bits, tag))
  }

  lemma {:induction false} MetExplains(goal: Outcome, src: seq<Byte>, at: nat, cnt: int, bits: nat, tag: nat,
                                       out: seq<Byte>)
    requires |out| <= MAX_OUT && bits <= 8 && goal.Done? && Ahead(goal, src, at, cnt, bits, tag, out)
    ensures Explains(goal, Met(src, at, cnt, bits, tag), src, at, cnt, bits, tag, out)
    decreases if cnt > 0 then cnt else 0, 1
  {
    hide Decode;
    DecodeEnds(src, at, cnt, bits, tag, out);
    if cnt > 0 {
      if bits > 0 {
        MetToken(goal, src, at, cnt, bits, tag, out);
      } else if cnt == 1 {
        DecodeLoneFlags(goal, src, at, tag, out);
      } else {
        DecodeFlags(goal, src, at, cnt, tag, out);
        MetToken(goal, src, at + 1, cnt - 1, 8, At(src, at), out);
        BodyFlags(src, at, at + cnt, Met(src, at, cnt, 0, tag), tag);
      }
    }
  }

  lemma BodyFlags(src: seq<Byte>, at: nat, end: nat, ts: seq<Sym>, tag: nat)
    requires at + 1 < end && (IsBody(src, at + 1, end, ts, 8, At(src, at)) ==> ts != [])
    ensures IsBody(src, at + 1, end, ts, 8, At(src, at)) ==> IsBody(src, at, end, ts, 0, tag)
  {
  }

  lemma {:induction false} MetToken(goal: Outcome, src: seq<Byte>, at: nat, cnt: nat, bits: nat, tag: nat,
                                    out: seq<Byte>)
    requires |out| <= MAX_OUT && 0 < bits <= 8 && cnt > 0 && goal.Done? && Ahead(goal, src, at, cnt, bits, tag, out)
    ensures Explains(goal, Met(src, at, cnt, bits, tag), src, at, cnt, bits, tag, out)
    ensures Met(src, at, cnt, bits, tag) != []
    decreases cnt, 0
  {
    hide Decode, Expand, Encoded;
    var t, out' := DecodeMet(goal, src, at, cnt, bits, tag, out);
    var w := t.Width();
    MetExplains(goal, src, at + w, cnt - w, bits - 1, tag / 2, out');
    ExplainsOne(goal, t, Met(src, at + w, cnt - w, bits - 1, tag / 2), src, at, cnt, bits, tag, out);
  }

  lemma DecodeMet(goal: Outcome, src: seq<Byte>, at: nat, cnt: nat, bits: nat, tag: nat, out: seq<Byte>)
    returns (t: Sym, out': seq<Byte>)
    requires |out| <= MAX_OUT && bits > 0 && cnt > 0 && goal.Done? && Ahead(goal, src, at, cnt, bits, tag, out)
    ensures t == SymFor(src, at, tag) && ValidSym(t, |out|) && out' == Apply(t, out) && at + t.Width() <= goal.end
    ensures Ahead(goal, src, at + t.Width(), cnt - t.Width(), bits - 1, tag / 2, out')
  {
    DecodeEnds(src, at, cnt, bits, tag, out);
    t := SymFor(src, at, tag);
    if t.Ref? {
      DecodeReference(src, at, cnt, bits, tag, out, t.Word());
    }
    DecodeSym(goal, src, at, t, out, cnt, bits, tag);
    out' := Apply(t, out);
  }

  lemma ExplainsOne(goal: Outcome, t: Sym, ts: seq<Sym>, src: seq<Byte>, at: nat, cnt: nat, bits: nat, tag: nat,
                    out: seq<Byte>)
    requires goal.Done? && 0 < bits <= 8 && t == SymFor(src, at, tag) && ValidSym(t, |out|)
    requires at + t.Width() <= goal.end
    requires Explains(goal, ts, src, at + t.Width(), cnt - t.Width(), bits - 1, tag / 2, Apply(t, out))
    ensures Explains(goal, [t] + ts, src, at, cnt, bits, tag, out)
  {
    ExpandOne(t, ts, out);
    if goal.end == at + cnt {
      BodyOne(src, at, goal.end, t, ts, bits, tag);
    }
  }

  lemma {:induction false} ExpandOne(t: Sym, ts: seq<Sym>, out: seq<Byte>)
    requires ValidSym(t, |out|)
    ensures Expand([t] + ts, out) == Expand(ts, Apply(t, out))
  {
    assert ([t] + ts)[1..] == ts;
  }

  lemma BodyOne(src: seq<Byte>, at: nat, end: nat, t: Sym, ts: seq<Sym>, room: nat, tag: nat)
    requires 0 < room <= 8 && SymAt(src, at, t) && (tag % 2 == 1 <==> t.Ref?) && at + t.Width() <= end
    requires IsBody(src, at + t.Width(), end, ts, room - 1, tag / 2)
    ensures IsBody(src, at, end, [t] + ts, room, tag)
  {
    assert ([t] + ts)[1..] == ts;
  }

  /** The bytes are those of valid tokens. */
  ghost predicate HoldsTokens(src: seq<Byte>, at: nat, end: nat, room: nat, tag: nat, out: seq<Byte>)
    requires room <= 8
  {
    exists ts :: Expand(ts, out).Some? && IsBody(src, at, end, ts, room, tag)
  }

  /** When decoding comes to an end, that is behind the bytes it was given if and only if they hold valid tokens,
      the last of them complete, and then these stand for the output; a code that starts in the last byte is completed
      with the byte behind. */
  lemma {:induction false} DecodeEnd(src: seq<Byte>, at: nat, cnt: nat, room: nat, tag: nat, out: seq<Byte>)
    requires |out| <= MAX_OUT && room <= 8 && Decode(src, at, cnt, room, tag, out).Done?
    ensures var d := Decode(src, at, cnt, room, tag, out);
      && (d.end == at + cnt || d.end == at + cnt + 1)
      && (d.end == at + cnt <==> HoldsTokens(src, at, at + cnt, room, tag, out))
      && forall ts :: Expand(ts, out).Some? && IsBody(src, at, at + cnt, ts, room, tag) ==>
           Expand(ts, out) == Some(d.out)
  {
    hide Decode, Expand;
    var d := Decode(src, at, cnt, room, tag, out);
    if d.end == at + cnt {
      MetExplains(d, src, at, cnt, room, tag, out);
      var ts := Met(src, at, cnt, room, tag);
      assert Expand(ts, out).Some? && IsBody(src, at, at + cnt, ts, room, tag);
    }
    forall ts | Expand(ts, out).Some? && IsBody(src, at, at + cnt, ts, room, tag)
      ensures d == Done(Expand(ts, out).value, at + cnt)
    {
      DecodeBody(d, src, at, at + cnt, ts, room, tag, out, Expand(ts, out).value);
    }
  }
}
