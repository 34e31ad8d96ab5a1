/**
 Long file names of a FAT directory, and their output in UTF-8 (loader/filesys/fsys_fat.c; sections 3 and 4 of
 RFC 3629).
 */
module LongNames {
  import opened Common
  import Bits

  type Unit = u: int | 0 <= u < 0x1_0000

  const NAME_UNITS := 832
  const SLOT_UNITS := 13

  // ---------- Directory entries ----------

  /** One part of a long name. */
  datatype Part = Part(id: Byte, checksum: Byte, units: seq<Unit>)

  type Slot = e: Part | |e.units| == SLOT_UNITS witness Part(0, 0, [0, 0, 0, 0, 0, 0, 0, 0, 0, 0, 0, 0, 0])

  /** An entry: a part of a long name, a file by its short name, or one that is deleted or no file. */
  datatype Entry = Long(slot: Slot) | Short(name: FileName, flags: Byte) | Invalid

  type FileName = s: seq<Byte> | |s| == 11 witness [0, 0, 0, 0, 0, 0, 0, 0, 0, 0, 0]

  function Rotated(sum: Byte): Byte { sum / 2 + sum % 2 * 128 }

  /** The checksum of the first `n` bytes of a short name. */
  function Checksum(name: seq<Byte>, n: nat): Byte
    requires n <= |name|
  {
    if n == 0 then 0 else (Rotated(Checksum(name, n - 1)) + name[n - 1]) % 0x100
  }

  function Bit(x: nat, i: nat): nat { Bits.Shr(x, i) % 2 }

  lemma {:induction false} BitOfSum(a: nat, b: nat, k: nat, i: nat)
    requires a < Bits.Pow2(k) && i <= k && b < 2
    ensures Bit(a + Bits.Pow2(k) * b, i) == if i < k then Bit(a, i) else b
    decreases i
  {
    if k > 0 {
      var p := Bits.Pow2(k - 1);
      assert Bits.Pow2(k) * b == 2 * (p * b);
      if i > 0 {
        BitOfSum(a / 2, b, k - 1, i - 1);
      }
    }
  }

  /** The sum turns to the right: its lowest bit becomes the highest one. */
  lemma RotatedBits(sum: Byte, i: nat)
    requires i < 8
    ensures Bit(Rotated(sum), i) == Bit(sum, (i + 1) % 8)
  {
    hide Bit, Bits.Pow2;
    Bits.Pow2Table();
    BitOfSum(sum / 2, sum % 2, 7, i);
    NextBit(sum, i);
  }

  lemma NextBit(x: nat, i: nat)
    ensures Bit(x, i + 1) == Bit(x / 2, i) && Bit(x, 0) == x % 2
  {
  }

  // ---------- Short names ----------

  function Lower(c: Byte, y: bool): Byte { if y && 'A' as int <= c <= 'Z' as int then c + 0x20 else c }

  /** The bytes from `i` on, up to position `end`, a NUL or a space. */
  function Field(name: seq<Byte>, i: nat, end: nat, y: bool): (s: seq<Unit>)
    requires i <= end <= |name|
    ensures |s| <= end - i
    decreases end - i
  {
    if i == end || name[i] == 0 || name[i] == 0x20 then [] else [Lower(name[i], y)] + Field(name, i + 1, end, y)
  }

  function Base(name: FileName, flags: Byte): seq<Unit>
  {
    Field(name, 0, 8, flags / 8 % 2 == 1)
  }

  function Extension(name: FileName, flags: Byte): seq<Unit>
  {
    Field(name, 8, 11, flags / 16 % 2 == 1)
  }

  /** What a short name leaves in the buffer. */
  function ShortText(name: FileName, flags: Byte): (s: seq<Unit>)
    ensures 0 < |s| <= SLOT_UNITS
  {
    var base, ext := Base(name, flags), Extension(name, flags);
    if ext == [] then base + [0, name[8]] else base + ['.' as int] + ext + [0]
  }

  // ---------- The state ----------

  datatype State = State(filename: seq<Unit>, slot: int, alias: int)

  predicate IsState(st: State) { |st.filename| == NAME_UNITS && st.slot < 64 }

  function Put(f: seq<Unit>, at: nat, units: seq<Unit>): (g: seq<Unit>)
    requires at + |units| <= |f|
    ensures |g| == |f| && g[..at] == f[..at] && g[at..at + |units|] == units && g[at + |units|..] == f[at + |units|..]
  {
    f[..at] + units + f[at + |units|..]
  }

  predicate IsLast(e: Slot) { e.id / 0x40 % 2 == 1 }
  function Number(e: Slot): (n: nat) ensures IsLast(e) ==> n < 64 { if IsLast(e) then e.id % 0x40 else e.id }

  function StepLong(st: State, e: Slot): (r: State)
    requires IsState(st)
    ensures IsState(r)
  {
    var s := if IsLast(e) then State(st.filename[Number(e) * SLOT_UNITS := 0], Number(e), e.checksum) else st;
    if Number(e) != s.slot || s.slot == 0 || s.alias != e.checksum then s.(alias := -1)
    else State(Put(s.filename, (s.slot - 1) * SLOT_UNITS, e.units), s.slot - 1, s.alias)
  }

  /** A short name: whether the long name before it is its own, and the state. */
  function StepShort(st: State, name: FileName, flags: Byte): (r: (State, bool))
    requires IsState(st)
    ensures IsState(r.0)
  {
    var s := if st.alias != -1 && st.slot == 0 then st.(slot := -2) else st;
    if st.alias != -1 && st.slot == 0 && Checksum(name, 11) == st.alias then (s, true)
    else (s.(filename := Put(s.filename, 0, ShortText(name, flags))), false)
  }

  // ---------- What is in the buffer ----------

  /** The last entries seen are parts `k` to `n` of one name, the last part first, and the buffer holds them. */
  ghost predicate Holds(longs: seq<Slot>, k: nat, n: nat, alias: int, f: seq<Unit>)
    requires |f| == NAME_UNITS
    decreases |longs|
  {
    && longs != [] && 0 < k <= n < 64
    && (var e := longs[|longs| - 1];
        && e.checksum == alias && f[(k - 1) * SLOT_UNITS..k * SLOT_UNITS] == e.units && Number(e) == k
        && if k == n then IsLast(e) && f[n * SLOT_UNITS] == 0
           else !IsLast(e) && Holds(longs[..|longs| - 1], k + 1, n, alias, f))
  }

  ghost predicate Assembled(longs: seq<Slot>, k: nat, alias: int, f: seq<Unit>)
    requires |f| == NAME_UNITS
  {
    exists n: nat :: Holds(longs, k, n, alias, f)
  }

  /** If a name is being assembled, all its parts so far came in a row. */
  ghost predicate Chained(longs: seq<Slot>, st: State) {
    && IsState(st)
    && (st.alias != -1 && st.slot >= 0 ==> Assembled(longs, st.slot + 1, st.alias, st.filename))
  }

  lemma {:induction false} HoldsFrame(longs: seq<Slot>, k: nat, n: nat, alias: int, f: seq<Unit>, g: seq<Unit>)
    requires |f| == |g| == NAME_UNITS && Holds(longs, k, n, alias, f)
    requires f[(k - 1) * SLOT_UNITS..] == g[(k - 1) * SLOT_UNITS..]
    ensures Holds(longs, k, n, alias, g)
    decreases |longs|
  {
    assert f[(k - 1) * SLOT_UNITS..][..SLOT_UNITS] == f[(k - 1) * SLOT_UNITS..k * SLOT_UNITS];
    assert g[(k - 1) * SLOT_UNITS..][..SLOT_UNITS] == g[(k - 1) * SLOT_UNITS..k * SLOT_UNITS];
    if k == n {
      assert f[(k - 1) * SLOT_UNITS..][SLOT_UNITS] == f[n * SLOT_UNITS];
      assert g[(k - 1) * SLOT_UNITS..][SLOT_UNITS] == g[n * SLOT_UNITS];
    } else {
      assert f[(k - 1) * SLOT_UNITS..][SLOT_UNITS..] == f[k * SLOT_UNITS..];
      assert g[(k - 1) * SLOT_UNITS..][SLOT_UNITS..] == g[k * SLOT_UNITS..];
      HoldsFrame(longs[..|longs| - 1], k + 1, n, alias, f, g);
    }
  }

  lemma {:induction false} ChainedLong(longs: seq<Slot>, st: State, e: Slot)
    requires Chained(longs, st)
    ensures Chained(longs + [e], StepLong(st, e))
  {
    var r := StepLong(st, e);
    var more := longs + [e];
    assert more[..|longs|] == longs;
    if r.alias != -1 && r.slot >= 0 {
      var k := r.slot + 1;
      assert r.filename[(k - 1) * SLOT_UNITS..k * SLOT_UNITS] == e.units;
      if IsLast(e) {
        PutKeeps(st.filename[Number(e) * SLOT_UNITS := 0], r.slot * SLOT_UNITS, e.units, k * SLOT_UNITS);
        assert Holds(more, k, k, r.alias, r.filename);
      } else {
        var n: nat :| Holds(longs, k + 1, n, st.alias, st.filename);
        PutTail(st.filename, r.slot * SLOT_UNITS, e.units);
        HoldsFrame(longs, k + 1, n, st.alias, st.filename, r.filename);
        assert Holds(more, k, n, r.alias, r.filename);
      }
    }
  }

  lemma PutTail(f: seq<Unit>, at: nat, units: seq<Unit>)
    requires at + |units| <= |f|
    ensures Put(f, at, units)[at + |units|..] == f[at + |units|..]
  {
  }

  lemma PutKeeps(f: seq<Unit>, at: nat, units: seq<Unit>, i: nat)
    requires at + |units| <= i < |f|
    ensures Put(f, at, units)[i] == f[i]
  {
    assert Put(f, at, units)[at + |units|..][i - at - |units|] == f[at + |units|..][i - at - |units|];
  }

  lemma ChainedShort(longs: seq<Slot>, st: State, name: FileName, flags: Byte)
    requires Chained(longs, st)
    ensures Chained(longs, StepShort(st, name, flags).0)
  {
    if st.alias != -1 && st.slot > 0 {
      var text := ShortText(name, flags);
      var n: nat :| Holds(longs, st.slot + 1, n, st.alias, st.filename);
      var g := Put(st.filename, 0, text);
      PutTail(st.filename, 0, text);
      assert st.filename[|text|..][st.slot * SLOT_UNITS - |text|..] == st.filename[st.slot * SLOT_UNITS..];
      assert g[|text|..][st.slot * SLOT_UNITS - |text|..] == g[st.slot * SLOT_UNITS..];
      HoldsFrame(longs, st.slot + 1, n, st.alias, st.filename, g);
    }
  }

  // ---------- The name ----------

  /** The units up to the first NUL. */
  function CString(f: seq<Unit>): seq<Unit> { if f == [] || f[0] == 0 then [] else [f[0]] + CString(f[1..]) }

  /** The last `count` parts seen, put together: the part that came last goes first. */
  function Joined(longs: seq<Slot>, count: nat): seq<Unit>
    requires count <= |longs|
  {
    if count == 0 then [] else longs[|longs| - 1].units + Joined(longs[..|longs| - 1], count - 1)
  }

  /** The last entries seen are parts `k` to `n` of one name, all of one checksum, the last part first. */
  ghost predicate PartsOfOne(longs: seq<Slot>, k: nat, n: nat, alias: int)
    decreases |longs|
  {
    && longs != [] && 0 < k <= n
    && (var e := longs[|longs| - 1];
        && e.checksum == alias && Number(e) == k
        && if k == n then IsLast(e) else !IsLast(e) && PartsOfOne(longs[..|longs| - 1], k + 1, n, alias))
  }

  lemma {:induction false} HoldsParts(longs: seq<Slot>, k: nat, n: nat, alias: int, f: seq<Unit>)
    requires |f| == NAME_UNITS && Holds(longs, k, n, alias, f)
    ensures PartsOfOne(longs, k, n, alias) && f[n * SLOT_UNITS] == 0
    ensures n - k < |longs| && f[(k - 1) * SLOT_UNITS..n * SLOT_UNITS] == Joined(longs, n - k + 1)
    decreases |longs|
  {
    var e := longs[|longs| - 1];
    if k == n {
      assert Joined(longs[..|longs| - 1], 0) == [];
      assert e.units + [] == e.units;
    } else {
      HoldsParts(longs[..|longs| - 1], k + 1, n, alias, f);
      assert f[(k - 1) * SLOT_UNITS..n * SLOT_UNITS] ==
             f[(k - 1) * SLOT_UNITS..k * SLOT_UNITS] + f[k * SLOT_UNITS..n * SLOT_UNITS];
    }
  }

  lemma {:induction false} CStringOf(f: seq<Unit>, u: seq<Unit>)
    requires |u| < |f| && f[..|u|] == u && f[|u|] == 0 && 0 !in u
    ensures CString(f) == u
    decreases |u|
  {
    if u != [] {
      assert f[0] == f[..|u|][0] == u[0];
      assert f[1..][..|u| - 1] == f[..|u|][1..] == u[1..];
      CStringOf(f[1..], u[1..]);
      assert u == [u[0]] + u[1..];
    }
  }

  lemma {:induction false} CStringPrefix(f: seq<Unit>, n: nat)
    requires n < |f| && f[n] == 0
    ensures CString(f) == CString(f[..n])
    decreases n
  {
    if n > 0 && f[0] != 0 {
      CStringPrefix(f[1..], n - 1);
      assert f[1..][..n - 1] == f[..n][1..];
    }
  }

  /** If a long name is found, the entries before it are all parts of it, in a row and with the checksum of the short
      name, and the buffer holds them put together. */
  lemma FoundIsJoined(longs: seq<Slot>, st: State, name: FileName, flags: Byte) returns (n: nat)
    requires Chained(longs, st) && StepShort(st, name, flags).1
    ensures 0 < n <= |longs| && PartsOfOne(longs, 1, n, Checksum(name, 11))
    ensures CString(StepShort(st, name, flags).0.filename) == CString(Joined(longs, n))
  {
    n :| Holds(longs, 1, n, st.alias, st.filename);
    HoldsParts(longs, 1, n, st.alias, st.filename);
    CStringPrefix(st.filename, n * SLOT_UNITS);
  }

  // ---------- Which names are found ----------

  /** The parts of a name that is being assembled are the last of these. */
  function Pending(longs: seq<Slot>, st: State): seq<Slot> { if st.alias == -1 || st.slot < 0 then [] else longs }

  /** Parts in a row are being assembled. */
  ghost predicate Exact(longs: seq<Slot>, st: State) {
    forall k: nat, n: nat, alias: int :: PartsOfOne(longs, k, n, alias) ==> st.slot == k - 1 && st.alias == alias
  }

  /** The parts end with some of a name, but not with its first part. */
  ghost predicate HalfName(longs: seq<Slot>) {
    exists k: nat, n: nat, alias: int :: k > 1 && PartsOfOne(longs, k, n, alias)
  }

  /** The parts end with all of a name for a short name of that checksum, */
  ghost predicate HasLongName(longs: seq<Slot>, checksum: Byte) {
    exists n: nat :: PartsOfOne(longs, 1, n, checksum)
  }

  /** which is `u`. */
  ghost predicate IsLongName(longs: seq<Slot>, checksum: Byte, n: nat, u: seq<Unit>) {
    n <= |longs| && PartsOfOne(longs, 1, n, checksum) && u == CString(Joined(longs, n))
  }

  /** `u` is the short name of a file, or the long name in front of its entry. */
  ghost predicate Named(longs: seq<Slot>, name: FileName, flags: Byte, u: seq<Unit>) {
    u == ShortName(name, flags) || exists n: nat :: IsLongName(longs, Checksum(name, 11), n, u)
  }

  lemma {:induction false} PartsUnique(longs: seq<Slot>, k: nat, m: nat, n: nat, alias: int)
    requires PartsOfOne(longs, k, m, alias) && PartsOfOne(longs, k, n, alias)
    ensures m == n && n - k < |longs|
    decreases |longs|
  {
    if k != m && k != n {
      PartsUnique(longs[..|longs| - 1], k + 1, m, n, alias);
    }
  }

  lemma ExactLong(longs: seq<Slot>, st: State, e: Slot)
    requires IsState(st) && Exact(Pending(longs, st), st)
    ensures Exact(Pending(longs + [e], StepLong(st, e)), StepLong(st, e))
    ensures Exact(longs, st) ==> Exact(longs + [e], StepLong(st, e))
  {
    var more, r := longs + [e], StepLong(st, e);
    assert more[..|longs|] == longs;
    forall k: nat, n: nat, alias: int | PartsOfOne(more, k, n, alias) && (IsLast(e) || Exact(longs, st))
      ensures r.slot == k - 1 && r.alias == alias
    {
      if k != n {
        assert PartsOfOne(longs, k + 1, n, alias);
      }
    }
    assert !IsLast(e) && Pending(more, r) != [] ==> Pending(longs, st) == longs;
  }

  lemma {:induction false} ExactShort(longs: seq<Slot>, st: State, name: FileName, flags: Byte)
    requires Chained(longs, st) && Exact(longs, st)
    ensures var (r, long) := StepShort(st, name, flags);
      && (long <==> HasLongName(longs, Checksum(name, 11)))
      && Pending(longs, r) == if HalfName(longs) then longs else []
  {
    hide Checksum, ShortText, Put, Joined;
    if StepShort(st, name, flags).1 {
      var n := FoundIsJoined(longs, st, name, flags);
      assert PartsOfOne(longs, 1, n, Checksum(name, 11));
    }
    if HasLongName(longs, Checksum(name, 11)) {
      var n: nat :| PartsOfOne(longs, 1, n, Checksum(name, 11));
      assert StepShort(st, name, flags).1;
    }
    if st.alias != -1 && st.slot > 0 {
      var n: nat :| Holds(longs, st.slot + 1, n, st.alias, st.filename);
      HoldsParts(longs, st.slot + 1, n, st.alias, st.filename);
      var k := st.slot + 1;
      assert PartsOfOne(longs, k, n, st.alias);
    }
  }

  // ---------- Names on the disk ----------

  /** How many parts a name has. */
  function Count(u: seq<Unit>): nat { (|u| + SLOT_UNITS - 1) / SLOT_UNITS }

  /** A name whose length is no multiple of 13 ends with a NUL, and 0xFFFF fills its last part. */
  function Padded(u: seq<Unit>): (p: seq<Unit>)
    ensures |p| == Count(u) * SLOT_UNITS
  {
    if |u| % SLOT_UNITS == 0 then u
    else u + [0] + seq(SLOT_UNITS - 1 - |u| % SLOT_UNITS, i => 0xFFFF)
  }

  /** Part `k` of a name. */
  function PartOf(u: seq<Unit>, checksum: Byte, k: nat): Slot
    requires 0 < k <= Count(u) < 64
  {
    Part(if k == Count(u) then k + 0x40 else k, checksum, Padded(u)[(k - 1) * SLOT_UNITS..k * SLOT_UNITS])
  }

  /** Parts `k` to 1, as they follow each other in the directory. */
  function PartsFrom(u: seq<Unit>, checksum: Byte, k: nat): seq<Slot>
    requires k <= Count(u) < 64
  {
    if k == 0 then [] else [PartOf(u, checksum, k)] + PartsFrom(u, checksum, k - 1)
  }

  function Feed(st: State, es: seq<Slot>): (r: State)
    requires IsState(st)
    ensures IsState(r)
    decreases |es|
  {
    if es == [] then st else Feed(StepLong(st, es[0]), es[1..])
  }

  /** Parts `k + 1` and above of the name are in the buffer. */
  ghost predicate Upper(st: State, u: seq<Unit>, checksum: Byte, k: nat) {
    && IsState(st) && k <= Count(u) < 64 && st.slot == k && st.alias == checksum
    && st.filename[k * SLOT_UNITS..Count(u) * SLOT_UNITS] == Padded(u)[k * SLOT_UNITS..]
    && st.filename[Count(u) * SLOT_UNITS] == 0
  }

  lemma SplitAt(p: seq<Unit>, a: nat, b: nat)
    requires a <= b <= |p|
    ensures p[a..] == p[a..b] + p[b..]
  {
  }

  lemma PutBefore(f: seq<Unit>, at: nat, units: seq<Unit>, end: nat)
    requires at + |units| <= end <= |f|
    ensures Put(f, at, units)[at..end] == units + f[at + |units|..end]
  {
    assert Put(f, at, units)[at..end] == (f[..at] + units + f[at + |units|..])[at..end];
  }

  /** Writing a part below those already in the buffer. */
  lemma PutUpper(f: seq<Unit>, p: seq<Unit>, at: nat, next: nat, units: seq<Unit>)
    requires at + |units| == next <= |p| < |f| && units == p[at..next] && f[next..|p|] == p[next..] && f[|p|] == 0
    ensures Put(f, at, units)[at..|p|] == p[at..] && Put(f, at, units)[|p|] == 0
  {
    PutKeeps(f, at, units, |p|);
    PutBefore(f, at, units, |p|);
    SplitAt(p, at, next);
  }

  lemma FirstPart(st: State, u: seq<Unit>, checksum: Byte)
    requires IsState(st) && 0 < Count(u) < 64
    ensures Upper(StepLong(st, PartOf(u, checksum, Count(u))), u, checksum, Count(u) - 1)
  {
    var n, p := Count(u), Padded(u);
    var f := st.filename[n * SLOT_UNITS := 0];
    assert f[n * SLOT_UNITS..n * SLOT_UNITS] == p[n * SLOT_UNITS..];
    PutUpper(f, p, (n - 1) * SLOT_UNITS, n * SLOT_UNITS, p[(n - 1) * SLOT_UNITS..n * SLOT_UNITS]);
  }

  lemma StepNext(st: State, e: Slot)
    requires IsState(st) && !IsLast(e) && Number(e) == st.slot > 0 && st.alias == e.checksum
    ensures StepLong(st, e) == State(Put(st.filename, (st.slot - 1) * SLOT_UNITS, e.units), st.slot - 1, st.alias)
  {
  }

  lemma NextPart(st: State, u: seq<Unit>, checksum: Byte, k: nat)
    requires Upper(st, u, checksum, k) && 0 < k < Count(u)
    ensures Upper(StepLong(st, PartOf(u, checksum, k)), u, checksum, k - 1)
  {
    var p := Padded(u);
    StepNext(st, PartOf(u, checksum, k));
    PutUpper(st.filename, p, (k - 1) * SLOT_UNITS, k * SLOT_UNITS, p[(k - 1) * SLOT_UNITS..k * SLOT_UNITS]);
  }

  lemma {:induction false} FeedUpper(st: State, u: seq<Unit>, checksum: Byte, k: nat)
    requires Upper(st, u, checksum, k) && k < Count(u)
    ensures Upper(Feed(st, PartsFrom(u, checksum, k)), u, checksum, 0)
    decreases k
  {
    if k > 0 {
      NextPart(st, u, checksum, k);
      FeedUpper(StepLong(st, PartOf(u, checksum, k)), u, checksum, k - 1);
      assert PartsFrom(u, checksum, k)[1..] == PartsFrom(u, checksum, k - 1);
    }
  }

  /** A name fed part by part, in the order of the disk and from whatever state, is reassembled, and found by the
      short name of its checksum. */
  lemma {:induction false} NameReassembled(st: State, u: seq<Unit>, name: FileName, flags: Byte)
    requires IsState(st) && 0 !in u && 0 < |u| && Count(u) < 64
    ensures var r := StepShort(Feed(st, PartsFrom(u, Checksum(name, 11), Count(u))), name, flags);
            r.1 && CString(r.0.filename) == u
  {
    var n, c := Count(u), Checksum(name, 11);
    var first := StepLong(st, PartOf(u, c, n));
    FirstPart(st, u, c);
    FeedUpper(first, u, c, n - 1);
    assert PartsFrom(u, c, n)[1..] == PartsFrom(u, c, n - 1);
    BufferHolds(Feed(first, PartsFrom(u, c, n - 1)), u, c);
  }

  lemma BufferHolds(st: State, u: seq<Unit>, checksum: Byte)
    requires Upper(st, u, checksum, 0) && 0 !in u && 0 < |u|
    ensures CString(st.filename) == u
  {
    var n := Count(u) * SLOT_UNITS;
    assert st.filename[..n] == st.filename[0..n] == Padded(u);
    assert st.filename[..|u|] == st.filename[..n][..|u|] == Padded(u)[..|u|] == u;
    if |u| < n {
      assert st.filename[|u|] == st.filename[..n][|u|] == Padded(u)[|u|];
    }
    CStringOf(st.filename, u);
  }

  lemma {:induction false} ChainedFeed(longs: seq<Slot>, st: State, es: seq<Slot>)
    requires Chained(longs, st)
    ensures Chained(longs + es, Feed(st, es))
    decreases |es|
  {
    if es == [] {
      assert longs + [] == longs;
    } else {
      ChainedLong(longs, st, es[0]);
      ChainedFeed(longs + [es[0]], StepLong(st, es[0]), es[1..]);
      assert (longs + [es[0]]) + es[1..] == longs + es;
    }
  }

  /** A name that stands in front of the entry as the format prescribes is a name of the file, whatever other parts
      are in front of it. */
  lemma {:induction false} ProperIsNamed(longs: seq<Slot>, u: seq<Unit>, name: FileName, flags: Byte)
    requires 0 !in u && 0 < |u| && Count(u) < 64
    ensures Named(longs + PartsFrom(u, Checksum(name, 11), Count(u)), name, flags, u)
  {
    var parts := PartsFrom(u, Checksum(name, 11), Count(u));
    var st := State(seq<Unit>(NAME_UNITS, _ => 0), -2, -1);
    ChainedFeed(longs, st, parts);
    NameReassembled(st, u, name, flags);
    var n := FoundIsJoined(longs + parts, Feed(st, parts), name, flags);
    assert IsLongName(longs + parts, Checksum(name, 11), n, u);
  }

  // ---------- The loop over a directory ----------

  /** The variables of fat_dir that outlive an entry. */
  class Names {
    const filename: array<Unit>
    var slot: int
    var alias: int              // alias_checksum
    ghost var longs: seq<Slot>  // the parts of long names seen so far

    ghost function Now(): State
      reads this, filename
    {
      State(filename[..], slot, alias)
    }

    ghost predicate Valid()
      reads this, filename
    {
      filename.Length == NAME_UNITS && Chained(longs, Now()) && Exact(Pending(longs, Now()), Now())
    }

    /** What the next file may find of a long name. */
    ghost function Rest(): seq<Slot>
      reads this, filename
    {
      Pending(longs, Now())
    }

    constructor ()
      ensures Valid() && fresh(filename) && longs == []
    {
      filename := new Unit[NAME_UNITS];
      slot, alias, longs := -2, -1, [];
    }

    /** An entry with a part of a long name. */
    method LongEntry(e: Slot)
      requires Valid()
      modifies this, filename
      ensures Valid() && Now() == StepLong(old(Now()), e) && longs == old(longs) + [e]
      ensures old(Exact(longs, Now())) ==> Exact(longs, Now())
    {
      hide Exact, Pending;
      ghost var before := Now();
      ChainedLong(longs, before, e);
      ExactLong(longs, before, e);
      longs := longs + [e];
      var id: nat := e.id;
      if id / 0x40 % 2 == 1 {
        id := id % 0x40;
        slot := id;
        filename[slot * SLOT_UNITS] := 0;
        alias := e.checksum;
        assert filename[..] == before.filename[slot * SLOT_UNITS := 0];
      }
      if id != slot || slot == 0 || alias != e.checksum {
        alias := -1;
        return;
      }
      ghost var f := filename[..];
      slot := slot - 1;
      CopyUnits(slot * SLOT_UNITS, e.units);
    }

    method CopyUnits(offset: nat, units: seq<Unit>)
      requires offset + |units| <= filename.Length
      modifies filename
      ensures filename[..] == Put(old(filename[..]), offset, units)
    {
      var i := 0;
      while i < |units|
        invariant 0 <= i <= |units|
        invariant filename[..] == Put(old(filename[..]), offset, units[..i])
      {
        filename[offset + i] := units[i];
        i := i + 1;
      }
      assert units[..i] == units;
    }

    /** One field of a short name, up to a NUL or a space; that is copied too. */
    method CopyField(at: nat, name: seq<Byte>, i: nat, end: nat, y: bool) returns (j: nat)
      requires i <= end <= |name| && at + (end - i) < filename.Length
      modifies filename
      ensures j == |Field(name, i, end, y)|
      ensures filename[..] ==
              Put(old(filename[..]), at, Field(name, i, end, y) + if i + j < end then [name[i + j]] else [])
    {
      hide Put;
      j := 0;
      ghost var f, done := filename[..], [];
      PutNothing(f, at);
      while j < end - i
        invariant 0 <= j == |done| && i + j <= end && Field(name, i, end, y) == done + Field(name, i + j, end, y)
        invariant filename[..] == Put(f, at, done)
      {
        var c := Lower(name[i + j], y);
        PutGrows(f, at, done, c);
        filename[at + j] := c;
        if name[i + j] == 0 || name[i + j] == 0x20 {
          assert done + [] == done;
          return;
        }
        FieldGrows(done, name, i + j, end, y);
        done := done + [c];
        j := j + 1;
      }
      assert done + [] == done;
    }

    /** The first field of a short name, and a dot. */
    method WriteBase(name: FileName, flags: Byte) returns (i: nat)
      requires filename.Length == NAME_UNITS
      modifies filename
      ensures i == |Base(name, flags)| + 1
      ensures filename[..] == Put(old(filename[..]), 0, Base(name, flags) + ['.' as int])
    {
      ghost var f, base := filename[..], Base(name, flags);
      i := CopyField(0, name, 0, 8, flags / 8 % 2 == 1);
      PutSet(f, base, if i < 8 then [name[i]] else [], '.' as int);
      filename[i] := '.' as int;
      i := i + 1;
    }

    /** The second field behind it, if it is not empty, and a NUL. */
    method WriteExtension(name: FileName, flags: Byte, at: nat, ghost f: seq<Unit>)
      requires filename.Length == NAME_UNITS == |f| && at == |Base(name, flags)| + 1
      requires filename[..] == Put(f, 0, Base(name, flags) + ['.' as int])
      modifies filename
      ensures filename[..] == Put(f, 0, ShortText(name, flags))
    {
      hide Put, ShortText, Field;
      var i := at;
      var j := CopyField(i, name, 8, 11, flags / 16 % 2 == 1);
      if j == 0 {
        i := i - 1;
      }
      EndsWithNul(f, name, flags, j);
      filename[i + j] := 0;
    }

    lemma {:induction false} EndsWithNul(f: seq<Unit>, name: FileName, flags: Byte, j: nat)
      requires |f| == NAME_UNITS && j == |Extension(name, flags)|
      ensures var a := Base(name, flags) + ['.' as int];
              var g := Put(Put(f, 0, a), |a|, Extension(name, flags) + if 8 + j < 11 then [name[8 + j]] else []);
              g[if j == 0 then |a| - 1 else |a| + j := 0] == Put(f, 0, ShortText(name, flags))
    {
      var base, ext := Base(name, flags), Extension(name, flags);
      var a, stop := base + ['.' as int], if 8 + j < 11 then [name[8 + j]] else [];
      PutPut(f, a, ext + stop);
      if j == 0 {
        assert ext + stop == [name[8]];
        PutFirst(f, base, '.' as int, name[8], 0);
      } else {
        assert a + (ext + stop) == (a + ext) + stop;
        PutSet(f, a + ext, stop, 0);
      }
    }

    /** A short name as base, dot and extension. */
    method WriteShort(name: FileName, flags: Byte)
      requires filename.Length == NAME_UNITS
      modifies filename
      ensures filename[..] == Put(old(filename[..]), 0, ShortText(name, flags))
    {
      ghost var f := filename[..];
      var i := WriteBase(name, flags);
      WriteExtension(name, flags, i, f);
    }

    method Sum(name: FileName) returns (sum: Byte)
        ensures sum == Checksum(name, 11)
    {
      sum := 0;
      var i := 0;
      while i < 11
        invariant 0 <= i <= 11 && sum == Checksum(name, i)
      {
        sum := (Rotated(sum) + name[i]) % 0x100;
        i := i + 1;
      }
    }

    /** An entry of a file: its long name, if the parts before it are those of its own, or else its short name. */
    method ShortEntry(name: FileName, flags: Byte) returns (long: bool)
      requires Valid()
      modifies this`slot, filename
      ensures Valid() && (Now(), long) == StepShort(old(Now()), name, flags)
    {
      ChainedShort(longs, Now(), name, flags);
      if alias != -1 && slot == 0 {
        slot := -2;
        var sum := Sum(name);
        if sum == alias {
          return true;
        }
      }
      WriteShort(name, flags);
      long := false;
    }

    /** The entry of a file: the buffer holds its long name, if it has one, or else its short name. */
    method FileEntry(name: FileName, flags: Byte) returns (long: bool, ghost n: nat)
      requires Valid() && Exact(longs, Now())
      modifies this`slot, filename
      ensures Valid() && Rest() == if HalfName(longs) then longs else []
      ensures long ==> IsLongName(longs, Checksum(name, 11), n, CString(filename[..])) && alias != -1
      ensures !long ==> CString(filename[..]) == ShortName(name, flags)
      ensures long <==> HasLongName(longs, Checksum(name, 11))
    {
      ghost var before := Now();
      n := 0;
      ExactShort(longs, before, name, flags);
      long := ShortEntry(name, flags);
      if long {
        n := FoundIsJoined(longs, before, name, flags);
      } else {
        ShortTextIsName(before.filename, name, flags);
      }
    }

    /** Takes in the entries up to the next file. */
    method SkipParts(dir: seq<Entry>, from: nat) returns (pos: nat)
      requires Valid() && Exact(longs, Now()) && from <= |dir|
      modifies this, filename
      ensures Valid() && Exact(longs, Now()) && from <= pos <= |dir| && longs == Seen(old(longs), dir, from, pos)
      ensures (forall i :: from <= i < pos ==> !dir[i].Short?) && (pos < |dir| ==> dir[pos].Short?)
    {
      pos := from;
      while pos < |dir| && !dir[pos].Short?
        invariant Valid() && Exact(longs, Now()) && from <= pos <= |dir| && longs == Seen(old(longs), dir, from, pos)
        invariant forall i :: from <= i < pos ==> !dir[i].Short?
      {
        if dir[pos].Long? {
          LongEntry(dir[pos].slot);
        }
        pos := pos + 1;
      }
    }

    /** Goes on to the next file of a directory.  If the entries before it, and what is left from before, end with the
        parts of a long name, all of them, in a row, in the order of the disk and with its checksum, it is found by that
        name, however other entries may have looked; if not, by its short name. */
    method NextName(dir: seq<Entry>, from: nat) returns (pos: nat, found: bool, long: bool, ghost n: nat)
      requires Valid() && from <= |dir|
      modifies this, filename
      ensures Valid() && from <= pos <= |dir| && longs == Seen(old(Rest()), dir, from, pos)
      ensures (forall i :: from <= i < pos ==> !dir[i].Short?) && (found <==> pos < |dir|)
      ensures found ==> dir[pos].Short? && Rest() == if HalfName(longs) then longs else []
      ensures found && long ==>
                IsLongName(longs, Checksum(dir[pos].name, 11), n, CString(filename[..])) && alias != -1
      ensures found && !long ==> CString(filename[..]) == ShortName(dir[pos].name, dir[pos].flags)
      ensures found ==> (long <==> HasLongName(longs, Checksum(dir[pos].name, 11)))
    {
      longs := Rest();
      pos := SkipParts(dir, from);
      found, long, n := pos < |dir|, false, 0;
      if found {
        long, n := FileEntry(dir[pos].name, dir[pos].flags);
      }
    }

    /** The name was not the one looked for: the file is tried by its short name, unless its last parts have been
        given up already.  They are given up now. */
    method TryShort(name: FileName, flags: Byte) returns (again: bool)
      requires Valid()
      modifies this, filename
      ensures Valid() && alias == -1 && longs == [] && (again <==> old(alias) != -1)
      ensures again ==> CString(filename[..]) == ShortName(name, flags)
      ensures !again ==> filename[..] == old(filename[..])
    {
      again := alias != -1;
      longs := [];
      if again {
        alias := -1;
        ShortTextIsName(filename[..], name, flags);
        WriteShort(name, flags);
      }
    }

    /** The next file, if there is one, and whether one of its names is the one `wanted`; the buffer then holds it. */
    method TryNext(dir: seq<Entry>, start: nat, wanted: seq<Unit> -> bool) returns (pos: nat, found: bool)
      requires Valid() && start <= |dir|
      modifies this, filename
      ensures Valid() && start <= pos <= |dir| && (forall i :: start <= i < pos ==> !dir[i].Short?)
      ensures if pos == |dir| then !found
              else
                && dir[pos].Short?
                && var seen := Seen(old(Rest()), dir, start, pos);
                if found then
                  && Named(seen, dir[pos].name, dir[pos].flags, CString(filename[..])) && wanted(CString(filename[..]))
                  && Rest() == if HalfName(seen) then seen else []
                else
                  (forall u :: Named(seen, dir[pos].name, dir[pos].flags, u) ==> !wanted(u)) && Rest() == []
    {
      var long;
      ghost var n;
      pos, found, long, n := NextName(dir, start);
      if !found || wanted(CString(filename[..])) {
        return;
      }
      ghost var seen, first := longs, CString(filename[..]);
      found := TryShort(dir[pos].name, dir[pos].flags);
      if found {
        found := wanted(CString(filename[..]));
      }
      NoOther(seen, dir[pos].name, dir[pos].flags, long, n, first);
    }

    /** The search of a directory for a name, where `wanted` stands for the comparison with it.  The file found is the
        first one that has a wanted name, short or long.  The parts of a long name stand between the file before it and
        its own entry; only for the first file those the last search has left over count, too, and there are some
        exactly if they end with some of a name, but not its first part. */
    method Lookup(dir: seq<Entry>, from: nat, wanted: seq<Unit> -> bool) returns (pos: nat, found: bool)
      requires Valid() && from <= |dir|
      modifies this, filename
      ensures Valid() && from <= pos <= |dir| && (!found ==> pos == |dir|)
      ensures found ==>
                && pos < |dir| && dir[pos].Short? && wanted(CString(filename[..]))
                && var seen := Seen(old(Rest()), dir, from, pos);
                && Named(seen, dir[pos].name, dir[pos].flags, CString(filename[..]))
                && Rest() == if HalfName(seen) then seen else []
      ensures forall i :: from <= i < pos ==> NotWanted(old(Rest()), dir, from, i, wanted)
    {
      var at := from;
      ghost var rest := Rest();
      while true
        invariant Valid() && from <= at <= |dir| && Rest() == Seen(rest, dir, from, at)
        invariant at == from || dir[at - 1].Short?
        invariant forall i :: from <= i < at ==> NotWanted(rest, dir, from, i, wanted)
        decreases |dir| - at
      {
        pos, found := TryNext(dir, at, wanted);
        SeenFrom(rest, dir, from, at, pos);
        if found || pos == |dir| {
          return;
        }
        at := pos + 1;
      }
    }
  }

  /** If a file has a long name, that is the only one, and otherwise it has its short name only. */
  lemma {:induction false} NoOther(longs: seq<Slot>, name: FileName, flags: Byte, long: bool, n: nat, first: seq<Unit>)
    requires if long then IsLongName(longs, Checksum(name, 11), n, first)
             else first == ShortName(name, flags) && !HasLongName(longs, Checksum(name, 11))
    ensures forall u :: Named(longs, name, flags, u) ==> u == first || u == ShortName(name, flags)
    ensures !long ==> first == ShortName(name, flags)
  {
    forall m: nat | PartsOfOne(longs, 1, m, Checksum(name, 11))
      ensures m == n
    {
      PartsUnique(longs, 1, m, n, Checksum(name, 11));
    }
  }

  /** The parts in front of entry `i`, behind the file before it; `rest` are left over from before entry `from`. */
  function Seen(rest: seq<Slot>, dir: seq<Entry>, from: nat, i: nat): seq<Slot>
    requires from <= i <= |dir|
    decreases i
  {
    if i == from then rest
    else
      match dir[i - 1]
      case Short(_, _) => []
      case Long(e) => Seen(rest, dir, from, i - 1) + [e]
      case Invalid => Seen(rest, dir, from, i - 1)
  }

  /** Entry `i` is no file that has a wanted name. */
  ghost predicate NotWanted(rest: seq<Slot>, dir: seq<Entry>, from: nat, i: nat, wanted: seq<Unit> -> bool)
    requires from <= i < |dir|
  {
    dir[i].Short? ==>
      forall u :: Named(Seen(rest, dir, from, i), dir[i].name, dir[i].flags, u) ==> !wanted(u)
  }

  lemma {:induction false} SeenFrom(rest: seq<Slot>, dir: seq<Entry>, from: nat, at: nat, pos: nat)
    requires from <= at <= pos <= |dir|
    ensures Seen(rest, dir, from, pos) == Seen(Seen(rest, dir, from, at), dir, at, pos)
    decreases pos
  {
    if at < pos {
      SeenFrom(rest, dir, from, at, pos - 1);
    }
  }

  /** Parts that are left over do count: a name of two parts whose second part stands before a file that is found by
      its short name, and whose first part starts the next directory searched. */
  method NameOfTwoDirectories(a: FileName, b: FileName, u: seq<Unit>) returns (found: bool, long: seq<Unit>)
    requires 0 !in u && Count(u) == 2
    ensures found && long == u
  {
    var c := Checksum(b, 11);
    var first, second := PartOf(u, c, 2), PartOf(u, c, 1);
    var names := new Names();
    var pos;
    var dir := [Long(first), Short(a, 0)];
    var wanted := x => x == ShortName(a, 0);
    SeenOne([], first, a);
    assert [] + [first] == [first] && [first] + [second] == [first, second];
    IsWanted([], dir, 0, 1, wanted, ShortName(a, 0));
    assert names.Rest() == [];
    pos, found := names.Lookup(dir, 0, wanted);
    assert pos == 1;
    HalfOfTwo(first, c);
    assert names.Rest() == [first];
    dir := [Long(second), Short(b, 0)];
    SeenOne([first], second, b);
    TwoParts(u, b);
    wanted := x => x == u;
    pos, found := names.Lookup(dir, 0, wanted);
    IsWanted([first], dir, 0, 1, wanted, u);
    long := CString(names.filename[..]);
  }

  lemma HalfOfTwo(e: Slot, checksum: Byte)
    requires e.id == 0x42 && e.checksum == checksum
    ensures HalfName([e])
  {
    assert IsLast(e) && Number(e) == 2;
    assert PartsOfOne([e], 2, 2, checksum);
  }

  lemma {:induction false} SeenOne(rest: seq<Slot>, e: Slot, name: FileName)
    ensures var dir := [Long(e), Short(name, 0)]; Seen(rest, dir, 0, 1) == rest + [e]
  {
    var dir := [Long(e), Short(name, 0)];
    assert Seen(rest, dir, 0, 0) == rest;
  }

  lemma {:induction false} IsWanted(rest: seq<Slot>, dir: seq<Entry>, from: nat, i: nat, wanted: seq<Unit> -> bool,
                                    u: seq<Unit>)
    requires from <= i < |dir| && dir[i].Short? && wanted(u)
    requires Named(Seen(rest, dir, from, i), dir[i].name, dir[i].flags, u)
    ensures !NotWanted(rest, dir, from, i, wanted)
  {
  }

  lemma {:induction false} TwoParts(u: seq<Unit>, b: FileName)
    requires 0 !in u && Count(u) == 2
    ensures Named([PartOf(u, Checksum(b, 11), 2), PartOf(u, Checksum(b, 11), 1)], b, 0, u)
  {
    var c := Checksum(b, 11);
    assert PartsFrom(u, c, 0) == [] && PartsFrom(u, c, 1) == [PartOf(u, c, 1)];
    assert PartsFrom(u, c, 2) == [PartOf(u, c, 2), PartOf(u, c, 1)];
    ProperIsNamed([], u, b, 0);
    assert [] + PartsFrom(u, c, 2) == PartsFrom(u, c, 2);
  }

  /** Base and extension with a dot between them, or the base alone. */
  function ShortName(name: FileName, flags: Byte): seq<Unit>
  {
    Base(name, flags) + if Extension(name, flags) == [] then [] else ['.' as int] + Extension(name, flags)
  }

  lemma {:induction false} FieldHasNoNul(name: seq<Byte>, i: nat, end: nat, y: bool)
    requires i <= end <= |name|
    ensures 0 !in Field(name, i, end, y)
    decreases end - i
  {
    if i < end && name[i] != 0 && name[i] != 0x20 {
      FieldHasNoNul(name, i + 1, end, y);
    }
  }

  lemma ShortTextIsName(f: seq<Unit>, name: FileName, flags: Byte)
    requires |f| == NAME_UNITS
    ensures CString(Put(f, 0, ShortText(name, flags))) == ShortName(name, flags)
  {
    var text, u := ShortText(name, flags), ShortName(name, flags);
    FieldHasNoNul(name, 0, 8, flags / 8 % 2 == 1);
    FieldHasNoNul(name, 8, 11, flags / 16 % 2 == 1);
    TextStarts(name, flags);
    PutStarts(f, text, u);
    CStringOf(Put(f, 0, text), u);
  }

  lemma TextStarts(name: FileName, flags: Byte)
    ensures var text, u := ShortText(name, flags), ShortName(name, flags);
            |u| < |text| && text[..|u|] == u && text[|u|] == 0
  {
    var base, ext := Base(name, flags), Extension(name, flags);
    if ext == [] {
      assert base + [] == base;
    } else {
      assert base + ['.' as int] + ext + [0] == (base + (['.' as int] + ext)) + [0];
    }
  }

  lemma PutStarts(f: seq<Unit>, text: seq<Unit>, u: seq<Unit>)
    requires |u| < |text| <= |f| && text[..|u|] == u && text[|u|] == 0
    ensures Put(f, 0, text)[..|u|] == u && Put(f, 0, text)[|u|] == 0
  {
    var g := Put(f, 0, text);
    assert g[0..|text|] == text;
    assert g[..|u|] == g[0..|text|][..|u|];
    assert g[|u|] == g[0..|text|][|u|];
  }

  lemma PutNothing(f: seq<Unit>, at: nat)
    requires at <= |f|
    ensures Put(f, at, []) == f
  {
  }

  lemma PutGrows(f: seq<Unit>, at: nat, units: seq<Unit>, x: Unit)
    requires at + |units| < |f|
    ensures Put(f, at, units)[at + |units| := x] == Put(f, at, units + [x])
  {
  }

  lemma FieldGrows(done: seq<Unit>, name: seq<Byte>, i: nat, end: nat, y: bool)
    requires i < end <= |name| && name[i] != 0 && name[i] != 0x20
    ensures done + Field(name, i, end, y) == (done + [Lower(name[i], y)]) + Field(name, i + 1, end, y)
  {
  }

  lemma {:induction false} PutSet(f: seq<Unit>, a: seq<Unit>, stop: seq<Unit>, x: Unit)
    requires |a| + 1 <= |f| && |stop| <= 1
    ensures Put(f, 0, a + stop)[|a| := x] == Put(f, 0, a + [x])
  {
  }

  lemma PutPut(f: seq<Unit>, a: seq<Unit>, b: seq<Unit>)
    requires |a| + |b| <= |f|
    ensures Put(Put(f, 0, a), |a|, b) == Put(f, 0, a + b)
  {
  }

  lemma PutFirst(f: seq<Unit>, a: seq<Unit>, x: Unit, y: Unit, z: Unit)
    requires |a| + 2 <= |f|
    ensures Put(f, 0, (a + [x]) + [y])[|a| := z] == Put(f, 0, a + [z, y])
  {
  }

  // ---------- UTF-8 ----------

  /** The bytes of one unit; a space is quoted. */
  function Encoded(u: Unit): (s: seq<Byte>)
    ensures 0 < |s| <= 3
  {
    if u == 0x20 then [0x5C, 0x20]
    else if u <= 0x7F then [u]
    else if u <= 0x7FF then [0xC0 + u / 0x40, 0x80 + u % 0x40]
    else [0xE0 + u / 0x1000, 0x80 + u / 0x40 % 0x40, 0x80 + u % 0x40]
  }

  function Utf8(us: seq<Unit>): (s: seq<Byte>)
    ensures |s| <= 3 * |us|
  {
    if us == [] then [] else Utf8(us[..|us| - 1]) + Encoded(us[|us| - 1])
  }

  /** The bytes are the UTF-8 form of a code point below 0x10000: UTF8-1, UTF8-2 and UTF8-3 of RFC 3629. */
  predicate IsUtf8(s: seq<Byte>, c: nat) {
    if |s| == 1 then s[0] <= 0x7F && c == s[0]
    else if |s| == 2 then
      0xC2 <= s[0] <= 0xDF && 0x80 <= s[1] <= 0xBF && c == s[0] as int * 0x40 + s[1] as int - 0x3080
    else
      && |s| == 3 && 0x80 <= s[2] <= 0xBF
      && ((s[0] == 0xE0 && 0xA0 <= s[1] <= 0xBF) || (0xE1 <= s[0] <= 0xEC && 0x80 <= s[1] <= 0xBF)
          || (s[0] == 0xED && 0x80 <= s[1] <= 0x9F) || (0xEE <= s[0] <= 0xEF && 0x80 <= s[1] <= 0xBF))
      && c == s[0] as int * 0x1000 + s[1] as int * 0x40 + s[2] as int - 0xE2080
  }

  /** But for the quoted space, the bytes of a unit are those RFC 3629 prescribes, unless it is a surrogate. */
  lemma {:induction false} EncodedIsUtf8(u: Unit)
    requires u != 0x20
    ensures IsUtf8(Encoded(u), u) <==> !(0xD800 <= u <= 0xDFFF)
  {
  }

  /** A high surrogate becomes three bytes that UTF-8 does not allow. */
  lemma SurrogateExample()
    ensures Encoded(0xD800) == [0xED, 0xA0, 0x80] && !IsUtf8(Encoded(0xD800), 0xD800)
  {
  }

  /** Writes the bytes of one unit. */
  method PutUnit(uni: Unit, utf8: array<Byte>, at: nat) returns (k: nat)
    requires at + 3 <= utf8.Length
    modifies utf8
    ensures k == at + |Encoded(uni)| && utf8[..k] == old(utf8[..at]) + Encoded(uni)
  {
    k := at;
    if uni <= 0x7F {
      if uni != 0x20 {
        utf8[k] := uni;
        k := k + 1;
      } else {
        utf8[k] := 0x5C;
        utf8[k + 1] := uni;
        k := k + 2;
      }
    } else if uni <= 0x7FF {
      utf8[k] := 0xC0 + uni / 0x40;
      utf8[k + 1] := 0x80 + uni % 0x40;
      k := k + 2;
    } else {
      utf8[k] := 0xE0 + uni / 0x1000;
      utf8[k + 1] := 0x80 + uni / 0x40 % 0x40;
      utf8[k + 2] := 0x80 + uni % 0x40;
      k := k + 3;
    }
  }

  method UnicodeToUtf8(filename: seq<Unit>, utf8: array<Byte>, n: nat) returns (k: nat)
    requires n <= |filename| && utf8.Length > 3 * n
    modifies utf8
    ensures k < utf8.Length && utf8[..k] == Utf8(CString(filename[..n])) && utf8[k] == 0
  {
    var j := 0;
    k := 0;
    while j < n && filename[j] != 0
      invariant 0 <= j <= n && 0 <= k <= 3 * j && 0 !in filename[..j]
      invariant utf8[..k] == Utf8(filename[..j])
    {
      assert filename[..j + 1][..j] == filename[..j];
      k := PutUnit(filename[j], utf8, k);
      j := j + 1;
    }
    CStringStops(filename[..n], j);
    assert filename[..n][..j] == filename[..j];
    utf8[k] := 0;
  }

  lemma {:induction false} CStringStops(f: seq<Unit>, j: nat)
    requires j <= |f| && 0 !in f[..j] && (j < |f| ==> f[j] == 0)
    ensures CString(f) == f[..j]
    decreases j
  {
    if j > 0 {
      assert f[0] == f[..j][0] && f[1..][..j - 1] == f[..j][1..];
      CStringStops(f[1..], j - 1);
      assert f[..j] == [f[0]] + f[1..][..j - 1];
    }
  }

  // ---------- And back ----------

  /** The units the bytes stand for. */
  function Decoded(s: seq<Byte>): seq<Unit> {
    if s == [] then []
    else
      var b0: nat, b1: nat, b2: nat := s[0], if |s| > 1 then s[1] else 0, if |s| > 2 then s[2] else 0;
      if b0 == 0x5C && b1 == 0x20 then [0x20] + Decoded(s[2..])
      else if b0 < 0x80 || |s| < 2 then [b0] + Decoded(s[1..])
      else if b0 < 0xE0 || |s| < 3 then [b0 % 0x20 * 0x40 + b1 % 0x40] + Decoded(s[2..])
      else [b0 % 0x10 * 0x1000 + b1 % 0x40 * 0x40 + b2 % 0x40] + Decoded(s[3..])
  }

  lemma TwoBytes(u: nat)
    requires u <= 0x7FF
    ensures (0xC0 + u / 0x40) % 0x20 * 0x40 + (0x80 + u % 0x40) % 0x40 == u && 0xC0 + u / 0x40 < 0xE0
  {
  }

  lemma ThreeBytes(u: nat)
    requires u < 0x1_0000
    ensures (0xE0 + u / 0x1000) % 0x10 * 0x1000 + (0x80 + u / 0x40 % 0x40) % 0x40 * 0x40 + (0x80 + u % 0x40) % 0x40 == u
  {
    assert (0xE0 + u / 0x1000) % 0x10 == u / 0x1000 && (0x80 + u / 0x40 % 0x40) % 0x40 == u / 0x40 % 0x40;
    assert u / 0x1000 == u / 0x40 / 0x40;
  }

  lemma {:induction false} DecodedShort(u: Unit, rest: seq<Byte>)
    requires u <= 0x7F && (rest == [] || rest[0] != 0x20)
    ensures Decoded(Encoded(u) + rest) == [u] + Decoded(rest)
  {
    var s := Encoded(u) + rest;
    if u == 0x20 {
      assert s[0] == 0x5C && s[1] == 0x20 && s[2..] == rest;
    } else {
      assert s[0] == u && s[1..] == rest;
      assert rest != [] ==> s[1] == rest[0];
    }
  }

  lemma {:induction false} DecodedLong(u: Unit, rest: seq<Byte>)
    requires u > 0x7F
    ensures Decoded(Encoded(u) + rest) == [u] + Decoded(rest)
  {
    var s := Encoded(u) + rest;
    if u <= 0x7FF {
      TwoBytes(u);
      assert s[0] == Encoded(u)[0] && s[1] == Encoded(u)[1] && s[2..] == rest;
    } else {
      ThreeBytes(u);
      assert s[0] == Encoded(u)[0] && s[1] == Encoded(u)[1] && s[2] == Encoded(u)[2] && s[3..] == rest;
    }
  }

  lemma {:induction false} Utf8Head(us: seq<Unit>)
    requires us != []
    ensures Utf8(us) == Encoded(us[0]) + Utf8(us[1..])
    decreases |us|
  {
    var init := us[..|us| - 1];
    if init == [] {
      assert us[1..] == [];
      assert [] + Encoded(us[0]) == Encoded(us[0]) + [];
    } else {
      Utf8Head(init);
      assert init[1..] == us[1..][..|us| - 2];
      assert (Encoded(us[0]) + Utf8(init[1..])) + Encoded(us[|us| - 1]) ==
             Encoded(us[0]) + (Utf8(init[1..]) + Encoded(us[|us| - 1]));
    }
  }

  /** The output decodes to the name, so no two names look alike: the quoting of spaces is not ambiguous, not even
      next to a backslash of the name itself. */
  lemma {:induction false} Utf8RoundTrip(us: seq<Unit>)
    ensures Decoded(Utf8(us)) == us
    ensures Utf8(us) == [] || Utf8(us)[0] != 0x20
    decreases |us|
  {
    if us != [] {
      Utf8Head(us);
      Utf8RoundTrip(us[1..]);
      if us[0] <= 0x7F {
        DecodedShort(us[0], Utf8(us[1..]));
      } else {
        DecodedLong(us[0], Utf8(us[1..]));
      }
    }
  }
}
