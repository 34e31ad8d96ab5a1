/**
 Reading a disk through the BIOS with a one-track buffer (loader/preldr/dskaccess.c).

 The BIOS is a device that may fail at any call and may then leave anything in the buffer.
 */
module TrackBuffer {
  import opened Common
  import Arith

  const BUFFERLEN := 0xE00

  datatype Error = NoError | NoDisk | Geometry | ReadError | OutsidePart

  /** What a BIOS call reports. */
  datatype BiosResult = BiosOk | BiosGeometry | BiosFailure

  /** A disk of `total` sectors of `size` bytes, `sectors` of them to a track. */
  datatype Drive = Drive(sectors: nat, total: nat, size: nat, data: seq<Byte>)
  {
    ghost predicate Valid() {
      && 0 < size <= BUFFERLEN && sectors > 0 && |data| == total * size
    }

    /** The number of sectors loaded at once: a track, or what fits the buffer. */
    function VTrack(): (n: nat)
      requires size > 0
    {
      if sectors * size > BUFFERLEN then BUFFERLEN / size else sectors
    }

    /** `n` bytes at offset `off` of sector `s` lie on the disk. */
    predicate InRange(s: nat, off: nat, n: nat) { s * size + off + n <= |data| }

    function Bytes(s: nat, off: nat, n: nat): (b: seq<Byte>)
      requires InRange(s, off, n)
      ensures |b| == n
    {
      data[s * size + off..s * size + off + n]
    }

    /** The sector pieces that `n` bytes at offset `off` of sector `s` consist of. */
    function Pieces(s: nat, off: nat, n: nat): seq<Event>
      requires off < size
      decreases n
    {
      if n == 0 then []
      else if n <= size - off then [Event(s, off, n)]
      else [Event(s, off, size - off)] + Pieces(s + 1, 0, n - (size - off))
    }

    /** The first sector of the virtual track of sector `s`. */
    function TrackOf(s: nat): nat
      requires size > 0 && VTrack() > 0
    {
      TrackPosition(s, VTrack());
      s - s % VTrack()
    }

    /** The bytes of a virtual track that lie behind offset `off` of its sector `s`. */
    function Room(s: nat, off: nat): int
      requires size > 0 && VTrack() > 0
    {
      (VTrack() - s % VTrack()) * size - off
    }

    /** The disk ends with a virtual track. */
    predicate WholeTracks()
      requires size > 0 && VTrack() > 0
    {
      total % VTrack() == 0
    }

    /** A range that starts inside the last virtual track and goes on behind it, where the disk ends. */
    predicate LeavesDisk(s: nat, off: nat, n: nat)
      requires size > 0 && VTrack() > 0
    {
      s % VTrack() > 0 && TrackOf(s) + VTrack() == total && n > Room(s, off)
    }
  }

  /** The events name bytes of single sectors. */
  predicate OnDisk(d: Drive, evs: seq<Event>) {
    forall i :: 0 <= i < |evs| ==>
      && evs[i].offset + evs[i].length <= d.size
      && evs[i].sector * d.size + evs[i].offset + evs[i].length <= |d.data|
  }

  /** The bytes they name, put together. */
  function Sources(d: Drive, evs: seq<Event>): seq<Byte>
    requires OnDisk(d, evs)
  {
    if evs == [] then []
    else
      var at := evs[0].sector * d.size + evs[0].offset;
      d.data[at..at + evs[0].length] + Sources(d, evs[1..])
  }

  lemma {:induction false} SourcesOf(d: Drive, e: Event, rest: seq<Event>)
    requires OnDisk(d, rest)
    requires e.offset + e.length <= d.size && e.sector * d.size + e.offset + e.length <= |d.data|
    ensures var at := e.sector * d.size + e.offset;
      OnDisk(d, [e] + rest) && 0 <= at && Sources(d, [e] + rest) == d.data[at..at + e.length] + Sources(d, rest)
  {
    Arith.MulMonotone(0, e.sector, d.size);
    assert ([e] + rest)[1..] == rest;
  }

  /** The pieces of a range name its bytes. */
  lemma {:induction false} PiecesAreSources(d: Drive, s: nat, off: nat, n: nat)
    requires off < d.size && d.InRange(s, off, n)
    ensures OnDisk(d, d.Pieces(s, off, n)) && Sources(d, d.Pieces(s, off, n)) == d.Bytes(s, off, n)
    decreases n
  {
    hide OnDisk, Sources;
    var k := d.size - off;
    if n > k {
      Arith.MulSucc(s, d.size);
      PiecesAreSources(d, s + 1, 0, n - k);
      SourcesOf(d, Event(s, off, k), d.Pieces(s + 1, 0, n - k));
      Adjacent(d.data, s * d.size + off, k, (s + 1) * d.size, n - k);
    } else {
      NoSources(d);
      SourcesOf(d, Event(s, off, n), []);
      assert [Event(s, off, n)] + [] == [Event(s, off, n)];
      assert d.Bytes(s, off, n) + [] == d.Bytes(s, off, n);
    }
  }

  lemma {:induction false} NoSources(d: Drive)
    ensures OnDisk(d, []) && Sources(d, []) == []
  {
  }

  lemma VTrackFits(d: Drive)
    requires d.Valid()
    ensures d.VTrack() > 0 && d.VTrack() * d.size <= BUFFERLEN
  {
    var q := BUFFERLEN / d.size;
    assert BUFFERLEN == q * d.size + BUFFERLEN % d.size;
    Arith.MulMonotone(1, d.sectors, d.size);
  }

  lemma PiecesStep(d: Drive, s: nat, off: nat, n: nat)
    requires off < d.size
    ensures d.Pieces(s, off, d.size - off) == [Event(s, off, d.size - off)]
    ensures d.Pieces(s, off, d.size - off + n) == [Event(s, off, d.size - off)] + d.Pieces(s + 1, 0, n)
  {
  }

  lemma {:induction false} PiecesSplit(d: Drive, s: nat, off: nat, k: nat, n: nat)
    requires d.Valid() && off < d.size && k > 0
    ensures k * d.size - off > 0
    ensures d.Pieces(s, off, k * d.size - off + n) == d.Pieces(s, off, k * d.size - off) + d.Pieces(s + k, 0, n)
    decreases k
  {
    hide Drive.Pieces;
    Arith.MulSucc(k - 1, d.size);
    Arith.MulMonotone(0, k - 1, d.size);
    PiecesStep(d, s, off, n);
    if k > 1 {
      PiecesSplit(d, s + 1, 0, k - 1, n);
      PiecesStep(d, s, off, (k - 1) * d.size);
      PiecesStep(d, s, off, (k - 1) * d.size + n);
      Assoc([Event(s, off, d.size - off)], d.Pieces(s + 1, 0, (k - 1) * d.size), d.Pieces(s + k, 0, n));
    }
  }

  /** Where a sector lies in its virtual track. */
  lemma TrackPosition(s: nat, v: nat)
    requires v > 0
    ensures s % v <= s && (s - s % v) % v == 0 && (s - s % v + v) % v == 0
  {
    var q := s / v;
    assert s == q * v + s % v;
    Arith.MulMonotone(0, q, v);
    Arith.DivMod(s - s % v, v, q, 0);
    Arith.MulSucc(q, v);
    Arith.DivMod(s - s % v + v, v, q + 1, 0);
  }

  lemma TrackOnDisk(d: Drive, s: nat)
    requires d.Valid() && d.VTrack() > 0 && d.WholeTracks() && s < d.total
    ensures d.TrackOf(s) + d.VTrack() <= d.total
  {
    var v := d.VTrack();
    var q, t := s / v, d.total / v;
    assert s == q * v + s % v && d.total == t * v;
    if q >= t {
      Arith.MulMonotone(t, q, v);
    }
    Arith.MulMonotone(q + 1, t, v);
    Arith.MulSucc(q, v);
  }

  lemma WholeOnDisk(d: Drive, s: nat)
    requires d.Valid() && d.VTrack() > 0 && d.TrackOf(s) + d.VTrack() <= d.total
    ensures d.InRange(d.TrackOf(s), 0, d.VTrack() * d.size)
  {
    Arith.MulAdd(d.TrackOf(s), d.VTrack(), d.size);
    Arith.MulMonotone(d.TrackOf(s) + d.VTrack(), d.total, d.size);
  }

  lemma RestOfTrack(d: Drive, s: nat, num: nat)
    requires d.Valid() && d.VTrack() > 0 && num == d.VTrack() - s % d.VTrack() > 0
    ensures d.size <= num * d.size <= d.VTrack() * d.size && d.TrackOf(s) == s - s % d.VTrack()
    ensures d.TrackOf(s) + d.VTrack() <= d.total ==> d.InRange(s, 0, num * d.size)
  {
    TrackPosition(s, d.VTrack());
    Arith.MulMonotone(1, num, d.size);
    Arith.MulAdd(s, num, d.size);
    Arith.MulMonotone(num, d.VTrack(), d.size);
    if s + num <= d.total {
      Arith.MulMonotone(s + num, d.total, d.size);
    }
  }

  /** Rounding up to whole sectors. */
  lemma RoundUp(n: nat, size: nat, k: nat)
    requires size > 0
    ensures (n + size - 1) / size > k <==> n > k * size
    ensures n <= (n + size - 1) / size * size
  {
    var q := (n + size - 1) / size;
    assert n + size - 1 == q * size + (n + size - 1) % size;
    if q > k {
      Arith.MulMonotone(k + 1, q, size);
      Arith.MulSucc(k, size);
    } else {
      Arith.MulMonotone(q, k, size);
    }
  }

  /** A range inside a longer range that has been loaded. */
  lemma BytesInside(d: Drive, start: nat, count: nat, s: nat, off: nat, n: nat)
    requires d.Valid() && d.InRange(start, 0, count) && start <= s && (s - start) * d.size + off + n <= count
    ensures (s - start) * d.size >= 0 && d.InRange(s, off, n)
    ensures d.Bytes(s, off, n) == d.Bytes(start, 0, count)[(s - start) * d.size + off..(s - start) * d.size + off + n]
  {
    Arith.MulMonotone(0, s - start, d.size);
    Arith.MulAdd(start, s - start, d.size);
    Subrange(d.data, start * d.size, count, (s - start) * d.size + off, n);
  }

  lemma Subrange(data: seq<Byte>, at: nat, count: nat, from: nat, n: nat)
    requires at + count <= |data| && from + n <= count
    ensures data[at + from..at + from + n] == data[at..at + count][from..from + n]
  {
    var a, b := data[at + from..at + from + n], data[at..at + count][from..from + n];
    forall i | 0 <= i < n
      ensures a[i] == b[i]
    {
      assert b[i] == data[at..at + count][from + i] == data[at + (from + i)];
    }
  }

  lemma Adjacent(data: seq<Byte>, at: nat, n: nat, next: nat, m: nat)
    requires at + n == next && next + m <= |data|
    ensures data[at..at + (n + m)] == data[at..at + n] + data[next..next + m]
  {
  }

  lemma BytesJoin(d: Drive, s: nat, off: nat, k: nat, w: nat, n: nat)
    requires off + w == k * d.size && d.InRange(s, off, w) && d.InRange(s + k, 0, n)
    ensures d.InRange(s, off, w + n)
    ensures d.Bytes(s, off, w + n) == d.Bytes(s, off, w) + d.Bytes(s + k, 0, n)
  {
    Arith.MulAdd(s, k, d.size);
    var a, b := s * d.size + off, (s + k) * d.size;
    assert a + w == b;
    Adjacent(d.data, a, w, b, n);
    assert d.Bytes(s, off, w) == d.data[a..a + w] && d.Bytes(s + k, 0, n) == d.data[b..b + n];
  }

  /** The bytes of the range, and the pieces they come from, which name just these bytes. */
  ghost predicate Delivered(d: Drive, s: nat, off: nat, n: nat, data: seq<Byte>, events: seq<Event>) {
    && off < d.size && d.InRange(s, off, n) && data == d.Bytes(s, off, n) && events == d.Pieces(s, off, n)
    && OnDisk(d, events) && data == Sources(d, events)
  }

  lemma DeliveredBytes(d: Drive, s: nat, off: nat, n: nat, data: seq<Byte>, events: seq<Event>)
    requires Delivered(d, s, off, n, data, events)
    ensures d.InRange(s, off, n) && data == d.Bytes(s, off, n)
  {
  }

  class Reader {
    const drives: seq<Option<Drive>>
    const buffer: array<Byte>
    const reliable: bool    // whether the BIOS reads whatever lies on the disk
    var drive: int          // buf_drive, -1 before the first read
    var track: int          // buf_track, -1 when the buffer holds no track
    var errnum: Error

    /** The drive whose geometry is in buf_geom. */
    ghost predicate Selected(d: Drive)
      reads this
    {
      0 <= drive < |drives| && drives[drive] == Some(d) && d.Valid()
    }

    ghost predicate Valid()
      reads this
    {
      && buffer.Length == BUFFERLEN
      && (forall i :: 0 <= i < |drives| && drives[i].Some? ==> drives[i].value.Valid())
      && (drive == -1 || (0 <= drive < |drives| && drives[drive].Some?))
      && (track == -1 || (track >= 0 && drive >= 0))
    }

    /** The tag does not lie: the whole virtual track it names is in the buffer. */
    ghost predicate TagOk()
      requires Valid()
      reads this, buffer
    {
      track >= 0 ==>
        var d := drives[drive].value;
        var n := d.VTrack() * d.size;
        n <= BUFFERLEN && d.InRange(track, 0, n) && buffer[..n] == d.Bytes(track, 0, n)
    }

    constructor (drives: seq<Option<Drive>>, reliable: bool)
      requires forall i :: 0 <= i < |drives| && drives[i].Some? ==> drives[i].value.Valid()
      ensures Valid() && TagOk() && this.drives == drives && this.reliable == reliable
      ensures errnum == NoError && track == -1 && fresh(buffer)
    {
      this.drives, this.reliable := drives, reliable;
      buffer := new Byte[BUFFERLEN];
      drive, track, errnum := -1, -1, NoError;
    }

    /** The BIOS call: it delivers the sectors, or it fails and leaves anything in the buffer.  A reliable BIOS does
        not fail on the disk. */
    method Bios(d: Drive, start: nat, count: nat) returns (r: BiosResult)
      requires d.Valid() && buffer.Length == BUFFERLEN && count * d.size <= BUFFERLEN
      modifies buffer
      ensures r == BiosOk ==>
                d.InRange(start, 0, count * d.size) && buffer[..count * d.size] == d.Bytes(start, 0, count * d.size)
      ensures r == BiosOk ==> buffer[count * d.size..] == old(buffer[count * d.size..])
      ensures reliable && d.InRange(start, 0, count * d.size) ==> r == BiosOk
    {
      var works := *;
      if (works || reliable) && start * d.size + count * d.size <= |d.data| {
        forall i | 0 <= i < count * d.size {
          buffer[i] := d.data[start * d.size + i];
        }
        return BiosOk;
      }
      for i := 0 to BUFFERLEN {
        buffer[i] := *;
      }
      r := *;
      if r == BiosOk {
        r := BiosFailure;
      }
    }

    /** What a load must achieve for `left` bytes at offset `off` of sector `s`: the bytes up to the end of the
        virtual track are in the buffer at `at`, and the tag is right, or it names a track of which only the
        rest from sector `s` was loaded because the read goes on behind it. */
    ghost predicate Loaded(d: Drive, s: nat, off: nat, left: nat, at: nat)
      requires Valid() && d.Valid() && off < d.size
      reads this, buffer
    {
      && d.VTrack() > 0
      && var room := d.Room(s, off);
      var n := if left < room then left else room;
      && room > 0 && at + n <= BUFFERLEN && d.InRange(s, off, n) && buffer[at..at + n] == d.Bytes(s, off, n)
      && (TagOk() || (left > room && s % d.VTrack() > 0 && track == d.TrackOf(s)))
    }

    /** The tag names the track of sector `s`, but the buffer, which held `was`, starts with sector `s`. */
    ghost predicate RestOnly(d: Drive, s: nat, was: seq<Byte>)
      requires Valid() && d.Valid()
      reads this, buffer
    {
      && d.VTrack() > 0 && track == d.TrackOf(s)
      && 0 <= d.Room(s, 0) <= |was| && d.InRange(s, 0, d.Room(s, 0))
      && buffer[..] == d.Bytes(s, 0, d.Room(s, 0)) + was[d.Room(s, 0)..]
    }

    /** The bytes are in the buffer already. */
    lemma {:induction false} CachedBytes(d: Drive, s: nat, off: nat, left: nat)
      requires Valid() && Selected(d) && TagOk() && off < d.size
      requires d.VTrack() > 0 && track == d.TrackOf(s)
      ensures (s % d.VTrack()) * d.size >= 0 && Loaded(d, s, off, left, (s % d.VTrack()) * d.size + off)
    {
      var v := d.VTrack();
      var soff := s % v;
      var room := (v - soff) * d.size - off;
      Arith.MulMonotone(1, v - soff, d.size);
      assert v * d.size == soff * d.size + (v - soff) * d.size;
      var n := if left < room then left else room;
      BytesInside(d, track, v * d.size, s, off, n);
      var at := soff * d.size + off;
      assert buffer[..v * d.size][at..at + n] == buffer[at..at + n];
    }

    /** Loads the rest of the virtual track from sector `s` on, when more tracks will be read. */
    method LoadRest(d: Drive, s: nat, off: nat, left: nat, num: nat) returns (r: BiosResult)
      requires Valid() && Selected(d) && off < d.size && d.VTrack() > 0 && d.VTrack() * d.size <= BUFFERLEN
      requires num == d.VTrack() - s % d.VTrack() && num > 0 && off + left > num * d.size
      modifies this`track, buffer
      ensures Valid() && (r != BiosOk ==> track == old(track)) && (r == BiosOk ==> Loaded(d, s, off, left, off))
      ensures r == BiosOk ==> RestOnly(d, s, old(buffer[..]))
      ensures reliable && d.TrackOf(s) + d.VTrack() <= d.total ==> r == BiosOk
    {
      RestOfTrack(d, s, num);
      r := Bios(d, s, num);
      if r == BiosOk {
        hide TagOk;
        track := s - s % d.VTrack();
        BytesInside(d, s, num * d.size, s, off, num * d.size - off);
        assert buffer[..num * d.size][off..num * d.size] == buffer[off..num * d.size];
        assert old(buffer[..])[num * d.size..] == old(buffer[num * d.size..]);
        assert buffer[..] == buffer[..num * d.size] + buffer[num * d.size..];
      }
    }

    method LoadWhole(d: Drive, s: nat, off: nat, left: nat) returns (r: BiosResult)
      requires Valid() && Selected(d) && off < d.size && d.VTrack() > 0 && d.VTrack() * d.size <= BUFFERLEN
      modifies this`track, buffer
      ensures Valid() && (r != BiosOk ==> track == old(track))
      ensures r == BiosOk ==>
                (s % d.VTrack()) * d.size >= 0 && Loaded(d, s, off, left, (s % d.VTrack()) * d.size + off)
      ensures reliable && d.TrackOf(s) + d.VTrack() <= d.total ==> r == BiosOk
    {
      TrackPosition(s, d.VTrack());
      if d.TrackOf(s) + d.VTrack() <= d.total {
        WholeOnDisk(d, s);
      }
      r := Bios(d, s - s % d.VTrack(), d.VTrack());
      if r == BiosOk {
        track := s - s % d.VTrack();
        CachedBytes(d, s, off, left);
      }
    }

    /** The load proper: the whole virtual track, or only its rest if more tracks will be read. */
    method LoadTrack(d: Drive, s: nat, off: nat, left: nat) returns (r: BiosResult, at: nat)
      requires Valid() && Selected(d) && off < d.size && left > 0 && d.VTrack() > 0 && d.VTrack() * d.size <= BUFFERLEN
      modifies this`track, buffer
      ensures Valid() && (r != BiosOk ==> track == -1) && (r == BiosOk ==> Loaded(d, s, off, left, at))
      ensures left > d.Room(s, off) && r == BiosOk ==> RestOnly(d, s, old(buffer[..]))
      ensures reliable && d.TrackOf(s) + d.VTrack() <= d.total ==> r == BiosOk
    {
      var soff := s % d.VTrack();
      TrackPosition(s, d.VTrack());
      var num := d.VTrack() - soff;
      var slen := (off + left + d.size - 1) / d.size;
      RoundUp(off + left, d.size, num);
      Arith.MulMonotone(0, soff, d.size);
      at := soff * d.size + off;
      if slen > num {
        r := LoadRest(d, s, off, left, num);
        at := off;
      } else {
        r := LoadWhole(d, s, off, left);
      }
      if r != BiosOk {
        track := -1;
      }
    }

    /** When the BIOS cannot load the track, only the sectors that are needed are read. */
    method LoadNeeded(d: Drive, s: nat, off: nat, left: nat) returns (ok: bool)
      requires Valid() && Selected(d) && track == -1 && off < d.size && left > 0
      requires d.VTrack() > 0 && d.VTrack() * d.size <= BUFFERLEN
      modifies buffer
      ensures ok ==> Loaded(d, s, off, left, off)
    {
      var num := d.VTrack() - s % d.VTrack();
      TrackPosition(s, d.VTrack());
      var slen := (off + left + d.size - 1) / d.size;
      RoundUp(off + left, d.size, num);
      if slen > num {
        return false;
      }
      Arith.MulMonotone(1, num, d.size);
      Arith.MulMonotone(num, d.VTrack(), d.size);
      Arith.MulMonotone(slen, num, d.size);
      var r := Bios(d, s, slen);
      ok := r == BiosOk;
      if ok {
        BytesInside(d, s, slen * d.size, s, off, left);
        assert buffer[..slen * d.size][off..off + left] == buffer[off..off + left];
      }
    }

    /** Makes the bytes from offset `off` of sector `s` on available in the buffer, at position `at`. */
    method Load(d: Drive, s: nat, off: nat, left: nat) returns (at: nat)
      requires Valid() && Selected(d) && errnum == NoError && off < d.size && left > 0 && d.VTrack() > 0
      modifies this`track, this`errnum, buffer
      ensures Valid() && errnum in {NoError, Geometry, ReadError} && (errnum != NoError ==> track == -1)
      ensures old(track == d.TrackOf(s)) ==>
                && errnum == NoError && track == old(track) && buffer[..] == old(buffer[..])
                && at == s % d.VTrack() * d.size + off
      ensures old(TagOk() || track != d.TrackOf(s)) && errnum == NoError ==> Loaded(d, s, off, left, at)
      ensures reliable && d.TrackOf(s) + d.VTrack() <= d.total ==> errnum == NoError
      ensures reliable && old(track != d.TrackOf(s)) && left > d.Room(s, off) && d.TrackOf(s) + d.VTrack() <= d.total
              ==>
                errnum == NoError && RestOnly(d, s, old(buffer[..]))
    {
      VTrackFits(d);
      var soff := s % d.VTrack();
      TrackPosition(s, d.VTrack());
      Arith.MulMonotone(0, soff, d.size);
      at := 0;
      if s - soff != track {
        var r;
        r, at := LoadTrack(d, s, off, left);
        if r != BiosOk {
          if r == BiosGeometry {
            errnum := Geometry;
          } else {
            var ok := LoadNeeded(d, s, off, left);
            if !ok {
              errnum := ReadError;
            }
            at := off;
          }
        }
      } else {
        if TagOk() {
          CachedBytes(d, s, off, left);
        }
        at := soff * d.size + off;
      }
    }

    /** The instrumentation: reports the sectors `n` bytes at offset `off` of sector `s` come from. */
    method Report(d: Drive, s: nat, off: nat, n: nat) returns (events: seq<Event>)
      requires d.Valid() && off < d.size && n > 0
      ensures events == d.Pieces(s, off, n)
    {
      var num := s;
      var length := if d.size - off > n then n else d.size - off;
      events := [Event(num, off, length)];
      num := num + 1;
      length := n - length;
      if length > 0 {
        assert d.Pieces(s, off, n) == events + d.Pieces(num, 0, length);
        while length > d.size
          invariant 0 < length && d.Pieces(s, off, n) == events + d.Pieces(num, 0, length)
        {
          ghost var piece, rest := [Event(num, 0, d.size)], d.Pieces(num + 1, 0, length - d.size);
          assert events + (piece + rest) == (events + piece) + rest;
          events := events + [Event(num, 0, d.size)];
          num := num + 1;
          length := length - d.size;
        }
        events := events + [Event(num, 0, length)];
      }
    }

    /** Fetches the geometry of a drive that is not the one last read. */
    method Select(drv: nat) returns (ok: bool, d: Drive)
      requires Valid()
      modifies this`drive, this`track, this`errnum
      ensures Valid() && (old(TagOk()) ==> TagOk())
      ensures ok ==> Selected(d) && errnum == old(errnum) && drv < |drives| && drives[drv] == Some(d)
      ensures ok ==> drive == drv && track == if old(drive) == drv then old(track) else -1
      ensures !ok ==> errnum == NoDisk
      ensures ok <==> drv < |drives| && drives[drv].Some?
    {
      d := Drive(1, 0, 1, []);
      if drive != drv {
        if drv >= |drives| || drives[drv].None? {
          errnum := NoDisk;
          return false, d;
        }
        drive := drv;
        track := -1;
      }
      d := drives[drive].value;
      ok := true;
    }

    /** The bytes read and reported before sector `s`, when reading started at offset `off` of sector `first`.  Only
        behind the first of several tracks can the tag be wrong. */
    ghost predicate Sofar(d: Drive, first: nat, off: nat, s: nat, data: seq<Byte>, events: seq<Event>)
      requires Valid() && d.Valid() && off < d.size && d.VTrack() > 0
      reads this, buffer
    {
      && Covered(d, first, off, s, data, events)
      && (TagOk() || (s > first && first % d.VTrack() > 0 && track == d.TrackOf(first) == s - d.VTrack()))
    }

    lemma {:induction false} SofarGrows(d: Drive, first: nat, off0: nat, s: nat, off: nat, left: nat,
                                       data: seq<Byte>, events: seq<Event>, piece: seq<Byte>, more: seq<Event>)
      requires Valid() && d.Valid() && d.VTrack() > 0 && off0 < d.size && s >= first && left > 0
      requires Covered(d, first, off0, s, data, events) && off == if s == first then off0 else 0
      requires |piece| == (if left < d.Room(s, off) then left else d.Room(s, off)) > 0
      requires d.InRange(s, off, |piece|) && piece == d.Bytes(s, off, |piece|) && more == d.Pieces(s, off, |piece|)
      requires TagOk() || (left > d.Room(s, off) && s % d.VTrack() > 0 && track == d.TrackOf(s))
      ensures if |piece| < left then Sofar(d, first, off0, d.TrackOf(s) + d.VTrack(), data + piece, events + more)
              else Done(d, first, off0, left + |data|, data + piece, events + more)
    {
      CoveredGrows(d, first, off0, s, off, left, data, events, piece, more);
    }

    /** One round of the loop: what the virtual track of sector `s` has of the `left` bytes still wanted.  If the
        tag names that track, it is what the buffer holds in its place. */
    method ReadTrack(d: Drive, s: nat, off: nat, left: nat) returns (data: seq<Byte>, events: seq<Event>)
      requires Valid() && Selected(d) && errnum == NoError && off < d.size && left > 0 && d.VTrack() > 0
      modifies this`track, this`errnum, buffer
      ensures Valid() && errnum in {NoError, Geometry, ReadError} && (errnum != NoError ==> track == -1)
      ensures errnum == NoError ==>
                && |data| == (if left < d.Room(s, off) then left else d.Room(s, off)) > 0
                && events == d.Pieces(s, off, |data|)
      ensures errnum == NoError && old(TagOk() || track != d.TrackOf(s)) ==>
                && d.InRange(s, off, |data|) && data == d.Bytes(s, off, |data|)
                && (TagOk() || (left > d.Room(s, off) && s % d.VTrack() > 0 && track == d.TrackOf(s)))
      ensures old(track == d.TrackOf(s)) ==>
                && errnum == NoError && track == old(track) && buffer[..] == old(buffer[..])
                && var at := s % d.VTrack() * d.size + off;
                0 <= at && at + |data| <= BUFFERLEN && data == old(buffer[..])[at..at + |data|]
      ensures reliable && d.TrackOf(s) + d.VTrack() <= d.total ==> errnum == NoError
      ensures reliable && old(track != d.TrackOf(s)) && left > d.Room(s, off) && d.TrackOf(s) + d.VTrack() <= d.total
              ==>
                errnum == NoError && RestOnly(d, s, old(buffer[..]))
    {
      var at := Load(d, s, off, left);
      if errnum != NoError {
        return [], [];
      }
      VTrackFits(d);
      TrackPosition(s, d.VTrack());
      Arith.MulMonotone(1, d.VTrack() - s % d.VTrack(), d.size);
      Arith.MulAdd(d.VTrack(), s % d.VTrack(), d.size);
      var n := (d.VTrack() - s % d.VTrack()) * d.size - off;
      if n > left {
        n := left;
      }
      events := Report(d, s, off, n);
      data := buffer[at..at + n];
    }

    /** The whole range has been read and reported, and the tag is right. */
    ghost predicate Done(d: Drive, first: nat, off: nat, n: nat, data: seq<Byte>, events: seq<Event>)
      requires Valid() && off < d.size
      reads this, buffer
    {
      TagOk() && d.InRange(first, off, n) && data == d.Bytes(first, off, n) && events == d.Pieces(first, off, n)
    }

    /** The buffer's bytes in the place of `n` bytes at offset `off` of sector `s`. */
    ghost predicate InBuffer(d: Drive, s: nat, off: nat, n: nat, data: seq<Byte>)
      requires Valid() && d.size > 0 && d.VTrack() > 0
      reads this, buffer
    {
      var at := s % d.VTrack() * d.size + off;
      0 <= at && at + n <= BUFFERLEN && data == buffer[..][at..at + n]
    }

    /** One round of the loop of rawread. */
    method Round(d: Drive, first: nat, off0: nat, s: nat, off: nat, left: nat, data: seq<Byte>, events: seq<Event>)
      returns (data': seq<Byte>, events': seq<Event>, s': nat, left': nat)
      requires Valid() && Selected(d) && errnum == NoError && off0 < d.size && d.VTrack() > 0
      requires s >= first && left > 0 && off == if s == first then off0 else 0
      modifies this`track, this`errnum, buffer
      ensures Valid() && errnum in {NoError, Geometry, ReadError} && (errnum != NoError ==> track == -1)
      ensures errnum == NoError ==> s' > s && left' < left && left' + |data'| == left + |data|
      ensures errnum == NoError && old(Sofar(d, first, off0, s, data, events)) ==>
                if left' > 0 then Sofar(d, first, off0, s', data', events')
                else Done(d, first, off0, left + |data|, data', events')
      ensures old(track == d.TrackOf(s)) && data == [] && left <= d.Room(s, off) ==>
                && errnum == NoError && left' == 0
                && track == old(track) && buffer[..] == old(buffer[..]) && InBuffer(d, s, off, left, data')
      ensures reliable && d.TrackOf(s) + d.VTrack() <= d.total ==> errnum == NoError
      ensures reliable && old(track != d.TrackOf(s)) && d.LeavesDisk(s, off, left) ==>
                errnum == NoError && left' > 0 && s' == d.total && RestOnly(d, s, old(buffer[..]))
    {
      data', events', s', left' := data, events, s, left;
      ghost var good := Sofar(d, first, off0, s, data, events);
      var piece, more;
      piece, more := ReadTrack(d, s, off, left);
      if errnum != NoError {
        return;
      }
      if good {
        SofarGrows(d, first, off0, s, off, left, data, events, piece, more);
      }
      data', events' := data + piece, events + more;
      left' := left - |piece|;
      s' := s + (d.VTrack() - s % d.VTrack());
    }

    /** The loop of rawread. */
    method ReadTracks(d: Drive, sector: nat, byteOffset: nat, byteLen: nat)
      returns (data: seq<Byte>, events: seq<Event>)
      requires Valid() && Selected(d) && errnum == NoError && byteOffset < d.size && byteLen > 0 && d.VTrack() > 0
      modifies this`track, this`errnum, buffer
      ensures Valid() && errnum in {NoError, Geometry, ReadError}
      ensures errnum == NoError && old(TagOk()) ==> Done(d, sector, byteOffset, byteLen, data, events)
      ensures old(TagOk()) && reliable && d.WholeTracks() && d.InRange(sector, byteOffset, byteLen) ==>
                errnum == NoError
      ensures old(TagOk()) && !TagOk() ==>
                && errnum == Geometry && d.LeavesDisk(sector, byteOffset, byteLen) && track == d.TrackOf(sector)
                && !d.InRange(sector, byteOffset, byteLen)
      ensures sector < d.total && old(track == d.TrackOf(sector)) && byteLen <= d.Room(sector, byteOffset) ==>
                && errnum == NoError && track == old(track) && buffer[..] == old(buffer[..])
                && InBuffer(d, sector, byteOffset, byteLen, data)
      ensures reliable && old(track != d.TrackOf(sector)) && d.LeavesDisk(sector, byteOffset, byteLen) ==>
                errnum == Geometry && RestOnly(d, sector, old(buffer[..]))
    {
      data, events := [], [];
      var s, off, left := sector, byteOffset, byteLen;
      ghost var good := TagOk();
      ghost var hit := track == d.TrackOf(sector) && byteLen <= d.Room(sector, byteOffset);
      ghost var leaves := reliable && track != d.TrackOf(sector) && d.LeavesDisk(sector, byteOffset, byteLen);
      while left > 0
        invariant Valid() && Selected(d) && errnum == NoError && 0 <= left && s >= sector
        invariant left + |data| == byteLen && off == (if s == sector then byteOffset else 0)
        invariant good ==> if left > 0 then Sofar(d, sector, byteOffset, s, data, events)
                           else Done(d, sector, byteOffset, byteLen, data, events)
        invariant s == sector ==> left == byteLen && track == old(track) && buffer[..] == old(buffer[..])
        invariant hit && s > sector ==>
                    && left == 0 && track == old(track) && buffer[..] == old(buffer[..])
                    && InBuffer(d, sector, byteOffset, byteLen, data)
        invariant leaves && s > sector ==> left > 0 && s == d.total && RestOnly(d, sector, old(buffer[..]))
        decreases left
      {
        if s >= d.total {
          errnum := Geometry;
          if good {
            BehindTheEnd(d, sector, byteOffset, s, |data|, left);
            if !TagOk() {
              TagLeftWrong(d, sector, byteOffset, s, left, data, events);
            }
          }
          return;
        }
        if d.WholeTracks() {
          TrackOnDisk(d, s);
        }
        data, events, s, left := Round(d, sector, byteOffset, s, off, left, data, events);
        if errnum != NoError {
          return;
        }
        off := 0;
      }
    }

    /** When a read stops at the end of the disk, the tag is wrong only behind the disk's last track. */
    lemma TagLeftWrong(d: Drive, first: nat, off: nat, s: nat, left: nat, data: seq<Byte>, events: seq<Event>)
      requires Valid() && d.Valid() && off < d.size && d.VTrack() > 0 && left > 0 && s >= d.total
      requires Sofar(d, first, off, s, data, events) && !TagOk()
      ensures d.LeavesDisk(first, off, |data| + left) && track == d.TrackOf(first)
    {
      TrackPosition(first, d.VTrack());
      Arith.MulAdd(first, s - first, d.size);
      if s > d.total {
        Arith.MulMonotone(d.total + 1, s, d.size);
        Arith.MulSucc(d.total, d.size);
        assert false;
      }
    }

    /** The tag names the track of a sector. */
    ghost predicate Cached(drv: nat, sector: nat)
      requires Valid() && drv < |drives| && drives[drv].Some? && drives[drv].value.VTrack() > 0
      reads this
    {
      drive == drv && track == drives[drv].value.TrackOf(sector)
    }

    /** rawread.  If the tag is right, the bytes are those of the disk, every sector of the range is reported in
        order, and the tag stays right, unless a range that starts inside the disk's last track goes on behind it:
        such a range does leave the tag on a buffer that starts in the middle of the track.  Whatever the buffer
        holds for the track its tag names is delivered. */
    method RawRead(drv: nat, sector: int, byteOffset: nat, byteLen: nat)
      returns (ok: bool, data: seq<Byte>, events: seq<Event>)
      requires Valid() && errnum == NoError
      requires drv < |drives| && drives[drv].Some? ==> byteOffset < drives[drv].value.size
      modifies this, buffer
      ensures Valid() && (ok <==> errnum == NoError) && errnum != OutsidePart
      ensures ok && byteLen > 0 && old(TagOk()) ==>
                && TagOk() && drv < |drives| && drives[drv].Some? && sector >= 0
                && var d := drives[drv].value;
                Delivered(d, sector, byteOffset, byteLen, data, events)
      ensures reliable && old(TagOk()) && sector >= 0 && drv < |drives| && drives[drv].Some? ==>
                var d := drives[drv].value;
                d.VTrack() > 0 && d.WholeTracks() && d.InRange(sector, byteOffset, byteLen) ==> ok
      ensures old(TagOk()) && !TagOk() ==>
                && errnum == Geometry && drv < |drives| && drives[drv].Some? && sector >= 0
                && var d := drives[drv].value;
                && d.VTrack() > 0 && d.LeavesDisk(sector, byteOffset, byteLen) && track == d.TrackOf(sector)
                && !d.InRange(sector, byteOffset, byteLen)
      ensures drv < |drives| && drives[drv].Some? && drives[drv].value.VTrack() > 0 && sector >= 0 && byteLen > 0 ==>
                var d := drives[drv].value;
                && (reliable && !old(Cached(drv, sector)) && d.LeavesDisk(sector, byteOffset, byteLen) ==>
                     errnum == Geometry && drive == drv && RestOnly(d, sector, old(buffer[..])))
                && (old(Cached(drv, sector)) && sector < d.total && byteLen <= d.Room(sector, byteOffset) ==>
                     && ok && track == old(track) && buffer[..] == old(buffer[..])
                     && InBuffer(d, sector, byteOffset, byteLen, data))
    {
      data, events := [], [];
      if byteLen == 0 {
        return true, data, events;
      }
      var d;
      ok, d := Select(drv);
      if !ok {
        return;
      }
      if sector < 0 {
        errnum := Geometry;
        return false, data, events;
      }
      VTrackFits(d);
      data, events := ReadTracks(d, sector, byteOffset, byteLen);
      ok := errnum == NoError;
      if d.InRange(sector, byteOffset, byteLen) {
        PiecesAreSources(d, sector, byteOffset, byteLen);
      }
    }

    /** devread: the range is given relative to a partition, and must lie in it.  Both are counted in units of 512
        bytes; the sector the read starts with is one of the drive, whatever its size.  As long as the partition lies
        on its disk, a right tag stays right. */
    method DevRead(drv: nat, partStart: nat, partLength: nat, sector: int, byteOffset: nat, byteLen: nat)
      returns (ok: bool, data: seq<Byte>, events: seq<Event>)
      requires Valid() && errnum == NoError && byteLen > 0
      requires drv < |drives| && drives[drv].Some? ==> drives[drv].value.size >= SECTOR_SIZE
      modifies this, buffer
      ensures Valid() && (ok <==> errnum == NoError)
      ensures ok && old(TagOk()) ==>
                && drv < |drives| && drives[drv].Some? && 0 <= sector
                && sector * SECTOR_SIZE + byteOffset + byteLen <= partLength * SECTOR_SIZE
                && var (d, s, off) := (drives[drv].value, partStart + sector + byteOffset / SECTOR_SIZE,
                                       byteOffset % SECTOR_SIZE);
                && Delivered(d, s, off, byteLen, data, events)
                && (d.size == SECTOR_SIZE ==>
                     && d.InRange(partStart + sector, byteOffset, byteLen)
                     && data == d.Bytes(partStart + sector, byteOffset, byteLen))
      ensures errnum == OutsidePart <==>
              sector < 0 || sector * SECTOR_SIZE + byteOffset + byteLen > partLength * SECTOR_SIZE
      ensures old(TagOk()) && ok ==> TagOk()
      ensures reliable && old(TagOk()) && errnum != OutsidePart && drv < |drives| && drives[drv].Some? ==>
                var d := drives[drv].value;
                d.size == SECTOR_SIZE && partStart + partLength <= d.total && d.VTrack() > 0 && d.WholeTracks() ==> ok
      ensures old(TagOk()) && (drv < |drives| && drives[drv].Some? ==>
                                 && drives[drv].value.size == SECTOR_SIZE
                                 && partStart + partLength <= drives[drv].value.total) ==>
                TagOk()
    {
      if sector < 0 || sector + (byteOffset + byteLen - 1) / SECTOR_SIZE >= partLength {
        errnum := OutsidePart;
        return false, [], [];
      }
      hide TagOk, Drive.InRange, Drive.Bytes, Drive.LeavesDisk, Drive.TrackOf, Delivered;
      hide RestOnly, InBuffer, Cached, Drive.VTrack, Drive.WholeTracks, Drive.Room;
      var s := sector + byteOffset / SECTOR_SIZE;
      ok, data, events := RawRead(drv, partStart + s, byteOffset % SECTOR_SIZE, byteLen);
      if drv < |drives| && drives[drv].Some? && drives[drv].value.size == SECTOR_SIZE {
        SameBytes(drives[drv].value, partStart + sector, byteOffset, byteLen, partStart + partLength);
        if ok && old(TagOk()) {
          DeliveredBytes(drives[drv].value, partStart + s, byteOffset % SECTOR_SIZE, byteLen, data, events);
        }
      }
    }
  }

  /** With sectors of 512 bytes, an offset is the same place as the sectors it goes over and the rest. */
  lemma SameBytes(d: Drive, s: nat, off: nat, n: nat, end: nat)
    requires d.Valid() && d.size == SECTOR_SIZE
    ensures var (t, o) := (s + off / SECTOR_SIZE, off % SECTOR_SIZE);
      && (d.InRange(t, o, n) <==> d.InRange(s, off, n))
      && (d.InRange(t, o, n) ==> d.Bytes(t, o, n) == d.Bytes(s, off, n))
      && (s * SECTOR_SIZE + off + n <= end * SECTOR_SIZE && end <= d.total ==> d.InRange(t, o, n))
  {
    assert d.total * d.size == d.total * SECTOR_SIZE;
  }

  /** What has been read and reported before sector `s`, which is the first one or starts a virtual track. */
  ghost predicate Covered(d: Drive, first: nat, off: nat, s: nat, data: seq<Byte>, events: seq<Event>)
    requires d.Valid() && off < d.size && d.VTrack() > 0
  {
    if s == first then data == [] && events == []
    else
      && s > first && |data| == (s - first) * d.size - off
      && d.InRange(first, off, |data|) && data == d.Bytes(first, off, |data|)
      && events == d.Pieces(first, off, |data|) && s % d.VTrack() == 0
  }

  lemma {:induction false} CoveredGrows(d: Drive, first: nat, off0: nat, s: nat, off: nat, left: nat,
                                       data: seq<Byte>, events: seq<Event>, piece: seq<Byte>, more: seq<Event>)
    requires d.Valid() && d.VTrack() > 0 && off0 < d.size && s >= first && left > 0
    requires Covered(d, first, off0, s, data, events) && off == if s == first then off0 else 0
    requires |piece| == (if left < d.Room(s, off) then left else d.Room(s, off)) > 0
    requires d.InRange(s, off, |piece|) && piece == d.Bytes(s, off, |piece|) && more == d.Pieces(s, off, |piece|)
    ensures var n := |data| + |piece|;
      && d.InRange(first, off0, n) && data + piece == d.Bytes(first, off0, n)
      && events + more == d.Pieces(first, off0, n)
    ensures |piece| < left ==> Covered(d, first, off0, d.TrackOf(s) + d.VTrack(), data + piece, events + more)
    ensures s % d.VTrack() > 0 ==> s == first
  {
    hide Drive.Pieces, Drive.Bytes, Drive.InRange;
    Continue(d, first, off0, s, off, left, data, events, piece, more);
  }

  lemma BehindTheEnd(d: Drive, first: nat, off: nat, s: nat, done: nat, left: nat)
    requires d.Valid() && off < d.size && s >= d.total && left > 0
    requires if s == first then done == 0 else s > first && done == (s - first) * d.size - off
    ensures !d.InRange(first, off, done + left)
  {
    Arith.MulMonotone(d.total, s, d.size);
    assert s * d.size == first * d.size + (s - first) * d.size;
  }

  /** Appending what one virtual track delivered. */
  lemma {:induction false} Continue(d: Drive, first: nat, off0: nat, s: nat, off: nat, left: nat,
                 data: seq<Byte>, events: seq<Event>, piece: seq<Byte>, more: seq<Event>)
    requires d.Valid() && d.VTrack() > 0 && off0 < d.size && s >= first && left > 0
    requires if s == first then data == [] && events == [] && off == off0
             else |data| == (s - first) * d.size - off0 && off == 0
                  && d.InRange(first, off0, |data|) && data == d.Bytes(first, off0, |data|)
                  && events == d.Pieces(first, off0, |data|)
    requires var room := (d.VTrack() - s % d.VTrack()) * d.size - off;
      |piece| == if left < room then left else room
    requires |piece| > 0 && d.InRange(s, off, |piece|) && piece == d.Bytes(s, off, |piece|)
    requires more == d.Pieces(s, off, |piece|)
    ensures var n := |data| + |piece|; var next := s + (d.VTrack() - s % d.VTrack());
      && d.InRange(first, off0, n) && data + piece == d.Bytes(first, off0, n)
      && events + more == d.Pieces(first, off0, n)
      && next > s && next % d.VTrack() == 0
      && (|piece| < left ==> n == (next - first) * d.size - off0)
  {
    TrackPosition(s, d.VTrack());
    if s == first {
      assert data + piece == piece && events + more == more;
    } else {
      BytesJoin(d, first, off0, s - first, (s - first) * d.size - off0, |piece|);
      PiecesSplit(d, first, off0, s - first, |piece|);
      Arith.MulAdd(s - first, d.VTrack() - s % d.VTrack(), d.size);
    }
  }
  // ---------- A wrong tag ----------

  lemma FirstOfTrack(d: Drive, s: nat)
    requires d.Valid() && d.VTrack() > 0
    ensures d.TrackOf(s) % d.VTrack() == 0 && d.TrackOf(d.TrackOf(s)) == d.TrackOf(s)
    ensures d.size <= d.Room(s, 0) <= d.Room(d.TrackOf(s), 0)
  {
    TrackPosition(s, d.VTrack());
    TrackPosition(d.TrackOf(s), d.VTrack());
    Arith.MulMonotone(1, d.VTrack() - s % d.VTrack(), d.size);
    Arith.MulMonotone(d.VTrack() - s % d.VTrack(), d.VTrack(), d.size);
  }

  /** A range that leaves the disk from inside its last track is refused, and a read from the start of that track,
      which lies on the disk, then succeeds with bytes from sector `s` on. */
  method WrongBytes(d: Drive, s: nat, off: nat, len: nat, n: nat) returns (refused: Error, ok: bool, data: seq<Byte>)
    requires d.Valid() && d.VTrack() > 0 && off < d.size && d.LeavesDisk(s, off, len)
    requires 0 < n <= d.Room(s, 0)
    ensures refused == Geometry && ok && d.InRange(s, 0, n) && data == d.Bytes(s, 0, n)
    ensures d.InRange(d.TrackOf(s), 0, n)
  {
    FirstOfTrack(d, s);
    var reader := new Reader([Some(d)], true);
    ghost var was := reader.buffer[..];
    assert reader.drives[0] == Some(d) && !reader.Cached(0, s);
    var events;
    ok, data, events := reader.RawRead(0, s, off, len);
    refused := reader.errnum;
    assert reader.RestOnly(d, s, was);
    reader.errnum := NoError;
    ok, data, events := reader.RawRead(0, d.TrackOf(s), 0, n);
    assert reader.InBuffer(d, d.TrackOf(s), 0, n, data);
    BytesInside(d, s, d.Room(s, 0), s, 0, n);
    Arith.MulMonotone(d.TrackOf(s), s, d.size);
  }

  /** A disk of one track on which those are not the bytes asked for. */
  lemma WrongBytesExample(d: Drive)
    requires d == Drive(2, 2, 512, seq<Byte>(1024, i => if i < 512 then 10 else 20))
    ensures d.Valid() && d.VTrack() == 2 && d.TrackOf(1) == 0 && d.Room(1, 0) == 512 && d.LeavesDisk(1, 0, 1024)
    ensures d.Bytes(1, 0, 1) != d.Bytes(0, 0, 1)
  {
    assert d.Bytes(1, 0, 1) == [20] && d.Bytes(0, 0, 1) == [10];
  }
}
