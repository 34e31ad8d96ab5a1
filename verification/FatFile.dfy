/**
 Reading a file of a FAT or exFAT volume: the cluster-chain cursor and the sliding window over the file
 allocation table (loader/filesys/fsys_fat.c).
 */
module FatFile {
  import opened Common
  import Arith

  const FAT_CACHE_SIZE := 2048

  /** Where a step along a chain leads. */
  datatype Link = Cluster(c: nat) | End | Corrupt

  /** What fat_mount has found out.  `fat` holds the sectors from the start of the table on, `clusters` the
      data area, beginning with cluster 2; entries are `fatSize` nibbles wide. */
  datatype Volume = Volume(fat: seq<Byte>, fatSize: nat, numClust: nat, eofMarker: nat,
                           clusters: seq<seq<Byte>>, clustSize: nat)
  {
    ghost predicate Valid() {
      && (fatSize == 3 || fatSize == 4 || fatSize == 8) && clustSize >= 512
      && 2 <= numClust <= Limit() < (if Fat32() then 0x1000_0000 else 0x2000_0000)
      && (forall i :: 0 <= i < |clusters| ==> |clusters[i]| == clustSize)
      && WindowStart(Nibble(Limit())) / 2 + FAT_CACHE_SIZE <= |fat|
    }

    /** What is true of a mounted volume: fat_mount counts the two reserved numbers on FAT, but not on exFAT. */
    ghost predicate Mounted() { Valid() && numClust == if Exfat() then |clusters| else Limit() }

    /** The number behind that of the last cluster. */
    function Limit(): nat { |clusters| + 2 }

    /** The position of entry `c` in the table, in nibbles. */
    function Nibble(c: nat): nat {
      if fatSize == 3 then 3 * c else if fatSize == 4 then 4 * c else 8 * c
    }

    /** The start of the 512-byte sector that holds a nibble, in nibbles. */
    function WindowStart(nibble: nat): nat { nibble / 1024 * 1024 }

    function FatByte(i: nat): Byte { if i < |fat| then fat[i] else 0 }

    /** Entry `c` of the table: 12, 16 or 32 bits, little-endian. */
    function Entry(c: nat): nat {
      var b := Nibble(c) / 2;
      if fatSize == 8 then WordOf(FatByte(b), FatByte(b + 1), FatByte(b + 2), FatByte(b + 3))
      else Packed(fatSize, Nibble(c) % 2 == 1, FatByte(b), FatByte(b + 1))
    }

    /** Where an entry of value `e` leads. */
    function Leads(e: nat): Link {
      if e >= eofMarker then End else if e < 2 || e >= numClust then Corrupt else Cluster(e)
    }

    function Next(c: nat): Link { Leads(Entry(c)) }

    /** FAT32, where the format defines 28 bits of an entry. */
    predicate Fat32() { fatSize == 8 && eofMarker == 0xFFF_FFF8 }

    predicate Exfat() { fatSize == 8 && eofMarker == 0xFFFF_FFFF }

    /** The volume as the format wants it read: all of its clusters count, and on FAT32 the top four bits of every
        entry do not. */
    function Format(): Volume {
      this.(numClust := Limit(),
            fat := if !Fat32() then fat
                   else seq<Byte>(|fat|, i requires 0 <= i < |fat| => if i % 4 == 3 then fat[i] % 0x10 else fat[i]))
    }

    /** Entry `c` is understood the same way with and without those bits: they are clear, or it marks the end. */
    predicate Intact(c: nat) { Fat32() ==> Entry(c) < 0x1000_0000 || Entry(c) % 0x1000_0000 >= eofMarker }

    /** Entry `c` does not lead to a cluster that the driver does not count. */
    predicate Known(c: nat) { Entry(c) < numClust || Entry(c) >= Limit() || Entry(c) >= eofMarker }

    predicate Understood(c: nat) { Intact(c) && Known(c) }

    /** The `k`-th cluster of the file that starts at `first`. */
    function Chain(first: nat, k: nat): Link {
      if k == 0 then Cluster(first)
      else
        match Chain(first, k - 1)
        case Cluster(c) => Next(c)
        case other => other
    }

    predicate InData(c: nat) { 2 <= c < Limit() }

    /** What devread delivers from the first sector of cluster `c`: that cluster and those behind it. */
    function DataFrom(c: nat): seq<Byte>
      requires 2 <= c
      decreases Limit() - c
    {
      if c >= Limit() then [] else clusters[c - 2] + DataFrom(c + 1)
    }

    /** The file has at least `n` clusters. */
    ghost predicate Has(first: nat, n: nat) {
      forall k: nat :: k < n ==> Chain(first, k).Cluster? && InData(Chain(first, k).c)
    }

    /** The first `n` clusters of the file. */
    ghost function File(first: nat, n: nat): seq<Byte>
      requires Has(first, n)
    {
      if n == 0 then [] else File(first, n - 1) + clusters[Chain(first, n - 1).c - 2]
    }
  }

  lemma {:induction false} FileLength(v: Volume, first: nat, n: nat)
    requires v.Valid() && v.Has(first, n)
    ensures |v.File(first, n)| == n * v.clustSize
  {
    if n > 0 {
      FileLength(v, first, n - 1);
      Arith.MulSucc(n - 1, v.clustSize);
    }
  }

  /** A cluster of a chain lies in the data area as soon as it is not the first one. */
  lemma {:induction false} ChainInData(v: Volume, first: nat, n: nat)
    requires v.numClust <= v.Limit() && v.InData(first) && v.Chain(first, n).Cluster?
    ensures v.Has(first, n + 1)
  {
    if n > 0 {
      ChainInData(v, first, n - 1);
    }
  }

  // ---------- The window over the table ----------

  /** A 32-bit little-endian load at byte `i` of the window; what lies behind the window is arbitrary. */
  function Load(w: seq<Byte>, behind: seq<Byte>, i: nat): nat
    requires |w| == FAT_CACHE_SIZE && |behind| == 3 && i < |w|
  {
    var m := w + behind;
    WordOf(m[i], m[i + 1], m[i + 2], m[i + 3])
  }

  function WordOf(b0: nat, b1: nat, b2: nat, b3: nat): nat {
    b0 + b1 * 0x100 + b2 * 0x1_0000 + b3 * 0x100_0000
  }

  /** An entry of 12 or 16 bits in two bytes: two entries of 12 bits share three bytes. */
  function Packed(fatSize: nat, odd: bool, b0: nat, b1: nat): nat {
    if fatSize == 4 then b0 + b1 * 0x100 else if odd then b0 / 16 + b1 * 16 else b0 + b1 % 16 * 0x100
  }

  /** Shifts and masks the loaded word as fat_read does. */
  function Select(fatSize: nat, pos: nat, word: nat): nat {
    if fatSize == 3 then (if pos % 2 == 1 then word / 16 else word) % 0x1000
    else if fatSize == 4 then word % 0x1_0000
    else word
  }

  /** The window is filled with the table from nibble `start` on. */
  ghost predicate WindowHolds(v: Volume, w: seq<Byte>, start: nat) {
    && start % 1024 == 0 && |w| == FAT_CACHE_SIZE
    && start / 2 + FAT_CACHE_SIZE <= |v.fat| && w == v.fat[start / 2..start / 2 + FAT_CACHE_SIZE]
  }

  /** An entry within the window, extracted by nibble address, is the entry of the table; nothing behind the
      window matters. */
  lemma {:induction false} WindowEntry(v: Volume, w: seq<Byte>, behind: seq<Byte>, start: nat, c: nat)
    requires v.fatSize == 3 || v.fatSize == 4 || v.fatSize == 8
    requires WindowHolds(v, w, start) && |behind| == 3
    requires start <= v.Nibble(c) && v.Nibble(c) - start + v.fatSize <= 2 * FAT_CACHE_SIZE
    ensures (v.Nibble(c) - start) / 2 < FAT_CACHE_SIZE
    ensures Select(v.fatSize, v.Nibble(c) - start, Load(w, behind, (v.Nibble(c) - start) / 2)) == v.Entry(c)
  {
    var n := v.Nibble(c);
    HalfDifference(n, start);
    LastByte(v.fatSize, c, n, start);
    var x0, x1, x2, x3 := LoadedBytes(v, w, behind, start, n);
    EntrySelected(v, c, n - start, x0, x1, x2, x3);
  }

  lemma EntrySelected(v: Volume, c: nat, pos: nat, x0: Byte, x1: Byte, x2: Byte, x3: Byte)
    requires (v.fatSize == 3 || v.fatSize == 4 || v.fatSize == 8) && pos % 2 == v.Nibble(c) % 2
    requires x0 == v.FatByte(v.Nibble(c) / 2) && x1 == v.FatByte(v.Nibble(c) / 2 + 1)
    requires v.fatSize == 8 ==> x2 == v.FatByte(v.Nibble(c) / 2 + 2) && x3 == v.FatByte(v.Nibble(c) / 2 + 3)
    ensures Select(v.fatSize, pos, WordOf(x0, x1, x2, x3)) == v.Entry(c)
  {
    if v.fatSize != 8 {
      SelectLow(v.fatSize, pos, x0, x1, x2, x3);
    }
  }

  /** The bytes of the word loaded for nibble `n`. */
  lemma {:induction false} LoadedBytes(v: Volume, w: seq<Byte>, behind: seq<Byte>, start: nat, n: nat)
    returns (x0: Byte, x1: Byte, x2: Byte, x3: Byte)
    requires WindowHolds(v, w, start) && |behind| == 3 && start <= n
    requires (n - start) / 2 + (if v.fatSize == 8 then 3 else 1) < FAT_CACHE_SIZE
    ensures Load(w, behind, (n - start) / 2) == WordOf(x0, x1, x2, x3)
    ensures x0 == v.FatByte(n / 2) && x1 == v.FatByte(n / 2 + 1)
    ensures v.fatSize == 8 ==> x2 == v.FatByte(n / 2 + 2) && x3 == v.FatByte(n / 2 + 3)
  {
    HalfDifference(n, start);
    var i, b, m := (n - start) / 2, n / 2, w + behind;
    x0, x1, x2, x3 := m[i], m[i + 1], m[i + 2], m[i + 3];
    WindowByte(v, w, behind, start, b, i);
    WindowByte(v, w, behind, start, b + 1, i + 1);
    if v.fatSize == 8 {
      WindowByte(v, w, behind, start, b + 2, i + 2);
      WindowByte(v, w, behind, start, b + 3, i + 3);
    }
  }

  lemma HalfDifference(n: nat, start: nat)
    requires start <= n && start % 1024 == 0
    ensures (n - start) / 2 == n / 2 - start / 2 && (n - start) % 2 == n % 2
  {
    var k := start / 1024;
    assert start == 1024 * k;
  }

  /** The last byte an entry needs lies in the window when its last nibble does. */
  lemma LastByte(fatSize: nat, c: nat, n: nat, start: nat)
    requires start <= n && start % 1024 == 0 && n - start + fatSize <= 2 * FAT_CACHE_SIZE
    requires (fatSize == 3 && n == 3 * c) || (fatSize == 4 && n == 4 * c) || (fatSize == 8 && n == 8 * c)
    ensures (n - start) / 2 + (if fatSize == 8 then 3 else 1) < FAT_CACHE_SIZE
  {
    var k := start / 1024;
    assert start == 1024 * k;
  }

  lemma WindowByte(v: Volume, w: seq<Byte>, behind: seq<Byte>, start: nat, b: nat, i: nat)
    requires WindowHolds(v, w, start) && i < FAT_CACHE_SIZE && b == start / 2 + i
    ensures (w + behind)[i] == v.FatByte(b)
  {
  }

  /** What the shifts and masks leave of a word: the two bytes the entry lies in. */
  lemma SelectLow(fatSize: nat, pos: nat, b0: Byte, b1: Byte, b2: Byte, b3: Byte)
    requires fatSize == 3 || fatSize == 4
    ensures Select(fatSize, pos, WordOf(b0, b1, b2, b3)) == Packed(fatSize, pos % 2 == 1, b0, b1)
  {
    var word := WordOf(b0, b1, b2, b3);
    var high := b2 + b3 * 0x100;
    if fatSize == 4 {
      Arith.DivMod(word, 0x1_0000, high, b0 + b1 * 0x100);
    } else if pos % 2 == 0 {
      Arith.DivMod(word, 0x1000, b1 / 16 + 16 * high, b0 + b1 % 16 * 0x100);
    } else {
      Arith.DivMod(word, 16, b0 / 16 + 16 * b1 + 0x1000 * high, b0 % 16);
      Arith.DivMod(word / 16, 0x1000, high, b0 / 16 + b1 * 16);
    }
  }

  // ---------- What the format says ----------

  lemma FormatEntry(v: Volume, c: nat)
    ensures v.Format().Entry(c) == if v.Fat32() then v.Entry(c) % 0x1000_0000 else v.Entry(c)
  {
    hide WordOf;
    if v.Fat32() {
      var b := 4 * c;
      assert v.Nibble(c) / 2 == b && b % 4 == 0;
      FormatByte(v, b);
      FormatByte(v, b + 1);
      FormatByte(v, b + 2);
      FormatByte(v, b + 3);
      LowBits(v.FatByte(b), v.FatByte(b + 1), v.FatByte(b + 2), v.FatByte(b + 3));
    }
  }

  lemma FormatByte(v: Volume, i: nat)
    requires v.Fat32()
    ensures v.Format().FatByte(i) == if i % 4 == 3 then v.FatByte(i) % 0x10 else v.FatByte(i)
  {
  }

  lemma LowBits(b0: Byte, b1: Byte, b2: Byte, b3: Byte)
    ensures WordOf(b0, b1, b2, b3) % 0x1000_0000 == WordOf(b0, b1, b2, b3 % 0x10)
  {
    Arith.DivMod(WordOf(b0, b1, b2, b3), 0x1000_0000, b3 / 0x10, WordOf(b0, b1, b2, b3 % 0x10));
  }

  lemma FormatValid(v: Volume)
    requires v.Valid()
    ensures v.Format().Valid() && v.Format().clusters == v.clusters && v.Format().clustSize == v.clustSize
  {
  }

  /** A step goes where the format says if and only if the entry is understood.  If reserved bits are in the way it is
      taken for the end; if it leads to a cluster that is not counted it is taken for corrupt. */
  lemma StepIsRight(v: Volume, c: nat)
    requires v.Valid()
    ensures v.Next(c) == v.Format().Next(c) <==> v.Understood(c)
    ensures !v.Intact(c) ==> v.Next(c) == End
    ensures !v.Known(c) ==> v.Next(c) == Corrupt && v.Format().Next(c) == Cluster(v.Entry(c))
  {
    hide Volume.Entry;
    FormatEntry(v, c);
    FormatLeads(v, v.Entry(c), v.Format().Entry(c));
  }

  lemma FormatLeads(v: Volume, e: nat, m: nat)
    requires v.Valid() && m == if v.Fat32() then e % 0x1000_0000 else e
    ensures v.Leads(e) == v.Format().Leads(m) <==>
            && (v.Fat32() ==> e < 0x1000_0000 || m >= v.eofMarker)
            && (e < v.numClust || e >= v.Limit() || e >= v.eofMarker)
    ensures v.Fat32() && e >= 0x1000_0000 ==> v.Leads(e) == End
  {
  }

  /** fat_read does not mask the 32-bit entries of FAT32: a step over one is right exactly if the reserved bits are
      clear or the entry marks the end. */
  lemma Fat32Mask(v: Volume, c: nat)
    requires v.Mounted() && v.Fat32()
    ensures v.Next(c) == v.Format().Next(c) <==>
            v.Entry(c) < 0x1000_0000 || v.Entry(c) % 0x1000_0000 >= v.eofMarker
  {
    StepIsRight(v, c);
  }

  /** On exFAT it does not count the last two clusters: a step is right exactly if it does not lead there. */
  lemma ExfatCount(v: Volume, c: nat)
    requires v.Mounted() && v.Exfat()
    ensures v.Next(c) == v.Format().Next(c) <==> v.Entry(c) != v.numClust && v.Entry(c) != v.numClust + 1
  {
    StepIsRight(v, c);
  }

  /** The clusters a chain does reach are the right ones. */
  lemma {:induction false} ClustersAreRight(v: Volume, first: nat, k: nat)
    requires v.Valid() && v.Chain(first, k).Cluster?
    ensures v.Format().Chain(first, k) == v.Chain(first, k)
  {
    if k > 0 {
      ClustersAreRight(v, first, k - 1);
      StepIsRight(v, v.Chain(first, k - 1).c);
    }
  }

  /** Where a chain stops, it does so as the format says if and only if the entry there is understood: one that is
      taken for the end must be free of reserved bits, one that is taken for corrupt must not lead to a cluster. */
  lemma StopIsRight(v: Volume, first: nat, k: nat)
    requires v.Valid() && k > 0 && v.Chain(first, k - 1).Cluster? && !v.Chain(first, k).Cluster?
    ensures var c := v.Chain(first, k - 1).c;
      && (v.Format().Chain(first, k) == v.Chain(first, k) <==> v.Understood(c))
      && (v.Chain(first, k) == End ==> v.Known(c)) && (v.Chain(first, k) == Corrupt ==> v.Intact(c))
  {
    ClustersAreRight(v, first, k - 1);
    StepIsRight(v, v.Chain(first, k - 1).c);
  }

  /** The entries of the clusters that the first `n` steps leave. */
  ghost predicate AllUnderstood(v: Volume, first: nat, n: nat) {
    forall k: nat :: k < n && v.Chain(first, k).Cluster? ==> v.Understood(v.Chain(first, k).c)
  }

  lemma {:induction false} UnderstoodIsRight(v: Volume, first: nat, n: nat)
    requires v.Valid() && AllUnderstood(v, first, n)
    ensures v.Chain(first, n) == v.Format().Chain(first, n)
  {
    if n > 0 {
      UnderstoodIsRight(v, first, n - 1);
      if v.Chain(first, n - 1).Cluster? {
        StepIsRight(v, v.Chain(first, n - 1).c);
      }
    }
  }

  lemma NotUnderstood(v: Volume, first: nat, n: nat) returns (k: nat)
    requires v.Valid() && !AllUnderstood(v, first, n)
    ensures k <= n && v.Chain(first, k) != v.Format().Chain(first, k)
  {
    var j: nat :| j < n && v.Chain(first, j).Cluster? && !v.Understood(v.Chain(first, j).c);
    ClustersAreRight(v, first, j);
    StepIsRight(v, v.Chain(first, j).c);
    k := j + 1;
  }

  /** So the whole chain is read as the format says if and only if all entries on it are understood. */
  lemma {:induction false} ChainIsRight(v: Volume, first: nat, n: nat)
    requires v.Valid()
    ensures AllUnderstood(v, first, n) <==>
            forall k: nat :: k <= n ==> v.Chain(first, k) == v.Format().Chain(first, k)
  {
    if AllUnderstood(v, first, n) {
      forall k: nat | k <= n
        ensures v.Chain(first, k) == v.Format().Chain(first, k)
      {
        UnderstoodIsRight(v, first, k);
      }
    } else {
      var k := NotUnderstood(v, first, n);
    }
  }

  lemma {:induction false} HasIsRight(v: Volume, first: nat, n: nat)
    requires v.Valid() && v.Has(first, n)
    ensures v.Format().Has(first, n)
    ensures forall k: nat :: k < n ==> v.Format().Chain(first, k) == v.Chain(first, k)
  {
    forall k: nat | k < n
      ensures v.Format().Chain(first, k) == v.Chain(first, k)
    {
      ClustersAreRight(v, first, k);
    }
  }

  lemma {:induction false} SameFile(v: Volume, w: Volume, first: nat, n: nat)
    requires v.Has(first, n) && w.Has(first, n) && w.clusters == v.clusters
    requires forall k: nat :: k < n ==> w.Chain(first, k) == v.Chain(first, k)
    ensures w.File(first, n) == v.File(first, n)
  {
    if n > 0 {
      SameFile(v, w, first, n - 1);
      assert w.Chain(first, n - 1) == v.Chain(first, n - 1);
    }
  }

  lemma {:induction false} SameData(v: Volume, w: Volume, c: nat)
    requires w.clusters == v.clusters && 2 <= c
    ensures w.DataFrom(c) == v.DataFrom(c)
    decreases v.Limit() - c
  {
    if c < v.Limit() {
      SameData(v, w, c + 1);
    }
  }

  lemma {:induction false} FileIsRight(v: Volume, first: nat, n: nat)
    requires v.Valid() && v.Has(first, n)
    ensures v.Format().Valid() && v.Format().Has(first, n) && v.Format().File(first, n) == v.File(first, n)
  {
    FormatValid(v);
    HasIsRight(v, first, n);
    SameFile(v, v.Format(), first, n);
  }

  /** What a read of `len` bytes at `from` may deliver: a piece of the file, cut short only by its end. */
  ghost predicate Delivers(v: Volume, first: nat, from: nat, len: nat, data: seq<Byte>, k: nat) {
    && v.Valid() && v.Has(first, k) && |data| <= len
    && (data != [] ==> from + |data| <= |v.File(first, k)| && data == v.File(first, k)[from..from + |data|])
    && (|data| < len ==> v.Chain(first, k) == End && |v.File(first, k)| <= from + |data|)
  }

  /** Why a read of `len` bytes at `from` may fail: cluster number `k`, which it needs, is the first corrupt one. */
  ghost predicate Fails(v: Volume, first: nat, from: nat, len: nat, k: nat) {
    k > 0 && v.Chain(first, k - 1).Cluster? && v.Chain(first, k) == Corrupt && k * v.clustSize < from + len
  }

  /** The entry of the last of `k` clusters is understood. */
  predicate LastUnderstood(v: Volume, first: nat, k: nat) {
    k > 0 && v.Chain(first, k - 1).Cluster? && v.Understood(v.Chain(first, k - 1).c)
  }

  /** What is delivered of a file is right, and a read that is cut short ends where the file does if and only if the
      last entry is understood. */
  lemma DeliveryIsRight(v: Volume, first: nat, from: nat, len: nat, data: seq<Byte>, k: nat)
    requires Delivers(v, first, from, len, data, k)
    ensures Delivers(v.Format(), first, from, |data|, data, k)
    ensures Delivers(v.Format(), first, from, len, data, k) <==> |data| == len || LastUnderstood(v, first, k)
  {
    FileIsRight(v, first, k);
    if |data| < len {
      assert v.Chain(first, k) == End;
      assert k > 0;
      var _ := v.Chain(first, k - 1);
      StopIsRight(v, first, k);
    }
  }

  /** A read that fails has met a corrupt chain if and only if the last entry is understood. */
  lemma FailureIsRight(v: Volume, first: nat, from: nat, len: nat, k: nat)
    requires v.Valid() && Fails(v, first, from, len, k)
    ensures Fails(v.Format(), first, from, len, k) <==> LastUnderstood(v, first, k)
  {
    ClustersAreRight(v, first, k - 1);
    StopIsRight(v, first, k);
  }

  /** A file of two clusters, the entry of the first of which has its top nibble set: the driver sees one cluster. */
  lemma CutShort()
    ensures var fat := seq<Byte>(2048, i => if i == 8 then 3 else if i == 11 then 0x10 else
                                            if 12 <= i < 15 then 0xFF else if i == 15 then 0x0F else 0);
      var v := Volume(fat, 8, 4, 0xFFF_FFF8, [seq<Byte>(512, _ => 1), seq<Byte>(512, _ => 2)], 512);
      && v.Mounted() && !v.Intact(2) && v.Chain(2, 1) == End
      && v.Format().Chain(2, 1) == Cluster(3) && v.Format().Chain(2, 2) == End
  {
    var fat := seq<Byte>(2048, i => if i == 8 then 3 else if i == 11 then 0x10 else
                                    if 12 <= i < 15 then 0xFF else if i == 15 then 0x0F else 0);
    var v := Volume(fat, 8, 4, 0xFFF_FFF8, [seq<Byte>(512, _ => 1), seq<Byte>(512, _ => 2)], 512);
    assert v.Entry(2) == 0x1000_0003 && v.Entry(3) == 0xFFF_FFFF;
    FormatEntry(v, 2);
    FormatEntry(v, 3);
    assert v.Chain(2, 0) == Cluster(2) == v.Format().Chain(2, 0);
    assert v.Format().Chain(2, 1) == v.Format().Next(2);
  }

  /** An exFAT volume of four clusters, 2 to 5, and a file in clusters 3 and 4: the driver takes it for corrupt. */
  lemma LastClusters()
    ensures var fat := seq<Byte>(2048, i => if i == 12 then 4 else if 16 <= i < 20 then 0xFF else 0);
      var v := Volume(fat, 8, 4, 0xFFFF_FFFF, seq<seq<Byte>>(4, _ => seq<Byte>(512, _ => 1)), 512);
      && v.Mounted() && v.Exfat() && !v.Known(3) && v.Chain(3, 1) == Corrupt
      && v.Format().Chain(3, 1) == Cluster(4) && v.Format().Chain(3, 2) == End
  {
    var fat := seq<Byte>(2048, i => if i == 12 then 4 else if 16 <= i < 20 then 0xFF else 0);
    var v := Volume(fat, 8, 4, 0xFFFF_FFFF, seq<seq<Byte>>(4, _ => seq<Byte>(512, _ => 1)), 512);
    assert v.Entry(3) == 4 && v.Entry(4) == 0xFFFF_FFFF;
    FormatEntry(v, 3);
    FormatEntry(v, 4);
    assert v.Chain(3, 0) == Cluster(3) == v.Format().Chain(3, 0);
    assert v.Format().Chain(3, 1) == v.Format().Next(3);
  }

  lemma {:induction false} ChainStops(v: Volume, first: nat, k: nat, n: nat)
    requires k <= n && !v.Chain(first, k).Cluster?
    ensures v.Chain(first, n) == v.Chain(first, k)
  {
    if k < n {
      ChainStops(v, first, k, n - 1);
    }
  }

  /** Reading from the middle of the last cluster extends what has been read of the file so far. */
  lemma {:induction false} FileGrows(v: Volume, first: nat, k: nat, c: nat, from: nat, out: seq<Byte>,
                                     offset: nat, size: nat)
    requires v.Valid() && v.Has(first, k + 1) && v.Chain(first, k) == Cluster(c)
    requires offset + size <= v.clustSize && k * v.clustSize + offset == from + |out|
    requires out != [] ==> from + |out| <= |v.File(first, k)| && out == v.File(first, k)[from..from + |out|]
    ensures var more := out + v.clusters[c - 2][offset..offset + size];
      && from + |more| <= |v.File(first, k + 1)|
      && more == v.File(first, k + 1)[from..from + |more|]
  {
    FileLength(v, first, k);
    var f := v.File(first, k);
    var g := v.File(first, k + 1);
    assert g == f + v.clusters[c - 2];
    if out == [] {
      SliceBehind(f, v.clusters[c - 2], from, offset, size);
      assert out + v.clusters[c - 2][offset..offset + size] == v.clusters[c - 2][offset..offset + size];
    } else {
      SliceBehind(f, v.clusters[c - 2], from + |out|, offset, size);
      SliceAcross(f, v.clusters[c - 2], from, from + |out|, size);
    }
  }

  lemma SliceBehind(f: seq<Byte>, x: seq<Byte>, at: nat, offset: nat, size: nat)
    requires at == |f| + offset && offset + size <= |x|
    ensures (f + x)[at..at + size] == x[offset..offset + size]
  {
  }

  lemma SliceAcross(f: seq<Byte>, x: seq<Byte>, from: nat, to: nat, size: nat)
    requires from <= to <= |f| && to + size <= |f + x|
    ensures (f + x)[from..to + size] == f[from..to] + (f + x)[to..to + size]
  {
  }

  ghost predicate Consecutive(v: Volume, first: nat, n: nat) {
    forall k: nat :: k < n ==> v.Chain(first, k) == Cluster(first + k)
  }

  lemma ConsecutiveNext(v: Volume, first: nat, n: nat, k: nat)
    requires Consecutive(v, first, n) && k + 1 < n
    ensures v.Next(first + k) == Cluster(first + k + 1)
  {
    assert v.Chain(first, k) == Cluster(first + k) && v.Chain(first, k + 1) == Cluster(first + k + 1);
  }

  /** On a chain of consecutive clusters the file lies in one piece. */
  lemma {:induction false} ContiguousFile(v: Volume, first: nat, n: nat)
    requires v.Valid() && v.InData(first) && first + n <= v.Limit()
    requires Consecutive(v, first, n)
    ensures v.Has(first, n) && v.File(first, n) + v.DataFrom(first + n) == v.DataFrom(first)
  {
    hide Volume.Chain;
    if n == 0 {
      assert [] + v.DataFrom(first) == v.DataFrom(first);
    } else {
      ContiguousFile(v, first, n - 1);
      assert v.Chain(first, n - 1) == Cluster(first + n - 1);
      var f, c, d := v.File(first, n - 1), v.clusters[first + n - 1 - 2], v.DataFrom(first + n);
      assert v.DataFrom(first + n - 1) == c + d;
      Assoc(f, c, d);
    }
  }

  lemma {:induction false} FilePrefix(v: Volume, first: nat, j: nat, k: nat)
    requires v.Valid() && v.Has(first, k) && j <= k
    ensures v.Has(first, j) && |v.File(first, j)| <= |v.File(first, k)|
    ensures v.File(first, k)[..|v.File(first, j)|] == v.File(first, j)
  {
    if j < k {
      FilePrefix(v, first, j, k - 1);
    }
  }

  /** The bytes of such a file, up to those of cluster number n - 1, are in both of two of its slices. */
  lemma {:induction false} ContiguousBytes(v: Volume, first: nat, n: nat, from: nat, data: seq<Byte>, k: nat)
    requires v.Valid() && v.InData(first) && first + n <= v.Limit()
    requires Consecutive(v, first, n)
    requires from + |data| <= n * v.clustSize && Delivers(v, first, from, |data|, data, k)
    ensures from + |data| <= |v.DataFrom(first)| && data == v.DataFrom(first)[from..from + |data|]
  {
    ContiguousFile(v, first, n);
    FileLength(v, first, n);
    FileLength(v, first, k);
    var f, g := v.File(first, n), v.File(first, k);
    assert v.DataFrom(first)[..|f|] == f;
    if k <= n {
      FilePrefix(v, first, k, n);
      Arith.MulMonotone(k, n, v.clustSize);
    } else {
      FilePrefix(v, first, n, k);
      Arith.MulMonotone(n, k, v.clustSize);
    }
    SameSlice(f, v.DataFrom(first), from, from + |data|);
    if data != [] {
      if k <= n {
        SameSlice(g, f, from, from + |data|);
      } else {
        SameSlice(f, g, from, from + |data|);
      }
    }
  }

  /** The driver follows a chain of consecutive clusters as far as it understands the entries. */
  lemma {:induction false} ConsecutiveReached(v: Volume, first: nat, n: nat, q: nat)
    requires v.Valid() && q < n && Consecutive(v.Format(), first, n)
    ensures (forall c :: first <= c < first + q ==> v.Understood(c)) <==> v.Chain(first, q).Cluster?
  {
    if q > 0 {
      ConsecutiveReached(v, first, n, q - 1);
      ConsecutiveStep(v, v.Format(), first, n, q);
    }
  }

  lemma ConsecutiveStep(v: Volume, w: Volume, first: nat, n: nat, q: nat)
    requires v.Valid() && w == v.Format() && 0 < q < n && Consecutive(w, first, n)
    ensures v.Chain(first, q).Cluster? <==> v.Chain(first, q - 1).Cluster? && v.Understood(first + (q - 1))
  {
    hide Volume.Entry, Volume.Leads;
    if v.Chain(first, q - 1).Cluster? {
      ClustersAreRight(v, first, q - 1);
      ConsecutiveNext(w, first, n, q - 1);
      StepIsRight(v, first + (q - 1));
    }
  }

  /** A file that the format places in consecutive clusters, and a read of which the last byte lies in cluster number
      `q`.  Reading it along its chain delivers a piece of what reading it in one piece delivers, and all of it if and
      only if the entries of the clusters before are understood. */
  lemma {:induction false} ChainReadsContiguous(v: Volume, first: nat, n: nat, q: nat, from: nat, len: nat,
                                                data: seq<Byte>, k: nat)
    requires v.Valid() && v.InData(first) && first + n <= v.Limit()
    requires Consecutive(v.Format(), first, n)
    requires 0 < len && q < n && q * v.clustSize < from + len <= (q + 1) * v.clustSize
    requires Delivers(v, first, from, len, data, k) || (data == [] && Fails(v, first, from, len, k))
    ensures from + |data| <= |v.DataFrom(first)| && data == v.DataFrom(first)[from..from + |data|]
    ensures |data| == len <==> forall c :: first <= c < first + q ==> v.Understood(c)
  {
    ConsecutivePiece(v, v.Format(), first, n, q, from, len, data, k);
    ConsecutiveReached(v, first, n, q);
    ReadsWhole(v, first, q, from, len, data, k);
  }

  lemma {:induction false} ConsecutivePiece(v: Volume, w: Volume, first: nat, n: nat, q: nat, from: nat, len: nat,
                                            data: seq<Byte>, k: nat)
    requires v.Valid() && w == v.Format() && v.InData(first) && first + n <= v.Limit() && Consecutive(w, first, n)
    requires q < n && from + len <= (q + 1) * v.clustSize
    requires Delivers(v, first, from, len, data, k) || data == []
    ensures from + |data| <= |v.DataFrom(first)| && data == v.DataFrom(first)[from..from + |data|]
  {
    Arith.MulMonotone(q + 1, n, v.clustSize);
    FormatValid(v);
    SameData(v, w, first);
    if Delivers(v, first, from, len, data, k) {
      DeliveryIsRight(v, first, from, len, data, k);
      ContiguousBytes(w, first, n, from, data, k);
    } else {
      EmptyDelivers(w, first, from);
      ContiguousBytes(w, first, n, from, [], 0);
    }
  }

  lemma EmptyDelivers(v: Volume, first: nat, from: nat)
    requires v.Valid()
    ensures Delivers(v, first, from, 0, [], 0)
  {
  }

  /** A read is complete if and only if the chain reaches the cluster of its last byte. */
  lemma {:induction false} ReadsWhole(v: Volume, first: nat, q: nat, from: nat, len: nat, data: seq<Byte>, k: nat)
    requires v.Valid() && 0 < len && q * v.clustSize < from + len <= (q + 1) * v.clustSize
    requires Delivers(v, first, from, len, data, k) || (data == [] && Fails(v, first, from, len, k))
    ensures |data| == len <==> v.Chain(first, q).Cluster?
  {
    if k <= q {
      Arith.MulMonotone(k, q, v.clustSize);
      if !v.Chain(first, k).Cluster? {
        ChainStops(v, first, k, q);
      }
    } else {
      Arith.MulMonotone(q + 1, k, v.clustSize);
    }
    if v.Has(first, k) {
      FileLength(v, first, k);
    }
  }

  /** On exFAT this means: if and only if cluster number `q` is the first of the file or not one of the last two of
      the volume. */
  lemma ExfatReadsContiguous(v: Volume, first: nat, n: nat, q: nat, from: nat, len: nat, data: seq<Byte>, k: nat)
    requires v.Mounted() && v.Exfat() && v.InData(first) && first + n <= v.Limit()
    requires Consecutive(v.Format(), first, n)
    requires 0 < len && q < n && q * v.clustSize < from + len <= (q + 1) * v.clustSize
    requires Delivers(v, first, from, len, data, k) || (data == [] && Fails(v, first, from, len, k))
    ensures |data| == len <==> q == 0 || first + q < v.numClust
  {
    ChainReadsContiguous(v, first, n, q, from, len, data, k);
    forall c | first <= c < first + q
      ensures v.Understood(c) <==> c + 1 < v.numClust
    {
      ConsecutiveNext(v.Format(), first, n, c - first);
      FormatEntry(v, c);
    }
    if q > 0 {
      var _ := v.Understood(first + (q - 1));
    }
  }

  lemma SameSlice(f: seq<Byte>, g: seq<Byte>, from: nat, end: nat)
    requires from <= end <= |f| <= |g| && g[..|f|] == f
    ensures g[from..end] == f[from..end]
  {
    forall i | from <= i < end
      ensures g[i] == f[i]
    {
      assert g[..|f|][i] == g[i];
    }
  }

  // ---------- The driver ----------

  /** The part of struct fat_superblock that changes while a file is read. */
  class Reader {
    const v: Volume
    const window: array<Byte>    // FAT_BUF
    var cachedFat: int
    var first: nat               // file_cluster
    var contigSize: nat
    var curNum: nat              // current_cluster_num
    var curCluster: nat
    var filepos: nat

    /** The window holds the part of the table that starts at cachedFat, unless nothing has been read yet. */
    ghost predicate WindowOk()
      reads this, window
    {
      && v.Valid() && window.Length == FAT_CACHE_SIZE
      && (cachedFat == -2 * FAT_CACHE_SIZE || (cachedFat >= 0 && WindowHolds(v, window[..], cachedFat)))
    }

    /** (current_cluster_num, current_cluster) is a position of the file's chain, or the file is new. */
    ghost predicate Valid()
      reads this, window
    {
      && WindowOk() && v.InData(first)
      && (curNum == MAXINT || v.Chain(first, curNum) == Cluster(curCluster))
    }

    /** What fat_mount leaves behind. */
    constructor (v: Volume)
      requires v.Valid()
      ensures WindowOk() && this.v == v && fresh(window)
    {
      this.v := v;
      window := new Byte[FAT_CACHE_SIZE];
      cachedFat := -2 * FAT_CACHE_SIZE;
      first, contigSize, curNum, curCluster, filepos := 0, 0, 0, 0, 0;
    }

    /** What fat_dir leaves behind when it has found the file. */
    method Open(cluster: nat, contig: nat)
      requires WindowOk() && v.InData(cluster)
      modifies this`first, this`contigSize, this`filepos, this`curNum
      ensures Valid() && first == cluster && contigSize == contig && filepos == 0
    {
      first, contigSize := cluster, contig;
      filepos, curNum := 0, MAXINT;
    }

    /** The entry of cluster `c`, from the window. */
    method Extract(entry: nat, ghost c: nat, behind: seq<Byte>) returns (cluster: nat)
      requires WindowOk() && entry == v.Nibble(c) && |behind| == 3
      requires 0 <= cachedFat <= entry && entry - cachedFat + v.fatSize <= 2 * FAT_CACHE_SIZE
      ensures cluster == v.Entry(c)
    {
      var pos := entry - cachedFat;
      WindowEntry(v, window[..], behind, cachedFat, c);
      cluster := Select(v.fatSize, pos, Load(window[..], behind, pos / 2));
    }

    /** Follows the chain one step from cluster `c`; `behind` are the bytes behind the window. */
    method Step(c: nat, behind: seq<Byte>) returns (next: Link)
      requires WindowOk() && c < v.Limit() && |behind| == 3
      modifies this`cachedFat, window
      ensures WindowOk() && next == v.Next(c)
    {
      var entry := v.Nibble(c);
      var unsigned := if cachedFat < 0 then cachedFat + WORD_LIMIT else cachedFat;
      if entry < unsigned || entry - cachedFat + v.fatSize > 2 * FAT_CACHE_SIZE {
        LoadWindow(c);
      }
      var cluster := Extract(entry, c, behind);
      next := if cluster >= v.eofMarker then End
              else if cluster < 2 || cluster >= v.numClust then Corrupt else Cluster(cluster);
    }

    method LoadWindow(c: nat)
      requires WindowOk() && c < v.Limit()
      modifies this`cachedFat, window
      ensures WindowOk() && 0 <= cachedFat <= v.Nibble(c)
      ensures v.Nibble(c) - cachedFat + v.fatSize <= 2 * FAT_CACHE_SIZE
    {
      cachedFat := v.WindowStart(v.Nibble(c));
      WindowFits(v, c);
      ReadFat(cachedFat / 2);
    }

    method ReadFat(from: nat)
      requires window.Length == FAT_CACHE_SIZE && from + FAT_CACHE_SIZE <= |v.fat|
      modifies window
      ensures window[..] == v.fat[from..from + FAT_CACHE_SIZE]
    {
      forall i | 0 <= i < FAT_CACHE_SIZE {
        window[i] := v.fat[from + i];
      }
    }

    /** Moves the cursor forward to cluster number `logical` of the file. */
    method Advance(logical: nat, behind: seq<Byte>) returns (st: Link)
      requires Valid() && curNum <= logical < MAXINT && |behind| == 3
      modifies this`cachedFat, window, this`curNum, this`curCluster
      ensures Valid() && curNum <= logical
      ensures st == v.Chain(first, logical)
      ensures st.Cluster? ==> curNum == logical && curCluster == st.c
      ensures !st.Cluster? ==> v.Chain(first, curNum).Cluster? && v.Chain(first, curNum + 1) == st
    {
      while logical > curNum
        invariant Valid() && curNum <= logical
        decreases logical - curNum
      {
        ChainInData(v, first, curNum);
        var next := Step(curCluster, behind);
        if !next.Cluster? {
          ChainStops(v, first, curNum + 1, logical);
          return next;
        }
        curCluster, curNum := next.c, curNum + 1;
      }
      st := Cluster(curCluster);
    }

    /** What has been read so far, up to the end of cluster number `logical` - 1. */
    ghost predicate Sofar(from: nat, data: seq<Byte>, logical: nat)
      reads this
    {
      data != [] ==>
        && v.Has(first, logical)
        && from + |data| <= |v.File(first, logical)| && data == v.File(first, logical)[from..from + |data|]
    }

    /** One round of the loop: what cluster number `logical` has of the `left` bytes still wanted. */
    method ReadCluster(logical: nat, offset: nat, left: nat, behind: seq<Byte>, sofar: seq<Byte>, ghost from: nat)
      returns (st: Link, data: seq<Byte>, ghost k: nat)
      requires Valid() && curNum <= logical < MAXINT && |behind| == 3 && left > 0
      requires offset < v.clustSize && filepos == from + |sofar| == logical * v.clustSize + offset
      requires Sofar(from, sofar, logical)
      modifies this`cachedFat, window, this`curNum, this`curCluster, this`filepos
      ensures Valid() && curNum <= logical
      ensures st.Cluster? ==>
                && Sofar(from, data, logical + 1) && filepos == from + |data|
                && |sofar| < |data| <= |sofar| + left
                && (|data| < |sofar| + left ==> filepos == (logical + 1) * v.clustSize)
      ensures st == End ==> Delivers(v, first, from, |sofar| + left, sofar, k)
      ensures st == End ==> data == sofar && filepos == old(filepos)
      ensures st == Corrupt ==>
                0 < k <= logical && v.Chain(first, k - 1).Cluster? && v.Chain(first, k) == Corrupt
    {
      st := Advance(logical, behind);
      k := curNum + 1;
      if !st.Cluster? {
        data := sofar;
        if st == End {
          ReachedEnd(v, first, k, logical, offset);
        }
        return;
      }
      var size := v.clustSize - offset;
      if size > left {
        size := left;
      }
      ChainInData(v, first, logical);
      FileGrows(v, first, logical, curCluster, from, sofar, offset, size);
      Arith.MulSucc(logical, v.clustSize);
      data := sofar + v.clusters[curCluster - 2][offset..offset + size];
      filepos := filepos + size;
    }

    /** Reads `len` bytes at the file position along the chain.  What it delivers is right by the format; that it stops
        at the file's end, or fails at a corrupt cluster, is so if and only if the last entry it met is understood. */
    method ReadChain(len: nat, behind: seq<Byte>) returns (ok: bool, data: seq<Byte>, ghost k: nat)
      requires Valid() && filepos + len <= MAXINT && |behind| == 3
      modifies this`cachedFat, window, this`curNum, this`curCluster, this`filepos
      ensures Valid()
      ensures ok ==> Delivers(v, first, old(filepos), len, data, k) && filepos == old(filepos) + |data|
      ensures ok ==> (Delivers(v.Format(), first, old(filepos), len, data, k) <==>
                      |data| == len || LastUnderstood(v, first, k))
      ensures !ok ==> data == [] && Fails(v, first, old(filepos), len, k)
      ensures !ok ==> (Fails(v.Format(), first, old(filepos), len, k) <==> LastUnderstood(v, first, k))
    {
      ok, data, k := ReadLoop(len, behind);
      if ok {
        DeliveryIsRight(v, first, old(filepos), len, data, k);
      } else {
        FailureIsRight(v, first, old(filepos), len, k);
      }
    }

    /** The loop over the clusters. */
    method ReadLoop(len: nat, behind: seq<Byte>) returns (ok: bool, data: seq<Byte>, ghost k: nat)
      requires Valid() && filepos + len <= MAXINT && |behind| == 3
      modifies this`cachedFat, window, this`curNum, this`curCluster, this`filepos
      ensures Valid()
      ensures ok ==> Delivers(v, first, old(filepos), len, data, k) && filepos == old(filepos) + |data|
      ensures !ok ==> data == [] && Fails(v, first, old(filepos), len, k)
    {
      hide Volume.File, Volume.Next;
      data, k := [], 0;
      if len == 0 {
        return true, data, k;
      }
      var logical, offset := Split(filepos);
      QuotientBelow(logical, offset, v.clustSize);
      if logical < curNum {
        curNum, curCluster := 0, first;
      }
      ghost var from := filepos;
      var left := len;
      while left > 0
        invariant Valid() && filepos == from + |data| && 0 <= left && left + |data| == len
        invariant curNum <= logical && Sofar(from, data, logical)
        invariant left > 0 ==> 0 <= offset < v.clustSize && filepos == logical * v.clustSize + offset
      {
        QuotientBelow(logical, offset, v.clustSize);
        var st;
        st, data, k := ReadCluster(logical, offset, left, behind, data, from);
        if st == End {
          return true, data, k;
        }
        if st == Corrupt {
          Arith.MulMonotone(k, logical, v.clustSize);
          return false, [], k;
        }
        left := len - |data|;
        logical := logical + 1;
        offset := 0;
      }
      ok, k := true, logical;
    }

    method Split(pos: nat) returns (logical: nat, offset: nat)
      requires v.Valid()
      ensures pos == logical * v.clustSize + offset && offset < v.clustSize
    {
      logical, offset := pos / v.clustSize, pos % v.clustSize;
    }

    /** The exFAT path for files without a chain. */
    method ReadContiguous(len: nat) returns (data: seq<Byte>)
      requires Valid() && contigSize <= |v.DataFrom(first)|
      modifies this`filepos, this`curNum, this`curCluster
      ensures Valid() && filepos == old(filepos) + |data|
      ensures if old(filepos) >= contigSize then data == []
              else |data| == (if len < contigSize - old(filepos) then len else contigSize - old(filepos))
                   && data == v.DataFrom(first)[old(filepos)..filepos]
    {
      if filepos >= contigSize {
        return [];
      }
      var size := if filepos + len > contigSize then contigSize - filepos else len;
      data := v.DataFrom(first)[filepos..filepos + size];
      filepos := filepos + size;
      curNum, curCluster := 0, first;
    }
  }

  /** The window that is loaded for an entry lies in the table and holds the entry. */
  lemma WindowFits(v: Volume, c: nat)
    requires v.Valid() && c < v.Limit()
    ensures var start := v.WindowStart(v.Nibble(c));
            && start <= v.Nibble(c) && v.Nibble(c) - start + v.fatSize <= 2 * FAT_CACHE_SIZE
            && start % 1024 == 0 && start / 2 + FAT_CACHE_SIZE <= |v.fat|
  {
    WindowInTable(v.Nibble(c), v.Nibble(v.Limit()));
  }

  lemma WindowInTable(n: nat, last: nat)
    requires n <= last
    ensures n / 1024 * 1024 <= n && n - n / 1024 * 1024 < 1024
    ensures n / 1024 * 1024 / 2 <= last / 1024 * 1024 / 2
  {
  }

  lemma QuotientBelow(q: nat, r: nat, m: nat)
    requires m >= 512 && q * m + r < MAXINT
    ensures q < MAXINT
  {
    Arith.MulMonotone(1, m, q);
  }

  /** When the chain ends before cluster `logical`, the read stops at the end of the file. */
  lemma ReachedEnd(v: Volume, first: nat, k: nat, logical: nat, offset: nat)
    requires v.Valid() && v.InData(first) && 0 < k <= logical
    requires v.Chain(first, k) == End && v.Chain(first, k - 1).Cluster?
    ensures v.Has(first, k) && |v.File(first, k)| <= logical * v.clustSize + offset
    ensures v.Has(first, logical) ==> k == logical
  {
    ChainInData(v, first, k - 1);
    FileLength(v, first, k);
    Arith.MulMonotone(k, logical, v.clustSize);
    var _ := v.Chain(first, k);
  }
}
