/**
 Tables of a FAT volume as they are written: the bytes of a list of entries, the entries of a list of files, and what
 reading such a file delivers (loader/filesys/fsys_fat.c).
 */
module FatTables {
  import opened Common
  import Arith
  import opened FatFile

  // ---------- The bytes of a table ----------

  predicate FitEntries(bits: nat, es: seq<nat>) {
    forall i :: 0 <= i < |es| ==> es[i] < if bits == 12 then 0x1000 else if bits == 16 then 0x1_0000 else 0x1_0000_0000
  }

  /** Two entries of 12 bits take three bytes. */
  function Bytes12(es: seq<nat>): seq<Byte>
    requires FitEntries(12, es)
  {
    if es == [] then []
    else
      var a: Byte, b: Byte := es[0] % 0x100, es[0] / 0x100;
      if |es| == 1 then [a, b]
      else
        var c: Byte, d: Byte := b + es[1] % 0x10 * 0x10, es[1] / 0x10;
        [a, c, d] + Bytes12(es[2..])
  }

  function Bytes16(es: seq<nat>): seq<Byte>
    requires FitEntries(16, es)
  {
    if es == [] then []
    else
      var a: Byte, b: Byte := es[0] % 0x100, es[0] / 0x100;
      [a, b] + Bytes16(es[1..])
  }

  function Bytes32(es: seq<nat>): seq<Byte>
    requires FitEntries(32, es)
  {
    if es == [] then []
    else
      var a: Byte, b: Byte := es[0] % 0x100, es[0] / 0x100 % 0x100;
      var c: Byte, d: Byte := es[0] / 0x1_0000 % 0x100, es[0] / 0x100_0000;
      [a, b, c, d] + Bytes32(es[1..])
  }

  /** The table of the volume, whose entries are `bits` wide, starts with these. */
  predicate HasTable(v: Volume, bits: nat, es: seq<nat>) {
    && FitEntries(bits, es)
    && match bits
       case 12 => v.fatSize == 3 && Bytes12(es) <= v.fat
       case 16 => v.fatSize == 4 && Bytes16(es) <= v.fat
       case 32 => v.fatSize == 8 && Bytes32(es) <= v.fat
       case _ => false
  }

  lemma PackedPair(x: nat, y: nat)
    requires x < 0x1000 && y < 0x1000
    ensures Packed(3, false, x % 0x100, x / 0x100) == x
    ensures var middle := x / 0x100 + y % 0x10 * 0x10;
      Packed(3, false, x % 0x100, middle) == x && Packed(3, true, middle, y / 0x10) == y
  {
    var middle := x / 0x100 + y % 0x10 * 0x10;
    Arith.DivMod(middle, 16, y % 0x10, x / 0x100);
    Arith.DivMod(x / 0x100, 16, 0, x / 0x100);
  }

  lemma OddHalf(c: nat)
    requires c >= 2
    ensures 3 * c / 2 == 3 * (c - 2) / 2 + 3 && c % 2 == (c - 2) % 2
  {
  }

  lemma {:induction false} Pair12(es: seq<nat>)
    requires FitEntries(12, es) && es != []
    ensures |Bytes12(es)| >= 2 && Packed(3, false, Bytes12(es)[0], Bytes12(es)[1]) == es[0]
    ensures |es| > 1 ==>
              && FitEntries(12, es[2..]) && |Bytes12(es)| == 3 + |Bytes12(es[2..])|
              && Packed(3, true, Bytes12(es)[1], Bytes12(es)[2]) == es[1]
              && forall i :: 0 <= i < |Bytes12(es[2..])| ==> Bytes12(es)[3 + i] == Bytes12(es[2..])[i]
  {
    hide Packed;
    PackedPair(es[0], if |es| > 1 then es[1] else 0);
  }

  lemma {:induction false} Entry12(es: seq<nat>, c: nat)
    requires FitEntries(12, es) && c < |es|
    ensures var b, t := 3 * c / 2, Bytes12(es);
      b + 1 < |t| && Packed(3, c % 2 == 1, t[b], t[b + 1]) == es[c]
    decreases c
  {
    hide Packed, Bytes12;
    Pair12(es);
    if c >= 2 {
      Entry12(es[2..], c - 2);
      OddHalf(c);
    }
  }

  lemma {:induction false} Entry16(es: seq<nat>, c: nat)
    requires FitEntries(16, es) && c < |es|
    ensures var b, t := 2 * c, Bytes16(es);
      b + 1 < |t| && Packed(4, false, t[b], t[b + 1]) == es[c]
    decreases c
  {
    if c >= 1 {
      Entry16(es[1..], c - 1);
      var b, t := 2 * (c - 1), Bytes16(es[1..]);
      assert forall i :: 0 <= i < |t| ==> Bytes16(es)[i + 2] == t[i];
    }
  }

  lemma WordSplits(e: nat)
    requires e < 0x1_0000_0000
    ensures WordOf(e % 0x100, e / 0x100 % 0x100, e / 0x1_0000 % 0x100, e / 0x100_0000) == e
  {
    var a := e / 0x100;
    var b := a / 0x100;
    Arith.DivMod(e, 0x1_0000, b, a % 0x100 * 0x100 + e % 0x100);
    Arith.DivMod(e, 0x100_0000, b / 0x100, b % 0x100 * 0x1_0000 + a % 0x100 * 0x100 + e % 0x100);
  }

  lemma {:induction false} Entry32(es: seq<nat>, c: nat)
    requires FitEntries(32, es) && c < |es|
    ensures var b, t := 4 * c, Bytes32(es);
      b + 3 < |t| && WordOf(t[b], t[b + 1], t[b + 2], t[b + 3]) == es[c]
    decreases c
  {
    if c == 0 {
      WordSplits(es[0]);
    } else {
      Entry32(es[1..], c - 1);
      var b, t := 4 * (c - 1), Bytes32(es[1..]);
      assert forall i :: 0 <= i < |t| ==> Bytes32(es)[i + 4] == t[i];
    }
  }

  lemma SameByte(v: Volume, t: seq<Byte>, i: nat)
    requires t <= v.fat && i < |t|
    ensures v.FatByte(i) == t[i]
  {
  }

  lemma {:induction false} Written12(v: Volume, es: seq<nat>, c: nat)
    requires FitEntries(12, es) && v.fatSize == 3 && Bytes12(es) <= v.fat && c < |es|
    ensures v.Entry(c) == es[c]
  {
    hide Bytes12, Volume.FatByte, FitEntries, Packed;
    assert 3 * c % 2 == c % 2;
    Entry12(es, c);
    SameByte(v, Bytes12(es), 3 * c / 2);
    SameByte(v, Bytes12(es), 3 * c / 2 + 1);
  }

  lemma {:induction false} Written16(v: Volume, es: seq<nat>, c: nat)
    requires FitEntries(16, es) && v.fatSize == 4 && Bytes16(es) <= v.fat && c < |es|
    ensures v.Entry(c) == es[c]
  {
    hide Bytes16, Volume.FatByte, FitEntries;
    Entry16(es, c);
    SameByte(v, Bytes16(es), 2 * c);
    SameByte(v, Bytes16(es), 2 * c + 1);
  }

  lemma {:induction false} Written32(v: Volume, es: seq<nat>, c: nat)
    requires FitEntries(32, es) && v.fatSize == 8 && Bytes32(es) <= v.fat && c < |es|
    ensures v.Entry(c) == es[c]
  {
    hide Bytes32, Volume.FatByte, FitEntries, WordOf;
    Entry32(es, c);
    SameByte(v, Bytes32(es), 4 * c);
    SameByte(v, Bytes32(es), 4 * c + 1);
    SameByte(v, Bytes32(es), 4 * c + 2);
    SameByte(v, Bytes32(es), 4 * c + 3);
  }

  lemma EntryIsWritten(v: Volume, bits: nat, es: seq<nat>, c: nat)
    requires HasTable(v, bits, es) && c < |es|
    ensures v.Entry(c) == es[c]
  {
    hide Bytes12, Bytes16, Bytes32, FitEntries, Volume.Entry;
    match bits
    case 12 => Written12(v, es, c);
    case 16 => Written16(v, es, c);
    case _ => Written32(v, es, c);
  }

  /** The driver goes from cluster `c` where its entry says. */
  lemma StepFollowsTable(v: Volume, bits: nat, es: seq<nat>, c: nat)
    requires HasTable(v, bits, es) && c < |es|
    ensures v.Next(c) == if es[c] >= v.eofMarker then End
                         else if 2 <= es[c] < v.numClust then Cluster(es[c]) else Corrupt
  {
    EntryIsWritten(v, bits, es, c);
  }

  // ---------- The entries of a list of files ----------

  /** Files share no cluster, and none has a cluster twice. */
  predicate Disjoint(chains: seq<seq<nat>>) {
    && (forall k, i, j :: 0 <= k < |chains| && 0 <= i < j < |chains[k]| ==> chains[k][i] != chains[k][j])
    && (forall k, m, c :: 0 <= k < m < |chains| && c in chains[k] ==> c !in chains[m])
  }

  function Index(chain: seq<nat>, c: nat): (i: nat)
    requires c in chain
    ensures i < |chain| && chain[i] == c
  {
    if chain[0] == c then 0 else 1 + Index(chain[1..], c)
  }

  /** What is written for cluster `c`: the next cluster of its file, or `eof` if that is its last; 0 if it is free. */
  function EntryFor(chains: seq<seq<nat>>, c: nat, eof: nat): nat {
    if chains == [] then 0
    else if c in chains[0] then
      var i := Index(chains[0], c) + 1;
      if i < |chains[0]| then chains[0][i] else eof
    else EntryFor(chains[1..], c, eof)
  }

  /** The first `n` entries, the first two of which are not those of clusters. */
  function Entries(chains: seq<seq<nat>>, n: nat, media: nat, eof: nat): (es: seq<nat>)
    ensures |es| == n
  {
    seq(n, c requires 0 <= c < n => if c == 0 then media else if c == 1 then eof else EntryFor(chains, c, eof))
  }

  lemma {:induction false} EntryForLinks(chains: seq<seq<nat>>, k: nat, i: nat, eof: nat)
    requires Disjoint(chains) && k < |chains| && i < |chains[k]|
    ensures EntryFor(chains, chains[k][i], eof) == if i + 1 < |chains[k]| then chains[k][i + 1] else eof
    decreases k
  {
    var c := chains[k][i];
    if k == 0 {
      assert Index(chains[0], c) == i;
    } else {
      assert c in chains[k];
      assert c !in chains[0];
      EntryForLinks(chains[1..], k - 1, i, eof);
    }
  }

  /** A volume whose table has been written for these files. */
  ghost predicate HasFiles(v: Volume, bits: nat, chains: seq<seq<nat>>, media: nat, eof: nat) {
    && v.Valid() && Disjoint(chains) && eof >= v.eofMarker && v.Limit() <= v.eofMarker
    && (forall k, i :: 0 <= k < |chains| && 0 <= i < |chains[k]| ==> v.InData(chains[k][i]))
    && HasTable(v, bits, Entries(chains, v.Limit(), media, eof))
  }

  /** How many clusters of a file the driver follows: all, or those before the first that it does not count. */
  function Followed(chain: seq<nat>, numClust: nat): (n: nat)
    requires chain != []
    ensures 0 < n <= |chain| && (n < |chain| ==> chain[n] >= numClust)
    ensures forall i :: 1 <= i < n ==> chain[i] < numClust
  {
    if |chain| == 1 || chain[1] >= numClust then 1 else 1 + Followed(chain[1..], numClust)
  }

  /** The contents of a list of clusters, of which the first of the volume has number 2. */
  function Contents(v: Volume, chain: seq<nat>): seq<Byte>
    requires forall i :: 0 <= i < |chain| ==> v.InData(chain[i])
  {
    if chain == [] then []
    else
      var c := chain[|chain| - 1];
      assert v.InData(c);
      Contents(v, chain[..|chain| - 1]) + v.clusters[c - 2]
  }

  lemma StepIsWritten(v: Volume, bits: nat, chains: seq<seq<nat>>, media: nat, eof: nat, k: nat, i: nat)
    requires HasFiles(v, bits, chains, media, eof) && k < |chains| && i < |chains[k]|
    ensures v.InData(chains[k][i])
    ensures v.Next(chains[k][i]) ==
            if i + 1 == |chains[k]| then End
            else if chains[k][i + 1] < v.numClust then Cluster(chains[k][i + 1]) else Corrupt
  {
    hide HasTable, Disjoint, Volume.Next;
    EntryForLinks(chains, k, i, eof);
    StepFollowsTable(v, bits, Entries(chains, v.Limit(), media, eof), chains[k][i]);
    assert i + 1 < |chains[k]| ==> v.InData(chains[k][i + 1]);
  }

  lemma {:induction false} ChainIsWritten(v: Volume, bits: nat, chains: seq<seq<nat>>, media: nat, eof: nat, k: nat,
                                          i: nat)
    requires HasFiles(v, bits, chains, media, eof) && k < |chains| && chains[k] != []
    requires i <= Followed(chains[k], v.numClust)
    ensures var n := Followed(chains[k], v.numClust);
      v.Chain(chains[k][0], i) == if i < n then Cluster(chains[k][i]) else if n < |chains[k]| then Corrupt else End
  {
    hide HasFiles, Volume.Next, Followed;
    if i > 0 {
      ChainIsWritten(v, bits, chains, media, eof, k, i - 1);
      StepIsWritten(v, bits, chains, media, eof, k, i - 1);
    }
  }

  lemma {:induction false} FileIsWritten(v: Volume, bits: nat, chains: seq<seq<nat>>, media: nat, eof: nat, k: nat,
                                         n: nat)
    requires HasFiles(v, bits, chains, media, eof) && k < |chains| && chains[k] != []
    requires n <= Followed(chains[k], v.numClust)
    ensures v.Has(chains[k][0], n) && v.File(chains[k][0], n) == Contents(v, chains[k][..n])
  {
    hide HasFiles, Volume.Chain, Followed;
    forall i: nat | i < n
      ensures v.Chain(chains[k][0], i) == Cluster(chains[k][i]) && v.InData(chains[k][i])
    {
      ChainIsWritten(v, bits, chains, media, eof, k, i);
      StepIsWritten(v, bits, chains, media, eof, k, i);
    }
    if n > 0 {
      FileIsWritten(v, bits, chains, media, eof, k, n - 1);
      assert chains[k][..n][..n - 1] == chains[k][..n - 1];
    }
  }

  // ---------- Reading a file ----------

  /** The bytes from `from` on of the file, as many as are wanted and there. */
  ghost predicate IsSlice(data: seq<Byte>, file: seq<Byte>, from: nat, len: nat) {
    && |data| == (if from >= |file| then 0 else if len < |file| - from then len else |file| - from)
    && (data != [] ==> data == file[from..from + |data|])
  }

  lemma {:induction false} ContentsLength(v: Volume, chain: seq<nat>)
    requires v.Valid() && forall i :: 0 <= i < |chain| ==> v.InData(chain[i])
    ensures |Contents(v, chain)| == |chain| * v.clustSize
  {
    if chain != [] {
      ContentsLength(v, chain[..|chain| - 1]);
      assert v.InData(chain[|chain| - 1]);
      Arith.MulSucc(|chain| - 1, v.clustSize);
    }
  }

  lemma {:induction false} ContentsPrefix(v: Volume, chain: seq<nat>, n: nat)
    requires forall i :: 0 <= i < |chain| ==> v.InData(chain[i])
    requires n <= |chain|
    ensures Contents(v, chain[..n]) <= Contents(v, chain)
    decreases |chain|
  {
    if n < |chain| {
      ContentsPrefix(v, chain[..|chain| - 1], n);
      assert chain[..|chain| - 1][..n] == chain[..n];
    } else {
      assert chain[..n] == chain;
    }
  }

  /** No position of the chain is a cluster but those of the file that are followed. */
  lemma {:induction false} ChainLength(v: Volume, bits: nat, chains: seq<seq<nat>>, media: nat, eof: nat, k: nat,
                                       i: nat)
    requires HasFiles(v, bits, chains, media, eof) && k < |chains| && chains[k] != []
    ensures var n := Followed(chains[k], v.numClust);
      && (v.Chain(chains[k][0], i).Cluster? <==> i < n)
      && (i >= n ==> v.Chain(chains[k][0], i) == if n < |chains[k]| then Corrupt else End)
  {
    hide HasFiles;
    var n := Followed(chains[k], v.numClust);
    ChainIsWritten(v, bits, chains, media, eof, k, if i < n then i else n);
    if i > n {
      ChainStops(v, chains[k][0], n, i);
    }
  }

  lemma {:induction false} DeliveredIsWritten(v: Volume, bits: nat, chains: seq<seq<nat>>, media: nat, eof: nat,
                                              k: nat, from: nat, len: nat, data: seq<Byte>, n: nat)
    requires HasFiles(v, bits, chains, media, eof) && k < |chains| && chains[k] != []
    requires Delivers(v, chains[k][0], from, len, data, n)
    ensures IsSlice(data, Contents(v, chains[k]), from, len)
    ensures var m := Followed(chains[k], v.numClust);
      0 < len ==> m == |chains[k]| || from + len <= m * v.clustSize
  {
    var chain, m := chains[k], Followed(chains[k], v.numClust);
    assert forall i :: 0 <= i < |chain| ==> v.InData(chain[i]);
    hide HasFiles, Volume.Chain, Volume.File, Contents, Followed;
    ChainLength(v, bits, chains, media, eof, k, m);
    ChainLength(v, bits, chains, media, eof, k, n);
    assert n <= m;
    FileIsWritten(v, bits, chains, media, eof, k, n);
    ContentsPrefix(v, chain, n);
    FileLength(v, chain[0], n);
    ContentsLength(v, chain);
    Arith.MulMonotone(n, m, v.clustSize);
    assert |data| < len ==> n == m == |chain|;
  }

  lemma FailedIsWritten(v: Volume, bits: nat, chains: seq<seq<nat>>, media: nat, eof: nat, k: nat, from: nat,
                        len: nat, n: nat)
    requires HasFiles(v, bits, chains, media, eof) && k < |chains| && chains[k] != []
    requires Fails(v, chains[k][0], from, len, n)
    ensures n == Followed(chains[k], v.numClust) < |chains[k]|
  {
    ChainLength(v, bits, chains, media, eof, k, n - 1);
    ChainLength(v, bits, chains, media, eof, k, n);
  }

  /** On FAT all clusters count. */
  lemma {:induction false} AllFollowed(v: Volume, chain: seq<nat>)
    requires v.Mounted() && !v.Exfat() && chain != [] && forall i :: 0 <= i < |chain| ==> v.InData(chain[i])
    ensures Followed(chain, v.numClust) == |chain|
  {
    if |chain| > 1 {
      assert v.InData(chain[1]);
      AllFollowed(v, chain[1..]);
    }
  }

  /** Reading a file from any position, whatever the window holds: the bytes of its clusters, in order.  On exFAT it
      fails exactly if it needs one behind a cluster that the driver does not count. */
  method ReadWritten(r: Reader, len: nat, behind: seq<Byte>, ghost bits: nat, ghost chains: seq<seq<nat>>,
                     ghost media: nat, ghost eof: nat, ghost k: nat)
    returns (ok: bool, data: seq<Byte>)
    requires r.Valid() && r.filepos + len <= MAXINT && |behind| == 3
    requires HasFiles(r.v, bits, chains, media, eof) && k < |chains| && chains[k] != [] && r.first == chains[k][0]
    modifies r`cachedFat, r.window, r`curNum, r`curCluster, r`filepos
    ensures r.Valid()
    ensures ok ==> IsSlice(data, Contents(r.v, chains[k]), old(r.filepos), len) && r.filepos == old(r.filepos) + |data|
    ensures var m := Followed(chains[k], r.v.numClust);
      len > 0 ==> (ok <==> m == |chains[k]| || old(r.filepos) + len <= m * r.v.clustSize)
    ensures len > 0 && r.v.Mounted() && !r.v.Exfat() ==> ok
  {
    ghost var n;
    ok, data, n := r.ReadChain(len, behind);
    if ok {
      DeliveredIsWritten(r.v, bits, chains, media, eof, k, old(r.filepos), len, data, n);
    } else {
      FailedIsWritten(r.v, bits, chains, media, eof, k, old(r.filepos), len, n);
    }
    if r.v.Mounted() && !r.v.Exfat() {
      AllFollowed(r.v, chains[k]);
    }
  }

  // ---------- Files without a chain ----------

  function Consecutive(first: nat, n: nat): (s: seq<nat>)
    ensures |s| == n
  {
    seq(n, i requires 0 <= i < n => first + i)
  }

  lemma {:induction false} DataSplits(v: Volume, first: nat, n: nat)
    requires 2 <= first && first + n <= v.Limit()
    ensures v.DataFrom(first) == Contents(v, Consecutive(first, n)) + v.DataFrom(first + n)
  {
    if n == 0 {
      EmptyLeft(v.DataFrom(first));
    } else {
      DataSplits(v, first, n - 1);
      assert Consecutive(first, n)[..n - 1] == Consecutive(first, n - 1);
      Assoc(Contents(v, Consecutive(first, n - 1)), v.clusters[first + n - 1 - 2], v.DataFrom(first + n));
    }
  }

  /** A file of `contigSize` bytes in `n` consecutive clusters. */
  method ReadInOnePiece(r: Reader, len: nat, ghost n: nat) returns (data: seq<Byte>)
    requires r.Valid() && r.first + n <= r.v.Limit() && r.contigSize <= n * r.v.clustSize
    modifies r`filepos, r`curNum, r`curCluster
    ensures r.Valid() && r.filepos == old(r.filepos) + |data|
    ensures var file := Contents(r.v, Consecutive(r.first, n));
      r.contigSize <= |file| && IsSlice(data, file[..r.contigSize], old(r.filepos), len)
  {
    hide Contents, Volume.DataFrom;
    DataSplits(r.v, r.first, n);
    ContentsLength(r.v, Consecutive(r.first, n));
    data := r.ReadContiguous(len);
  }

  // ---------- A volume ----------

  const EXAMPLE: Volume :=
    Volume([0xF8, 0xFF, 0xFF, 0x04, 0xF0, 0xFF, 0xFF, 0x0F, 0x00] + seq<Byte>(2048, _ => 0), 3, 6, 0xFF8,
           [seq<Byte>(512, _ => 10), seq<Byte>(512, _ => 20), seq<Byte>(512, _ => 30), seq<Byte>(512, _ => 40)], 512)

  lemma ExampleEntries()
    ensures Entries([[2, 4], [3]], 6, 0xFF8, 0xFFF) == [0xFF8, 0xFFF, 4, 0xFFF, 0xFFF, 0]
  {
    var chains: seq<seq<nat>> := [[2, 4], [3]];
    assert chains[1..] == [[3]] && chains[1..][1..] == [];
    assert Index([2, 4], 2) == 0 && Index([2, 4], 4) == 1 && Index([3], 3) == 0;
    assert EntryFor(chains, 2, 0xFFF) == 4 && EntryFor(chains, 4, 0xFFF) == 0xFFF;
    assert EntryFor(chains, 3, 0xFFF) == EntryFor([[3]], 3, 0xFFF) == 0xFFF;
    assert EntryFor(chains, 5, 0xFFF) == EntryFor([[3]], 5, 0xFFF) == EntryFor([], 5, 0xFFF);
  }

  lemma ExampleBytes()
    ensures Bytes12([0xFF8, 0xFFF, 4, 0xFFF, 0xFFF, 0]) == [0xF8, 0xFF, 0xFF, 0x04, 0xF0, 0xFF, 0xFF, 0x0F, 0x00]
  {
    assert Bytes12([0xFFF, 0]) == [0xFF, 0x0F, 0x00];
    assert Bytes12([4, 0xFFF, 0xFFF, 0]) == [0x04, 0xF0, 0xFF] + Bytes12([0xFFF, 0]);
  }

  /** A table of 12-bit entries for a file in clusters 2 and 4 and one in cluster 3. */
  lemma ExampleHasFiles()
    ensures EXAMPLE.Mounted() && HasFiles(EXAMPLE, 12, [[2, 4], [3]], 0xFF8, 0xFFF)
  {
    hide Bytes12, EntryFor;
    ExampleEntries();
    ExampleBytes();
  }

  /** Bytes 500 to 519 of the first file. */
  method ReadExample() returns (ok: bool, data: seq<Byte>)
    ensures ok && data == seq<Byte>(12, _ => 10) + seq<Byte>(8, _ => 30)
  {
    ExampleHasFiles();
    hide HasFiles;
    var r := new Reader(EXAMPLE);
    r.Open(2, 0);
    r.filepos := 500;
    ok, data := ReadWritten(r, 20, [0, 0, 0], 12, [[2, 4], [3]], 0xFF8, 0xFFF, 0);
    ExampleContents();
  }

  lemma ExampleContents()
    ensures Contents(EXAMPLE, [2, 4]) == seq<Byte>(512, _ => 10) + seq<Byte>(512, _ => 30)
  {
    assert [2, 4][..1] == [2] && [2][..0] == [];
    assert Contents(EXAMPLE, [2]) == [] + seq<Byte>(512, _ => 10);
  }
}
