/**
 The ReiserFS journal as it is written on disk, and what reading through it delivers
 (loader/filesys/fsys_reiserfs.c).

 A log is described by the numbers and contents of the blocks its transactions rewrite, and by the words these take
 up on the disk, each at its place.
 */
module ReiserLog {
  import opened Common
  import Arith
  import opened ReiserJournal

  /** A transaction: the numbers of the blocks it rewrites, and what it writes there. */
  datatype Transaction = Transaction(blocks: seq<Word>, data: seq<seq<Word>>)

  /** Word `i` counted from the start of journal block `pos` is `w`. */
  predicate Stands(v: Volume, pos: nat, i: nat, w: Word) {
    var at := (v.start + pos) * v.blockSize + i;
    at < |v.disk| && v.disk[at] == w
  }

  /** Four characters as a little-endian word. */
  predicate IsText(w: Word, s: string) {
    |s| == 4 && w == s[0] as int + 0x100 * s[1] as int + 0x1_0000 * s[2] as int + 0x100_0000 * s[3] as int
  }

  ghost predicate HasText(v: Volume, pos: nat) {
    && (exists w :: IsText(w, "ReIs") && Stands(v, pos, 1021, w))
    && (exists w :: IsText(w, "ErLB") && Stands(v, pos, 1022, w))
  }

  /** A descriptor: id, length, mount id, the first 1018 block numbers, and the magic text. */
  ghost predicate Descriptor(v: Volume, pos: nat, t: Transaction, id: Word, mount: Word) {
    && Stands(v, pos, 0, id) && |t.blocks| < WORD_LIMIT && Stands(v, pos, 1, |t.blocks|) && Stands(v, pos, 2, mount)
    && (forall i :: 0 <= i < |t.blocks| && i < 1018 ==> Stands(v, pos, 3 + i, t.blocks[i]))
    && HasText(v, pos)
  }

  /** A commit block: id, length, and the other block numbers. */
  ghost predicate Commit(v: Volume, pos: nat, t: Transaction, id: Word) {
    && Stands(v, pos, 0, id) && |t.blocks| < WORD_LIMIT && Stands(v, pos, 1, |t.blocks|)
    && forall i :: 1018 <= i < |t.blocks| ==> Stands(v, pos, 2 + (i - 1018), t.blocks[i])
  }

  ghost predicate Contents(v: Volume, pos: nat, data: seq<Word>) {
    |data| == v.blockSize && forall i :: 0 <= i < |data| ==> Stands(v, pos, i, data[i])
  }

  /** The transaction takes up the blocks from `at` on, which go on at the start of the journal behind its end. */
  ghost predicate LoggedAt(v: Volume, at: nat, t: Transaction, id: Word, mount: Word)
    requires v.count > 0
  {
    && |t.data| == |t.blocks| <= 2036
    && Descriptor(v, at % v.count, t, id, mount)
    && (forall i :: 0 <= i < |t.data| ==> Contents(v, (at + 1 + i) % v.count, t.data[i]))
    && Commit(v, (at + 1 + |t.blocks|) % v.count, t, id)
  }

  /** No transaction of that id starts at block `pos`. */
  ghost predicate NoneAt(v: Volume, pos: nat, id: Word, mount: Word)
    requires v.count > 0
  {
    forall len: Word ::
      !(&& Stands(v, pos, 0, id) && Stands(v, pos, 1, len) && Stands(v, pos, 2, mount) && HasText(v, pos)
        && Stands(v, (pos + 1 + len) % v.count, 0, id) && Stands(v, (pos + 1 + len) % v.count, 1, len))
  }

  /** The log goes on with the transactions `ts`, and no further. */
  ghost predicate LogFrom(v: Volume, at: nat, id: Word, mount: Word, ts: seq<Transaction>)
    requires v.count > 0
    decreases |ts|
  {
    if ts == [] then NoneAt(v, at % v.count, id, mount)
    else
      && LoggedAt(v, at, ts[0], id, mount)
      && LogFrom(v, at + |ts[0].blocks| + 2, (id + 1) % WORD_LIMIT, mount, ts[1..])
  }

  /** A journal whose last transaction to be written back had the number `last`.  The others start at block `offset`.
      The header behind the journal says so. */
  ghost predicate Written(v: Volume, last: Word, offset: Word, mount: Word, ts: seq<Transaction>) {
    && 0 < v.count < WORD_LIMIT && offset < v.count && (v.start + v.count) * v.blockSize + 1024 <= |v.disk|
    && Stands(v, v.count, 0, last) && Stands(v, v.count, 1, offset) && Stands(v, v.count, 2, mount)
    && LogFrom(v, offset, (last + 1) % WORD_LIMIT, mount, ts)
  }

  // ---------- What replaying the log leaves ----------

  function Apply(m: map<Word, seq<Word>>, t: Transaction, n: nat): map<Word, seq<Word>>
    requires n <= |t.blocks| == |t.data|
  {
    if n == 0 then m else Apply(m, t, n - 1)[t.blocks[n - 1] := t.data[n - 1]]
  }

  predicate Proper(ts: seq<Transaction>) { forall k :: 0 <= k < |ts| ==> |ts[k].blocks| == |ts[k].data| }

  /** The blocks of the log with what was written to them last. */
  function Replayed(ts: seq<Transaction>): map<Word, seq<Word>>
    requires Proper(ts)
  {
    if ts == [] then map[] else Apply(Replayed(ts[..|ts| - 1]), ts[|ts| - 1], |ts[|ts| - 1].blocks|)
  }

  /** The first place of a block in a list, which it is in. */
  function Index(blocks: seq<Word>, b: Word): (i: nat)
    requires b in blocks
    ensures i < |blocks| && blocks[i] == b && b !in blocks[..i]
  {
    if blocks[0] == b then 0
    else
      var i := 1 + Index(blocks[1..], b);
      assert blocks[..i] == [blocks[0]] + blocks[1..][..i - 1];
      i
  }

  /** What the last transaction that rewrites a block has for it, first. */
  function Found(ts: seq<Transaction>, b: Word): Option<seq<Word>>
    requires Proper(ts)
  {
    if ts == [] then None
    else
      var t := ts[|ts| - 1];
      if b in t.blocks then Some(t.data[Index(t.blocks, b)]) else Found(ts[..|ts| - 1], b)
  }

  /** No transaction has a block twice. */
  ghost predicate Once(ts: seq<Transaction>) {
    forall k, i, j :: 0 <= k < |ts| && 0 <= i < j < |ts[k].blocks| ==> ts[k].blocks[i] != ts[k].blocks[j]
  }

  lemma {:induction false} ApplyAt(m: map<Word, seq<Word>>, t: Transaction, n: nat, b: Word)
    requires n <= |t.blocks| == |t.data|
    requires forall i, j :: 0 <= i < j < |t.blocks| ==> t.blocks[i] != t.blocks[j]
    ensures b in t.blocks[..n] ==> b in Apply(m, t, n) && Apply(m, t, n)[b] == t.data[Index(t.blocks, b)]
    ensures b !in t.blocks[..n] ==> (b in Apply(m, t, n) <==> b in m) && (b in m ==> Apply(m, t, n)[b] == m[b])
  {
    if n > 0 {
      ApplyAt(m, t, n - 1, b);
      assert t.blocks[..n] == t.blocks[..n - 1] + [t.blocks[n - 1]];
      if b == t.blocks[n - 1] {
        assert b in t.blocks;
        var i := Index(t.blocks, b);
        assert i == n - 1;
      }
    }
  }

  /** If no transaction has a block twice, that is what replaying leaves. */
  lemma {:induction false} FoundIsReplayed(ts: seq<Transaction>, b: Word)
    requires Proper(ts) && Once(ts)
    ensures Found(ts, b) == if b in Replayed(ts) then Some(Replayed(ts)[b]) else None
  {
    if ts != [] {
      var t, front := ts[|ts| - 1], ts[..|ts| - 1];
      assert forall k :: 0 <= k < |front| ==> front[k] == ts[k];
      FoundIsReplayed(front, b);
      ApplyAt(Replayed(front), t, |t.blocks|, b);
      assert t.blocks[..|t.blocks|] == t.blocks;
    }
  }

  // ---------- What the driver sees ----------

  lemma WordStands(v: Volume, pos: nat, i: nat, w: Word)
    ensures Stands(v, pos, i, w) ==> v.JWord(pos, i) == w
    ensures pos <= v.count && i < 1024 && (v.start + v.count) * v.blockSize + 1024 <= |v.disk| ==>
              (Stands(v, pos, i, w) <==> v.JWord(pos, i) == w)
  {
    if pos <= v.count {
      Arith.MulMonotone(v.start + pos, v.start + v.count, v.blockSize);
    }
  }

  lemma MagicIsText(v: Volume, pos: nat)
    requires pos < v.count && (v.start + v.count) * v.blockSize + 1024 <= |v.disk|
    ensures v.HasMagic(pos) <==> HasText(v, pos)
  {
    assert IsText(MAGIC0, "ReIs") && IsText(MAGIC1, "ErLB");
    assert forall w: Word :: IsText(w, "ReIs") ==> w == MAGIC0;
    assert forall w: Word :: IsText(w, "ErLB") ==> w == MAGIC1;
    WordStands(v, pos, 1021, MAGIC0);
    WordStands(v, pos, 1022, MAGIC1);
  }

  /** Transaction number `k` of the log is `t`. */
  ghost predicate Sees(v: Volume, k: nat, t: Transaction)
    requires 0 < v.count && v.FirstUnflushed() < v.count
  {
    && v.AcceptedAt(k) && v.Len(v.DescAt(k)) == |t.blocks| == |t.data| <= 2036
    && (forall i :: 0 <= i < |t.blocks| ==> v.RealBlock(v.DescAt(k), i) == t.blocks[i])
    && (forall i :: 0 <= i < |t.data| ==> v.Block(v.start + v.Wrap(v.DescAt(k) + 1 + i)) == t.data[i])
  }

  lemma WrapAdds(a: nat, b: nat, m: nat)
    requires m > 0
    ensures (a % m + b) % m == (a + b) % m
  {
    Arith.ModShift(a + b, a / m, m);
    assert a + b - a / m * m == a % m + b;
  }

  lemma LoggedIsSeen(v: Volume, at: nat, k: nat, t: Transaction)
    requires 0 < v.count && v.FirstUnflushed() < v.count && (v.start + v.count) * v.blockSize + 1024 <= |v.disk|
    requires v.DescAt(k) == at % v.count && LoggedAt(v, at, t, v.ExpectedId(k), v.HeaderMount())
    ensures Sees(v, k, t) && v.DescAt(k + 1) == (at + |t.blocks| + 2) % v.count
  {
    var d, n := v.DescAt(k), |t.blocks|;
    MagicIsText(v, d);
    WordStands(v, d, 0, v.ExpectedId(k));
    WordStands(v, d, 1, n);
    WordStands(v, d, 2, v.HeaderMount());
    WrapAdds(at, n + 1, v.count);
    var c := v.CommitOf(d);
    assert c == (at + 1 + n) % v.count;
    WordStands(v, c, 0, v.ExpectedId(k));
    WordStands(v, c, 1, n);
    NumbersSeen(v, d, t, v.ExpectedId(k), v.HeaderMount());
    forall i | 0 <= i < n
      ensures v.Block(v.start + v.Wrap(d + 1 + i)) == t.data[i]
    {
      WrapAdds(at, 1 + i, v.count);
      ContentsSeen(v, (at + 1 + i) % v.count, t.data[i]);
    }
    NextDescIsOneStep(v, d);
    WrapAdds(at, 2 + n, v.count);
  }

  lemma NumbersSeen(v: Volume, d: nat, t: Transaction, id: Word, mount: Word)
    requires v.count > 0 && |t.blocks| <= 2036
    requires Descriptor(v, d, t, id, mount) && Commit(v, v.CommitOf(d), t, id)
    ensures forall i :: 0 <= i < |t.blocks| ==> v.RealBlock(d, i) == t.blocks[i]
  {
    forall i | 0 <= i < |t.blocks|
      ensures v.RealBlock(d, i) == t.blocks[i]
    {
      if i < 1018 {
        WordStands(v, d, 3 + i, t.blocks[i]);
      } else {
        WordStands(v, v.CommitOf(d), 2 + (i - 1018), t.blocks[i]);
      }
    }
  }

  lemma ContentsSeen(v: Volume, pos: nat, data: seq<Word>)
    requires Contents(v, pos, data)
    ensures v.Block(v.start + pos) == data
  {
    forall i | 0 <= i < |data|
      ensures v.JWord(pos, i) == data[i]
    {
      WordStands(v, pos, i, data[i]);
    }
  }

  lemma {:induction false} NoneIsSeen(v: Volume, k: nat)
    requires 0 < v.count && v.FirstUnflushed() < v.count && (v.start + v.count) * v.blockSize + 1024 <= |v.disk|
    requires NoneAt(v, v.DescAt(k), v.ExpectedId(k), v.HeaderMount())
    ensures !v.AcceptedAt(k)
  {
    var d, id := v.DescAt(k), v.ExpectedId(k);
    var len := v.Len(d);
    MagicIsText(v, d);
    WordStands(v, d, 0, id);
    WordStands(v, d, 1, len);
    WordStands(v, d, 2, v.HeaderMount());
    WordStands(v, v.CommitOf(d), 0, id);
    WordStands(v, v.CommitOf(d), 1, len);
    assert v.CommitOf(d) == (d + 1 + len) % v.count;
  }

  lemma {:induction false} LogIsSeen(v: Volume, at: nat, k: nat, ts: seq<Transaction>)
    requires 0 < v.count && v.FirstUnflushed() < v.count && (v.start + v.count) * v.blockSize + 1024 <= |v.disk|
    requires v.DescAt(k) == at % v.count && LogFrom(v, at, v.ExpectedId(k), v.HeaderMount(), ts)
    ensures forall j :: 0 <= j < |ts| ==> Sees(v, k + j, ts[j])
    ensures !v.AcceptedAt(k + |ts|)
    decreases |ts|
  {
    if ts == [] {
      NoneIsSeen(v, k);
    } else {
      LoggedIsSeen(v, at, k, ts[0]);
      ExpectedIdStep(v, k);
      LogIsSeen(v, at + |ts[0].blocks| + 2, k + 1, ts[1..]);
      forall j | 0 <= j < |ts|
        ensures Sees(v, k + j, ts[j])
      {
        if j > 0 {
          assert ts[j] == ts[1..][j - 1] && Sees(v, k + 1 + (j - 1), ts[1..][j - 1]);
        }
      }
    }
  }

  /** The driver finds the header's numbers, and the transactions that were written are its longest run. */
  lemma WrittenIsSeen(v: Volume, last: Word, offset: Word, mount: Word, ts: seq<Transaction>)
    requires Written(v, last, offset, mount, ts)
    ensures v.FirstUnflushed() == offset && v.Bounded() && v.IsLongestRun(|ts|)
    ensures forall k :: 0 <= k < |ts| ==> Sees(v, k, ts[k])
  {
    WordStands(v, v.count, 0, last);
    WordStands(v, v.count, 1, offset);
    WordStands(v, v.count, 2, mount);
    Arith.DivMod(offset, v.count, 0, offset);
    LogIsSeen(v, offset, 0, ts);
    forall k: nat | k < |ts|
      ensures v.AcceptedAt(k)
    {
      assert Sees(v, k, ts[k]);
    }
    var _ := v.AcceptedAt(|ts|);
    forall k: nat | v.IsRun(k + 1)
      ensures v.Len(v.DescAt(k)) <= 2 * HALF
    {
      assert Sees(v, k, ts[k]);
    }
  }

  lemma {:induction false} FirstIsIndex(v: Volume, k: nat, t: Transaction, b: Word)
    requires 0 < v.count && v.FirstUnflushed() < v.count && Sees(v, k, t)
    ensures Rewrites(v, v.DescAt(k), b) <==> b in t.blocks
    ensures b in t.blocks ==>
              var i := First(v, v.DescAt(k), b);
              i == Index(t.blocks, b) && v.Block(v.start + v.Wrap(v.DescAt(k) + 1 + i)) == t.data[i]
  {
    var d := v.DescAt(k);
    FirstFromIsFirst(v, d, b, 0, v.Len(d));
    var r := First(v, d, b);
    if b in t.blocks {
      var i := Index(t.blocks, b);
      assert v.RealBlock(d, i) == b;
      assert forall j :: 0 <= j < i ==> t.blocks[..i][j] == t.blocks[j];
    }
    assert r < v.Len(d) ==> t.blocks[r] == b;
  }

  lemma {:induction false} FoundStep(ts: seq<Transaction>, n: nat, b: Word)
    requires Proper(ts) && 0 < n <= |ts|
    ensures Found(ts[..n], b) ==
            if b in ts[n - 1].blocks then Some(ts[n - 1].data[Index(ts[n - 1].blocks, b)]) else Found(ts[..n - 1], b)
  {
    assert ts[..n][..n - 1] == ts[..n - 1] && ts[..n][n - 1] == ts[n - 1];
  }

  lemma {:induction false} TranslateIsFound(v: Volume, ts: seq<Transaction>, n: nat, b: Word)
    requires 0 < v.count && v.FirstUnflushed() < v.count && n <= |ts| && Proper(ts)
    requires forall k :: 0 <= k < |ts| ==> Sees(v, k, ts[k])
    ensures match Found(ts[..n], b)
            case Some(data) => v.Block(Translate(v, n, b)) == data
            case None => Translate(v, n, b) == b
  {
    hide First, Sees, Rewrites;
    if n > 0 {
      FoundStep(ts, n, b);
      TranslateIsFound(v, ts, n - 1, b);
      FirstIsIndex(v, n - 1, ts[n - 1], b);
    }
  }

  /** The words from `from` on of block `b` as the volume has it outside the log. */
  ghost predicate Plain(v: Volume, b: Word, from: nat, data: seq<Word>) {
    forall i :: 0 <= i < |data| ==>
      b * v.blockSize + from + i < |v.disk| ==> data[i] == v.disk[b * v.blockSize + from + i]
  }

  /** `data` are the words from `from` on of what was logged for block `b`, or else of the block itself. */
  ghost predicate IsRead(v: Volume, logged: Option<seq<Word>>, b: Word, from: nat, len: nat, data: seq<Word>) {
    match logged
    case Some(all) => from + len <= |all| && data == all[from..from + len]
    case None => |data| == len && Plain(v, b, from, data)
  }

  lemma {:induction false} ReadIsFound(v: Volume, ts: seq<Transaction>, n: nat, b: Word, from: nat, len: nat)
    requires 0 < v.count && v.FirstUnflushed() < v.count && n <= |ts| && Proper(ts) && from + len <= v.blockSize
    requires forall k :: 0 <= k < |ts| ==> Sees(v, k, ts[k])
    ensures IsRead(v, Found(ts[..n], b), b, from, len, v.Read(Translate(v, n, b), from, len))
  {
    hide Sees;
    TranslateIsFound(v, ts, n, b);
    ReadIsSlice(v, Translate(v, n, b), from, len);
  }

  method MountWritten(v: Volume, size: nat, ghost last: Word, ghost offset: Word, ghost mount: Word,
                      ghost ts: seq<Transaction>) returns (j: Journal)
    requires Written(v, last, offset, mount, ts) && size > 0
    ensures j.Valid() && j.v == v && j.firstDesc == offset && j.transactions == |ts| % 0x1_0000
  {
    hide Sees, LogFrom;
    WrittenIsSeen(v, last, offset, mount, ts);
    j := new Journal(v, size);
    j.JournalInit();
    ghost var n: nat :| v.IsLongestRun(n) && j.transactions == Low16(n);
    LongestRunIsUnique(v, n, |ts|);
  }

  /** Mounting a volume with such a journal, and reading a block: what comes is what was logged last for it, or else
      the block itself.  The transactions are counted modulo 2^16. */
  method ReadLogged(v: Volume, size: nat, ghost last: Word, ghost offset: Word, ghost mount: Word,
                    ghost ts: seq<Transaction>, b: Word, from: nat, len: nat)
    returns (j: Journal, data: seq<Word>)
    requires Written(v, last, offset, mount, ts) && Proper(ts) && size > 0 && from + len <= v.blockSize
    ensures j.firstDesc == offset && j.transactions == |ts| % 0x1_0000
    ensures IsRead(v, Found(ts[..|ts| % 0x1_0000], b), b, from, len, data)
    ensures |ts| < 0x1_0000 && Once(ts) ==>
              IsRead(v, if b in Replayed(ts) then Some(Replayed(ts)[b]) else None, b, from, len, data)
  {
    hide Sees, LogFrom, IsRead, Replayed, Found, Translate;
    j := MountWritten(v, size, last, offset, mount, ts);
    WrittenIsSeen(v, last, offset, mount, ts);
    ReadIsFound(v, ts, j.transactions, b, from, len);
    data := j.BlockRead(b, from, len);
    if |ts| < 0x1_0000 && Once(ts) {
      assert ts[..|ts|] == ts;
      FoundIsReplayed(ts, b);
    }
  }

  // ---------- A journal that goes over its end ----------

  /** Word `i` of journal block `pos` of a journal of 16 blocks: transaction 8 of mount 3, which rewrites blocks 500
      and 501, starts in the last of them. */
  function ExampleWord(pos: nat, i: nat): Word {
    if pos == 15 then
      if i == 0 then 8 else if i == 1 then 2 else if i == 2 then 3 else if i == 3 then 500 else if i == 4 then 501
      else if i == 1021 then 0x7349_6552 else if i == 1022 then 0x424C_7245 else 0
    else if pos == 0 then 10
    else if pos == 1 then 20
    else if pos == 2 then if i == 0 then 8 else if i == 1 then 2 else 0
    else if pos == 16 then if i == 0 then 7 else if i == 1 then 15 else if i == 2 then 3 else 0
    else 0
  }

  ghost predicate IsExample(v: Volume) {
    && v.blockSize == 1024 && v.start == 1 && v.count == 16 && |v.disk| == 20480
    && forall pos: nat, i: nat :: pos <= 16 && i < 1024 ==> Stands(v, pos, i, ExampleWord(pos, i))
  }

  method Example() returns (v: Volume)
    ensures IsExample(v)
  {
    var word := (k: nat) => if k < 1024 then 0 else ExampleWord(k / 1024 - 1, k % 1024);
    v := Volume(seq<Word>(20480, word), 1024, 1, 16);
    forall pos: nat, i: nat | pos <= 16 && i < 1024
      ensures Stands(v, pos, i, ExampleWord(pos, i))
    {
      Arith.DivMod((1 + pos) * 1024 + i, 1024, 1 + pos, i);
      assert v.disk[(1 + pos) * 1024 + i] == word((1 + pos) * 1024 + i);
    }
  }

  function ExampleLog(): Transaction {
    Transaction([500, 501], [seq<Word>(1024, _ => 10), seq<Word>(1024, _ => 20)])
  }

  lemma ExampleContents(v: Volume, pos: nat, w: Word)
    requires IsExample(v) && pos <= 16 && forall i: nat :: ExampleWord(pos, i) == w
    ensures Contents(v, pos, seq<Word>(1024, _ => w))
  {
    forall i: nat | i < 1024
      ensures Stands(v, pos, i, w)
    {
      assert Stands(v, pos, i, ExampleWord(pos, i));
    }
  }

  lemma ExampleLogged(v: Volume)
    requires IsExample(v)
    ensures LoggedAt(v, 15, ExampleLog(), 8, 3)
  {
    hide Stands;
    var t := ExampleLog();
    assert ExampleWord(15, 0) == 8 && ExampleWord(15, 1) == 2 && ExampleWord(15, 2) == 3;
    assert ExampleWord(15, 3) == 500 && ExampleWord(15, 4) == 501;
    assert IsText(0x7349_6552, "ReIs") && ExampleWord(15, 1021) == 0x7349_6552;
    assert IsText(0x424C_7245, "ErLB") && ExampleWord(15, 1022) == 0x424C_7245;
    ExampleContents(v, 0, 10);
    ExampleContents(v, 1, 20);
    assert ExampleWord(2, 0) == 8 && ExampleWord(2, 1) == 2;
  }

  lemma ExampleEnds(v: Volume)
    requires IsExample(v)
    ensures NoneAt(v, 3, 9, 3)
  {
    assert Stands(v, 3, 0, ExampleWord(3, 0));
  }

  lemma ExampleWritten(v: Volume)
    requires IsExample(v)
    ensures Written(v, 7, 15, 3, [ExampleLog()])
  {
    ExampleLogged(v);
    ExampleEnds(v);
    hide Stands, LoggedAt, NoneAt;
    assert Stands(v, 16, 0, ExampleWord(16, 0)) && Stands(v, 16, 1, ExampleWord(16, 1));
    assert Stands(v, 16, 2, ExampleWord(16, 2));
    assert LogFrom(v, 19, 9, 3, []);
    assert [ExampleLog()][1..] == [];
  }

  /** Block 501 is read from the second block of the journal. */
  method ReadExample() returns (first: nat, transactions: nat, data: seq<Word>)
    ensures first == 15 && transactions == 1 && data == [20, 20, 20]
  {
    var v := Example();
    ExampleWritten(v);
    var j;
    j, data := ReadLogged(v, 2, 7, 15, 3, [ExampleLog()], 501, 5, 3);
    first, transactions := j.firstDesc, j.transactions;
    assert [ExampleLog()][..1] == [ExampleLog()];
    assert Found([ExampleLog()], 501) == Some(ExampleLog().data[1]);
  }
}
