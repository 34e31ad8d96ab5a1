/**
 The ReiserFS journal: building the in-memory transaction table and reading a block through it
 (loader/filesys/fsys_reiserfs.c).

 The journal is a circular log of `count` blocks.  A transaction is a descriptor block, `len` data blocks
 and a commit block; the numbers of the blocks it rewrites are split over the descriptor and the commit.
 A volume that was not unmounted cleanly is only correct after these transactions have been replayed;
 the driver never replays anything but looks every block up in the log instead.
 */
module ReiserJournal {
  import opened Common
  import Arith

  const HALF := 1018
  const MARKER: Word := 0xffff_ffff

  // "ReIsErLB" as two little-endian words
  const MAGIC0: Word := 0x7349_6552
  const MAGIC1: Word := 0x424C_7245

  /** An immutable volume: the 32-bit word at any word offset from the start of any block (offsets may run past the
      block's end), the block size in words, and where the journal lies (in blocks). */
  datatype Volume = Volume(disk: seq<Word>, blockSize: nat, start: nat, count: nat)
  {
    /** Word `i` counted from the start of block `block`. */
    function Word(block: nat, i: nat): Word {
      var at := block * blockSize + i;
      if at < |disk| then disk[at] else 0
    }

    /** What devread delivers for `len` words at offset `from` of block `block`. */
    function Read(block: nat, from: nat, len: nat): (s: seq<Word>)
      ensures |s| == len
    {
      seq<Word>(len, i requires 0 <= i < len => Word(block, from + i))
    }

    function Block(block: nat): seq<Word> { Read(block, 0, blockSize) }

    /** Word `i` counted from the start of journal block `pos`. */
    function JWord(pos: nat, i: nat): Word {
      Word(start + pos, i)
    }

    // struct reiserfs_journal_desc and struct reiserfs_journal_commit share their first two words
    function TransId(pos: nat): Word { JWord(pos, 0) }
    function Len(pos: nat): Word { JWord(pos, 1) }
    function MountId(pos: nat): Word { JWord(pos, 2) }
    predicate HasMagic(pos: nat) { JWord(pos, 1021) == MAGIC0 && JWord(pos, 1022) == MAGIC1 }

    function Wrap(i: nat): (r: nat)
      requires count > 0
      ensures r < count
    {
      i % count
    }

    function CommitOf(d: nat): nat requires count > 0 { Wrap(d + Len(d) + 1) }
    function NextDesc(d: nat): (r: nat) requires count > 0 ensures r < count { Wrap(CommitOf(d) + 1) }

    /** The descriptor at `d` starts transaction `id` of mount `mount`, and its commit block agrees. */
    predicate Accepted(d: nat, id: Word, mount: Word)
      requires count > 0
    {
      && HasMagic(d) && TransId(d) == id && MountId(d) == mount
      && TransId(CommitOf(d)) == id && Len(CommitOf(d)) == Len(d)
    }

    /** The number of the `i`-th block rewritten by the transaction at `d`. */
    function RealBlock(d: nat, i: nat): Word
      requires count > 0
    {
      if i < HALF then JWord(d, 3 + i) else JWord(CommitOf(d), 2 + (i - HALF))
    }

    /** The journal header, kept in the block behind the circular part. */
    function LastFlushed(): Word { JWord(count, 0) }
    function FirstUnflushed(): Word { JWord(count, 1) }
    function HeaderMount(): Word { JWord(count, 2) }

    function ExpectedId(k: nat): Word { (LastFlushed() + 1 + k) % WORD_LIMIT }

    /** The descriptor of the `k`-th transaction when following the log from the header's offset. */
    function DescAt(k: nat): (d: nat)
      requires 0 < count && FirstUnflushed() < count
      ensures d < count
    {
      if k == 0 then FirstUnflushed() else NextDesc(DescAt(k - 1))
    }

    predicate AcceptedAt(k: nat)
      requires 0 < count && FirstUnflushed() < count
    {
      Accepted(DescAt(k), ExpectedId(k), HeaderMount())
    }

    /** The first `n` transactions of the log are all valid. */
    ghost predicate IsRun(n: nat)
      requires 0 < count && FirstUnflushed() < count
    {
      forall k: nat :: k < n ==> AcceptedAt(k)
    }

    /** `n` is the length of the longest run of valid transactions. */
    ghost predicate IsLongestRun(n: nat)
      requires 0 < count && FirstUnflushed() < count
    {
      IsRun(n) && !AcceptedAt(n)
    }

    /** What the on-disk format demands: every committed transaction fits the two block-number arrays. */
    ghost predicate Bounded()
    {
      0 < count && FirstUnflushed() < count ==> forall k: nat :: IsRun(k + 1) ==> Len(DescAt(k)) <= 2 * HALF
    }
  }

  // ---------- The run of valid transactions is finite ----------

  /** Pigeonhole: distinct positions below `n` are at most `n`. */
  lemma {:induction false} DistinctPositionsFit(s: seq<nat>, n: nat)
    requires forall i :: 0 <= i < |s| ==> s[i] < n
    requires forall i, j :: 0 <= i < j < |s| ==> s[i] != s[j]
    ensures |s| <= n
  {
    if |s| > 0 {
      var first := s[0];
      if i :| 0 <= i < |s| && s[i] == n - 1 {
        DistinctPositionsFit(s[..i] + s[i + 1..], n - 1);
      } else {
        DistinctPositionsFit(s, n - 1);
      }
    }
  }

  lemma SameResidue(x: nat, y: nat)
    requires x < y < x + WORD_LIMIT
    ensures x % WORD_LIMIT != y % WORD_LIMIT
  {
  }

  /** No journal block can be accepted twice: the expected ids all differ and the disk does not change. */
  lemma {:induction false} AcceptedPositionsDiffer(v: Volume, i: nat, j: nat)
    requires 0 < v.count && v.FirstUnflushed() < v.count
    requires i < j < WORD_LIMIT
    requires v.AcceptedAt(i) && v.AcceptedAt(j)
    ensures v.DescAt(i) != v.DescAt(j)
  {
    if v.DescAt(i) == v.DescAt(j) {
      SameResidue(v.LastFlushed() + 1 + i, v.LastFlushed() + 1 + j);
    }
  }

  /** A run never has more transactions than the journal has blocks, so following the log terminates. */
  lemma RunFits(v: Volume, n: nat)
    requires 0 < v.count < WORD_LIMIT && v.FirstUnflushed() < v.count
    requires v.IsRun(n)
    ensures n <= v.count
  {
    var m := if n <= v.count then n else v.count + 1;
    var s := seq(m, i requires 0 <= i < m => v.DescAt(i));
    forall i, j | 0 <= i < j < |s|
      ensures s[i] != s[j]
    {
      assert v.AcceptedAt(i) && v.AcceptedAt(j);
      AcceptedPositionsDiffer(v, i, j);
    }
    DistinctPositionsFit(s, v.count);
  }

  lemma OneMore(v: Volume, n: nat)
    requires 0 < v.count < WORD_LIMIT && v.FirstUnflushed() < v.count && v.IsRun(n) && v.AcceptedAt(n)
    ensures v.IsRun(n + 1) && n < v.count
    ensures v.DescAt(n + 1) == v.NextDesc(v.DescAt(n)) && v.ExpectedId(n + 1) == (v.ExpectedId(n) + 1) % WORD_LIMIT
  {
    RunFits(v, n + 1);
    ExpectedIdStep(v, n);
  }

  lemma LongestRunIsUnique(v: Volume, n: nat, m: nat)
    requires 0 < v.count && v.FirstUnflushed() < v.count
    requires v.IsLongestRun(n) && v.IsLongestRun(m)
    ensures n == m
  {
    var _ := v.AcceptedAt(n);
    var _ := v.AcceptedAt(m);
  }

  // ---------- What replaying the log means ----------

  /** The contents of every block, as a function of its number. */
  type State = nat -> seq<Word>

  function Write(s: State, block: nat, data: seq<Word>): State {
    b => if b == block then data else s(b)
  }

  /** State after copying the first `i` logged blocks of the transaction at `d` to where they belong. */
  function ReplayBlocks(v: Volume, s: State, d: nat, i: nat): State
    requires v.count > 0
  {
    if i == 0 then s
    else Write(ReplayBlocks(v, s, d, i - 1), v.RealBlock(d, i - 1), v.Block(v.start + v.Wrap(d + i)))
  }

  /** State after replaying the first `n` transactions, oldest first. */
  function Replay(v: Volume, n: nat): State
    requires 0 < v.count && v.FirstUnflushed() < v.count
  {
    if n == 0 then (b: nat) => v.Block(b)
    else ReplayBlocks(v, Replay(v, n - 1), v.DescAt(n - 1), v.Len(v.DescAt(n - 1)))
  }

  // ---------- The lookup the driver performs ----------

  /** First index i with from <= i < len whose block number is `b`; `len` when there is none. */
  function FirstFrom(v: Volume, d: nat, b: nat, from: nat, len: nat): (r: nat)
    requires v.count > 0 && from <= len
    ensures from <= r <= len
    decreases len - from
  {
    if from == len || v.RealBlock(d, from) == b then from else FirstFrom(v, d, b, from + 1, len)
  }

  lemma {:induction false} FirstFromIsFirst(v: Volume, d: nat, b: nat, from: nat, len: nat)
    requires v.count > 0 && from <= len
    ensures var r := FirstFrom(v, d, b, from, len);
      (r < len ==> v.RealBlock(d, r) == b) && forall i :: from <= i < r ==> v.RealBlock(d, i) != b
    decreases len - from
  {
    if from < len && v.RealBlock(d, from) != b {
      FirstFromIsFirst(v, d, b, from + 1, len);
    }
  }

  function First(v: Volume, d: nat, b: nat): nat requires v.count > 0 { FirstFrom(v, d, b, 0, v.Len(d)) }

  predicate Rewrites(v: Volume, d: nat, b: nat) requires v.count > 0 { First(v, d, b) < v.Len(d) }

  /** Where the driver finds block `b` after `n` transactions. */
  function Translate(v: Volume, n: nat, b: nat): nat
    requires n > 0 ==> 0 < v.count && v.FirstUnflushed() < v.count
  {
    if n == 0 then b
    else
      var d := v.DescAt(n - 1);
      if Rewrites(v, d, b) then v.start + v.Wrap(d + 1 + First(v, d, b)) else Translate(v, n - 1, b)
  }

  /** No transaction of the run logs the same block twice (a rule of the journal's writer). */
  ghost predicate LogsBlocksOnce(v: Volume, n: nat)
    requires 0 < v.count && v.FirstUnflushed() < v.count
  {
    forall k: nat, i: nat, j: nat :: k < n && i < j < v.Len(v.DescAt(k)) ==>
      v.RealBlock(v.DescAt(k), i) != v.RealBlock(v.DescAt(k), j)
  }

  /** The last index below `len` at which the transaction at `d` logs block `b`; -1 when there is none. */
  function LastBelow(v: Volume, d: nat, b: nat, len: nat): (r: int)
    requires v.count > 0
    ensures -1 <= r < len
    ensures r >= 0 ==> v.RealBlock(d, r) == b
    ensures forall i: nat :: r < i < len ==> v.RealBlock(d, i) != b
  {
    if len == 0 then -1 else if v.RealBlock(d, len - 1) == b then len - 1 else LastBelow(v, d, b, len - 1)
  }

  lemma ReplayOne(v: Volume, s: State, d: nat, i: nat, b: nat)
    requires v.count > 0
    ensures ReplayBlocks(v, s, d, i)(b) ==
            if i == 0 then s(b)
            else if v.RealBlock(d, i - 1) == b then v.Block(v.start + v.Wrap(d + i))
            else ReplayBlocks(v, s, d, i - 1)(b)
  {
  }

  lemma {:induction false} ReplayBlocksAt(v: Volume, s: State, d: nat, i: nat, b: nat)
    requires v.count > 0
    ensures ReplayBlocks(v, s, d, i)(b) ==
            var last := LastBelow(v, d, b, i);
            if last < 0 then s(b) else v.Block(v.start + v.Wrap(d + 1 + last))
  {
    ReplayOne(v, s, d, i, b);
    hide ReplayBlocks;
    if i > 0 {
      ReplayBlocksAt(v, s, d, i - 1, b);
    }
  }

  /** Whatever the log contains: the block the driver reads is the replayed one exactly when the last
      transaction that rewrites it logs the same data at its first and its last occurrence. */
  ghost predicate OccurrencesAgree(v: Volume, n: nat, b: nat)
    requires 0 < v.count && v.FirstUnflushed() < v.count
  {
    n > 0 ==>
      var d := v.DescAt(n - 1);
      var last := LastBelow(v, d, b, v.Len(d));
      if last >= 0 then
        v.Block(v.start + v.Wrap(d + 1 + First(v, d, b))) == v.Block(v.start + v.Wrap(d + 1 + last))
      else OccurrencesAgree(v, n - 1, b)
  }

  lemma {:induction false} ReplayStep(v: Volume, n: nat, b: nat)
    requires 0 < v.count && v.FirstUnflushed() < v.count && n > 0
    ensures var d := v.DescAt(n - 1);
      Replay(v, n)(b) ==
      var last := LastBelow(v, d, b, v.Len(d));
      if last < 0 then Replay(v, n - 1)(b) else v.Block(v.start + v.Wrap(d + 1 + last))
  {
    var d := v.DescAt(n - 1);
    ReplayBlocksAt(v, Replay(v, n - 1), d, v.Len(d), b);
  }

  lemma {:induction false} LookupIsReplay(v: Volume, n: nat, b: nat)
    requires 0 < v.count && v.FirstUnflushed() < v.count
    ensures v.Block(Translate(v, n, b)) == Replay(v, n)(b) <==> OccurrencesAgree(v, n, b)
  {
    hide ReplayBlocks, Volume.Block, Volume.RealBlock;
    if n > 0 {
      ReplayStep(v, n, b);
      FirstFromIsFirst(v, v.DescAt(n - 1), b, 0, v.Len(v.DescAt(n - 1)));
      if !Rewrites(v, v.DescAt(n - 1), b) {
        LookupIsReplay(v, n - 1, b);
      }
    }
  }

  /** A transaction of two blocks that are the same one. */
  lemma {:induction false} FirstOrLast(v: Volume, b: nat)
    requires 0 < v.count && v.FirstUnflushed() < v.count && v.Len(v.DescAt(0)) == 2
    requires v.RealBlock(v.DescAt(0), 0) == v.RealBlock(v.DescAt(0), 1) == b
    ensures Translate(v, 1, b) == v.start + v.Wrap(v.DescAt(0) + 1)
    ensures Replay(v, 1)(b) == v.Block(v.start + v.Wrap(v.DescAt(0) + 2))
  {
    var d := v.DescAt(0);
    assert First(v, d, b) == 0 && LastBelow(v, d, b, 2) == 1;
    ReplayStep(v, 1, b);
  }

  /** Word `i` of journal block `pos` where one transaction logs block 0 twice, with different contents. */
  function TwiceWord(pos: nat, i: nat): Word {
    if pos == 0 then if i == 0 then 1 else if i == 1 then 2 else if i == 1021 then MAGIC0
                     else if i == 1022 then MAGIC1 else 0
    else if pos == 1 then 10
    else if pos == 2 then 20
    else if pos == 3 then if i == 0 then 1 else if i == 1 then 2 else 0
    else 0
  }

  ghost predicate LogsTwice(v: Volume) {
    && v.blockSize == 1024 && v.start == 1 && v.count == 4
    && forall pos: nat, i: nat :: i < 1024 ==> v.JWord(pos, i) == TwiceWord(pos, i)
  }

  lemma LoggedTwice() returns (v: Volume)
    ensures LogsTwice(v)
  {
    var word := (k: nat) => if k < 1024 then 0 else TwiceWord(k / 1024 - 1, k % 1024);
    v := Volume(seq<Word>(6144, word), 1024, 1, 4);
    forall pos: nat, i: nat | i < 1024
      ensures v.JWord(pos, i) == TwiceWord(pos, i)
    {
      var at := (1 + pos) * 1024 + i;
      Arith.DivMod(at, 1024, 1 + pos, i);
      assert at < 6144 ==> v.disk[at] == word(at);
    }
  }

  /** The run of that log is the one transaction. */
  lemma {:induction false} TwiceRun(v: Volume)
    requires LogsTwice(v)
    ensures v.FirstUnflushed() == 0 && v.DescAt(0) == 0 && v.Len(0) == 2 && v.CommitOf(0) == 3
    ensures v.RealBlock(0, 0) == v.RealBlock(0, 1) == 0 && v.IsLongestRun(1)
  {
    assert v.JWord(4, 1) == 0 && v.JWord(0, 1) == 2 && v.JWord(0, 3) == v.JWord(0, 4) == 0;
    assert v.CommitOf(0) == 3 && v.DescAt(1) == 0;
    assert v.JWord(0, 0) == 1 && v.JWord(4, 0) == 0 && v.JWord(0, 2) == 0 == v.JWord(4, 2);
    assert v.JWord(0, 1021) == MAGIC0 && v.JWord(0, 1022) == MAGIC1 && v.JWord(3, 0) == 1 && v.JWord(3, 1) == 2;
    assert v.AcceptedAt(0) && !v.AcceptedAt(1);
  }

  /** The driver reads the contents logged first, replay leaves those logged last. */
  lemma {:induction false} TwiceDiffers(v: Volume)
    requires LogsTwice(v)
    ensures v.FirstUnflushed() == 0 && v.IsLongestRun(1)
    ensures v.Block(Translate(v, 1, 0))[0] == 10 && Replay(v, 1)(0)[0] == 20
  {
    TwiceRun(v);
    FirstOrLast(v, 0);
    assert v.JWord(1, 0) == 10 && v.JWord(2, 0) == 20;
  }

  lemma {:induction false} LookupIsReplayWhenLoggedOnce(v: Volume, n: nat, b: nat)
    requires 0 < v.count && v.FirstUnflushed() < v.count
    requires LogsBlocksOnce(v, n)
    ensures v.Block(Translate(v, n, b)) == Replay(v, n)(b)
  {
    LoggedOnceAgree(v, n, b);
    LookupIsReplay(v, n, b);
  }

  lemma {:induction false} LoggedOnceAgree(v: Volume, n: nat, b: nat)
    requires 0 < v.count && v.FirstUnflushed() < v.count
    requires LogsBlocksOnce(v, n)
    ensures OccurrencesAgree(v, n, b)
  {
    if n > 0 {
      var d := v.DescAt(n - 1);
      FirstFromIsFirst(v, d, b, 0, v.Len(d));
      if Rewrites(v, d, b) {
        var i, j := First(v, d, b), LastBelow(v, d, b, v.Len(d));
        assert v.RealBlock(d, i) == v.RealBlock(d, j) == b;
        assert i == j;
      } else {
        LoggedOnceAgree(v, n - 1, b);
      }
    }
  }

  // ---------- The journal table ----------

  /** What the table stores for the transaction at `d`: its length, then the block numbers. */
  function Entry(v: Volume, d: nat): seq<Word>
    requires v.count > 0
  {
    [v.Len(d)] + seq<Word>(v.Len(d), i requires 0 <= i < v.Len(d) => v.RealBlock(d, i))
  }

  /** The entries of the first `m` transactions. */
  function Entries(v: Volume, m: nat): seq<Word>
    requires 0 < v.count && v.FirstUnflushed() < v.count
  {
    if m == 0 then [] else Entries(v, m - 1) + Entry(v, v.DescAt(m - 1))
  }

  lemma {:induction false} EntriesPrefix(v: Volume, k: nat, m: nat)
    requires 0 < v.count && v.FirstUnflushed() < v.count
    requires k <= m
    ensures Entries(v, k) <= Entries(v, m)
  {
    if k < m {
      EntriesPrefix(v, k, m - 1);
    }
  }

  /** The table starts with `m` cached transactions; if more were accepted, the end marker follows. */
  ghost predicate TableHolds(v: Volume, table: seq<Word>, n: nat, m: nat)
    requires 0 < v.count && v.FirstUnflushed() < v.count
  {
    && Entries(v, m) <= table
    && (m < n ==> |Entries(v, m)| < |table| && table[|Entries(v, m)|] == MARKER)
  }

  /** The step the reader takes over a transaction is the one that built the table. */
  lemma NextDescIsOneStep(v: Volume, d: nat)
    requires v.count > 0
    ensures v.NextDesc(d) == v.Wrap(d + 2 + v.Len(d))
  {
    Arith.WrapSucc(d + v.Len(d) + 1, v.count);
  }

  lemma ExpectedIdStep(v: Volume, n: nat)
    ensures v.ExpectedId(n + 1) == (v.ExpectedId(n) + 1) % WORD_LIMIT
  {
  }

  /** How the number of transactions is recovered from the ids, in a 16-bit field. */
  function CountOfIds(first: Word, next: Word): (t: nat) {
    Low16((next - first - 1) % WORD_LIMIT)
  }

  function Low16(n: nat): (r: nat)
    ensures r <= n && (n < 0x1_0000 ==> r == n)
  {
    n % 0x1_0000
  }

  lemma CountOfIdsIsCount(v: Volume, n: nat)
    requires n < WORD_LIMIT
    ensures CountOfIds(v.LastFlushed(), v.ExpectedId(n)) == Low16(n)
  {
    var first := v.LastFlushed();
    var next := v.ExpectedId(n);
    assert next == first + 1 + n || next == first + 1 + n - WORD_LIMIT;
    assert (next - first - 1) % WORD_LIMIT == n;
  }

  lemma {:induction false} EntryInTable(v: Volume, table: seq<Word>, n: nat, m: nat, k: nat)
    requires 0 < v.count && v.FirstUnflushed() < v.count
    requires TableHolds(v, table, n, m) && k < m
    ensures var d := v.DescAt(k); var p := |Entries(v, k)|;
      && p + 1 + v.Len(d) == |Entries(v, k + 1)| <= |table|
      && table[p] == v.Len(d)
      && forall i :: 0 <= i < v.Len(d) ==> table[p + 1 + i] == v.RealBlock(d, i)
  {
    hide Entries, Entry;
    EntriesStep(v, k);
    EntriesPrefix(v, k + 1, m);
    EntryAt(v, v.DescAt(k), Entries(v, k), Entries(v, m), table);
  }

  lemma EntriesStep(v: Volume, k: nat)
    requires 0 < v.count && v.FirstUnflushed() < v.count
    ensures var e := Entry(v, v.DescAt(k));
      Entries(v, k + 1) == Entries(v, k) + e && |e| == 1 + v.Len(v.DescAt(k))
  {
  }

  lemma EntryAt(v: Volume, d: nat, before: seq<Word>, all: seq<Word>, table: seq<Word>)
    requires v.count > 0 && before + Entry(v, d) <= all <= table
    ensures var p := |before|;
      && p + 1 + v.Len(d) <= |table| && table[p] == v.Len(d)
      && forall i :: 0 <= i < v.Len(d) ==> table[p + 1 + i] == v.RealBlock(d, i)
  {
    hide Volume.RealBlock, Volume.Len;
    var e := before + Entry(v, d);
    forall j | 0 <= j < |Entry(v, d)|
      ensures table[|before| + j] == Entry(v, d)[j]
    {
      assert table[|before| + j] == e[|before| + j];
    }
    forall i | 0 <= i < v.Len(d)
      ensures table[|before| + 1 + i] == v.RealBlock(d, i)
    {
      assert table[|before| + (1 + i)] == Entry(v, d)[1 + i];
    }
  }

  /** The journal part of struct fsys_reiser_info, and the table behind it. */
  class Journal {
    const v: Volume
    const table: array<Word>
    var firstDesc: nat
    var transactions: nat     // a 16-bit field
    ghost var cached: nat     // how many transactions the table holds

    ghost predicate Mounted() { 0 < v.count < WORD_LIMIT && v.FirstUnflushed() < v.count && v.Bounded() }

    ghost predicate Valid()
      reads this, table
    {
      transactions > 0 ==>
        && Mounted()
        && firstDesc == v.FirstUnflushed()
        && v.IsRun(transactions)
        && TableHolds(v, table[..], transactions, cached)
    }

    constructor (v: Volume, size: nat)
      ensures this.v == v && table.Length == size && fresh(table)
      ensures transactions == 0 && Valid()
    {
      this.v := v;
      table := new Word[size];
      firstDesc, transactions, cached := 0, 0, 0;
    }

    /** Appends the entry of the transaction at `d`, whose commit block is `c`, to the table. */
    method AddEntry(start: nat, d: nat, c: nat) returns (end: nat)
      requires v.count > 0 && c == v.CommitOf(d)
      requires start + 1 + v.Len(d) < table.Length
      modifies table
      ensures end == start + 1 + v.Len(d)
      ensures table[..end] == old(table[..start]) + Entry(v, d)
    {
      end := start;
      table[end] := v.Len(d);
      end := end + 1;
      var i := 0;
      while i < v.Len(d) && i < HALF
        invariant 0 <= i <= v.Len(d) && i <= HALF
        invariant end == start + 1 + i
        invariant table[..start] == old(table[..start]) && table[start] == v.Len(d)
        invariant forall k :: 0 <= k < i ==> table[start + 1 + k] == v.RealBlock(d, k)
      {
        table[end] := v.JWord(d, 3 + i);
        end := end + 1;
        i := i + 1;
      }
      while i < v.Len(d)
        invariant 0 <= i <= v.Len(d) && (i < v.Len(d) ==> i >= HALF)
        invariant end == start + 1 + i
        invariant table[..start] == old(table[..start]) && table[start] == v.Len(d)
        invariant forall k :: 0 <= k < i ==> table[start + 1 + k] == v.RealBlock(d, k)
      {
        table[end] := v.JWord(c, 2 + (i - HALF));
        end := end + 1;
        i := i + 1;
      }
      assert table[..end] == table[..start] + table[start..end];
      assert table[start..end] == Entry(v, d);
    }

    /** The write position `p` of the table: the end of the entries, or past the table once it is closed. */
    ghost predicate Filling(p: nat, n: nat, m: nat)
      requires Mounted()
      reads table
    {
      && p <= table.Length
      && TableHolds(v, table[..], n, m)
      && (if p < table.Length then m == n && p == |Entries(v, m)| else m < n)
    }

    lemma FillingHolds(p: nat, n: nat, m: nat)
      requires Mounted() && Filling(p, n, m)
      ensures TableHolds(v, table[..], n, m)
    {
    }

    /** Caches the `n`-th transaction, closes the table with the marker, or leaves a closed table alone. */
    method CacheEntry(p: nat, d: nat, c: nat, ghost n: nat, ghost m: nat) returns (q: nat, ghost m': nat)
      requires Mounted() && Filling(p, n, m)
      requires d == v.DescAt(n) && c == v.CommitOf(d)
      modifies table
      ensures Filling(q, n + 1, m')
    {
      q, m' := p, m;
      if p < table.Length {
        if p + 1 + v.Len(d) >= table.Length {
          table[p] := MARKER;
          q := table.Length;
        } else {
          assert table[..p] == Entries(v, m);
          q := AddEntry(p, d, c);
          m' := m + 1;
        }
      }
    }

    /** Nothing is cached yet. */
    lemma EmptyTable()
      requires table.Length > 0
      ensures Mounted() ==> Filling(0, 0, 0)
    {
    }

    /** A valid transaction of that id starts at block `desc`. */
    method IsValid(desc: nat, id: Word) returns (ok: bool, commit: nat)
      requires v.count > 0
      ensures ok <==> v.Accepted(desc, id, v.HeaderMount())
      ensures ok ==> commit == v.CommitOf(desc)
    {
      commit := 0;
      if !v.HasMagic(desc) || v.TransId(desc) != id || v.MountId(desc) != v.HeaderMount() {
        return false, commit;
      }
      commit := v.Wrap(desc + v.Len(desc) + 1);
      ok := v.TransId(desc) == v.TransId(commit) && v.Len(desc) == v.Len(commit);
    }

    /** Follows the log from block `first` on and keeps what fits in the table. */
    method FollowLog(first: nat) returns (nextTransId: Word, ghost n: nat, ghost m: nat)
      requires Mounted() && table.Length > 0 && first == v.FirstUnflushed()
      modifies table
      ensures v.IsLongestRun(n) && n <= v.count && nextTransId == v.ExpectedId(n)
      ensures TableHolds(v, table[..], n, m)
    {
      EmptyTable();
      assert v.DescAt(0) == first && v.ExpectedId(0) == (v.LastFlushed() + 1) % WORD_LIMIT && v.IsRun(0);
      hide Filling, TableHolds, Volume.Accepted, Volume.DescAt, Volume.ExpectedId, Volume.IsRun, Volume.Bounded;
      var desc := first;
      nextTransId := (v.LastFlushed() + 1) % WORD_LIMIT;
      var journalTable := 0;
      n, m := 0, 0;

      while true
        invariant desc == v.DescAt(n) && nextTransId == v.ExpectedId(n) && v.IsRun(n) && n <= v.count
        invariant Filling(journalTable, n, m)
        decreases v.count - n
      {
        var ok, commit := IsValid(desc, nextTransId);
        if !ok {
          break;
        }
        OneMore(v, n);
        nextTransId := (nextTransId + 1) % WORD_LIMIT;
        journalTable, m := CacheEntry(journalTable, desc, commit, n, m);
        n := n + 1;
        desc := v.Wrap(commit + 1);
      }
      FillingHolds(journalTable, n, m);
    }

    /** Finds the valid transactions, and counts them by their ids. */
    method JournalInit()
      requires v.count < WORD_LIMIT && v.Bounded()
      requires transactions == 0 && table.Length > 0
      modifies this, table
      ensures Valid()
      ensures v.count == 0 || v.FirstUnflushed() >= v.count ==> transactions == 0
      ensures Mounted() ==> firstDesc == v.FirstUnflushed()
      ensures Mounted() ==> exists n: nat :: v.IsLongestRun(n) && n <= v.count && transactions == Low16(n)
      ensures Mounted() && v.count < 0x1_0000 ==> v.IsLongestRun(transactions)
    {
      hide Entries, Volume.AcceptedAt;
      var desc := v.FirstUnflushed();
      if desc >= v.count {
        return;
      }
      firstDesc := desc;
      var nextTransId;
      ghost var n, m;
      nextTransId, n, m := FollowLog(desc);
      CountOfIdsIsCount(v, n);
      transactions := CountOfIds(v.LastFlushed(), nextTransId);
      cached := m;
    }

    /** Searches the cached entry at `p` for block `b`: the index behind its first occurrence, or Len + 1. */
    method ScanTable(p: nat, b: Word, ghost d: nat) returns (found: bool, i: nat, len: nat, next: nat)
      requires v.count > 0 && p + 1 + v.Len(d) <= table.Length && table[p] == v.Len(d)
      requires forall i :: 0 <= i < v.Len(d) ==> table[p + 1 + i] == v.RealBlock(d, i)
      ensures len == v.Len(d) && next == p + 1 + len
      ensures found == Rewrites(v, d, b) && (found ==> i == First(v, d, b) + 1)
    {
      len := table[p];
      next := p + 1;
      i := 0;
      found := false;
      while i < len
        invariant 0 <= i <= len && next == p + 1 + i
        invariant FirstFrom(v, d, b, i, len) == First(v, d, b)
      {
        i := i + 1;
        next := next + 1;
        if table[next - 1] == b {
          next := next + (len - i);
          found := true;
          return;
        }
      }
    }

    /** The same search for a transaction whose entry did not fit: the descriptor and commit are read again. */
    method ScanDisk(d: nat, b: Word) returns (found: bool, i: nat, len: nat)
      requires v.count > 0 && v.Len(d) <= 2 * HALF
      ensures len == v.Len(d)
      ensures found == Rewrites(v, d, b) && (found ==> i == First(v, d, b) + 1)
    {
      len := v.Len(d);
      i := 0;
      found := false;
      while i < len && i < HALF
        invariant 0 <= i <= len && i <= HALF
        invariant FirstFrom(v, d, b, i, len) == First(v, d, b)
      {
        i := i + 1;
        if v.JWord(d, 3 + (i - 1)) == b {
          found := true;
          return;
        }
      }
      if len >= HALF {
        var commit := v.Wrap(d + 1 + len);
        while i < len
          invariant HALF <= i <= len
          invariant FirstFrom(v, d, b, i, len) == First(v, d, b)
        {
          i := i + 1;
          if v.JWord(commit, 2 + (i - 1 - HALF)) == b {
            found := true;
            return;
          }
        }
      }
    }

    /** Searches the `k`-th transaction for `b`, in the table or, from the end marker on, on disk. */
    method Scan(p: nat, desc: nat, b: Word, ghost k: nat)
      returns (found: bool, i: nat, len: nat, next: nat)
      requires Valid() && k < transactions
      requires desc == v.DescAt(k) && p == |Entries(v, if k < cached then k else cached)|
      ensures len == v.Len(desc)
      ensures found == Rewrites(v, desc, b) && (found ==> i == First(v, desc, b) + 1)
      ensures next == |Entries(v, if k + 1 < cached then k + 1 else cached)|
    {
      if k < cached {
        EntryInTable(v, table[..], transactions, cached, k);
      }
      assert v.AcceptedAt(k) && v.IsRun(k + 1);
      if table[p] != MARKER {
        found, i, len, next := ScanTable(p, b, desc);
      } else {
        found, i, len := ScanDisk(desc, b);
        next := p;
      }
    }

    /** One round of the walk: the `k`-th transaction overrides what the earlier ones said about `b`. */
    method Step(p: nat, desc: nat, sofar: nat, b: Word, ghost k: nat)
      returns (p': nat, desc': nat, translated: nat)
      requires Valid() && k < transactions
      requires desc == v.DescAt(k) && p == |Entries(v, if k < cached then k else cached)|
      requires sofar == Translate(v, k, b)
      ensures desc' == v.DescAt(k + 1) && p' == |Entries(v, if k + 1 < cached then k + 1 else cached)|
      ensures translated == Translate(v, k + 1, b)
    {
      hide Entries, Rewrites, First, TableHolds, Volume.AcceptedAt;
      var found, i, len;
      found, i, len, p' := Scan(p, desc, b, k);
      translated := sofar;
      if found {
        translated := v.start + v.Wrap(desc + i);
      }
      NextDescIsOneStep(v, desc);
      desc' := v.Wrap(desc + 2 + len);
    }

    /** Where to read block `b`: the walk over all transactions, cached ones first. */
    method Locate(b: Word) returns (translated: nat)
      requires Valid()
      ensures translated == Translate(v, transactions, b)
    {
      var remaining := transactions;
      var desc := firstDesc;
      translated := b;
      var p := 0;
      ghost var k := 0;
      while remaining > 0
        invariant 0 <= remaining <= transactions && k + remaining == transactions
        invariant translated == Translate(v, k, b)
        invariant transactions > 0 ==> desc == v.DescAt(k) && p == |Entries(v, if k < cached then k else cached)|
      {
        remaining := remaining - 1;
        p, desc, translated := Step(p, desc, translated, b, k);
        k := k + 1;
      }
    }

    /** Reads `len` words at `from` of block `b`, taking them from the journal if a transaction rewrites it. */
    method BlockRead(b: Word, from: nat, len: nat) returns (data: seq<Word>)
      requires Valid()
      ensures data == v.Read(Translate(v, transactions, b), from, len)
      ensures transactions > 0 && LogsBlocksOnce(v, transactions) && from + len <= v.blockSize ==>
                from + len <= |Replay(v, transactions)(b)| &&
                data == Replay(v, transactions)(b)[from..from + len]
    {
      var translated := Locate(b);
      data := v.Read(translated, from, len);
      if transactions > 0 && LogsBlocksOnce(v, transactions) && from + len <= v.blockSize {
        LookupIsReplayWhenLoggedOnce(v, transactions, b);
        ReadIsSlice(v, translated, from, len);
      }
    }
  }

  lemma ReadIsSlice(v: Volume, b: nat, from: nat, len: nat)
    requires from + len <= v.blockSize
    ensures v.Read(b, from, len) == v.Block(b)[from..from + len]
  {
  }
}
