/**
 Opening a list of sectors as a file, and reading from it (loader/preldr/func.c).
 */
module BlockFiles {
  import opened Common
  import Arith
  import opened Strings
  import opened Numbers
  import Blocklists

  // the list starts at FSYS_BUF + 12, takes 8 bytes an entry, and must end below FSYS_BUF + 0x7FF9
  const MAX_BLOCKS := 4093

  datatype Extent = Extent(start: nat, length: nat)

  /** What opening a name comes to. */
  datatype Opened =
    | Blocks(blocks: seq<Extent>, filemax: int)
    | BadFilename
    | NotMounted   // the list is too long: the name is left to a file system, which is no longer mounted
    | Path         // the name is one of a file system

  /** A C int. */
  function Int32(x: int): (r: int)
    ensures -0x8000_0000 <= r <= MAXINT && (-0x8000_0000 <= x <= MAXINT ==> r == x)
    ensures x >= 0 ==> r <= x
  {
    (x + 0x8000_0000) % 0x1_0000_0000 - 0x8000_0000
  }

  function Plus(filemax: int, x: Extent): int { Int32(filemax + Int32(x.length * SECTOR_SIZE)) }

  predicate IsSpace(c: char) { c == ' ' || c == '\t' || c == '\r' || c == '\n' }

  /** A name ends here. */
  predicate Ends(c: char) { c == '\0' || c == '/' || IsSpace(c) }

  // ---------- The list ----------

  /** What the text at one position can be: a number that limits the file's size, an extent with a comma behind
      it, the last extent, or neither. */
  datatype Item = Limit(n: nat) | Entry(x: Extent, next: nat) | Last(x: Extent) | Malformed

  function ItemAt(s: string, p: nat): Item {
    var first := Parse(s, p);
    var tmp, q := if first.Some? then first.value.0 else 0, if first.Some? then first.value.1 else p;
    if CharAt(s, q) != '+' then
      if Ends(CharAt(s, q)) && tmp != 0 then Limit(tmp) else Malformed
    else
      match Parse(s, q + 1)
      case None => Malformed
      case Some((length, r)) =>
        if length == 0 then Malformed
        else if CharAt(s, r) == ',' then Entry(Extent(tmp, length), r + 1)
        else if Ends(CharAt(s, r)) then Last(Extent(tmp, length))
        else Malformed
  }

  /** What the rest of a list from position `p` on makes of the blocks and the size found so far. */
  function List(s: string, p: nat, blocks: seq<Extent>, filemax: int): Opened
    requires |blocks| <= MAX_BLOCKS + 1
    decreases MAX_BLOCKS + 1 - |blocks|
  {
    if |blocks| > MAX_BLOCKS then NotMounted
    else
      match ItemAt(s, p)
      case Limit(n) => if n <= filemax then Blocks(blocks, n) else BadFilename
      case Entry(x, next) => List(s, next, blocks + [x], Plus(filemax, x))
      case Last(x) =>
        if |blocks| == MAX_BLOCKS then NotMounted
        else Blocks(blocks + [x], Plus(filemax, x))
      case Malformed => BadFilename
  }

  /** The name of a file, behind its device. */
  function Open(s: string, p: nat): Opened { if CharAt(s, p) == '/' then Path else List(s, p, [], 0) }

  /** One round of the loop of grub_open. */
  method ParseItem(s: string, at: nat) returns (r: Item)
    ensures r == ItemAt(s, at)
  {
    var ptr, tmp: nat := at, 0;
    var first := SafeParseMaxint(s, ptr);
    if first.Some? {
      tmp, ptr := first.value.0, first.value.1;
    }
    if CharAt(s, ptr) != '+' {
      return if !Ends(CharAt(s, ptr)) || tmp == 0 then Malformed else Limit(tmp);
    }
    var second := SafeParseMaxint(s, ptr + 1);
    if second.None? || second.value.0 == 0 {
      return Malformed;
    }
    var c := CharAt(s, second.value.1);
    if c == ',' {
      return Entry(Extent(tmp, second.value.0), second.value.1 + 1);
    }
    r := if Ends(c) then Last(Extent(tmp, second.value.0)) else Malformed;
  }

  /** The parser of grub_open. */
  method ParseList(s: string, at: nat) returns (r: Opened)
    ensures r == Open(s, at)
  {
    if CharAt(s, at) == '/' {
      return Path;
    }
    var ptr, blocks, filemax: int := at, [], 0;
    while |blocks| <= MAX_BLOCKS
      invariant |blocks| <= MAX_BLOCKS + 1 && List(s, at, [], 0) == List(s, ptr, blocks, filemax)
      decreases MAX_BLOCKS + 1 - |blocks|
    {
      var item := ParseItem(s, ptr);
      match item
      case Limit(n) => return if n <= filemax then Blocks(blocks, n) else BadFilename;
      case Malformed => return BadFilename;
      case Last(x) =>
        blocks := blocks + [x];
        filemax := Plus(filemax, x);
        return if |blocks| <= MAX_BLOCKS then Blocks(blocks, filemax) else NotMounted;
      case Entry(x, next) =>
        blocks := blocks + [x];
        filemax := Plus(filemax, x);
        ptr := next;
    }
    r := NotMounted;
  }

  /** How many sectors the first `n` extents have. */
  function Before(blocks: seq<Extent>, n: nat): (t: nat)
    requires n <= |blocks|
  {
    if n == 0 then 0 else Before(blocks, n - 1) + blocks[n - 1].length
  }

  lemma {:induction false} BeforeFrame(a: seq<Extent>, b: seq<Extent>, n: nat)
    requires n <= |a| && a <= b
    ensures Before(a, n) == Before(b, n)
  {
    if n > 0 {
      BeforeFrame(a, b, n - 1);
    }
  }

  lemma {:induction false} BeforeGrows(blocks: seq<Extent>, x: Extent)
    ensures Before(blocks + [x], |blocks| + 1) == Before(blocks, |blocks|) + x.length
  {
    BeforeFrame(blocks, blocks + [x], |blocks|);
  }

  predicate Proper(blocks: seq<Extent>) { forall i :: 0 <= i < |blocks| ==> blocks[i].length > 0 }

  /** The size of a list of extents, as an int. */
  function Size(blocks: seq<Extent>): (r: int)
    ensures r <= MAXINT && r <= SECTOR_SIZE * Before(blocks, |blocks|)
  {
    Int32(SECTOR_SIZE * Before(blocks, |blocks|))
  }

  lemma {:induction false} Int32Adds(a: int, b: int)
    ensures Int32(Int32(a) + Int32(b)) == Int32(a + b)
  {
    var p, q := (a + 0x8000_0000) / WORD_LIMIT, (b + 0x8000_0000) / WORD_LIMIT;
    assert Int32(a) == a - p * WORD_LIMIT && Int32(b) == b - q * WORD_LIMIT;
    Arith.ModShift(a + b + 0x8000_0000, p + q, WORD_LIMIT);
  }

  lemma SizeGrows(blocks: seq<Extent>, x: Extent)
    ensures Size(blocks + [x]) == Plus(Size(blocks), x)
  {
    BeforeGrows(blocks, x);
    Int32Adds(SECTOR_SIZE * Before(blocks, |blocks|), x.length * SECTOR_SIZE);
  }

  /** A list that opens has no empty extent, and names no more bytes than its extents have. */
  lemma {:induction false} ListIsProper(s: string, p: nat, blocks: seq<Extent>, filemax: int)
    requires |blocks| <= MAX_BLOCKS + 1 && Proper(blocks) && filemax == Size(blocks)
    ensures var r := List(s, p, blocks, filemax);
            r.Blocks? ==> 0 < |r.blocks| <= MAX_BLOCKS && Proper(r.blocks) && r.filemax <= Size(r.blocks)
    decreases MAX_BLOCKS + 1 - |blocks|
  {
    if |blocks| <= MAX_BLOCKS {
      match ItemAt(s, p)
      case Entry(x, next) =>
        SizeGrows(blocks, x);
        ListIsProper(s, next, blocks + [x], Plus(filemax, x));
      case Last(x) => SizeGrows(blocks, x);
      case _ =>
    }
  }

  // ---------- Opening what was printed ----------

  /** Runs whose numbers the parser can hold. */
  predicate Printable(es: seq<Blocklists.Entry>) {
    forall i :: 0 <= i < |es| ==> es[i].Run? && es[i].start <= MAXINT && 0 < es[i].count <= MAXINT
  }

  function Extents(es: seq<Blocklists.Entry>): (r: seq<Extent>)
    requires Printable(es)
    ensures |r| == |es|
  {
    seq(|es|, i requires 0 <= i < |es| => Extent(es[i].start, es[i].count))
  }

  predicate Stops(t: string) { Finishes(t) || t[0] == ',' }

  predicate Finishes(t: string) { t == "" || Ends(t[0]) }

  lemma PlusReads(s: string, p: nat, t: string)
    requires Reads(s, p, "+" + t)
    ensures CharAt(s, p) == '+' && Reads(s, p + 1, t)
  {
    ReadsOn(s, p, "+", t);
  }

  /** An extent is read, whatever may stand behind it. */
  lemma {:induction false} ItemReads(s: string, p: nat, x: Extent, a: string, b: string, t: string)
    requires Numeral(a, x.start) && Numeral(b, x.length) && x.length > 0 && Stops(t)
    requires Reads(s, p, a + ("+" + (b + t)))
    ensures Reads(s, p + |a| + 1 + |b|, t)
    ensures ItemAt(s, p) == if t != "" && t[0] == ',' then Entry(x, p + |a| + 1 + |b| + 1) else Last(x)
  {
    var u := "+" + (b + t);
    assert u[0] == '+' && NotNumeric(u) && NotNumeric(t);
    PlusReads(s, p + |a|, b + t);
  }

  lemma EntrySplits(a: string, b: string, t: string)
    ensures (a + ("+" + b)) + t == a + ("+" + (b + t))
  {
  }

  lemma CommaSplits(a: string, b: string, t: string)
    ensures (a + ("," + b)) + t == a + ("," + (b + t))
  {
  }

  lemma PrintOne(es: seq<Blocklists.Entry>, t: string, u: string) returns (a: string, b: string)
    requires Printable(es) && |es| == 1 && u == Blocklists.Print(es) + t
    ensures Numeral(a, es[0].start) && Numeral(b, es[0].count) && u == a + ("+" + (b + t))
  {
    a, b := Digits(es[0].start, 10), Digits(es[0].count, 10);
    DigitsAreNumeral(es[0].start);
    DigitsAreNumeral(es[0].count);
    var first := Blocklists.PrintEntry(es[0]);
    assert first + "" == first;
    EntrySplits(a, b, t);
  }

  /** The first entry of a printed list, and the rest. */
  lemma PrintMore(es: seq<Blocklists.Entry>, t: string, u: string) returns (a: string, b: string, rest: string)
    requires Printable(es) && |es| > 1 && u == Blocklists.Print(es) + t
    ensures Numeral(a, es[0].start) && Numeral(b, es[0].count)
    ensures rest == Blocklists.Print(es[1..]) + t && u == a + ("+" + (b + ("," + rest)))
  {
    a, b := Digits(es[0].start, 10), Digits(es[0].count, 10);
    rest := Blocklists.Print(es[1..]) + t;
    DigitsAreNumeral(es[0].start);
    DigitsAreNumeral(es[0].count);
    CommaSplits(Blocklists.PrintEntry(es[0]), Blocklists.Print(es[1..]), t);
    EntrySplits(a, b, "," + rest);
  }

  lemma PrintedItem(s: string, p: nat, es: seq<Blocklists.Entry>, t: string, u: string) returns (rest: string, n: nat)
    requires Printable(es) && |es| > 1 && u == Blocklists.Print(es) + t && Reads(s, p, u)
    ensures rest == Blocklists.Print(es[1..]) + t && Reads(s, n, rest)
    ensures ItemAt(s, p) == Entry(Extent(es[0].start, es[0].count), n)
  {
    var a, b;
    a, b, rest := PrintMore(es, t, u);
    CommaReads(s, p, Extent(es[0].start, es[0].count), a, b, rest);
    n := p + |a| + 1 + |b| + 1;
  }

  lemma CommaReads(s: string, p: nat, x: Extent, a: string, b: string, t: string)
    requires Numeral(a, x.start) && Numeral(b, x.length) && x.length > 0
    requires Reads(s, p, a + ("+" + (b + ("," + t))))
    ensures ItemAt(s, p) == Entry(x, p + |a| + 1 + |b| + 1) && Reads(s, p + |a| + 1 + |b| + 1, t)
  {
    var u := "," + t;
    assert u[0] == ',';
    ItemReads(s, p, x, a, b, u);
    ReadsOn(s, p + |a| + 1 + |b|, ",", t);
  }

  lemma {:induction false} PrintedLast(s: string, p: nat, es: seq<Blocklists.Entry>, t: string, u: string)
    requires Printable(es) && |es| == 1 && u == Blocklists.Print(es) + t && Reads(s, p, u) && Finishes(t)
    ensures ItemAt(s, p) == Last(Extent(es[0].start, es[0].count))
  {
    var a, b := PrintOne(es, t, u);
    ItemReads(s, p, Extent(es[0].start, es[0].count), a, b, t);
  }

  lemma ExtentsSplit(es: seq<Blocklists.Entry>, blocks: seq<Extent>)
    requires Printable(es) && es != []
    ensures (blocks + [Extent(es[0].start, es[0].count)]) + Extents(es[1..]) == blocks + Extents(es)
  {
  }

  /** A printed list of runs opens to its extents, and the file has all their bytes, if and only if the extents fit
      the table. */
  lemma {:induction false} PrintedListParses(s: string, p: nat, es: seq<Blocklists.Entry>, t: string, u: string,
                                             blocks: seq<Extent>)
    requires Printable(es) && es != [] && |blocks| <= MAX_BLOCKS + 1
    requires u == Blocklists.Print(es) + t && Finishes(t) && Reads(s, p, u)
    ensures List(s, p, blocks, Size(blocks)) ==
            if |blocks| + |es| <= MAX_BLOCKS then Blocks(blocks + Extents(es), Size(blocks + Extents(es)))
            else NotMounted
    decreases |es|
  {
    if |blocks| > MAX_BLOCKS {
      return;
    }
    var x := Extent(es[0].start, es[0].count);
    SizeGrows(blocks, x);
    ExtentsSplit(es, blocks);
    if |es| == 1 {
      PrintedLast(s, p, es, t, u);
      assert (blocks + [x]) + [] == blocks + [x];
    } else {
      var rest, n := PrintedItem(s, p, es, t, u);
      PrintedListParses(s, n, es[1..], t, rest, blocks + [x]);
    }
  }

  // ---------- Reading ----------

  /** Where byte `pos` of a file is on the partition, from extent `i` on. */
  function AddressFrom(blocks: seq<Extent>, i: nat, pos: nat): (a: nat)
    decreases |blocks| - i
  {
    if i >= |blocks| then 0
    else if pos < SECTOR_SIZE * blocks[i].length then SECTOR_SIZE * blocks[i].start + pos
    else AddressFrom(blocks, i + 1, pos - SECTOR_SIZE * blocks[i].length)
  }

  function Address(blocks: seq<Extent>, pos: nat): nat { AddressFrom(blocks, 0, pos) }

  lemma {:induction false} AddressSkips(blocks: seq<Extent>, i: nat, pos: nat)
    requires i <= |blocks| && pos >= SECTOR_SIZE * Before(blocks, i)
    ensures Address(blocks, pos) == AddressFrom(blocks, i, pos - SECTOR_SIZE * Before(blocks, i))
    decreases i
  {
    if i > 0 {
      AddressSkips(blocks, i - 1, pos);
    }
  }

  lemma {:induction false} BeforeGrowsTo(blocks: seq<Extent>, i: nat, j: nat)
    requires i <= j <= |blocks|
    ensures Before(blocks, i) <= Before(blocks, j)
    decreases j
  {
    if i < j {
      BeforeGrowsTo(blocks, i, j - 1);
    }
  }

  lemma {:induction false} AddressPrefix(a: seq<Extent>, b: seq<Extent>, i: nat, pos: nat)
    requires i <= |a| && a <= b && pos < SECTOR_SIZE * (Before(a, |a|) - Before(a, i))
    ensures AddressFrom(a, i, pos) == AddressFrom(b, i, pos)
    decreases |a| - i
  {
    if i < |a| && pos >= SECTOR_SIZE * a[i].length {
      AddressPrefix(a, b, i + 1, pos - SECTOR_SIZE * a[i].length);
    }
  }

  // ---------- What was read, printed, and opened again ----------

  ghost predicate AllWhole(ps: seq<Blocklists.Piece>) {
    forall i :: 0 <= i < |ps| ==> ps[i].Whole? && ps[i].sector <= MAXINT
  }

  lemma AllWholeSplit(a: seq<Blocklists.Piece>, b: seq<Blocklists.Piece>)
    requires AllWhole(a + b)
    ensures AllWhole(a) && AllWhole(b)
  {
    assert forall i :: 0 <= i < |a| ==> a[i] == (a + b)[i];
    assert forall i :: 0 <= i < |b| ==> b[i] == (a + b)[|a| + i];
  }

  lemma LastIsPrintable(e: Blocklists.Entry)
    requires e.Run? ==> e.count > 0
    requires AllWhole(if e.Run? then Blocklists.Range(e.start, e.count) else [Blocklists.Bytes(e.sector, e.from, e.to)])
    ensures e.Run? && e.start <= MAXINT
  {
    var ps := if e.Run? then Blocklists.Range(e.start, e.count) else [Blocklists.Bytes(e.sector, e.from, e.to)];
    assert ps[0].Whole? && ps[0].sector <= MAXINT;
  }

  /** Entries that stand for whole sectors only are runs. */
  lemma {:induction false} WholeIsPrintable(es: seq<Blocklists.Entry>)
    requires Blocklists.NoEmptyRun(es) && |Blocklists.Expand(es)| <= MAXINT && AllWhole(Blocklists.Expand(es))
    ensures Printable(es) && Before(Extents(es), |es|) == |Blocklists.Expand(es)|
    decreases |es|
  {
    if es != [] {
      var init, last := es[..|es| - 1], es[|es| - 1];
      var tail := if last.Run? then Blocklists.Range(last.start, last.count)
                  else [Blocklists.Bytes(last.sector, last.from, last.to)];
      AllWholeSplit(Blocklists.Expand(init), tail);
      LastIsPrintable(last);
      WholeIsPrintable(init);
      assert Extents(es) == Extents(init) + [Extent(last.start, last.count)];
      BeforeGrows(Extents(init), Extent(last.start, last.count));
    }
  }

  /** Byte `o` of sector `k` of the file is that byte of the `k`th sector the entries name. */
  lemma {:induction false} AddressOfExpand(es: seq<Blocklists.Entry>, k: nat, o: nat)
    requires Printable(es) && Before(Extents(es), |es|) == |Blocklists.Expand(es)|
    requires k < |Blocklists.Expand(es)| && o < SECTOR_SIZE
    ensures Address(Extents(es), SECTOR_SIZE * k + o) == SECTOR_SIZE * Blocklists.Expand(es)[k].sector + o
    decreases |es|
  {
    var init, last := es[..|es| - 1], es[|es| - 1];
    var blocks := Extents(init) + [Extent(last.start, last.count)];
    assert Extents(es) == blocks;
    BeforeGrows(Extents(init), Extent(last.start, last.count));
    BeforeFrame(Extents(init), blocks, |init|);
    if k < |Blocklists.Expand(init)| {
      AddressOfExpand(init, k, o);
      AddressPrefix(Extents(init), blocks, 0, SECTOR_SIZE * k + o);
    } else {
      AddressSkips(blocks, |init|, SECTOR_SIZE * k + o);
    }
  }

  /** Events that start with their sectors, on sectors an int can name. */
  predicate Addressable(evs: seq<Event>, partStart: nat) {
    forall i :: 0 <= i < |evs| ==> evs[i].offset == 0 && partStart <= evs[i].sector <= partStart + MAXINT
  }

  lemma {:induction false} EventsAreWhole(es: seq<Blocklists.Entry>, evs: seq<Event>, partStart: nat)
    requires Addressable(evs, partStart) && SECTOR_SIZE * |evs| <= MAXINT && Blocklists.Within(evs, partStart)
    requires Blocklists.NoEmptyRun(es) && Blocklists.Expand(es) == Blocklists.Wanted(evs, partStart)
    ensures Printable(es) && Before(Extents(es), |es|) == |evs|
    ensures Size(Extents(es)) == SECTOR_SIZE * |evs|
  {
    forall i | 0 <= i < |Blocklists.Expand(es)|
      ensures Blocklists.Expand(es)[i].Whole? && Blocklists.Expand(es)[i].sector <= MAXINT
    {
      assert Blocklists.Expand(es)[i] == Blocklists.PieceOf(evs[i], partStart);
    }
    WholeIsPrintable(es);
  }

  lemma NoSlash(s: string, p: nat)
    requires CharAt(s, p) == '/'
    ensures ItemAt(s, p) == Malformed
  {
  }

  /** The list of the sectors that were read opens, and the file has their size. */
  lemma {:induction false} BlocklistOpens(s: string, p: nat, list: string, es: seq<Blocklists.Entry>, evs: seq<Event>,
                                         partStart: nat)
    requires Addressable(evs, partStart) && 0 < SECTOR_SIZE * |evs| <= MAXINT && |es| <= MAX_BLOCKS
    requires Blocklists.Within(evs, partStart) && Blocklists.NoEmptyRun(es)
    requires Blocklists.Expand(es) == Blocklists.Wanted(evs, partStart)
    requires list == Blocklists.Print(es) && Reads(s, p, list)
    ensures Printable(es) && Open(s, p) == Blocks(Extents(es), SECTOR_SIZE * |evs|)
  {
    EventsAreWhole(es, evs, partStart);
    assert es != [];
    ListOpens(s, p, list, es);
  }

  /** A printed list opens if and only if it has at most 4093 entries. */
  lemma {:induction false} ListOpens(s: string, p: nat, list: string, es: seq<Blocklists.Entry>)
    requires Printable(es) && es != [] && list == Blocklists.Print(es) && Reads(s, p, list)
    ensures Open(s, p) == if |es| <= MAX_BLOCKS then Blocks(Extents(es), Size(Extents(es))) else NotMounted
  {
    hide ItemAt, Blocklists.Print;
    assert list == list + "";
    PrintedListParses(s, p, es, "", list, []);
    assert [] + Extents(es) == Extents(es);
    if CharAt(s, p) == '/' {
      NoSlash(s, p);
    }
  }

  /** The file consists of the sectors that were read, in the order they were read. */
  lemma {:induction false} BlocklistNames(es: seq<Blocklists.Entry>, evs: seq<Event>, partStart: nat, m: nat)
    requires Addressable(evs, partStart) && SECTOR_SIZE * |evs| <= MAXINT && m < SECTOR_SIZE * |evs|
    requires Blocklists.Within(evs, partStart) && Blocklists.NoEmptyRun(es)
    requires Blocklists.Expand(es) == Blocklists.Wanted(evs, partStart)
    ensures Printable(es)
    ensures SECTOR_SIZE * partStart + Address(Extents(es), m) ==
            SECTOR_SIZE * evs[m / SECTOR_SIZE].sector + m % SECTOR_SIZE
  {
    EventsAreWhole(es, evs, partStart);
    AddressOfExpand(es, m / SECTOR_SIZE, m % SECTOR_SIZE);
    assert Blocklists.Expand(es)[m / SECTOR_SIZE] == Blocklists.PieceOf(evs[m / SECTOR_SIZE], partStart);
  }

  /** Sector `num` of extent `i` holds position `pos`. */
  ghost predicate Holds(blocks: seq<Extent>, i: nat, num: nat, pos: nat) {
    && i < |blocks| && num < blocks[i].length
    && SECTOR_SIZE * (Before(blocks, i) + num) <= pos < SECTOR_SIZE * (Before(blocks, i) + num) + SECTOR_SIZE
  }

  /** The bytes from `pos` to the end of the extent stand together on the partition. */
  lemma {:induction false} HeldAddress(blocks: seq<Extent>, i: nat, num: nat, pos: nat, k: nat)
    requires Holds(blocks, i, num, pos) && pos + k < SECTOR_SIZE * (Before(blocks, i) + blocks[i].length)
    ensures Address(blocks, pos + k) ==
            SECTOR_SIZE * (blocks[i].start + num) + (pos - SECTOR_SIZE * (Before(blocks, i) + num)) + k
  {
    AddressSkips(blocks, i, pos + k);
  }

  /** How many bytes the extent that holds byte `pos` of a file has from there on. */
  function LeftFrom(blocks: seq<Extent>, i: nat, pos: nat): (n: nat)
    decreases |blocks| - i
  {
    if i >= |blocks| then 0
    else if pos < SECTOR_SIZE * blocks[i].length then SECTOR_SIZE * blocks[i].length - pos
    else LeftFrom(blocks, i + 1, pos - SECTOR_SIZE * blocks[i].length)
  }

  lemma {:induction false} LeftSkips(blocks: seq<Extent>, i: nat, pos: nat)
    requires i <= |blocks| && pos >= SECTOR_SIZE * Before(blocks, i)
    ensures LeftFrom(blocks, 0, pos) == LeftFrom(blocks, i, pos - SECTOR_SIZE * Before(blocks, i))
    decreases i
  {
    if i > 0 {
      LeftSkips(blocks, i - 1, pos);
    }
  }

  lemma {:induction false} HeldLeft(blocks: seq<Extent>, i: nat, num: nat, pos: nat)
    requires Holds(blocks, i, num, pos)
    ensures LeftFrom(blocks, 0, pos) == (blocks[i].length - num) * SECTOR_SIZE - pos % SECTOR_SIZE
  {
    LeftSkips(blocks, i, pos);
  }

  /** What one round of a read takes of the `len` bytes wanted: what the extent has left, counted in an int. */
  function RoundSize(blocks: seq<Extent>, pos: nat, len: nat): int {
    var n := Int32(LeftFrom(blocks, 0, pos));
    if n > len then len else n
  }

  /** All rounds of a read go forward. */
  predicate Advances(blocks: seq<Extent>, pos: nat, len: nat)
    decreases len
  {
    len > 0 ==> var n := RoundSize(blocks, pos, len); n > 0 && Advances(blocks, pos + n, len - n)
  }

  /** The bytes of each extent can be counted in an int. */
  predicate Small(blocks: seq<Extent>) {
    forall i :: 0 <= i < |blocks| ==> SECTOR_SIZE * blocks[i].length <= MAXINT
  }

  /** They do so if no extent has 2^31 bytes or more. */
  lemma {:induction false} SmallAdvances(blocks: seq<Extent>, pos: nat, len: nat)
    requires Small(blocks) && pos + len <= SECTOR_SIZE * Before(blocks, |blocks|)
    ensures Advances(blocks, pos, len)
    decreases len
  {
    if len > 0 {
      LeftIsSmall(blocks, 0, pos);
      var n := RoundSize(blocks, pos, len);
      SmallAdvances(blocks, pos + n, len - n);
    }
  }

  lemma {:induction false} LeftIsSmall(blocks: seq<Extent>, i: nat, pos: nat)
    requires Small(blocks) && i <= |blocks| && pos < SECTOR_SIZE * (Before(blocks, |blocks|) - Before(blocks, i))
    ensures 0 < LeftFrom(blocks, i, pos) <= MAXINT
    decreases |blocks| - i
  {
    if i < |blocks| && pos >= SECTOR_SIZE * blocks[i].length {
      LeftIsSmall(blocks, i + 1, pos - SECTOR_SIZE * blocks[i].length);
    }
  }

  /** A list that opens as a file of 512 bytes, and a read of these that takes 0 of them in its first round. */
  lemma EndlessRead(s: string, p: nat)
    requires Reads(s, p, Blocklists.Print([Blocklists.Run(0, 8388608), Blocklists.Run(0, 1)]))
    ensures var blocks := [Extent(0, 8388608), Extent(0, 1)];
      Open(s, p) == Blocks(blocks, 512) && RoundSize(blocks, 0, 512) == 0 && !Advances(blocks, 0, 512)
  {
    hide Open, List, Blocklists.Print, Reads;
    var es, blocks := [Blocklists.Run(0, 8388608), Blocklists.Run(0, 1)], [Extent(0, 8388608), Extent(0, 1)];
    EndlessRounds(blocks);
    assert Extents(es) == blocks;
    ListOpens(s, p, Blocklists.Print(es), es);
  }

  lemma {:induction false} EndlessRounds(blocks: seq<Extent>)
    requires blocks == [Extent(0, 8388608), Extent(0, 1)]
    ensures Size(blocks) == 512 && RoundSize(blocks, 0, 512) == 0 && !Advances(blocks, 0, 512)
  {
    assert Before(blocks, 0) == 0 && Before(blocks, 1) == 8388608 && Before(blocks, 2) == 8388609;
    assert LeftFrom(blocks, 0, 0) == 0x1_0000_0000;
  }

  datatype Error = ErrNone | ErrRead | ErrFileLength

  class File {
    const image: seq<Byte>      // the partition
    const blocks: seq<Extent>
    const filemax: int
    const fsmax: int
    const reliable: bool        // whether devread reads whatever lies on the partition
    var filepos: int
    var curFilepos: int         // BLK_CUR_FILEPOS
    var curBlklist: nat         // BLK_CUR_BLKLIST, as an index
    var curBlknum: nat          // BLK_CUR_BLKNUM
    var errnum: Error

    /** The extent and sector of the cursor hold its position. */
    ghost predicate Valid()
      reads this
    {
      && 0 <= filemax <= SECTOR_SIZE * Before(blocks, |blocks|) && filemax <= MAXINT
      && Proper(blocks) && blocks != []
      && curFilepos >= 0 && Holds(blocks, curBlklist, curBlknum, curFilepos)
    }

    /** A list that opened; its size is that of its extents or less. */
    constructor (image: seq<Byte>, blocks: seq<Extent>, filemax: int, reliable: bool)
      requires blocks != [] && Proper(blocks) && 0 <= filemax <= Size(blocks)
      ensures Valid() && this.image == image && this.blocks == blocks && this.filemax == filemax && fsmax == MAXINT
      ensures filepos == 0 && errnum == ErrNone && this.reliable == reliable
    {
      this.image, this.blocks, this.filemax, fsmax, this.reliable := image, blocks, filemax, MAXINT, reliable;
      filepos, curFilepos, curBlklist, curBlknum, errnum := 0, 0, 0, 0, ErrNone;
      new;
      assert Before(blocks, 0) == 0;
    }

    /** devread: bytes of the partition, unless the read fails. */
    method DevRead(sector: nat, offset: nat, length: nat) returns (data: seq<Byte>)
      requires errnum == ErrNone
      modifies this`errnum
      ensures errnum == ErrNone ==>
                SECTOR_SIZE * sector + offset + length <= |image| &&
                data == image[SECTOR_SIZE * sector + offset..][..length]
      ensures errnum == ErrNone || (errnum == ErrRead && data == [])
      ensures errnum == ErrRead && reliable ==> SECTOR_SIZE * sector + offset + length > |image|
    {
      data := [];
      if SECTOR_SIZE * sector + offset + length > |image| {
        errnum := ErrRead;
        return;
      }
      var works := *;
      if !works && !reliable {
        errnum := ErrRead;
        return;
      }
      data := image[SECTOR_SIZE * sector + offset..][..length];
    }

    /** Starts over at the first extent. */
    method Rewind()
      requires Valid()
      modifies this`curFilepos, this`curBlklist, this`curBlknum
      ensures Valid() && curFilepos == 0
    {
      curFilepos, curBlklist, curBlknum := 0, 0, 0;
      assert Before(blocks, 0) == 0;
    }

    /** One sector further. */
    method NextSector()
      requires Valid() && curFilepos - curFilepos % SECTOR_SIZE + SECTOR_SIZE < SECTOR_SIZE * Before(blocks, |blocks|)
      modifies this`curFilepos, this`curBlklist, this`curBlknum
      ensures Valid() && curFilepos == old(curFilepos) + SECTOR_SIZE
    {
      curFilepos := curFilepos + SECTOR_SIZE;
      curBlknum := curBlknum + 1;
      if curBlknum >= blocks[curBlklist].length {
        curBlklist, curBlknum := curBlklist + 1, 0;
      }
    }

    /** Runs the cursor up to the sector of `filepos`. */
    method RunUp()
      requires Valid() && 0 <= filepos < filemax
      modifies this`curFilepos, this`curBlklist, this`curBlknum
      ensures Valid() && Holds(blocks, curBlklist, curBlknum, filepos)
    {
      if filepos < curFilepos {
        Rewind();
      }
      while filepos > curFilepos
        invariant Valid() && curFilepos - curFilepos % SECTOR_SIZE <= filepos
        decreases filepos - curFilepos
      {
        if filepos - (curFilepos - curFilepos % SECTOR_SIZE) >= SECTOR_SIZE {
          NextSector();
        } else {
          curFilepos := filepos;
        }
      }
    }

    /** The bytes from `pos` on, `n` of them, are those the extents name. */
    ghost predicate HasBytes(data: seq<Byte>, pos: nat)
    {
      forall m :: pos <= m < pos + |data| ==> Address(blocks, m) < |image| && data[m - pos] == image[Address(blocks, m)]
    }

    /** One of `n` bytes from `pos` on is not on the partition. */
    ghost predicate OffImage(pos: nat, n: nat) { exists m: nat :: pos <= m < pos + n && Address(blocks, m) >= |image| }

    lemma {:induction false} HeldOffImage(i: nat, num: nat, pos: nat, off: nat, n: nat)
      requires Holds(blocks, i, num, pos) && off == pos - SECTOR_SIZE * (Before(blocks, i) + num) && n > 0
      requires pos + n <= SECTOR_SIZE * (Before(blocks, i) + blocks[i].length)
      requires SECTOR_SIZE * (blocks[i].start + num) + off + n > |image|
      ensures OffImage(pos, n)
    {
      HeldAddress(blocks, i, num, pos, n - 1);
      var m := pos + (n - 1);
      assert Address(blocks, m) >= |image|;
    }

    lemma OffImageInside(at: nat, k: nat, pos: nat, n: nat)
      requires OffImage(at, k) && pos <= at && at + k <= pos + n
      ensures OffImage(pos, n)
    {
    }

    lemma {:induction false} HeldBytes(i: nat, num: nat, pos: nat, off: nat, data: seq<Byte>)
      requires Holds(blocks, i, num, pos) && off == pos - SECTOR_SIZE * (Before(blocks, i) + num)
      requires pos + |data| <= SECTOR_SIZE * (Before(blocks, i) + blocks[i].length)
      requires SECTOR_SIZE * (blocks[i].start + num) + off + |data| <= |image|
      requires data == image[SECTOR_SIZE * (blocks[i].start + num) + off..][..|data|]
      ensures HasBytes(data, pos)
    {
      forall m | pos <= m < pos + |data|
        ensures Address(blocks, m) < |image| && data[m - pos] == image[Address(blocks, m)]
      {
        HeldAddress(blocks, i, num, pos, m - pos);
      }
    }

    /** One round of grub_read: what the current extent has of the bytes from `filepos` on. */
    method ReadPiece(len: int) returns (size: int, data: seq<Byte>)
      requires Valid() && errnum == ErrNone && 0 <= filepos < filemax && 0 < len <= filemax - filepos
      modifies this`filepos, this`curFilepos, this`curBlklist, this`curBlknum, this`errnum
      ensures Valid() && size == RoundSize(blocks, old(filepos), len)
      ensures size > 0 ==> filepos == old(filepos) + size && (errnum == ErrNone || errnum == ErrRead)
      ensures size > 0 && errnum == ErrNone ==> |data| == size && HasBytes(data, old(filepos))
      ensures size > 0 && errnum == ErrRead && reliable ==> OffImage(old(filepos), size)
      ensures size <= 0 ==> filepos == old(filepos) && errnum == ErrNone
    {
      hide Before, LeftFrom, Proper, HasBytes, OffImage;
      RunUp();
      data := [];
      var off := filepos % SECTOR_SIZE;
      HeldLeft(blocks, curBlklist, curBlknum, filepos);
      size := Int32((blocks[curBlklist].length - curBlknum) * SECTOR_SIZE - off);
      if size > len {
        size := len;
      }
      if size > 0 {
        data := DevRead(blocks[curBlklist].start + curBlknum, off, size);
        if errnum == ErrNone {
          HeldBytes(curBlklist, curBlknum, filepos, off, data);
        } else if reliable {
          HeldOffImage(curBlklist, curBlknum, filepos, off, size);
        }
        filepos := filepos + size;
      }
    }

    lemma JoinBytes(a: seq<Byte>, b: seq<Byte>, pos: nat)
      requires HasBytes(a, pos) && HasBytes(b, pos + |a|)
      ensures HasBytes(a + b, pos)
    {
      forall m | pos <= m < pos + |a + b|
        ensures Address(blocks, m) < |image| && (a + b)[m - pos] == image[Address(blocks, m)]
      {
        assert m >= pos + |a| ==> (a + b)[m - pos] == b[m - (pos + |a|)];
      }
    }

    /** grub_read: the bytes asked for, up to the end of the file, however the file was read and positioned
        before; none if a read fails.  It is `stuck` if and only if, but for a failure, a round comes that does not go
        forward: the source then repeats it for ever, or goes backward. */
    method Read(length: int) returns (ret: int, data: seq<Byte>, stuck: bool)
      requires Valid() && errnum == ErrNone
      modifies this`filepos, this`curFilepos, this`curBlklist, this`curBlknum, this`errnum
      ensures Valid()
      ensures var start := if 0 <= old(filepos) <= filemax then old(filepos) else filemax;
              var n := if 0 <= length <= filemax - start then length else filemax - start;
              && (errnum == ErrFileLength <==> start + n > fsmax)
              && (errnum == ErrNone ==> (stuck <==> !Advances(blocks, start, n)))
              && (errnum == ErrNone && !stuck ==> ret == |data| == n && filepos == start + n && HasBytes(data, start))
              && (errnum == ErrRead && reliable ==> OffImage(start, n))
      ensures errnum != ErrNone ==> ret == 0 && !stuck
    {
      if filepos < 0 || filepos > filemax {
        filepos := filemax;
      }
      var len := length;
      if len < 0 || len > filemax - filepos {
        len := filemax - filepos;
      }
      ret, data, stuck := 0, [], false;
      if filepos + len > fsmax {
        errnum := ErrFileLength;
        return;
      }
      ghost var start: nat, all: nat := filepos, len;
      while len != 0 && errnum == ErrNone
        invariant Valid() && (errnum == ErrNone || errnum == ErrRead)
        invariant 0 <= len == all - ret && ret >= 0 && filepos == start + ret && start + all <= filemax
        invariant errnum == ErrNone ==> |data| == ret && HasBytes(data, start)
        invariant errnum == ErrNone ==> (Advances(blocks, start, all) <==> Advances(blocks, filepos, len))
        invariant errnum == ErrRead && reliable ==> OffImage(start, all)
        decreases len
      {
        ghost var at: nat := filepos;
        var size, piece := ReadPiece(len);
        if errnum == ErrRead && reliable {
          OffImageInside(at, size, start, all);
        }
        if size <= 0 {
          stuck := true;
          return;
        }
        if errnum == ErrNone {
          JoinBytes(data, piece, start);
        }
        len, ret, data := len - size, ret + size, data + piece;
      }
      if errnum != ErrNone {
        ret := 0;
      }
    }

    /** grub_seek. */
    method Seek(offset: int) returns (r: int)
      modifies this`filepos
      ensures r == (if 0 <= offset <= filemax then offset else -1)
      ensures filepos == if 0 <= offset <= filemax then offset else old(filepos)
    {
      if offset > filemax || offset < 0 {
        return -1;
      }
      filepos := offset;
      r := offset;
    }
  }
}
