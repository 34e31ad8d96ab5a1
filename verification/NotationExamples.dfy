/**
 Numbers, device names and block lists, character by character (loader/shared/convtoascii.c,
 loader/shared/safeparsemaxint.c, loader/setdev.c, loader/preldr/func.c, loader/loader/commands.c).
 */
module NotationExamples {
  import opened Common
  import opened Strings
  import opened Numbers
  import Blocklists
  import BlockFiles
  import opened DeviceNotation

  // ---------- Numbers ----------

  lemma DigitTable(d: nat)
    requires d < 16
    ensures DigitChar(d) == "0123456789abcdef"[d]
    ensures DigitValue("0123456789abcdef"[d], 16) == DigitValue("0123456789ABCDEF"[d], 16) == d
    ensures DigitValue("0123456789abcdef"[d], 10) == if d < 10 then d else -1
  {
  }

  lemma Decimal()
    ensures Digits(7, 10) == "7" && Digits(100, 10) == "100" && Digits(512, 10) == "512"
    ensures Digits(4294967295, 10) == "4294967295"
  {
    assert Digits(42, 10) == "42" && Digits(4294, 10) == "4294" && Digits(429496, 10) == "429496";
    assert Digits(42949672, 10) == "42949672";
  }

  lemma Hexadecimal()
    ensures Digits(0xDEADBEEF, 16) == "deadbeef"
  {
    assert Digits(0xDEAD, 16) == "dead";
    assert Digits(0xDEADBE, 16) == "deadbe";
  }

  lemma Conversions()
    ensures Ascii('x', 0xDEADBEEF) == Ascii('X', 0xDEADBEEF) == "deadbeef"
    ensures Ascii('d', 0xFFFF_FFF9) == "-7" && Ascii('d', 512) == "512" && Ascii('u', 0xFFFF_FFFF) == "4294967295"
  {
    Decimal();
    Hexadecimal();
  }

  /** Numbers up to 2^31 - 1 are taken, and larger ones are not. */
  lemma {:induction false} LargestNumber(s: string, i: nat, n: nat)
    requires At(s, i, Digits(n, 10))
    requires var c := CharAt(s, i + |Digits(n, 10)|); !IsDigit(c, 10) && ToLower(c) != 'x'
    ensures if n <= 0x7FFF_FFFF then Parse(s, i) == Some((n, i + |Digits(n, 10)|)) else Parse(s, i) == None
  {
    var d := Digits(n, 10);
    if n <= 0x7FFF_FFFF {
      ParsePrinted(s, i, n);
    } else {
      DigitsAreDigits(n, 10);
      forall j | i <= j < i + |d|
        ensures IsDigit(s[j], 10)
      {
        assert s[j] == s[i..i + |d|][j - i];
      }
      RunCovers(s, i, |d|, 10);
      ValueOfDigits(s, i, n, 10);
      assert IsDigit(s[i], 10) && (|d| > 1 ==> IsDigit(s[i + 1], 10));
    }
  }

  // ---------- Device names ----------

  /** A type and a number: what is added to the number. */
  predicate IsKind(kind: string, base: nat) {
    (kind == "fd" && base == 0) || (kind == "hd" && base == 128) || (kind == "ld" && base == 192)
  }

  lemma {:induction false} NamedDrive(s: string, i: nat, kind: string, base: nat, n: nat, cfg: Config, t: string)
    requires IsKind(kind, base) && n <= MAXINT && Delimits(t)
    requires Reads(s, i, kind + (Digits(n, 10) + t))
    ensures DriveAt(s, i, cfg) == Some((base + n, i + 2 + |Digits(n, 10)|))
  {
    TypeReads(s, i, kind, Digits(n, 10) + t);
    DigitsAreNumeral(n);
    assert NotNumeric(t);
  }

  /** Without a number it is the drive saved, and without a type, too. */
  lemma SavedDrive(s: string, i: nat, kind: string, base: nat, cfg: Config, t: string)
    requires IsKind(kind, base) && Delimits(t)
    ensures Reads(s, i, kind + t) ==> DriveAt(s, i, cfg) == Some((base + cfg.savedDrive, i + 2))
    ensures Reads(s, i, t) ==> DriveAt(s, i, cfg) == Some((cfg.savedDrive, i))
  {
    if Reads(s, i, kind + t) {
      TypeReads(s, i, kind, t);
      NoNumber(s, i + 2, t);
    }
    if Reads(s, i, t) {
      NextChar(s, i, t);
    }
  }

  lemma NoNumber(s: string, p: nat, t: string)
    requires Reads(s, p, t) && Delimits(t)
    ensures Parse(s, p) == None
  {
    NextChar(s, p, t);
    assert !IsDigit(CharAt(s, p), 10);
  }

  /** A PC partition must be one of a hard disk and at most 254, */
  lemma {:induction false} PartitionLimit(s: string, k: nat, drive: nat, pc: nat, cfg: Config, t: string)
    requires Reads(s, k, Digits(pc, 10) + t) && NotNumeric(t) && pc <= MAXINT && drive < 256
    ensures pc > 254 || drive < 128 ==> PartitionAt(s, k, drive, cfg) == None
  {
    DigitsAreNumeral(pc);
    DigitsAreDecimal(pc, k, s, t);
  }

  /** and without one it is the partition saved. */
  lemma SavedPartition(s: string, k: nat, drive: nat, cfg: Config, t: string)
    requires Reads(s, k, ")" + t)
    ensures PartitionAt(s, k, drive, cfg) == Some((cfg.savedPartition, k))
  {
    ReadsOn(s, k, ")", t);
  }

  /** A partition number: PC and BSD partition, and 0xFF below.  Diskettes have no PC partition. */
  predicate IsPartition(drive: nat, partition: nat, pc: nat, bsd: nat) {
    && partition == pc * 0x10000 + bsd * 0x100 + 0xFF
    && (bsd < 8 || bsd == 0xFF) && (pc == 0xFF || (drive >= 128 && pc < 0x100))
  }

  /** Which drives and partitions are sane. */
  lemma SaneBytes(drive: nat, partition: nat, cdrom: nat)
    requires drive < 0x100
    ensures Regular(drive, partition, cdrom) <==>
            && (drive < 8 || 128 <= drive < 136 || drive >= 192 || drive == cdrom)
            && exists pc: nat, bsd: nat :: IsPartition(drive, partition, pc, bsd)
  {
    if Regular(drive, partition, cdrom) {
      assert IsPartition(drive, partition, partition / 0x10000, partition / 0x100 % 0x100);
    }
  }

  lemma SmallNumbers()
    ensures Digits(0, 10) == "0" && Digits(1, 10) == "1" && Digits(2, 10) == "2" && Digits(10, 10) == "10"
  {
  }

  lemma Drives()
    ensures DriveText(0x80, 0xFF) == "hd0" && DriveText(0x81, 0xFF) == "hd1" && DriveText(1, 0xFF) == "fd1"
    ensures DriveText(0x9F, 0x9F) == "cd"
  {
    hide Digits;
    SmallNumbers();
  }

  lemma Partitions()
    ensures PcText(Pc(0x00FFFF)) == ",0" && PcText(Pc(0x0202FF)) == ",2" && PcText(Pc(0xFF00FF)) == ""
    ensures BsdText(Bsd(0x00FFFF)) == "" && BsdText(Bsd(0x0202FF)) == ",c" && BsdText(Bsd(0xFF00FF)) == ",a"
    ensures PcText(Pc(0xFFFFFF)) == "" && BsdText(Bsd(0xFFFFFF)) == ""
  {
    hide Digits;
    SmallNumbers();
  }

  lemma Names()
    ensures DeviceText(0x80, 0x00FFFF, 0xFF) == "(hd0,0)" && DeviceText(0x81, 0x0202FF, 0xFF) == "(hd1,2,c)"
    ensures DeviceText(0x80, 0xFF00FF, 0xFF) == "(hd0,a)" && DeviceText(1, 0xFFFFFF, 0xFF) == "(fd1)"
    ensures DeviceText(0x9F, 0xFFFFFF, 0x9F) == "(cd)"
  {
    hide DriveText, PcText, BsdText, Pc, Bsd;
    Drives();
    Partitions();
  }

  // ---------- Block lists ----------

  /** A partition that starts at sector 93: bytes 10 to 512 of one sector, and a sector read from its start. */
  lemma Pieces()
    ensures Blocklists.PieceOf(Event(100, 10, 502), 93) == Blocklists.Bytes(7, 10, 512)
    ensures Blocklists.PieceOf(Event(193, 0, 512), 93) == Blocklists.Whole(100)
  {
  }

  lemma EntryText()
    ensures Blocklists.PrintEntry(Blocklists.Run(100, 2)) == "100+2"
    ensures Blocklists.PrintEntry(Blocklists.Part(7, 10, 512)) == "7[10-512]"
  {
    hide Digits;
    Decimal();
    SmallNumbers();
  }

  lemma ListText()
    ensures Blocklists.Print([Blocklists.Run(100, 2), Blocklists.Part(7, 10, 512)]) == "100+2,7[10-512]"
  {
    hide Blocklists.PrintEntry;
    EntryText();
    var a, b := Blocklists.Run(100, 2), Blocklists.Part(7, 10, 512);
    assert [a, b][1..] == [b];
    assert Blocklists.Print([b]) == "7[10-512]" + "";
  }

  /** An extent without a start starts at sector 0. */
  lemma {:induction false} OmittedStart(s: string, p: nat, n: nat, t: string)
    requires 0 < n <= MAXINT && BlockFiles.Stops(t) && Reads(s, p, "+" + (Digits(n, 10) + t))
    ensures BlockFiles.ItemAt(s, p) ==
            if t != "" && t[0] == ',' then BlockFiles.Entry(BlockFiles.Extent(0, n), p + 1 + |Digits(n, 10)| + 1)
            else BlockFiles.Last(BlockFiles.Extent(0, n))
  {
    ReadsOn(s, p, "+", Digits(n, 10) + t);
    DigitsAreNumeral(n);
    assert NotNumeric(t) && s[p] == '+' && CharAt(s, p) == '+';
  }

  /** What may stand behind a list: nothing, a path, or a space of any kind. */
  lemma BehindList(t: string)
    ensures BlockFiles.Finishes(t) <==> t == "" || t[0] in "\0/ \t\r\n"
  {
    assert "\0/ \t\r\n" == ['\0', '/', ' ', '\t', '\r', '\n'];
  }

  /** A number alone is the size. */
  lemma {:induction false} SizeAlone(s: string, p: nat, n: nat, t: string)
    requires 0 < n <= MAXINT && BlockFiles.Finishes(t) && Reads(s, p, Digits(n, 10) + t)
    ensures BlockFiles.ItemAt(s, p) == BlockFiles.Limit(n)
  {
    DigitsAreNumeral(n);
    assert NotNumeric(t);
  }

  /** A printed list with a size behind it: the size is taken if the extents have it, and the name is refused if not. */
  lemma {:induction false} LimitedList(s: string, p: nat, es: seq<Blocklists.Entry>, n: nat, t: string, u: string,
                                       blocks: seq<BlockFiles.Extent>)
    requires BlockFiles.Printable(es) && es != [] && |blocks| + |es| <= BlockFiles.MAX_BLOCKS
    requires 0 < n <= MAXINT && BlockFiles.Finishes(t) && u == "," + (Digits(n, 10) + t)
    requires Reads(s, p, Blocklists.Print(es) + u)
    ensures var all := blocks + BlockFiles.Extents(es);
      BlockFiles.List(s, p, blocks, BlockFiles.Size(blocks)) ==
      if n <= BlockFiles.Size(all) then BlockFiles.Blocks(all, n) else BlockFiles.BadFilename
    decreases |es|
  {
    hide BlockFiles.ItemAt, Blocklists.Print, Digits, BlockFiles.Size, Reads;
    var x := BlockFiles.Extent(es[0].start, es[0].count);
    var text := Blocklists.Print(es) + u;
    BlockFiles.SizeGrows(blocks, x);
    BlockFiles.ExtentsSplit(es, blocks);
    if |es| == 1 {
      var a, b := BlockFiles.PrintOne(es, u, text);
      BlockFiles.CommaReads(s, p, x, a, b, Digits(n, 10) + t);
      SizeAlone(s, p + |a| + 1 + |b| + 1, n, t);
      assert BlockFiles.Extents(es) == [x];
    } else {
      var rest, next := BlockFiles.PrintedItem(s, p, es, u, text);
      LimitedList(s, next, es[1..], n, t, u, blocks + [x]);
    }
  }
}
