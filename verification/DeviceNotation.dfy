/**
 Device names: set_device and sane_partition (loader/setdev.c), and the name that the blocklist command prints
 (loader/loader/commands.c).
 */
module DeviceNotation {
  import opened Common
  import opened Strings
  import opened Numbers
  import Blocklists
  import BlockFiles

  const INVALID_DRIVE := 0xFF
  const NETWORK_DRIVE := 0x20
  const NO_PARTITION := 0xFFFFFF

  // a partition is a PC partition in bits 16 to 23, a BSD partition in bits 8 to 15, and 0xFF below; 0xFF is none
  function Pc(partition: nat): nat { partition / 0x10000 }
  function Bsd(partition: nat): (b: nat) ensures b < 256 { partition / 0x100 % 0x100 }
  function Make(pc: nat, bsd: nat): nat { pc * 0x10000 + bsd * 0x100 + 0xFF }

  predicate HardDisk(drive: nat) { drive / 0x80 % 2 == 1 }
  function WithoutBit7(drive: nat): (d: nat) ensures d <= drive { if HardDisk(drive) then drive - 0x80 else drive }

  predicate Regular(drive: nat, partition: nat, cdrom: nat) {
    && partition < 0x1000000
    && (WithoutBit7(drive) < 8 || drive == cdrom || drive / 0x40 % 4 == 3)
    && partition % 0x100 == 0xFF && (Bsd(partition) == 0xFF || Bsd(partition) < 8)
    && (Pc(partition) == 0xFF || HardDisk(drive))
  }

  /** What sane_partition accepts. */
  predicate Sane(drive: nat, partition: nat, cdrom: nat) { drive == NETWORK_DRIVE || Regular(drive, partition, cdrom) }

  // ---------- Printing ----------

  function Letter(bsd: nat): char
    requires bsd < 256
  {
    (bsd + 'a' as int) as char
  }

  function PcText(pc: nat): string { if pc % 0x100 == 0xFF then "" else "," + Digits(pc % 0x100, 10) }

  function BsdText(bsd: nat): string
    requires bsd < 256
  {
    if bsd == 0xFF then "" else [',', Letter(bsd)]
  }

  function DriveText(drive: nat, cdrom: nat): string {
    if drive == cdrom then "cd"
    else (if HardDisk(drive) then "hd" else "fd") + Digits(WithoutBit7(drive), 10)
  }

  /** The name the blocklist command prints. */
  function DeviceText(drive: nat, partition: nat, cdrom: nat): string {
    "(" + (DriveText(drive, cdrom) + (PcText(Pc(partition)) + (BsdText(Bsd(partition)) + ")")))
  }

  // ---------- Parsing ----------

  datatype Error = NumberParsing | DevFormat | DevValues

  /** A name is a device, with the position behind it; or it ends where it could be completed, `d` having to be
      added or not; or neither. */
  datatype Parsed =
    | Device(drive: nat, partition: nat, next: nat)
    | Unfinished(addD: bool)
    | Failed(error: Error, incomplete: bool)

  datatype Config = Config(cdrom: nat, savedDrive: nat, savedPartition: nat)

  predicate IsType(c: char, cfg: Config) {
    c == 'f' || c == 'h' || (c == 'c' && cfg.cdrom != INVALID_DRIVE) || c == 'l'
  }

  predicate IsBsd(c: char) { 'a' <= c <= 'h' }

  /** The drive named from position `i` on, and what follows it. */
  function DriveAt(s: string, i: nat, cfg: Config): (r: Option<(nat, nat)>)
    ensures r.Some? ==> r.value.1 >= i
  {
    var c := CharAt(s, i);
    if c == ',' || c == ')' then Some((cfg.savedDrive, i))
    else if IsType(c, cfg) && CharAt(s, i + 1) != 'd' then None
    else
      var j := if IsType(c, cfg) then i + 2 else i;
      if c == 'c' && cfg.cdrom != INVALID_DRIVE then Some((cfg.cdrom, j))
      else
        var n := Parse(s, j);
        var (d, k) := if n.Some? then n.value else (cfg.savedDrive, j);
        Some((d + (if c == 'h' then 0x80 else if c == 'l' then 0xC0 else 0), k))
  }

  /** The partition named from position `k` on, behind a comma: the partition and what follows it. */
  function PartitionAt(s: string, k: nat, drive: nat, cfg: Config): (r: Option<(nat, nat)>)
    ensures r.Some? ==> r.value.1 >= k
  {
    var c := CharAt(s, k);
    if '0' <= c <= '9' then
      match Parse(s, k)
      case None => None
      case Some((pc, m)) =>
        if !HardDisk(drive) || pc > 254 then None
        else
          var n := if CharAt(s, m) == ',' then m + 1 else m;
          if IsBsd(CharAt(s, n)) then Some((Make(pc, CharAt(s, n) as int - 'a' as int), n + 1))
          else Some((Make(pc, 0xFF), n))
    else if IsBsd(c) then Some((Make(0xFF, c as int - 'a' as int), k + 1))
    else if c == ')' then Some((cfg.savedPartition, k))
    else Some((NO_PARTITION, k))
  }

  function Checked(drive: nat, partition: nat, cfg: Config, done: bool, end: bool, k: nat): Parsed {
    if !Sane(drive, partition, cfg.cdrom) then Failed(DevValues, false)
    else if done then Device(drive, partition, k + 1)
    else Failed(DevFormat, end)
  }

  function DeviceAt(s: string, at: nat, cfg: Config): Parsed {
    var c, d := CharAt(s, at + 1), CharAt(s, at + 2);
    if CharAt(s, at) != '(' then Checked(cfg.savedDrive, NO_PARTITION, cfg, false, CharAt(s, at) == '\0', at)
    else if c == '\0' then Unfinished(false)
    else if IsType(c, cfg) && d == '\0' then Unfinished(true)
    else if IsType(c, cfg) && d == 'd' && CharAt(s, at + 3) == '\0' then Unfinished(false)
    else
      match DriveAt(s, at + 1, cfg)
      case None => Failed(NumberParsing, false)
      case Some((drive, k)) =>
        if CharAt(s, k) != ',' then
          Checked(drive, NO_PARTITION, cfg, CharAt(s, k) == ')', CharAt(s, k) == '\0', k)
        else
          match PartitionAt(s, k + 1, drive, cfg)
          case None => Failed(DevFormat, false)
          case Some((partition, m)) =>
            Checked(drive, partition, cfg, CharAt(s, m) == ')', CharAt(s, m) == '\0', m)
  }

  /** Whatever the text, a device that is parsed is sane, and its name is in parentheses. */
  lemma ParsedIsSane(s: string, at: nat, cfg: Config)
    ensures var r := DeviceAt(s, at, cfg);
            r.Device? ==>
              && Sane(r.drive, r.partition, cfg.cdrom) && at + 1 < r.next
              && CharAt(s, at) == '(' && CharAt(s, r.next - 1) == ')'
  {
    var k := DriveAt(s, at + 1, cfg);
    var m := if k.Some? then PartitionAt(s, k.value.1 + 1, k.value.0, cfg) else None;
    assert m.Some? ==> m.value.1 > at;
  }

  // ---------- The state ----------

  /** The variables that set_device sets. */
  class Devices {
    const cfg: Config
    var currentDrive: nat
    var currentPartition: nat
    var incomplete: bool

    constructor (cfg: Config)
      ensures this.cfg == cfg
    {
      this.cfg := cfg;
      currentDrive, currentPartition, incomplete := 0, 0, false;
    }

    method SanePartition() returns (sane: bool)
      ensures sane <==> Sane(currentDrive, currentPartition, cfg.cdrom)
    {
      if currentDrive == NETWORK_DRIVE {
        return true;
      }
      sane := currentPartition / 0x1000000 == 0
        && (WithoutBit7(currentDrive) < 8 || currentDrive == cfg.cdrom || currentDrive / 0x40 % 4 == 3)
        && currentPartition % 0x100 == 0xFF
        && (currentPartition / 0x100 % 0x100 == 0xFF || currentPartition / 0x100 % 0x100 < 8)
        && (currentPartition / 0x10000 == 0xFF || HardDisk(currentDrive));
    }

    /** The part of the name before a comma or the closing parenthesis. */
    method ParseDrive(s: string, at: nat) returns (ok: bool, device: nat)
      requires currentDrive == cfg.savedDrive
      modifies this`currentDrive
      ensures ok <==> DriveAt(s, at, cfg).Some?
      ensures ok ==> DriveAt(s, at, cfg) == Some((currentDrive, device))
    {
      device := at;
      ok := true;
      var ch := CharAt(s, device);
      if ch == ',' || ch == ')' {
        return;
      }
      if IsType(ch, cfg) {
        device := device + 2;
        if CharAt(s, device - 1) != 'd' {
          ok := false;
          return;
        }
      }
      if ch == 'c' && cfg.cdrom != INVALID_DRIVE {
        currentDrive := cfg.cdrom;
        return;
      }
      var n := SafeParseMaxint(s, device);
      if n.Some? {
        currentDrive, device := n.value.0, n.value.1;
      }
      if ch == 'h' {
        currentDrive := currentDrive + 0x80;
      } else if ch == 'l' {
        currentDrive := currentDrive + 0xC0;
      }
    }

    /** The part behind the comma. */
    method ParsePartition(s: string, at: nat) returns (ok: bool, device: nat)
      requires currentPartition == NO_PARTITION
      modifies this`currentPartition
      ensures ok <==> PartitionAt(s, at, currentDrive, cfg).Some?
      ensures ok ==> PartitionAt(s, at, currentDrive, cfg) == Some((currentPartition, device))
    {
      device := at;
      ok := true;
      if '0' <= CharAt(s, device) <= '9' {
        currentPartition := 0;
        var n := SafeParseMaxint(s, device);
        if !HardDisk(currentDrive) || n.None? || n.value.0 > 254 {
          ok := false;
          return;
        }
        device := n.value.1;
        currentPartition := n.value.0 * 0x10000 + 0xFFFF;
        if CharAt(s, device) == ',' {
          device := device + 1;
        }
        if IsBsd(CharAt(s, device)) {
          currentPartition := Make(Pc(currentPartition), CharAt(s, device) as int - 'a' as int);
          device := device + 1;
        }
      } else if IsBsd(CharAt(s, device)) {
        currentPartition := (CharAt(s, device) as int - 'a' as int) * 0x100 + 0xFF00FF;
        device := device + 1;
      } else if CharAt(s, device) == ')' {
        currentPartition := cfg.savedPartition;
      }
    }

    method SetDevice(s: string, at: nat) returns (r: Parsed)
      modifies this
      ensures r == DeviceAt(s, at, cfg)
      ensures r.Device? ==> currentDrive == r.drive && currentPartition == r.partition
    {
      incomplete, currentDrive, currentPartition := false, cfg.savedDrive, NO_PARTITION;
      var device := at;
      var result := false;
      if CharAt(s, device) == '(' {
        device := device + 1;
        if CharAt(s, device) == '\0' {
          return Unfinished(false);
        }
        if IsType(CharAt(s, device), cfg) {
          if CharAt(s, device + 1) == '\0' {
            return Unfinished(true);
          } else if CharAt(s, device + 1) == 'd' && CharAt(s, device + 2) == '\0' {
            return Unfinished(false);
          }
        }
        var ok;
        ok, device := ParseDrive(s, device);
        if !ok {
          return Failed(NumberParsing, false);
        }
        if CharAt(s, device) == ',' {
          ok, device := ParsePartition(s, device + 1);
          if !ok {
            return Failed(DevFormat, false);
          }
        }
        result := CharAt(s, device) == ')';
      }
      var sane := SanePartition();
      if !sane {
        return Failed(DevValues, false);
      }
      if result {
        return Device(currentDrive, currentPartition, device + 1);
      }
      incomplete := CharAt(s, device) == '\0';
      r := Failed(DevFormat, incomplete);
    }
  }

  // ---------- Parsing what was printed ----------

  lemma PartitionParts(partition: nat)
    requires partition < 0x1000000 && partition % 0x100 == 0xFF
    ensures partition == Make(Pc(partition), Bsd(partition)) && Pc(partition) < 0x100
  {
  }

  /** The text ends a part of a name. */
  predicate Delimits(t: string) { t != "" && (t[0] == ',' || t[0] == ')') }

  lemma {:induction false} DriveReads(s: string, i: nat, drive: nat, cfg: Config, t: string)
    requires Reads(s, i, DriveText(drive, cfg.cdrom) + t) && Delimits(t)
    requires drive <= MAXINT && (drive == cfg.cdrom ==> drive != INVALID_DRIVE)
    ensures DriveAt(s, i, cfg) == Some((drive, i + |DriveText(drive, cfg.cdrom)|))
    ensures Reads(s, i + |DriveText(drive, cfg.cdrom)|, t) && CharAt(s, i + |DriveText(drive, cfg.cdrom)|) == t[0]
    ensures IsType(CharAt(s, i), cfg) && CharAt(s, i + 1) == 'd' && CharAt(s, i + 2) != '\0'
  {
    if drive == cfg.cdrom {
      TypeReads(s, i, "cd", t);
    } else {
      var h, a := if HardDisk(drive) then "hd" else "fd", Digits(WithoutBit7(drive), 10);
      Assoc(h, a, t);
      TypeReads(s, i, h, a + t);
      DigitsAreNumeral(WithoutBit7(drive));
      assert NotNumeric(t);
      DigitsAreDecimal(WithoutBit7(drive), i + 2, s, t);
    }
  }

  lemma TypeReads(s: string, i: nat, h: string, t: string)
    requires |h| == 2 && t != "" && Reads(s, i, h + t)
    ensures CharAt(s, i) == h[0] && CharAt(s, i + 1) == h[1] && CharAt(s, i + 2) == t[0] && Reads(s, i + 2, t)
  {
    ReadsOn(s, i, h, t);
    NextChar(s, i + 2, t);
    assert s[i] == h[0] && s[i + 1] == h[1];
  }

  lemma BsdReads(s: string, m: nat, bsd: nat, t: string)
    requires bsd < 8 || bsd == 0xFF
    requires Reads(s, m, BsdText(bsd) + (")" + t))
    ensures CharAt(s, m) == if bsd == 0xFF then ')' else ','
    ensures bsd != 0xFF ==> CharAt(s, m + 1) == Letter(bsd) && IsBsd(CharAt(s, m + 1))
    ensures var n := m + |BsdText(bsd)|; CharAt(s, n) == ')' && Reads(s, n + 1, t)
  {
    var text := BsdText(bsd);
    ReadsOn(s, m, text, ")" + t);
    ReadsOn(s, m + |text|, ")", t);
    assert bsd != 0xFF ==> s[m] == text[0] && s[m + 1] == text[1];
  }

  /** A PC partition, and a BSD partition or not. */
  lemma {:induction false} PcReads(s: string, k: nat, drive: nat, pc: nat, bsd: nat, cfg: Config, t: string)
    requires pc < 0xFF && (bsd < 8 || bsd == 0xFF) && HardDisk(drive)
    requires Reads(s, k, Digits(pc, 10) + (BsdText(bsd) + (")" + t)))
    ensures var m := k + |Digits(pc, 10)| + |BsdText(bsd)|;
            PartitionAt(s, k, drive, cfg) == Some((Make(pc, bsd), m)) && CharAt(s, m) == ')' && Reads(s, m + 1, t)
  {
    var u := BsdText(bsd) + (")" + t);
    assert u[0] == if bsd == 0xFF then ')' else ',';
    DigitsAreNumeral(pc);
    assert NotNumeric(u);
    BsdReads(s, k + |Digits(pc, 10)|, bsd, t);
    DigitsAreDecimal(pc, k, s, u);
  }

  lemma {:induction false} DigitsAreDecimal(n: nat, k: nat, s: string, u: string)
    requires Reads(s, k, Digits(n, 10) + u)
    ensures '0' <= CharAt(s, k) <= '9'
  {
    DigitsAreDigits(n, 10);
    ReadsOn(s, k, Digits(n, 10), u);
    assert IsDigit(s[k], 10);
    assert s[k] == Digits(n, 10)[0];
    FirstDigit(n);
  }

  lemma {:induction false} FirstDigit(n: nat)
    ensures '0' <= Digits(n, 10)[0] <= '9'
  {
    if n >= 10 {
      FirstDigit(Quot(n, 10));
    }
  }

  /** What follows the drive in a printed name, and its length. */
  function PartText(partition: nat): string { PcText(Pc(partition)) + (BsdText(Bsd(partition)) + ")") }

  lemma PartSplits(partition: nat, t: string)
    ensures PartText(partition) + t == PcText(Pc(partition)) + (BsdText(Bsd(partition)) + (")" + t))
    ensures |PartText(partition)| == |PcText(Pc(partition))| + |BsdText(Bsd(partition))| + 1
  {
  }

  lemma {:induction false} PcSplits(pc: nat, u: string)
    requires pc < 0xFF
    ensures PcText(pc) + u == "," + (Digits(pc, 10) + u) && |PcText(pc)| == 1 + |Digits(pc, 10)|
  {
    assert pc % 0x100 == pc;
    Assoc(",", Digits(pc, 10), u);
  }

  lemma PartWithPc(s: string, k: nat, drive: nat, partition: nat, cfg: Config, t: string)
    requires Regular(drive, partition, cfg.cdrom) && Pc(partition) != 0xFF && Reads(s, k, PartText(partition) + t)
    ensures var m := k + |PartText(partition)| - 1;
            && PartitionAt(s, k + 1, drive, cfg) == Some((partition, m))
            && CharAt(s, k) == ',' && CharAt(s, m) == ')' && Reads(s, m + 1, t)
  {
    hide PartitionAt, Reads, Digits, PcText, BsdText, PartText, Pc, Bsd, Make;
    var pc, bsd := Pc(partition), Bsd(partition);
    PartitionParts(partition);
    PartSplits(partition, t);
    PcSplits(pc, BsdText(bsd) + (")" + t));
    CommaReads(s, k, Digits(pc, 10) + (BsdText(bsd) + (")" + t)));
    PcReads(s, k + 1, drive, pc, bsd, cfg, t);
  }

  lemma CommaReads(s: string, k: nat, t: string)
    requires Reads(s, k, "," + t)
    ensures CharAt(s, k) == ',' && Reads(s, k + 1, t)
  {
    ReadsOn(s, k, ",", t);
  }

  lemma PartWithoutPc(s: string, k: nat, drive: nat, partition: nat, cfg: Config, t: string)
    requires Regular(drive, partition, cfg.cdrom) && Pc(partition) == 0xFF && Bsd(partition) != 0xFF
    requires Reads(s, k, PartText(partition) + t)
    ensures var m := k + |PartText(partition)| - 1;
            && PartitionAt(s, k + 1, drive, cfg) == Some((partition, m))
            && CharAt(s, k) == ',' && CharAt(s, m) == ')' && Reads(s, m + 1, t)
  {
    var bsd := Bsd(partition);
    PartitionParts(partition);
    PartSplits(partition, t);
    assert "" + (BsdText(bsd) + (")" + t)) == BsdText(bsd) + (")" + t);
    BsdReads(s, k, bsd, t);
  }

  lemma NoPartReads(s: string, k: nat, t: string)
    requires Reads(s, k, PartText(NO_PARTITION) + t)
    ensures |PartText(NO_PARTITION)| == 1 && CharAt(s, k) == ')' && Reads(s, k + 1, t)
  {
    PartSplits(NO_PARTITION, t);
    assert PcText(Pc(NO_PARTITION)) == "" && BsdText(Bsd(NO_PARTITION)) == "";
    assert "" + ("" + (")" + t)) == ")" + t;
    ReadsOn(s, k, ")", t);
  }

  lemma {:induction false} DeviceIs(s: string, at: nat, drive: nat, partition: nat, cfg: Config, k: nat, m: nat)
    requires Regular(drive, partition, cfg.cdrom) && CharAt(s, at) == '('
    requires IsType(CharAt(s, at + 1), cfg) && CharAt(s, at + 2) == 'd' && CharAt(s, at + 3) != '\0'
    requires DriveAt(s, at + 1, cfg) == Some((drive, k)) && CharAt(s, m) == ')'
    requires if partition == NO_PARTITION then m == k
             else CharAt(s, k) == ',' && PartitionAt(s, k + 1, drive, cfg) == Some((partition, m))
    ensures DeviceAt(s, at, cfg) == Device(drive, partition, m + 1)
  {
  }

  lemma PartReads(s: string, k: nat, drive: nat, partition: nat, cfg: Config, t: string)
    requires Regular(drive, partition, cfg.cdrom) && Reads(s, k, PartText(partition) + t)
    ensures var m := k + |PartText(partition)| - 1;
            && CharAt(s, m) == ')' && Reads(s, m + 1, t)
            && if partition == NO_PARTITION then m == k
               else CharAt(s, k) == ',' && PartitionAt(s, k + 1, drive, cfg) == Some((partition, m))
  {
    PartitionParts(partition);
    if partition == NO_PARTITION {
      NoPartReads(s, k, t);
    } else if Pc(partition) == 0xFF {
      PartWithoutPc(s, k, drive, partition, cfg, t);
    } else {
      PartWithPc(s, k, drive, partition, cfg, t);
    }
  }

  lemma DeviceSplits(drive: nat, partition: nat, cdrom: nat, t: string)
    ensures DeviceText(drive, partition, cdrom) + t == "(" + (DriveText(drive, cdrom) + (PartText(partition) + t))
    ensures |DeviceText(drive, partition, cdrom)| == 1 + |DriveText(drive, cdrom)| + |PartText(partition)|
    ensures Delimits(PartText(partition) + t)
  {
  }

  lemma ParenReads(s: string, at: nat, t: string)
    requires Reads(s, at, "(" + t)
    ensures CharAt(s, at) == '(' && Reads(s, at + 1, t)
  {
    ReadsOn(s, at, "(", t);
  }

  /** Once the drive is parsed, the partition and the end of the name are. */
  lemma {:induction false} NameEnds(s: string, at: nat, drive: nat, partition: nat, cfg: Config, t: string, k: nat)
    requires Regular(drive, partition, cfg.cdrom) && CharAt(s, at) == '('
    requires IsType(CharAt(s, at + 1), cfg) && CharAt(s, at + 2) == 'd' && CharAt(s, at + 3) != '\0'
    requires DriveAt(s, at + 1, cfg) == Some((drive, k)) && Reads(s, k, PartText(partition) + t)
    ensures DeviceAt(s, at, cfg) == Device(drive, partition, k + |PartText(partition)|)
    ensures Reads(s, k + |PartText(partition)|, t)
  {
    PartReads(s, k, drive, partition, cfg, t);
    DeviceIs(s, at, drive, partition, cfg, k, k + |PartText(partition)| - 1);
  }

  lemma {:induction false} NameReads(s: string, at: nat, drive: nat, partition: nat, cfg: Config, t: string, u: string)
    requires Regular(drive, partition, cfg.cdrom) && drive <= MAXINT && (drive == cfg.cdrom ==> drive != INVALID_DRIVE)
    requires CharAt(s, at) == '(' && Reads(s, at + 1, DriveText(drive, cfg.cdrom) + u)
    requires u == PartText(partition) + t && Delimits(u)
    ensures var n := at + 1 + |DriveText(drive, cfg.cdrom)| + |PartText(partition)|;
            DeviceAt(s, at, cfg) == Device(drive, partition, n) && Reads(s, n, t)
  {
    hide DeviceAt, Reads, DriveText, PartText, Delimits;
    DriveReads(s, at + 1, drive, cfg, u);
    NameEnds(s, at, drive, partition, cfg, t, at + 1 + |DriveText(drive, cfg.cdrom)|);
  }

  /** A printed device name is parsed as the device it was printed for, up to its end. */
  lemma {:induction false} DeviceRoundTrip(s: string, at: nat, drive: nat, partition: nat, cfg: Config, t: string)
    requires Regular(drive, partition, cfg.cdrom) && drive <= MAXINT && (drive == cfg.cdrom ==> drive != INVALID_DRIVE)
    requires Reads(s, at, DeviceText(drive, partition, cfg.cdrom) + t)
    ensures var n := at + |DeviceText(drive, partition, cfg.cdrom)|;
            DeviceAt(s, at, cfg) == Device(drive, partition, n) && Reads(s, n, t)
  {
    DeviceSplits(drive, partition, cfg.cdrom, t);
    ParenReads(s, at, DriveText(drive, cfg.cdrom) + (PartText(partition) + t));
    NameReads(s, at, drive, partition, cfg, t, PartText(partition) + t);
  }

  /** What the blocklist command prints for a file, given as a name, opens on the drive and partition of the file as
      a list of the sectors that were read. */
  lemma {:induction false} PrintedFileOpens(text: string, name: string, list: string, drive: nat, partition: nat,
                                            cfg: Config, es: seq<Blocklists.Entry>, evs: seq<Event>,
                                            partStart: nat)
    requires Regular(drive, partition, cfg.cdrom) && drive <= MAXINT && (drive == cfg.cdrom ==> drive != INVALID_DRIVE)
    requires BlockFiles.Addressable(evs, partStart) && 0 < SECTOR_SIZE * |evs| <= MAXINT
    requires |es| <= BlockFiles.MAX_BLOCKS && Blocklists.Within(evs, partStart) && Blocklists.NoEmptyRun(es)
    requires Blocklists.Expand(es) == Blocklists.Wanted(evs, partStart)
    requires name == DeviceText(drive, partition, cfg.cdrom) && list == Blocklists.Print(es) && text == name + list
    ensures DeviceAt(text, 0, cfg) == Device(drive, partition, |name|) && BlockFiles.Printable(es)
    ensures BlockFiles.Open(text, |name|) == BlockFiles.Blocks(BlockFiles.Extents(es), SECTOR_SIZE * |evs|)
  {
    DeviceRoundTrip(text, 0, drive, partition, cfg, list);
    BlockFiles.BlocklistOpens(text, |name|, list, es, evs, partStart);
  }
}
