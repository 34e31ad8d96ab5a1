/**
 The blocklist command at work: what the track buffer reports while a file is read is what the printer takes
 (loader/preldr/dskaccess.c, loader/loader/commands.c).
 */
module BlocklistCommand {
  import opened Common
  import Arith
  import Blocklists
  import BlockFiles
  import DeviceNotation
  import Strings
  import TrackBuffer

  /** Every piece of a range is a part of one sector, from the sector the range starts with on. */
  lemma {:induction false} PiecesRecordable(d: TrackBuffer.Drive, s: nat, off: nat, n: nat, partStart: nat)
    requires off < d.size && partStart <= s
    ensures Blocklists.AllRecordable(d.Pieces(s, off, n), partStart, d.size)
    decreases n
  {
    if n > d.size - off {
      PiecesRecordable(d, s + 1, 0, n - (d.size - off), partStart);
      var rest := d.Pieces(s + 1, 0, n - (d.size - off));
      assert d.Pieces(s, off, n) == [Event(s, off, d.size - off)] + rest;
      MoreRecordable(Event(s, off, d.size - off), rest, partStart, d.size);
    }
  }

  lemma MoreRecordable(e: Event, evs: seq<Event>, partStart: nat, sectsize: nat)
    requires Blocklists.Recordable(e, partStart, sectsize) && Blocklists.AllRecordable(evs, partStart, sectsize)
    ensures Blocklists.AllRecordable([e] + evs, partStart, sectsize)
  {
  }

  /** The BIOS reads whatever lies on the disk, which consists of whole tracks and of sectors of 512 bytes, and the
      partition ends on it. */
  predicate Dependable(reader: TrackBuffer.Reader, drv: nat, partEnd: nat)
    requires drv < |reader.drives| && reader.drives[drv].Some?
  {
    var d := reader.drives[drv].value;
    reader.reliable && d.size == SECTOR_SIZE && partEnd <= d.total && d.VTrack() > 0 && d.WholeTracks()
  }

  /** A read through devread with the hook of the command set: the sectors of the range are recorded, in order. */
  method ReadRecorded(reader: TrackBuffer.Reader, printer: Blocklists.Printer, drv: nat, partLength: nat, sector: int,
                      byteOffset: nat, byteLen: nat) returns (ok: bool, data: seq<Byte>)
    requires reader.Valid() && reader.TagOk() && reader.errnum == TrackBuffer.NoError && byteLen > 0
    requires drv < |reader.drives| && reader.drives[drv].Some? && printer.Valid()
    requires reader.drives[drv].value.size == printer.sectsize >= SECTOR_SIZE
    modifies reader, reader.buffer, printer
    ensures reader.Valid() && printer.Valid()
    ensures ok ==>
              var (d, s, off) := (reader.drives[drv].value,
                                  printer.partStart + sector + byteOffset / SECTOR_SIZE, byteOffset % SECTOR_SIZE);
              && sector >= 0 && reader.TagOk() && reader.errnum == TrackBuffer.NoError
              && sector * SECTOR_SIZE + byteOffset + byteLen <= partLength * SECTOR_SIZE
              && d.InRange(s, off, byteLen) && data == d.Bytes(s, off, byteLen)
              && printer.events == old(printer.events) + d.Pieces(s, off, byteLen)
    ensures !ok ==> printer.events == old(printer.events)
    ensures Dependable(reader, drv, printer.partStart + partLength) && sector >= 0 &&
            sector * SECTOR_SIZE + byteOffset + byteLen <= partLength * SECTOR_SIZE ==>
              ok
  {
    var events;
    ok, data, events := reader.DevRead(drv, printer.partStart, partLength, sector, byteOffset, byteLen);
    if ok {
      PiecesRecordable(reader.drives[drv].value, printer.partStart + sector + byteOffset / SECTOR_SIZE,
                       byteOffset % SECTOR_SIZE, byteLen, printer.partStart);
      printer.RecordAll(events);
    }
  }

  // ---------- Reading what was printed ----------

  /** A read of `length` bytes from the start of a sector of the partition on. */
  datatype Request = Request(sector: nat, length: nat)

  predicate Inside(r: Request, partLength: nat) { r.sector * SECTOR_SIZE + r.length <= partLength * SECTOR_SIZE }

  predicate AllInside(rs: seq<Request>, partLength: nat) { forall i :: 0 <= i < |rs| ==> Inside(rs[i], partLength) }

  /** Only the last read may end within a sector. */
  predicate Whole(rs: seq<Request>) {
    forall i :: 0 <= i < |rs| ==> rs[i].length > 0 && (i + 1 < |rs| ==> rs[i].length % SECTOR_SIZE == 0)
  }

  /** The sectors of a partition, of which only the last may be read in part. */
  predicate InOrder(evs: seq<Event>, partStart: nat, partLength: nat, full: bool) {
    forall i :: 0 <= i < |evs| ==>
      && evs[i].offset == 0 && partStart <= evs[i].sector < partStart + partLength
      && 0 < evs[i].length <= SECTOR_SIZE && (i + 1 < |evs| || full ==> evs[i].length == SECTOR_SIZE)
  }

  lemma {:induction false} PiecesInOrder(d: TrackBuffer.Drive, s: nat, n: nat, partStart: nat, partLength: nat)
    requires d.size == SECTOR_SIZE && partStart <= s && s * SECTOR_SIZE + n <= (partStart + partLength) * SECTOR_SIZE
    ensures InOrder(d.Pieces(s, 0, n), partStart, partLength, n % SECTOR_SIZE == 0)
    decreases n
  {
    if n > SECTOR_SIZE {
      PiecesInOrder(d, s + 1, n - SECTOR_SIZE, partStart, partLength);
      assert d.Pieces(s, 0, n) == [Event(s, 0, SECTOR_SIZE)] + d.Pieces(s + 1, 0, n - SECTOR_SIZE);
      assert (n - SECTOR_SIZE) % SECTOR_SIZE == n % SECTOR_SIZE;
    }
  }

  lemma InOrderAppend(a: seq<Event>, b: seq<Event>, partStart: nat, partLength: nat, full: bool)
    requires InOrder(a, partStart, partLength, true) && InOrder(b, partStart, partLength, full)
    ensures InOrder(a + b, partStart, partLength, full)
  {
  }

  lemma {:induction false} SourcesAppend(d: TrackBuffer.Drive, a: seq<Event>, b: seq<Event>)
    requires TrackBuffer.OnDisk(d, a) && TrackBuffer.OnDisk(d, b)
    ensures TrackBuffer.OnDisk(d, a + b)
    ensures TrackBuffer.Sources(d, a + b) == TrackBuffer.Sources(d, a) + TrackBuffer.Sources(d, b)
  {
    hide TrackBuffer.Sources;
    if a == [] {
      EmptyLeft(b);
      EmptyLeft(TrackBuffer.Sources(d, b));
      TrackBuffer.NoSources(d);
    } else {
      var rest := a[1..];
      assert a == [a[0]] + rest;
      Assoc([a[0]], rest, b);
      SourcesAppend(d, rest, b);
      TrackBuffer.SourcesOf(d, a[0], rest);
      TrackBuffer.SourcesOf(d, a[0], rest + b);
      var at := a[0].sector * d.size + a[0].offset;
      Assoc(d.data[at..at + a[0].length], TrackBuffer.Sources(d, rest), TrackBuffer.Sources(d, b));
    }
  }

  lemma {:induction false} FirstSource(d: TrackBuffer.Drive, evs: seq<Event>, partStart: nat, partLength: nat,
                                       full: bool)
    requires d.size == SECTOR_SIZE && TrackBuffer.OnDisk(d, evs) && InOrder(evs, partStart, partLength, full)
    ensures evs != [] ==>
      && TrackBuffer.OnDisk(d, evs[1..]) && InOrder(evs[1..], partStart, partLength, full)
      && 0 < evs[0].length <= SECTOR_SIZE && (evs[1..] != [] ==> evs[0].length == SECTOR_SIZE)
      && var at := evs[0].sector * SECTOR_SIZE;
      && at + evs[0].length <= |d.data|
      && TrackBuffer.Sources(d, evs) == d.data[at..at + evs[0].length] + TrackBuffer.Sources(d, evs[1..])
    ensures evs != [] && evs[1..] == [] ==> TrackBuffer.Sources(d, evs[1..]) == []
  {
  }

  /** Byte `m` of what was read is that byte of its sector. */
  lemma {:induction false} SourceByte(d: TrackBuffer.Drive, evs: seq<Event>, partStart: nat, partLength: nat,
                                      full: bool, m: nat)
    requires d.size == SECTOR_SIZE && TrackBuffer.OnDisk(d, evs) && InOrder(evs, partStart, partLength, full)
    requires m < |TrackBuffer.Sources(d, evs)|
    ensures m / SECTOR_SIZE < |evs|
    ensures var e := evs[m / SECTOR_SIZE]; var at := e.sector * SECTOR_SIZE + m % SECTOR_SIZE;
      at < |d.data| && TrackBuffer.Sources(d, evs)[m] == d.data[at]
    decreases |evs|
  {
    hide TrackBuffer.Sources, TrackBuffer.OnDisk, InOrder;
    TrackBuffer.NoSources(d);
    FirstSource(d, evs, partStart, partLength, full);
    if m >= evs[0].length {
      SourceByte(d, evs[1..], partStart, partLength, full, m - SECTOR_SIZE);
      Arith.DivMod(m, SECTOR_SIZE, (m - SECTOR_SIZE) / SECTOR_SIZE + 1, (m - SECTOR_SIZE) % SECTOR_SIZE);
    }
  }

  /** The events of one read, which follow those of the reads before. */
  method ReadRequest(reader: TrackBuffer.Reader, printer: Blocklists.Printer, drv: nat, partLength: nat, r: Request)
    returns (ok: bool, data: seq<Byte>, ghost evs: seq<Event>)
    requires reader.Valid() && reader.TagOk() && reader.errnum == TrackBuffer.NoError && r.length > 0
    requires drv < |reader.drives| && reader.drives[drv].Some? && printer.Valid()
    requires reader.drives[drv].value.size == printer.sectsize == SECTOR_SIZE
    modifies reader, reader.buffer, printer
    ensures reader.Valid() && printer.Valid()
    ensures ok ==>
              && reader.TagOk() && reader.errnum == TrackBuffer.NoError && printer.events == old(printer.events) + evs
              && InOrder(evs, printer.partStart, partLength, r.length % SECTOR_SIZE == 0)
              && var d := reader.drives[drv].value;
              TrackBuffer.OnDisk(d, evs) && data == TrackBuffer.Sources(d, evs)
    ensures Dependable(reader, drv, printer.partStart + partLength) && Inside(r, partLength) ==> ok
  {
    hide TrackBuffer.Sources, TrackBuffer.OnDisk, InOrder, Blocklists.Printer.Valid, TrackBuffer.Reader.TagOk;
    evs := [];
    ok, data := ReadRecorded(reader, printer, drv, partLength, r.sector, 0, r.length);
    if ok {
      ghost var d, s := reader.drives[drv].value, printer.partStart + r.sector;
      evs := d.Pieces(s, 0, r.length);
      TrackBuffer.PiecesAreSources(d, s, 0, r.length);
      PiecesInOrder(d, s, r.length, printer.partStart, partLength);
    }
  }

  /** Reading a file with the hook of the command set. */
  method ReadRequests(reader: TrackBuffer.Reader, printer: Blocklists.Printer, drv: nat, partLength: nat,
                      rs: seq<Request>) returns (ok: bool, data: seq<Byte>)
    requires reader.Valid() && reader.TagOk() && reader.errnum == TrackBuffer.NoError && Whole(rs)
    requires drv < |reader.drives| && reader.drives[drv].Some? && printer.Valid() && printer.events == []
    requires reader.drives[drv].value.size == printer.sectsize == SECTOR_SIZE
    modifies reader, reader.buffer, printer
    ensures printer.Valid()
    ensures ok ==>
              && InOrder(printer.events, printer.partStart, partLength, false)
              && var d := reader.drives[drv].value;
              TrackBuffer.OnDisk(d, printer.events) && data == TrackBuffer.Sources(d, printer.events)
    ensures Dependable(reader, drv, printer.partStart + partLength) && AllInside(rs, partLength) ==> ok
  {
    hide TrackBuffer.Sources, TrackBuffer.OnDisk, InOrder, Blocklists.Printer.Valid, TrackBuffer.Reader.TagOk;
    ghost var d := reader.drives[drv].value;
    data := [];
    TrackBuffer.NoSources(d);
    NothingInOrder(printer.partStart, partLength);
    for i := 0 to |rs|
      invariant reader.Valid() && reader.TagOk() && reader.errnum == TrackBuffer.NoError && printer.Valid()
      invariant InOrder(printer.events, printer.partStart, partLength, i < |rs|)
      invariant TrackBuffer.OnDisk(d, printer.events) && data == TrackBuffer.Sources(d, printer.events)
    {
      ghost var sofar := printer.events;
      var piece;
      ghost var evs;
      ok, piece, evs := ReadRequest(reader, printer, drv, partLength, rs[i]);
      if !ok {
        return;
      }
      SourcesAppend(d, sofar, evs);
      InOrderAppend(sofar, evs, printer.partStart, partLength, rs[i].length % SECTOR_SIZE == 0);
      LessFull(printer.events, printer.partStart, partLength, rs[i].length % SECTOR_SIZE == 0, i + 1 < |rs|);
      data := data + piece;
    }
    ok := true;
  }

  lemma NothingInOrder(partStart: nat, partLength: nat)
    ensures forall full :: InOrder([], partStart, partLength, full)
  {
  }

  lemma LessFull(evs: seq<Event>, partStart: nat, partLength: nat, full: bool, less: bool)
    requires InOrder(evs, partStart, partLength, full) && (less ==> full)
    ensures InOrder(evs, partStart, partLength, less)
  {
  }

  lemma {:induction false} SourcesLength(d: TrackBuffer.Drive, evs: seq<Event>, partStart: nat, partLength: nat,
                                         full: bool)
    requires d.size == SECTOR_SIZE && TrackBuffer.OnDisk(d, evs)
    requires InOrder(evs, partStart, partLength, full) && evs != []
    ensures SECTOR_SIZE * (|evs| - 1) < |TrackBuffer.Sources(d, evs)| <= SECTOR_SIZE * |evs|
    decreases |evs|
  {
    hide TrackBuffer.Sources, TrackBuffer.OnDisk, InOrder;
    FirstSource(d, evs, partStart, partLength, full);
    if |evs| > 1 {
      SourcesLength(d, evs[1..], partStart, partLength, full);
    } else {
      assert evs[1..] == [];
    }
  }

  lemma OrderIsAddressable(evs: seq<Event>, partStart: nat, partLength: nat)
    requires InOrder(evs, partStart, partLength, false) && partLength <= MAXINT
    ensures BlockFiles.Addressable(evs, partStart)
  {
  }

  /** The sectors of the partition as the block list reader sees them. */
  predicate IsPartition(image: seq<Byte>, d: TrackBuffer.Drive, partStart: nat, partLength: nat) {
    && (partStart + partLength) * SECTOR_SIZE <= |d.data|
    && image == d.data[partStart * SECTOR_SIZE..(partStart + partLength) * SECTOR_SIZE]
  }

  /** What the command has printed for what was read. */
  ghost predicate Lists(es: seq<Blocklists.Entry>, evs: seq<Event>, partStart: nat) {
    && Blocklists.Within(evs, partStart) && Blocklists.NoEmptyRun(es)
    && Blocklists.Expand(es) == Blocklists.Wanted(evs, partStart)
  }

  /** A file with the bytes `all` was read as `evs` from the partition that `image` holds, and `es` is its list. */
  ghost predicate Listed(image: seq<Byte>, d: TrackBuffer.Drive, evs: seq<Event>, es: seq<Blocklists.Entry>,
                         partStart: nat, partLength: nat, all: seq<Byte>) {
    && d.size == SECTOR_SIZE && TrackBuffer.OnDisk(d, evs) && InOrder(evs, partStart, partLength, false)
    && partLength <= MAXINT && 0 < SECTOR_SIZE * |evs| <= MAXINT && Lists(es, evs, partStart)
    && IsPartition(image, d, partStart, partLength) && all == TrackBuffer.Sources(d, evs)
  }

  lemma {:induction false} ByteReadBack(d: TrackBuffer.Drive, evs: seq<Event>, partStart: nat, partLength: nat,
                                       es: seq<Blocklists.Entry>, image: seq<Byte>, m: nat)
    requires d.size == SECTOR_SIZE && TrackBuffer.OnDisk(d, evs) && InOrder(evs, partStart, partLength, false)
    requires partLength <= MAXINT && SECTOR_SIZE * |evs| <= MAXINT && Lists(es, evs, partStart)
    requires IsPartition(image, d, partStart, partLength) && m < |TrackBuffer.Sources(d, evs)|
    ensures BlockFiles.Printable(es)
    ensures var a := BlockFiles.Address(BlockFiles.Extents(es), m);
      a < |image| && image[a] == TrackBuffer.Sources(d, evs)[m]
  {
    hide TrackBuffer.Sources, BlockFiles.Address, BlockFiles.Extents, Blocklists.Wanted;
    SourceByte(d, evs, partStart, partLength, false, m);
    SourcesLength(d, evs, partStart, partLength, false);
    OrderIsAddressable(evs, partStart, partLength);
    BlockFiles.BlocklistNames(es, evs, partStart, m);
    var e, o := evs[m / SECTOR_SIZE], m % SECTOR_SIZE;
    assert (e.sector - partStart) * SECTOR_SIZE + o < partLength * SECTOR_SIZE;
  }

  lemma {:induction false} ExtentsAreSmall(blocks: seq<BlockFiles.Extent>)
    requires SECTOR_SIZE * BlockFiles.Before(blocks, |blocks|) <= MAXINT
    ensures BlockFiles.Small(blocks)
  {
    forall i | 0 <= i < |blocks|
      ensures SECTOR_SIZE * blocks[i].length <= MAXINT
    {
      BlockFiles.BeforeGrowsTo(blocks, i + 1, |blocks|);
    }
  }

  /** What the printed text opens as. */
  lemma {:induction false} PrintedOpens(text: string, name: string, list: string, drive: nat, partition: nat,
                                        cfg: DeviceNotation.Config, es: seq<Blocklists.Entry>, evs: seq<Event>,
                                        partStart: nat)
    requires DeviceNotation.Regular(drive, partition, cfg.cdrom) && drive <= MAXINT
    requires drive == cfg.cdrom ==> drive != DeviceNotation.INVALID_DRIVE
    requires BlockFiles.Addressable(evs, partStart) && 0 < SECTOR_SIZE * |evs| <= MAXINT && Lists(es, evs, partStart)
    requires name == DeviceNotation.DeviceText(drive, partition, cfg.cdrom) && list == Blocklists.Print(es)
    requires text == name + list
    ensures DeviceNotation.DeviceAt(text, 0, cfg) == DeviceNotation.Device(drive, partition, |name|)
    ensures BlockFiles.Printable(es) && es != []
    ensures BlockFiles.Open(text, |name|) ==
            if |es| <= BlockFiles.MAX_BLOCKS then BlockFiles.Blocks(BlockFiles.Extents(es), SECTOR_SIZE * |evs|)
            else BlockFiles.NotMounted
  {
    hide DeviceNotation.DeviceAt, DeviceNotation.DeviceText, Blocklists.Print, BlockFiles.Open;
    TextReads(text);
    DeviceNotation.DeviceRoundTrip(text, 0, drive, partition, cfg, list);
    BlockFiles.EventsAreWhole(es, evs, partStart);
    assert es != [];
    BlockFiles.ListOpens(text, |name|, list, es);
  }

  lemma TextReads(text: string)
    ensures Strings.Reads(text, 0, text)
  {
  }

  /** An opened list, read from its start on. */
  method ReadFile(image: seq<Byte>, blocks: seq<BlockFiles.Extent>, filemax: int, length: nat, reliable: bool,
                  ghost es: seq<Blocklists.Entry>, ghost evs: seq<Event>, ghost d: TrackBuffer.Drive,
                  ghost partStart: nat, ghost partLength: nat, ghost all: seq<Byte>)
    returns (failed: bool, data: seq<Byte>)
    requires Listed(image, d, evs, es, partStart, partLength, all) && length == |all|
    requires BlockFiles.Printable(es) && blocks == BlockFiles.Extents(es) && filemax == SECTOR_SIZE * |evs|
    ensures (!failed ==> data == all) && (reliable ==> !failed)
  {
    hide TrackBuffer.Sources, TrackBuffer.OnDisk, InOrder, Lists, BlockFiles.Address, BlockFiles.Before, IsPartition;
    FileIsReady(es, evs, d, partStart, partLength);
    var file := new BlockFiles.File(image, blocks, filemax, reliable);
    var ret, stuck;
    ret, data, stuck := file.Read(length);
    failed := file.errnum != BlockFiles.ErrNone;
    if failed && reliable {
      assert file.OffImage(0, length);
      var m: nat :| m < length && BlockFiles.Address(blocks, m) >= |image|;
      ByteReadBack(d, evs, partStart, partLength, es, image, m);
      assert false;
    }
    if !failed {
      assert file.HasBytes(data, 0) && |data| == |all|;
      forall m: nat | m < |all|
        ensures data[m] == all[m]
      {
        ByteReadBack(d, evs, partStart, partLength, es, image, m);
        assert data[m - 0] == image[BlockFiles.Address(blocks, m)];
      }
    }
  }

  lemma {:induction false} FileIsReady(es: seq<Blocklists.Entry>, evs: seq<Event>, d: TrackBuffer.Drive,
                                       partStart: nat, partLength: nat)
    requires d.size == SECTOR_SIZE && TrackBuffer.OnDisk(d, evs) && InOrder(evs, partStart, partLength, false)
    requires partLength <= MAXINT && 0 < SECTOR_SIZE * |evs| <= MAXINT && Lists(es, evs, partStart)
    requires BlockFiles.Printable(es)
    ensures var blocks := BlockFiles.Extents(es);
      && blocks != [] && BlockFiles.Proper(blocks) && BlockFiles.Size(blocks) == SECTOR_SIZE * |evs|
      && |TrackBuffer.Sources(d, evs)| <= SECTOR_SIZE * |evs|
      && BlockFiles.Advances(blocks, 0, |TrackBuffer.Sources(d, evs)|)
  {
    hide TrackBuffer.Sources, TrackBuffer.OnDisk, BlockFiles.Advances, InOrder;
    var blocks := BlockFiles.Extents(es);
    OrderIsAddressable(evs, partStart, partLength);
    BlockFiles.EventsAreWhole(es, evs, partStart);
    SourcesLength(d, evs, partStart, partLength, false);
    ExtentsAreSmall(blocks);
    BlockFiles.SmallAdvances(blocks, 0, |TrackBuffer.Sources(d, evs)|);
    assert es != [];
  }

  /** The list printed for what was read, opened and read. */
  method ReadList(image: seq<Byte>, text: string, drive: nat, partition: nat, cfg: DeviceNotation.Config, length: nat,
                  reliable: bool, ghost es: seq<Blocklists.Entry>, ghost evs: seq<Event>, ghost d: TrackBuffer.Drive,
                  ghost partStart: nat, ghost partLength: nat, ghost all: seq<Byte>)
    returns (device: DeviceNotation.Parsed, opens: bool, failed: bool, data: seq<Byte>)
    requires DeviceNotation.Regular(drive, partition, cfg.cdrom) && drive <= MAXINT
    requires drive == cfg.cdrom ==> drive != DeviceNotation.INVALID_DRIVE
    requires Listed(image, d, evs, es, partStart, partLength, all) && length == |all|
    requires text == DeviceNotation.DeviceText(drive, partition, cfg.cdrom) + Blocklists.Print(es)
    ensures device.Device? && device.drive == drive && device.partition == partition
    ensures opens <==> |es| <= BlockFiles.MAX_BLOCKS
    ensures (opens && !failed ==> data == all) && (reliable ==> !failed)
  {
    hide TrackBuffer.Sources, TrackBuffer.OnDisk, InOrder, Blocklists.Print, Blocklists.Wanted, Blocklists.Expand,
         BlockFiles.Open, BlockFiles.Extents, BlockFiles.Before, DeviceNotation.DeviceAt, DeviceNotation.DeviceText,
         IsPartition;
    ghost var name, list := DeviceNotation.DeviceText(drive, partition, cfg.cdrom), Blocklists.Print(es);
    OrderIsAddressable(evs, partStart, partLength);
    PrintedOpens(text, name, list, drive, partition, cfg, es, evs, partStart);
    var devices := new DeviceNotation.Devices(cfg);
    device := devices.SetDevice(text, 0);
    var r := BlockFiles.ParseList(text, device.next);
    opens, failed, data := r.Blocks?, false, [];
    if opens {
      failed, data := ReadFile(image, r.blocks, r.filemax, length, reliable, es, evs, d, partStart, partLength, all);
    }
  }

  /** The command on a file: the text it prints, and the bytes read on the way. */
  method PrintList(reader: TrackBuffer.Reader, drive: nat, partition: nat, cfg: DeviceNotation.Config,
                   partStart: nat, partLength: nat, rs: seq<Request>)
    returns (ok: bool, text: string, data: seq<Byte>, ghost es: seq<Blocklists.Entry>, ghost evs: seq<Event>)
    requires reader.Valid() && reader.TagOk() && reader.errnum == TrackBuffer.NoError && Whole(rs)
    requires drive < |reader.drives| && reader.drives[drive].Some? && reader.drives[drive].value.size == SECTOR_SIZE
    modifies reader, reader.buffer
    ensures text == DeviceNotation.DeviceText(drive, partition, cfg.cdrom) + Blocklists.Print(es)
    ensures Lists(es, evs, partStart)
    ensures ok ==>
              && InOrder(evs, partStart, partLength, false)
              && var d := reader.drives[drive].value;
              TrackBuffer.OnDisk(d, evs) && data == TrackBuffer.Sources(d, evs)
    ensures Dependable(reader, drive, partStart + partLength) && AllInside(rs, partLength) ==> ok
  {
    hide TrackBuffer.Sources, TrackBuffer.OnDisk, InOrder;
    var printer := new Blocklists.Printer(SECTOR_SIZE, partStart,
                                          DeviceNotation.DeviceText(drive, partition, cfg.cdrom));
    ok, data := ReadRequests(reader, printer, drive, partLength, rs);
    evs := printer.events;
    printer.Finish();
    text, es := printer.text, printer.entries;
  }

  /** A file is read, listed by the command, and read again by the list that is printed: the list opens on the same
      drive and partition unless it has more than 4093 entries, and its bytes are those that were read. */
  method ReadAgain(reader: TrackBuffer.Reader, drive: nat, partition: nat, cfg: DeviceNotation.Config, partStart: nat,
                   partLength: nat, rs: seq<Request>, image: seq<Byte>)
    returns (ok: bool, text: string, data: seq<Byte>, device: DeviceNotation.Parsed, opens: bool, failed: bool,
             again: seq<Byte>, ghost es: seq<Blocklists.Entry>)
    requires reader.Valid() && reader.TagOk() && reader.errnum == TrackBuffer.NoError && Whole(rs)
    requires drive < |reader.drives| && reader.drives[drive].Some? && reader.drives[drive].value.size == SECTOR_SIZE
    requires DeviceNotation.Regular(drive, partition, cfg.cdrom) && drive <= MAXINT
    requires drive == cfg.cdrom ==> drive != DeviceNotation.INVALID_DRIVE
    requires IsPartition(image, reader.drives[drive].value, partStart, partLength) && partLength <= MAXINT
    modifies reader, reader.buffer
    ensures text == DeviceNotation.DeviceText(drive, partition, cfg.cdrom) + Blocklists.Print(es)
    ensures ok && 0 < |data| <= MAXINT - SECTOR_SIZE ==>
              && device.Device? && device.drive == drive && device.partition == partition
              && (opens <==> |es| <= 4093)
              && (opens && !failed ==> again == data) && (reader.reliable ==> !failed)
    ensures Dependable(reader, drive, partStart + partLength) && AllInside(rs, partLength) ==> ok
  {
    hide TrackBuffer.Sources, TrackBuffer.OnDisk, InOrder, IsPartition, Lists;
    ghost var evs;
    ok, text, data, es, evs := PrintList(reader, drive, partition, cfg, partStart, partLength, rs);
    device, opens, failed, again := DeviceNotation.Unfinished(false), false, false, [];
    if ok && 0 < |data| <= MAXINT - SECTOR_SIZE {
      ghost var d := reader.drives[drive].value;
      SomethingRead(d, evs, partStart, partLength);
      device, opens, failed, again :=
        ReadList(image, text, drive, partition, cfg, |data|, reader.reliable, es, evs, d, partStart, partLength, data);
    }
  }

  lemma {:induction false} SomethingRead(d: TrackBuffer.Drive, evs: seq<Event>, partStart: nat, partLength: nat)
    requires d.size == SECTOR_SIZE && TrackBuffer.OnDisk(d, evs) && InOrder(evs, partStart, partLength, false)
    requires 0 < |TrackBuffer.Sources(d, evs)| <= MAXINT - SECTOR_SIZE
    ensures 0 < SECTOR_SIZE * |evs| <= MAXINT
  {
    if evs != [] {
      SourcesLength(d, evs, partStart, partLength, false);
    }
  }
}
