/**
 Blocklist notation: printing the sectors of a file as "start+length,..." (loader/loader/commands.c) and
 opening such a list as a file (loader/preldr/func.c).
 */
module Blocklists {
  import opened Common
  import opened Strings
  import opened Numbers

  /** An entry of the notation: `count` sectors from `start` on, or bytes `from` to `to` of one sector. */
  datatype Entry = Run(start: nat, count: nat) | Part(sector: nat, from: nat, to: nat)

  /** What an entry or an event stands for: a whole sector, or bytes `from` to `to` of it. */
  datatype Piece = Whole(sector: nat) | Bytes(sector: nat, from: nat, to: nat)

  function Range(start: nat, count: nat): (s: seq<Piece>)
    ensures |s| == count
  {
    seq(count, i requires 0 <= i < count => Whole(start + i))
  }

  /** The pieces a list of entries names, in order. */
  function Expand(es: seq<Entry>): seq<Piece> {
    if es == [] then []
    else Expand(es[..|es| - 1]) +
         match es[|es| - 1]
         case Run(start, count) => Range(start, count)
         case Part(sector, from, to) => [Bytes(sector, from, to)]
  }

  predicate NoEmptyRun(es: seq<Entry>) {
    es == [] || (NoEmptyRun(es[..|es| - 1]) && (es[|es| - 1].Run? ==> es[|es| - 1].count > 0))
  }

  lemma {:induction false} RunAppend(es: seq<Entry>, start: nat, count: nat)
    requires count > 0
    ensures NoEmptyRun(es + [Run(start, count)]) <==> NoEmptyRun(es)
    ensures Expand(es + [Run(start, count)]) == Expand(es) + Range(start, count)
  {
    assert (es + [Run(start, count)])[..|es|] == es;
  }

  lemma {:induction false} PartAppend(es: seq<Entry>, sector: nat, from: nat, to: nat)
    ensures NoEmptyRun(es + [Part(sector, from, to)]) <==> NoEmptyRun(es)
    ensures Expand(es + [Part(sector, from, to)]) == Expand(es) + [Bytes(sector, from, to)]
  {
    assert (es + [Part(sector, from, to)])[..|es|] == es;
  }

  /** The piece of an event; a sector read from its start counts as whole. */
  function PieceOf(e: Event, partStart: nat): Piece
    requires e.sector >= partStart
  {
    if e.offset == 0 then Whole(e.sector - partStart)
    else Bytes(e.sector - partStart, e.offset, e.offset + e.length)
  }

  /** A piece of one sector behind the start of the partition. */
  predicate Recordable(e: Event, partStart: nat, sectsize: nat) {
    e.sector >= partStart && 0 < e.length && e.offset + e.length <= sectsize
  }

  ghost predicate AllRecordable(evs: seq<Event>, partStart: nat, sectsize: nat) {
    forall i :: 0 <= i < |evs| ==> Recordable(evs[i], partStart, sectsize)
  }

  ghost predicate Within(evs: seq<Event>, partStart: nat) {
    forall i :: 0 <= i < |evs| ==> evs[i].sector >= partStart
  }

  function Wanted(evs: seq<Event>, partStart: nat): (s: seq<Piece>)
    requires Within(evs, partStart)
    ensures |s| == |evs|
  {
    seq(|evs|, i requires 0 <= i < |evs| => PieceOf(evs[i], partStart))
  }

  // ---------- Printing ----------

  function PrintEntry(e: Entry): string {
    match e
    case Run(start, count) => Digits(start, 10) + ("+" + Digits(count, 10))
    case Part(sector, from, to) =>
      Digits(sector, 10) + ("[" + (Digits(from, 10) + ("-" + (Digits(to, 10) + "]"))))
  }

  function Print(es: seq<Entry>): string {
    if es == [] then ""
    else PrintEntry(es[0]) + if |es| == 1 then "" else "," + Print(es[1..])
  }

  lemma {:induction false} PrintAppend(es: seq<Entry>, e: Entry)
    ensures Print(es + [e]) == Print(es) + ((if es == [] then "" else ",") + PrintEntry(e))
  {
    if es == [] {
      assert es + [e] == [e];
      assert PrintEntry(e) + "" == PrintEntry(e) && "" + PrintEntry(e) == PrintEntry(e);
      assert "" + ("" + PrintEntry(e)) == PrintEntry(e);
    } else {
      PrintAppend(es[1..], e);
      assert (es + [e])[0] == es[0] && (es + [e])[1..] == es[1..] + [e];
      var p, q := PrintEntry(es[0]), PrintEntry(e);
      if |es| == 1 {
        assert es[1..] == [];
        assert "" + ("" + q) == q;
        assert p + ("," + q) == (p + "") + ("," + q);
      } else {
        var r := Print(es[1..]);
        Assoc(",", r, "," + q);
        Assoc(p, "," + r, "," + q);
      }
    }
  }

  /** The printed entries and the run still pending, `count` sectors from `start` on, name what was read. */
  ghost predicate Agree(es: seq<Entry>, start: nat, count: nat, evs: seq<Event>, partStart: nat) {
    && Within(evs, partStart) && Expand(es) + Range(start, count) == Wanted(evs, partStart)
    && NoEmptyRun(es)
  }

  lemma AgreeExtended(es: seq<Entry>, start: nat, count: nat, evs: seq<Event>, partStart: nat, e: Event)
    requires Agree(es, start, count, evs, partStart)
    requires e.sector == partStart + start + count && e.offset == 0
    ensures Agree(es, start, count + 1, evs + [e], partStart)
  {
    assert Range(start, count + 1) == Range(start, count) + [Whole(start + count)];
    assert Wanted(evs + [e], partStart) == Wanted(evs, partStart) + [Whole(start + count)];
  }

  lemma AgreeNone(es: seq<Entry>, start: nat, other: nat, evs: seq<Event>, partStart: nat)
    requires Agree(es, start, 0, evs, partStart)
    ensures Agree(es, other, 0, evs, partStart)
  {
    assert Range(start, 0) == Range(other, 0);
  }

  lemma AgreePart(es: seq<Entry>, start: nat, evs: seq<Event>, partStart: nat, e: Event)
    requires Agree(es, start, 0, evs, partStart) && e.sector >= partStart && e.offset > 0
    ensures Agree(es + [Part(e.sector - partStart, e.offset, e.offset + e.length)], start, 0, evs + [e], partStart)
  {
    PartAppend(es, e.sector - partStart, e.offset, e.offset + e.length);
    assert Wanted(evs + [e], partStart) == Wanted(evs, partStart) + [PieceOf(e, partStart)];
  }

  /** Part or all of the pending run is printed. */
  lemma AgreeRun(es: seq<Entry>, start: nat, count: nat, more: nat, evs: seq<Event>, partStart: nat)
    requires Agree(es, start, count + more, evs, partStart) && count > 0
    ensures Agree(es + [Run(start, count)], start + count, more, evs, partStart)
  {
    RunAppend(es, start, count);
    assert Range(start, count + more) == Range(start, count) + Range(start + count, more);
  }

  // ---------- Runs are as long as can be ----------

  /** Two whole sectors, one behind the other. */
  predicate Joined(a: Event, b: Event, sectsize: nat) {
    b.sector == a.sector + 1 && a.offset == b.offset == 0 && a.length == b.length == sectsize
  }

  /** No entry ends between two such sectors. */
  ghost predicate Maximal(es: seq<Entry>, evs: seq<Event>, sectsize: nat) {
    forall i :: 0 < i <= |es| ==>
      var m := |Expand(es[..i])|; 0 < m < |evs| ==> !Joined(evs[m - 1], evs[m], sectsize)
  }

  lemma {:induction false} ExpandPrefix(es: seq<Entry>, i: nat)
    requires i <= |es|
    ensures |Expand(es[..i])| <= |Expand(es)|
  {
    if i < |es| {
      ExpandPrefix(es[..|es| - 1], i);
      assert es[..|es| - 1][..i] == es[..i];
    } else {
      assert es[..i] == es;
    }
  }

  lemma {:induction false} AgreeLength(es: seq<Entry>, start: nat, count: nat, evs: seq<Event>, partStart: nat)
    requires Agree(es, start, count, evs, partStart)
    ensures |Expand(es)| + count == |evs| && Within(evs, partStart)
  {
  }

  lemma {:induction false} MaximalEvent(es: seq<Entry>, evs: seq<Event>, e: Event, sectsize: nat)
    requires Maximal(es, evs, sectsize)
    requires |Expand(es)| == |evs| > 0 ==> !Joined(evs[|evs| - 1], e, sectsize)
    requires |Expand(es)| <= |evs|
    ensures Maximal(es, evs + [e], sectsize)
  {
    hide Joined, Expand;
    forall i | 0 < i <= |es|
      ensures var m := |Expand(es[..i])|;
        0 < m < |evs + [e]| ==> !Joined((evs + [e])[m - 1], (evs + [e])[m], sectsize)
    {
      ExpandPrefix(es, i);
    }
  }

  lemma {:induction false} MaximalEntry(es: seq<Entry>, x: Entry, evs: seq<Event>, sectsize: nat)
    requires Maximal(es, evs, sectsize)
    requires var m := |Expand(es + [x])|; 0 < m < |evs| ==> !Joined(evs[m - 1], evs[m], sectsize)
    ensures Maximal(es + [x], evs, sectsize)
  {
    hide Joined, Expand;
    forall i | 0 < i <= |es + [x]|
      ensures var m := |Expand((es + [x])[..i])|; 0 < m < |evs| ==> !Joined(evs[m - 1], evs[m], sectsize)
    {
      if i <= |es| {
        assert (es + [x])[..i] == es[..i];
      } else {
        assert (es + [x])[..i] == es + [x];
      }
    }
  }

  /** The count printed for a last sector that was not read to its end. */
  function LastCount(length: nat, sectsize: nat): (x: nat)
    requires 0 < length < sectsize
    ensures x == 1
  {
    var x := length / sectsize;
    if x != 0 then x else 1
  }

  /** The state of the command while the file is read. */
  class Printer {
    const sectsize: nat
    const partStart: nat
    var text: string           // STRINGBUF
    var startSector: nat
    var numSectors: nat
    var numEntries: nat        // only whether it is 0 matters
    var lastLength: nat
    ghost const header: string
    ghost var entries: seq<Entry>   // what has been printed
    ghost var events: seq<Event>    // what has been reported

    /** The text shows the entries. */
    ghost predicate Shown()
      reads this`text, this`entries, this`numEntries
    {
      text == header + Print(entries) && (numEntries > 0 <==> entries != [])
    }

    /** Printed and pending sectors are those of the events. */
    ghost predicate Consistent()
      reads this
    {
      && startSector >= partStart && 0 < lastLength <= sectsize
      && Shown() && Agree(entries, startSector - partStart, numSectors, events, partStart)
      && Maximal(entries, events, sectsize) && Pending()
    }

    /** The event seen last is that of the last sector pending. */
    ghost predicate Pending()
      reads this
    {
      numSectors > 0 ==>
        events != [] && events[|events| - 1] == Event(startSector + numSectors - 1, 0, lastLength)
    }

    /** If nothing is pending, the last thing read was a part of a sector. */
    ghost predicate Valid()
      reads this
    {
      Consistent() && (numSectors == 0 && events != [] ==> events[|events| - 1].offset > 0)
    }

    constructor (sectsize: nat, partStart: nat, header: string)
      requires sectsize > 0
      ensures Valid() && this.sectsize == sectsize && this.partStart == partStart && this.header == header
      ensures entries == [] && events == [] && numSectors == 0
    {
      this.sectsize, this.partStart, this.header := sectsize, partStart, header;
      text := header;
      startSector, numSectors, numEntries, lastLength := partStart, 0, 0, sectsize;
      entries, events := [], [];
      new;
      assert header + "" == header;
    }

    /** Prints one entry, behind a comma unless it is the first of the list. */
    method Put(e: Entry)
      requires Shown()
      modifies this`text, this`entries, this`numEntries
      ensures Shown() && entries == old(entries) + [e]
    {
      PrintAppend(entries, e);
      Assoc(header, Print(entries), (if numEntries > 0 then "," else "") + PrintEntry(e));
      text := text + ((if numEntries > 0 then "," else "") + PrintEntry(e));
      entries := entries + [e];
      numEntries := numEntries + 1;
    }

    /** Prints the first `count` sectors of a run of `count + more`. */
    method PutRun(start: nat, count: nat, ghost more: nat)
      requires Shown() && Agree(entries, start, count + more, events, partStart) && count > 0
      requires Maximal(entries, events, sectsize)
      requires 0 < more < |events| ==> !Joined(events[|events| - more - 1], events[|events| - more], sectsize)
      modifies this`text, this`entries, this`numEntries
      ensures Shown() && Agree(entries, start + count, more, events, partStart) && Maximal(entries, events, sectsize)
    {
      hide Agree, Maximal, Print, Expand, Joined;
      AgreeLength(entries, start, count + more, events, partStart);
      AgreeRun(entries, start, count, more, events, partStart);
      RunAppend(entries, start, count);
      MaximalEntry(entries, Run(start, count), events, sectsize);
      Put(Run(start, count));
    }

    /** Prints the pending run, its last sector as an entry of its own. */
    method PutSplit(start: nat)
      requires Shown() && Agree(entries, start, numSectors, events, partStart)
      requires numSectors > 0 && 0 < lastLength < sectsize && Pending() && Maximal(entries, events, sectsize)
      modifies this`text, this`entries, this`numEntries
      ensures Shown() && Agree(entries, start + numSectors, 0, events, partStart)
      ensures Maximal(entries, events, sectsize)
    {
      hide Agree, Maximal, Print, Expand;
      var count := LastCount(lastLength, sectsize);
      if numSectors > 1 {
        PutRun(start, numSectors - 1, 1);
        PutRun(start + numSectors - 1, count, 0);
      } else {
        PutRun(start, count, 0);
      }
    }

    /** Prints the pending run; a last sector that was not read to its end becomes an entry of its own. */
    method Flush()
      requires Consistent() && numSectors > 0
      modifies this`text, this`entries, this`numEntries, this`numSectors
      ensures Consistent() && numSectors == 0
    {
      hide Agree, Maximal, Print, Expand, Joined;
      var start := startSector - partStart;
      if lastLength == sectsize {
        PutRun(start, numSectors, 0);
      } else {
        PutSplit(start);
      }
      AgreeNone(entries, start + numSectors, start, events, partStart);
      numSectors := 0;
    }

    /** The sector continues the pending run. */
    method Extend(sector: nat, length: nat)
      requires Valid() && numSectors > 0 && startSector + numSectors == sector && 0 < length <= sectsize
      modifies this`numSectors, this`lastLength, this`events
      ensures Valid() && events == old(events) + [Event(sector, 0, length)]
    {
      hide Agree, Maximal, Print, Expand, Joined;
      AgreeLength(entries, startSector - partStart, numSectors, events, partStart);
      AgreeExtended(entries, startSector - partStart, numSectors, events, partStart, Event(sector, 0, length));
      MaximalEvent(entries, events, Event(sector, 0, length), sectsize);
      numSectors := numSectors + 1;
      lastLength := length;
      events := events + [Event(sector, 0, length)];
    }

    /** The sector starts a run. */
    method Start(sector: nat, length: nat)
      requires Consistent() && numSectors == 0 && sector >= partStart && 0 < length <= sectsize
      requires events != [] ==> !Joined(events[|events| - 1], Event(sector, 0, length), sectsize)
      modifies this`startSector, this`numSectors, this`lastLength, this`events
      ensures Valid() && events == old(events) + [Event(sector, 0, length)]
    {
      hide Agree, Maximal, Print, Expand, Joined;
      AgreeLength(entries, startSector - partStart, 0, events, partStart);
      AgreeNone(entries, startSector - partStart, sector - partStart, events, partStart);
      AgreeExtended(entries, sector - partStart, 0, events, partStart, Event(sector, 0, length));
      MaximalEvent(entries, events, Event(sector, 0, length), sectsize);
      startSector, numSectors, lastLength := sector, 1, length;
      events := events + [Event(sector, 0, length)];
    }

    /** Bytes of a sector are an entry of their own. */
    method PutPart(e: Event)
      requires Shown() && Agree(entries, 0, 0, events, partStart) && e.sector >= partStart && e.offset > 0
      requires Maximal(entries, events, sectsize)
      modifies this`text, this`entries, this`numEntries
      ensures Shown() && Agree(entries, 0, 0, events + [e], partStart) && Maximal(entries, events + [e], sectsize)
    {
      hide Agree, Maximal, Print, Expand;
      AgreeLength(entries, 0, 0, events, partStart);
      AgreePart(entries, 0, events, partStart, e);
      MaximalEvent(entries, events, e, sectsize);
      var part := Part(e.sector - partStart, e.offset, e.offset + e.length);
      PartAppend(entries, part.sector, part.from, part.to);
      MaximalEntry(entries, part, events + [e], sectsize);
      Put(part);
    }

    /** disk_read_blocklist_func: one sector, or a part of one, has been read. */
    method Record(sector: nat, offset: nat, length: nat)
      requires Valid() && Recordable(Event(sector, offset, length), partStart, sectsize)
      modifies this
      ensures Valid() && events == old(events) + [Event(sector, offset, length)]
    {
      hide Agree, Print, Maximal;
      if numSectors > 0 {
        if startSector + numSectors == sector && offset == 0 && lastLength == sectsize {
          Extend(sector, length);
          return;
        }
        Flush();
      }
      if offset > 0 {
        AgreeNone(entries, startSector - partStart, 0, events, partStart);
        PutPart(Event(sector, offset, length));
        events := events + [Event(sector, offset, length)];
        AgreeNone(entries, 0, startSector - partStart, events, partStart);
      } else {
        Start(sector, length);
      }
    }

    /** All that one read reports. */
    method RecordAll(evs: seq<Event>)
      requires Valid() && AllRecordable(evs, partStart, sectsize)
      modifies this
      ensures Valid() && events == old(events) + evs
    {
      hide Agree, Print, Maximal;
      ghost var before := events;
      for i := 0 to |evs|
        invariant Valid() && events == before + evs[..i]
      {
        Record(evs[i].sector, evs[i].offset, evs[i].length);
        assert evs[..i + 1] == evs[..i] + [evs[i]];
      }
      assert evs[..|evs|] == evs;
    }

    /** The end of blocklist_func: what is pending is printed as full sectors. */
    method Finish()
      requires Valid()
      modifies this`text, this`entries, this`numEntries
      ensures text == header + Print(entries)
      ensures Within(events, partStart) && Expand(entries) == Wanted(events, partStart)
      ensures NoEmptyRun(entries) && Maximal(entries, events, sectsize)
    {
      hide Maximal, Print, Joined;
      if numSectors > 0 {
        PutRun(startSector - partStart, numSectors, 0);
      }
    }
  }
}
