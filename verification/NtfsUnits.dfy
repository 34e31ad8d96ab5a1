/**
 The start of a compression unit: the loop that records where its clusters lie, from the run list to the table the
 streaming decoder reads from (loader/filesys/fsys_ntfs.c).
 */
module NtfsUnits {
  import opened Common
  import Arith
  import NtfsRuns
  import NtfsDecompress

  const UNIT := 16         // clusters of a unit

  /** The place in a run list: the run taken last covers the clusters from `curr` to `next`, at `lcn` of the disk, or is
      blank; the rest of the list starts at position `p`. */
  datatype Place = Place(p: nat, curr: nat, next: nat, lcn: int, blank: bool)

  function Advance(s: seq<Byte>, w: Place): Place {
    var r := NtfsRuns.RunAt(s, w.p);
    Place(r.next, w.next, w.next + r.length, w.lcn + r.delta, r.delta == 0)
  }

  /** Where sector `q` of the file is, seen from there. */
  function Now(s: seq<Byte>, w: Place, spc: nat, q: nat): NtfsRuns.Place {
    if q < w.next * spc then if w.blank then NtfsRuns.Hole else NtfsRuns.Sector(w.lcn * spc + (q - w.curr * spc))
    else NtfsRuns.Where(s, w.p, w.next, w.lcn, spc, q)
  }

  /** All runs that are not blank lie on a disk of that many clusters. */
  predicate OnDisk(s: seq<Byte>, w: Place, clusters: nat)
    decreases |s| - w.p
  {
    && clusters < 0x1_0000_0000 && w.curr <= w.next && 0 <= w.lcn
    && (!w.blank ==> w.lcn + (w.next - w.curr) <= clusters)
    && (NtfsRuns.EndsAt(s, w.p) || OnDisk(s, Advance(s, w), clusters))
  }

  /** The runs that are recorded for the unit that starts at cluster `t`: all up to the first blank one, or the first
      that goes on behind the unit. */
  function Table(s: seq<Byte>, w: Place, t: nat): seq<NtfsDecompress.Run>
    decreases |s| - w.p
  {
    if t + UNIT <= w.next || w.blank then []
    else
      [NtfsDecompress.Run(w.next, NtfsRuns.Wrap(w.lcn + w.next - w.curr))] +
      if NtfsRuns.EndsAt(s, w.p) then [] else Table(s, Advance(s, w), t)
  }

  /** The list reaches that run. */
  predicate Complete(s: seq<Byte>, w: Place, t: nat)
    decreases |s| - w.p
  {
    t + UNIT <= w.next || w.blank || (!NtfsRuns.EndsAt(s, w.p) && Complete(s, Advance(s, w), t))
  }

  /** The clusters of the table are where the run list places the file. */
  lemma {:induction false} TableAgrees(s: seq<Byte>, w: Place, t: nat, clusters: nat, spc: nat, i: nat, v: nat, o: nat)
    requires OnDisk(s, w, clusters) && o < spc && i < |Table(s, w, t)|
    requires (if i == 0 then w.curr else Table(s, w, t)[i - 1].endVcn) <= v < Table(s, w, t)[i].endVcn
    ensures v * spc + o >= 0
    ensures Now(s, w, spc, v * spc + o) == NtfsRuns.Sector(NtfsDecompress.LcnOf(Table(s, w, t)[i], v) * spc + o)
    decreases i
  {
    hide NtfsRuns.RunAt, NtfsRuns.Where, NtfsRuns.Wrap, NtfsRuns.EndsAt;
    Arith.MulMonotone(0, v, spc);
    if i == 0 {
      WrapSmall(w.lcn + w.next - w.curr);
      Arith.MulMonotone(v + 1, w.next, spc);
      Arith.MulAdd(v, 1, spc);
      Arith.MulAdd(v, w.curr, spc);
      Arith.MulAdd(w.lcn, v - w.curr, spc);
    } else {
      TableEnds(s, w, t, clusters, i - 1);
      Arith.MulMonotone(w.next, v, spc);
      TableAgrees(s, Advance(s, w), t, clusters, spc, i - 1, v, o);
      NowAdvances(s, w, spc, v * spc + o);
    }
  }

  lemma WrapSmall(x: nat)
    requires x < 0x1_0000_0000
    ensures NtfsRuns.Wrap(x) == x
  {
  }

  lemma NowAdvances(s: seq<Byte>, w: Place, spc: nat, q: nat)
    requires !NtfsRuns.EndsAt(s, w.p) && q >= w.next * spc
    ensures Now(s, w, spc, q) == Now(s, Advance(s, w), spc, q)
  {
  }

  lemma {:induction false} TableEnds(s: seq<Byte>, w: Place, t: nat, clusters: nat, i: nat)
    requires OnDisk(s, w, clusters) && i < |Table(s, w, t)|
    ensures w.next <= Table(s, w, t)[i].endVcn < t + UNIT
    decreases i
  {
    if i > 0 {
      TableEnds(s, Advance(s, w), t, clusters, i - 1);
    }
  }

  /** No run of the table is empty. */
  predicate Rising(table: seq<NtfsDecompress.Run>, t: nat) {
    table == [] || (t < table[0].endVcn && Rising(table[1..], table[0].endVcn))
  }

  lemma {:induction false} RunsTail(x: NtfsDecompress.Run, rest: seq<NtfsDecompress.Run>, i: nat, vcn: nat,
                                    clusters: nat)
    requires i <= |rest|
    ensures NtfsDecompress.RunsOk([x] + rest, i + 1, vcn, clusters) <==> NtfsDecompress.RunsOk(rest, i, vcn, clusters)
    decreases |rest| - i
  {
    if i < |rest| {
      RunsTail(x, rest, i + 1, rest[i].endVcn, clusters);
    }
  }

  /** The decoder can work with the table if and only if no run of it is empty, */
  lemma {:induction false} TableIsOk(s: seq<Byte>, w: Place, t: nat, clusters: nat, from: nat)
    requires OnDisk(s, w, clusters) && w.curr <= from
    ensures NtfsDecompress.RunsOk(Table(s, w, t), 0, from, clusters) <==> Rising(Table(s, w, t), from)
    decreases |s| - w.p
  {
    var table := Table(s, w, t);
    if table != [] {
      var rest := table[1..];
      assert table == [table[0]] + rest;
      RunsTail(table[0], rest, 0, w.next, clusters);
      if rest != [] {
        TableIsOk(s, Advance(s, w), t, clusters, w.next);
      }
    }
  }

  /** and then it has at most 15 entries, one less than comp_table. */
  lemma {:induction false} TableFits(s: seq<Byte>, w: Place, t: nat, clusters: nat)
    requires OnDisk(s, w, clusters) && Rising(Table(s, w, t), t)
    ensures |Table(s, w, t)| < 16
  {
    hide Table, Rising, OnDisk;
    var table := Table(s, w, t);
    if table != [] {
      RisesBy(table, t, |table| - 1);
      TableEnds(s, w, t, clusters, |table| - 1);
    }
  }

  lemma {:induction false} RisesBy(table: seq<NtfsDecompress.Run>, t: nat, i: nat)
    requires Rising(table, t) && i < |table|
    ensures table[i].endVcn > t + i
  {
    if i > 0 {
      RisesBy(table[1..], table[0].endVcn, i - 1);
    }
  }

  /** The next `k` runs of the list are empty, but not blank. */
  predicate EmptyRuns(s: seq<Byte>, w: Place, k: nat)
    decreases k
  {
    k > 0 ==>
      && !NtfsRuns.EndsAt(s, w.p) && Advance(s, w).next == w.next && !Advance(s, w).blank
      && EmptyRuns(s, Advance(s, w), k - 1)
  }

  /** Empty runs are recorded, however many there are: from 16 on they do not fit the table. */
  lemma {:induction false} EmptyRunsRecorded(s: seq<Byte>, w: Place, t: nat, clusters: nat, k: nat)
    requires OnDisk(s, w, clusters) && EmptyRuns(s, w, k) && w.next < t + UNIT && !w.blank
    ensures |Table(s, w, t)| > k
    decreases k
  {
    if k > 0 {
      EmptyRunsRecorded(s, Advance(s, w), t, clusters, k - 1);
    }
  }

  // ---------- The driver ----------

  ghost function At(c: NtfsRuns.Context): Place
    reads c
  {
    Place(c.curRun, c.currVcn, c.nextVcn, c.currLcn, c.blank)
  }

  /** In words the run at a place is the same. */
  lemma {:induction false} StepWords(s: seq<Byte>, w: Place)
    requires !NtfsRuns.EndsAt(s, w.p) ==>
               NtfsRuns.Fits(s, w.p, w.next, w.lcn) && 0 <= w.lcn < 0x1_0000_0000
    ensures !NtfsRuns.EndsAt(s, w.p) ==>
              var a := Advance(s, w);
              && w.p < |s| && w.p < a.p
              && NtfsRuns.Wrap(w.next + (a.next - w.next)) == a.next
              && NtfsRuns.Wrap(w.lcn + (a.lcn - w.lcn)) == a.lcn && (NtfsRuns.Wrap(a.lcn - w.lcn) == 0 <==> a.blank)
  {
    hide NtfsRuns.Little, NtfsRuns.Signed;
    if !NtfsRuns.EndsAt(s, w.p) {
      var a := Advance(s, w);
      WrapWords(a.next, a.lcn, w.lcn);
    }
  }

  lemma WrapWords(next: int, lcn: int, before: int)
    requires 0 <= next < 0x1_0000_0000 && 0 <= lcn < 0x1_0000_0000 && 0 <= before < 0x1_0000_0000
    ensures NtfsRuns.Wrap(next) == next && NtfsRuns.Wrap(lcn) == lcn
    ensures NtfsRuns.Wrap(lcn - before) == 0 <==> lcn == before
  {
  }

  lemma {:induction false} StepTable(s: seq<Byte>, w: Place, t: nat, clusters: nat)
    requires OnDisk(s, w, clusters) && NtfsRuns.Fits(s, w.p, w.next, w.lcn) && t + UNIT > w.next && !w.blank
    ensures var run := NtfsDecompress.Run(w.next, NtfsRuns.Wrap(w.lcn + w.next - w.curr));
            var a := Advance(s, w);
      if NtfsRuns.EndsAt(s, w.p) then Table(s, w, t) == [run] && !Complete(s, w, t)
      else
        && Table(s, w, t) == [run] + Table(s, a, t) && (Complete(s, w, t) <==> Complete(s, a, t))
        && OnDisk(s, a, clusters) && NtfsRuns.Fits(s, a.p, a.next, a.lcn) && w.p < |s| && w.p < a.p
        && NtfsRuns.Wrap(w.next + (a.next - w.next)) == a.next && NtfsRuns.Wrap(w.lcn + (a.lcn - w.lcn)) == a.lcn
        && (NtfsRuns.Wrap(a.lcn - w.lcn) == 0 <==> a.blank)
  {
    hide NtfsRuns.RunAt, NtfsRuns.Wrap, NtfsRuns.EndsAt;
    StepWords(s, w);
  }

  /** The loop at the start of a unit, which begins at the cluster the context has come to. */
  method Record(c: NtfsRuns.Context, ghost clusters: nat) returns (ok: bool, table: seq<NtfsDecompress.Run>)
    requires NtfsRuns.Fits(c.runs, c.curRun, c.nextVcn, c.currLcn)
    requires OnDisk(c.runs, At(c), clusters)
    modifies c`curRun, c`currVcn, c`nextVcn, c`currLcn, c`blank
    ensures table == Table(c.runs, old(At(c)), c.targetVcn)
    ensures ok <==> Complete(c.runs, old(At(c)), c.targetVcn)
    ensures ok ==> c.targetVcn + 16 <= c.nextVcn || c.blank
  {
    hide Table, Complete, OnDisk, NtfsRuns.Fits, NtfsRuns.RunAt, NtfsRuns.Wrap, NtfsRuns.EndsAt;
    table := [];
    ghost var w, t := At(c), c.targetVcn;
    while c.targetVcn + UNIT > c.nextVcn && !c.blank
      invariant NtfsRuns.Fits(c.runs, c.curRun, c.nextVcn, c.currLcn) && OnDisk(c.runs, At(c), clusters)
      invariant Table(c.runs, w, t) == table + Table(c.runs, At(c), t)
      invariant Complete(c.runs, w, t) <==> Complete(c.runs, At(c), t)
      decreases |c.runs| - c.curRun
    {
      ghost var now := At(c);
      StepTable(c.runs, now, t, clusters);
      var run := NtfsDecompress.Run(c.nextVcn, NtfsRuns.Wrap(c.currLcn + c.nextVcn - c.currVcn));
      ok := c.ReadRunList();
      if !ok {
        table := table + [run];
        return;
      }
      assert At(c) == Advance(c.runs, now);
      assert table + ([run] + Table(c.runs, At(c), t)) == (table + [run]) + Table(c.runs, At(c), t);
      table := table + [run];
    }
    StopTable(c.runs, At(c), t);
    assert table + [] == table;
    ok := true;
  }

  lemma {:induction false} StopTable(s: seq<Byte>, w: Place, t: nat)
    requires t + UNIT <= w.next || w.blank
    ensures Table(s, w, t) == [] && Complete(s, w, t)
  {
  }

  /** What is recorded are the places of the file. */
  lemma {:induction false} TableIsFile(c: NtfsRuns.Context, t: nat, clusters: nat, i: nat, v: nat, o: nat)
    requires c.Tracks(t * c.spc) && OnDisk(c.runs, At(c), clusters) && c.currVcn <= t <= v && o < c.spc
    requires i < |Table(c.runs, At(c), t)|
    requires i > 0 ==> Table(c.runs, At(c), t)[i - 1].endVcn <= v
    requires v < Table(c.runs, At(c), t)[i].endVcn
    ensures v * c.spc + o >= 0
    ensures c.File(v * c.spc + o) == NtfsRuns.Sector(NtfsDecompress.LcnOf(Table(c.runs, At(c), t)[i], v) * c.spc + o)
  {
    TableAgrees(c.runs, At(c), t, clusters, c.spc, i, v, o);
    Arith.MulMonotone(t, v, c.spc);
    var q := v * c.spc + o;
    assert c.Now(q) == Now(c.runs, At(c), c.spc, q);
  }
}
