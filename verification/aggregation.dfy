/** The traversal every inventory query shares: all wells of all plates,
    plate by plate and, inside a plate, in label order. */
module Cells {
  import opened Grid

  /** One well together with the plate it sits on. */
  datatype Cell = Cell(plate: PlateId, well: Well)

  function PlateCells(p: Plate): (cs: seq<Cell>)
    ensures |cs| == WellCount
    ensures forall i :: 0 <= i < WellCount ==> cs[i] == Cell(p.id, p.wells[i])
  {
    seq(WellCount, i requires 0 <= i < WellCount => Cell(p.id, p.wells[i]))
  }

  /** `plates.map(plate => labels.map(l => ...))`, flattened. */
  function AllCells(plates: seq<Plate>): seq<Cell> {
    if plates == [] then [] else AllCells(plates[..|plates| - 1]) + PlateCells(plates[|plates| - 1])
  }

  lemma AllCellsSnoc(plates: seq<Plate>, p: Plate)
    ensures AllCells(plates + [p]) == AllCells(plates) + PlateCells(p)
  {
    assert (plates + [p])[..|plates|] == plates;
  }

  /** Every cell comes from a plate of the list, and every well of every
      plate is visited. */
  lemma {:induction false} AllCellsMembers(plates: seq<Plate>, c: Cell)
    ensures c in AllCells(plates) <==>
      exists k, i :: 0 <= k < |plates| && 0 <= i < WellCount && c == Cell(plates[k].id, plates[k].wells[i])
  {
    if plates != [] {
      var front := plates[..|plates| - 1];
      var p := plates[|plates| - 1];
      assert plates == front + [p];
      AllCellsMembers(front, c);
      if c in PlateCells(p) {
        var i :| 0 <= i < WellCount && PlateCells(p)[i] == c;
        assert c == Cell(plates[|plates| - 1].id, plates[|plates| - 1].wells[i]);
      }
      if exists k, i :: 0 <= k < |plates| && 0 <= i < WellCount && c == Cell(plates[k].id, plates[k].wells[i]) {
        var k, i :| 0 <= k < |plates| && 0 <= i < WellCount && c == Cell(plates[k].id, plates[k].wells[i]);
        if k == |plates| - 1 {
          assert PlateCells(p)[i] == c;
        } else {
          assert front[k] == plates[k];
        }
      }
    }
  }
}

/** `/frec`: the inventory grouped by EC. Each group lists, per plate, one
    entry holding the FR and volume found there. */
module Aggregation {
  import opened Wrappers
  import opened Grid
  import opened Seqs
  import opened Cells

  datatype Entry = Entry(fr: string, volume: int, plate: PlateId)

  datatype Group = Group(ec: string, volume: int, frs: seq<Entry>)

  /** `ecs.filter(e => e.ec === ec)[0]`: the first group with this EC. */
  function FindGroup(gs: seq<Group>, ec: string): (o: Option<nat>)
    ensures o.None? <==> forall i :: 0 <= i < |gs| ==> gs[i].ec != ec
    ensures o.Some? ==> o.value < |gs| && gs[o.value].ec == ec
    ensures o.Some? ==> forall i :: 0 <= i < o.value ==> gs[i].ec != ec
  {
    if gs == [] then None
    else if gs[0].ec == ec then Some(0)
    else match FindGroup(gs[1..], ec)
      case None => None
      case Some(i) => Some(i + 1)
  }

  /** `frs.filter(f => f.plateID === plateID)[0]`: the first entry of this
      plate. */
  function FindEntry(es: seq<Entry>, p: PlateId): (o: Option<nat>)
    ensures o.None? <==> forall j :: 0 <= j < |es| ==> es[j].plate != p
    ensures o.Some? ==> o.value < |es| && es[o.value].plate == p
    ensures o.Some? ==> forall j :: 0 <= j < o.value ==> es[j].plate != p
  {
    if es == [] then None
    else if es[0].plate == p then Some(0)
    else match FindEntry(es[1..], p)
      case None => None
      case Some(j) => Some(j + 1)
  }

  /** One step of the traversal. A well without an EC is skipped; a new EC
      opens a group; a known EC either adds to its plate's entry (merge from
      the same plate) or opens an entry for the plate. The source does not
      add the merged volume to the group's own volume; `countMerged` says
      whether it is added. */
  function AddCell(gs: seq<Group>, c: Cell, countMerged: bool): (r: seq<Group>)
    ensures |r| == |gs| || |r| == |gs| + 1
    ensures c.well.ec == "" ==> r == gs
    ensures |r| == |gs| + 1 <==> c.well.ec != "" && FindGroup(gs, c.well.ec).None?
    ensures |r| == |gs| + 1 ==> r[|gs|].ec == c.well.ec
    ensures forall i :: 0 <= i < |gs| ==> r[i].ec == gs[i].ec
  {
    var w := c.well;
    if w.ec == "" then gs
    else match FindGroup(gs, w.ec)
      case None => gs + [Group(w.ec, w.volume, [Entry(w.fr, w.volume, c.plate)])]
      case Some(gi) =>
        match FindEntry(gs[gi].frs, c.plate)
        case Some(ei) => gs[gi := MergeEntry(gs[gi], c, countMerged, ei)]
        case None => gs[gi := OpenEntry(gs[gi], c)]
  }

  /** A well from a plate the group already lists: its volume goes to that
      plate's entry, and to the group only when `countMerged`. */
  function MergeEntry(g: Group, c: Cell, countMerged: bool, ei: nat): Group
    requires ei < |g.frs|
  {
    var e := g.frs[ei];
    Group(g.ec, if countMerged then g.volume + c.well.volume else g.volume,
          g.frs[ei := e.(volume := e.volume + c.well.volume)])
  }

  /** A well from a plate the group does not list yet: a new entry, and
      its volume goes to the group. */
  function OpenEntry(g: Group, c: Cell): Group {
    Group(g.ec, g.volume + c.well.volume, g.frs + [Entry(c.well.fr, c.well.volume, c.plate)])
  }

  function Aggregate(cells: seq<Cell>, countMerged: bool): seq<Group> {
    if cells == [] then []
    else AddCell(Aggregate(cells[..|cells| - 1], countMerged), cells[|cells| - 1], countMerged)
  }

  /** The source's `/frec` answer. */
  function FrecAsWritten(plates: seq<Plate>): seq<Group> {
    Aggregate(AllCells(plates), false)
  }

  /** `/frec` with the group volume counting every well of the EC. */
  function Frec(plates: seq<Plate>): seq<Group> {
    Aggregate(AllCells(plates), true)
  }

  // Reference definitions, stated over the traversal order directly.

  /** The distinct non-empty ECs, in the order they are first met. */
  function EcsSeen(cells: seq<Cell>): seq<string> {
    if cells == [] then []
    else
      var front := EcsSeen(cells[..|cells| - 1]);
      var ec := cells[|cells| - 1].well.ec;
      if ec != "" && ec !in front then front + [ec] else front
  }

  /** The distinct plates holding a well of this EC, in the order met. */
  function PlatesWith(cells: seq<Cell>, ec: string): seq<PlateId> {
    if cells == [] then []
    else
      var front := PlatesWith(cells[..|cells| - 1], ec);
      var c := cells[|cells| - 1];
      if c.well.ec == ec && c.plate !in front then front + [c.plate] else front
  }

  /** The FR of the first well, in traversal order, of this EC on plate
      `p`; the empty string when the plate holds none. */
  function FirstFr(cells: seq<Cell>, ec: string, p: PlateId): string {
    if cells == [] then ""
    else if cells[0].well.ec == ec && cells[0].plate == p then cells[0].well.fr
    else FirstFr(cells[1..], ec, p)
  }

  /** Total volume of the wells of this EC. */
  function EcVolume(cells: seq<Cell>, ec: string): int {
    if cells == [] then 0
    else
      var c := cells[|cells| - 1];
      EcVolume(cells[..|cells| - 1], ec) + (if c.well.ec == ec then c.well.volume else 0)
  }

  /** Total volume of the wells of this EC on plate `p`. */
  function PlateVolume(cells: seq<Cell>, ec: string, p: PlateId): int {
    if cells == [] then 0
    else
      var c := cells[|cells| - 1];
      PlateVolume(cells[..|cells| - 1], ec, p) + (if c.well.ec == ec && c.plate == p then c.well.volume else 0)
  }

  /** Total volume of the wells of this EC that are the first of their EC
      on their plate. */
  function FirstVolume(cells: seq<Cell>, ec: string): int {
    if cells == [] then 0
    else
      var c := cells[|cells| - 1];
      var front := cells[..|cells| - 1];
      FirstVolume(front, ec) + (if c.well.ec == ec && c.plate !in PlatesWith(front, ec) then c.well.volume else 0)
  }

  function GroupVolume(cells: seq<Cell>, ec: string, countMerged: bool): int {
    if countMerged then EcVolume(cells, ec) else FirstVolume(cells, ec)
  }

  function EntryPlates(es: seq<Entry>): (ps: seq<PlateId>)
    ensures |ps| == |es|
  {
    seq(|es|, j requires 0 <= j < |es| => es[j].plate)
  }

  function SumEntries(es: seq<Entry>): int {
    if es == [] then 0 else SumEntries(es[..|es| - 1]) + es[|es| - 1].volume
  }

  /** What a group of the answer holds after the traversal of `cells`. */
  predicate GroupOk(g: Group, cells: seq<Cell>, countMerged: bool) {
    && EntryPlates(g.frs) == PlatesWith(cells, g.ec)
    && (forall j :: 0 <= j < |g.frs| ==> g.frs[j].volume == PlateVolume(cells, g.ec, g.frs[j].plate))
    && (forall j :: 0 <= j < |g.frs| ==> g.frs[j].fr == FirstFr(cells, g.ec, g.frs[j].plate))
    && SumEntries(g.frs) == EcVolume(cells, g.ec)
    && g.volume == GroupVolume(cells, g.ec, countMerged)
  }

  predicate Inv(gs: seq<Group>, cells: seq<Cell>, countMerged: bool) {
    && |gs| == |EcsSeen(cells)|
    && (forall i :: 0 <= i < |gs| ==> gs[i].ec == EcsSeen(cells)[i])
    && (forall i :: 0 <= i < |gs| ==> GroupOk(gs[i], cells, countMerged))
  }

  lemma RefSnoc(cells: seq<Cell>, c: Cell, ec: string, p: PlateId)
    ensures EcsSeen(cells + [c]) ==
      (if c.well.ec != "" && c.well.ec !in EcsSeen(cells) then EcsSeen(cells) + [c.well.ec] else EcsSeen(cells))
    ensures PlatesWith(cells + [c], ec) ==
      (if c.well.ec == ec && c.plate !in PlatesWith(cells, ec) then PlatesWith(cells, ec) + [c.plate] else PlatesWith(cells, ec))
    ensures EcVolume(cells + [c], ec) == EcVolume(cells, ec) + (if c.well.ec == ec then c.well.volume else 0)
    ensures PlateVolume(cells + [c], ec, p) ==
      PlateVolume(cells, ec, p) + (if c.well.ec == ec && c.plate == p then c.well.volume else 0)
    ensures FirstVolume(cells + [c], ec) ==
      FirstVolume(cells, ec) + (if c.well.ec == ec && c.plate !in PlatesWith(cells, ec) then c.well.volume else 0)
  {
    assert (cells + [c])[..|cells|] == cells;
  }

  lemma {:induction false} SumEntriesSnoc(es: seq<Entry>, e: Entry)
    ensures SumEntries(es + [e]) == SumEntries(es) + e.volume
  {
    assert (es + [e])[..|es|] == es;
  }

  lemma {:induction false} SumEntriesUpdate(es: seq<Entry>, j: nat, v: int)
    requires j < |es|
    ensures SumEntries(es[j := es[j].(volume := es[j].volume + v)]) == SumEntries(es) + v
  {
    var es' := es[j := es[j].(volume := es[j].volume + v)];
    if j < |es| - 1 {
      SumEntriesUpdate(es[..|es| - 1], j, v);
      assert es'[..|es'| - 1] == es[..|es| - 1][j := es[j].(volume := es[j].volume + v)];
    } else {
      assert es'[..|es'| - 1] == es[..|es| - 1];
    }
  }

  /** Appending a well changes the first FR of an EC on a plate only when
      it is the first well of that EC on that plate. */
  lemma FirstFrStep(cells: seq<Cell>, c: Cell, ec: string, p: PlateId)
    ensures FirstFr(cells + [c], ec, p) ==
      if c.well.ec == ec && c.plate == p && p !in PlatesWith(cells, ec) then c.well.fr else FirstFr(cells, ec, p)
  {
    PlatesWithMembers(cells, ec, p);
    FirstFrSnoc(cells, c, ec, p);
  }

  lemma {:induction false} FirstFrSnoc(cells: seq<Cell>, c: Cell, ec: string, p: PlateId)
    ensures (exists i :: 0 <= i < |cells| && cells[i].well.ec == ec && cells[i].plate == p) ==>
      FirstFr(cells + [c], ec, p) == FirstFr(cells, ec, p)
    ensures !(exists i :: 0 <= i < |cells| && cells[i].well.ec == ec && cells[i].plate == p) ==>
      FirstFr(cells, ec, p) == "" &&
      FirstFr(cells + [c], ec, p) == if c.well.ec == ec && c.plate == p then c.well.fr else ""
  {
    if cells == [] {
      assert [c][1..] == [];
    } else {
      var rest := cells[1..];
      assert (cells + [c])[1..] == rest + [c];
      assert (cells + [c])[0] == cells[0];
      FirstFrSnoc(rest, c, ec, p);
      if !(cells[0].well.ec == ec && cells[0].plate == p) {
        if exists i :: 0 <= i < |cells| && cells[i].well.ec == ec && cells[i].plate == p {
          var i :| 0 <= i < |cells| && cells[i].well.ec == ec && cells[i].plate == p;
          assert rest[i - 1] == cells[i];
        }
        if exists i :: 0 <= i < |rest| && rest[i].well.ec == ec && rest[i].plate == p {
          var i :| 0 <= i < |rest| && rest[i].well.ec == ec && rest[i].plate == p;
          assert cells[i + 1] == rest[i];
        }
      }
    }
  }

  /** A plate is listed for an EC exactly when one of its wells holds it. */
  lemma {:induction false} PlatesWithMembers(cells: seq<Cell>, ec: string, p: PlateId)
    ensures p in PlatesWith(cells, ec) <==>
      exists i :: 0 <= i < |cells| && cells[i].well.ec == ec && cells[i].plate == p
  {
    if cells != [] {
      var front := cells[..|cells| - 1];
      assert cells == front + [cells[|cells| - 1]];
      RefSnoc(front, cells[|cells| - 1], ec, p);
      PlatesWithMembers(front, ec, p);
      if exists i :: 0 <= i < |cells| && cells[i].well.ec == ec && cells[i].plate == p {
        var i :| 0 <= i < |cells| && cells[i].well.ec == ec && cells[i].plate == p;
        if i < |front| {
          assert front[i] == cells[i];
        }
      }
      if exists i :: 0 <= i < |front| && front[i].well.ec == ec && front[i].plate == p {
        var i :| 0 <= i < |front| && front[i].well.ec == ec && front[i].plate == p;
        assert cells[i] == front[i];
      }
    }
  }

  /** A group whose EC differs from the new cell's is still accurate. */
  lemma GroupOkFrame(g: Group, cells: seq<Cell>, c: Cell, countMerged: bool)
    requires GroupOk(g, cells, countMerged) && c.well.ec != g.ec
    ensures GroupOk(g, cells + [c], countMerged)
  {
    RefSnoc(cells, c, g.ec, 0);
    forall j | 0 <= j < |g.frs|
      ensures g.frs[j].volume == PlateVolume(cells + [c], g.ec, g.frs[j].plate)
      ensures g.frs[j].fr == FirstFr(cells + [c], g.ec, g.frs[j].plate)
    {
      RefSnoc(cells, c, g.ec, g.frs[j].plate);
      FirstFrStep(cells, c, g.ec, g.frs[j].plate);
    }
  }

  /** A well of a new EC opens a group that is accurate. */
  lemma StepNewGroup(gs: seq<Group>, cells: seq<Cell>, c: Cell, countMerged: bool)
    requires Inv(gs, cells, countMerged)
    requires c.well.ec != "" && FindGroup(gs, c.well.ec).None?
    ensures Inv(AddCell(gs, c, countMerged), cells + [c], countMerged)
  {
    var w := c.well;
    var r := AddCell(gs, c, countMerged);
    var g := Group(w.ec, w.volume, [Entry(w.fr, w.volume, c.plate)]);
    assert r == gs + [g];
    RefSnoc(cells, c, w.ec, c.plate);
    assert forall i :: 0 <= i < |gs| ==> EcsSeen(cells)[i] != w.ec;
    assert w.ec !in EcsSeen(cells);
    NewGroupOk(cells, c, countMerged);
    assert EcsSeen(cells + [c]) == EcsSeen(cells) + [w.ec];
    forall i | 0 <= i < |r|
      ensures r[i].ec == EcsSeen(cells + [c])[i]
      ensures GroupOk(r[i], cells + [c], countMerged)
    {
      if i < |gs| {
        GroupOkFrame(gs[i], cells, c, countMerged);
      }
    }
  }

  /** The group a well of a new EC opens is accurate. */
  lemma NewGroupOk(cells: seq<Cell>, c: Cell, countMerged: bool)
    requires c.well.ec != "" && c.well.ec !in EcsSeen(cells)
    ensures var w := c.well;
      GroupOk(Group(w.ec, w.volume, [Entry(w.fr, w.volume, c.plate)]), cells + [c], countMerged)
  {
    var w := c.well;
    var g := Group(w.ec, w.volume, [Entry(w.fr, w.volume, c.plate)]);
    RefSnoc(cells, c, w.ec, c.plate);
    NothingBeforeFirst(cells, w.ec, c.plate);
    assert EntryPlates(g.frs) == [c.plate];
    assert PlatesWith(cells + [c], w.ec) == [c.plate];
    FirstFrStep(cells, c, w.ec, c.plate);
    SumEntriesSnoc([], Entry(w.fr, w.volume, c.plate));
  }

  /** An EC never met has no plates and no volume yet. */
  lemma {:induction false} NothingBeforeFirst(cells: seq<Cell>, ec: string, p: PlateId)
    requires ec != "" && ec !in EcsSeen(cells)
    ensures PlatesWith(cells, ec) == []
    ensures EcVolume(cells, ec) == 0 && FirstVolume(cells, ec) == 0 && PlateVolume(cells, ec, p) == 0
  {
    if cells != [] {
      var front := cells[..|cells| - 1];
      assert cells == front + [cells[|cells| - 1]];
      RefSnoc(front, cells[|cells| - 1], ec, p);
      NothingBeforeFirst(front, ec, p);
    }
  }

  /** The group of the new cell's EC, after a merge into the entry of the
      cell's plate, is accurate. */
  lemma MergeGroupOk(g: Group, cells: seq<Cell>, c: Cell, countMerged: bool, ei: nat)
    requires GroupOk(g, cells, countMerged) && g.ec == c.well.ec
    requires FindEntry(g.frs, c.plate) == Some(ei)
    ensures GroupOk(MergeEntry(g, c, countMerged, ei), cells + [c], countMerged)
  {
    MergeEntryTotals(g, cells, c, countMerged, ei);
    MergeEntryVolumes(g, cells, c, countMerged, ei);
    MergeEntryFrs(g, cells, c, countMerged, ei);
  }

  /** After a merge, every entry still carries its plate's first FR. */
  lemma MergeEntryFrs(g: Group, cells: seq<Cell>, c: Cell, countMerged: bool, ei: nat)
    requires ei < |g.frs| && EntryPlates(g.frs) == PlatesWith(cells, g.ec)
    requires forall j :: 0 <= j < |g.frs| ==> g.frs[j].fr == FirstFr(cells, g.ec, g.frs[j].plate)
    ensures var merged := MergeEntry(g, c, countMerged, ei).frs;
      forall j :: 0 <= j < |merged| ==> merged[j].fr == FirstFr(cells + [c], g.ec, merged[j].plate)
  {
    var merged := MergeEntry(g, c, countMerged, ei).frs;
    forall j | 0 <= j < |merged|
      ensures merged[j].fr == FirstFr(cells + [c], g.ec, merged[j].plate)
    {
      assert merged[j].plate == g.frs[j].plate == EntryPlates(g.frs)[j];
      FirstFrStep(cells, c, g.ec, merged[j].plate);
    }
  }

  /** After a merge the group lists the same plates, and its totals agree
      with the traversal. */
  lemma MergeEntryTotals(g: Group, cells: seq<Cell>, c: Cell, countMerged: bool, ei: nat)
    requires g.ec == c.well.ec && ei < |g.frs| && g.frs[ei].plate == c.plate
    requires EntryPlates(g.frs) == PlatesWith(cells, g.ec)
    requires SumEntries(g.frs) == EcVolume(cells, g.ec)
    requires g.volume == GroupVolume(cells, g.ec, countMerged)
    ensures var m := MergeEntry(g, c, countMerged, ei);
      && EntryPlates(m.frs) == PlatesWith(cells + [c], g.ec)
      && SumEntries(m.frs) == EcVolume(cells + [c], g.ec)
      && m.volume == GroupVolume(cells + [c], g.ec, countMerged)
  {
    RefSnoc(cells, c, g.ec, c.plate);
    assert EntryPlates(g.frs)[ei] == c.plate;
    SumEntriesUpdate(g.frs, ei, c.well.volume);
    MergeEntryPlates(g, c, countMerged, ei);
  }

  /** Merging into an entry keeps the plate of every entry. */
  lemma MergeEntryPlates(g: Group, c: Cell, countMerged: bool, ei: nat)
    requires ei < |g.frs|
    ensures EntryPlates(MergeEntry(g, c, countMerged, ei).frs) == EntryPlates(g.frs)
  {
    var m := MergeEntry(g, c, countMerged, ei).frs;
    assert |EntryPlates(m)| == |EntryPlates(g.frs)|;
    forall j | 0 <= j < |m|
      ensures EntryPlates(m)[j] == EntryPlates(g.frs)[j]
    {
    }
  }

  /** After a merge, every entry still holds its plate's volume. */
  lemma MergeEntryVolumes(g: Group, cells: seq<Cell>, c: Cell, countMerged: bool, ei: nat)
    requires GroupOk(g, cells, countMerged) && g.ec == c.well.ec
    requires FindEntry(g.frs, c.plate) == Some(ei)
    ensures var merged := MergeEntry(g, c, countMerged, ei).frs;
      forall j :: 0 <= j < |merged| ==> merged[j].volume == PlateVolume(cells + [c], g.ec, merged[j].plate)
  {
    var merged := MergeEntry(g, c, countMerged, ei).frs;
    PlatesWithDistinct(cells, g.ec);
    forall j | 0 <= j < |merged|
      ensures merged[j].volume == PlateVolume(cells + [c], g.ec, merged[j].plate)
    {
      RefSnoc(cells, c, g.ec, merged[j].plate);
      if j != ei {
        assert EntryPlates(g.frs)[j] != EntryPlates(g.frs)[ei];
      }
    }
  }

  /** The group of the new cell's EC, after opening an entry for the cell's
      plate, is accurate. */
  lemma NewEntryGroupOk(g: Group, cells: seq<Cell>, c: Cell, countMerged: bool)
    requires GroupOk(g, cells, countMerged) && g.ec == c.well.ec
    requires FindEntry(g.frs, c.plate).None?
    ensures GroupOk(OpenEntry(g, c), cells + [c], countMerged)
  {
    var w := c.well;
    var e := Entry(w.fr, w.volume, c.plate);
    RefSnoc(cells, c, w.ec, c.plate);
    assert c.plate !in PlatesWith(cells, w.ec) by {
      forall j | 0 <= j < |g.frs|
        ensures PlatesWith(cells, w.ec)[j] != c.plate
      {
        assert EntryPlates(g.frs)[j] == g.frs[j].plate;
      }
    }
    NewEntryFrs(g, cells, c);
    NewEntryVolumes(g, cells, c);
    assert EntryPlates(g.frs + [e]) == EntryPlates(g.frs) + [c.plate];
    SumEntriesSnoc(g.frs, e);
  }

  /** A new entry holds the volume of its plate, which had none of the EC
      before, and the older entries keep theirs. */
  lemma NewEntryVolumes(g: Group, cells: seq<Cell>, c: Cell)
    requires g.ec == c.well.ec && c.plate !in PlatesWith(cells, g.ec)
    requires EntryPlates(g.frs) == PlatesWith(cells, g.ec)
    requires forall j :: 0 <= j < |g.frs| ==> g.frs[j].volume == PlateVolume(cells, g.ec, g.frs[j].plate)
    ensures var es := OpenEntry(g, c).frs;
      forall j :: 0 <= j < |es| ==> es[j].volume == PlateVolume(cells + [c], g.ec, es[j].plate)
  {
    var es := OpenEntry(g, c).frs;
    PlateVolumeAbsent(cells, g.ec, c.plate);
    forall j | 0 <= j < |es|
      ensures es[j].volume == PlateVolume(cells + [c], g.ec, es[j].plate)
    {
      RefSnoc(cells, c, g.ec, es[j].plate);
      if j < |g.frs| {
        assert es[j].plate == EntryPlates(g.frs)[j];
      }
    }
  }

  /** A new entry carries the FR of the first well of the EC on its plate,
      and the older entries keep theirs. */
  lemma NewEntryFrs(g: Group, cells: seq<Cell>, c: Cell)
    requires g.ec == c.well.ec && c.plate !in PlatesWith(cells, g.ec)
    requires EntryPlates(g.frs) == PlatesWith(cells, g.ec)
    requires forall j :: 0 <= j < |g.frs| ==> g.frs[j].fr == FirstFr(cells, g.ec, g.frs[j].plate)
    ensures var es := OpenEntry(g, c).frs;
      forall j :: 0 <= j < |es| ==> es[j].fr == FirstFr(cells + [c], g.ec, es[j].plate)
  {
    var es := OpenEntry(g, c).frs;
    forall j | 0 <= j < |es|
      ensures es[j].fr == FirstFr(cells + [c], g.ec, es[j].plate)
    {
      FirstFrStep(cells, c, g.ec, es[j].plate);
      if j < |g.frs| {
        assert es[j].plate == EntryPlates(g.frs)[j];
      }
    }
  }

  /** Replacing the group of the new cell's EC by an accurate one keeps the
      whole answer accurate. */
  lemma StepReplace(gs: seq<Group>, cells: seq<Cell>, c: Cell, countMerged: bool, gi: nat, g': Group)
    requires Inv(gs, cells, countMerged)
    requires c.well.ec != "" && gi < |gs| && gs[gi].ec == c.well.ec
    requires g'.ec == c.well.ec && GroupOk(g', cells + [c], countMerged)
    ensures Inv(gs[gi := g'], cells + [c], countMerged)
  {
    RefSnoc(cells, c, "", 0);
    assert c.well.ec in EcsSeen(cells) by {
      assert EcsSeen(cells)[gi] == c.well.ec;
    }
    EcsSeenDistinct(cells);
    forall i | 0 <= i < |gs| && i != gi
      ensures GroupOk(gs[i], cells + [c], countMerged)
    {
      GroupOkFrame(gs[i], cells, c, countMerged);
    }
  }

  /** A plate not yet listed for an EC holds none of its volume. */
  lemma {:induction false} PlateVolumeAbsent(cells: seq<Cell>, ec: string, p: PlateId)
    requires p !in PlatesWith(cells, ec)
    ensures PlateVolume(cells, ec, p) == 0
  {
    if cells != [] {
      var front := cells[..|cells| - 1];
      assert cells == front + [cells[|cells| - 1]];
      RefSnoc(front, cells[|cells| - 1], ec, p);
      PlateVolumeAbsent(front, ec, p);
    }
  }

  lemma {:induction false} EcsSeenDistinct(cells: seq<Cell>)
    ensures Distinct(EcsSeen(cells))
    ensures forall i :: 0 <= i < |EcsSeen(cells)| ==> EcsSeen(cells)[i] != ""
  {
    if cells != [] {
      var front := cells[..|cells| - 1];
      assert cells == front + [cells[|cells| - 1]];
      RefSnoc(front, cells[|cells| - 1], "", 0);
      EcsSeenDistinct(front);
      var ec := cells[|cells| - 1].well.ec;
      if ec != "" && ec !in EcsSeen(front) {
        DistinctConcat(EcsSeen(front), [ec]);
      }
    }
  }

  lemma {:induction false} PlatesWithDistinct(cells: seq<Cell>, ec: string)
    ensures Distinct(PlatesWith(cells, ec))
  {
    if cells != [] {
      var front := cells[..|cells| - 1];
      var c := cells[|cells| - 1];
      assert cells == front + [c];
      RefSnoc(front, c, ec, 0);
      PlatesWithDistinct(front, ec);
      if c.well.ec == ec && c.plate !in PlatesWith(front, ec) {
        DistinctConcat(PlatesWith(front, ec), [c.plate]);
      }
    }
  }

  lemma StepInv(gs: seq<Group>, cells: seq<Cell>, c: Cell, countMerged: bool)
    requires Inv(gs, cells, countMerged)
    ensures Inv(AddCell(gs, c, countMerged), cells + [c], countMerged)
  {
    var w := c.well;
    if w.ec == "" {
      RefSnoc(cells, c, "", 0);
      forall i | 0 <= i < |gs|
        ensures GroupOk(gs[i], cells + [c], countMerged)
      {
        EcsSeenDistinct(cells);
        GroupOkFrame(gs[i], cells, c, countMerged);
      }
    } else if FindGroup(gs, w.ec).None? {
      StepNewGroup(gs, cells, c, countMerged);
    } else {
      StepKnownGroup(gs, cells, c, countMerged, FindGroup(gs, w.ec).value);
    }
  }

  lemma StepKnownGroup(gs: seq<Group>, cells: seq<Cell>, c: Cell, countMerged: bool, gi: nat)
    requires Inv(gs, cells, countMerged)
    requires c.well.ec != "" && FindGroup(gs, c.well.ec) == Some(gi)
    ensures Inv(AddCell(gs, c, countMerged), cells + [c], countMerged)
  {
    match FindEntry(gs[gi].frs, c.plate)
    case Some(ei) => StepMergeEntry(gs, cells, c, countMerged, gi, ei);
    case None => StepNewEntry(gs, cells, c, countMerged, gi);
  }

  lemma StepMergeEntry(gs: seq<Group>, cells: seq<Cell>, c: Cell, countMerged: bool, gi: nat, ei: nat)
    requires Inv(gs, cells, countMerged)
    requires c.well.ec != "" && FindGroup(gs, c.well.ec) == Some(gi)
    requires FindEntry(gs[gi].frs, c.plate) == Some(ei)
    ensures Inv(AddCell(gs, c, countMerged), cells + [c], countMerged)
  {
    MergeGroupOk(gs[gi], cells, c, countMerged, ei);
    StepReplace(gs, cells, c, countMerged, gi, MergeEntry(gs[gi], c, countMerged, ei));
  }

  lemma StepNewEntry(gs: seq<Group>, cells: seq<Cell>, c: Cell, countMerged: bool, gi: nat)
    requires Inv(gs, cells, countMerged)
    requires c.well.ec != "" && FindGroup(gs, c.well.ec) == Some(gi)
    requires FindEntry(gs[gi].frs, c.plate).None?
    ensures Inv(AddCell(gs, c, countMerged), cells + [c], countMerged)
  {
    NewEntryGroupOk(gs[gi], cells, c, countMerged);
    StepReplace(gs, cells, c, countMerged, gi, OpenEntry(gs[gi], c));
  }

  /** The answer after any prefix of the traversal is accurate. */
  lemma {:induction false} AggregateInv(cells: seq<Cell>, countMerged: bool)
    ensures Inv(Aggregate(cells, countMerged), cells, countMerged)
  {
    if cells != [] {
      var front := cells[..|cells| - 1];
      assert cells == front + [cells[|cells| - 1]];
      AggregateInv(front, countMerged);
      StepInv(Aggregate(front, countMerged), front, cells[|cells| - 1], countMerged);
    }
  }

  /** An EC is met exactly when some well carries it. */
  lemma {:induction false} EcsSeenMembers(cells: seq<Cell>, ec: string)
    ensures ec in EcsSeen(cells) <==> ec != "" && exists i :: 0 <= i < |cells| && cells[i].well.ec == ec
  {
    if cells != [] {
      var front := cells[..|cells| - 1];
      assert cells == front + [cells[|cells| - 1]];
      RefSnoc(front, cells[|cells| - 1], ec, 0);
      EcsSeenMembers(front, ec);
      EcsSeenDistinct(front);
      if ec != "" && exists i :: 0 <= i < |cells| && cells[i].well.ec == ec {
        var i :| 0 <= i < |cells| && cells[i].well.ec == ec;
        if i < |front| {
          assert front[i].well.ec == ec;
        }
      }
      if exists i :: 0 <= i < |front| && front[i].well.ec == ec {
        var i :| 0 <= i < |front| && front[i].well.ec == ec;
        assert cells[i].well.ec == ec;
      }
    }
  }

  /** `/frec` has one group per distinct non-empty EC, in the order the ECs
      are first met; each group lists each plate holding that EC exactly
      once, in the order the plates are first met (see `PlatesWithMembers`),
      with the FR of the EC's first well on that plate and the volume of all
      the EC's wells there; the entries add up to the EC's whole volume. */
  lemma FrecGroups(plates: seq<Plate>, countMerged: bool)
    ensures var cells := AllCells(plates);
      var gs := Aggregate(cells, countMerged);
      && |gs| == |EcsSeen(cells)|
      && (forall i :: 0 <= i < |gs| ==> gs[i].ec == EcsSeen(cells)[i] && gs[i].ec != "")
      && (forall i, j :: 0 <= i < j < |gs| ==> gs[i].ec != gs[j].ec)
      && (forall i :: 0 <= i < |gs| ==> EntryPlates(gs[i].frs) == PlatesWith(cells, gs[i].ec))
      && (forall i :: 0 <= i < |gs| ==> Distinct(EntryPlates(gs[i].frs)))
      && (forall i, j :: 0 <= i < |gs| && 0 <= j < |gs[i].frs| ==>
            gs[i].frs[j].fr == FirstFr(cells, gs[i].ec, gs[i].frs[j].plate))
      && (forall i, j :: 0 <= i < |gs| && 0 <= j < |gs[i].frs| ==>
            gs[i].frs[j].volume == PlateVolume(cells, gs[i].ec, gs[i].frs[j].plate))
      && (forall i :: 0 <= i < |gs| ==> SumEntries(gs[i].frs) == EcVolume(cells, gs[i].ec))
  {
    var cells := AllCells(plates);
    var gs := Aggregate(cells, countMerged);
    AggregateInv(cells, countMerged);
    EcsSeenDistinct(cells);
    forall i | 0 <= i < |gs|
      ensures Distinct(EntryPlates(gs[i].frs))
    {
      PlatesWithDistinct(cells, gs[i].ec);
    }
  }

  /** The corrected group volume is the EC's whole volume: the sum of the
      group's entries. */
  lemma FrecGroupVolume(plates: seq<Plate>)
    ensures var gs := Frec(plates);
      forall i :: 0 <= i < |gs| ==> gs[i].volume == EcVolume(AllCells(plates), gs[i].ec) == SumEntries(gs[i].frs)
  {
    AggregateInv(AllCells(plates), true);
  }

  /** As written, the group volume only counts the first well of the EC on
      each plate. */
  lemma FrecAsWrittenGroupVolume(plates: seq<Plate>)
    ensures var gs := FrecAsWritten(plates);
      forall i :: 0 <= i < |gs| ==> gs[i].volume == FirstVolume(AllCells(plates), gs[i].ec)
  {
    AggregateInv(AllCells(plates), false);
  }

  /** Two wells of EC `E1` on one plate, holding 5 and 3: the source
      reports a group volume of 5 although its one entry holds 8. */
  lemma FrecAsWrittenUndercounts()
    ensures var cells := [Cell(1, Well("FR1", "E1", 5)), Cell(1, Well("FR1", "E1", 3))];
      && Aggregate(cells, false) == [Group("E1", 5, [Entry("FR1", 8, 1)])]
      && Aggregate(cells, true) == [Group("E1", 8, [Entry("FR1", 8, 1)])]
  {
    var c1 := Cell(1, Well("FR1", "E1", 5));
    var c2 := Cell(1, Well("FR1", "E1", 3));
    assert [c1, c2][..1] == [c1];
    assert [c1][..0] == [];
    var g1 := Group("E1", 5, [Entry("FR1", 5, 1)]);
    assert Aggregate([], false) == [] && Aggregate([], true) == [];
    assert Aggregate([c1], false) == [g1] && Aggregate([c1], true) == [g1];
    assert FindGroup([g1], "E1") == Some(0);
    assert FindEntry(g1.frs, 1) == Some(0);
    var merged := [Entry("FR1", 8, 1)];
    assert g1.frs[0 := g1.frs[0].(volume := g1.frs[0].volume + 3)] == merged;
    assert Aggregate([c1, c2], false) == AddCell([g1], c2, false) == [g1][0 := Group("E1", 5, merged)];
    assert Aggregate([c1, c2], true) == AddCell([g1], c2, true) == [g1][0 := Group("E1", 8, merged)];
  }

  /** The source's loops: over plates, then over the 96 labels. */
  method FrecLoop(plates: seq<Plate>, countMerged: bool) returns (ecs: seq<Group>)
    ensures ecs == Aggregate(AllCells(plates), countMerged)
  {
    ecs := [];
    var k := 0;
    while k < |plates|
      invariant 0 <= k <= |plates|
      invariant ecs == Aggregate(AllCells(plates[..k]), countMerged)
    {
      ecs := FrecPlate(ecs, AllCells(plates[..k]), plates[k], countMerged);
      assert plates[..k + 1] == plates[..k] + [plates[k]];
      AllCellsSnoc(plates[..k], plates[k]);
      k := k + 1;
    }
    assert plates[..|plates|] == plates;
  }

  /** The loop over the 96 labels of one plate. */
  method FrecPlate(ecs: seq<Group>, ghost before: seq<Cell>, p: Plate, countMerged: bool) returns (ecs': seq<Group>)
    requires ecs == Aggregate(before, countMerged)
    ensures ecs' == Aggregate(before + PlateCells(p), countMerged)
  {
    ecs' := ecs;
    var l := 0;
    PrefixAll(before, PlateCells(p));
    while l < WellCount
      invariant 0 <= l <= WellCount
      invariant ecs' == Aggregate(before + PlateCells(p)[..l], countMerged)
    {
      var c := Cell(p.id, p.wells[l]);
      PrefixStep(before, PlateCells(p), l);
      SnocFront(before + PlateCells(p)[..l], c);
      ecs' := AddCell(ecs', c, countMerged);
      l := l + 1;
    }
  }
}
