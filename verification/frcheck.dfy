/** `/stock/check/frs`: which of the FRs a user is about to use already sit
    in a well of some plate. */
module FrCheck {
  import opened Wrappers
  import opened Grid
  import opened Seqs
  import opened Arith
  import opened Cells

  /** An entry of the request's `frs` list; a null entry, or one without an
      `fr`, has the empty `fr`. */
  datatype CheckEntry = CheckEntry(fr: string)

  datatype CheckError = NoFrsSent

  /** `tc && tc.fr && plate[l] && plate[l].fr && tc.fr === plate[l].fr` */
  predicate InUse(tc: CheckEntry, c: Cell)
    ensures InUse(tc, c) <==> tc.fr != "" && tc.fr == c.well.fr
  {
    tc.fr != "" && c.well.fr != "" && tc.fr == c.well.fr
  }

  /** What one well contributes: every to-check entry it matches, in list
      order. */
  function CellMatches(c: Cell, toCheck: seq<CheckEntry>): seq<CheckEntry> {
    if toCheck == [] then []
    else
      var tc := toCheck[|toCheck| - 1];
      CellMatches(c, toCheck[..|toCheck| - 1]) + (if InUse(tc, c) then [tc] else [])
  }

  function InUseCells(cells: seq<Cell>, toCheck: seq<CheckEntry>): seq<CheckEntry> {
    if cells == [] then []
    else InUseCells(cells[..|cells| - 1], toCheck) + CellMatches(cells[|cells| - 1], toCheck)
  }

  /** The answer: no list at all is an error (an empty list is not). */
  function CheckFrs(toCheck: Option<seq<CheckEntry>>, plates: seq<Plate>): Result<seq<CheckEntry>, CheckError> {
    match toCheck
    case None => Failure(NoFrsSent)
    case Some(tcs) => Success(InUseCells(AllCells(plates), tcs))
  }

  /** Number of wells holding `fr`. */
  function WellsWith(cells: seq<Cell>, fr: string): nat {
    if cells == [] then 0
    else WellsWith(cells[..|cells| - 1], fr) + (if cells[|cells| - 1].well.fr == fr then 1 else 0)
  }

  /** A well emits every copy of a matching entry. */
  lemma {:induction false} CellMatchesCount(c: Cell, toCheck: seq<CheckEntry>, e: CheckEntry)
    ensures multiset(CellMatches(c, toCheck))[e] ==
      if e.fr != "" && c.well.fr == e.fr then multiset(toCheck)[e] else 0
  {
    if toCheck != [] {
      var front := toCheck[..|toCheck| - 1];
      assert toCheck == front + [toCheck[|toCheck| - 1]];
      CellMatchesCount(c, front, e);
    }
  }

  /** Each to-check entry is reported once per well holding its FR (and
      once more per duplicate of the entry in the list); an entry without
      an FR is never reported. */
  lemma {:induction false} InUseCount(cells: seq<Cell>, toCheck: seq<CheckEntry>, e: CheckEntry)
    ensures e.fr != "" ==> multiset(InUseCells(cells, toCheck))[e] == multiset(toCheck)[e] * WellsWith(cells, e.fr)
    ensures e.fr == "" ==> multiset(InUseCells(cells, toCheck))[e] == 0
  {
    if e.fr != "" {
      InUseCountFr(cells, toCheck, e);
      TimesCommutes(WellsWith(cells, e.fr), multiset(toCheck)[e]);
    } else {
      InUseCountNoFr(cells, toCheck, e);
    }
  }

  lemma {:induction false} InUseCountFr(cells: seq<Cell>, toCheck: seq<CheckEntry>, e: CheckEntry)
    requires e.fr != ""
    ensures multiset(InUseCells(cells, toCheck))[e] == Times(WellsWith(cells, e.fr), multiset(toCheck)[e])
  {
    if cells != [] {
      var front := cells[..|cells| - 1];
      var last := cells[|cells| - 1];
      var a := InUseCells(front, toCheck);
      var b := CellMatches(last, toCheck);
      assert InUseCells(cells, toCheck) == a + b;
      assert multiset(a + b)[e] == multiset(a)[e] + multiset(b)[e];
      InUseCountFr(front, toCheck, e);
      CellMatchesCount(last, toCheck, e);
    }
  }

  lemma {:induction false} InUseCountNoFr(cells: seq<Cell>, toCheck: seq<CheckEntry>, e: CheckEntry)
    requires e.fr == ""
    ensures multiset(InUseCells(cells, toCheck))[e] == 0
  {
    if cells != [] {
      var front := cells[..|cells| - 1];
      var a := InUseCells(front, toCheck);
      var b := CellMatches(cells[|cells| - 1], toCheck);
      assert InUseCells(cells, toCheck) == a + b;
      InUseCountNoFr(front, toCheck, e);
      CellMatchesCount(cells[|cells| - 1], toCheck, e);
    }
  }

  /** An entry is reported exactly when it is in the list, has an FR, and
      some well holds that FR. */
  lemma InUseMembers(cells: seq<Cell>, toCheck: seq<CheckEntry>, e: CheckEntry)
    ensures e in InUseCells(cells, toCheck) <==>
      e in toCheck && e.fr != "" && exists i :: 0 <= i < |cells| && cells[i].well.fr == e.fr
  {
    var out := InUseCells(cells, toCheck);
    InUseCount(cells, toCheck, e);
    WellsWithPositive(cells, e.fr);
    assert e in out <==> multiset(out)[e] > 0;
    assert e in toCheck <==> multiset(toCheck)[e] > 0;
    MulPositive(multiset(toCheck)[e], WellsWith(cells, e.fr));
  }

  lemma {:induction false} WellsWithPositive(cells: seq<Cell>, fr: string)
    ensures WellsWith(cells, fr) > 0 <==> exists i :: 0 <= i < |cells| && cells[i].well.fr == fr
  {
    if cells != [] {
      var front := cells[..|cells| - 1];
      WellsWithPositive(front, fr);
      if exists i :: 0 <= i < |front| && front[i].well.fr == fr {
        var i :| 0 <= i < |front| && front[i].well.fr == fr;
        assert cells[i] == front[i];
      }
      if exists i :: 0 <= i < |cells| && cells[i].well.fr == fr {
        var i :| 0 <= i < |cells| && cells[i].well.fr == fr;
        if i < |front| {
          assert front[i] == cells[i];
        }
      }
    }
  }

  /** The source's three nested loops: plates, then labels, then the
      to-check list. */
  method CheckFrsLoop(toCheck: Option<seq<CheckEntry>>, plates: seq<Plate>) returns (r: Result<seq<CheckEntry>, CheckError>)
    ensures r == CheckFrs(toCheck, plates)
  {
    if toCheck.None? {
      return Failure(NoFrsSent);
    }
    var tcs := toCheck.value;
    var inUse: seq<CheckEntry> := [];
    var k := 0;
    while k < |plates|
      invariant 0 <= k <= |plates|
      invariant inUse == InUseCells(AllCells(plates[..k]), tcs)
    {
      inUse := CheckPlate(inUse, AllCells(plates[..k]), plates[k], tcs);
      assert plates[..k + 1] == plates[..k] + [plates[k]];
      AllCellsSnoc(plates[..k], plates[k]);
      k := k + 1;
    }
    assert plates[..|plates|] == plates;
    r := Success(inUse);
  }

  /** The loop over the 96 labels of one plate. */
  method CheckPlate(inUse: seq<CheckEntry>, ghost before: seq<Cell>, p: Plate, tcs: seq<CheckEntry>) returns (inUse': seq<CheckEntry>)
    requires inUse == InUseCells(before, tcs)
    ensures inUse' == InUseCells(before + PlateCells(p), tcs)
  {
    inUse' := inUse;
    var l := 0;
    PrefixAll(before, PlateCells(p));
    while l < WellCount
      invariant 0 <= l <= WellCount
      invariant inUse' == InUseCells(before + PlateCells(p)[..l], tcs)
    {
      var c := Cell(p.id, p.wells[l]);
      var matches := MatchesOfWell(c, tcs);
      PrefixStep(before, PlateCells(p), l);
      SnocFront(before + PlateCells(p)[..l], c);
      inUse' := inUse' + matches;
      l := l + 1;
    }
  }

  /** The innermost loop, over the to-check list for one well. */
  method MatchesOfWell(c: Cell, tcs: seq<CheckEntry>) returns (matches: seq<CheckEntry>)
    ensures matches == CellMatches(c, tcs)
  {
    matches := [];
    var j := 0;
    while j < |tcs|
      invariant 0 <= j <= |tcs|
      invariant matches == CellMatches(c, tcs[..j])
    {
      var tc := tcs[j];
      assert tcs[..j + 1][..j] == tcs[..j];
      if tc.fr != "" && c.well.fr != "" {
        if tc.fr == c.well.fr {
          matches := matches + [tc];
        }
      }
      j := j + 1;
    }
    assert tcs[..|tcs|] == tcs;
  }
}
