/** `/frec/search`: every well whose EC contains the query, ignoring case,
    reported once per distinct (EC, FR, volume, plate). */
module Search {
  import opened Grid
  import opened Text
  import opened Seqs
  import opened Cells

  datatype Hit = Hit(ec: string, fr: string, volume: int, plate: PlateId)

  function HitOf(c: Cell): Hit {
    Hit(c.well.ec, c.well.fr, c.well.volume, c.plate)
  }

  /** The query is longer than two characters, the well has an EC, and the
      upper-cased EC contains the upper-cased query; so a matching EC is at
      least as long as the query. */
  predicate Matches(c: Cell, q: string)
    ensures Matches(c, q) ==> |c.well.ec| >= |q| > 2
  {
    ContainsAt(Upper(c.well.ec), Upper(q));
    |q| > 2 && c.well.ec != "" && Contains(Upper(c.well.ec), Upper(q))
  }

  /** One well: a match is pushed unless an identical tuple is already in
      the results. */
  function SearchStep(results: seq<Hit>, c: Cell, q: string): seq<Hit> {
    if Matches(c, q) && HitOf(c) !in results then results + [HitOf(c)] else results
  }

  function SearchCells(cells: seq<Cell>, q: string): seq<Hit> {
    if cells == [] then []
    else SearchStep(SearchCells(cells[..|cells| - 1], q), cells[|cells| - 1], q)
  }

  function FrecSearch(plates: seq<Plate>, q: string): seq<Hit> {
    SearchCells(AllCells(plates), q)
  }

  lemma SearchSnoc(cells: seq<Cell>, c: Cell, q: string)
    ensures SearchCells(cells + [c], q) == SearchStep(SearchCells(cells, q), c, q)
  {
    assert (cells + [c])[..|cells|] == cells;
  }

  /** A query of at most two characters finds nothing. */
  lemma {:induction false} ShortQueryFindsNothing(cells: seq<Cell>, q: string)
    requires |q| <= 2
    ensures SearchCells(cells, q) == []
  {
    if cells != [] {
      ShortQueryFindsNothing(cells[..|cells| - 1], q);
    }
  }

  /** The results are exactly the tuples of the matching wells, each once. */
  lemma {:induction false} SearchCorrect(cells: seq<Cell>, q: string)
    ensures Distinct(SearchCells(cells, q))
    ensures forall h :: h in SearchCells(cells, q) <==>
      exists i :: 0 <= i < |cells| && Matches(cells[i], q) && HitOf(cells[i]) == h
  {
    if cells != [] {
      var front := cells[..|cells| - 1];
      var c := cells[|cells| - 1];
      assert cells == front + [c];
      SearchCorrect(front, q);
      var rs := SearchCells(front, q);
      if Matches(c, q) && HitOf(c) !in rs {
        DistinctConcat(rs, [HitOf(c)]);
      }
      forall h
        ensures h in SearchCells(cells, q) <==>
          exists i :: 0 <= i < |cells| && Matches(cells[i], q) && HitOf(cells[i]) == h
      {
        assert h in SearchCells(cells, q) <==> h in rs || (Matches(c, q) && HitOf(c) == h);
        if exists i :: 0 <= i < |cells| && Matches(cells[i], q) && HitOf(cells[i]) == h {
          var i :| 0 <= i < |cells| && Matches(cells[i], q) && HitOf(cells[i]) == h;
          if i < |front| {
            assert front[i] == cells[i];
          }
        }
        if exists i :: 0 <= i < |front| && Matches(front[i], q) && HitOf(front[i]) == h {
          var i :| 0 <= i < |front| && Matches(front[i], q) && HitOf(front[i]) == h;
          assert cells[i] == front[i];
        }
      }
    }
  }

  /** Every result names a well with an EC containing the query, ignoring
      case. */
  lemma SearchResultsMatch(plates: seq<Plate>, q: string, h: Hit)
    requires h in FrecSearch(plates, q)
    ensures h.ec != "" && Contains(Upper(h.ec), Upper(q)) && |q| > 2
  {
    SearchCorrect(AllCells(plates), q);
  }

  /** Upper-casing the query changes nothing. */
  lemma {:induction false} SearchIgnoresQueryCase(cells: seq<Cell>, q: string)
    ensures SearchCells(cells, Upper(q)) == SearchCells(cells, q)
  {
    UpperIdempotent(q);
    if cells != [] {
      SearchIgnoresQueryCase(cells[..|cells| - 1], q);
    }
  }

  /** The loops of the source, over plates and then the 96 labels. */
  method SearchLoop(plates: seq<Plate>, lookingFor: string) returns (results: seq<Hit>)
    ensures results == FrecSearch(plates, lookingFor)
  {
    results := [];
    var k := 0;
    while k < |plates|
      invariant 0 <= k <= |plates|
      invariant results == SearchCells(AllCells(plates[..k]), lookingFor)
    {
      results := SearchPlate(results, AllCells(plates[..k]), plates[k], lookingFor);
      assert plates[..k + 1] == plates[..k] + [plates[k]];
      AllCellsSnoc(plates[..k], plates[k]);
      k := k + 1;
    }
    assert plates[..|plates|] == plates;
  }

  /** The loop over the 96 labels of one plate. */
  method SearchPlate(results: seq<Hit>, ghost before: seq<Cell>, p: Plate, lookingFor: string) returns (results': seq<Hit>)
    requires results == SearchCells(before, lookingFor)
    ensures results' == SearchCells(before + PlateCells(p), lookingFor)
  {
    results' := results;
    var l := 0;
    PrefixAll(before, PlateCells(p));
    while l < WellCount
      invariant 0 <= l <= WellCount
      invariant results' == SearchCells(before + PlateCells(p)[..l], lookingFor)
    {
      var well := p.wells[l];
      PrefixStep(before, PlateCells(p), l);
      SearchSnoc(before + PlateCells(p)[..l], Cell(p.id, well), lookingFor);
      if |lookingFor| > 2 {
        if well.ec != "" {
          if Contains(Upper(well.ec), Upper(lookingFor)) {
            var hit := Hit(well.ec, well.fr, well.volume, p.id);
            if hit !in results' {
              results' := results' + [hit];
            }
          }
        }
      }
      l := l + 1;
    }
  }
}
