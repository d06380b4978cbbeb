/** The stock update of `/master/new`: the clicked items are put in layout
    order, and then every stock well holding one of their `fr`s gives up the
    volume the new master plates need. */
module MasterCreation {
  import opened Wrappers
  import opened Grid
  import opened Layout
  import opened Ledger

  /** The parts of the request body the stock update reads. */
  datatype NewMasterRequest = NewMasterRequest(
    items: seq<Item>,
    volume: int,
    replicates: Option<int>,
    noOfPlates: int,
    masterLayout: int)

  /** `frsTaken`: the `fr` of every item, in item order. */
  function FrsOf(items: seq<Item>): (frs: seq<string>)
    ensures |frs| == |items|
    ensures forall f :: f in frs <==> exists i :: 0 <= i < |items| && items[i].fr == f
  {
    var frs := seq(|items|, i requires 0 <= i < |items| => items[i].fr);
    assert forall i :: 0 <= i < |items| ==> frs[i] == items[i].fr;
    frs
  }

  function AmountOf(req: NewMasterRequest): int {
    VolumeToTake(req.volume, ReplicatesOrDefault(req.replicates), req.noOfPlates)
  }

  /** A rearrangement of the items takes the same `fr`s. */
  lemma FrsOfPermutation(a: seq<Item>, b: seq<Item>)
    requires multiset(a) == multiset(b)
    ensures forall f :: f in FrsOf(a) <==> f in FrsOf(b)
  {
    forall f | f in FrsOf(a)
      ensures f in FrsOf(b)
    {
      var i :| 0 <= i < |a| && a[i].fr == f;
      assert a[i] in multiset(b);
      var j :| 0 <= j < |b| && b[j] == a[i];
    }
    forall f | f in FrsOf(b)
      ensures f in FrsOf(a)
    {
      var j :| 0 <= j < |b| && b[j].fr == f;
      assert b[j] in multiset(a);
      var i :| 0 <= i < |a| && a[i] == b[j];
    }
  }

  /** Section 2 of `/master/new`: sort the items, compute the volume to
      take and withdraw it from the stock plate. Whatever the layout, the
      stock plate ends the same: the order only matters to the master
      plates. */
  method UpdateStock(stock: Wells, req: NewMasterRequest) returns (r: Wells)
    requires AllKeyed(StrategyOf(req.masterLayout), req.items)
    ensures r == Withdrawn(stock, FrsOf(req.items), AmountOf(req))
  {
    var sorted := ApplyLayout(req.items, req.masterLayout);
    var volToTake := VolumeToTake(req.volume, ReplicatesOrDefault(req.replicates), req.noOfPlates);
    var frsTaken := FrsOf(sorted);
    r := WithdrawStock(stock, frsTaken, volToTake);
    FrsOfPermutation(sorted, req.items);
    WithdrawnBySet(stock, frsTaken, FrsOf(req.items), volToTake);
  }

  /** The stock update for whatever order the sort leaves the items in,
      including the unspecified order of keys that do not parse: any
      rearrangement of the items withdraws the same. */
  method UpdateStockAnyOrder(stock: Wells, req: NewMasterRequest, sorted: seq<Item>) returns (r: Wells)
    requires multiset(sorted) == multiset(req.items)
    ensures r == Withdrawn(stock, FrsOf(req.items), AmountOf(req))
  {
    var volToTake := VolumeToTake(req.volume, ReplicatesOrDefault(req.replicates), req.noOfPlates);
    var frsTaken := FrsOf(sorted);
    r := WithdrawStock(stock, frsTaken, volToTake);
    FrsOfPermutation(sorted, req.items);
    WithdrawnBySet(stock, frsTaken, FrsOf(req.items), volToTake);
  }

  /** With the default three replicates, one dose per well and one plate,
      each used stock well gives up three doses. */
  lemma DefaultReplicatesTakeThreeDoses(stock: Wells, req: NewMasterRequest, i: nat)
    requires req.replicates == None && req.noOfPlates == 1 && i < WellCount
    requires stock[i].fr in FrsOf(req.items)
    ensures Withdrawn(stock, FrsOf(req.items), AmountOf(req))[i].volume == stock[i].volume - 3 * req.volume
  {
    WithdrawnWell(stock, FrsOf(req.items), AmountOf(req), i);
  }
}
