/** Volume bookkeeping: the stock withdrawal when a master is made, the
    manual `/plate/:id/take` and `/masterPlate/:id/take`. None of them has a
    lower bound, so volumes may become negative. */
module Ledger {
  import opened Wrappers
  import opened Grid
  import opened Arith

  const TwoTo31: int := 0x8000_0000
  const TwoTo32: int := 0x1_0000_0000

  /** `x | 0` on an integral `x`: JavaScript's ToInt32, the two's-complement
      wrap into 32 bits. */
  function ToInt32(x: int): (y: int)
    ensures -TwoTo31 <= y < TwoTo31
    ensures (x - y) % TwoTo32 == 0
    ensures -TwoTo31 <= x < TwoTo31 ==> y == x
  {
    var m := x % TwoTo32;
    if m >= TwoTo31 then m - TwoTo32 else m
  }

  /** `req.body.replicates || 3`: a missing or zero count means three. */
  function ReplicatesOrDefault(r: Option<int>): (n: int)
    ensures n != 0
    ensures r.Some? && r.value != 0 <==> n == (if r.Some? then r.value else 0)
    ensures r.None? || r.value == 0 ==> n == 3
  {
    if r.Some? && r.value != 0 then r.value else 3
  }

  /** The volume taken from each used stock well: one dose for every
      replicate on every master plate. */
  function VolumeToTake(dose: int, replicates: int, noOfPlates: int): (v: int)
    ensures replicates == 0 || noOfPlates == 0 ==> v == 0
    ensures dose >= 0 && replicates >= 0 && noOfPlates >= 0 ==>
      v == Times(noOfPlates, Times(replicates, dose))
  {
    var v := dose * replicates * noOfPlates;
    if dose >= 0 && replicates >= 0 && noOfPlates >= 0 then
      TimesIsMul(replicates, dose);
      TimesIsMul(noOfPlates, replicates * dose);
      v
    else v
  }

  function Lower(w: Well, amount: int): (t: Well)
    ensures t.fr == w.fr && t.ec == w.ec && t.volume == w.volume - amount
  {
    w.(volume := w.volume - amount)
  }

  /** Sum of the volumes of a run of wells. */
  function Total(ws: seq<Well>): int {
    if ws == [] then 0 else Total(ws[..|ws| - 1]) + ws[|ws| - 1].volume
  }

  /** Number of wells whose `fr` is among `frs`. */
  function CountTaken(ws: seq<Well>, frs: seq<string>): nat {
    if ws == [] then 0
    else CountTaken(ws[..|ws| - 1], frs) + (if ws[|ws| - 1].fr in frs then 1 else 0)
  }

  /** The stock plate after the withdrawal: every well whose `fr` is one of
      the taken items' `fr`s loses `amount`, once. */
  function Withdrawn(ws: seq<Well>, frs: seq<string>, amount: int): (r: seq<Well>)
    ensures |r| == |ws|
  {
    seq(|ws|, i requires 0 <= i < |ws| => if ws[i].fr in frs then Lower(ws[i], amount) else ws[i])
  }

  /** The `labels.forEach` loop of `/master/new` over the stock plate. */
  method WithdrawStock(ws: Wells, frsTaken: seq<string>, amount: int) returns (r: Wells)
    ensures r == Withdrawn(ws, frsTaken, amount)
  {
    r := ws;
    var k := 0;
    while k < WellCount
      invariant 0 <= k <= WellCount
      invariant forall i :: 0 <= i < k ==> r[i] == Withdrawn(ws, frsTaken, amount)[i]
      invariant forall i :: k <= i < WellCount ==> r[i] == ws[i]
    {
      if r[k].fr in frsTaken {
        r := r[k := Lower(r[k], amount)];
      }
      k := k + 1;
    }
    assert r == Withdrawn(ws, frsTaken, amount);
  }

  /** Nothing but volumes changes, and a well loses `amount` exactly when its
      `fr` was taken: listing an `fr` several times takes only once. */
  lemma WithdrawnWell(ws: seq<Well>, frs: seq<string>, amount: int, i: nat)
    requires i < |ws|
    ensures Withdrawn(ws, frs, amount)[i].fr == ws[i].fr
    ensures Withdrawn(ws, frs, amount)[i].ec == ws[i].ec
    ensures ws[i].fr in frs ==> Withdrawn(ws, frs, amount)[i].volume == ws[i].volume - amount
    ensures ws[i].fr !in frs ==> Withdrawn(ws, frs, amount)[i] == ws[i]
  {
  }

  /** Only the set of taken `fr`s matters, not their order or repetition. */
  lemma WithdrawnBySet(ws: seq<Well>, a: seq<string>, b: seq<string>, amount: int)
    requires forall f :: f in a <==> f in b
    ensures Withdrawn(ws, a, amount) == Withdrawn(ws, b, amount)
  {
  }

  lemma {:induction false} TotalSnoc(ws: seq<Well>, w: Well)
    ensures Total(ws + [w]) == Total(ws) + w.volume
  {
    assert (ws + [w])[..|ws|] == ws;
  }

  /** The plate loses `amount` once per taken well. */
  lemma {:induction false} WithdrawnTotal(ws: seq<Well>, frs: seq<string>, amount: int)
    ensures Total(Withdrawn(ws, frs, amount)) == Total(ws) - amount * CountTaken(ws, frs)
  {
    if ws != [] {
      var front := ws[..|ws| - 1];
      var w := ws[|ws| - 1];
      WithdrawnTotal(front, frs, amount);
      assert Withdrawn(ws, frs, amount) == Withdrawn(front, frs, amount) + [Withdrawn(ws, frs, amount)[|ws| - 1]];
      TotalSnoc(Withdrawn(front, frs, amount), Withdrawn(ws, frs, amount)[|ws| - 1]);
      var c := CountTaken(front, frs);
      assert amount * (c + 1) == amount * c + amount;
    }
  }

  /** Two withdrawals of the same items are one withdrawal of the sum. */
  lemma WithdrawnTwice(ws: seq<Well>, frs: seq<string>, a: int, b: int)
    ensures Withdrawn(Withdrawn(ws, frs, a), frs, b) == Withdrawn(ws, frs, a + b)
  {
  }

  /** Every well lowered by `amount`: `/plate/:id/take`. */
  function Lowered(ws: seq<Well>, amount: int): (r: seq<Well>)
    ensures |r| == |ws|
  {
    seq(|ws|, i requires 0 <= i < |ws| => Lower(ws[i], amount))
  }

  /** `/plate/:id/take`: the request volume goes through `| 0`, then every
      well of the plate loses it. */
  method TakeFromPlate(p: Plate, volume: int) returns (r: Plate)
    ensures r == Plate(p.id, Lowered(p.wells, ToInt32(volume)))
  {
    var v := ToInt32(volume);
    var ws := p.wells;
    var k := 0;
    while k < WellCount
      invariant 0 <= k <= WellCount && |ws| == WellCount
      invariant forall i :: 0 <= i < k ==> ws[i] == Lowered(p.wells, v)[i]
      invariant forall i :: k <= i < WellCount ==> ws[i] == p.wells[i]
    {
      ws := ws[k := Lower(ws[k], v)];
      k := k + 1;
    }
    assert ws == Lowered(p.wells, v);
    r := Plate(p.id, ws);
  }

  /** The plate loses the amount from each of its wells. */
  lemma {:induction false} LoweredTotal(ws: seq<Well>, amount: int)
    ensures Total(Lowered(ws, amount)) == Total(ws) - |ws| * amount
  {
    if ws != [] {
      var front := ws[..|ws| - 1];
      LoweredTotal(front, amount);
      assert Lowered(ws, amount) == Lowered(front, amount) + [Lower(ws[|ws| - 1], amount)];
      TotalSnoc(Lowered(front, amount), Lower(ws[|ws| - 1], amount));
      assert (|front| + 1) * amount == |front| * amount + amount;
    }
  }

  /** Taking from a plate equals withdrawing every `fr` the plate holds. */
  lemma LoweredIsWithdrawnOfAll(ws: seq<Well>, amount: int)
    ensures Lowered(ws, amount) == Withdrawn(ws, seq(|ws|, i requires 0 <= i < |ws| => ws[i].fr), amount)
  {
    var frs := seq(|ws|, i requires 0 <= i < |ws| => ws[i].fr);
    forall i | 0 <= i < |ws|
      ensures ws[i].fr in frs
    {
      assert frs[i] == ws[i].fr;
    }
  }

  /** A master-plate well is drawn from when its upper compartment holds a
      truthy (non-zero) volume. */
  predicate Drawable(d: DualWell) {
    d.upper.volume != 0
  }

  function TakeDual(d: DualWell, amount: int): DualWell {
    if Drawable(d) then DualWell(Lower(d.upper, amount), Lower(d.lower, amount)) else d
  }

  /** `/masterPlate/:id/take` on all the wells. */
  function TakenFromMaster(ws: seq<DualWell>, amount: int): (r: seq<DualWell>)
    ensures |r| == |ws|
  {
    seq(|ws|, i requires 0 <= i < |ws| => TakeDual(ws[i], amount))
  }

  method TakeFromMasterPlate(ws: DualWells, volume: int) returns (r: DualWells)
    ensures r == TakenFromMaster(ws, ToInt32(volume))
  {
    var v := ToInt32(volume);
    r := ws;
    var k := 0;
    while k < WellCount
      invariant 0 <= k <= WellCount
      invariant forall i :: 0 <= i < k ==> r[i] == TakenFromMaster(ws, v)[i]
      invariant forall i :: k <= i < WellCount ==> r[i] == ws[i]
    {
      var well := r[k];
      if well.upper.volume != 0 {
        r := r[k := DualWell(Lower(well.upper, v), Lower(well.lower, v))];
      }
      k := k + 1;
    }
    assert r == TakenFromMaster(ws, v);
  }

  /** Upper and lower compartments move together: their difference never
      changes, a well with an empty upper compartment is untouched, and a
      drawn well loses the amount from both. */
  lemma TakenFromMasterWell(ws: seq<DualWell>, amount: int, i: nat)
    requires i < |ws|
    ensures var t := TakenFromMaster(ws, amount)[i];
      t.upper.volume - t.lower.volume == ws[i].upper.volume - ws[i].lower.volume
    ensures !Drawable(ws[i]) ==> TakenFromMaster(ws, amount)[i] == ws[i]
    ensures Drawable(ws[i]) ==> TakenFromMaster(ws, amount)[i].upper.volume == ws[i].upper.volume - amount
    ensures var t := TakenFromMaster(ws, amount)[i];
      t.upper.fr == ws[i].upper.fr && t.upper.ec == ws[i].upper.ec &&
      t.lower.fr == ws[i].lower.fr && t.lower.ec == ws[i].lower.ec
  {
  }

  /** Unlike a stock plate, a master plate's takes do not add up: a take
      that empties the upper compartment of a well exactly stops all later
      takes from that well. */
  lemma TakeStopsAtEmpty(d: DualWell, a: int, b: int)
    requires d.upper.volume == a && a != 0 && b != 0
    ensures TakeDual(TakeDual(d, a), b) == TakeDual(d, a)
    ensures TakeDual(TakeDual(d, a), b) != TakeDual(d, a + b)
  {
  }

  /** While no upper compartment reaches zero, two takes are one take of
      the sum. */
  lemma TakenFromMasterTwice(ws: seq<DualWell>, a: int, b: int)
    requires forall i :: 0 <= i < |ws| ==> ws[i].upper.volume != a
    ensures TakenFromMaster(TakenFromMaster(ws, a), b) == TakenFromMaster(ws, a + b)
  {
  }
}
