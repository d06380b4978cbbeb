/** `getKeysForNewMaster`: the destination addresses a new master plate
    fills, for a given number of replicates `r`. The twelve columns are cut
    into whole groups of `r` columns (a remainder narrower than `r` is not
    used); each group is walked from the top row to the bottom row, and left
    to right inside the group within a row. The first `2 * r` addresses of
    the walk (rows `a` and `b` of the first group) are then removed to leave
    empty spaces. */
module SlotPlanner {
  import opened Arith
  import opened Grid
  import opened Seqs

  /** Row `row` of the column group starting at column `start`, left to right. */
  function GroupRow(r: nat, start: nat, row: nat): (s: seq<Label>)
    ensures |s| == r
  {
    seq(r, o requires 0 <= o < r => Label(row, start + o))
  }

  /** Rows `0 .. rows - 1` of the column group starting at `start`. */
  function GroupSlots(r: nat, start: nat, rows: nat): seq<Label>
    decreases rows
  {
    if rows == 0 then [] else GroupSlots(r, start, rows - 1) + GroupRow(r, start, rows - 1)
  }

  /** The walk over the first `groups` column groups of a plate with `rows`
      rows; group `g` covers the columns from `g * r` to `g * r + r - 1`. */
  function Walk(r: nat, rows: nat, groups: nat): seq<Label>
    decreases groups
  {
    if groups == 0 then [] else Walk(r, rows, groups - 1) + GroupSlots(r, Times(groups - 1, r), rows)
  }

  /** Number of whole column groups, `12 / r` in integer division. */
  function GroupCount(r: nat): nat
    requires r > 0
  {
    Columns / r
  }

  /** `splice(0, k)` followed by returning the array: everything after the
      first `k` elements, or nothing when there are fewer. */
  function DropFront<T>(s: seq<T>, k: nat): (d: seq<T>)
    ensures k <= |s| ==> |d| == |s| - k && forall i :: 0 <= i < |d| ==> d[i] == s[i + k]
    ensures k > |s| ==> d == []
  {
    if k <= |s| then s[k..] else []
  }

  /** The addresses `getKeysForNewMaster(r)` returns. */
  function NewMasterKeys(r: nat): (k: seq<Label>)
    requires r > 0
    ensures forall i :: 0 <= i < |k| ==> ValidLabel(k[i])
  {
    WalkValid(r);
    DropFront(Walk(r, Rows, GroupCount(r)), 2 * r)
  }

  /** The whole column groups fit in the twelve columns. */
  lemma GroupsFit(r: nat)
    requires r > 0
    ensures Times(GroupCount(r), r) <= Columns
  {
    var g := GroupCount(r);
    TimesIsMul(g, r);
    assert Columns == g * r + Columns % r;
  }

  /** The walk over the whole column groups stays on the plate. */
  lemma WalkValid(r: nat)
    requires r > 0
    ensures forall i :: 0 <= i < |Walk(r, Rows, GroupCount(r))| ==> ValidLabel(Walk(r, Rows, GroupCount(r))[i])
  {
    var w := Walk(r, Rows, GroupCount(r));
    WalkMembers(r, Rows, GroupCount(r));
    GroupsFit(r);
    forall i | 0 <= i < |w|
      ensures ValidLabel(w[i])
    {
      assert w[i] in w;
    }
  }

  /** Entry `[row][col]` of `labelsChunked` is the address (row, col). */
  lemma ChunkedAt(row: nat, col: nat)
    requires row < Rows && col < Columns
    ensures row < |LabelsChunked()| && col < |LabelsChunked()[row]|
    ensures LabelsChunked()[row][col] == Label(row, col)
  {
    LabelsChunkedGrid();
  }

  /** The innermost loop of the source: the `r` addresses of one row of
      one column group, read from the chunked label table. */
  method AppendRow(order: seq<Label>, replicates: nat, slim: nat, thicc: nat) returns (order': seq<Label>)
    requires slim + replicates <= Columns && thicc < Rows
    ensures order' == order + GroupRow(replicates, slim, thicc)
  {
    var chunked := LabelsChunked();
    order' := order;
    var offset := 0;
    while offset < replicates
      invariant 0 <= offset <= replicates
      invariant order' == order + GroupRow(replicates, slim, thicc)[..offset]
    {
      ChunkedAt(thicc, slim + offset);
      order' := order' + [chunked[thicc][slim + offset]];
      assert GroupRow(replicates, slim, thicc)[..offset + 1]
        == GroupRow(replicates, slim, thicc)[..offset] + [Label(thicc, slim + offset)];
      offset := offset + 1;
    }
    assert GroupRow(replicates, slim, thicc)[..replicates] == GroupRow(replicates, slim, thicc);
  }

  /** The middle loop of the source: one column group, row by row. */
  method AppendGroup(order: seq<Label>, replicates: nat, slim: nat) returns (order': seq<Label>)
    requires slim + replicates <= Columns
    ensures order' == order + GroupSlots(replicates, slim, Rows)
  {
    order' := order;
    var thicc := 0;
    while thicc < Rows
      invariant 0 <= thicc <= Rows
      invariant order' == order + GroupSlots(replicates, slim, thicc)
    {
      order' := AppendRow(order', replicates, slim, thicc);
      thicc := thicc + 1;
    }
  }

  /** The loop over column groups stops after exactly `12 / r` groups. */
  lemma GroupCountFromBounds(r: nat, g: nat)
    requires r > 0 && Times(g, r) <= Columns < Times(g, r) + r
    ensures GroupCount(r) == g
  {
    TimesIsMul(g, r);
    DivFromBounds(Columns, r, g);
  }

  /** The outer loop of the source over column groups, then the removal of
      the reserved front. */
  method KeysForNewMaster(replicates: nat) returns (keys: seq<Label>)
    requires replicates > 0
    ensures keys == NewMasterKeys(replicates)
  {
    var newOrder: seq<Label> := [];
    var slim := 0;
    ghost var g := 0;
    while slim + replicates <= Columns
      invariant slim == Times(g, replicates) <= Columns
      invariant newOrder == Walk(replicates, Rows, g)
      decreases Columns - slim
    {
      newOrder := AppendGroup(newOrder, replicates, slim);
      slim := slim + replicates;
      g := g + 1;
    }
    GroupCountFromBounds(replicates, g);
    keys := if 2 * replicates <= |newOrder| then newOrder[2 * replicates..] else [];
  }

  lemma {:induction false} GroupRowMembers(r: nat, start: nat, row: nat, l: Label)
    ensures l in GroupRow(r, start, row) <==> l.row == row && start <= l.col < start + r
  {
    if l.row == row && start <= l.col < start + r {
      assert GroupRow(r, start, row)[l.col - start] == l;
    }
  }

  lemma {:induction false} GroupSlotsLength(r: nat, start: nat, rows: nat)
    ensures |GroupSlots(r, start, rows)| == Times(rows, r)
    decreases rows
  {
    if rows > 0 {
      GroupSlotsLength(r, start, rows - 1);
    }
  }

  lemma {:induction false} GroupSlotsMembers(r: nat, start: nat, rows: nat)
    ensures Distinct(GroupSlots(r, start, rows))
    ensures forall l: Label :: l in GroupSlots(r, start, rows) <==> l.row < rows && start <= l.col < start + r
    decreases rows
  {
    if rows > 0 {
      var front := GroupSlots(r, start, rows - 1);
      var last := GroupRow(r, start, rows - 1);
      GroupSlotsMembers(r, start, rows - 1);
      forall l: Label
        ensures l in front + last <==> l.row < rows && start <= l.col < start + r
      {
        GroupRowMembers(r, start, rows - 1, l);
      }
      forall x | x in front
        ensures x !in last
      {
        GroupRowMembers(r, start, rows - 1, x);
      }
      DistinctConcat(front, last);
    }
  }

  lemma {:induction false} GroupSlotsAt(r: nat, start: nat, rows: nat, row: nat, o: nat)
    requires row < rows && o < r
    ensures Times(row, r) + o < |GroupSlots(r, start, rows)|
    ensures GroupSlots(r, start, rows)[Times(row, r) + o] == Label(row, start + o)
    decreases rows
  {
    GroupSlotsLength(r, start, rows);
    GroupSlotsLength(r, start, rows - 1);
    TimesMono(row + 1, rows, r);
    var front := GroupSlots(r, start, rows - 1);
    var last := GroupRow(r, start, rows - 1);
    if row == rows - 1 {
      assert GroupSlots(r, start, rows)[Times(row, r) + o] == last[o];
    } else {
      GroupSlotsAt(r, start, rows - 1, row, o);
      assert GroupSlots(r, start, rows)[Times(row, r) + o] == front[Times(row, r) + o];
    }
  }

  lemma {:induction false} WalkLength(r: nat, rows: nat, g: nat)
    ensures |Walk(r, rows, g)| == Times(g, Times(rows, r))
    decreases g
  {
    if g > 0 {
      WalkLength(r, rows, g - 1);
      GroupSlotsLength(r, Times(g - 1, r), rows);
    }
  }

  /** The walk over the first `g` column groups repeats no address and
      holds exactly the addresses left of column `g * r`. */
  lemma {:induction false} WalkMembers(r: nat, rows: nat, g: nat)
    ensures Distinct(Walk(r, rows, g))
    ensures forall l: Label :: l in Walk(r, rows, g) <==> l.row < rows && l.col < Times(g, r)
    decreases g
  {
    if g > 0 {
      var start := Times(g - 1, r);
      var front := Walk(r, rows, g - 1);
      var last := GroupSlots(r, start, rows);
      WalkMembers(r, rows, g - 1);
      GroupSlotsMembers(r, start, rows);
      assert Times(g, r) == start + r;
      forall x | x in front
        ensures x !in last
      {
        assert x.col < start;
      }
      DistinctConcat(front, last);
    }
  }

  /** Offset `o` of row `row` in column group `h` sits at position
      `h * rows * r + row * r + o` of the walk. */
  lemma {:induction false} WalkAt(r: nat, rows: nat, g: nat, h: nat, row: nat, o: nat)
    requires h < g && row < rows && o < r
    ensures Times(h, Times(rows, r)) + Times(row, r) + o < |Walk(r, rows, g)|
    ensures Walk(r, rows, g)[Times(h, Times(rows, r)) + Times(row, r) + o] == Label(row, Times(h, r) + o)
    decreases g
  {
    if h == g - 1 {
      WalkAtLast(r, rows, g, row, o);
    } else {
      WalkAt(r, rows, g - 1, h, row, o);
      WalkPrefix(r, rows, g, Times(h, Times(rows, r)) + Times(row, r) + o);
    }
  }

  /** The walk over `g` groups extends the walk over `g - 1` groups. */
  lemma WalkPrefix(r: nat, rows: nat, g: nat, i: nat)
    requires g > 0 && i < |Walk(r, rows, g - 1)|
    ensures i < |Walk(r, rows, g)| && Walk(r, rows, g)[i] == Walk(r, rows, g - 1)[i]
  {
    var front := Walk(r, rows, g - 1);
    var last := GroupSlots(r, Times(g - 1, r), rows);
    assert Walk(r, rows, g) == front + last;
  }

  /** `WalkAt` for the last column group. */
  lemma WalkAtLast(r: nat, rows: nat, g: nat, row: nat, o: nat)
    requires g > 0 && row < rows && o < r
    ensures Times(g - 1, Times(rows, r)) + Times(row, r) + o < |Walk(r, rows, g)|
    ensures Walk(r, rows, g)[Times(g - 1, Times(rows, r)) + Times(row, r) + o] == Label(row, Times(g - 1, r) + o)
  {
    var front := Walk(r, rows, g - 1);
    var last := GroupSlots(r, Times(g - 1, r), rows);
    WalkLength(r, rows, g - 1);
    GroupSlotsAt(r, Times(g - 1, r), rows, row, o);
    assert Walk(r, rows, g) == front + last;
  }

  /** The first `2 * r` addresses of the walk, the ones the source removes,
      are rows `a` and `b` of the first column group. */
  lemma WalkFront(r: nat, rows: nat, g: nat)
    requires g > 0 && rows >= 2
    ensures 2 * r <= |Walk(r, rows, g)|
    ensures Walk(r, rows, g)[..2 * r] == GroupRow(r, 0, 0) + GroupRow(r, 0, 1)
  {
    WalkLength(r, rows, g);
    TimesMono(1, g, Times(rows, r));
    TimesMono(2, rows, r);
    var w := Walk(r, rows, g);
    var front := GroupRow(r, 0, 0) + GroupRow(r, 0, 1);
    forall i | 0 <= i < 2 * r
      ensures w[i] == front[i]
    {
      if i < r {
        WalkAt(r, rows, g, 0, 0, i);
      } else {
        WalkAt(r, rows, g, 0, 1, i - r);
      }
    }
  }

  /** For at most twelve replicates the result has `(12 / r) * 8 * r - 2 * r`
      addresses; for more, the column loop never runs and the result is empty. */
  lemma NewMasterKeysLength(r: nat)
    requires r > 0
    ensures r <= Columns ==> |NewMasterKeys(r)| == (Columns / r) * Rows * r - 2 * r
    ensures r > Columns ==> NewMasterKeys(r) == []
  {
    var g := GroupCount(r);
    WalkLength(r, Rows, g);
    BlockSize(g, Rows, r);
    if r <= Columns {
      assert g >= 1;
      TimesMono(1, g, Times(Rows, r));
      TimesMono(2, Rows, r);
      TimesIsMul(2, r);
    } else {
      DivFromBounds(Columns, r, 0);
    }
  }

  /** Exactly the addresses left of column `(12 / r) * r` are returned,
      except rows `a` and `b` of the first group, and none of them twice. */
  lemma NewMasterKeysMembers(r: nat)
    requires r > 0
    ensures Distinct(NewMasterKeys(r))
    ensures forall l: Label :: l in NewMasterKeys(r) <==>
      l.row < Rows && l.col < (Columns / r) * r && !(l.row < 2 && l.col < r)
  {
    var g := GroupCount(r);
    TimesIsMul(g, r);
    if g == 0 {
      WalkLength(r, Rows, 0);
      assert NewMasterKeys(r) == [];
    } else {
      DropWalkMembers(r, Rows, g);
    }
  }

  /** `NewMasterKeysMembers` for any number of rows and groups. */
  lemma DropWalkMembers(r: nat, rows: nat, g: nat)
    requires g > 0 && rows >= 2
    ensures Distinct(DropFront(Walk(r, rows, g), 2 * r))
    ensures forall l: Label :: l in DropFront(Walk(r, rows, g), 2 * r) <==>
      l.row < rows && l.col < Times(g, r) && !(l.row < 2 && l.col < r)
  {
    var w := Walk(r, rows, g);
    WalkMembers(r, rows, g);
    WalkFront(r, rows, g);
    assert DropFront(w, 2 * r) == w[2 * r..];
    DistinctDrop(w, 2 * r);
    forall l: Label
      ensures l in w[2 * r..] <==> l.row < rows && l.col < Times(g, r) && !(l.row < 2 && l.col < r)
    {
      DistinctSuffix(w, 2 * r, l);
      GroupRowMembers(r, 0, 0, l);
      GroupRowMembers(r, 0, 1, l);
    }
  }

  /** The order of the result: offset `o` of row `row` in column group `h`
      comes at position `(8 * h + row) * r + o - 2 * r`, so addresses are
      ordered by column group, then row, then column inside the group. */
  lemma NewMasterKeysAt(r: nat, h: nat, row: nat, o: nat)
    requires r > 0 && h < Columns / r && row < Rows && o < r
    requires Rows * h + row >= 2
    ensures var i := (Rows * h + row) * r + o - 2 * r;
      0 <= i < |NewMasterKeys(r)| && NewMasterKeys(r)[i] == Label(row, h * r + o)
  {
    assert (Rows * h + row) * r == Times(h, Times(Rows, r)) + Times(row, r) by {
      SlotIndex(h, row, r);
    }
    assert h * r == Times(h, r) by {
      TimesIsMul(h, r);
    }
    KeysAt(r, h, row, o);
  }

  /** `NewMasterKeysAt` with positions written through `Times`. */
  lemma KeysAt(r: nat, h: nat, row: nat, o: nat)
    requires r > 0 && h < Columns / r && row < Rows && o < r
    requires Times(h, Times(Rows, r)) + Times(row, r) >= 2 * r
    ensures Times(h, Times(Rows, r)) + Times(row, r) + o - 2 * r < |NewMasterKeys(r)|
    ensures NewMasterKeys(r)[Times(h, Times(Rows, r)) + Times(row, r) + o - 2 * r] == Label(row, Times(h, r) + o)
  {
    WalkDropAt(r, Rows, GroupCount(r), h, row, o);
  }

  /** `WalkAt` after the front `2 * r` addresses are dropped. */
  lemma WalkDropAt(r: nat, rows: nat, g: nat, h: nat, row: nat, o: nat)
    requires h < g && row < rows && o < r
    requires Times(h, Times(rows, r)) + Times(row, r) >= 2 * r
    ensures Times(h, Times(rows, r)) + Times(row, r) + o - 2 * r < |DropFront(Walk(r, rows, g), 2 * r)|
    ensures DropFront(Walk(r, rows, g), 2 * r)[Times(h, Times(rows, r)) + Times(row, r) + o - 2 * r]
      == Label(row, Times(h, r) + o)
  {
    WalkAt(r, rows, g, h, row, o);
    DropFrontAt(Walk(r, rows, g), 2 * r, Times(h, Times(rows, r)) + Times(row, r) + o);
  }

  lemma DropFrontAt<T>(s: seq<T>, k: nat, i: nat)
    requires k <= i < |s|
    ensures i - k < |DropFront(s, k)| && DropFront(s, k)[i - k] == s[i]
  {
  }

  lemma SlotIndex(h: nat, row: nat, r: nat)
    requires Rows * h + row >= 2
    ensures (Rows * h + row) * r == Times(h, Times(Rows, r)) + Times(row, r)
    ensures (Rows * h + row) * r >= 2 * r
  {
    BlockIndex(Rows, h, row, r);
  }

  /** `SlotIndex` for blocks of any height. */
  lemma BlockIndex(rows: nat, h: nat, row: nat, r: nat)
    requires rows * h + row >= 2
    ensures (rows * h + row) * r == Times(h, Times(rows, r)) + Times(row, r)
    ensures (rows * h + row) * r >= 2 * r
  {
    BlockOffset(rows, h, row, r);
    TimesAtLeastTwo(rows * h + row, r);
  }

  lemma TimesAtLeastTwo(k: nat, r: nat)
    requires k >= 2
    ensures Times(k, r) == k * r && k * r >= 2 * r
  {
    TimesIsMul(k, r);
    TimesMono(2, k, r);
    TimesIsMul(2, r);
  }

  /** The result starts with row `c` of the first column group, since rows
      `a` and `b` of that group are dropped: `c1, c2, c3, d1, ...` for three
      replicates. */
  lemma StartsWithRowC(r: nat)
    requires 0 < r <= Columns
    ensures |NewMasterKeys(r)| >= r
    ensures forall o :: 0 <= o < r ==> NewMasterKeys(r)[o] == Label(2, o)
  {
    RowCAt(r, 0);
    forall o | 0 <= o < r
      ensures NewMasterKeys(r)[o] == Label(2, o)
    {
      RowCAt(r, o);
    }
  }

  lemma RowCAt(r: nat, o: nat)
    requires 0 < r <= Columns && o < r
    ensures o < |NewMasterKeys(r)| && NewMasterKeys(r)[o] == Label(2, o)
  {
    assert GroupCount(r) >= 1;
    WalkRowC(r, Rows, GroupCount(r), o);
  }

  /** `RowCAt` for any number of rows and groups. */
  lemma WalkRowC(r: nat, rows: nat, g: nat, o: nat)
    requires g > 0 && rows > 2 && o < r
    ensures o < |DropFront(Walk(r, rows, g), 2 * r)| && DropFront(Walk(r, rows, g), 2 * r)[o] == Label(2, o)
  {
    TimesIsMul(2, r);
    WalkDropAt(r, rows, g, 0, 2, o);
  }

  /** Five replicates fit twice across the twelve columns: 70 addresses,
      and columns 11 and 12 are never used. */
  lemma FiveReplicates(r: nat)
    requires r == 5
    ensures |NewMasterKeys(r)| == 70
    ensures forall l: Label :: l in NewMasterKeys(r) ==> l.col < 10
  {
    NewMasterKeysLength(r);
    NewMasterKeysMembers(r);
  }
}
