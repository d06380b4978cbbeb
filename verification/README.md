# Fridge plate inventory — a Dafny model

The fridge application keeps stock plates and master plates. Each plate is
a 96-well grid with addresses `a1` to `h12`, and every well holds an FR
(fluid-resource id), an EC (external chemical code) and a volume. The
model covers the pure parts of the application's API layer
(`api/index.js`):

- the label table and its chunking into rows;
- the destination-slot planner for new master plates;
- the `masterLayout` ordering strategies of `/master/new` and the stock
  withdrawal that follows them;
- manual takes from stock plates and master plates;
- the three inventory queries over all plates: `/frec`, `/frec/search`
  and `/stock/check/frs`;
- the active/retired listing, the retire/activate/delete flags and the
  field merge of `/stock/:id/save`.

Everything is written as immutable datatypes and pure functions. The
source's loops (`for` statements, and `forEach` or `map` calls made for
their side effects) are methods with their own loops, each proved equal to
a functional definition. The one exception is the `forEach` that copies
the posted items into `stockPlateItems` (api/index.js:328), which is
modelled as the item sequence itself. Its value-building `filter`,
`reduce`, `map` and `sort` calls are functions only. The properties are proved as lemmas over
all inputs.

Modules, one per file:

| file | module | what it holds |
|---|---|---|
| `wrappers.dfy` | `Wrappers` | `Option` and `Result` |
| `text.dfy` | `Text` | decimal numerals, ASCII upper-casing, substring search |
| `grid.dfy` | `Grid` | labels, `_.chunk`, wells, plates, dual (upper/lower) wells |
| `seqs.dfy`, `arith.dfy` | `Seqs`, `Arith` | shared sequence facts; multiplication as repeated addition |
| `slots.dfy` | `SlotPlanner` | `getKeysForNewMaster` |
| `sorting.dfy` | `StableSort` | the stable sort behind `Array.prototype.sort` |
| `layout.dfy` | `Layout` | `getInt` and the `masterLayout` dispatch |
| `ledger.dfy` | `Ledger` | stock withdrawal, `/plate/:id/take`, `/masterPlate/:id/take`, `\| 0` |
| `master.dfy` | `MasterCreation` | the stock update of `/master/new` |
| `aggregation.dfy` | `Cells`, `Aggregation` | the plate-by-plate, label-by-label traversal; `/frec` |
| `search.dfy` | `Search` | `/frec/search` |
| `frcheck.dfy` | `FrCheck` | `/stock/check/frs` |
| `records.dfy` | `Records` | listings, flags, the save merge |

Representation choices:

- An absent FR or EC (`undefined`) is the empty string, which is falsy in
  the same way.
- Volumes are unbounded integers.
- A plate is its id plus the sequence of its 96 wells in label order.
- The plate list that `getAllPlates` would load is a parameter.

## Model

| member | source | states |
|---|---|---|
| Grid.LabelsRowMajor | api/index.js:18-27 | The label list has 96 entries; every valid address occurs in it at its row-major index; the list is ordered by row, then by column |
| Grid.LabelNamesTable | api/index.js:18-27 | The printed names of the label list are exactly the literal table `a1` … `h12` |
| Grid.LabelNameInjective | api/index.js:18-27 | Different addresses have different names, so names can key a plate record |
| Grid.IndexRoundTrip | api/index.js:18-27 | Row-major position and address determine each other for every valid address |
| Grid.Chunk | api/index.js:30 | Lodash `_.chunk`: the pieces concatenate back to the input; every piece is non-empty and at most `n` long; all but the last are exactly `n` long; size 0 gives no pieces |
| Grid.LabelsChunkedGrid | api/index.js:30 | `labelsChunked` is 8 rows of 12, and entry `[r][c]` is the address (r, c) |
| SlotPlanner.AppendRow | api/index.js:38-40 | The innermost loop appends row `thicc` of the column group starting at `slim`, left to right |
| SlotPlanner.AppendGroup | api/index.js:37-41 | The middle loop appends the column group's rows from top to bottom |
| SlotPlanner.GroupCountFromBounds | api/index.js:36 | The outer loop runs exactly `12 / r` times (integer division) |
| SlotPlanner.KeysForNewMaster | api/index.js:33-46 | The three loops followed by `splice(0, 2*r)` compute the slot walk minus its first `2*r` addresses |
| SlotPlanner.NewMasterKeysLength | api/index.js:33-46 | For 1 ≤ r ≤ 12 the result has `(12/r)*8*r - 2*r` addresses (90 for r = 3); for r > 12 it is empty |
| SlotPlanner.NewMasterKeysMembers | api/index.js:36-44 | No address repeats; an address is returned exactly when it lies left of column `(12/r)*r` and is not in rows a–b of the first group |
| SlotPlanner.NewMasterKeysAt | api/index.js:36-44 | Offset `o` of row `row` in column group `h` sits at position `(8h + row)*r + o - 2r`: order is by group, then row, then column |
| SlotPlanner.StartsWithRowC | api/index.js:44 | The result starts with the `r` addresses of row c of the first group (`c1, c2, c3` for r = 3) |
| SlotPlanner.FiveReplicates | api/index.js:36 | For r = 5 the remainder columns 11 and 12 are never used, and 70 addresses are returned |
| Layout.StrategyOf | api/index.js:333-356 | Codes 0, 1 and 2 pick the three sorts; every other value, including 3, keeps click order |
| Layout.GetInt | api/index.js:331 | `getInt` reads the digits after the two-character prefix. When they have no leading zero, they are exactly the canonical spelling of the number read; a leading zero is skipped, so `FR07` reads as `FR7` |
| Layout.GetIntPadded | api/index.js:331 | Any number of zeros between the prefix and a number leaves the number read unchanged: `FR007` reads as 7 |
| Text.ZerosValue | api/index.js:331 | Leading zero digits do not change the value `parseInt` reads from a digit string |
| Text.NumeralCanonical | api/index.js:331 | A digit string without a leading zero is the canonical spelling of the value `parseInt` reads from it |
| Layout.GetIntRoundTrip | api/index.js:331 | `getInt` reads back the number written after any two-character prefix |
| Layout.ApplyLayout | api/index.js:333-356 | The output is a permutation of the items: code 0 gives non-decreasing FR numbers, 1 non-increasing FR numbers, 2 non-increasing EC numbers; any other code returns the input unchanged |
| Layout.ApplyLayoutStable | api/index.js:335-348 | Items with equal numbers keep their click order under each sorting code |
| Layout.ApplyLayoutUnique | api/index.js:335-348 | Any order that is sorted by the code's number and stable equals the dispatch's result |
| StableSort.SortByCharacterised | api/index.js:335-348 | A stable sort's result is the only sorted rearrangement that keeps equal keys in input order |
| Ledger.ReplicatesOrDefault | api/index.js:322 | A missing or zero replicate count becomes 3; any other count is kept |
| Ledger.ToInt32 | api/index.js:675 | `x \| 0` lies in the signed 32-bit range, is congruent to `x` modulo 2^32, and is `x` itself when `x` is in range |
| Ledger.VolumeToTake | api/index.js:377 | The volume taken from a stock well is one dose for every replicate on every plate, as repeated addition; no replicates or no plates take nothing |
| Ledger.WithdrawStock | api/index.js:385-391 | The `labels.forEach` loop yields the stock plate with the take applied to the wells whose FR was taken |
| Ledger.WithdrawnWell | api/index.js:385-391 | FR and EC never change; a well loses the amount exactly when its FR is among the taken FRs, once even if that FR is listed several times; other wells are untouched; there is no lower bound |
| Ledger.WithdrawnBySet | api/index.js:380-386 | Only the set of taken FRs matters, not their order or repetition |
| Ledger.WithdrawnTotal | api/index.js:385-391 | The plate's total volume drops by the amount times the number of taken wells |
| Ledger.WithdrawnTwice | api/index.js:389 | Two withdrawals of the same FRs equal one withdrawal of the summed amount |
| MasterCreation.FrsOf | api/index.js:380-382 | `frsTaken` has one FR per clicked item, and an FR is in it exactly when some item carries it |
| MasterCreation.FrsOfPermutation | api/index.js:380-382 | Reordering the items does not change which FRs `frsTaken` contains |
| MasterCreation.UpdateStock | api/index.js:331-391 | Sort by layout, compute `volume*replicates*noOfPlates`, withdraw: the stock plate ends the same for every layout code |
| MasterCreation.UpdateStockAnyOrder | api/index.js:377-391 | Whatever rearrangement of the items the sort leaves, including the unspecified one for keys that do not parse, the stock plate ends the same |
| MasterCreation.DefaultReplicatesTakeThreeDoses | api/index.js:322-389 | With no replicate count and one plate, each used stock well loses three doses |
| Ledger.TakeFromPlate | api/index.js:673-686 | `/plate/:id/take` applies `volume \| 0` to every well of the plate |
| Ledger.LoweredTotal | api/index.js:679-684 | The plate's total volume drops by 96 times the amount |
| Ledger.LoweredIsWithdrawnOfAll | api/index.js:679-684 | A plate take equals a stock withdrawal of every FR the plate holds |
| Ledger.TakeFromMasterPlate | api/index.js:720-738 | `/masterPlate/:id/take` lowers both compartments of the wells whose upper volume is non-zero |
| Ledger.TakenFromMasterWell | api/index.js:726-736 | Upper and lower move together: their difference is kept, a well with a zero upper volume is untouched, a drawn well loses the amount, and the FR and EC of both compartments are kept |
| Ledger.TakeStopsAtEmpty | api/index.js:728-734 | A take that empties a well's upper compartment stops all later takes from it, so two takes are not one take of the sum |
| Ledger.TakenFromMasterTwice | api/index.js:726-736 | While no upper compartment hits zero, two takes equal one take of the sum |
| Cells.AllCellsMembers | api/index.js:536-537 | The plate-then-label traversal visits each well of each plate, tagged with its plate, and nothing else |
| Aggregation.AddCell | api/index.js:545-564 | One well: a well without an EC changes nothing; a new group is appended exactly when the well has an EC no group has yet, and it carries that EC; every existing group keeps its EC |
| Aggregation.FindGroup | api/index.js:548 | Returns the first group with the EC, or none exactly when no group has it |
| Aggregation.FindEntry | api/index.js:554 | Returns the first entry for the plate, or none exactly when the group lists no such entry |
| Aggregation.FrecLoop | api/index.js:536-569 | The nested loops compute the fold of the per-well step over the traversal |
| Aggregation.PlatesWithMembers | api/index.js:554-559 | A plate is among those listed for an EC exactly when some well of that EC lies on it |
| Aggregation.FrecGroups | api/index.js:545-564 | `/frec` gives one group per distinct non-empty EC, in first-seen order. A group's entries are for exactly the plates holding the EC, one each, in first-seen order. Each entry holds the plate's total volume for the EC and the FR of the first such well on that plate (later wells only add volume). A group's entries sum to the EC's total volume |
| Aggregation.FrecAsWrittenGroupVolume | api/index.js:555-559 | As written, a group's own volume counts only the first well of the EC on each plate |
| Aggregation.FrecAsWrittenUndercounts | api/index.js:554-559 | Counterexample: two same-plate wells of one EC holding 5 and 3 give group volume 5 beside an entry of 8 |
| Aggregation.FrecGroupVolume | api/index.js:555-559 | With the merge counted, each group's volume is the EC's total volume and the sum of its entries |
| Search.Matches | api/index.js:621-624 | A well matches only with a query longer than two characters and an EC at least as long as the query |
| Search.SearchLoop | api/index.js:610-635 | The nested loops compute the search fold over the traversal |
| Search.ShortQueryFindsNothing | api/index.js:621 | A query of at most two characters returns nothing |
| Search.SearchCorrect | api/index.js:621-631 | No tuple repeats. A tuple is returned exactly when some well produces it and has an EC containing the query, ignoring case |
| Search.SearchResultsMatch | api/index.js:624 | Every result's EC contains the query when both are upper-cased, and the query is longer than two characters |
| Search.SearchIgnoresQueryCase | api/index.js:624 | A query and its upper-cased form give the same results |
| FrCheck.CheckFrsLoop | api/index.js:205-233 | No `frs` list is an error; otherwise the three loops collect, in plate, label and list order, every list entry whose FR a well holds |
| FrCheck.InUse | api/index.js:216-217 | A list entry is in use by a well exactly when the entry has an FR and the well holds that same FR; the well's own truthiness test adds nothing |
| FrCheck.InUseCount | api/index.js:213-222 | An entry with an FR is reported (copies in the list) × (wells holding that FR) times; an entry without an FR is never reported |
| FrCheck.InUseMembers | api/index.js:215-219 | An entry is reported exactly when it is in the list, has an FR, and some well holds that FR |
| Records.Partition | api/index.js:84-87 | The `reduce` keeps the count: the active list holds only active records of the input, and the retired list only inactive ones |
| Records.ListRecords | api/index.js:80-94 | Every listed record is a non-deleted record of the collection, in the list matching its `active` flag (`/master` likewise, api/index.js:446-460) |
| Records.Live | api/index.js:84 | The filter keeps exactly the non-deleted records |
| Records.PartitionSplits | api/index.js:84-87 | The `reduce` loses nothing and adds nothing: active records go to the first list and the others to the second (`/master` likewise, api/index.js:450-453) |
| Records.LiveIdempotent | api/index.js:82-84 | Filtering the already-filtered query again changes nothing |
| Records.ListRecordsMembers | api/index.js:80-94 | The listing shows exactly the non-deleted records, split by their `active` flag (`/master` likewise, api/index.js:446-460) |
| Records.Find | api/index.js:108 | `findById` returns the first record with the id, or none exactly when no record has it |
| Records.ApplyFlag | api/index.js:107-154 | A flag request fails exactly when no record has the id. Otherwise the collection keeps its length, a record with the id gets the flag, and the answer is that record's new `active` (masters likewise, api/index.js:475-524) |
| Records.ApplyFlagEffect | api/index.js:107-154 | A flag request fails exactly when the id is unknown. Otherwise it sets only the one flag on the first record with the id, answers with that record's `active`, and changes nothing else (masters likewise, api/index.js:475-524) |
| Records.ApplyFlagIdempotent | api/index.js:107-154 | Setting a flag twice is setting it once |
| Records.RetireThenActivate | api/index.js:107-138 | Retiring and then re-activating an active record restores the collection |
| Records.DeleteHides | api/index.js:139-154 | After a delete, the record drops out of the listing and every other listed record stays |
| Records.DeleteKeepsOthers | api/index.js:139-154 | After a delete, no live record has the id, and every record with another id is still present |
| Records.Merge | api/index.js:272-280 | The merged plate has the stored plate's fields, no more and no fewer. A field with a non-empty name not starting with `_` takes the edited value when it is truthy in both plates |
| Records.MergeLoop | api/index.js:272-280 | The `forEach` over the edited plate's keys computes the merge |
| Records.MergeKeeps | api/index.js:272-280 | A field starting with `_`, a field with the empty name, and a field the edited plate lacks never change. A field falsy in the stored or the edited plate keeps its stored value. Truthiness of every field is preserved |
| Records.MergeIdempotent | api/index.js:272-280 | Saving the same edit twice is saving it once, and saving the stored plate changes nothing |
| Records.SaveStock | api/index.js:262-301 | The save fails exactly when no stock is sent or its id is unknown; otherwise the set of stock ids is unchanged |
| Records.SaveStockEffect | api/index.js:262-301 | The save fails exactly when no stock is sent or its id is unknown. Otherwise no other stock changes, and the sent stock's plate becomes the merge of the edited plate into the stored one |
| SlotPlanner.NewMasterKeys | api/index.js:33-46 | Every address returned lies on the 8 × 12 plate |

## Left out

- HTTP routing, response shapes and `sendError` (api/index.js:54-71) are not modelled: they are transport, not logic.
- Mongoose database calls are replaced by lookups in in-memory lists: `Records.Find` stands for `findById`, and `Records.Live` for the `deleted: false` query. `populate`, `save` and `ObjectId` conversion are not modelled, and plate ids are opaque numbers.
- Promise sequencing is not modelled. This includes `/master/new` carrying on after the stock plate is not found (api/index.js:397-399).
- `getAllPlates` (api/index.js:172-202) is not modelled; the plate list is a parameter of every inventory query.
- `calculateWellsForMasterPlate` is not part of this model. Its source is not available, so master-plate filling by orientation (`repsLayout`) and step 3 of `/master/new` (creating the master and its plates) are left out.
- `getKeysForNewMaster` is defined but never called in `api/index.js`; it is modelled on its own.
- Authentication is not modelled: `/login`, `/user`, `/logout`, JWT and `api/ldap.js`.
- The remaining read-only or creation endpoints are not modelled: `/stock/check/name`, `/stock/new`, `GET /stock/:id`, `GET /master/:id`, `GET /plate/:id` and `GET /masterPlate/:id`. They do nothing beyond database queries and inserts.
- Volumes are unbounded integers, not JavaScript floating-point numbers. Non-numeric volumes, `NaN` and string concatenation through `+=` are not modelled.
- Layout.GetInt: `parseInt` is modelled only on a decimal numeral after the two-character prefix (`HasNumber`). Layout.ApplyLayout accordingly requires every item to carry such a number in the field its code sorts by; with `NaN` keys the JavaScript comparator is inconsistent and the order is unspecified.
- MasterCreation.UpdateStock carries the same requirement as Layout.ApplyLayout: every item has a number in the field its layout code sorts by. MasterCreation.UpdateStockAnyOrder covers the remaining case for any order the sort may produce.
- Search.Matches: `toUpperCase` is modelled as ASCII-only upper-casing; other Unicode case mappings are not modelled.
- Search.Matches: the `q.length > 2` test counts characters, while JavaScript counts UTF-16 code units. A query holding characters outside the Basic Multilingual Plane can therefore pass the test in the source but not in the model.
- Layout.ApplyLayoutStable assumes a JavaScript engine where `Array.prototype.sort` is stable, as ECMAScript 2019 requires. Older V8 versions sorted arrays of more than 10 elements with an unstable quicksort, so there equal keys could be reordered.
- SlotPlanner.KeysForNewMaster requires at least one replicate. `getKeysForNewMaster` has no caller, and with 0 or a negative count its outer loop never ends (its step `slim += replicates` does not advance).
- Ledger.TakeFromPlate and FrCheck.CheckFrsLoop assume every plate has all 96 wells. The source's `if (well)` and `plate[l] &&` guards against a missing well are therefore always true here.
- FrCheck.CheckFrsLoop keeps only the `fr` of each entry of the `frs` list. The source pushes the whole entry object, so any other fields it carries are not modelled.
- FrCheck.CheckFrsLoop models a `null` entry of the `frs` list as an entry with the empty FR, which never matches. A non-array truthy `frs` value is not modelled.
- Ledger.ToInt32 applies `| 0` to an integer; the rounding toward zero of a fractional request volume is not modelled.
- Records.DeleteHides and Records.DeleteKeepsOthers require ids to be unique within a collection, as database ids are.
- An unknown `masterLayout` code keeps click order, as the code does: it only logs an error (api/index.js:354-356). A stricter design would reject an unknown code; the code does not, and neither does this model.
- A replicate count need not divide the twelve columns evenly. The code uses only whole column groups and leaves the remaining columns empty (see SlotPlanner.FiveReplicates). A stricter design would reject such a count as invalid; the code never does, and neither does this model.
- Ledger.TakeFromPlate, Ledger.TakeFromMasterPlate and MasterCreation.UpdateStock are given the plate itself. An unknown plate id makes the source handler fail with an error response, and that lookup is not modelled.
- Stock withdrawal and both takes have no lower bound, so volumes may go negative, as in the code. A stricter design would refuse a take larger than the volume present; the code does not check, and neither does this model.

## Findings

| source | as written | input that shows it | evidently intended | confidence | as-written member | corrected member |
|---|---|---|---|---|---|---|
| api/index.js:555-561 | When a well's EC and plate already have an entry, the volume is added to that entry (line 556) but not to the group's own `volume` | Two wells of EC `E1` on the same plate holding 5 and 3: the group reports volume 5 while its only entry holds 8 | The group's volume is the EC's total volume (8), the sum of its entries, as on the other branch (line 558) | not executed; high, by reading | Aggregation.FrecAsWrittenUndercounts | Aggregation.FrecGroupVolume |
