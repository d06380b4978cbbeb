/** The `masterLayout` dispatch of `/master/new`: the stock items a user
    clicked are put in the order their wells are copied to the master. Codes
    0, 1 and 2 sort by the number after the two-letter prefix of `fr` or
    `ec`; code 3 and every other value keep click order. The sorts are
    JavaScript's `Array.prototype.sort`, which is stable, with a comparator
    that subtracts the two numbers. */
module Layout {
  import opened Text
  import opened StableSort

  /** A clicked stock-plate item; only its `fr` and `ec` take part. */
  datatype Item = Item(fr: string, ec: string)

  datatype Strategy = AscendingFr | DescendingFr | DescendingEc | ClickOrder

  /** The strategy for a `masterLayout` code. An unknown code (including the
      `NaN` a non-numeric value parses to) only logs an error, so it keeps
      click order exactly like code 3. */
  function StrategyOf(code: int): (s: Strategy)
    ensures s == AscendingFr <==> code == 0
    ensures s == DescendingFr <==> code == 1
    ensures s == DescendingEc <==> code == 2
    ensures s == ClickOrder <==> code !in {0, 1, 2}
  {
    if code == 0 then AscendingFr
    else if code == 1 then DescendingFr
    else if code == 2 then DescendingEc
    else ClickOrder
  }

  /** `getInt`: the number written after the first two characters. */
  predicate HasNumber(s: string) {
    |s| >= 2 && IsNumeral(s[2..])
  }

  /** Reading the digits back: when they have no leading zero they are the
      canonical spelling of the result, and a leading zero is skipped. */
  function GetInt(s: string): (n: nat)
    requires HasNumber(s)
    ensures s[2] != '0' || |s| == 3 ==> Numeral(n) == s[2..]
    ensures s[2] == '0' && |s| > 3 ==> n == NumeralValue(s[3..])
  {
    NumeralCanonical(s[2..]);
    NumeralSkipZero(s[2..]);
    assert s[2..][1..] == s[3..];
    NumeralValue(s[2..])
  }

  /** `getInt` undoes writing a number behind a two-letter prefix such as
      `FR` or `EC`. */
  lemma GetIntRoundTrip(prefix: string, n: nat)
    requires |prefix| == 2
    ensures HasNumber(prefix + Numeral(n))
    ensures GetInt(prefix + Numeral(n)) == n
  {
    assert (prefix + Numeral(n))[2..] == Numeral(n);
  }

  /** Zero padding is ignored: `FR007` reads as 7. */
  lemma GetIntPadded(prefix: string, k: nat, n: nat)
    requires |prefix| == 2
    ensures HasNumber(prefix + Zeros(k) + Numeral(n))
    ensures GetInt(prefix + Zeros(k) + Numeral(n)) == n
  {
    ZerosValue(k, Numeral(n));
    assert (prefix + Zeros(k) + Numeral(n))[2..] == Zeros(k) + Numeral(n);
  }

  /** The field a strategy reads has a number behind its prefix. */
  predicate Keyed(st: Strategy, it: Item) {
    match st
    case AscendingFr => HasNumber(it.fr)
    case DescendingFr => HasNumber(it.fr)
    case DescendingEc => HasNumber(it.ec)
    case ClickOrder => true
  }

  predicate AllKeyed(st: Strategy, items: seq<Item>) {
    forall i :: 0 <= i < |items| ==> Keyed(st, items[i])
  }

  /** The sort position of an item under a strategy; the comparators
      `b - a` sort descending, which is ascending on the negated number.
      Items without a number never reach a sort (see `ApplyLayout`). */
  function Rank(st: Strategy): Item -> int {
    it =>
      if !Keyed(st, it) then 0
      else match st
        case AscendingFr => GetInt(it.fr)
        case DescendingFr => -(GetInt(it.fr) as int)
        case DescendingEc => -(GetInt(it.ec) as int)
        case ClickOrder => 0
  }

  /** The item order the dispatch produces for a `masterLayout` code. */
  function ApplyLayout(items: seq<Item>, code: int): (r: seq<Item>)
    requires AllKeyed(StrategyOf(code), items)
    ensures multiset(r) == multiset(items) && AllKeyed(StrategyOf(code), r)
    ensures StrategyOf(code) == ClickOrder ==> r == items
    ensures code == 0 ==> forall i, j :: 0 <= i < j < |r| ==> GetInt(r[i].fr) <= GetInt(r[j].fr)
    ensures code == 1 ==> forall i, j :: 0 <= i < j < |r| ==> GetInt(r[i].fr) >= GetInt(r[j].fr)
    ensures code == 2 ==> forall i, j :: 0 <= i < j < |r| ==> GetInt(r[i].ec) >= GetInt(r[j].ec)
  {
    var st := StrategyOf(code);
    if st == ClickOrder then items
    else
      var r := SortBy(Rank(st), items);
      forall i | 0 <= i < |r|
        ensures Keyed(st, r[i])
      {
        assert r[i] in multiset(items);
      }
      r
  }

  /** The sorting codes never reorder two items with the same number: the
      items of any one number keep their click order. */
  lemma ApplyLayoutStable(items: seq<Item>, code: int, k: int)
    requires code in {0, 1, 2} && AllKeyed(StrategyOf(code), items)
    ensures WithKey(Rank(StrategyOf(code)), ApplyLayout(items, code), k)
         == WithKey(Rank(StrategyOf(code)), items, k)
  {
    SortByStable(Rank(StrategyOf(code)), items, k);
  }

  /** The result of a sorting code is the only order that is sorted by the
      code's number and keeps click order among equal numbers. */
  lemma ApplyLayoutUnique(items: seq<Item>, code: int, r: seq<Item>)
    requires code in {0, 1, 2} && AllKeyed(StrategyOf(code), items)
    requires Sorted(Rank(StrategyOf(code)), r)
    requires forall k :: WithKey(Rank(StrategyOf(code)), r, k) == WithKey(Rank(StrategyOf(code)), items, k)
    ensures r == ApplyLayout(items, code)
  {
    SortByCharacterised(Rank(StrategyOf(code)), items, r);
  }
}
