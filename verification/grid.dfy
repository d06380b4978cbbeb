/** The 96-well plate: eight rows `a`..`h` by twelve columns `1`..`12`,
    the well records stored at each address, and plates as fixed-size
    sequences of wells in label order. */
module Grid {
  import opened Text

  const Rows: nat := 8
  const Columns: nat := 12
  const WellCount: nat := 96

  /** A well address: `row` 0..7 stands for `a`..`h`, `col` 0..11 for `1`..`12`. */
  datatype Label = Label(row: nat, col: nat)

  predicate ValidLabel(l: Label) {
    l.row < Rows && l.col < Columns
  }

  /** Position of a label in row-major order. */
  function Index(l: Label): nat {
    l.row * Columns + l.col
  }

  function LabelAt(i: nat): (l: Label)
    requires i < WellCount
    ensures ValidLabel(l) && Index(l) == i
  {
    Label(i / Columns, i % Columns)
  }

  /** Row-major addressing is a bijection between valid labels and 0..95. */
  lemma IndexRoundTrip(l: Label)
    requires ValidLabel(l)
    ensures Index(l) < WellCount && LabelAt(Index(l)) == l
  {
  }

  /** The 96 labels, `a1, a2, .., a12, b1, .., h12`. */
  function Labels(): (ls: seq<Label>)
    ensures |ls| == WellCount
  {
    seq(WellCount, i requires 0 <= i < WellCount => LabelAt(i))
  }

  /** Every valid address occurs in `Labels()` exactly once, at its
      row-major index, and the order is by row, then by column. */
  lemma LabelsRowMajor()
    ensures forall i :: 0 <= i < WellCount ==> ValidLabel(Labels()[i]) && Index(Labels()[i]) == i
    ensures forall l :: ValidLabel(l) ==> l in Labels()
    ensures forall i, j :: 0 <= i < j < WellCount ==>
      Labels()[i].row < Labels()[j].row ||
      (Labels()[i].row == Labels()[j].row && Labels()[i].col < Labels()[j].col)
  {
    forall l | ValidLabel(l)
      ensures l in Labels()
    {
      IndexRoundTrip(l);
      assert Labels()[Index(l)] == l;
    }
  }

  /** Concatenation of a sequence of sequences. */
  function Flatten<T>(css: seq<seq<T>>): (s: seq<T>)
    decreases |css|
  {
    if |css| == 0 then [] else css[0] + Flatten(css[1..])
  }

  /** Lodash `_.chunk`: consecutive pieces of `n` elements, the last one
      possibly shorter; a size below one gives no pieces at all. */
  function Chunk<T>(s: seq<T>, n: nat): (cs: seq<seq<T>>)
    ensures n > 0 ==> Flatten(cs) == s
    ensures n == 0 ==> cs == []
    ensures forall i :: 0 <= i < |cs| ==> 0 < |cs[i]| <= n
    ensures forall i :: 0 <= i < |cs| - 1 ==> |cs[i]| == n
    decreases |s|
  {
    if n == 0 || |s| == 0 then []
    else if |s| <= n then [s]
    else [s[..n]] + Chunk(s[n..], n)
  }

  /** Cutting `k` whole rows of twelve: row `i` is the slice starting at `12 * i`. */
  lemma {:induction false} ChunkRows<T>(s: seq<T>, k: nat)
    requires |s| == Columns * k
    ensures |Chunk(s, Columns)| == k
    ensures forall i :: 0 <= i < k ==> Chunk(s, Columns)[i] == s[Columns * i..Columns * i + Columns]
    decreases k
  {
    if k > 1 {
      var rest := s[Columns..];
      ChunkRows(rest, k - 1);
      var cs := Chunk(s, Columns);
      assert cs == [s[..Columns]] + Chunk(rest, Columns);
      forall i | 0 <= i < k
        ensures cs[i] == s[Columns * i..Columns * i + Columns]
      {
        if i > 0 {
          assert cs[i] == Chunk(rest, Columns)[i - 1];
          assert rest[Columns * (i - 1)..Columns * (i - 1) + Columns] == s[Columns * i..Columns * i + Columns];
        }
      }
    }
  }

  /** `labelsChunked`: the labels cut into the eight rows of twelve. */
  function LabelsChunked(): seq<seq<Label>> {
    Chunk(Labels(), Columns)
  }

  /** Row `r`, column `c` of the chunked table is the address `(r, c)`. */
  lemma LabelsChunkedGrid()
    ensures |LabelsChunked()| == Rows
    ensures forall r :: 0 <= r < Rows ==> |LabelsChunked()[r]| == Columns
    ensures forall r, c :: 0 <= r < Rows && 0 <= c < Columns ==> LabelsChunked()[r][c] == Label(r, c)
  {
    ChunkRows(Labels(), Rows);
    forall r, c | 0 <= r < Rows && 0 <= c < Columns
      ensures LabelsChunked()[r][c] == Label(r, c)
    {
      LabelsAt(r, c);
    }
  }

  lemma LabelsAt(r: nat, c: nat)
    requires r < Rows && c < Columns
    ensures Columns * r + c < WellCount && Labels()[Columns * r + c] == Label(r, c)
  {
    IndexRoundTrip(Label(r, c));
  }

  /** The printed name of a label, such as `"c10"`. */
  function LabelName(l: Label): string
    requires ValidLabel(l)
  {
    [(('a' as int) + l.row) as char] + Numeral(l.col + 1)
  }

  /** Different addresses have different names, so the names are usable as
      the keys of a plate record. */
  lemma LabelNameInjective(l: Label, m: Label)
    requires ValidLabel(l) && ValidLabel(m)
    requires LabelName(l) == LabelName(m)
    ensures l == m
  {
    assert LabelName(l)[1..] == Numeral(l.col + 1);
    assert LabelName(m)[1..] == Numeral(m.col + 1);
    NumeralInjective(l.col + 1, m.col + 1);
  }

  function LabelNames(): (ns: seq<string>)
    ensures |ns| == WellCount
  {
    seq(WellCount, i requires 0 <= i < WellCount => LabelName(Labels()[i]))
  }

  const ColumnNames: seq<string> := ["1", "2", "3", "4", "5", "6", "7", "8", "9", "10", "11", "12"]

  /** The column names are the decimal numerals 1 to 12. */
  lemma ColumnNamesAreNumerals()
    ensures forall c :: 0 <= c < Columns ==> ColumnNames[c] == Numeral(c + 1)
  {
    forall c | 0 <= c < Columns
      ensures ColumnNames[c] == Numeral(c + 1)
    {
      if c == 0 {
        assert Numeral(1) == "1";
      } else if c == 1 {
        assert Numeral(2) == "2";
      } else if c == 2 {
        assert Numeral(3) == "3";
      } else if c == 3 {
        assert Numeral(4) == "4";
      } else if c == 4 {
        assert Numeral(5) == "5";
      } else if c == 5 {
        assert Numeral(6) == "6";
      } else if c == 6 {
        assert Numeral(7) == "7";
      } else if c == 7 {
        assert Numeral(8) == "8";
      } else if c == 8 {
        assert Numeral(9) == "9";
      } else if c == 9 {
        assert Numeral(10) == "10";
      } else if c == 10 {
        assert Numeral(11) == "11";
      } else {
        assert Numeral(12) == "12";
      }
    }
  }

  /** The name at row-major position `12 * r + c`. */
  lemma NameAt(r: nat, c: nat)
    requires r < Rows && c < Columns
    ensures LabelNames()[Columns * r + c] == [(('a' as int) + r) as char] + ColumnNames[c]
  {
    ColumnNamesAreNumerals();
    assert LabelAt(Columns * r + c) == Label(r, c);
  }

  /** Row `r` of the names: the row letter followed by each column number. */
  lemma RowOfNames(r: nat, row: seq<string>)
    requires r < Rows && |row| == Columns
    requires forall c :: 0 <= c < Columns ==> row[c] == [(('a' as int) + r) as char] + ColumnNames[c]
    ensures LabelNames()[Columns * r..Columns * r + Columns] == row
  {
    forall c | 0 <= c < Columns
      ensures LabelNames()[Columns * r + c] == row[c]
    {
      NameAt(r, c);
    }
  }

  lemma SliceJoin<T>(s: seq<T>, i: nat, j: nat, k: nat)
    requires i <= j <= k <= |s|
    ensures s[i..k] == s[i..j] + s[j..k]
  {
  }

  /** Two consecutive rows of the names. */
  lemma TwoRows(r: nat, x: seq<string>, y: seq<string>)
    requires r + 1 < Rows && |x| == Columns && |y| == Columns
    requires forall c :: 0 <= c < Columns ==> x[c] == [(('a' as int) + r) as char] + ColumnNames[c]
    requires forall c :: 0 <= c < Columns ==> y[c] == [(('a' as int) + r + 1) as char] + ColumnNames[c]
    ensures LabelNames()[Columns * r..Columns * r + 2 * Columns] == x + y
  {
    RowOfNames(r, x);
    RowOfNames(r + 1, y);
    SliceJoin(LabelNames(), Columns * r, Columns * r + Columns, Columns * r + 2 * Columns);
  }

  lemma RowsAB()
    ensures LabelNames()[0..24] == ["a1", "a2", "a3", "a4", "a5", "a6", "a7", "a8", "a9", "a10", "a11", "a12"] + ["b1", "b2", "b3", "b4", "b5", "b6", "b7", "b8", "b9", "b10", "b11", "b12"]
  {
    TwoRows(0, ["a1", "a2", "a3", "a4", "a5", "a6", "a7", "a8", "a9", "a10", "a11", "a12"], ["b1", "b2", "b3", "b4", "b5", "b6", "b7", "b8", "b9", "b10", "b11", "b12"]);
  }

  lemma RowsCD()
    ensures LabelNames()[24..48] == ["c1", "c2", "c3", "c4", "c5", "c6", "c7", "c8", "c9", "c10", "c11", "c12"] + ["d1", "d2", "d3", "d4", "d5", "d6", "d7", "d8", "d9", "d10", "d11", "d12"]
  {
    TwoRows(2, ["c1", "c2", "c3", "c4", "c5", "c6", "c7", "c8", "c9", "c10", "c11", "c12"], ["d1", "d2", "d3", "d4", "d5", "d6", "d7", "d8", "d9", "d10", "d11", "d12"]);
  }

  lemma RowsEF()
    ensures LabelNames()[48..72] == ["e1", "e2", "e3", "e4", "e5", "e6", "e7", "e8", "e9", "e10", "e11", "e12"] + ["f1", "f2", "f3", "f4", "f5", "f6", "f7", "f8", "f9", "f10", "f11", "f12"]
  {
    TwoRows(4, ["e1", "e2", "e3", "e4", "e5", "e6", "e7", "e8", "e9", "e10", "e11", "e12"], ["f1", "f2", "f3", "f4", "f5", "f6", "f7", "f8", "f9", "f10", "f11", "f12"]);
  }

  lemma RowsGH()
    ensures LabelNames()[72..96] == ["g1", "g2", "g3", "g4", "g5", "g6", "g7", "g8", "g9", "g10", "g11", "g12"] + ["h1", "h2", "h3", "h4", "h5", "h6", "h7", "h8", "h9", "h10", "h11", "h12"]
  {
    TwoRows(6, ["g1", "g2", "g3", "g4", "g5", "g6", "g7", "g8", "g9", "g10", "g11", "g12"], ["h1", "h2", "h3", "h4", "h5", "h6", "h7", "h8", "h9", "h10", "h11", "h12"]);
  }

  /** The names of `Labels()` are the literal table of label strings. */
  lemma LabelNamesTable()
    ensures LabelNames() ==
      (["a1", "a2", "a3", "a4", "a5", "a6", "a7", "a8", "a9", "a10", "a11", "a12"] + ["b1", "b2", "b3", "b4", "b5", "b6", "b7", "b8", "b9", "b10", "b11", "b12"]) + (["c1", "c2", "c3", "c4", "c5", "c6", "c7", "c8", "c9", "c10", "c11", "c12"] + ["d1", "d2", "d3", "d4", "d5", "d6", "d7", "d8", "d9", "d10", "d11", "d12"]) +
      ((["e1", "e2", "e3", "e4", "e5", "e6", "e7", "e8", "e9", "e10", "e11", "e12"] + ["f1", "f2", "f3", "f4", "f5", "f6", "f7", "f8", "f9", "f10", "f11", "f12"]) + (["g1", "g2", "g3", "g4", "g5", "g6", "g7", "g8", "g9", "g10", "g11", "g12"] + ["h1", "h2", "h3", "h4", "h5", "h6", "h7", "h8", "h9", "h10", "h11", "h12"]))
  {
    var ns := LabelNames();
    RowsAB();
    RowsCD();
    RowsEF();
    RowsGH();
    SliceJoin(ns, 0, 24, 48);
    SliceJoin(ns, 48, 72, 96);
    SliceJoin(ns, 0, 48, 96);
    assert ns == ns[0..96];
  }

  /** One well: its fluid-resource id (FR), external chemical code (EC) and
      volume. An absent FR or EC (`undefined` in the stored record) is the
      empty string, which is falsy exactly as `undefined` is. */
  datatype Well = Well(fr: string, ec: string, volume: int)

  const EmptyWell: Well := Well("", "", 0)

  /** The wells of one plate, in label order: always all 96 of them. */
  type Wells = ws: seq<Well> | |ws| == WellCount witness seq(WellCount, _ => EmptyWell)

  /** Plate identities are opaque; only their equality matters. */
  type PlateId = nat

  datatype Plate = Plate(id: PlateId, wells: Wells)

  /** A master-plate well: two stacked compartments that are filled and
      drawn from together. */
  datatype DualWell = DualWell(upper: Well, lower: Well)

  type DualWells = ws: seq<DualWell> | |ws| == WellCount witness seq(WellCount, _ => DualWell(EmptyWell, EmptyWell))
}
