/**
 The table of the 128 ASCII code points: the three textual forms of a code
 (display, decimal, hexadecimal), the texts built from them, the placement of
 a code in the 16 x 8 grid, and the rows written by the CSV export.

 In `asciihex.py` each form is recomputed inline wherever it is needed
 (lines 61, 73, 93, 108 and 151 for the display form); here each is defined
 once, and the lemmas show that every site's variant agrees with it.
 */
module CodeTable {
  import opened PyStr
  import opened Numerals

  /** Number of code points in the table. */
  const Size: nat := 128
  /** The grid is `Rows` x `Cols`, filled row by row. */
  const Rows: nat := 16
  const Cols: nat := 8

  predicate IsPrintable(code: int) { 32 <= code <= 126 }

  // ---------------------------------------------------------------------------
  // The three forms of a code

  /** The cell text: the character itself when printable, otherwise `[<code>]`. */
  function Display(code: int): string {
    if IsPrintable(code) then [code as char] else "[" + Decimal(code) + "]"
  }

  /**
   The display form as the search loop writes it: there `.lower()` is applied
   to the bracketed form only, before the whole form is lower-cased again.
   */
  function SearchDisplay(code: int): string {
    if IsPrintable(code) then [code as char] else Lower("[" + Decimal(code) + "]")
  }

  /** The hexadecimal form shown to the user: `hex(code).upper()`, e.g. `0X41`. */
  function ShownHex(code: int): string {
    Upper(PyHex(code))
  }

  /** The tooltip of a grid cell. */
  function ToolTip(code: int): string {
    "Dec: " + Decimal(code) + " | Hex: " + ShownHex(code)
  }

  /** The one-line description of a selected code (the selection label without its `Selected: ` prefix). */
  function SelectionText(code: int): string {
    Display(code) + " | Dec: " + Decimal(code) + " | Hex: " + ShownHex(code)
  }

  /** Different codes have different display forms. */
  lemma DisplayInjective(a: int, b: int)
    requires Display(a) == Display(b)
    ensures a == b
  {
    var da, db := Display(a), Display(b);
    if IsPrintable(a) && IsPrintable(b) {
      assert (da[0] as int) == a && (db[0] as int) == b;
    } else if !IsPrintable(a) && !IsPrintable(b) {
      assert Decimal(a) == da[1..|da| - 1];
      assert Decimal(b) == db[1..|db| - 1];
      DecimalInjective(a, b);
    }
  }

  /** The search loop's display variant lower-cases to the same string as the display form. */
  lemma SearchDisplayAgrees(code: int)
    ensures Lower(SearchDisplay(code)) == Lower(Display(code))
  {
    LowerIdempotent("[" + Decimal(code) + "]");
  }

  /** The display form of a non-printable code is already lower-case. */
  lemma ControlDisplayIsLower(code: nat)
    requires !IsPrintable(code)
    ensures Lower(Display(code)) == Display(code) == "[" + Digits(code, 10) + "]"
  {
    DigitsHaveNoUpper(code, 10);
    LowerOfNoUpper(Display(code));
  }

  /**
   The shown hexadecimal form is `0X` followed by the upper-case digits of the
   code without leading zeros; lower-casing it gives Python's `hex(code)`,
   the form the search compares against, which is also its own lower-case form
   and parses back to the code.
   */
  lemma {:induction false} HexForms(code: nat)
    ensures PyHex(code) == "0x" + Digits(code, 16)
    ensures ShownHex(code) == "0X" + Upper(Digits(code, 16))
    ensures Lower(PyHex(code)) == PyHex(code)
    ensures Lower(ShownHex(code)) == PyHex(code)
    ensures Canonical(Digits(code, 16), 16) && Value(Digits(code, 16), 16) == code
  {
    var d := Digits(code, 16);
    var h := PyHex(code);
    assert h == "0x" + d;
    DigitsCanonical(code, 16);
    assert NoUpper(h) by {
      DigitsHaveNoUpper(code, 16);
      assert NoUpper("0x");
      NoUpperAppend("0x", d);
    }
    assert Lower(h) == h by {
      LowerOfNoUpper(h);
    }
    assert Lower(Upper(h)) == h by {
      LowerUpperRoundTrip(h);
    }
    assert Upper(h) == "0X" + Upper(d) by {
      UpperAppend("0x", d);
      assert Upper("0x") == "0X";
    }
  }

  lemma HexExamples()
    ensures ShownHex(0) == "0X0"
    ensures ShownHex(65) == "0X41"
    ensures ShownHex(127) == "0X7F"
    ensures PyHex(65) == "0x41"
  {
    assert Digits(65, 16) == "41";
    assert Digits(127, 16) == "7f";
  }

  /** The selection text of `A`. */
  lemma SelectionTextOfA()
    ensures SelectionText(65) == "A | Dec: 65 | Hex: 0X41"
  {
    var dec, hx, ch := Decimal(65), ShownHex(65), Display(65);
    assert dec == "65" by { assert Digits(65, 10) == "65"; }
    assert hx == "0X41" by { assert PyHex(65) == "0x41" by { assert Digits(65, 16) == "41"; } }
    assert ch == "A";
    assert SelectionText(65) == ch + " | Dec: " + dec + " | Hex: " + hx;
  }

  /** The selection text of the tab character, which has the bracketed display form. */
  lemma SelectionTextOfTab()
    ensures SelectionText(9) == "[9] | Dec: 9 | Hex: 0X9"
  {
    var dec, hx, ch := Decimal(9), ShownHex(9), Display(9);
    assert dec == "9";
    assert hx == "0X9" by { assert PyHex(9) == "0x9"; }
    assert ch == "[9]";
    assert SelectionText(9) == ch + " | Dec: " + dec + " | Hex: " + hx;
  }

  // ---------------------------------------------------------------------------
  // Grid placement

  /** `(code // 8, code % 8)`: where a code sits in the grid. */
  function Place(code: int): (int, int) {
    (code / Cols, code % Cols)
  }

  /** `row * 8 + col`: the code shown at a grid position. */
  function CodeAt(row: int, col: int): int {
    row * Cols + col
  }

  predicate InGrid(row: int, col: int) {
    0 <= row < Rows && 0 <= col < Cols
  }

  /** The `cells` dictionary built while populating the table. */
  function CellMap(): map<int, (int, int)> {
    map code | 0 <= code < Size :: Place(code)
  }

  /** Placement and `CodeAt` are inverse bijections between the codes and the grid. */
  lemma GridBijection()
    ensures forall code :: 0 <= code < Size ==> InGrid(Place(code).0, Place(code).1)
    ensures forall code :: 0 <= code < Size ==> CodeAt(Place(code).0, Place(code).1) == code
    ensures forall row, col :: InGrid(row, col) ==> 0 <= CodeAt(row, col) < Size
    ensures forall row, col :: InGrid(row, col) ==> Place(CodeAt(row, col)) == (row, col)
  {
  }

  /** The cell `cells` records for a code is the only grid position showing that code. */
  lemma CellOf(code: int)
    requires 0 <= code < Size
    ensures code in CellMap() && CellMap()[code] == Place(code)
    ensures InGrid(Place(code).0, Place(code).1)
    ensures forall row, col :: InGrid(row, col) ==> (CodeAt(row, col) == code <==> (row, col) == Place(code))
  {
  }

  /** A grid position shows a code whose recorded cell is that position. */
  lemma PlaceOfCodeAt(row: int, col: int)
    requires InGrid(row, col)
    ensures 0 <= CodeAt(row, col) < Size
    ensures CodeAt(row, col) in CellMap() && CellMap()[CodeAt(row, col)] == (row, col)
  {
    DivModUnique(row, col, Cols);
  }

  /** Two codes never share a cell. */
  lemma PlaceInjective(a: int, b: int)
    requires Place(a) == Place(b)
    ensures a == b
  {
  }

  // ---------------------------------------------------------------------------
  // CSV export

  const Header: seq<string> := ["Dec", "Hex", "Char"]

  /** One data row: `[code, hex(code).upper(), char]`, the code written as `str(code)`. */
  function ExportRow(code: int): seq<string> {
    [Decimal(code), ShownHex(code), Display(code)]
  }

  /** The rows of the export: the header, then one row per code in ascending order. */
  function ExportTable(): seq<seq<string>> {
    [Header] + seq(Size, code => ExportRow(code))
  }

  /**
   A data row names its code: the first field parses back to the code, the
   second lower-cases to `hex` of it, the third is its display form, and the
   three fields are exactly those of the code's selection text.
   */
  lemma ExportRowDecodes(code: nat)
    ensures |ExportRow(code)| == 3
    ensures Canonical(ExportRow(code)[0], 10) && Value(ExportRow(code)[0], 10) == code
    ensures Lower(ExportRow(code)[1]) == PyHex(code)
    ensures ExportRow(code)[2] == Display(code)
    ensures SelectionText(code) == ExportRow(code)[2] + " | Dec: " + ExportRow(code)[0] + " | Hex: " + ExportRow(code)[1]
  {
    DigitsCanonical(code, 10);
    HexForms(code);
  }

  /** The export is the header followed by 128 data rows; data row `k` (the header being row 0) is code `k - 1`. */
  lemma ExportTableShape()
    ensures |ExportTable()| == Size + 1 && ExportTable()[0] == Header
    ensures forall k :: 1 <= k <= Size ==> ExportTable()[k] == ExportRow(k - 1)
  {
  }

  /** The first field of data row `k` is the canonical decimal form of `k - 1`. */
  lemma ExportRowsDecode()
    ensures forall k :: 1 <= k <= Size ==>
      Canonical(ExportTable()[k][0], 10) && Value(ExportTable()[k][0], 10) == k - 1
  {
    ExportTableShape();
    var t := ExportTable();
    forall k | 1 <= k <= Size
      ensures Canonical(t[k][0], 10) && Value(t[k][0], 10) == k - 1
    {
      ExportRowDecodes(k - 1);
    }
  }

  /** The data rows are in strictly ascending code order. */
  lemma ExportAscending(i: int, j: int)
    requires 1 <= i < j <= Size
    ensures Canonical(ExportTable()[i][0], 10) && Canonical(ExportTable()[j][0], 10)
    ensures Value(ExportTable()[i][0], 10) < Value(ExportTable()[j][0], 10)
  {
    ExportRowsDecode();
    assert Value(ExportTable()[i][0], 10) == i - 1;
  }
}
