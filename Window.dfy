/**
 The state the main window keeps and the handlers that update it: the grid
 of items with their backgrounds, the `cells` dictionary from code to grid
 position, the last selection, the selection label, the context menu, the
 Copy command and the rows of the CSV export.

 Widgets are reduced to the data they carry: an item is its text, tooltip
 and background; the label is its text; a menu is the list of its entries;
 the clipboard is the text handed to it.
 */
module Window {
  import opened Wrappers
  import opened PyStr
  import opened Numerals
  import opened CodeTable
  import opened Search

  /** A cell's background: never set, reset by a search, or highlighted by one. */
  datatype Background = Unset | White | Yellow

  /** A grid item. */
  datatype Item = Item(text: string, toolTip: string, background: Background)

  /** A context-menu entry: its caption and the text it hands to the clipboard. */
  datatype MenuAction = MenuAction(caption: string, copies: string)

  /** What the Copy command does: hand a text to the clipboard, or show an information box. */
  datatype CopyOutcome = Clipboard(text: string) | Information(title: string, message: string)

  const InitialLabel := "Selected: None | Dec: - | Hex: -"

  /** The item `populate_table` creates for a code. */
  function NewItem(code: int): Item {
    Item(Display(code), ToolTip(code), Unset)
  }

  /** The background a search gives a cell. */
  function Shade(hit: bool): Background {
    if hit then Yellow else White
  }

  /** An item after a search for `text`, when it is the cell of `code`: only its background changes. */
  function Searched(item: Item, text: string, code: int): Item {
    item.(background := Shade(SearchHit(text, code)))
  }

  /**
   A search overrides whatever an earlier search did: the outcome of two
   searches is that of the second alone, so repeating a search changes nothing.
   */
  lemma SearchesCompose(item: Item, first: string, second: string, code: int)
    ensures Searched(Searched(item, first, code), second, code) == Searched(item, second, code)
    ensures Searched(Searched(item, second, code), second, code) == Searched(item, second, code)
    ensures Searched(item, second, code).text == item.text
    ensures Searched(item, second, code).toolTip == item.toolTip
    ensures 0 <= code < Size ==>
      (Searched(item, second, code).background == Yellow <==> code in MatchSet(second))
  {
  }

  /** The entries of the context menu opened on the cell of `code`. */
  function ContextMenu(code: int): seq<MenuAction> {
    var ch, dec, hx := Display(code), Decimal(code), ShownHex(code);
    [ MenuAction("Copy Char: " + ch, ch),
      MenuAction("Copy Dec: " + dec, dec),
      MenuAction("Copy Hex: " + hx, hx),
      MenuAction("Copy Full: " + ch + " | Dec: " + dec + " | Hex: " + hx,
                 ch + " | Dec: " + dec + " | Hex: " + hx) ]
  }

  /**
   Each menu entry is captioned with the text it copies; the Char, Dec and Hex
   entries copy the cell text, the number the search accepts in decimal, and
   the shown hexadecimal form, and Copy Full copies the selection text.
   */
  lemma ContextMenuAgrees(code: nat)
    ensures |ContextMenu(code)| == 4
    ensures ContextMenu(code)[0].caption == "Copy Char: " + ContextMenu(code)[0].copies
    ensures ContextMenu(code)[1].caption == "Copy Dec: " + ContextMenu(code)[1].copies
    ensures ContextMenu(code)[2].caption == "Copy Hex: " + ContextMenu(code)[2].copies
    ensures ContextMenu(code)[3].caption == "Copy Full: " + ContextMenu(code)[3].copies
    ensures ContextMenu(code)[0].copies == Display(code)
    ensures Canonical(ContextMenu(code)[1].copies, 10) && Value(ContextMenu(code)[1].copies, 10) == code
    ensures Lower(ContextMenu(code)[2].copies) == PyHex(code)
    ensures ContextMenu(code)[3].copies == SelectionText(code)
  {
    DigitsCanonical(code, 10);
    HexForms(code);
    var ch, dec, hx := Display(code), Decimal(code), ShownHex(code);
    assert "Copy Full: " + ch + " | Dec: " + dec + " | Hex: " + hx
        == "Copy Full: " + (ch + " | Dec: " + dec + " | Hex: " + hx);
  }

  class AsciiTable {
    /** The 16 x 8 table widget; a slot holds `None` until an item is set. */
    var table: array2<Option<Item>>
    /** Code to `(row, col)`, filled by `PopulateTable`. */
    var cells: map<int, (int, int)>
    /** `last_selection`, absent until the first selection. */
    var lastSelection: Option<string>
    /** `last_code`, absent until the first selection. */
    var lastCode: Option<int>
    /** The text of the output label. */
    var outputLabel: string

    /** Whether `item` is the cell of `code`, whatever its background. */
    static predicate Shows(item: Item, code: int) {
      item.text == Display(code) && item.toolTip == ToolTip(code)
    }

    /** The grid: 16 x 8 items, each showing the code of its position, and `cells` placing every code. */
    ghost predicate GridValid()
      reads this`table, this`cells, table
    {
      && table.Length0 == Rows && table.Length1 == Cols
      && cells == CellMap()
      && (forall row, col :: InGrid(row, col) ==>
            table[row, col].Some? && Shows(table[row, col].value, CodeAt(row, col)))
    }

    /** The selection: `last_selection` describes `last_code`, and the label shows it. */
    ghost predicate SelectionValid()
      reads this`lastSelection, this`lastCode, this`outputLabel
    {
      && lastSelection.Some? == lastCode.Some?
      && (lastCode.Some? ==>
            lastSelection.value == SelectionText(lastCode.value)
            && outputLabel == "Selected: " + lastSelection.value)
      && (lastCode.None? ==> outputLabel == InitialLabel)
    }

    ghost predicate Valid()
      reads this, table
    {
      GridValid() && SelectionValid()
    }

    /** The window as built: a populated grid, no selection, the initial label. */
    constructor ()
      ensures Valid() && fresh(table)
      ensures lastSelection.None? && lastCode.None? && outputLabel == InitialLabel
      ensures forall row, col :: InGrid(row, col) ==> table[row, col] == Some(NewItem(CodeAt(row, col)))
    {
      table := new Option<Item>[Rows, Cols]((row, col) => None);
      cells := map[];
      lastSelection := None;
      lastCode := None;
      outputLabel := InitialLabel;
      new;
      PopulateTable();
    }

    /** `populate_table`: a fresh item in every cell, and the `cells` dictionary. */
    method PopulateTable()
      requires table.Length0 == Rows && table.Length1 == Cols
      modifies this`cells, table
      ensures cells == CellMap()
      ensures forall row, col :: InGrid(row, col) ==> table[row, col] == Some(NewItem(CodeAt(row, col)))
    {
      cells := map[];
      var code := 0;
      while code < Size
        invariant 0 <= code <= Size
        invariant forall k :: k in cells <==> 0 <= k < code
        invariant forall k :: k in cells ==> cells[k] == Place(k)
        invariant forall row, col :: InGrid(row, col) && CodeAt(row, col) < code ==>
          table[row, col] == Some(NewItem(CodeAt(row, col)))
      {
        CellOf(code);
        var row := code / Cols;
        var col := code % Cols;
        var ch := Display(code);
        table[row, col] := Some(Item(ch, ToolTip(code), Unset));
        cells := cells[code := (row, col)];
        code := code + 1;
      }
      assert cells == CellMap();
    }

    /** Whether the cell at `(row, col)` is highlighted. */
    predicate Highlighted(row: int, col: int)
      reads this, table
      requires Valid() && InGrid(row, col)
    {
      table[row, col].value.background == Yellow
    }

    /**
     `perform_search`: every cell is reset, then exactly the cells whose code
     the query matches are highlighted. The new backgrounds depend on the
     query alone, not on earlier searches, and nothing but the backgrounds
     changes.
     */
    method PerformSearch(text: string)
      requires Valid()
      modifies table
      ensures Valid()
      ensures forall row, col :: InGrid(row, col) ==>
        table[row, col] == Some(Searched(old(table[row, col].value), text, CodeAt(row, col)))
      ensures forall row, col :: InGrid(row, col) ==>
        (Highlighted(row, col) <==> CodeAt(row, col) in MatchSet(text))
    {
      var query := Lower(Strip(text));
      ClearHighlights();
      if query == [] {
        return;
      }
      HighlightMatches(query);
    }

    /** The first loop of `perform_search`: every item present gets a white background. */
    method ClearHighlights()
      requires table.Length0 == Rows && table.Length1 == Cols && cells == CellMap()
      modifies table
      ensures forall row, col :: InGrid(row, col) ==>
        table[row, col] == if old(table[row, col]).Some?
          then Some(old(table[row, col].value).(background := White)) else None
    {
      var code := 0;
      while code < Size
        invariant 0 <= code <= Size
        invariant forall row, col :: InGrid(row, col) ==>
          table[row, col] ==
            if CodeAt(row, col) < code && old(table[row, col]).Some?
            then Some(old(table[row, col].value).(background := White))
            else old(table[row, col])
      {
        CellOf(code);
        var (row, col) := cells[code];
        var item := table[row, col];
        if item.Some? {
          table[row, col] := Some(item.value.(background := White));
        }
        code := code + 1;
      }
    }

    /**
     The second loop of `perform_search`: the items whose code the normalised
     query matches turn yellow; the others keep their background.
     */
    method HighlightMatches(query: string)
      requires table.Length0 == Rows && table.Length1 == Cols && cells == CellMap()
      requires forall row, col :: InGrid(row, col) ==> table[row, col].Some?
      modifies table
      ensures forall row, col :: InGrid(row, col) ==>
        table[row, col] == Some(old(table[row, col].value).(background :=
          if Matches(query, CodeAt(row, col)) then Yellow else old(table[row, col].value.background)))
    {
      var code := 0;
      while code < Size
        invariant 0 <= code <= Size
        invariant forall row, col :: InGrid(row, col) ==>
          table[row, col] ==
            if CodeAt(row, col) < code && Matches(query, CodeAt(row, col))
            then Some(old(table[row, col].value).(background := Yellow))
            else old(table[row, col])
      {
        CellOf(code);
        var (row, col) := cells[code];
        var item := table[row, col];
        var ch := SearchDisplay(code);
        var decStr := Decimal(code);
        var hexStr := Lower(PyHex(code));
        if query == Lower(ch) || query == decStr || query == hexStr {
          table[row, col] := Some(item.value.(background := Yellow));
        }
        code := code + 1;
      }
    }

    /**
     `show_selection`: records the code at `(row, col)` and its selection text,
     and shows that text in the label. On a grid cell, the recorded code is the
     one the `cells` dictionary places there, and the cell shows its display form.
     */
    method ShowSelection(row: int, col: int)
      requires Valid()
      modifies this`lastSelection, this`lastCode, this`outputLabel
      ensures Valid()
      ensures lastCode == Some(CodeAt(row, col))
      ensures lastSelection == Some(SelectionText(CodeAt(row, col)))
      ensures outputLabel == "Selected: " + SelectionText(CodeAt(row, col))
      ensures InGrid(row, col) ==>
        CodeAt(row, col) in cells && cells[CodeAt(row, col)] == (row, col)
        && table[row, col].value.text == Display(CodeAt(row, col))
    {
      var code := row * Cols + col;
      var ch := Display(code);
      var hexVal := ShownHex(code);
      var selection := ch + " | Dec: " + Decimal(code) + " | Hex: " + hexVal;
      outputLabel := "Selected: " + selection;
      lastSelection := Some(selection);
      lastCode := Some(code);
      if InGrid(row, col) {
        PlaceOfCodeAt(row, col);
      }
    }

    /** `on_cell_clicked`: a click selects the cell. */
    method OnCellClicked(row: int, col: int)
      requires Valid()
      modifies this`lastSelection, this`lastCode, this`outputLabel
      ensures Valid()
      ensures lastCode == Some(CodeAt(row, col))
      ensures lastSelection == Some(SelectionText(CodeAt(row, col)))
      ensures outputLabel == "Selected: " + SelectionText(CodeAt(row, col))
    {
      ShowSelection(row, col);
    }

    /**
     `copy_selection`: hands the last selection text to the clipboard, or
     reports that there is nothing to copy.
     */
    method CopySelection() returns (outcome: CopyOutcome)
      requires Valid()
      ensures lastSelection.Some? ==> outcome == Clipboard(lastSelection.value)
      ensures lastSelection.None? ==> outcome == Information("Copy", "No selection to copy.")
      ensures outcome.Clipboard? ==> lastCode.Some? && outcome.text == SelectionText(lastCode.value)
    {
      if lastSelection.Some? {
        outcome := Clipboard(lastSelection.value);
      } else {
        outcome := Information("Copy", "No selection to copy.");
      }
    }

    /**
     `show_context_menu`: when the pointer is over an item (`hit` is its row
     and column), the item is selected and its menu is returned; otherwise
     nothing happens and no menu is shown (an empty list).
     */
    method ShowContextMenu(hit: Option<(int, int)>) returns (menu: seq<MenuAction>)
      requires Valid()
      modifies this`lastSelection, this`lastCode, this`outputLabel
      ensures Valid()
      ensures hit.None? ==>
        menu == [] && lastSelection == old(lastSelection) && lastCode == old(lastCode)
        && outputLabel == old(outputLabel)
      ensures hit.Some? ==>
        lastCode == Some(CodeAt(hit.value.0, hit.value.1))
        && menu == ContextMenu(CodeAt(hit.value.0, hit.value.1))
        && |menu| == 4 && lastSelection == Some(menu[3].copies)
    {
      menu := [];
      if hit.Some? {
        var (row, col) := hit.value;
        ShowSelection(row, col);
        var code := row * Cols + col;
        var ch := Display(code);
        var hexVal := ShownHex(code);
        var decVal := Decimal(code);
        menu := [
          MenuAction("Copy Char: " + ch, ch),
          MenuAction("Copy Dec: " + decVal, decVal),
          MenuAction("Copy Hex: " + hexVal, hexVal),
          MenuAction("Copy Full: " + ch + " | Dec: " + decVal + " | Hex: " + hexVal,
                     ch + " | Dec: " + decVal + " | Hex: " + hexVal)
        ];
      }
    }

    /**
     The rows `export_csv` writes: the header, then `[code, HEX, char]` for
     every code in ascending order; the character column is what the grid
     shows in the code's cell.
     */
    method ExportRows() returns (rows: seq<seq<string>>)
      requires Valid()
      ensures rows == ExportTable()
      ensures forall row, col :: InGrid(row, col) ==>
        rows[CodeAt(row, col) + 1][2] == table[row, col].value.text
    {
      rows := [Header];
      var code := 0;
      while code < Size
        invariant 0 <= code <= Size
        invariant |rows| == code + 1 && rows[0] == Header
        invariant forall k :: 0 <= k < code ==> rows[k + 1] == ExportRow(k)
      {
        var ch := Display(code);
        var line := [Decimal(code), ShownHex(code), ch];
        assert line == ExportRow(code);
        ghost var before := rows;
        rows := rows + [line];
        assert forall k :: 0 <= k <= code ==> rows[k] == before[k];
        code := code + 1;
      }
      assert rows == ExportTable() by {
        ExportTableShape();
        assert forall k :: 1 <= k <= Size ==> rows[k] == ExportTable()[k];
      }
      ExportShowsGrid();
    }

    /** The character column of the export holds, for every code, the text of the code's grid cell. */
    lemma ExportShowsGrid()
      requires Valid()
      ensures forall row, col :: InGrid(row, col) ==>
        ExportTable()[CodeAt(row, col) + 1][2] == table[row, col].value.text
    {
      ExportTableShape();
      forall row, col | InGrid(row, col)
        ensures ExportTable()[CodeAt(row, col) + 1][2] == table[row, col].value.text
      {
        assert ExportTable()[CodeAt(row, col) + 1] == ExportRow(CodeAt(row, col));
      }
    }
  }
}
