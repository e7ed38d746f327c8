# ASCII / Hex Table: a Dafny model of its core

`asciihex.py` is a PyQt window showing the 128 ASCII code points in a 16 x 8
grid. This project models the logic inside that window, and proves
properties about it:

- the three textual forms of a code:
  - the display form: the character itself for 32..126, `[<code>]` otherwise;
  - `str(code)`;
  - `hex(code)`, shown upper-cased as `0X41`;
- the placement of code `c` at `(c // 8, c % 8)`, and the `cells` dictionary;
- the search box:
  - the query is stripped and lower-cased;
  - every cell is reset to white;
  - the cells whose code matches the query exactly are painted yellow;
- the selection state (`last_selection`, `last_code`, the output label), the
  context menu and the Copy command;
- the rows written by the CSV export.

Modules:

- `PyStr`: `str.strip()`, `str.lower()` and `str.upper()`.
- `Numerals`: `str(n)` and `hex(n)`, with the digit parser that inverts them.
- `CodeTable`: the forms of a code, the texts built from them, grid placement and export rows.
- `Search`: the match rule, and an independent description of the matched set obtained by parsing the query (`Hits`).
- `Window`: the `AsciiTable` class. Its fields are:
  - the 16 x 8 item array, where an item is its text, tooltip and background;
  - the `cells` map;
  - the optional last selection and last code;
  - the label text.

  Its methods are the handlers of the window, each with loop invariants where the source loops.

The source repeats the display, decimal and hexadecimal rules inline at lines 61, 73, 93, 108 and 151. The model defines each rule once, and lemmas show that each use site agrees with that definition:

- `SearchDisplayAgrees` covers the variant at line 93;
- `HexForms` relates the upper-case form to the lower-case form;
- `ContextMenuAgrees` and `ExportRowDecodes` cover the menu and the export.

Consequences of how the code formats and matches:

- The hexadecimal form carries Python's `0x` prefix, shown as `0X`. So the selection text of `A` is `A | Dec: 65 | Hex: 0X41`, the query `41` highlights code 41 only, `11` highlights code 11 only, and `0x11` finds 17.
- The query `9` highlights both 9 and 57, because the display form of 57 is `9`.
- `show_selection` does no range check: it formats `row * 8 + col` for any position it receives.

## Model

| member | source | states |
|---|---|---|
| PyStr.Strip | asciihex.py:80 | definition of `str.strip()`: the text without its longest whitespace prefix and suffix, whitespace being Python's `isspace` set |
| PyStr.Lower | asciihex.py:80 | definition of `str.lower()` on ASCII: each letter `A`-`Z` becomes its lower-case letter, every other character is kept |
| Search.Normalize | asciihex.py:80 | definition of the normalised query `text.strip().lower()` |
| Numerals.Decimal | asciihex.py:94 | definition of `str(code)`: the base-10 digits of the code, without leading zeros |
| Numerals.PyHex | asciihex.py:95 | definition of `hex(code)`: `0x` followed by the lower-case base-16 digits of the code |
| CodeTable.Display | asciihex.py:61 | definition of the cell text: the character itself for codes 32 to 126, otherwise `[` + `str(code)` + `]` (the same expression recurs at lines 73, 108 and 151) |
| CodeTable.SearchDisplay | asciihex.py:93 | definition of the display form the search compares with: the same as the cell text, but the bracketed form is lower-cased |
| CodeTable.ShownHex | asciihex.py:63 | definition of `hex(code).upper()`, the hexadecimal form shown in tooltips, the label, the menu and the export (also lines 74, 109 and 152) |
| CodeTable.ToolTip | asciihex.py:63 | definition of a cell's tooltip: `Dec: ` + `str(code)` + ` \| Hex: ` + the shown hex |
| CodeTable.SelectionText | asciihex.py:76 | definition of the selection text: display form + ` \| Dec: ` + `str(code)` + ` \| Hex: ` + the shown hex |
| CodeTable.Place | asciihex.py:59-60 | definition of a code's grid position: `(code // 8, code % 8)` |
| CodeTable.CodeAt | asciihex.py:72 | definition of the code at a grid position: `row * 8 + col` (also line 150) |
| CodeTable.CellMap | asciihex.py:57-66 | definition of the `cells` dictionary: each code 0 to 127 mapped to its grid position |
| CodeTable.ExportRow | asciihex.py:108-109 | definition of one data row of the export: `[str(code), hex(code).upper(), cell text]` |
| CodeTable.ExportTable | asciihex.py:106-109 | definition of the export rows: the header `Dec, Hex, Char`, then one data row per code in ascending order |
| Search.Matches | asciihex.py:93-97 | definition of a match of a normalised query: equal to the lower-cased search display form, to `str(code)`, or to `hex(code).lower()` |
| Search.SearchHit | asciihex.py:87-97 | definition of a highlighted code: the normalised query is non-empty and matches the code |
| Search.MatchSet | asciihex.py:90-98 | definition of the highlighted codes: those in 0 to 127 the search hits |
| Window.NewItem | asciihex.py:62-63 | definition of a fresh grid item: the cell text, its tooltip, and no background set |
| Window.Searched | asciihex.py:82-98 | definition of an item after a search: yellow when the search hits its code, otherwise white; text and tooltip kept |
| Window.ContextMenu | asciihex.py:155-159 | definition of the menu entries: Copy Char, Copy Dec, Copy Hex and Copy Full, each captioned with the text it copies |
| PyStr.StripSpec | asciihex.py:80 | `strip` returns the part of the text between its longest whitespace prefix and suffix; neither end of the result is whitespace; the result is empty exactly when the text is whitespace only |
| PyStr.LeadingSpaceIsLongest | asciihex.py:80 | the prefix `strip` removes is whitespace and is followed by a non-space character or the end |
| PyStr.TrailingSpaceIsLongest | asciihex.py:80 | the suffix `strip` removes is whitespace and is preceded by a non-space character or the start |
| PyStr.StripUnpadded | asciihex.py:80 | `strip` leaves a text alone when it neither starts nor ends with whitespace |
| PyStr.LowerIdempotent | asciihex.py:80 | `lower` leaves no upper-case letter, so applying it twice is applying it once |
| PyStr.LowerUpperRoundTrip | asciihex.py:95 | lower-casing the upper-cased form of a text without capitals gives the text back (how `hex(code).upper()` relates to `hex(code).lower()`) |
| Numerals.DigitsCanonical | asciihex.py:94 | the digits printed by `str`/`hex` parse back to the number and have no leading zero |
| Numerals.CanonicalDigits | asciihex.py:94-95 | a canonical digit string is the printed form of the number it denotes |
| Numerals.DigitsIff | asciihex.py:94-97 | a string is the printed form of `n` if and only if it is canonical and denotes `n` |
| Numerals.DecimalInjective | asciihex.py:94 | different integers have different `str` forms |
| Numerals.DigitsHaveNoUpper | asciihex.py:95 | every digit of `hex` is a digit of base 16, drawn from `0-9a-f`, and none is an upper-case letter |
| CodeTable.DisplayInjective | asciihex.py:61 | different codes have different display forms |
| CodeTable.SearchDisplayAgrees | asciihex.py:93 | the display variant of the search loop lower-cases to the same string as the display form of line 61 |
| CodeTable.ControlDisplayIsLower | asciihex.py:61 | the display form of a non-printable code is `[` + its decimal digits + `]`, already lower-case |
| CodeTable.HexForms | asciihex.py:74 | the shown form (lines 63, 74, 109, 152) is `0X` + upper-case digits without padding, and lower-cases to `hex(code)` (line 95), which parses back to the code |
| CodeTable.HexExamples | asciihex.py:74 | the shown forms of 0, 65 and 127 are `0X0`, `0X41` and `0X7F` |
| CodeTable.SelectionTextOfA | asciihex.py:76 | the selection text of code 65 is `A \| Dec: 65 \| Hex: 0X41` |
| CodeTable.SelectionTextOfTab | asciihex.py:73-76 | the selection text of code 9 is `[9] \| Dec: 9 \| Hex: 0X9` |
| CodeTable.GridBijection | asciihex.py:59-60 | every code lands inside the 16 x 8 grid and `row * 8 + col` recovers it; every grid position holds a code below 128 whose placement is that position |
| CodeTable.PlaceInjective | asciihex.py:59-60 | two codes never share a cell |
| CodeTable.CellOf | asciihex.py:66 | `cells[code]` is the placement of the code, and it is the only grid position whose `row * 8 + col` is that code |
| CodeTable.PlaceOfCodeAt | asciihex.py:72 | for a grid position, `row * 8 + col` is a code whose `cells` entry is that position |
| CodeTable.ExportRowDecodes | asciihex.py:108-109 | a data row has three fields: the decimal form, which parses back to the code; the shown hex, which lower-cases to `hex(code)`; and the display form. Joined, they are the selection text |
| CodeTable.ExportTableShape | asciihex.py:106-109 | the export is the header `Dec, Hex, Char` followed by 128 rows, row `k` being that of code `k - 1` |
| CodeTable.ExportRowsDecode | asciihex.py:107-109 | the first field of data row `k` is the canonical decimal form of `k - 1` |
| CodeTable.ExportAscending | asciihex.py:107 | the data rows are in strictly ascending code order |
| Search.NormalizeSpec | asciihex.py:80 | the normalised query is empty exactly when the text is whitespace only, and has no upper-case letter |
| Search.NormalizeUnpadded | asciihex.py:80 | a query without surrounding whitespace or capitals is its own normal form |
| Search.Hits | asciihex.py:93-97 | the codes named by a query, parsed as a decimal number, a `0x` number, a single character or a bracketed control code, all lie in 0..127 |
| Search.DecimalHitsIff | asciihex.py:94-97 | the query equals `str(code)` if and only if it parses as the canonical decimal form of the code |
| Search.HexHitsIff | asciihex.py:95-97 | the query equals `hex(code).lower()` if and only if it is `0x` followed by the canonical hexadecimal digits of the code |
| Search.PrintableDisplayHitsIff | asciihex.py:93-97 | for a printable code, the query equals its lower-cased character if and only if the query is one character naming the code, possibly in the other case |
| Search.ControlDisplayHitsIff | asciihex.py:93-97 | for a control code, the query equals its display form if and only if it is `[` + the canonical decimal of the code + `]` |
| Search.DisplayHitsIff | asciihex.py:93-97 | the query equals the lower-cased display variant of the search loop if and only if the parsed description names the code |
| Search.MatchesIffHits | asciihex.py:97 | the three-way equality test of line 97 holds for a code if and only if the parsed description names it |
| Search.EmptyMatchesNothing | asciihex.py:87-88 | no form of any code is empty |
| Search.MatchSetIsHits | asciihex.py:79-98 | the set of highlighted codes equals the set the parsed description gives for the normalised query |
| Search.BlankQueryHighlightsNothing | asciihex.py:80-88 | a query of whitespace only, a single space included, highlights nothing |
| Search.SameNormalFormSameHits | asciihex.py:80 | queries with the same normal form highlight the same codes |
| Search.LetterQuery | asciihex.py:90-98 | `a` highlights codes 65 and 97 |
| Search.PaddedLetterQuery | asciihex.py:80-98 | ` A ` highlights codes 65 and 97 |
| Search.DigitQuery | asciihex.py:90-98 | `9` highlights codes 9 and 57 |
| Search.DecimalQuery | asciihex.py:90-98 | `41` highlights code 41 only |
| Search.HexQuery | asciihex.py:90-98 | `0x41` highlights code 65 only |
| Search.ShownHexQuery | asciihex.py:80-98 | `0X41` highlights code 65 only |
| Search.ElevenQuery | asciihex.py:90-98 | `11` highlights code 11 only |
| Search.HexElevenQuery | asciihex.py:90-98 | `0x11` highlights code 17 only |
| Search.BracketQuery | asciihex.py:90-98 | `[9]` highlights code 9 only |
| Search.PaddedDecimalQuery | asciihex.py:90-98 | `065` highlights nothing: matching is exact |
| Search.PaddedHexQuery | asciihex.py:90-98 | `0x05` highlights nothing |
| Window.SearchesCompose | asciihex.py:81-85 | a search changes only the background; after two searches a cell looks as it would after the second alone, so repeating a search changes nothing; a cell is yellow exactly when its code is in the matched set |
| Window.ContextMenuAgrees | asciihex.py:150-159 | the menu has four entries, each captioned with the text it copies: the display form, the decimal form (which parses back to the code), the shown hex (which lower-cases to `hex(code)`), and the selection text |
| Window.AsciiTable.constructor | asciihex.py:41-45 | the new window holds a populated grid, no selection, and the label `Selected: None \| Dec: - \| Hex: -` |
| Window.AsciiTable.PopulateTable | asciihex.py:56-66 | every grid position holds a fresh item with the display form and tooltip of its code, and `cells` maps each code to its placement |
| Window.AsciiTable.PerformSearch | asciihex.py:79-98 | every cell keeps its text and tooltip, and gets a yellow background if its code matches the normalised query, otherwise white; a cell is highlighted exactly when its code is in the matched set |
| Window.AsciiTable.ClearHighlights | asciihex.py:81-85 | every item present becomes white, and nothing else changes |
| Window.AsciiTable.HighlightMatches | asciihex.py:90-98 | the items whose code the query matches become yellow; the others keep their background |
| Window.AsciiTable.ShowSelection | asciihex.py:71-77 | `last_code` becomes `row * 8 + col`, `last_selection` its selection text, and the label `Selected: ` + that text; on a grid cell, the code is the one `cells` places there and the cell shows its display form |
| Window.AsciiTable.OnCellClicked | asciihex.py:68-69 | a click selects the clicked cell |
| Window.AsciiTable.CopySelection | asciihex.py:136-141 | with a selection, the clipboard receives the selection text of the last code; without one, the "No selection to copy." information box is shown |
| Window.AsciiTable.ShowContextMenu | asciihex.py:143-159 | over an item, the item is selected and its four-entry menu is built, with Copy Full copying exactly the new `last_selection`; elsewhere nothing changes |
| Window.AsciiTable.ExportShowsGrid | asciihex.py:108 | in a valid window, the character column of the export row of each code is the text of that code's grid cell |
| Window.AsciiTable.ExportRows | asciihex.py:100-109 | the rows written are the export table, and the character column of each row is the text of the code's grid cell |

## Left out

- Qt widgets, layouts, window titles, icons, the About and Help dialogs, and the menu bar: presentation only. An item is reduced to its text, tooltip and background. Centred alignment and fonts are not modelled.
- Window.AsciiTable.ShowContextMenu: `table.itemAt(position)` is a Qt hit test. It becomes the parameter `hit`: the `(row, col)` of the item under the pointer, or nothing. The menu is returned as a list rather than executed.
- The clipboard (lines 138-139 and 163-164) and `copy_text`: only the text handed to the clipboard is modelled, as `CopyOutcome.Clipboard` and `MenuAction.copies`.
- The file dialog, opening and writing the file, and the success and failure message boxes of `export_csv` (lines 101-104 and 110-112): I/O. Window.AsciiTable.ExportRows returns the rows the CSV writer receives.
- The byte encoding of `csv.writer`, including the quoting of the `,` and `"` display fields: library behaviour.
- Dark mode and font size (lines 114-134): presentation flags with no logic beyond assignment.
- PyStr.Lower / PyStr.Upper: only the ASCII letters change case. Python's full Unicode case mapping is not modelled. For example, `lower()` maps KELVIN SIGN to `k`, so a query of that sign would also highlight 75 and 107 in the program but not in the model.
- `textChanged.connect` (line 28): the event wiring that calls `perform_search` on every edit. Window.AsciiTable.PerformSearch is the handler alone.
- Window.AsciiTable.HighlightMatches: requires every cell to hold an item, which `Valid` guarantees. The source would fail on a missing item here.
