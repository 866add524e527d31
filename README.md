# Coord: spreadsheet cell coordinates

This project is a Dafny model of `Coord`, the value type for spreadsheet cell
coordinates. A coordinate is a 1-based (column, row) pair. Columns have
letter names in bijective base 26: A = 1, ..., Z = 26, AA = 27, ..., ZZ = 702,
AAA = 703. The class converts between column names and column indices. It also
parses cell names such as `B12` into coordinates, and formats a coordinate
back into its cell name.

The project has three modules:

- `Wrappers` (`wrappers.dfy`) holds `Option` and `Result`. `None` stands for
  Java's `null`, and `Err` for a thrown exception.
- `JavaStrings` (`java_strings.dfy`) models the parts of the Java library
  that the parser relies on, over ASCII text:
  - `String.split` on a one-character class, including the removal of
    trailing empty strings;
  - `String.toUpperCase`;
  - `Integer.parseInt`;
  - the decimal form of an `int`.

  It also defines two scans, `PrefixBefore` and `LastRun`. These are proved
  to be the first and last pieces that `split` returns.
- `Coords` (`coord.dfy`) models the coordinate class itself:
  - the checking constructor;
  - `equals`;
  - the two column converters as pure functions (`NameToIndex`,
    `IndexToName`);
  - the Java loops as methods proved equal to those functions
    (`ColNameToIndex`, `ColIndexToName`);
  - the cell-name parser, written the Java way (`CoordStringToCoord`,
    with both splits);
  - an independent scan-based reference parser (`ScanCoordString`), and the
    proof that the two parsers agree on every string;
  - `toString`.

Each `throw` in the source becomes its own `CoordError` kind.
`IndexOutOfBounds` stands for the `ArrayIndexOutOfBoundsException` that
`split` can trigger and that nothing catches. For example, `"12".split("[1-9]")`
is an empty array, so reading `colLetter[0]` throws.

Two behaviours of `coordStringToCoord` are easy to miss, and the model keeps
both:

- Interleaving letters and digits is not rejected as such. `B1A2` parses as
  column `B`, row 2: the column is the text before the first digit 1–9 and
  the row is the last digit run (`CoordStringToCoordInterleaved`). Such a
  name still fails in the constructor when its column text or its last
  digit run has a value below 1, as `1A2` and `B1A0` do.
- Zeros before the first digit 1–9 count as part of the column name, where
  they are folded in as `'0' - 'A' + 1 = -16` (`CoordStringToCoordZerosInColumn`).
  So `B012` parses as column 36, row 12 (`CoordStringToCoordZeroInColumn`).

## Model

| member | source | states |
|---|---|---|
| Coords.NewCoord | src/edu/cs3500/spreadsheets/model/Coord.java:18-24 | construction succeeds exactly when row >= 1 and col >= 1; on success the fields are the arguments, and on failure the error is the non-positive error |
| Coords.Equals | src/edu/cs3500/spreadsheets/model/Coord.java:88-98 | `equals` is true exactly for a `Coord` with the same column and row; null and objects of other classes are never equal |
| Coords.IndexToName | src/edu/cs3500/spreadsheets/model/Coord.java:46-54 | a column name has only letters 'A'..'Z', and it is non-empty exactly when the index is >= 1 |
| Coords.NameToIndex | src/edu/cs3500/spreadsheets/model/Coord.java:31-39 | the empty name has index 0 |
| Coords.ColNameToIndex | src/edu/cs3500/spreadsheets/model/Coord.java:31-39 | the Java loop (upper-case, then `ans = ans * 26 + (c - 'A' + 1)` per character) computes the left fold `NameToIndex` |
| Coords.ColIndexToName | src/edu/cs3500/spreadsheets/model/Coord.java:46-54 | the Java loop (prepend `'A' + (i - 1) % 26`, then `i = (i - colNum) / 26`) computes `IndexToName` |
| Coords.NameLoopStep | src/edu/cs3500/spreadsheets/model/Coord.java:49-51 | the update `(index - colNum) / 26` of the loop equals `(index - 1) / 26` |
| Coords.FoldOfName | src/edu/cs3500/spreadsheets/model/Coord.java:31-54 | folding the name of any index n >= 0 gives n back |
| Coords.NameOfFold | src/edu/cs3500/spreadsheets/model/Coord.java:31-54 | folding a string of capitals gives an index >= 0, and >= 1 when the string is non-empty; the name of that index is the string itself |
| Coords.NameToIndexOfName | src/edu/cs3500/spreadsheets/model/Coord.java:31-54 | `colNameToIndex(colIndexToName(n)) == n` for every n >= 1 |
| Coords.NameOfNameToIndex | src/edu/cs3500/spreadsheets/model/Coord.java:31-54 | a non-empty name of ASCII letters has index >= 1, and `colIndexToName` of that index is the name in capitals (the name itself when it is already capitals) |
| Coords.NameToIndexInjective | src/edu/cs3500/spreadsheets/model/Coord.java:31-39 | two non-empty capital names with the same index are equal; together with the two round trips, names and positive indices are in bijection |
| Coords.NameToIndexIgnoresCase | src/edu/cs3500/spreadsheets/model/Coord.java:32 | upper-casing a name first does not change its index |
| Coords.ToUpperOfCapitals | src/edu/cs3500/spreadsheets/model/Coord.java:32 | upper-casing leaves a string of capitals unchanged |
| Coords.IndexToNameExamples | src/edu/cs3500/spreadsheets/model/Coord.java:46-54 | 0 and -5 give ""; 1 gives A, 26 gives Z, 27 gives AA, 52 gives AZ, 53 gives BA, 702 gives ZZ, 703 gives AAA |
| Coords.NameToIndexExamples | src/edu/cs3500/spreadsheets/model/Coord.java:31-39 | "b" and "B" both give 2; AA gives 27, ZZ gives 702, AAA gives 703 |
| Coords.ColumnPiece | src/edu/cs3500/spreadsheets/model/Coord.java:70-71 | `split("[1-9]")` is empty exactly when the name is non-empty and all digits 1-9; otherwise its first piece is the text before the first digit 1-9 |
| Coords.RowPiece | src/edu/cs3500/spreadsheets/model/Coord.java:73-74 | for a non-empty alphanumeric name that is not all letters, the last piece of `split("[a-z+A-Z+]")` exists and `parseInt` reads it as the value of the last run of digits |
| Coords.RowRunIsDigits | src/edu/cs3500/spreadsheets/model/Coord.java:65-74 | in an alphanumeric name, the last run between letters consists of digits only |
| Coords.CoordStringToCoordIsScan | src/edu/cs3500/spreadsheets/model/Coord.java:61-80 | for every string, the split-based parser equals the scan-based reference parser: the same coordinate and the same error kind |
| Coords.ScansOfWellFormed | src/edu/cs3500/spreadsheets/model/Coord.java:65-74 | on letters followed by digits that do not start with '0', the scans find exactly the letters and exactly the digits |
| Coords.CoordStringToCoordWellFormed | src/edu/cs3500/spreadsheets/model/Coord.java:61-80 | letters followed by digits that do not start with '0' parse to (index of the letters, value of the digits), and both are >= 1 |
| Coords.CoordStringToCoord | src/edu/cs3500/spreadsheets/model/Coord.java:61-80 | no ensures; the parser with both splits, in the Java order of checks. Its properties are `CoordStringToCoordIsScan`, `CoordStringToCoordWellFormed`, `CoordStringToCoordOfToString` and `CoordStringToCoordRejects` |
| Coords.ScanCoordString | src/edu/cs3500/spreadsheets/model/Coord.java:61-80 | no ensures; the scan-based reference parser. `CoordStringToCoordIsScan` proves it equal to `CoordStringToCoord` |
| Coords.ToString | src/edu/cs3500/spreadsheets/model/Coord.java:83-85 | no ensures; the column name followed by the row in decimal. Its properties are `CoordStringToCoordOfToString` and `ToStringOfCoordString` |
| Coords.CoordStringToCoordOfToString | src/edu/cs3500/spreadsheets/model/Coord.java:61-85 | parsing the `toString` of any valid coordinate gives that coordinate back |
| Coords.ToStringOfCoordString | src/edu/cs3500/spreadsheets/model/Coord.java:61-85 | the `toString` of a parsed well-formed name is the name with its letters in capitals |
| Coords.CoordStringToCoordRejects | src/edu/cs3500/spreadsheets/model/Coord.java:61-80 | these inputs fail: null (null error), a non-alphanumeric name (malformed error), an all-letter name, and a name starting with a digit 1-9; every accepted coordinate is valid |
| Coords.CoordStringToCoordOfB12 | src/edu/cs3500/spreadsheets/model/Coord.java:61-80 | "B12" gives column 2, row 12 |
| Coords.CoordStringToCoordOfAa1 | src/edu/cs3500/spreadsheets/model/Coord.java:61-80 | "aa1" gives column 27, row 1 |
| Coords.ScanRejectsShapes | src/edu/cs3500/spreadsheets/model/Coord.java:65-74 | the reference parser rejects "" (row), "B" and "12" (empty split) and "B 1" (malformed) |
| Coords.CoordStringToCoordRejectsExamples | src/edu/cs3500/spreadsheets/model/Coord.java:61-80 | "" fails on the row, "B" and "12" fail on an empty split, "B 1" is malformed |
| Coords.CoordStringToCoordRejectsNonPositive | src/edu/cs3500/spreadsheets/model/Coord.java:70-79 | "12B" gives column 0 and "B0" gives row 0, and the constructor rejects both |
| Coords.PiecesOf12B | src/edu/cs3500/spreadsheets/model/Coord.java:70-71 | "12B" is alphanumeric and mixed; its column text is "" |
| Coords.PiecesOfB0 | src/edu/cs3500/spreadsheets/model/Coord.java:73-74 | "B0" is alphanumeric and mixed; its row text is "0", with value 0 |
| Coords.CoordStringToCoordZerosInColumn | src/edu/cs3500/spreadsheets/model/Coord.java:61-80 | for every non-empty name of letters, then any run of zeros, then digits starting with 1-9, the parse is the constructor applied to the index of the letters with the zeros and the value of the zeros with the digits |
| Coords.ValuesOfB012 | src/edu/cs3500/spreadsheets/model/Coord.java:31-39 | "B0" has index 36, and "012" has value 12 |
| Coords.CoordStringToCoordZeroInColumn | src/edu/cs3500/spreadsheets/model/Coord.java:70-79 | "B012" parses to (36, 12), because the '0' is folded into the column |
| Coords.PiecesOfB1A2 | src/edu/cs3500/spreadsheets/model/Coord.java:70-74 | in "B1A2" the column text is "B" and the row text is "2" |
| Coords.CoordStringToCoordInterleaved | src/edu/cs3500/spreadsheets/model/Coord.java:70-79 | "B1A2" is accepted as column 2, row 2 |
| JavaStrings.JavaSplit | src/edu/cs3500/spreadsheets/model/Coord.java:70-73 | no ensures; `split` on a one-character class. Its properties are `JavaSplitEmpty`, `JavaSplitFirst`, `JavaSplitLast` and `DropTrailingEmptyKeeps` |
| JavaStrings.ToUpper | src/edu/cs3500/spreadsheets/model/Coord.java:32 | no ensures; ASCII `toUpperCase`. Its properties are `ToUpperOfCapitals` and `NameToIndexIgnoresCase` |
| JavaStrings.ParseInt | src/edu/cs3500/spreadsheets/model/Coord.java:74 | no ensures; `Integer.parseInt` with an optional sign. Its properties are `ParseIntOfDigits` and `ParseIntOfString` |
| JavaStrings.IntToString | src/edu/cs3500/spreadsheets/model/Coord.java:84 | no ensures; the decimal form of an `int`, with '-' for negative values. Its property is `ParseIntOfString` |
| JavaStrings.DropTrailingEmptyKeeps | src/edu/cs3500/spreadsheets/model/Coord.java:70-73 | `split` keeps a prefix of the pieces that does not end in "", and everything it drops is "" |
| JavaStrings.JavaSplitEmpty | src/edu/cs3500/spreadsheets/model/Coord.java:70-73 | `split` on a class returns no pieces exactly when the string is non-empty and every character is in the class |
| JavaStrings.JavaSplitFirst | src/edu/cs3500/spreadsheets/model/Coord.java:70-71 | when `split` returns pieces, the first one is the text before the first character of the class |
| JavaStrings.JavaSplitLast | src/edu/cs3500/spreadsheets/model/Coord.java:73-74 | when `split` returns pieces, the last one is the last maximal run outside the class |
| JavaStrings.SplitKeptPieces | src/edu/cs3500/spreadsheets/model/Coord.java:70-73 | after trailing empty pieces are dropped, some piece remains exactly when some character is outside the class, and the last remaining piece is the last run outside the class |
| JavaStrings.SplitPiecesNoMatch | src/edu/cs3500/spreadsheets/model/Coord.java:70-73 | a string with no character of the class is one piece |
| JavaStrings.SplitPiecesFirst | src/edu/cs3500/spreadsheets/model/Coord.java:70-71 | the first piece is the text before the first character of the class |
| JavaStrings.SplitPiecesLast | src/edu/cs3500/spreadsheets/model/Coord.java:73-74 | the last piece is the longest suffix with no character of the class |
| JavaStrings.LastRunWithin | src/edu/cs3500/spreadsheets/model/Coord.java:73-74 | every character of the last run occurs in the string |
| JavaStrings.PrefixBeforeConcat | src/edu/cs3500/spreadsheets/model/Coord.java:70-71 | when a separator-free part is followed by a separator, the first piece is that part |
| JavaStrings.LastRunConcat | src/edu/cs3500/spreadsheets/model/Coord.java:73-74 | when a non-empty separator-free part follows a separator (or starts the string), the last run is that part |
| JavaStrings.ParseIntOfDigits | src/edu/cs3500/spreadsheets/model/Coord.java:74 | `parseInt` of a non-empty digit string is its decimal value |
| JavaStrings.DigitsValueOfDecimal | src/edu/cs3500/spreadsheets/model/Coord.java:84 | the decimal form of n >= 0 reads back as n |
| JavaStrings.DecimalOfDigitsValue | src/edu/cs3500/spreadsheets/model/Coord.java:84 | a digit string with no leading zero (or "0") is the decimal form of its value |
| JavaStrings.DigitsValuePositive | src/edu/cs3500/spreadsheets/model/Coord.java:74-79 | a digit string with no leading zero has a value >= 1 |
| JavaStrings.ParseIntOfString | src/edu/cs3500/spreadsheets/model/Coord.java:74-84 | `parseInt` reads back the decimal form of every integer, negative ones included |

## Left out

- `hashCode` (lines 100-103) is not modelled. Its value is the library formula `31 * (31 + col) + row` with 32-bit `int` wrap-around; equal coordinates are equal values here, so they would hash alike.
- The `this == o` shortcut in `equals` is not modelled separately. A coordinate is a value, so identity coincides with equality of fields.
- Coords.ColNameToIndex: a null name, on which Java throws `NullPointerException` at line 32, is not modelled, because the parameter is a `string`; `coordStringToCoord` only passes it a piece of `split`, which is never null. The same holds for Coords.NameToIndex.
- Coords.ColNameToIndex: does not model 32-bit `int` overflow for column names longer than six letters, because integers are unbounded here.
- JavaStrings.ParseInt: does not model the `NumberFormatException` that Java throws for values outside the 32-bit range, because integers are unbounded here.
- `Integer.parseInt` also accepts non-ASCII Unicode digits, and `toUpperCase` maps non-ASCII letters. Both are left out. In `coordStringToCoord` such characters never get that far, because the `^[a-zA-Z0-9]*$` check rejects them first; `colNameToIndex` is public, though, and there only ASCII input is modelled.
- `toUpperCase()` follows the default locale. The model assumes a locale that maps 'a'..'z' to 'A'..'Z'; under a Turkish locale 'i' becomes 'İ', and `colNameToIndex("i")` would not be 9.
- The regular-expression engine is not modelled. `split` is modelled only for the two one-character classes the parser uses, `[1-9]` and `[a-z+A-Z+]`, and `matches` only for the one alphanumeric pattern.
- Exception classes and messages are reduced to the five `CoordError` kinds.
- The `WorksheetModel` that uses coordinates is not part of this model.
