/**
 * A spreadsheet cell coordinate, `Coord`: a 1-based (column, row) pair, the
 * letter names of columns (bijective base 26: A = 1, ..., Z = 26, AA = 27, ...),
 * the parser of cell names such as "B12" and the formatter back to them.
 */
module Coords {
  import opened Wrappers
  import opened JavaStrings

  /** A cell coordinate; the constructor lets through only `Valid()` ones. */
  datatype Coord = Coord(col: int, row: int)
  {
    predicate Valid()
    {
      col >= 1 && row >= 1
    }
  }

  /** What the Java code throws: one kind per `throw`, and the uncaught array index error. */
  datatype CoordError =
    | NonPositive       // a row or column below 1 reached the constructor
    | NullName          // the cell name was null
    | MalformedSymbol   // the cell name holds a character outside [a-zA-Z0-9]
    | InvalidRow        // Integer.parseInt rejected the row part
    | IndexOutOfBounds  // an empty result of String.split was indexed

  type CoordResult = Result<Coord, CoordError>

  /** `new Coord(col, row)`: fails exactly when a component is below 1. */
  function NewCoord(col: int, row: int): (r: CoordResult)
    ensures r.Ok? <==> col >= 1 && row >= 1
    ensures r.Ok? ==> r.value.col == col && r.value.row == row && r.value.Valid()
    ensures r.Err? ==> r.error == NonPositive
  {
    if row < 1 || col < 1 then Err(NonPositive) else Ok(Coord(col, row))
  }

  /** The argument of `equals(Object)`: null, a `Coord`, or an object of some other class. */
  datatype Object = Null | CoordObject(coord: Coord) | OtherObject

  /** `c.equals(o)`: true exactly for a `Coord` with the same row and column. */
  function Equals(c: Coord, o: Object): (r: bool)
    ensures r <==> o == CoordObject(c)
  {
    match o
    case Null => false
    case OtherObject => false
    case CoordObject(d) => c.row == d.row && c.col == d.col
  }

  // ---------------------------------------------------------------------------
  // Column names

  predicate IsAsciiLetter(c: char)
  {
    'a' <= c <= 'z' || 'A' <= c <= 'Z'
  }

  predicate AllCapitals(s: string)
  {
    forall i :: 0 <= i < |s| ==> 'A' <= s[i] <= 'Z'
  }

  /** The contribution `c - 'A' + 1` of one character to a column index. */
  function LetterValue(c: char): int
  {
    c as int - 'A' as int + 1
  }

  /** The capital for digit `d` of a column name (0 is 'A', 25 is 'Z'). */
  function Letter(d: int): char
    requires 0 <= d < 26
  {
    ('A' as int + d) as char
  }

  /** The left fold `ans = ans * 26 + LetterValue(c)` over `s`, starting from 0. */
  function FoldColumn(s: string): int
  {
    if s == [] then 0 else FoldColumn(s[..|s| - 1]) * 26 + LetterValue(s[|s| - 1])
  }

  /** `colNameToIndex(name)`: the column fold over the upper-cased name. */
  function NameToIndex(name: string): (r: int)
    ensures name == [] ==> r == 0
  {
    FoldColumn(ToUpper(name))
  }

  /**
   * `colIndexToName(index)`: the bijective base-26 name of `index`, most
   * significant letter first, and "" when `index` is not positive.
   */
  function IndexToName(index: int): (s: string)
    ensures AllCapitals(s)
    ensures |s| > 0 <==> index >= 1
  {
    if index <= 0 then "" else IndexToName((index - 1) / 26) + [Letter((index - 1) % 26)]
  }

  /** The loop of `colNameToIndex`. */
  method ColNameToIndex(name: string) returns (ans: int)
    ensures ans == NameToIndex(name)
  {
    var upper := ToUpper(name);
    ans := 0;
    for i := 0 to |upper|
      invariant ans == FoldColumn(upper[..i])
    {
      assert upper[..i + 1][..i] == upper[..i];
      ans := ans * 26;
      ans := ans + (upper[i] as int - 'A' as int + 1);
    }
    assert upper[..|upper|] == upper;
  }

  /** One step of the loop of `colIndexToName`: `(index - colNum) / 26` is `(index - 1) / 26`. */
  lemma NameLoopStep(index: int)
    requires index >= 1
    ensures (index - (index - 1) % 26) / 26 == (index - 1) / 26
  {
    var q, d := (index - 1) / 26, (index - 1) % 26;
    assert index - d == q * 26 + 1;
  }

  /** The loop of `colIndexToName`, which prepends one letter per step. */
  method ColIndexToName(index: int) returns (name: string)
    ensures name == IndexToName(index)
  {
    var i := index;
    var ans := "";
    while i > 0
      invariant IndexToName(i) + ans == IndexToName(index)
    {
      var colNum := (i - 1) % 26;
      NameLoopStep(i);
      assert IndexToName(i) == IndexToName((i - colNum) / 26) + [Letter(colNum)];
      ans := [('A' as int + colNum) as char] + ans;
      i := (i - colNum) / 26;
    }
    name := ans;
  }

  lemma ToUpperOfCapitals(s: string)
    requires AllCapitals(s)
    ensures ToUpper(s) == s
  {
  }

  /** Folding the name of a non-negative index gives the index back. */
  lemma {:induction false} FoldOfName(n: int)
    requires n >= 0
    ensures FoldColumn(IndexToName(n)) == n
  {
    if n >= 1 {
      var s := IndexToName(n);
      var q := (n - 1) / 26;
      assert s[..|s| - 1] == IndexToName(q);
      assert LetterValue(s[|s| - 1]) == (n - 1) % 26 + 1;
      FoldOfName(q);
    }
  }

  /** Division by 26 undoes `q * 26 + r` for a digit `r` in base 26. */
  lemma DivModOf26(q: int, r: int)
    requires 0 <= r < 26
    ensures (q * 26 + r) / 26 == q && (q * 26 + r) % 26 == r
  {
  }

  /** The name of a fold of capitals is those capitals, and a non-empty fold is positive. */
  lemma {:induction false} NameOfFold(s: string)
    requires AllCapitals(s)
    ensures FoldColumn(s) >= 0 && (s != [] ==> FoldColumn(s) >= 1)
    ensures IndexToName(FoldColumn(s)) == s
  {
    if s != [] {
      var p, c := s[..|s| - 1], s[|s| - 1];
      assert AllCapitals(p);
      NameOfFold(p);
      var n, d := FoldColumn(s), LetterValue(c);
      assert n - 1 == FoldColumn(p) * 26 + (d - 1);
      DivModOf26(FoldColumn(p), d - 1);
      assert Letter(d - 1) == c;
      assert s == p + [c];
    }
  }

  /** `colNameToIndex(colIndexToName(n)) == n` for every positive `n`. */
  lemma NameToIndexOfName(n: int)
    requires n >= 1
    ensures NameToIndex(IndexToName(n)) == n
  {
    ToUpperOfCapitals(IndexToName(n));
    FoldOfName(n);
  }

  /**
   * Every non-empty name of ASCII letters has a positive index, and the name
   * of that index is the name in capitals; so names and indices are in bijection.
   */
  lemma NameOfNameToIndex(s: string)
    requires s != [] && forall i :: 0 <= i < |s| ==> IsAsciiLetter(s[i])
    ensures NameToIndex(s) >= 1
    ensures IndexToName(NameToIndex(s)) == ToUpper(s)
    ensures AllCapitals(s) ==> IndexToName(NameToIndex(s)) == s
  {
    NameOfFold(ToUpper(s));
    if AllCapitals(s) {
      ToUpperOfCapitals(s);
    }
  }

  /** Distinct capital names have distinct indices. */
  lemma NameToIndexInjective(s: string, t: string)
    requires s != [] && AllCapitals(s) && t != [] && AllCapitals(t)
    requires NameToIndex(s) == NameToIndex(t)
    ensures s == t
  {
    NameOfNameToIndex(s);
    NameOfNameToIndex(t);
  }

  /** `colNameToIndex` does not depend on the case of the letters. */
  lemma NameToIndexIgnoresCase(s: string)
    ensures NameToIndex(ToUpper(s)) == NameToIndex(s)
  {
    assert ToUpper(ToUpper(s)) == ToUpper(s);
  }

  lemma IndexToNameExamples()
    ensures IndexToName(0) == "" && IndexToName(-5) == ""
    ensures IndexToName(1) == "A" && IndexToName(26) == "Z" && IndexToName(27) == "AA"
    ensures IndexToName(52) == "AZ" && IndexToName(53) == "BA"
    ensures IndexToName(702) == "ZZ" && IndexToName(703) == "AAA"
  {
    assert IndexToName(1) == IndexToName(0) + [Letter(0)] == "A";
    assert IndexToName(2) == IndexToName(0) + [Letter(1)] == "B";
    assert IndexToName(26) == IndexToName(0) + [Letter(25)] == "Z";
    assert IndexToName(27) == IndexToName(1) + [Letter(0)] == "AA";
    assert IndexToName(52) == IndexToName(1) + [Letter(25)] == "AZ";
    assert IndexToName(53) == IndexToName(2) + [Letter(0)] == "BA";
    assert IndexToName(702) == IndexToName(26) + [Letter(25)] == "ZZ";
    assert IndexToName(703) == IndexToName(27) + [Letter(0)] == "AAA";
  }

  lemma NameToIndexExamples()
    ensures NameToIndex("b") == NameToIndex("B") == 2
    ensures NameToIndex("AA") == 27 && NameToIndex("ZZ") == 702 && NameToIndex("AAA") == 703
  {
    IndexToNameExamples();
    NameToIndexOfName(2);
    NameToIndexOfName(27);
    NameToIndexOfName(702);
    NameToIndexOfName(703);
    assert ToUpper("b") == "B";
  }

  // ---------------------------------------------------------------------------
  // Cell names

  predicate IsAlphanumeric(c: char)
  {
    'a' <= c <= 'z' || 'A' <= c <= 'Z' || '0' <= c <= '9'
  }

  /** `s.matches("^[a-zA-Z0-9]*$")`. */
  predicate AllAlphanumeric(s: string)
  {
    forall i :: 0 <= i < |s| ==> IsAlphanumeric(s[i])
  }

  /**
   * `coordStringToCoord(cellName)`, with `None` for null: the column is the
   * index of the first piece of `split("[1-9]")`, the row the value of the
   * last piece of `split("[a-z+A-Z+]")`, and the constructor checks both.
   */
  function CoordStringToCoord(cellName: Option<string>): CoordResult
  {
    match cellName
    case None => Err(NullName)
    case Some(s) =>
      if !AllAlphanumeric(s) then Err(MalformedSymbol)
      else
        var colLetter := JavaSplit(s, NonZeroDigits);
        if |colLetter| == 0 then Err(IndexOutOfBounds)
        else
          var col := NameToIndex(colLetter[0]);
          var rowLetter := JavaSplit(s, Letters);
          if |rowLetter| == 0 then Err(IndexOutOfBounds)
          else
            match ParseInt(rowLetter[|rowLetter| - 1])
            case None => Err(InvalidRow)
            case Some(row) => NewCoord(col, row)
  }

  /** In an alphanumeric string, the last run between letters is made of digits. */
  lemma RowRunIsDigits(s: string)
    requires AllAlphanumeric(s)
    ensures AllDigits(LastRun(s, Letters))
  {
    var r := LastRun(s, Letters);
    LastRunWithin(s, Letters);
    forall i | 0 <= i < |r| ensures IsDigit(r[i]) {
      assert r[i] in s;
      var j :| 0 <= j < |s| && s[j] == r[i];
      assert IsAlphanumeric(s[j]) && !InClass(Letters, r[i]);
    }
  }

  /**
   * The same parse written as two scans instead of two splits: the column is
   * the index of everything before the first digit 1-9 (zeros included), the
   * row the value of the last run of digits.
   */
  function ScanCoordString(s: string): CoordResult
  {
    if !AllAlphanumeric(s) then Err(MalformedSymbol)
    else if s != [] && AllInClass(s, NonZeroDigits) then Err(IndexOutOfBounds)
    else if s == [] then Err(InvalidRow)
    else if AllInClass(s, Letters) then Err(IndexOutOfBounds)
    else
      RowRunIsDigits(s);
      NewCoord(NameToIndex(PrefixBefore(s, NonZeroDigits)), DigitsValue(LastRun(s, Letters)))
  }

  /** The first piece of `split("[1-9]")` is everything before the first digit 1-9. */
  lemma ColumnPiece(s: string)
    ensures |JavaSplit(s, NonZeroDigits)| == 0 <==> s != [] && AllInClass(s, NonZeroDigits)
    ensures |JavaSplit(s, NonZeroDigits)| > 0 ==> JavaSplit(s, NonZeroDigits)[0] == PrefixBefore(s, NonZeroDigits)
  {
    JavaSplitEmpty(s, NonZeroDigits);
    if |JavaSplit(s, NonZeroDigits)| > 0 {
      JavaSplitFirst(s, NonZeroDigits);
    }
  }

  /** The last piece of `split("[a-z+A-Z+]")` parses to the value of the last run of digits. */
  lemma RowPiece(s: string)
    requires AllAlphanumeric(s) && s != [] && !AllInClass(s, Letters)
    ensures AllDigits(LastRun(s, Letters))
    ensures var ps := JavaSplit(s, Letters);
      |ps| > 0 && ParseInt(ps[|ps| - 1]) == Some(DigitsValue(LastRun(s, Letters)))
  {
    JavaSplitEmpty(s, Letters);
    JavaSplitLast(s, Letters);
    RowRunIsDigits(s);
    ParseIntOfDigits(LastRun(s, Letters));
  }

  /** The split-based parser and the scan-based one agree on every string. */
  lemma CoordStringToCoordIsScan(s: string)
    ensures CoordStringToCoord(Some(s)) == ScanCoordString(s)
  {
    if !AllAlphanumeric(s) {
    } else if s != [] && AllInClass(s, NonZeroDigits) {
      ColumnPiece(s);
    } else if s == [] {
      assert JavaSplit(s, NonZeroDigits) == [""] == JavaSplit(s, Letters);
    } else if AllInClass(s, Letters) {
      ColumnPiece(s);
      JavaSplitEmpty(s, Letters);
    } else {
      ColumnPiece(s);
      RowPiece(s);
    }
  }

  /** The scans on letters followed by digits find the letters and the digits. */
  lemma ScansOfWellFormed(letters: string, digits: string)
    requires letters != [] && forall i :: 0 <= i < |letters| ==> IsAsciiLetter(letters[i])
    requires digits != [] && AllDigits(digits) && digits[0] != '0'
    ensures var s := letters + digits;
      && AllAlphanumeric(s) && !AllInClass(s, NonZeroDigits) && !AllInClass(s, Letters)
      && PrefixBefore(s, NonZeroDigits) == letters && LastRun(s, Letters) == digits
  {
    var s := letters + digits;
    assert NoneInClass(letters, NonZeroDigits) by {
      forall i | 0 <= i < |letters| ensures !InClass(NonZeroDigits, letters[i]) {
        assert IsAsciiLetter(letters[i]);
      }
    }
    assert NoneInClass(digits, Letters) by {
      forall i | 0 <= i < |digits| ensures !InClass(Letters, digits[i]) {
        assert IsDigit(digits[i]);
      }
    }
    assert IsDigit(digits[0]) && IsAsciiLetter(letters[|letters| - 1]);
    PrefixBeforeConcat(letters, digits, NonZeroDigits);
    LastRunConcat(letters, digits, Letters);
    assert AllAlphanumeric(s) by {
      forall i | 0 <= i < |s| ensures IsAlphanumeric(s[i]) {
        if i < |letters| {
          assert s[i] == letters[i] && IsAsciiLetter(letters[i]);
        } else {
          assert s[i] == digits[i - |letters|] && IsDigit(digits[i - |letters|]);
        }
      }
    }
    assert s[0] == letters[0] && IsAsciiLetter(letters[0]);
    assert s[|letters|] == digits[0];
  }

  /**
   * A cell name of letters followed by digits that do not start with '0'
   * parses to the index of the letters and the value of the digits.
   */
  lemma CoordStringToCoordWellFormed(letters: string, digits: string)
    requires letters != [] && forall i :: 0 <= i < |letters| ==> IsAsciiLetter(letters[i])
    requires digits != [] && AllDigits(digits) && digits[0] != '0'
    ensures NameToIndex(letters) >= 1 && DigitsValue(digits) >= 1
    ensures CoordStringToCoord(Some(letters + digits))
         == Ok(Coord(NameToIndex(letters), DigitsValue(digits)))
  {
    ScansOfWellFormed(letters, digits);
    CoordStringToCoordIsScan(letters + digits);
    NameOfNameToIndex(letters);
    DigitsValuePositive(digits);
  }

  /** `toString()`: the column name followed by the row in decimal. */
  function ToString(c: Coord): string
  {
    IndexToName(c.col) + IntToString(c.row)
  }

  /** Parsing the name of a coordinate gives the coordinate back. */
  lemma CoordStringToCoordOfToString(c: Coord)
    requires c.Valid()
    ensures CoordStringToCoord(Some(ToString(c))) == Ok(c)
  {
    var letters, digits := IndexToName(c.col), NatToDecimal(c.row);
    assert ToString(c) == letters + digits;
    assert forall i :: 0 <= i < |letters| ==> IsAsciiLetter(letters[i]);
    CoordStringToCoordWellFormed(letters, digits);
    NameToIndexOfName(c.col);
    DigitsValueOfDecimal(c.row);
  }

  /** Formatting a parsed well-formed cell name gives it back in capitals. */
  lemma ToStringOfCoordString(letters: string, digits: string)
    requires letters != [] && forall i :: 0 <= i < |letters| ==> IsAsciiLetter(letters[i])
    requires digits != [] && AllDigits(digits) && digits[0] != '0'
    ensures var r := CoordStringToCoord(Some(letters + digits));
      r.Ok? && ToString(r.value) == ToUpper(letters) + digits
  {
    CoordStringToCoordWellFormed(letters, digits);
    NameOfNameToIndex(letters);
    DecimalOfDigitsValue(digits);
  }

  /** The inputs `coordStringToCoord` rejects, and the validity of what it accepts. */
  lemma CoordStringToCoordRejects(s: string)
    ensures CoordStringToCoord(None) == Err(NullName)
    ensures !AllAlphanumeric(s) ==> CoordStringToCoord(Some(s)) == Err(MalformedSymbol)
    ensures AllInClass(s, Letters) ==> CoordStringToCoord(Some(s)).Err?
    ensures s != [] && InClass(NonZeroDigits, s[0]) ==> CoordStringToCoord(Some(s)).Err?
    ensures CoordStringToCoord(Some(s)).Ok? ==> CoordStringToCoord(Some(s)).value.Valid()
  {
    CoordStringToCoordIsScan(s);
    if s != [] && InClass(NonZeroDigits, s[0]) && !AllInClass(s, NonZeroDigits) {
      assert PrefixBefore(s, NonZeroDigits) == [];
    }
  }

  lemma ValuesOfB12()
    ensures NameToIndex("B") == 2 && DigitsValue("12") == 12
  {
    assert ToUpper("B") == "B" && "B"[..0] == "";
    assert "12"[..1] == "1" && "1"[..0] == "";
  }

  lemma ValuesOfAa1()
    ensures NameToIndex("aa") == 27 && DigitsValue("1") == 1
  {
    assert ToUpper("aa") == "AA" && "AA"[..1] == "A" && "A"[..0] == "";
    assert "1"[..0] == "";
  }

  /** "B12" is column 2, row 12. */
  lemma CoordStringToCoordOfB12()
    ensures CoordStringToCoord(Some("B12")) == Ok(Coord(2, 12))
  {
    ValuesOfB12();
    assert "B12" == "B" + "12";
    CoordStringToCoordWellFormed("B", "12");
  }

  /** The lower-case "aa1" is column 27, row 1. */
  lemma CoordStringToCoordOfAa1()
    ensures CoordStringToCoord(Some("aa1")) == Ok(Coord(27, 1))
  {
    ValuesOfAa1();
    assert "aa1" == "aa" + "1";
    CoordStringToCoordWellFormed("aa", "1");
  }

  /** The scans reject "", "B", "12" and "B 1" before any coordinate is built. */
  lemma ScanRejectsShapes()
    ensures ScanCoordString("") == Err(InvalidRow)
    ensures ScanCoordString("B") == Err(IndexOutOfBounds)
    ensures ScanCoordString("12") == Err(IndexOutOfBounds)
    ensures ScanCoordString("B 1") == Err(MalformedSymbol)
  {
    assert AllAlphanumeric("B") && AllInClass("B", Letters);
    assert AllAlphanumeric("12") && AllInClass("12", NonZeroDigits);
    assert !IsAlphanumeric("B 1"[1]);
  }

  lemma PiecesOf12B()
    ensures AllAlphanumeric("12B") && !AllInClass("12B", NonZeroDigits) && !AllInClass("12B", Letters)
    ensures PrefixBefore("12B", NonZeroDigits) == ""
  {
    assert !InClass(NonZeroDigits, "12B"[2]) && !InClass(Letters, "12B"[0]);
  }

  lemma PiecesOfB0()
    ensures AllAlphanumeric("B0") && !AllInClass("B0", NonZeroDigits) && !AllInClass("B0", Letters)
    ensures LastRun("B0", Letters) == "0" && DigitsValue("0") == 0
  {
    assert !InClass(NonZeroDigits, "B0"[0]) && !InClass(Letters, "B0"[1]);
    assert "B0" == "B" + "0";
    LastRunConcat("B", "0", Letters);
    assert "0"[..0] == "";
  }

  /** "12B" has column 0 and "B0" has row 0, which the constructor rejects. */
  lemma CoordStringToCoordRejectsNonPositive()
    ensures CoordStringToCoord(Some("12B")) == Err(NonPositive)
    ensures CoordStringToCoord(Some("B0")) == Err(NonPositive)
  {
    PiecesOf12B();
    RowRunIsDigits("12B");
    CoordStringToCoordIsScan("12B");
    PiecesOfB0();
    RowRunIsDigits("B0");
    CoordStringToCoordIsScan("B0");
  }

  /** The cell names `coordStringToCoord` turns down, each with its reason. */
  lemma CoordStringToCoordRejectsExamples()
    ensures CoordStringToCoord(Some("")) == Err(InvalidRow)
    ensures CoordStringToCoord(Some("B")) == Err(IndexOutOfBounds)
    ensures CoordStringToCoord(Some("12")) == Err(IndexOutOfBounds)
    ensures CoordStringToCoord(Some("B 1")) == Err(MalformedSymbol)
  {
    ScanRejectsShapes();
    CoordStringToCoordIsScan("");
    CoordStringToCoordIsScan("B");
    CoordStringToCoordIsScan("12");
    CoordStringToCoordIsScan("B 1");
  }

  /**
   * Zeros between the letters and the first digit 1-9 belong to the column:
   * letters `l`, zeros `z` and digits `d` starting with 1-9 parse as the
   * index of `l + z` and the value of `z + d`.
   */
  lemma CoordStringToCoordZerosInColumn(l: string, z: string, d: string)
    requires l != [] && forall i :: 0 <= i < |l| ==> IsAsciiLetter(l[i])
    requires forall i :: 0 <= i < |z| ==> z[i] == '0'
    requires d != [] && AllDigits(d) && d[0] != '0'
    ensures AllDigits(z + d)
    ensures CoordStringToCoord(Some(l + z + d))
         == NewCoord(NameToIndex(l + z), DigitsValue(z + d))
  {
    var s, lz, zd := l + z + d, l + z, z + d;
    assert s == lz + d == l + zd;
    assert AllDigits(zd) by {
      forall i | 0 <= i < |zd| ensures IsDigit(zd[i]) {
        if i < |z| { assert zd[i] == z[i]; } else { assert zd[i] == d[i - |z|]; }
      }
    }
    assert NoneInClass(lz, NonZeroDigits) by {
      forall i | 0 <= i < |lz| ensures !InClass(NonZeroDigits, lz[i]) {
        if i < |l| { assert lz[i] == l[i] && IsAsciiLetter(l[i]); } else { assert lz[i] == z[i - |l|]; }
      }
    }
    assert NoneInClass(zd, Letters) by {
      forall i | 0 <= i < |zd| ensures !InClass(Letters, zd[i]) {
        assert IsDigit(zd[i]);
      }
    }
    assert d[0] != '0' && IsDigit(d[0]);
    PrefixBeforeConcat(lz, d, NonZeroDigits);
    assert IsAsciiLetter(l[|l| - 1]);
    LastRunConcat(l, zd, Letters);
    assert AllAlphanumeric(s) by {
      forall i | 0 <= i < |s| ensures IsAlphanumeric(s[i]) {
        if i < |l| {
          assert s[i] == l[i] && IsAsciiLetter(l[i]);
        } else {
          assert s[i] == zd[i - |l|] && IsDigit(zd[i - |l|]);
        }
      }
    }
    assert s[0] == l[0] && IsAsciiLetter(l[0]);
    assert s[|lz|] == d[0];
    RowRunIsDigits(s);
    CoordStringToCoordIsScan(s);
  }

  lemma ValuesOfB012()
    ensures NameToIndex("B0") == 36 && DigitsValue("012") == 12
  {
    assert ToUpper("B0") == "B0";
    assert "B0"[..1] == "B" && "B"[..0] == "";
    assert "012"[..2] == "01" && "01"[..1] == "0" && "0"[..0] == "";
  }

  /**
   * A '0' before the first digit 1-9 is folded into the column, as
   * '0' - 'A' + 1 = -16: "B012" is column 2 * 26 - 16 = 36, row 12.
   */
  lemma CoordStringToCoordZeroInColumn()
    ensures CoordStringToCoord(Some("B012")) == Ok(Coord(36, 12))
  {
    ValuesOfB012();
    assert "B" + "0" == "B0" && "0" + "12" == "012" && "B0" + "12" == "B012";
    CoordStringToCoordZerosInColumn("B", "0", "12");
  }

  lemma PiecesOfB1A2()
    ensures AllAlphanumeric("B1A2") && !AllInClass("B1A2", NonZeroDigits) && !AllInClass("B1A2", Letters)
    ensures PrefixBefore("B1A2", NonZeroDigits) == "B" && LastRun("B1A2", Letters) == "2"
  {
    var s := "B1A2";
    assert !InClass(NonZeroDigits, s[0]) && !InClass(Letters, s[3]);
    assert s == "B" + "1A2" && "1A2"[0] == '1';
    PrefixBeforeConcat("B", "1A2", NonZeroDigits);
    assert s == "B1A" + "2";
    LastRunConcat("B1A", "2", Letters);
  }

  /** Letters after a digit are not rejected: "B1A2" is column B, row 2. */
  lemma CoordStringToCoordInterleaved()
    ensures CoordStringToCoord(Some("B1A2")) == Ok(Coord(2, 2))
  {
    PiecesOfB1A2();
    assert NameToIndex("B") == 2 && DigitsValue("2") == 2 by {
      assert ToUpper("B") == "B" && "B"[..0] == "" && "2"[..0] == "";
    }
    RowRunIsDigits("B1A2");
    CoordStringToCoordIsScan("B1A2");
  }
}
