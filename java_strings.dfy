/**
 * The pieces of java.lang.String and java.lang.Integer that Coord.java relies on,
 * over ASCII text: String.split on a one-character class (with the removal of
 * trailing empty strings), String.toUpperCase, Integer.parseInt and Integer.toString.
 * Each is given as a function, and the scans that the parser really depends on
 * (the part before the first separator, the last run between separators) are
 * proved to be what String.split yields.
 */
module JavaStrings {
  import opened Wrappers

  /** The two character classes Coord.java splits on: `[1-9]` and `[a-z+A-Z+]`. */
  datatype CharClass = NonZeroDigits | Letters

  /** Membership in a class; `[a-z+A-Z+]` contains '+' as well as the letters. */
  predicate InClass(k: CharClass, c: char)
  {
    match k
    case NonZeroDigits => '1' <= c <= '9'
    case Letters => 'a' <= c <= 'z' || 'A' <= c <= 'Z' || c == '+'
  }

  predicate NoneInClass(s: string, k: CharClass)
  {
    forall i :: 0 <= i < |s| ==> !InClass(k, s[i])
  }

  predicate AllInClass(s: string, k: CharClass)
  {
    forall i :: 0 <= i < |s| ==> InClass(k, s[i])
  }

  // ---------------------------------------------------------------------------
  // String.split

  /** The pieces of `s` around every character of class `k`, every empty piece kept. */
  function SplitPieces(s: string, k: CharClass): (ps: seq<string>)
    ensures |ps| >= 1
  {
    if s == [] then [""] else ConsPiece(s[0], SplitPieces(s[1..], k), k)
  }

  /** The pieces of `[x] + t` from those of `t`: a separator opens a new first piece. */
  function ConsPiece(x: char, rest: seq<string>, k: CharClass): (ps: seq<string>)
    requires |rest| >= 1
    ensures |ps| >= 1
  {
    if InClass(k, x) then [""] + rest else [[x] + rest[0]] + rest[1..]
  }

  /** The pieces with `c` appended to the last one. */
  function ExtendLast(ps: seq<string>, c: char): seq<string>
    requires |ps| >= 1
  {
    ps[..|ps| - 1] + [ps[|ps| - 1] + [c]]
  }

  /** Drops the trailing empty strings, as String.split does when its limit is zero. */
  function DropTrailingEmpty(ps: seq<string>): seq<string>
  {
    if ps == [] then []
    else if ps[|ps| - 1] == "" then DropTrailingEmpty(ps[..|ps| - 1])
    else ps
  }

  /**
   * What is left is a prefix of the pieces that does not end in "", and all
   * that was dropped is "".
   */
  lemma {:induction false} DropTrailingEmptyKeeps(ps: seq<string>)
    ensures var r := DropTrailingEmpty(ps);
      && |r| <= |ps| && r == ps[..|r|]
      && (|r| > 0 ==> r[|r| - 1] != "")
      && (forall i :: |r| <= i < |ps| ==> ps[i] == "")
  {
    if ps != [] && ps[|ps| - 1] == "" {
      var init := ps[..|ps| - 1];
      DropTrailingEmptyKeeps(init);
      var r := DropTrailingEmpty(init);
      assert r == ps[..|r|];
    }
  }

  /**
   * `s.split(regex)` for a regex that is a single character class: the string
   * itself when nothing matches, and otherwise the pieces around the matches
   * without the trailing empty ones (a match at index 0 yields a leading "").
   */
  function JavaSplit(s: string, k: CharClass): seq<string>
  {
    if NoneInClass(s, k) then [s] else DropTrailingEmpty(SplitPieces(s, k))
  }

  // ---------------------------------------------------------------------------
  // Scans that describe what the parser takes out of a split

  /** The longest prefix of `s` with no character of class `k`. */
  function PrefixBefore(s: string, k: CharClass): (r: string)
    ensures r <= s && NoneInClass(r, k)
    ensures |r| < |s| ==> InClass(k, s[|r|])
  {
    if s == [] || InClass(k, s[0]) then [] else [s[0]] + PrefixBefore(s[1..], k)
  }

  /** The longest suffix of `s` with no character of class `k`. */
  function TrailingRun(s: string, k: CharClass): (r: string)
    ensures |r| <= |s| && NoneInClass(r, k)
  {
    if s == [] || InClass(k, s[|s| - 1]) then []
    else TrailingRun(s[..|s| - 1], k) + [s[|s| - 1]]
  }

  lemma {:induction false} TrailingRunIsSuffix(s: string, k: CharClass)
    ensures var r := TrailingRun(s, k); r == s[|s| - |r|..]
  {
    if s != [] && !InClass(k, s[|s| - 1]) {
      var init := s[..|s| - 1];
      TrailingRunIsSuffix(init, k);
      var r := TrailingRun(init, k);
      assert s == init + [s[|s| - 1]];
      assert s[|s| - |r| - 1..] == init[|init| - |r|..] + [s[|s| - 1]];
    }
  }

  /** The last maximal run of characters outside class `k`, or "" when there is none. */
  function LastRun(s: string, k: CharClass): (r: string)
    ensures NoneInClass(r, k)
    ensures r != [] <==> !AllInClass(s, k)
  {
    if s == [] then []
    else if InClass(k, s[|s| - 1]) then
      var r := LastRun(s[..|s| - 1], k);
      assert AllInClass(s, k) <==> AllInClass(s[..|s| - 1], k) by {
        if AllInClass(s[..|s| - 1], k) {
          forall i | 0 <= i < |s| ensures InClass(k, s[i]) {
            if i < |s| - 1 { assert s[i] == s[..|s| - 1][i]; }
          }
        }
      }
      r
    else
      TrailingRun(s, k)
  }

  /** Every character of the last run is a character of the string. */
  lemma {:induction false} LastRunWithin(s: string, k: CharClass)
    ensures forall i :: 0 <= i < |LastRun(s, k)| ==> LastRun(s, k)[i] in s
  {
    if s != [] {
      var init := s[..|s| - 1];
      if InClass(k, s[|s| - 1]) {
        LastRunWithin(init, k);
        var r := LastRun(init, k);
        assert LastRun(s, k) == r;
        forall i | 0 <= i < |r| ensures r[i] in s {
          assert r[i] in init;
          var j :| 0 <= j < |init| && init[j] == r[i];
          assert s[j] == init[j];
        }
      } else {
        var r := TrailingRun(s, k);
        TrailingRunIsSuffix(s, k);
        forall i | 0 <= i < |r| ensures r[i] in s {
          assert r[i] == s[|s| - |r| + i];
        }
      }
    }
  }

  /** Before a separator that follows a separator-free part, the prefix is that part. */
  lemma {:induction false} PrefixBeforeConcat(a: string, b: string, k: CharClass)
    requires NoneInClass(a, k) && b != [] && InClass(k, b[0])
    ensures PrefixBefore(a + b, k) == a
  {
    if a != [] {
      assert (a + b)[1..] == a[1..] + b;
      PrefixBeforeConcat(a[1..], b, k);
    }
  }

  lemma TrailingRunAppendOther(s: string, c: char, k: CharClass)
    requires !InClass(k, c)
    ensures TrailingRun(s + [c], k) == TrailingRun(s, k) + [c]
  {
    var t := s + [c];
    assert t[..|t| - 1] == s && t[|t| - 1] == c;
  }

  /** A separator-free tail after a separator (or alone) is the trailing run. */
  lemma {:induction false} TrailingRunConcat(a: string, b: string, k: CharClass)
    requires NoneInClass(b, k)
    requires a == [] || InClass(k, a[|a| - 1])
    ensures TrailingRun(a + b, k) == b
  {
    if b == [] {
      assert a + b == a;
    } else {
      var b', c := b[..|b| - 1], b[|b| - 1];
      assert b' + [c] == b && (a + b') + [c] == a + b;
      assert NoneInClass(b', k) by {
        forall i | 0 <= i < |b'| ensures !InClass(k, b'[i]) {
          assert b'[i] == b[i];
        }
      }
      TrailingRunConcat(a, b', k);
      TrailingRunAppendOther(a + b', c, k);
    }
  }

  /** A non-empty separator-free tail after a separator (or alone) is the last run. */
  lemma LastRunConcat(a: string, b: string, k: CharClass)
    requires b != [] && NoneInClass(b, k)
    requires a == [] || InClass(k, a[|a| - 1])
    ensures LastRun(a + b, k) == b
  {
    assert (a + b)[|a + b| - 1] == b[|b| - 1];
    TrailingRunConcat(a, b, k);
  }

  lemma {:induction false} SplitPiecesNoMatch(s: string, k: CharClass)
    requires NoneInClass(s, k)
    ensures SplitPieces(s, k) == [s]
  {
    if s != [] {
      SplitPiecesNoMatch(s[1..], k);
      assert [s[0]] + s[1..] == s;
    }
  }

  /** The first piece is everything before the first character of the class. */
  lemma {:induction false} SplitPiecesFirst(s: string, k: CharClass)
    ensures SplitPieces(s, k)[0] == PrefixBefore(s, k)
  {
    if s != [] && !InClass(k, s[0]) {
      SplitPiecesFirst(s[1..], k);
    }
  }

  /** Appending a separator opens a new, empty, last piece. */
  lemma {:induction false} SplitPiecesAppendSeparator(s: string, c: char, k: CharClass)
    requires InClass(k, c)
    ensures SplitPieces(s + [c], k) == SplitPieces(s, k) + [""]
  {
    if s == [] {
      assert [c][1..] == [];
    } else {
      assert (s + [c])[1..] == s[1..] + [c];
      SplitPiecesAppendSeparator(s[1..], c, k);
    }
  }

  /** Growing the first piece and extending the last one commute. */
  lemma ConsPieceExtendLast(x: char, rest: seq<string>, c: char, k: CharClass)
    requires |rest| >= 1
    ensures ConsPiece(x, ExtendLast(rest, c), k) == ExtendLast(ConsPiece(x, rest, k), c)
  {
    var n := |rest|;
    var rest' := ExtendLast(rest, c);
    var ps := ConsPiece(x, rest, k);
    if InClass(k, x) {
      assert ps[..|ps| - 1] == [""] + rest[..n - 1];
    } else if n == 1 {
      assert rest' == [rest[0] + [c]] && rest'[1..] == [];
      assert ps[..|ps| - 1] == [];
      assert ([x] + rest[0]) + [c] == [x] + (rest[0] + [c]);
    } else {
      assert rest'[0] == rest[0];
      assert rest'[1..] == rest[1..n - 1] + [rest[n - 1] + [c]];
      assert |ps| == n && rest[1..][..n - 2] == rest[1..n - 1];
      assert ps[..|ps| - 1] == [[x] + rest[0]] + rest[1..][..n - 2];
    }
  }

  /** Appending another character extends the last piece. */
  lemma {:induction false} SplitPiecesAppendOther(s: string, c: char, k: CharClass)
    requires !InClass(k, c)
    ensures SplitPieces(s + [c], k) == ExtendLast(SplitPieces(s, k), c)
  {
    if s == [] {
      assert s + [c] == [c] && [c][1..] == [];
      assert SplitPieces([c], k) == ConsPiece(c, [""], k) == [[c] + ""];
      assert "" + [c] == [c] + "" == [c];
    } else {
      var x, t := s[0], s[1..];
      assert (s + [c])[0] == x && (s + [c])[1..] == t + [c];
      SplitPiecesAppendOther(t, c, k);
      ConsPieceExtendLast(x, SplitPieces(t, k), c, k);
    }
  }

  /** The last piece is everything after the last character of the class. */
  lemma {:induction false} SplitPiecesLast(s: string, k: CharClass)
    ensures var ps := SplitPieces(s, k); ps[|ps| - 1] == TrailingRun(s, k)
  {
    if s != [] {
      var init, c := s[..|s| - 1], s[|s| - 1];
      assert init + [c] == s;
      if InClass(k, c) {
        SplitPiecesAppendSeparator(init, c, k);
      } else {
        SplitPiecesAppendOther(init, c, k);
        SplitPiecesLast(init, k);
      }
    }
  }

  lemma DropTrailingEmptyAppendEmpty(ps: seq<string>)
    ensures DropTrailingEmpty(ps + [""]) == DropTrailingEmpty(ps)
  {
    assert (ps + [""])[..|ps|] == ps;
  }

  /** SplitKeptPieces when the last character is a separator. */
  lemma SplitKeptPiecesSeparatorStep(init: string, c: char, k: CharClass)
    requires InClass(k, c)
    ensures DropTrailingEmpty(SplitPieces(init + [c], k)) == DropTrailingEmpty(SplitPieces(init, k))
    ensures LastRun(init + [c], k) == LastRun(init, k)
    ensures AllInClass(init + [c], k) <==> AllInClass(init, k)
  {
    var s := init + [c];
    assert s[..|s| - 1] == init;
    SplitPiecesAppendSeparator(init, c, k);
    DropTrailingEmptyAppendEmpty(SplitPieces(init, k));
    if AllInClass(init, k) {
      forall i | 0 <= i < |s| ensures InClass(k, s[i]) {
        if i < |init| { assert s[i] == init[i]; }
      }
    }
  }

  /** SplitKeptPieces when the last character is not a separator. */
  lemma SplitKeptPiecesOtherStep(s: string, k: CharClass)
    requires s != [] && !InClass(k, s[|s| - 1])
    ensures var r := DropTrailingEmpty(SplitPieces(s, k));
      |r| > 0 && r[|r| - 1] == LastRun(s, k)
  {
    SplitPiecesLast(s, k);
    var ps := SplitPieces(s, k);
    var t := TrailingRun(s, k);
    assert t == TrailingRun(s[..|s| - 1], k) + [s[|s| - 1]];
    assert ps[|ps| - 1] == t != "";
  }

  /**
   * After the trailing empty pieces are dropped, something is left exactly when
   * `s` has a character outside the class, and the last thing left is the last
   * run of such characters.
   */
  lemma {:induction false} SplitKeptPieces(s: string, k: CharClass)
    ensures var r := DropTrailingEmpty(SplitPieces(s, k));
      (|r| > 0 <==> !AllInClass(s, k)) && (|r| > 0 ==> r[|r| - 1] == LastRun(s, k))
  {
    if s != [] {
      var init, c := s[..|s| - 1], s[|s| - 1];
      assert init + [c] == s;
      if InClass(k, c) {
        SplitKeptPiecesSeparatorStep(init, c, k);
        SplitKeptPieces(init, k);
      } else {
        SplitKeptPiecesOtherStep(s, k);
      }
    }
  }

  /** `split` yields an empty array exactly when `s` is non-empty and made only of separators. */
  lemma JavaSplitEmpty(s: string, k: CharClass)
    ensures |JavaSplit(s, k)| == 0 <==> s != [] && AllInClass(s, k)
  {
    if !NoneInClass(s, k) {
      SplitKeptPieces(s, k);
    } else if s != [] {
      assert !InClass(k, s[0]);
    }
  }

  /** Element 0 of a non-empty `split` is everything before the first separator. */
  lemma JavaSplitFirst(s: string, k: CharClass)
    requires |JavaSplit(s, k)| > 0
    ensures JavaSplit(s, k)[0] == PrefixBefore(s, k)
  {
    SplitPiecesFirst(s, k);
    if NoneInClass(s, k) {
      SplitPiecesNoMatch(s, k);
    } else {
      DropTrailingEmptyKeeps(SplitPieces(s, k));
    }
  }

  /** The last element of a non-empty `split` is the last run between separators. */
  lemma JavaSplitLast(s: string, k: CharClass)
    requires |JavaSplit(s, k)| > 0
    ensures var ps := JavaSplit(s, k); ps[|ps| - 1] == LastRun(s, k)
  {
    if NoneInClass(s, k) {
      if s != [] {
        LastRunConcat([], s, k);
        assert [] + s == s;
      }
    } else {
      SplitKeptPieces(s, k);
    }
  }

  // ---------------------------------------------------------------------------
  // String.toUpperCase

  function UpperChar(c: char): char
  {
    if 'a' <= c <= 'z' then (c as int - 'a' as int + 'A' as int) as char else c
  }

  /** `toUpperCase` on ASCII text: each lower-case letter becomes its capital. */
  function ToUpper(s: string): string
  {
    seq(|s|, i requires 0 <= i < |s| => UpperChar(s[i]))
  }

  // ---------------------------------------------------------------------------
  // Integer.parseInt and Integer.toString

  predicate IsDigit(c: char)
  {
    '0' <= c <= '9'
  }

  predicate AllDigits(s: string)
  {
    forall i :: 0 <= i < |s| ==> IsDigit(s[i])
  }

  function DigitChar(d: int): char
    requires 0 <= d < 10
  {
    ('0' as int + d) as char
  }

  /** The value of a string of decimal digits, most significant digit first. */
  function DigitsValue(s: string): nat
    requires AllDigits(s)
  {
    if s == [] then 0 else DigitsValue(s[..|s| - 1]) * 10 + (s[|s| - 1] as int - '0' as int)
  }

  /** `Integer.parseInt(s)`: an optional sign and one or more digits, else `None`. */
  function ParseInt(s: string): Option<int>
  {
    if s == [] then None
    else if s[0] == '-' || s[0] == '+' then
      if |s| > 1 && AllDigits(s[1..]) then
        var v: int := DigitsValue(s[1..]);
        Some(if s[0] == '-' then -v else v)
      else None
    else if AllDigits(s) then Some(DigitsValue(s))
    else None
  }

  /** The decimal form of a non-negative number: digits only, with no leading zero. */
  function NatToDecimal(n: nat): (s: string)
    ensures |s| > 0 && AllDigits(s)
    ensures s[0] == '0' <==> n == 0
  {
    (if n < 10 then "" else NatToDecimal(n / 10)) + [DigitChar(n % 10)]
  }

  /** `Integer.toString(i)`, which string concatenation with an `int` uses. */
  function IntToString(i: int): string
  {
    if i < 0 then "-" + NatToDecimal(-i) else NatToDecimal(i)
  }

  lemma {:induction false} DigitsValueOfDecimal(n: nat)
    ensures DigitsValue(NatToDecimal(n)) == n
  {
    var s := NatToDecimal(n);
    assert s[..|s| - 1] == if n < 10 then "" else NatToDecimal(n / 10);
    if n >= 10 {
      DigitsValueOfDecimal(n / 10);
    }
  }

  /** A string of digits with no leading zero has a positive value. */
  lemma {:induction false} DigitsValuePositive(s: string)
    requires s != [] && AllDigits(s) && s[0] != '0'
    ensures DigitsValue(s) >= 1
  {
    if |s| > 1 {
      DigitsValuePositive(s[..|s| - 1]);
    }
  }

  /** `Integer.parseInt` of a non-empty string of digits is its value. */
  lemma ParseIntOfDigits(s: string)
    requires s != [] && AllDigits(s)
    ensures ParseInt(s) == Some(DigitsValue(s))
  {
    assert IsDigit(s[0]);
  }

  /** Reading a digit string with no leading zero and writing its value gives it back. */
  lemma {:induction false} DecimalOfDigitsValue(s: string)
    requires s != [] && AllDigits(s) && (s[0] != '0' || s == "0")
    ensures NatToDecimal(DigitsValue(s)) == s
  {
    var p, d := s[..|s| - 1], s[|s| - 1] as int - '0' as int;
    var n := DigitsValue(s);
    assert n == DigitsValue(p) * 10 + d;
    assert n / 10 == DigitsValue(p) && n % 10 == d;
    if p == [] {
      assert s == [DigitChar(d)];
    } else {
      DigitsValuePositive(p);
      DecimalOfDigitsValue(p);
      assert s == p + [DigitChar(d)];
    }
  }

  lemma ParseIntOfNegative(d: string)
    requires d != [] && AllDigits(d)
    ensures ParseInt("-" + d) == Some(0 - DigitsValue(d) as int)
  {
    var s := "-" + d;
    assert s[0] == '-' && s[1..] == d;
  }

  /** `Integer.parseInt` reads back what `Integer.toString` writes. */
  lemma ParseIntOfString(i: int)
    ensures ParseInt(IntToString(i)) == Some(i)
  {
    if i < 0 {
      DigitsValueOfDecimal(-i);
      ParseIntOfNegative(NatToDecimal(-i));
    } else {
      DigitsValueOfDecimal(i);
      ParseIntOfDigits(NatToDecimal(i));
    }
  }
}
