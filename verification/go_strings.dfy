/**
  The handful of Go standard-library string primitives the logger relies on:
  `strings.Split` and `strings.Join`, `strings.Trim` with the cut set " \t\n",
  `strings.ToLower` (ASCII letters only) and `strconv.Itoa`.
  Each is given a contract that characterises it, and the pairs that are
  meant to undo each other (Split/Join, Itoa/decimal parsing) are proved to.
 */
module GoStrings {

  /** An optional value: a Go value that may be nil, a lookup that may miss. */
  datatype Option<T> = None | Some(value: T)

  // ---------------------------------------------------------------------------
  // Join and Split
  // ---------------------------------------------------------------------------

  /** `strings.Join`: the parts with `sep` between consecutive ones. */
  function Join(parts: seq<string>, sep: string): string
  {
    if |parts| == 0 then ""
    else if |parts| == 1 then parts[0]
    else parts[0] + sep + Join(parts[1..], sep)
  }

  /** True when no part contains the separator character. */
  predicate FreeOf(parts: seq<string>, sep: char)
  {
    forall i :: 0 <= i < |parts| ==> sep !in parts[i]
  }

  /** `strings.Split(s, [sep])`: the maximal separator-free pieces of `s`.
      There is always at least one piece, so the empty string splits into [""]. */
  function Split(s: string, sep: char): (parts: seq<string>)
    ensures |parts| >= 1
    ensures FreeOf(parts, sep)
    ensures Join(parts, [sep]) == s
  {
    if |s| == 0 then [""]
    else
      var rest := Split(s[1..], sep);
      if s[0] == sep then
        assert ([""] + rest)[1..] == rest;
        [""] + rest
      else
        var parts := [[s[0]] + rest[0]] + rest[1..];
        assert parts[1..] == rest[1..];
        assert Join(parts, [sep]) == [s[0]] + Join(rest, [sep]);
        assert s == [s[0]] + s[1..];
        parts
  }

  lemma {:induction false} SplitWithoutSeparator(s: string, sep: char)
    requires sep !in s
    ensures Split(s, sep) == [s]
    decreases |s|
  {
    if |s| > 0 {
      SplitWithoutSeparator(s[1..], sep);
      assert [s[0]] + s[1..] == s;
    }
  }

  lemma {:induction false} SplitAfterPiece(a: string, sep: char, b: string)
    requires sep !in a
    ensures Split(a + [sep] + b, sep) == [a] + Split(b, sep)
    decreases |a|
  {
    if |a| == 0 {
      assert a + [sep] + b == [sep] + b;
      assert ([sep] + b)[1..] == b;
    } else {
      SplitAfterPiece(a[1..], sep, b);
      assert (a + [sep] + b)[1..] == a[1..] + [sep] + b;
      assert [a[0]] + a[1..] == a;
    }
  }

  /** Splitting undoes joining, provided no part contains the separator. */
  lemma {:induction false} SplitJoin(parts: seq<string>, sep: char)
    requires |parts| >= 1
    requires FreeOf(parts, sep)
    ensures Split(Join(parts, [sep]), sep) == parts
    decreases |parts|
  {
    if |parts| == 1 {
      SplitWithoutSeparator(parts[0], sep);
    } else {
      assert FreeOf(parts[1..], sep) by {
        forall i | 0 <= i < |parts| - 1 ensures sep !in parts[1..][i] {
          assert parts[1..][i] == parts[i + 1];
        }
      }
      SplitJoin(parts[1..], sep);
      assert sep !in parts[0];
      SplitAfterPiece(parts[0], sep, Join(parts[1..], [sep]));
      assert [parts[0]] + parts[1..] == parts;
    }
  }

  // ---------------------------------------------------------------------------
  // Trim with the cut set " \t\n"
  // ---------------------------------------------------------------------------

  /** Membership in the cut set " \t\n" the logger trims flag tokens with. */
  predicate InCutset(c: char)
  {
    c == ' ' || c == '\t' || c == '\n'
  }

  /** A string with no cut-set character at either end. */
  predicate Trimmed(s: string)
  {
    s == [] || (!InCutset(s[0]) && !InCutset(s[|s| - 1]))
  }

  /** The first index at or after `i` that is not a cut-set character
      (or `|s|`). */
  function TrimStartFrom(s: string, i: nat): (n: nat)
    requires i <= |s|
    ensures i <= n <= |s|
    ensures forall k :: i <= k < n ==> InCutset(s[k])
    ensures n == |s| || !InCutset(s[n])
    decreases |s| - i
  {
    if i < |s| && InCutset(s[i]) then TrimStartFrom(s, i + 1) else i
  }

  /** The end of `s[lo..j]` once trailing cut-set characters are dropped. */
  function TrimEndFrom(s: string, lo: nat, j: nat): (n: nat)
    requires lo <= j <= |s|
    ensures lo <= n <= j
    ensures forall k :: n <= k < j ==> InCutset(s[k])
    ensures n == lo || !InCutset(s[n - 1])
    decreases j
  {
    if j > lo && InCutset(s[j - 1]) then TrimEndFrom(s, lo, j - 1) else j
  }

  /** Where the kept part of `s` starts. */
  function TrimStart(s: string): (i: nat)
    ensures i <= |s|
  {
    TrimStartFrom(s, 0)
  }

  /** Where the kept part of `s` ends. */
  function TrimEnd(s: string): (j: nat)
    ensures TrimStart(s) <= j <= |s|
  {
    TrimEndFrom(s, TrimStart(s), |s|)
  }

  /** `strings.Trim(s, " \t\n")`: `s` with every leading and trailing cut-set
      character removed. The kept slice runs from the first to just past the
      last non-cut-set character; everything outside it is cut-set. */
  function Trim(s: string): (r: string)
    ensures Trimmed(r) && |r| <= |s|
    ensures IsLower(s) ==> IsLower(r)
    ensures TrimStart(s) <= TrimEnd(s) <= |s| && r == s[TrimStart(s)..TrimEnd(s)]
    ensures forall k :: 0 <= k < TrimStart(s) ==> InCutset(s[k])
    ensures forall k :: TrimEnd(s) <= k < |s| ==> InCutset(s[k])
    ensures |r| == 0 ==> forall k :: 0 <= k < |s| ==> InCutset(s[k])
  {
    SliceKeepsLower(s, TrimStart(s), TrimEnd(s));
    s[TrimStart(s)..TrimEnd(s)]
  }

  lemma SliceKeepsLower(s: string, i: nat, j: nat)
    requires i <= j <= |s|
    ensures IsLower(s) ==> IsLower(s[i..j])
  {
    if IsLower(s) {
      forall k | 0 <= k < j - i ensures !IsUpper(s[i..j][k]) {
        assert s[i..j][k] == s[i + k];
      }
    }
  }

  /** What Trim keeps is one contiguous slice of `s`, everything it removes
      before and after that slice is a cut-set character, and the slice is
      maximal: it neither starts nor ends with one. */
  lemma TrimKeepsSlice(s: string)
    ensures var i, j := TrimStart(s), TrimEnd(s);
      && Trim(s) == s[i..j]
      && (forall k :: 0 <= k < i ==> InCutset(s[k]))
      && (forall k :: j <= k < |s| ==> InCutset(s[k]))
      && (i < j ==> !InCutset(s[i]) && !InCutset(s[j - 1]))
      && (i == j ==> forall k :: 0 <= k < |s| ==> InCutset(s[k]))
  {
  }

  /** One space in front of a trimmed string is exactly what Trim removes. */
  lemma TrimAfterSpace(t: string)
    requires Trimmed(t)
    ensures Trim(" " + t) == t
    ensures Trim(t) == t
  {
    var s := " " + t;
    assert s[1..] == t;
    assert TrimStartFrom(s, 1) == 1 by {
      if |t| > 0 { assert s[1] == t[0]; }
    }
    assert TrimStart(s) == 1;
    assert TrimEndFrom(s, 1, |s|) == |s| by {
      if |t| > 0 { assert s[|s| - 1] == t[|t| - 1]; }
    }
    assert TrimStartFrom(t, 0) == 0;
    assert TrimEndFrom(t, 0, |t|) == |t|;
  }

  // ---------------------------------------------------------------------------
  // ASCII lower-casing
  // ---------------------------------------------------------------------------

  predicate IsUpper(c: char)
  {
    'A' <= c <= 'Z'
  }

  function LowerChar(c: char): (d: char)
    ensures !IsUpper(d)
    ensures !IsUpper(c) ==> d == c
  {
    if IsUpper(c) then (c as int + 32) as char else c
  }

  /** True when every character of `s` is ASCII, the range the model's
      `ToLower` folds exactly as Go's does. */
  predicate IsAscii(s: string)
  {
    forall i :: 0 <= i < |s| ==> (s[i] as int) < 128
  }

  /** True when `s` has no upper-case ASCII letter. */
  predicate IsLower(s: string)
  {
    forall i :: 0 <= i < |s| ==> !IsUpper(s[i])
  }

  /** `strings.ToLower`, restricted to ASCII letters: every upper-case letter is
      replaced by its lower-case partner and nothing else changes. */
  function ToLower(s: string): (r: string)
    ensures |r| == |s| && IsLower(r)
    ensures forall i :: 0 <= i < |s| ==> r[i] == LowerChar(s[i])
    ensures IsLower(s) ==> r == s
  {
    seq(|s|, i requires 0 <= i < |s| => LowerChar(s[i]))
  }

  /** Every string of a sequence lower-cased. */
  function LowerAll(ps: seq<string>): (r: seq<string>)
    ensures |r| == |ps|
    ensures forall i :: 0 <= i < |ps| ==> r[i] == ToLower(ps[i])
  {
    seq(|ps|, i requires 0 <= i < |ps| => ToLower(ps[i]))
  }

  lemma ToLowerCons(c: char, t: string)
    ensures ToLower([c] + t) == [LowerChar(c)] + ToLower(t)
  {
  }

  lemma LowerAllCons(p: string, ps: seq<string>)
    ensures LowerAll([p] + ps) == [ToLower(p)] + LowerAll(ps)
  {
  }

  /** Lower-casing commutes with splitting on a comma: a comma is not a
      letter, and no letter lower-cases to one. */
  lemma {:induction false} SplitToLower(s: string)
    ensures Split(ToLower(s), ',') == LowerAll(Split(s, ','))
    decreases |s|
  {
    if |s| > 0 {
      var rest := Split(s[1..], ',');
      var lrest := LowerAll(rest);
      var low := ToLower(s);
      assert low == [LowerChar(s[0])] + ToLower(s[1..]) by {
        assert s == [s[0]] + s[1..];
        ToLowerCons(s[0], s[1..]);
      }
      assert low[1..] == ToLower(s[1..]);
      SplitToLower(s[1..]);
      assert Split(low[1..], ',') == lrest;
      if s[0] == ',' {
        assert Split(s, ',') == [""] + rest;
        assert Split(low, ',') == [""] + lrest by {
          assert low[0] == ',';
        }
        LowerAllCons("", rest);
      } else {
        var head := [s[0]] + rest[0];
        assert Split(s, ',') == [head] + rest[1..];
        assert Split(low, ',') == [[low[0]] + lrest[0]] + lrest[1..] by {
          assert low[0] != ',';
        }
        assert ToLower(head) == [low[0]] + lrest[0] by {
          ToLowerCons(s[0], rest[0]);
        }
        assert lrest[1..] == LowerAll(rest[1..]);
        LowerAllCons(head, rest[1..]);
      }
    }
  }

  // ---------------------------------------------------------------------------
  // Decimal rendering of integers
  // ---------------------------------------------------------------------------

  predicate IsDigit(c: char)
  {
    '0' <= c <= '9'
  }

  function DigitChar(d: nat): (c: char)
    requires d < 10
    ensures IsDigit(c)
  {
    ('0' as int + d) as char
  }

  function DigitValue(c: char): (d: nat)
    requires IsDigit(c)
    ensures d < 10 && DigitChar(d) == c
  {
    c as int - '0' as int
  }

  /** A canonical decimal numeral: digits only, no leading zero unless it is "0". */
  predicate IsNumeral(s: string)
  {
    |s| >= 1 && (forall i :: 0 <= i < |s| ==> IsDigit(s[i])) && (s[0] == '0' ==> |s| == 1)
  }

  /** The value of a string of digits, most significant first. */
  function NumeralValue(s: string): nat
    requires forall i :: 0 <= i < |s| ==> IsDigit(s[i])
  {
    if |s| == 0 then 0 else NumeralValue(s[..|s| - 1]) * 10 + DigitValue(s[|s| - 1])
  }

  /** The canonical decimal numeral of a natural number. */
  function NatToDecimal(n: nat): (r: string)
    ensures IsNumeral(r)
    ensures r[0] == '0' <==> n == 0
  {
    if n < 10 then [DigitChar(n)] else NatToDecimal(n / 10) + [DigitChar(n % 10)]
  }

  /** `strconv.Itoa`: a '-' sign for negative numbers, then the numeral of the magnitude. */
  function Itoa(i: int): (r: string)
    ensures |r| >= 1
    ensures (r[0] == '-') <==> i < 0
    ensures i < 0 ==> IsNumeral(r[1..])
    ensures i >= 0 ==> IsNumeral(r)
  {
    if i < 0 then "-" + NatToDecimal(-i) else NatToDecimal(i)
  }

  /** Reads back a numeral produced by Itoa (optional '-', then a numeral). */
  function ParseInt(s: string): int
    requires |s| >= 1
    requires s[0] == '-' ==> IsNumeral(s[1..])
    requires s[0] != '-' ==> IsNumeral(s)
  {
    if s[0] == '-' then 0 - NumeralValue(s[1..]) as int else NumeralValue(s) as int
  }

  lemma {:induction false} NumeralRoundTrip(n: nat)
    ensures NumeralValue(NatToDecimal(n)) == n
    decreases n
  {
    if n >= 10 {
      NumeralRoundTrip(n / 10);
      var r := NatToDecimal(n);
      assert r[..|r| - 1] == NatToDecimal(n / 10);
    }
  }

  /** Itoa is undone by ParseInt, so it is injective. */
  lemma ItoaRoundTrip(i: int)
    ensures ParseInt(Itoa(i)) == i
  {
    if i < 0 {
      NumeralRoundTrip(-i);
      assert Itoa(i)[1..] == NatToDecimal(-i);
    } else {
      NumeralRoundTrip(i);
    }
  }
}
