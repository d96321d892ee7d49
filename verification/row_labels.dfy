/**
 * Row labels of the plate viewer (labman/gui/static/js/plateViewer.js).
 *
 * The viewer labels its first row "A" and derives each following row's label
 * from the previous one with `formatRowId`, which upper-cases the label and
 * advances it by one letter, carrying into the letter before a trailing 'Z'.
 * The carry reaches only one position, so the labels agree with the true
 * bijective base-26 numerals ("A".."Z", "AA".."ZZ", "AAA"..) only until the
 * first label that needs a two-position carry.
 *
 * JavaScript strings are sequences of UTF-16 code units; here they are Dafny
 * strings, which agree with them on every label the viewer produces.
 */
module RowLabels {
  import opened DivMod

  /** The capital letters in alphabetical order. */
  const Alphabet: string := "ABCDEFGHIJKLMNOPQRSTUVWXYZ"

  predicate IsCapital(c: char) {
    'A' <= c <= 'Z'
  }

  /** A label made of capital letters only, as the viewer generates them. */
  predicate IsLabel(s: string) {
    forall i :: 0 <= i < |s| ==> IsCapital(s[i])
  }

  lemma AlphabetCodes()
    ensures |Alphabet| == 26
    ensures forall k :: 0 <= k < 26 ==> Alphabet[k] as int == 65 + k
  {
  }

  // ---------------------------------------------------------------------------
  // The JavaScript helpers
  // ---------------------------------------------------------------------------

  /** `toUpperCase` on one character, for the ASCII letters. */
  function UpperChar(c: char): char {
    if 'a' <= c <= 'z' then (c as int - 32) as char else c
  }

  /** `String.prototype.toUpperCase`, character by character. */
  function ToUpper(s: string): string {
    seq(|s|, i requires 0 <= i < |s| => UpperChar(s[i]))
  }

  /** Upper-casing twice is upper-casing once, and it leaves a label unchanged. */
  lemma ToUpperIdempotent(s: string)
    ensures ToUpper(ToUpper(s)) == ToUpper(s)
    ensures IsLabel(s) ==> ToUpper(s) == s
  {
  }

  /**
   * `sameStrChar`: walks the string from its last character back to its
   * first and fails on the first character that differs from `c`.
   */
  function SameStrChar(s: string, c: char): (same: bool)
    ensures same <==> forall i :: 0 <= i < |s| ==> s[i] == c
  {
    if |s| == 0 then true
    else if s[|s| - 1] != c then false
    else SameStrChar(s[..|s| - 1], c)
  }

  /** `nextLetter`: the character after code `l`, or 'A' from code 90 ('Z') on. */
  function NextLetter(l: int): char
    requires 0 <= l
  {
    if l < 90 then (l + 1) as char else 'A'
  }

  /**
   * `nextLetter(q.slice(-1).charCodeAt(0))`. For the empty `q` the code is
   * NaN, and `NaN < 90` is false, so `nextLetter` answers 'A'.
   */
  function NextLetterOfLast(q: string): char {
    if |q| == 0 then 'A' else NextLetter(q[|q| - 1] as int)
  }

  /** `String.prototype.slice(0, -1)`: everything but the last character. */
  function DropLast(s: string): string {
    if |s| == 0 then s else s[..|s| - 1]
  }

  /** `n` copies of `c`, as the `while (i--) txt += 'A'` loop builds them. */
  function Repeat(c: char, n: nat): (s: string)
    ensures |s| == n
    ensures forall i :: 0 <= i < n ==> s[i] == c
  {
    seq(n, i => c)
  }

  /** The letters of the label after `row`, by the viewer's rule (one-position carry). */
  function FormatRowId(row: string): (next: string)
    ensures IsLabel(ToUpper(row)) ==> IsLabel(next)
    ensures |next| == |row| || |next| == |row| + 1
    ensures |next| == |row| + 1 <==>
              SameStrChar(ToUpper(row), 'Z') || (|row| == 1 && NextLetter(ToUpper(row)[0] as int) == 'A')
  {
    var u := ToUpper(row);
    if SameStrChar(u, 'Z') then
      Repeat('A', |u|) + "A"
    else
      var p := if |u| > 1 then u[..|u| - 1] else "";
      var q := if |u| > 1 then [p[|p| - 1]] else "";
      var z := NextLetter(u[|u| - 1] as int);
      if z == 'A' then DropLast(p) + [NextLetterOfLast(q)] + [z]
      else p + [z]
  }

  // ---------------------------------------------------------------------------
  // Properties of formatRowId, case by case
  // ---------------------------------------------------------------------------

  /** nextLetter walks the alphabet and wraps from 'Z' back to 'A'. */
  lemma NextLetterFollowsAlphabet(k: nat)
    requires k < 26
    ensures NextLetter(Alphabet[k] as int) == Alphabet[(k + 1) % 26]
  {
    AlphabetCodes();
  }

  /** A label of 'Z's only (in either case, or empty) becomes one more 'A' than it had letters. */
  lemma FormatRowIdAllZ(row: string)
    requires forall i :: 0 <= i < |row| ==> UpperChar(row[i]) == 'Z'
    ensures FormatRowId(row) == Repeat('A', |row| + 1)
  {
    assert SameStrChar(ToUpper(row), 'Z');
    assert Repeat('A', |row|) + "A" == Repeat('A', |row| + 1);
  }

  /** Without a trailing 'Z', only the last letter changes: it becomes the next letter of the alphabet. */
  lemma FormatRowIdAdvancesLast(row: string, k: nat)
    requires IsLabel(ToUpper(row)) && |row| > 0
    requires k < 25 && ToUpper(row)[|row| - 1] == Alphabet[k]
    ensures FormatRowId(row) == ToUpper(row)[..|row| - 1] + [Alphabet[k + 1]]
  {
    AlphabetCodes();
    var u := ToUpper(row);
    assert !SameStrChar(u, 'Z') by {
      assert u[|u| - 1] != 'Z';
    }
    if |u| == 1 {
      assert u[..0] == "";
    }
  }

  /**
   * With a trailing 'Z' on a label that is not all 'Z's, the 'Z' becomes 'A'
   * and the letter before it goes through nextLetter; everything before that
   * letter is unchanged, so the carry moves exactly one position.
   */
  lemma FormatRowIdCarriesOnce(row: string)
    requires IsLabel(ToUpper(row)) && |row| >= 2
    requires ToUpper(row)[|row| - 1] == 'Z'
    requires !SameStrChar(ToUpper(row), 'Z')
    ensures FormatRowId(row) == ToUpper(row)[..|row| - 2] + [NextLetter(ToUpper(row)[|row| - 2] as int), 'A']
  {
    var u := ToUpper(row);
    var p := u[..|u| - 1];
    assert DropLast(p) == u[..|row| - 2];
    assert p[|p| - 1] == u[|row| - 2];
  }

  /** Upper-casing first, formatRowId treats lower-case letters as upper-case ones. */
  lemma FormatRowIdIgnoresCase(row: string)
    ensures FormatRowId(row) == FormatRowId(ToUpper(row))
  {
    ToUpperIdempotent(row);
  }

  // ---------------------------------------------------------------------------
  // Reference: labels as bijective base-26 numerals
  // ---------------------------------------------------------------------------

  /** A letter as a digit of bijective base 26: 'A' is 1 and 'Z' is 26. */
  function Digit(c: char): int
    requires IsCapital(c)
  {
    c as int - 64
  }

  /** The 1-based row number a label denotes; 0 for the empty label. */
  function Value(s: string): nat
    requires IsLabel(s)
    decreases |s|
  {
    if |s| == 0 then 0 else 26 * Value(s[..|s| - 1]) + Digit(s[|s| - 1])
  }

  lemma ValueAppend(s: string, c: char)
    requires IsLabel(s) && IsCapital(c)
    ensures IsLabel(s + [c])
    ensures Value(s + [c]) == 26 * Value(s) + Digit(c)
  {
    assert (s + [c])[..|s|] == s;
  }

  /** The label of row number `m` (1-based); the empty label for 0. */
  function Numeral(m: nat): (s: string)
    ensures IsLabel(s)
    ensures |s| == 0 <==> m == 0
  {
    if m == 0 then "" else Numeral((m - 1) / 26) + [(65 + (m - 1) % 26) as char]
  }

  /** Numeral is a right inverse of Value: the numeral of m denotes m. */
  lemma {:induction false} ValueOfNumeral(m: nat)
    ensures Value(Numeral(m)) == m
  {
    if m > 0 {
      ValueOfNumeral((m - 1) / 26);
      ValueAppend(Numeral((m - 1) / 26), (65 + (m - 1) % 26) as char);
    }
  }

  /** Numeral is a left inverse of Value: every label is the numeral of the number it denotes. */
  lemma {:induction false} NumeralOfValue(s: string)
    requires IsLabel(s)
    ensures Numeral(Value(s)) == s
    decreases |s|
  {
    if |s| > 0 {
      var p, c := s[..|s| - 1], s[|s| - 1];
      NumeralOfValue(p);
      var m := Value(s);
      assert m == 26 * Value(p) + Digit(c);
      DivModUnique(m - 1, 26, Value(p), Digit(c) - 1);
      assert Numeral(m) == Numeral(Value(p)) + [c];
      assert s == p + [c];
    }
  }

  /**
   * The evidently intended successor: increments the label as a bijective
   * base-26 numeral, carrying through every trailing 'Z' ("AZZ" becomes "BAA").
   */
  function Successor(s: string): (t: string)
    requires IsLabel(s)
    ensures IsLabel(t)
    ensures Value(t) == Value(s) + 1
    decreases |s|
  {
    if |s| == 0 then "A"
    else if s[|s| - 1] == 'Z' then
      var t := Successor(s[..|s| - 1]) + "A";
      ValueAppend(Successor(s[..|s| - 1]), 'A');
      t
    else
      var t := s[..|s| - 1] + [(s[|s| - 1] as int + 1) as char];
      ValueAppend(s[..|s| - 1], (s[|s| - 1] as int + 1) as char);
      t
  }

  /** The successor of the numeral of m is the numeral of m + 1. */
  lemma SuccessorOfNumeral(m: nat)
    ensures Successor(Numeral(m)) == Numeral(m + 1)
  {
    var t := Successor(Numeral(m));
    ValueOfNumeral(m);
    assert Value(t) == m + 1;
    NumeralOfValue(t);
    assert Numeral(m + 1) == t;
  }

  /** A label that needs the carry to reach past the letter before its trailing 'Z'. */
  predicate NeedsDoubleCarry(u: string) {
    |u| >= 2 && u[|u| - 1] == 'Z' && u[|u| - 2] == 'Z' && !SameStrChar(u, 'Z')
  }

  /** A label of at most two letters never needs a carry across two positions. */
  lemma ShortLabelCarriesOnce(u: string)
    requires |u| <= 2
    ensures !NeedsDoubleCarry(u)
  {
    if |u| == 2 && u[0] == 'Z' && u[1] == 'Z' {
      assert SameStrChar(u, 'Z');
    }
  }

  lemma SuccessorChanges(s: string)
    requires IsLabel(s)
    ensures Successor(s) != s
  {
    if |s| > 0 {
      var t := Successor(s);
      if |t| == |s| {
        assert t[|t| - 1] != s[|s| - 1];
      }
    }
  }

  /**
   * formatRowId agrees with the true successor on an upper-case label exactly
   * when the label does not need a carry across two positions.
   */
  lemma FormatRowIdIsSuccessorIff(row: string)
    requires IsLabel(ToUpper(row))
    ensures FormatRowId(row) == Successor(ToUpper(row)) <==> !NeedsDoubleCarry(ToUpper(row))
  {
    var u := ToUpper(row);
    var n := |u|;
    if SameStrChar(u, 'Z') {
      AgreesWhenAllZ(row);
    } else {
      assert n > 0;
      if u[n - 1] != 'Z' {
        AgreesWithoutCarry(row);
      } else {
        assert n >= 2;
        if u[n - 2] != 'Z' {
          AgreesWithOneCarry(row);
        } else {
          DiffersWithTwoCarries(row);
        }
      }
    }
  }

  lemma AgreesWhenAllZ(row: string)
    requires IsLabel(ToUpper(row)) && SameStrChar(ToUpper(row), 'Z')
    ensures FormatRowId(row) == Successor(ToUpper(row)) && !NeedsDoubleCarry(ToUpper(row))
  {
    var u := ToUpper(row);
    assert forall i :: 0 <= i < |row| ==> UpperChar(row[i]) == u[i];
    FormatRowIdAllZ(row);
    AllZSuccessor(u);
  }

  lemma AgreesWithoutCarry(row: string)
    requires IsLabel(ToUpper(row)) && |row| > 0 && ToUpper(row)[|row| - 1] != 'Z'
    ensures FormatRowId(row) == Successor(ToUpper(row)) && !NeedsDoubleCarry(ToUpper(row))
  {
    var u := ToUpper(row);
    AlphabetCodes();
    FormatRowIdAdvancesLast(row, u[|u| - 1] as int - 65);
    SuccessorWithoutCarry(u);
  }

  lemma AgreesWithOneCarry(row: string)
    requires IsLabel(ToUpper(row)) && |row| >= 2
    requires ToUpper(row)[|row| - 1] == 'Z' && ToUpper(row)[|row| - 2] != 'Z'
    ensures FormatRowId(row) == Successor(ToUpper(row)) && !NeedsDoubleCarry(ToUpper(row))
  {
    var u := ToUpper(row);
    assert !SameStrChar(u, 'Z') by {
      assert u[|u| - 2] != 'Z';
    }
    FormatRowIdCarriesOnce(row);
    SuccessorWithOneCarry(u);
  }

  lemma DiffersWithTwoCarries(row: string)
    requires IsLabel(ToUpper(row)) && |row| >= 2
    requires ToUpper(row)[|row| - 1] == 'Z' && ToUpper(row)[|row| - 2] == 'Z'
    requires !SameStrChar(ToUpper(row), 'Z')
    ensures FormatRowId(row) != Successor(ToUpper(row)) && NeedsDoubleCarry(ToUpper(row))
  {
    var u := ToUpper(row);
    var x := u[..|u| - 2];
    FormatRowIdCarriesOnce(row);
    assert FormatRowId(row) == x + "AA";
    SuccessorWithTwoCarries(u);
    SuccessorChanges(x);
    AppendKeepsApart(x, Successor(x), "AA");
  }

  lemma SuccessorWithoutCarry(u: string)
    requires IsLabel(u) && |u| > 0 && u[|u| - 1] != 'Z'
    ensures Successor(u) == u[..|u| - 1] + [(u[|u| - 1] as int + 1) as char]
  {
  }

  lemma SuccessorWithOneCarry(u: string)
    requires IsLabel(u) && |u| >= 2 && u[|u| - 1] == 'Z' && u[|u| - 2] != 'Z'
    ensures Successor(u) == u[..|u| - 2] + [(u[|u| - 2] as int + 1) as char, 'A']
  {
    var p := u[..|u| - 1];
    assert p[..|p| - 1] == u[..|u| - 2];
    SuccessorWithoutCarry(p);
  }

  lemma SuccessorWithTwoCarries(u: string)
    requires IsLabel(u) && |u| >= 2 && u[|u| - 1] == 'Z' && u[|u| - 2] == 'Z'
    ensures Successor(u) == Successor(u[..|u| - 2]) + "AA"
  {
    var p := u[..|u| - 1];
    assert IsLabel(p) && IsLabel(u[..|u| - 2]);
    assert p[..|p| - 1] == u[..|u| - 2] && p[|p| - 1] == 'Z';
    assert Successor(u) == Successor(p) + "A";
    assert Successor(p) == Successor(u[..|u| - 2]) + "A";
  }

  /** Different labels stay different when the same suffix is appended to both. */
  lemma AppendKeepsApart(a: string, b: string, s: string)
    ensures a != b ==> a + s != b + s
  {
    if a + s == b + s {
      assert a == (a + s)[..|a|];
      assert b == (b + s)[..|b|];
    }
  }

  lemma {:induction false} AllZSuccessor(u: string)
    requires forall i :: 0 <= i < |u| ==> u[i] == 'Z'
    ensures Successor(u) == Repeat('A', |u| + 1)
    decreases |u|
  {
    if |u| > 0 {
      AllZSuccessor(u[..|u| - 1]);
      assert Repeat('A', |u|) + "A" == Repeat('A', |u| + 1);
    }
  }

  /** The counterexample to a full carry: "AZZ" becomes "AAA", not "BAA". */
  lemma FormatRowIdDropsSecondCarry()
    ensures FormatRowId("AZZ") == "AAA"
    ensures Successor("AZZ") == "BAA"
    ensures Value("AAA") != Value("AZZ") + 1
  {
    assert ToUpper("AZZ") == "AZZ";
    assert !SameStrChar("AZZ", 'Z') by { assert "AZZ"[0] != 'Z'; }
    assert "AZZ"[..2] == "AZ";
    assert "AZ"[..1] == "A";
  }

  // ---------------------------------------------------------------------------
  // The row-label loop of initialize
  // ---------------------------------------------------------------------------

  /** The label shown for row index `i` (0-based): "A", then formatRowId once per row. */
  function RowLabel(i: nat): (s: string)
    ensures IsLabel(s)
  {
    if i == 0 then "A"
    else
      var prev := RowLabel(i - 1);
      ToUpperIdempotent(prev);
      FormatRowId(prev)
  }

  lemma NumeralShort(m: nat)
    requires m <= 702
    ensures |Numeral(m)| <= 2
  {
    if m > 0 {
      var k := (m - 1) / 26;
      assert k <= 26;
      if k > 0 {
        assert (k - 1) / 26 == 0;
      }
    }
  }

  /** For the first 702 rows ("A" through "ZZ") the viewer shows the true numeral of the row number. */
  lemma {:induction false} RowLabelIsNumeral(i: nat)
    requires i < 702
    ensures RowLabel(i) == Numeral(i + 1)
  {
    if i == 0 {
      assert Numeral(1) == Numeral(0) + ['A'];
    } else {
      RowLabelIsNumeral(i - 1);
      var prev := Numeral(i);
      assert RowLabel(i) == FormatRowId(prev);
      ToUpperIdempotent(prev);
      NumeralShort(i);
      ShortLabelCarriesOnce(prev);
      FormatRowIdIsSuccessorIff(prev);
      SuccessorOfNumeral(i);
    }
  }

  /**
   * The row-header loop of `initialize`: one label per row, starting at "A"
   * and advanced by formatRowId after each row.
   */
  method InitializeRowLabels(rows: int) returns (labels: seq<string>)
    ensures |labels| == if rows <= 0 then 0 else rows
    ensures forall i :: 0 <= i < |labels| ==> labels[i] == RowLabel(i)
    ensures forall i :: 0 <= i < |labels| && i < 702 ==> labels[i] == Numeral(i + 1)
    ensures forall i :: 0 <= i < |labels| && i < 26 ==> labels[i] == [Alphabet[i]]
  {
    labels := [];
    var rowId := "A";
    var i := 0;
    while i < rows
      invariant 0 <= i == |labels|
      invariant i <= if rows <= 0 then 0 else rows
      invariant rowId == RowLabel(i)
      invariant forall k :: 0 <= k < i ==> labels[k] == RowLabel(k)
    {
      ghost var before := labels;
      labels := labels + [rowId];
      forall k | 0 <= k < i + 1
        ensures labels[k] == RowLabel(k)
      {
        if k < i {
          assert labels[k] == before[k];
        }
      }
      assert RowLabel(i + 1) == FormatRowId(rowId);
      rowId := FormatRowId(rowId);
      i := i + 1;
    }
    RowLabelsAreNumerals(labels);
  }

  lemma RowLabelsAreNumerals(labels: seq<string>)
    requires forall i :: 0 <= i < |labels| ==> labels[i] == RowLabel(i)
    ensures forall i :: 0 <= i < |labels| && i < 702 ==> labels[i] == Numeral(i + 1)
    ensures forall i :: 0 <= i < |labels| && i < 26 ==> labels[i] == [Alphabet[i]]
  {
    forall i | 0 <= i < |labels| && i < 702
      ensures labels[i] == Numeral(i + 1)
    {
      RowLabelIsNumeral(i);
    }
    forall i | 0 <= i < |labels| && i < 26
      ensures labels[i] == [Alphabet[i]]
    {
      AlphabetCodes();
      assert Numeral(i + 1) == Numeral(0) + [Alphabet[i]];
    }
  }
}
