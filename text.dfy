/** String building shared by the scanner and the box clues: JavaScript's
    rendering of integers in template literals, the `(row,column)` start key,
    and the ASCII part of `toUpperCase`. */
module Text {

  function Digit(d: nat): (c: char)
    requires d < 10
    ensures '0' <= c <= '9' && c as int - '0' as int == d
  {
    ['0', '1', '2', '3', '4', '5', '6', '7', '8', '9'][d]
  }

  /** Decimal rendering of a natural number, as `${n}` gives it. */
  function NatToString(n: nat): (s: string)
    ensures |s| > 0
    ensures forall i :: 0 <= i < |s| ==> '0' <= s[i] <= '9'
  {
    if n < 10 then [Digit(n)] else NatToString(n / 10) + [Digit(n % 10)]
  }

  /** Decimal rendering of an integer, with a leading `-` when negative. */
  function IntToString(i: int): (s: string)
    ensures |s| > 0
    ensures i >= 0 <==> '-' !in s
  {
    if i < 0 then "-" + NatToString(-i) else NatToString(i)
  }

  /** Different natural numbers render differently. */
  lemma {:induction false} NatToStringInjective(n: nat, k: nat)
    ensures NatToString(n) == NatToString(k) ==> n == k
  {
    if NatToString(n) == NatToString(k) {
      if n >= 10 && k >= 10 {
        var a, b := NatToString(n), NatToString(k);
        assert a[..|a| - 1] == NatToString(n / 10) && b[..|b| - 1] == NatToString(k / 10);
        assert a[|a| - 1] == Digit(n % 10) && b[|b| - 1] == Digit(k % 10);
        NatToStringInjective(n / 10, k / 10);
      }
    }
  }

  /** Different integers render differently, so distinct coordinates give
      distinct start keys. */
  lemma IntToStringInjective(i: int, j: int)
    ensures IntToString(i) == IntToString(j) ==> i == j
  {
    if IntToString(i) == IntToString(j) {
      if i < 0 && j < 0 {
        assert IntToString(i)[1..] == NatToString(-i);
        assert IntToString(j)[1..] == NatToString(-j);
        NatToStringInjective(-i, -j);
      } else if i >= 0 && j >= 0 {
        NatToStringInjective(i, j);
      }
    }
  }

  /** The coordinate start key `(row,column)` built by the grid scanner and by
      the box clues. */
  function CoordKey(row: int, column: int): (s: string)
    ensures |s| >= 5 && s[0] == '(' && s[|s| - 1] == ')'
    ensures row >= 0 && column >= 0 ==> '-' !in s
  {
    "(" + IntToString(row) + "," + IntToString(column) + ")"
  }

  /** `toUpperCase` restricted to ASCII: a lower-case ASCII letter becomes its
      capital, every other character is kept. */
  function UpperChar(c: char): (u: char)
    ensures 'a' <= c <= 'z' ==> 'A' <= u <= 'Z' && u as int == c as int - 32
    ensures !('a' <= c <= 'z') ==> u == c
  {
    if 'a' <= c <= 'z' then (c as int - 32) as char else c
  }

  function Upper(s: string): (u: string)
    ensures |u| == |s|
    ensures forall i :: 0 <= i < |s| ==> u[i] == UpperChar(s[i])
  {
    seq(|s|, i requires 0 <= i < |s| => UpperChar(s[i]))
  }

  /** JavaScript's `length`: the number of UTF-16 code units, one for a
      character of the Basic Multilingual Plane and two (a surrogate pair)
      for any other. */
  function Utf16Length(s: string): (n: nat)
    ensures |s| <= n <= 2 * |s|
    ensures n == |s| <==> forall i :: 0 <= i < |s| ==> s[i] as int < 0x1_0000
  {
    if s == [] then 0
    else Utf16Length(s[..|s| - 1]) + (if s[|s| - 1] as int < 0x1_0000 then 1 else 2)
  }

  /** A string has `length === 1` exactly when it is one character of the
      Basic Multilingual Plane. */
  lemma SingleUnit(s: string)
    ensures Utf16Length(s) == 1 <==> |s| == 1 && s[0] as int < 0x1_0000
  {
  }

  /** A character outside the Basic Multilingual Plane, such as an emoji, has
      `length === 2`. */
  lemma AstralIsTwoUnits(c: char)
    requires c as int >= 0x1_0000
    ensures Utf16Length([c]) == 2
  {
    assert [c][..0] == [];
  }
}
