/**
 * The presence-map key of a grid position (getGridKey in src/main.js).
 * The program builds the key with a template literal, `${col},${row}`, so it is the
 * decimal text of the column, a comma, and the decimal text of the row. The rest of
 * the model keys the occupancy map by the pair itself; GridKeyInjective is what
 * makes that stand-in sound: two positions share a key only if they are the same.
 */
module Keys {

  predicate IsDigit(ch: char) {
    '0' <= ch <= '9'
  }

  function DigitChar(d: int): (ch: char)
    requires 0 <= d < 10
    ensures IsDigit(ch)
    ensures ch as int - '0' as int == d
  {
    ('0' as int + d) as char
  }

  /** Decimal text of a natural number, without leading zeros. */
  function NatToString(n: nat): (s: string)
    ensures |s| >= 1
    ensures forall i :: 0 <= i < |s| ==> IsDigit(s[i])
    ensures n < 10 <==> |s| == 1
    decreases n
  {
    if n < 10 then [DigitChar(n)] else NatToString(n / 10) + [DigitChar(n % 10)]
  }

  /** Decimal text of an integer, as JavaScript prints the small integers the grid uses. */
  function IntToString(i: int): (s: string)
    ensures |s| >= 1
    ensures forall k :: 0 <= k < |s| ==> s[k] != ','
    ensures i < 0 <==> s[0] == '-'
  {
    if i < 0 then "-" + NatToString(-i) else NatToString(i)
  }

  /** getGridKey(col, row) */
  function GridKey(col: int, row: int): (k: string)
    ensures ',' in k
  {
    IntToString(col) + "," + IntToString(row)
  }

  lemma {:induction false} NatToStringInjective(m: nat, n: nat)
    requires NatToString(m) == NatToString(n)
    ensures m == n
    decreases m
  {
    if m >= 10 && n >= 10 {
      var sm, sn := NatToString(m), NatToString(n);
      assert sm[..|sm| - 1] == NatToString(m / 10);
      assert sn[..|sn| - 1] == NatToString(n / 10);
      NatToStringInjective(m / 10, n / 10);
      assert sm[|sm| - 1] == DigitChar(m % 10);
      assert sn[|sn| - 1] == DigitChar(n % 10);
    } else if m < 10 && n < 10 {
      assert NatToString(m)[0] == DigitChar(m);
    }
  }

  lemma IntToStringInjective(i: int, j: int)
    requires IntToString(i) == IntToString(j)
    ensures i == j
  {
    if i < 0 {
      assert IntToString(i)[1..] == NatToString(-i);
      assert IntToString(j)[1..] == NatToString(-j);
      NatToStringInjective(-i, -j);
    } else {
      NatToStringInjective(i, j);
    }
  }

  /** Two grid positions share a presence-map key exactly when they are the same position. */
  lemma GridKeyInjective(c1: int, r1: int, c2: int, r2: int)
    ensures GridKey(c1, r1) == GridKey(c2, r2) <==> c1 == c2 && r1 == r2
  {
    if GridKey(c1, r1) == GridKey(c2, r2) {
      var x, y := IntToString(c1), IntToString(c2);
      var k := GridKey(c1, r1);
      assert k[..|x|] == x;
      assert GridKey(c2, r2)[..|y|] == y;
      IntToStringInjective(c1, c2);
      assert k[|x| + 1..] == IntToString(r1);
      assert GridKey(c2, r2)[|y| + 1..] == IntToString(r2);
      IntToStringInjective(r1, r2);
    }
  }
}
