/**
 * Table ids. Every table the system creates is named after its cell as
 * `"{x}-{y}"`: the decimal column, a dash, the decimal row.
 */
module TableIds {

  predicate IsDigit(c: char)
  {
    '0' <= c <= '9'
  }

  function DigitChar(d: nat): (c: char)
    requires d < 10
    ensures IsDigit(c) && c as int - '0' as int == d
  {
    ('0' as int + d) as char
  }

  /** The decimal notation of `n`, most significant digit first, as a template literal prints it. */
  function Decimal(n: nat): (s: string)
    ensures |s| >= 1
    ensures forall i :: 0 <= i < |s| ==> IsDigit(s[i])
  {
    if n < 10 then [DigitChar(n)] else Decimal(n / 10) + [DigitChar(n % 10)]
  }

  /** Reads a string of decimal digits back as a number. */
  function ParseDecimal(s: string): nat
    requires forall i :: 0 <= i < |s| ==> IsDigit(s[i])
  {
    if s == [] then 0
    else
      assert IsDigit(s[|s| - 1]);
      ParseDecimal(s[..|s| - 1]) * 10 + (s[|s| - 1] as int - '0' as int)
  }

  /** Reading the decimal notation of `n` gives `n` back. */
  lemma {:induction false} DecimalRoundTrip(n: nat)
    ensures ParseDecimal(Decimal(n)) == n
  {
    if n >= 10 {
      var d := Decimal(n / 10);
      var s := d + [DigitChar(n % 10)];
      assert s[..|s| - 1] == d;
      DecimalRoundTrip(n / 10);
    }
  }

  /** Different numbers have different decimal notations. */
  lemma DecimalInjective(a: nat, b: nat)
    ensures Decimal(a) == Decimal(b) ==> a == b
  {
    DecimalRoundTrip(a);
    DecimalRoundTrip(b);
  }

  /** The id `"{x}-{y}"` of the table at column x, row y. */
  function TableId(x: nat, y: nat): string
  {
    Decimal(x) + "-" + Decimal(y)
  }

  /** A dash between two dash-free strings marks the one place they were joined. */
  lemma SplitAtDash(a: string, b: string, c: string, d: string)
    requires forall i :: 0 <= i < |a| ==> a[i] != '-'
    requires forall i :: 0 <= i < |c| ==> c[i] != '-'
    requires a + "-" + b == c + "-" + d
    ensures a == c && b == d
  {
    var s := a + "-" + b;
    assert s[|a|] == '-' && s[|c|] == '-';
    assert forall i :: 0 <= i < |a| ==> s[i] == a[i];
    assert forall i :: 0 <= i < |c| ==> s[i] == c[i];
    assert |a| == |c|;
    assert a == s[..|a|] == c;
    assert b == s[|a| + 1..] == d;
  }

  /** The id of a table determines its cell: no two cells share an id. */
  lemma TableIdInjective(x1: nat, y1: nat, x2: nat, y2: nat)
    ensures TableId(x1, y1) == TableId(x2, y2) <==> x1 == x2 && y1 == y2
  {
    if TableId(x1, y1) == TableId(x2, y2) {
      SplitAtDash(Decimal(x1), Decimal(y1), Decimal(x2), Decimal(y2));
      DecimalInjective(x1, x2);
      DecimalInjective(y1, y2);
    }
  }

  /** The cell in column 0, row 8 is called "0-8". */
  lemma TableIdZeroEight()
    ensures TableId(0, 8) == "0-8"
  {
    assert Decimal(0) == "0";
    assert Decimal(8) == "8";
  }
}
