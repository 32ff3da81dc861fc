/**
 The codebook generator of genlspdtcb.c: a mixed loop that counts through all digit vectors with a
 single ascending carry pass per row.
 */
module Odometer {
  import opened Bits

  const MAX_ROWS := 10

  function Pow(c: nat, n: nat): nat {
    if n == 0 then 1 else c * Pow(c, n - 1)
  }

  predicate IsDigits(d: seq<int>, cols: nat) {
    forall i :: 0 <= i < |d| ==> 0 <= d[i] < cols
  }

  /** The number a digit vector stands for, least significant digit first. */
  function Num(d: seq<int>, cols: nat): int {
    if |d| == 0 then 0 else d[0] + cols * Num(d[1..], cols)
  }

  lemma {:induction false} NumBound(d: seq<int>, cols: nat)
    requires IsDigits(d, cols)
    ensures 0 <= Num(d, cols) < Pow(cols, |d|)
  {
    if |d| > 0 {
      NumBound(d[1..], cols);
      var x, p := Num(d[1..], cols), Pow(cols, |d| - 1);
      MulStep(cols, x, p);
    }
  }

  lemma MulStep(c: nat, x: int, p: int)
    requires 0 <= x < p
    ensures 0 <= c * x && c * x + c <= c * p
  {
    MulNext(c, x, p);
    MulLe(0, x, c);
  }

  /** Different vectors of the same length stand for different numbers. */
  lemma {:induction false} NumInjective(d: seq<int>, e: seq<int>, cols: nat)
    requires |d| == |e| && IsDigits(d, cols) && IsDigits(e, cols) && Num(d, cols) == Num(e, cols)
    ensures d == e
  {
    if |d| > 0 {
      DigitUnique(cols, d[0], Num(d[1..], cols), e[0], Num(e[1..], cols));
      NumInjective(d[1..], e[1..], cols);
      assert d == [d[0]] + d[1..] && e == [e[0]] + e[1..];
    }
  }

  lemma DigitUnique(c: nat, a: int, x: int, b: int, y: int)
    requires 0 <= a < c && 0 <= b < c && a + c * x == b + c * y
    ensures a == b && x == y
  {
    if x < y {
      MulNext(c, x, y);
    } else if y < x {
      MulNext(c, y, x);
    }
  }

  lemma NumSplit(d: seq<int>, cols: nat)
    requires |d| > 0
    ensures Num(d, cols) == d[0] + cols * Num(d[1..], cols)
  {
  }

  lemma PowStep(c: nat, n: nat)
    ensures Pow(c, n + 1) == c * Pow(c, n) && Pow(c, 0) == 1
  {
  }

  lemma {:induction false} NumIncrement(d: seq<int>, cols: nat, i: nat)
    requires i < |d|
    ensures Num(d[i := d[i] + 1], cols) == Num(d, cols) + Pow(cols, i)
  {
    hide Num;
    hide Pow;
    var e := d[i := d[i] + 1];
    NumSplit(d, cols);
    NumSplit(e, cols);
    if i == 0 {
      assert e[1..] == d[1..];
      PowStep(cols, 0);
    } else {
      assert e[1..] == d[1..][i - 1 := d[1..][i - 1] + 1];
      NumIncrement(d[1..], cols, i - 1);
      PowStep(cols, i - 1);
      var x, p := Num(d[1..], cols), Pow(cols, i - 1);
      assert cols * (x + p) == cols * x + cols * p;
    }
  }

  lemma {:induction false} NumReset(d: seq<int>, cols: nat, i: nat)
    requires i < |d| && d[i] == cols
    ensures Num(d[i := 0], cols) == Num(d, cols) - Pow(cols, i + 1)
  {
    hide Num;
    hide Pow;
    var e := d[i := 0];
    NumSplit(d, cols);
    NumSplit(e, cols);
    PowStep(cols, i);
    if i == 0 {
      assert e[1..] == d[1..];
    } else {
      assert e[1..] == d[1..][i - 1 := 0];
      NumReset(d[1..], cols, i - 1);
      var x, p := Num(d[1..], cols), Pow(cols, i);
      assert cols * (x - p) == cols * x - cols * p;
    }
  }

  /** Carrying out of a full digit keeps the number. */
  lemma CarryKeepsNum(d: seq<int>, cols: nat, i: nat)
    requires i + 1 < |d| && d[i] == cols
    ensures Num(d[i := 0][i + 1 := d[i + 1] + 1], cols) == Num(d, cols)
  {
    NumReset(d, cols, i);
    NumIncrement(d[i := 0], cols, i + 1);
  }

  /** A vector whose last digit has reached cols stands for cols^rows or more. */
  lemma {:induction false} NumOfFull(d: seq<int>, cols: nat)
    requires |d| > 0 && IsDigits(d[..|d| - 1], cols) && d[|d| - 1] == cols
    ensures Num(d, cols) >= Pow(cols, |d|)
  {
    hide Num;
    hide Pow;
    NumSplit(d, cols);
    PowStep(cols, |d| - 1);
    if |d| == 1 {
      NumEmpty(d[1..], cols);
    } else {
      var t := d[1..];
      assert t[..|t| - 1] == d[..|d| - 1][1..];
      NumOfFull(t, cols);
      assert d[..|d| - 1][0] == d[0];
      MulLe(Pow(cols, |t|), Num(t, cols), cols);
    }
  }

  function Quotient(k: nat, c: nat): (q: nat)
    requires c > 0
    ensures c * q <= k < c * q + c
  {
    if k < c then 0 else
      var q := Quotient(k - c, c);
      assert c * (q + 1) == c * q + c;
      q + 1
  }

  /** The digits of k, least significant first. */
  function Digits(k: nat, rows: nat, cols: nat): (d: seq<int>)
    requires cols > 0
    ensures |d| == rows && IsDigits(d, cols)
  {
    if rows == 0 then [] else
      var q := Quotient(k, cols);
      [k - cols * q] + Digits(q, rows - 1, cols)
  }

  lemma NumCons(a: int, d: seq<int>, cols: nat)
    ensures Num([a] + d, cols) == a + cols * Num(d, cols)
  {
    assert ([a] + d)[1..] == d;
  }

  lemma QuotientBelow(k: nat, c: nat, p: nat)
    requires c > 0 && k < c * p
    ensures Quotient(k, c) < p
  {
    hide Quotient;
    var q := Quotient(k, c);
    if q >= p {
      MulNext(c, p - 1, q);
    }
  }

  lemma {:induction false} NumOfDigits(k: nat, rows: nat, cols: nat)
    requires cols > 0 && k < Pow(cols, rows)
    ensures Num(Digits(k, rows, cols), cols) == k
  {
    hide Quotient;
    hide Num;
    if rows == 0 {
      NumEmpty([], cols);
    } else {
      var q := Quotient(k, cols);
      QuotientBelow(k, cols, Pow(cols, rows - 1));
      NumOfDigits(q, rows - 1, cols);
      NumCons(k - cols * q, Digits(q, rows - 1, cols), cols);
    }
  }

  lemma NumEmpty(d: seq<int>, cols: nat)
    requires d == []
    ensures Num(d, cols) == 0
  {
  }

  /** Digit vectors and the numbers below cols^rows correspond one to one. */
  lemma DigitsOfNum(d: seq<int>, rows: nat, cols: nat, k: nat)
    requires cols > 0 && |d| == rows && IsDigits(d, cols) && k < Pow(cols, rows)
    ensures 0 <= Num(d, cols) < Pow(cols, rows)
    ensures d == Digits(k, rows, cols) <==> k == Num(d, cols)
  {
    NumBound(d, cols);
    NumOfDigits(k, rows, cols);
    if k == Num(d, cols) {
      NumInjective(d, Digits(k, rows, cols), cols);
    }
  }

  /** digits[0]++ and one ascending carry pass. */
  method Advance(digits: array<int>, cols: nat)
    requires digits.Length > 0 && cols > 0 && IsDigits(digits[..], cols)
    modifies digits
    ensures Num(digits[..], cols) == old(Num(digits[..], cols)) + 1
    ensures IsDigits(digits[..digits.Length - 1], cols) && 0 <= digits[digits.Length - 1] <= cols
  {
    NumIncrement(digits[..], cols, 0);
    ghost var start := digits[..];
    digits[0] := digits[0] + 1;
    assert digits[..] == start[0 := start[0] + 1];
    for i := 0 to digits.Length - 1
      invariant Num(digits[..], cols) == Num(start, cols) + 1
      invariant forall j :: 0 <= j < digits.Length && j != i ==> 0 <= digits[j] < cols
      invariant 0 <= digits[i] <= cols
    {
      if digits[i] == cols {
        ghost var d := digits[..];
        CarryKeepsNum(d, cols, i);
        digits[i] := 0;
        digits[i + 1] := digits[i + 1] + 1;
        assert digits[..] == d[i := 0][i + 1 := d[i + 1] + 1];
      }
    }
  }

  /** The table entries a digit vector selects, one from each row of the table. */
  function Selected(lsp: seq<real>, d: seq<int>, cols: nat): (row: seq<real>)
    requires |lsp| == |d| * cols && IsDigits(d, cols)
    ensures |row| == |d|
  {
    seq(|d|, i requires 0 <= i < |d| => TableIndex(i, d[i], |d|, cols); lsp[cols * i + d[i]])
  }

  lemma TableIndex(i: nat, digit: int, rows: nat, cols: nat)
    requires i < rows && 0 <= digit < cols
    ensures 0 <= cols * i + digit < rows * cols
  {
    MulNext(cols, i, rows);
  }

  method WriteRow(lsp: seq<real>, digits: array<int>, cols: nat) returns (row: seq<real>)
    requires |lsp| == digits.Length * cols && IsDigits(digits[..], cols)
    ensures |row| == digits.Length && forall i :: 0 <= i < |row| ==>
              (TableIndex(i, digits[i], digits.Length, cols); row[i] == lsp[cols * i + digits[i]])
    ensures row == Selected(lsp, digits[..], cols)
  {
    row := [];
    for i := 0 to digits.Length
      invariant row == Selected(lsp, digits[..], cols)[..i]
    {
      TableIndex(i, digits[i], digits.Length, cols);
      row := row + [lsp[cols * i + digits[i]]];
    }
  }

  /** The header count and the lines written: line k comes from the digits of k. */
  method CreateCodebook(lsp: seq<real>, rows: nat, cols: nat) returns (header: nat, lines: seq<seq<real>>)
    requires 1 <= rows <= MAX_ROWS && cols > 0 && |lsp| == rows * cols
    ensures header == |lines| == Pow(cols, rows)
    ensures forall k, i :: 0 <= k < |lines| && 0 <= i < rows ==>
              var digit := Digits(k, rows, cols)[i];
              |lines[k]| == rows && 0 <= cols * i + digit < |lsp| && lines[k][i] == lsp[cols * i + digit]
  {
    hide Num;
    hide Selected;
    hide Digits;
    var digits := new int[rows](_ => 0);
    ZeroNum(digits[..], cols);
    header := Pow(cols, rows);
    lines := [];
    while true
      invariant IsDigits(digits[..], cols) && Num(digits[..], cols) == |lines|
      invariant forall k :: 0 <= k < |lines| ==> lines[k] == Selected(lsp, Digits(k, rows, cols), cols)
      decreases Pow(cols, rows) - |lines|
    {
      NumBound(digits[..], cols);
      DigitsOfNum(digits[..], rows, cols, |lines|);
      var row := WriteRow(lsp, digits, cols);
      lines := lines + [row];
      Advance(digits, cols);
      if digits[rows - 1] == cols {
        NumOfFull(digits[..], cols);
        break;
      }
      assert digits[..] == digits[..rows - 1] + [digits[rows - 1]];
    }
    forall k, i | 0 <= k < |lines| && 0 <= i < rows
      ensures var digit := Digits(k, rows, cols)[i];
              |lines[k]| == rows && 0 <= cols * i + digit < |lsp| && lines[k][i] == lsp[cols * i + digit]
    {
      SelectedAt(lsp, Digits(k, rows, cols), cols, i);
    }
  }

  lemma SelectedAt(lsp: seq<real>, d: seq<int>, cols: nat, i: nat)
    requires |lsp| == |d| * cols && IsDigits(d, cols) && i < |d|
    ensures 0 <= cols * i + d[i] < |lsp| && Selected(lsp, d, cols)[i] == lsp[cols * i + d[i]]
  {
    TableIndex(i, d[i], |d|, cols);
  }

  lemma {:induction false} ZeroNum(d: seq<int>, cols: nat)
    requires forall i :: 0 <= i < |d| ==> d[i] == 0
    ensures Num(d, cols) == 0
  {
    if |d| > 0 { ZeroNum(d[1..], cols); }
  }
}
