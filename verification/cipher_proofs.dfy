/** What the literal JavaScript transforms compute, and how they relate to
    the reference description in CipherSpec. */
module CipherProofs {
  import opened Wrappers
  import opened JsValues
  import opened JsArray
  import opened Cipher
  import opened CipherSpec

  /** The table writes the four characters to slots 3, 4, 1, 2 of a
      four-slot array: slot 0 stays a hole and slot 4 grows the array. */
  lemma {:induction false} ScatterFour(s: string, cell: char -> string)
    requires |s| == 4
    ensures Scatter(s, cell) == [None, Some(cell(s[2])), Some(cell(s[3])), Some(cell(s[0])), Some(cell(s[1]))]
  {
    var s3, s2, s1 := s[..3], s[..2], s[..1];
    assert s3[..2] == s2 && s2[..1] == s1 && s1[..0] == [];
    var a0 := Scatter(s1[..0], cell);
    assert a0 == [None, None, None, None];
    var a1 := Scatter(s1, cell);
    assert a1 == Store(a0, 3, cell(s[0]));
    assert a1 == [None, None, None, Some(cell(s[0]))];
    var a2 := Scatter(s2, cell);
    assert a2 == Store(a1, 4, cell(s[1]));
    assert a2 == [None, None, None, Some(cell(s[0])), Some(cell(s[1]))];
    var a3 := Scatter(s3, cell);
    assert a3 == Store(a2, 1, cell(s[2]));
    assert a3 == [None, Some(cell(s[2])), None, Some(cell(s[0])), Some(cell(s[1]))];
    assert Scatter(s, cell) == Store(a3, 2, cell(s[3]));
  }

  /** Hence the table's effective order is a rotation by two. */
  lemma TableRotatesByTwo(s: string, cell: char -> string)
    requires |s| == 4
    ensures Join(Scatter(s, cell)) == cell(s[2]) + (cell(s[3]) + (cell(s[0]) + cell(s[1])))
  {
    ScatterFour(s, cell);
    JoinFive(None, Some(cell(s[2])), Some(cell(s[3])), Some(cell(s[0])), Some(cell(s[1])));
  }

  lemma JoinFive(x0: Option<string>, x1: Option<string>, x2: Option<string>, x3: Option<string>, x4: Option<string>)
    ensures Join([x0, x1, x2, x3, x4]) == Render(x0) + (Render(x1) + (Render(x2) + (Render(x3) + Render(x4))))
  {
    assert [x4][1..] == [];
    assert Render(x4) + "" == Render(x4);
    assert Join([x4]) == Render(x4);
    assert [x3, x4][1..] == [x4];
    assert Join([x3, x4]) == Render(x3) + Render(x4);
    assert [x2, x3, x4][1..] == [x3, x4];
    assert Join([x2, x3, x4]) == Render(x2) + (Render(x3) + Render(x4));
    assert [x1, x2, x3, x4][1..] == [x2, x3, x4];
    assert Join([x1, x2, x3, x4]) == Render(x1) + (Render(x2) + (Render(x3) + Render(x4)));
    assert [x0, x1, x2, x3, x4][1..] == [x1, x2, x3, x4];
  }

  /** Characters past the fourth find no table entry and change nothing. */
  lemma {:induction false} ScatterIgnoresTail(s: string, cell: char -> string)
    requires |s| >= 4
    ensures Scatter(s, cell) == Scatter(s[..4], cell)
    decreases |s|
  {
    if |s| > 4 {
      var t := s[..|s| - 1];
      assert t[..4] == s[..4];
      assert Scatter(s, cell) == Scatter(t, cell);
      ScatterIgnoresTail(t, cell);
    } else {
      assert s[..4] == s;
    }
  }

  /** Over a digit the modulo in decrypt never reaches its `base` edge case:
      it lands in 0..9 and equals adding 3 mod 10. */
  lemma NegativeModuloOfDigit(d: nat)
    requires d <= 9
    ensures 0 <= NegativeCompleteModulo(d - 7, 10) <= 9
    ensures NegativeCompleteModulo(d - 7, 10) == (d + 3) % 10
  {
  }

  /** The edge case itself: a negative multiple of the base gives the base. */
  lemma NegativeModuloEdge()
    ensures NegativeCompleteModulo(-10, 10) == 10
    ensures NegativeCompleteModulo(-1, 10) == 9
    ensures NegativeCompleteModulo(5, 10) == 5
    ensures NegativeCompleteModulo(0, 10) == 0
  {
  }

  lemma EncryptCellDigit(c: char)
    requires IsDigit(c)
    ensures EncryptCell(c) == [ShiftDigit(c, 7)]
  {
  }

  lemma DecryptCellDigit(c: char)
    requires IsDigit(c)
    ensures DecryptCell(c) == [ShiftDigit(c, 3)]
  {
    NegativeModuloOfDigit(DigitOf(c));
  }

  lemma DecimalTwo(n: nat)
    requires 10 <= n < 100
    ensures ToDecimal(n) == [DigitChar(n / 10), DigitChar(n % 10)]
  {
    assert ToDecimal(n / 10) == [DigitChar(n / 10)];
  }

  lemma DecimalThree(n: nat)
    requires 100 <= n < 1000
    ensures ToDecimal(n) == [DigitChar(n / 100), DigitChar(n / 10 % 10), DigitChar(n % 10)]
  {
    DecimalTwo(n / 10);
    assert n / 10 / 10 == n / 100;
  }

  lemma DecimalFour(n: nat)
    requires 1000 <= n < 10000
    ensures ToDecimal(n) == [DigitChar(n / 1000), DigitChar(n / 100 % 10), DigitChar(n / 10 % 10), DigitChar(n % 10)]
  {
    DecimalThree(n / 10);
    assert n / 10 / 100 == n / 1000;
    assert n / 10 / 10 == n / 100;
  }

  /** `toString` then `padStart(4, "0")` of 0..9999 gives its four digits. */
  lemma PaddedDecimal(n: nat)
    requires n <= 9999
    ensures PadStart(ToDecimal(n), 4, '0') == FourDigits(n)
  {
    var r := ToDecimal(n);
    if n < 10 {
      assert r == [DigitChar(n)];
      ModUnique(n, 1000, 0, n);
      ModUnique(n, 100, 0, n);
      ModUnique(n, 10, 0, n);
      assert PadStart(r, 4, '0') == ['0', '0', '0'] + r;
    } else if n < 100 {
      DecimalTwo(n);
      ModUnique(n, 1000, 0, n);
      ModUnique(n, 100, 0, n);
      ModUnique(n / 10, 10, 0, n / 10);
      assert PadStart(r, 4, '0') == ['0', '0'] + r;
    } else if n < 1000 {
      DecimalThree(n);
      ModUnique(n, 1000, 0, n);
      ModUnique(n / 100, 10, 0, n / 100);
      assert PadStart(r, 4, '0') == ['0'] + r;
    } else {
      DecimalFour(n);
    }
  }

  /** Encrypt's transform of a four-digit string: add 7, rotate by two. */
  lemma EncryptTransformFour(c: DigitString)
    requires |c| == 4
    ensures Transform(c, EncryptCell) == RotateTwo(Shift(c, 7))
  {
    assert PadStart(c, 4, '0') == c;
    TableRotatesByTwo(c, EncryptCell);
    var t := Shift(c, 7);
    assert EncryptCell(c[0]) == [t[0]] by { EncryptCellDigit(c[0]); }
    assert EncryptCell(c[1]) == [t[1]] by { EncryptCellDigit(c[1]); }
    assert EncryptCell(c[2]) == [t[2]] by { EncryptCellDigit(c[2]); }
    assert EncryptCell(c[3]) == [t[3]] by { EncryptCellDigit(c[3]); }
    assert [t[2]] + ([t[3]] + ([t[0]] + [t[1]])) == RotateTwo(t);
  }

  /** Decrypt's transform of a four-digit string: add 3, rotate by two. */
  lemma DecryptTransformFour(c: DigitString)
    requires |c| == 4
    ensures Transform(c, DecryptCell) == RotateTwo(Shift(c, 3))
  {
    assert PadStart(c, 4, '0') == c;
    TableRotatesByTwo(c, DecryptCell);
    var t := Shift(c, 3);
    assert DecryptCell(c[0]) == [t[0]] by { DecryptCellDigit(c[0]); }
    assert DecryptCell(c[1]) == [t[1]] by { DecryptCellDigit(c[1]); }
    assert DecryptCell(c[2]) == [t[2]] by { DecryptCellDigit(c[2]); }
    assert DecryptCell(c[3]) == [t[3]] by { DecryptCellDigit(c[3]); }
    assert [t[2]] + ([t[3]] + ([t[0]] + [t[1]])) == RotateTwo(t);
  }
}
