/** A reference description of the transform, independent of the table and
    array mechanics: a four-digit code is shifted digit by digit mod 10 and
    rotated by two places. */
module CipherSpec {
  import opened JsValues

  /** The four zero-padded decimal digits of `n`. */
  function FourDigits(n: nat): (c: DigitString)
    requires n <= 9999
    ensures |c| == 4
  {
    [DigitChar(n / 1000), DigitChar(n / 100 % 10), DigitChar(n / 10 % 10), DigitChar(n % 10)]
  }

  /** Adds `k` to one digit, mod 10. */
  function ShiftDigit(c: char, k: nat): (r: char)
    requires IsDigit(c)
    ensures IsDigit(r)
  {
    DigitChar((DigitOf(c) + k) % 10)
  }

  /** Adds `k` to every digit, mod 10. */
  function Shift(c: DigitString, k: nat): (r: DigitString)
    ensures |r| == |c|
    ensures forall i :: 0 <= i < |c| ==> r[i] == ShiftDigit(c[i], k)
  {
    seq(|c|, i requires 0 <= i < |c| => ShiftDigit(c[i], k))
  }

  /** `[x0, x1, x2, x3]` becomes `[x2, x3, x0, x1]`. */
  function RotateTwo<T>(x: seq<T>): (r: seq<T>)
    requires |x| == 4
    ensures |r| == 4
  {
    [x[2], x[3], x[0], x[1]]
  }

  /** What `encrypt` computes for 0..9999: add 7 to each digit, rotate. */
  function EncryptSpec(n: nat): (c: DigitString)
    requires n <= 9999
    ensures |c| == 4
  {
    RotateTwo(Shift(FourDigits(n), 7))
  }

  /** What `decrypt` computes for a four-digit code: subtract 7 (add 3) from
      each digit, rotate. */
  function DecryptSpec(c: DigitString): (p: DigitString)
    requires |c| == 4
    ensures |p| == 4
  {
    RotateTwo(Shift(c, 3))
  }

  /** The shifted rotation spelled out: digits 2, 3, 0, 1 of the input,
      each shifted by `k`. */
  lemma RotatedShiftDigits(c: DigitString, k: nat)
    requires |c| == 4
    ensures RotateTwo(Shift(c, k)) == [ShiftDigit(c[2], k), ShiftDigit(c[3], k), ShiftDigit(c[0], k), ShiftDigit(c[1], k)]
  {
  }

  /** Rotating by two twice is the identity. */
  lemma RotateTwoInvolution<T>(x: seq<T>)
    requires |x| == 4
    ensures RotateTwo(RotateTwo(x)) == x
  {
  }

  /** Adding 7 and adding 3 mod 10 cancel, in either order. */
  lemma ShiftDigitCancels(c: char)
    requires IsDigit(c)
    ensures ShiftDigit(ShiftDigit(c, 7), 3) == c
    ensures ShiftDigit(ShiftDigit(c, 3), 7) == c
  {
    var d := DigitOf(c);
    if d < 3 {
      ModUnique(d + 7, 10, 0, d + 7);
      ModUnique(d + 10, 10, 1, d);
    } else {
      ModUnique(d + 7, 10, 1, d - 3);
      ModUnique(d, 10, 0, d);
    }
    if d < 7 {
      ModUnique(d + 3, 10, 0, d + 3);
      ModUnique(d + 10, 10, 1, d);
    } else {
      ModUnique(d + 3, 10, 1, d - 7);
      ModUnique(d, 10, 0, d);
    }
    DigitOfChar((d + 7) % 10);
    DigitOfChar((d + 3) % 10);
  }

  /** Shifting a whole string by 7 and by 3 cancel, in either order. */
  lemma ShiftCancels(c: DigitString)
    ensures Shift(Shift(c, 7), 3) == c
    ensures Shift(Shift(c, 3), 7) == c
  {
    forall i | 0 <= i < |c|
      ensures Shift(Shift(c, 7), 3)[i] == c[i] && Shift(Shift(c, 3), 7)[i] == c[i]
    {
      ShiftDigitCancels(c[i]);
    }
  }

  /** The value of a four-character digit string, digit by digit. */
  lemma ValueOfFour(c: DigitString)
    requires |c| == 4
    ensures Value(c) == 1000 * DigitOf(c[0]) + 100 * DigitOf(c[1]) + 10 * DigitOf(c[2]) + DigitOf(c[3])
  {
    var c3, c2, c1 := c[..3], c[..2], c[..1];
    assert c3[..2] == c2 && c2[..1] == c1 && c1[..0] == [];
    assert Value(c1) == DigitOf(c[0]);
    assert Value(c2) == 10 * DigitOf(c[0]) + DigitOf(c[1]);
    assert Value(c3) == 10 * Value(c2) + DigitOf(c[2]);
    assert Value(c) == 10 * Value(c3) + DigitOf(c[3]);
  }

  /** The digits of a four-digit string give back its value. */
  lemma FourDigitsValue(c: DigitString)
    requires |c| == 4
    ensures Value(c) <= 9999
    ensures FourDigits(Value(c)) == c
  {
    ValueOfFour(c);
    var a, b, e, f := DigitOf(c[0]), DigitOf(c[1]), DigitOf(c[2]), DigitOf(c[3]);
    var v := Value(c);
    ModUnique(v, 10, 100 * a + 10 * b + e, f);
    ModUnique(v / 10, 10, 10 * a + b, e);
    ModUnique(v, 100, 10 * a + b, 10 * e + f);
    ModUnique(v / 100, 10, a, b);
    ModUnique(v, 1000, a, 100 * b + 10 * e + f);
  }

  /** The value of a number's four digits is the number. */
  lemma ValueFourDigits(n: nat)
    requires n <= 9999
    ensures Value(FourDigits(n)) == n
  {
    var c := FourDigits(n);
    ValueOfFour(c);
    var q1 := n / 10;
    var q2 := q1 / 10;
    assert q2 == n / 100;
    assert q2 / 10 == n / 1000;
    assert n == 10 * q1 + n % 10;
    assert q1 == 10 * q2 + q1 % 10;
    assert q2 == 10 * (q2 / 10) + q2 % 10;
    DigitOfChar(n / 1000);
    DigitOfChar(n / 100 % 10);
    DigitOfChar(n / 10 % 10);
    DigitOfChar(n % 10);
  }

  /** Shifting commutes with the rotation. */
  lemma ShiftRotate(c: DigitString, k: nat)
    requires |c| == 4
    ensures Shift(RotateTwo(c), k) == RotateTwo(Shift(c, k))
  {
  }

  /** Decrypting the reference encryption of `n` gives `n`'s four digits. */
  lemma SpecDecryptEncrypt(n: nat)
    requires n <= 9999
    ensures DecryptSpec(EncryptSpec(n)) == FourDigits(n)
  {
    var d := FourDigits(n);
    ShiftRotate(RotateTwo(Shift(d, 7)), 3);
    RotateTwoInvolution(Shift(d, 7));
    ShiftCancels(d);
    RotateTwoInvolution(d);
    assert RotateTwo(Shift(RotateTwo(Shift(d, 7)), 3)) == Shift(Shift(d, 7), 3) by {
      ShiftRotate(Shift(d, 7), 3);
      RotateTwoInvolution(Shift(Shift(d, 7), 3));
    }
  }

  /** Encrypting the value of the reference decryption of `c` gives `c`. */
  lemma SpecEncryptDecrypt(c: DigitString)
    requires |c| == 4
    ensures Value(DecryptSpec(c)) <= 9999
    ensures EncryptSpec(Value(DecryptSpec(c))) == c
  {
    var p := DecryptSpec(c);
    FourDigitsValue(p);
    assert RotateTwo(Shift(p, 7)) == Shift(Shift(c, 3), 7) by {
      ShiftRotate(Shift(c, 3), 7);
      RotateTwoInvolution(Shift(Shift(c, 3), 7));
    }
    ShiftCancels(c);
  }
}
