/** The promises of `encrypt` and `decrypt`: when they give no result, what
    they give otherwise, the round trip, and the worked examples. */
module CipherProperties {
  import opened Wrappers
  import opened JsValues
  import opened JsArray
  import opened Cipher
  import opened CipherSpec
  import opened CipherProofs

  /** `encrypt` gives no result exactly for non-integers (NaN, fractions, the
      empty string) and integers above 9999. */
  lemma EncryptRejects(v: Input)
    ensures Encrypt(v).None? <==>
      match v
      case Num(Integer(n)) => n > 9999
      case Num(_) => true
      case Text(s) => |s| == 0 || Value(s) > 9999
  {
  }

  /** For 0..9999, `encrypt` gives four digits: the padded digits of `n`,
      each plus 7 mod 10, in the order 2, 3, 0, 1. */
  lemma EncryptAccepts(n: nat)
    requires n <= 9999
    ensures Encrypt(Num(Integer(n))) == Some(EncryptSpec(n))
    ensures var d := FourDigits(n);
      EncryptSpec(n) == [ShiftDigit(d[2], 7), ShiftDigit(d[3], 7), ShiftDigit(d[0], 7), ShiftDigit(d[1], 7)]
  {
    var d := FourDigits(n);
    assert ToJsString(Num(Integer(n))) == ToDecimal(n);
    PaddedDecimal(n);
    assert PadStart(d, 4, '0') == d;
    EncryptTransformFour(d);
    assert Transform(ToDecimal(n), EncryptCell) == Transform(d, EncryptCell);
    RotatedShiftDigits(d, 7);
  }

  /** A string of digits is encrypted as the number it parses to. */
  lemma EncryptText(s: DigitString)
    requires 1 <= |s| && Value(s) <= 9999
    ensures Encrypt(Text(s)) == Some(EncryptSpec(Value(s)))
  {
    var n := Value(s);
    assert ParseInt(s) == Integer(n);
    assert Encrypt(Text(s)) == Encrypt(Num(Integer(n)));
    EncryptAccepts(n);
  }

  /** `decrypt` gives no result only for NaN. */
  lemma DecryptRejects(v: Input)
    ensures Decrypt(v).None? <==> v == Num(NaN)
  {
  }

  /** For a four-digit code, `decrypt` gives its digits each plus 3 mod 10
      (minus 7 mod 10), in the order 2, 3, 0, 1. */
  lemma DecryptFour(c: DigitString)
    requires |c| == 4
    ensures Decrypt(Text(c)) == Some(DecryptSpec(c))
    ensures DecryptSpec(c) == [ShiftDigit(c[2], 3), ShiftDigit(c[3], 3), ShiftDigit(c[0], 3), ShiftDigit(c[1], 3)]
  {
    assert ToJsString(Text(c)) == c;
    assert PadStart(c, 4, '0') == c;
    DecryptTransformFour(c);
    RotatedShiftDigits(c, 3);
  }

  /** A shorter string of digits is decrypted as its zero-padded form. */
  lemma DecryptPadsShort(s: DigitString)
    requires |s| <= 4
    ensures AllDigits(PadStart(s, 4, '0'))
    ensures Decrypt(Text(s)) == Decrypt(Text(PadStart(s, 4, '0')))
  {
    var p := PadStart(s, 4, '0');
    forall i | 0 <= i < |p|
      ensures IsDigit(p[i])
    {
      if i >= |p| - |s| {
        assert p[i] == p[|p| - |s|..][i - (|p| - |s|)];
      }
    }
  }

  /** A number in 0..9999 is decrypted as its four padded digits. */
  lemma DecryptNumber(n: nat)
    requires n <= 9999
    ensures Decrypt(Num(Integer(n))) == Decrypt(Text(FourDigits(n)))
    ensures Decrypt(Num(Integer(n))) == Some(DecryptSpec(FourDigits(n)))
  {
    var d := FourDigits(n);
    assert ToJsString(Num(Integer(n))) == ToDecimal(n);
    PaddedDecimal(n);
    assert PadStart(d, 4, '0') == d;
    assert Transform(ToDecimal(n), DecryptCell) == Transform(d, DecryptCell);
    DecryptFour(d);
    assert Decrypt(Text(d)) == Some(Transform(d, DecryptCell));
  }

  /** Characters past the fourth do not affect `decrypt`. */
  lemma DecryptIgnoresTail(s: DigitString)
    requires |s| >= 4
    ensures Decrypt(Text(s)) == Decrypt(Text(s[..4]))
  {
    ScatterIgnoresTail(s, DecryptCell);
    assert PadStart(s[..4], 4, '0') == s[..4];
  }

  /** Decrypting the encryption of 0..9999 gives its four padded digits. */
  lemma RoundTrip(n: nat)
    requires n <= 9999
    ensures Encrypt(Num(Integer(n))).Some?
    ensures var e := Encrypt(Num(Integer(n))).value;
      AllDigits(e) && Decrypt(Text(e)) == Some(FourDigits(n))
  {
    EncryptAccepts(n);
    DecryptFour(EncryptSpec(n));
    SpecDecryptEncrypt(n);
  }

  /** Encrypting the decryption of a four-digit code gives the code back. */
  lemma RoundTripCode(c: DigitString)
    requires |c| == 4
    ensures Decrypt(Text(c)).Some?
    ensures var p := Decrypt(Text(c)).value;
      AllDigits(p) && Encrypt(Text(p)) == Some(c)
  {
    DecryptFour(c);
    var p := DecryptSpec(c);
    SpecEncryptDecrypt(c);
    EncryptText(p);
  }

  lemma SpecEncrypt1234()
    ensures EncryptSpec(1234) == "0189"
  {
    assert FourDigits(1234) == "1234" by {
      ModUnique(1234, 1000, 1, 234);
      ModUnique(1234, 100, 12, 34);
      ModUnique(1234, 10, 123, 4);
      ModUnique(12, 10, 1, 2);
      ModUnique(123, 10, 12, 3);
    }
    var t := Shift("1234", 7);
    assert t == "8901" by {
      DigitOfChar(1);
      DigitOfChar(2);
      DigitOfChar(3);
      DigitOfChar(4);
    }
  }

  /** The worked examples of the source: `encrypt(1234)` is "0189". */
  lemma ExampleEncrypt1234()
    ensures Encrypt(Num(Integer(1234))) == Some("0189")
  {
    EncryptAccepts(1234);
    SpecEncrypt1234();
  }

  lemma SpecDecrypt189()
    ensures FourDigits(189) == "0189"
    ensures DecryptSpec("0189") == "1234"
  {
    var d := FourDigits(189);
    assert d[0] == '0' && d[1] == '1' && d[2] == '8' && d[3] == '9';
    var t := Shift("0189", 3);
    assert t[0] == '3' && t[1] == '4' && t[2] == '1' && t[3] == '2';
  }

  /** `decrypt(189)` is "1234": the number is padded to "0189" first. */
  lemma ExampleDecrypt189()
    ensures Decrypt(Num(Integer(189))) == Some("1234")
  {
    DecryptNumber(189);
    SpecDecrypt189();
  }

  lemma Value9562()
    ensures Value("9562") == 9562
  {
    ValueOfFour("9562");
  }

  lemma SpecEncrypt9562()
    ensures EncryptSpec(9562) == "3962"
  {
    assert FourDigits(9562) == "9562" by {
      ModUnique(9562, 1000, 9, 562);
      ModUnique(9562, 100, 95, 62);
      ModUnique(9562, 10, 956, 2);
      ModUnique(95, 10, 9, 5);
      ModUnique(956, 10, 95, 6);
    }
    assert Shift("9562", 7) == "6239" by {
      DigitOfChar(9);
      DigitOfChar(5);
      DigitOfChar(6);
      DigitOfChar(2);
    }
  }

  /** `encrypt("9562")` is "3962". */
  lemma ExampleEncrypt9562()
    ensures Encrypt(Text("9562")) == Some("3962")
  {
    Value9562();
    SpecEncrypt9562();
    EncryptText("9562");
  }

  lemma SpecDecrypt3962()
    ensures DecryptSpec("3962") == "9562"
  {
    var t := Shift("3962", 3);
    assert t[0] == '6' && t[1] == '2' && t[2] == '9' && t[3] == '5';
  }

  /** `decrypt("3962")` is "9562". */
  lemma ExampleDecrypt3962()
    ensures Decrypt(Text("3962")) == Some("9562")
  {
    DecryptFour("3962");
    SpecDecrypt3962();
  }

  lemma SpecDecrypt0000()
    ensures PadStart("", 4, '0') == "0000"
    ensures DecryptSpec("0000") == "3333"
  {
    var t := Shift("0000", 3);
    assert t[0] == '3' && t[1] == '3' && t[2] == '3' && t[3] == '3';
  }

  /** The empty string: `decrypt` pads it to "0000", `encrypt` parses it to
      NaN; and 10000 is out of range for `encrypt`. */
  lemma ExampleEdges()
    ensures Decrypt(Text("")) == Some("3333")
    ensures Encrypt(Text("")) == None
    ensures Encrypt(Num(Integer(10000))) == None
  {
    DecryptPadsShort("");
    SpecDecrypt0000();
    DecryptFour("0000");
  }

  /** A join of four cells one of which is "NaN" is not a string of digits. */
  lemma NaNCellBreaksDigits(a: string, b: string, c: string, d: string)
    requires a == "NaN" || b == "NaN" || c == "NaN" || d == "NaN"
    ensures !AllDigits(a + (b + (c + d)))
  {
    var r := a + (b + (c + d));
    if a == "NaN" {
      assert r[0] == 'N';
    } else if b == "NaN" {
      assert r[|a|] == 'N';
    } else if c == "NaN" {
      assert r[|a| + |b|] == 'N';
    } else {
      assert r[|a| + |b| + |c|] == 'N';
    }
  }

  /** A negative integer is not rejected by `encrypt`, but its minus sign
      lands among the first four padded characters and parses to NaN, so the
      result is never a string of digits and cannot be decrypted back. */
  lemma EncryptNegative(n: int)
    requires n < 0
    ensures Encrypt(Num(Integer(n))).Some?
    ensures !AllDigits(Encrypt(Num(Integer(n))).value)
  {
    var s := ToJsString(Num(Integer(n)));
    var p := PadStart(s, 4, '0');
    var q := p[..4];
    ScatterIgnoresTail(p, EncryptCell);
    TableRotatesByTwo(q, EncryptCell);
    var j := if |s| >= 4 then 0 else 4 - |s|;
    assert q[j] == '-' by {
      assert p[|p| - |s|..][0] == s[0];
    }
    NaNCellBreaksDigits(EncryptCell(q[2]), EncryptCell(q[3]), EncryptCell(q[0]), EncryptCell(q[1]));
  }

  lemma NegativeFiveCells()
    ensures PadStart("-" + ToDecimal(5), 4, '0') == "00-5"
    ensures EncryptCell('0') == "7"
    ensures EncryptCell('5') == "2"
    ensures EncryptCell('-') == "NaN"
  {
    assert ToDecimal(5) == "5";
    EncryptCellDigit('0');
    EncryptCellDigit('5');
    ModUnique(12, 10, 1, 2);
  }

  /** For instance "-5" pads to "00-5" and the '-' parses to NaN, so
      `encrypt(-5)` is "NaN277". */
  lemma ExampleEncryptNegative()
    ensures Encrypt(Num(Integer(-5))) == Some("NaN277")
  {
    assert ToJsString(Num(Integer(-5))) == "-" + ToDecimal(5);
    NegativeFiveCells();
    TableRotatesByTwo("00-5", EncryptCell);
    assert "NaN" + ("2" + ("7" + "7")) == "NaN277";
  }
}
