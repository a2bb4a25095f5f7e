/** The slice of JavaScript value semantics the digit transform relies on:
    decimal rendering of integers (`toString`), `padStart`, `parseInt` of a
    string of digits, `isNaN`, and the truncating remainder operator `%`. */
module JsValues {
  import opened Wrappers

  predicate IsDigit(c: char) {
    '0' <= c <= '9'
  }

  predicate AllDigits(s: string) {
    forall i :: 0 <= i < |s| ==> IsDigit(s[i])
  }

  /** A string made only of the characters '0'..'9' (possibly empty). */
  type DigitString = s: string | AllDigits(s)

  function DigitChar(d: nat): (c: char)
    requires d < 10
    ensures IsDigit(c)
  {
    (48 + d) as char
  }

  function DigitOf(c: char): (d: nat)
    requires IsDigit(c)
    ensures d < 10
    ensures DigitChar(d) == c
  {
    (c as int) - 48
  }

  lemma DigitOfChar(d: nat)
    requires d < 10
    ensures DigitOf(DigitChar(d)) == d
  {
  }

  /** The number a string of decimal digits denotes, most significant first;
      the empty string denotes 0. */
  function Value(s: DigitString): (v: nat)
    decreases |s|
  {
    if |s| == 0 then 0 else 10 * Value(s[..|s| - 1]) + DigitOf(s[|s| - 1])
  }

  /** `n.toString()` for a non-negative integer: the shortest decimal
      rendering, which reads back as `n`. */
  function ToDecimal(n: nat): (r: DigitString)
    ensures 1 <= |r|
    ensures Value(r) == n
    ensures 1 < |r| ==> r[0] != '0'
    decreases n
  {
    if n < 10 then [DigitChar(n)]
    else
      var high := ToDecimal(n / 10);
      var r := high + [DigitChar(n % 10)];
      assert r[..|r| - 1] == high;
      r
  }

  /** `s.padStart(len, fill)` with a one-character pad string: left-pads `s`
      with `fill` up to `len` characters and leaves longer strings alone. */
  function PadStart(s: string, len: nat, fill: char): (r: string)
    ensures |r| == if |s| >= len then |s| else len
    ensures r[|r| - |s|..] == s
    ensures forall i :: 0 <= i < |r| - |s| ==> r[i] == fill
  {
    if |s| >= len then s else seq(len - |s|, _ => fill) + s
  }

  /** The JavaScript numbers the transforms meet. `Fraction` is a finite
      number with a fractional part, carried as the text its `toString`
      gives; `NaN` is not-a-number. */
  datatype JsNumber = Integer(n: int) | Fraction(text: string) | NaN

  /** An argument to `encrypt`/`decrypt`: a number, or a string of digits. */
  datatype Input = Num(x: JsNumber) | Text(s: DigitString)

  /** `parseInt` of a string of digits: NaN for the empty string. */
  function ParseInt(s: DigitString): (r: JsNumber)
    ensures r.NaN? <==> |s| == 0
    ensures |s| > 0 ==> r == Integer(Value(s))
  {
    if |s| == 0 then NaN else Integer(Value(s))
  }

  /** `parseInt` of a one-character string: the digit, or NaN (`None`). */
  function ParseDigit(c: char): (r: Option<nat>)
    ensures r.Some? <==> IsDigit(c)
    ensures r.Some? ==> r.value < 10 && DigitChar(r.value) == c
  {
    if IsDigit(c) then Some(DigitOf(c)) else None
  }

  /** `isInt`: a value of type number whose floor is itself. */
  predicate IsInt(v: Input) {
    v.Num? && v.x.Integer?
  }

  /** `isNaN`: only NaN itself; every string of digits, the empty one
      included, converts to a number. */
  predicate IsNaN(v: Input) {
    v.Num? && v.x.NaN?
  }

  /** `toString` of an input. An integer renders as its decimal digits,
      preceded by a minus sign when it is negative. */
  function ToJsString(v: Input): (r: string)
    ensures v.Text? ==> r == v.s
    ensures v.Num? && v.x.Integer? && v.x.n >= 0 ==>
      1 <= |r| && AllDigits(r) && Value(r) == v.x.n && (1 < |r| ==> r[0] != '0')
    ensures v.Num? && v.x.Integer? && v.x.n < 0 ==>
      2 <= |r| && r[0] == '-' && AllDigits(r[1..]) && Value(r[1..]) == -v.x.n && (2 < |r| ==> r[1] != '0')
  {
    match v
    case Text(s) => s
    case Num(Integer(n)) => if n < 0 then "-" + ToDecimal(-n) else ToDecimal(n)
    case Num(Fraction(t)) => t
    case Num(NaN) => "NaN"
  }

  function Abs(a: int): (r: nat)
    ensures r == a || r == -a
  {
    if a < 0 then -a else a
  }

  /** JavaScript's `a % b` on integers: truncating division, so the
      remainder takes the sign of the dividend and is smaller than the
      divisor in magnitude. */
  function JsRem(a: int, b: int): (r: int)
    requires b != 0
    ensures Abs(r) < Abs(b)
    ensures a >= 0 ==> r >= 0
    ensures a <= 0 ==> r <= 0
    ensures a >= 0 && b > 0 ==> r == a % b
  {
    var m := Abs(b);
    var q := Abs(a) % m;
    assert 0 <= q < m;
    assert b > 0 ==> m == b;
    if a < 0 then -q else q
  }

  /** Euclidean division is unique: any decomposition `x == n * q + r`
      with `0 <= r < n` names `x / n` and `x % n`. */
  lemma ModUnique(x: int, n: int, q: int, r: int)
    requires n > 0 && 0 <= r < n && x == n * q + r
    ensures x / n == q
    ensures x % n == r
  {
    var q' := x / n;
    var r' := x % n;
    assert x == n * q' + r';
    var d := q - q';
    assert n * d == r' - r;
    if d > 0 {
      assert false;
    } else if d < 0 {
      assert false;
    }
  }
}
