/** The digit transform of challenge-one/index.js: the position table, the
    sign-correcting modulo, and `encrypt`/`decrypt`, each written the way
    the JavaScript computes it. */
module Cipher {
  import opened Wrappers
  import opened JsValues
  import opened JsArray

  /** `encryptionMapLookup`: the slot each input position is written to.
      The targets are 1..4, not 0..3. */
  const EncryptionMapLookup: seq<nat> := [3, 4, 1, 2]

  /** `encryptionMapLookup[i]`; past the end the lookup is `undefined`. */
  function Lookup(i: nat): (r: Option<nat>)
    ensures r.Some? <==> i < 4
  {
    if i < |EncryptionMapLookup| then Some(EncryptionMapLookup[i]) else None
  }

  /** `negativeCompleteModulo`: the plain remainder for a non-negative
      dividend, `base - (|a| % base)` for a negative one. For a positive
      base the result is congruent to `a` and lies in 0..base, reaching
      `base` exactly when a negative `a` is a multiple of it. */
  function NegativeCompleteModulo(a: int, base: int): (r: int)
    requires base != 0
    ensures base > 0 && a >= 0 ==> 0 <= r < base && r == a % base
    ensures base > 0 && a < 0 ==> 1 <= r <= base
    ensures base > 0 ==> (r == base <==> a < 0 && a % base == 0)
    ensures base > 0 ==> r % base == a % base
  {
    RemainderFacts(a, base);
    if a >= 0 then JsRem(a, base) else base - JsRem(Abs(a), base)
  }

  /** The congruences behind `NegativeCompleteModulo`: for a positive `n`,
      both branches are congruent to `a`, and for a negative `a` the
      remainder of `-a` vanishes exactly when `a` is a multiple of `n`. */
  lemma RemainderFacts(a: int, n: int)
    requires n != 0
    ensures n > 0 && a >= 0 ==> JsRem(a, n) % n == a % n
    ensures n > 0 && a < 0 ==> (n - JsRem(-a, n)) % n == a % n
    ensures n > 0 && a < 0 ==> (JsRem(-a, n) == 0 <==> a % n == 0)
  {
    if n > 0 && a >= 0 {
      var r := JsRem(a, n);
      ModUnique(r, n, 0, r);
    } else if n > 0 && a < 0 {
      var p := -a;
      var q := p / n;
      var m := p % n;
      assert JsRem(-a, n) == m;
      assert p == n * q + m;
      if m == 0 {
        ModUnique(a, n, -q, 0);
        ModUnique(n, n, 1, 0);
      } else {
        ModUnique(a, n, -q - 1, n - m);
        ModUnique(n - m, n, 0, n - m);
      }
    }
  }

  /** Encrypt's per-character step: the digit plus 7, remainder mod 10,
      rendered as a string; a non-digit parses to NaN and renders as "NaN". */
  function EncryptCell(c: char): (r: string)
    ensures AllDigits(r) <==> IsDigit(c)
    ensures IsDigit(c) ==> |r| == 1
    ensures !IsDigit(c) ==> r == "NaN"
  {
    match ParseDigit(c)
    case Some(d) => ToDecimal(JsRem(d + 7, 10))
    case None => assert !IsDigit("NaN"[0]); "NaN"
  }

  /** Decrypt's per-character step: the sign-correcting modulo 10 of the
      digit minus 7, rendered by `join`; NaN stays NaN through the modulo. */
  function DecryptCell(c: char): (r: string)
    ensures AllDigits(r) <==> IsDigit(c)
    ensures IsDigit(c) ==> |r| == 1
    ensures !IsDigit(c) ==> r == "NaN"
  {
    match ParseDigit(c)
    case Some(d) => ToDecimal(NegativeCompleteModulo(d - 7, 10))
    case None => assert !IsDigit("NaN"[0]); "NaN"
  }

  /** The `forEach` loop: starting from `new Array(4)`, character `i` of `s`
      is transformed by `cell` and stored at `encryptionMapLookup[i]`; a write
      through an `undefined` index sets a non-index property, which `join`
      never sees, so it is dropped. */
  function Scatter(s: string, cell: char -> string): (a: Slots)
    ensures 4 <= |a|
    decreases |s|
  {
    if |s| == 0 then NewArray(4)
    else
      var i := |s| - 1;
      var prev := Scatter(s[..i], cell);
      match Lookup(i)
      case Some(k) => Store(prev, k, cell(s[i]))
      case None => prev
  }

  /** The common tail of both transforms: pad to four characters, scatter
      through the table, join. */
  function Transform(s: string, cell: char -> string): (r: string) {
    Join(Scatter(PadStart(s, 4, '0'), cell))
  }

  /** `encrypt`: strings go through `parseInt`; anything that is not then
      an integer, and any integer above 9999, gives no result. Negative
      integers are not rejected. */
  function Encrypt(v: Input): (r: Option<string>) {
    var w := if v.Text? then Num(ParseInt(v.s)) else v;
    if !IsInt(w) then None
    else if w.x.n > 9999 then None
    else Some(Transform(ToJsString(w), EncryptCell))
  }

  /** `decrypt`: only NaN is rejected; everything else is rendered with
      `toString` and transformed. */
  function Decrypt(v: Input): (r: Option<string>) {
    if IsNaN(v) then None
    else Some(Transform(ToJsString(v), DecryptCell))
  }
}
