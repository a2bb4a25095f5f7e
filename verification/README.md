# Four-digit cipher (challenge-one)

A Dafny model of the digit transform in `challenge-one/index.js`. The
transform has two directions. `encrypt` takes an integer 0..9999 (or a string
that parses to one), zero-pads it to four digits and adds 7 mod 10 to each
digit. `decrypt` zero-pads its input and maps each digit through
`negativeCompleteModulo(d - 7, 10)`. Both write digit `i` to slot
`encryptionMapLookup[i]` of a fresh `new Array(4)` and return the array's
`join('')`.

The table `[3, 4, 1, 2]` is modelled literally. Slots are `Option<string>`,
an array grows when written past its end, and `join` renders holes as the
empty string (modules `JsArray` and `Cipher`). Slot 0 is never written and
slot 4 is appended. The effective output order is therefore the rotation
`[x2, x3, x0, x1]`, and this is proved, not assumed (`CipherProofs.ScatterFour`,
`CipherProofs.TableRotatesByTwo`). The rotation is its own inverse. Adding 7
and adding 3 cancel mod 10. These two facts are why `decrypt` can reuse the
same table (`CipherSpec`).

Modules:
- `Wrappers`: `Option`. `None` stands for the `undefined` a guard clause returns.
- `JsValues`: the JavaScript behaviour the transform relies on.
  - `toString` of integers (`ToDecimal`) and `padStart`.
  - `parseInt` of a digit string and of one character.
  - `isInt`, `isNaN`, and the truncating `%` (`JsRem`).
  - Inputs are `Input = Num(JsNumber) | Text(DigitString)`, with
    `JsNumber = Integer(int) | Fraction(text) | NaN`.
- `JsArray`: arrays as sequences of slots, with `new Array(n)`, `a[k] = v` and `join('')`.
- `Cipher`: the table, `negativeCompleteModulo`, the two per-character steps,
  the scatter loop, `Encrypt` and `Decrypt`, each written as the code computes it.
- `CipherSpec`: an independent reference, "shift every digit by k mod 10, then
  rotate by two", and the round trip proved at that level.
- `CipherProofs`, `CipherProperties`: the literal transforms related to the
  reference, the guard behaviour, the round trips and the source's worked
  examples.

Behaviour of the code worth knowing, all of it modelled as written:
- The table is not a permutation of 0..3: its targets are 1..4. Slot 0 stays
  a hole and slot 4 is appended (`CipherProofs.ScatterFour`).
- `encrypt` does not reject negative values: index.js:33 checks only the
  upper bound. `encrypt(-5)` renders `"-5"`, pads it to `"00-5"`, and the `-`
  parses to NaN, giving `"NaN277"` (`CipherProperties.ExampleEncryptNegative`).
  No negative input gives a string of digits (`CipherProperties.EncryptNegative`).
- For a negative multiple of the base, `negativeCompleteModulo` returns
  `base` itself (`NegativeCompleteModulo(-10, 10) == 10`), not 0. `decrypt`
  never reaches that case (`CipherProofs.NegativeModuloOfDigit`).
- `decrypt` of the empty string is not rejected. `isNaN("")` is false, so the
  input pads to `"0000"` and yields `"3333"` (`CipherProperties.ExampleEdges`).

## Model

| member | source | states |
|---|---|---|
| JsValues.ToDecimal | challenge-one/index.js:34 | `toString` of a non-negative integer is a non-empty digit string with no leading zero that reads back as the integer |
| JsValues.PadStart | challenge-one/index.js:35 | `padStart(4, "0")` leaves strings of 4 or more characters alone; otherwise the result has length 4, ends with the input, and is `'0'` before it |
| JsValues.ParseInt | challenge-one/index.js:31 | `parseInt` of a digit string is NaN exactly for the empty string and otherwise the integer the digits denote |
| JsValues.ParseDigit | challenge-one/index.js:40 | `parseInt` of one character is a digit 0..9 exactly when the character is a decimal digit, and NaN otherwise |
| JsValues.IsInt | challenge-one/index.js:6-10 | `isInt` holds exactly for integer numbers; its meaning in `encrypt` is stated by `CipherProperties.EncryptRejects` |
| JsValues.IsNaN | challenge-one/index.js:53 | `isNaN` holds only for NaN, not for any digit string; its meaning in `decrypt` is stated by `CipherProperties.DecryptRejects` |
| JsValues.ToJsString | challenge-one/index.js:34 | `toString` of a string is the string itself; of a non-negative integer, the digit string with no leading zero that denotes it; of a negative integer, a minus sign followed by that rendering of its magnitude |
| JsValues.JsRem | challenge-one/index.js:21-22 | JavaScript `%` takes the sign of the dividend, is smaller than the divisor in magnitude, and agrees with the mathematical remainder for a non-negative dividend and positive divisor |
| JsArray.NewArray | challenge-one/index.js:36 | `new Array(n)` has `n` slots, all holes |
| JsArray.Store | challenge-one/index.js:40 | `a[k] = v` sets slot `k`, leaves every other old slot unchanged, and grows the array to `k + 1` slots with holes when `k` is past the end |
| JsArray.Join | challenge-one/index.js:42 | `join('')` concatenates the slots in order with holes as empty strings; stated for the five-slot arrays the transforms build by `CipherProofs.JoinFive` |
| JsArray.JoinAppend | challenge-one/index.js:42 | `join('')` of two concatenated arrays is the concatenation of their joins |
| Cipher.Lookup | challenge-one/index.js:12 | `encryptionMapLookup[i]` is defined exactly for positions 0..3 |
| Cipher.NegativeCompleteModulo | challenge-one/index.js:20-23 | for a positive base: a non-negative dividend gives its remainder, in `[0, base)`; a negative one gives a result in `[1, base]`; the result equals `base` exactly when the dividend is a negative multiple of it; the result is always congruent to the dividend (which, with the range, determines it) |
| Cipher.Scatter | challenge-one/index.js:36-41 | the array built by the loop never has fewer than the 4 slots it starts with |
| Cipher.EncryptCell | challenge-one/index.js:40 | encrypt's per-character step gives a single digit for a digit and "NaN" (not a digit string) otherwise; the digit's value is stated by `CipherProofs.EncryptCellDigit` |
| Cipher.DecryptCell | challenge-one/index.js:59 | decrypt's per-character step gives a single digit for a digit and "NaN" (not a digit string) otherwise; the digit's value is stated by `CipherProofs.DecryptCellDigit` |
| Cipher.Transform | challenge-one/index.js:35-42 | pad, scatter and join; on four digits it shifts each digit and rotates by two (`CipherProofs.EncryptTransformFour`, `CipherProofs.DecryptTransformFour`), and characters past the fourth are ignored (`CipherProofs.ScatterIgnoresTail`) |
| Cipher.Encrypt | challenge-one/index.js:30-43 | `encrypt`; when it gives no result is stated by `CipherProperties.EncryptRejects`, what it gives by `CipherProperties.EncryptAccepts`, `CipherProperties.EncryptText` and `CipherProperties.EncryptNegative` |
| Cipher.Decrypt | challenge-one/index.js:52-62 | `decrypt`; when it gives no result is stated by `CipherProperties.DecryptRejects`, what it gives by `CipherProperties.DecryptFour`, `CipherProperties.DecryptNumber`, `CipherProperties.DecryptPadsShort` and `CipherProperties.DecryptIgnoresTail` |
| CipherProofs.ScatterFour | challenge-one/index.js:12 | for four characters the loop leaves slot 0 a hole, puts characters 2, 3, 0, 1 in slots 1..4, and grows the array to 5 slots |
| CipherProofs.TableRotatesByTwo | challenge-one/index.js:36-42 | joining the scattered array of four characters gives the transformed characters in the order 2, 3, 0, 1: a rotation by two |
| CipherProofs.JoinFive | challenge-one/index.js:42 | `join('')` of a five-slot array concatenates the slots in order, holes as empty strings |
| CipherProofs.ScatterIgnoresTail | challenge-one/index.js:37-40 | characters past the fourth find no table entry and leave the array as the first four made it |
| CipherProofs.NegativeModuloOfDigit | challenge-one/index.js:59 | for a digit `d`, `negativeCompleteModulo(d - 7, 10)` lies in 0..9 and equals `(d + 3) % 10`, so the `base` edge case is unreachable from decrypt |
| CipherProofs.NegativeModuloEdge | challenge-one/index.js:20-23 | `(-10, 10)` gives 10 (not 0), `(-1, 10)` gives 9, `(5, 10)` gives 5, `(0, 10)` gives 0 |
| CipherProofs.EncryptCellDigit | challenge-one/index.js:40 | encrypt's per-character step turns a digit into the single digit 7 higher mod 10 |
| CipherProofs.DecryptCellDigit | challenge-one/index.js:59 | decrypt's per-character step turns a digit into the single digit 3 higher (7 lower) mod 10 |
| CipherProofs.PaddedDecimal | challenge-one/index.js:34-35 | rendering then padding an integer 0..9999 gives exactly its four decimal digits, thousands first |
| CipherProofs.EncryptTransformFour | challenge-one/index.js:36-42 | on a four-digit string, encrypt's loop and join add 7 mod 10 to each digit and rotate by two |
| CipherProofs.DecryptTransformFour | challenge-one/index.js:56-61 | on a four-digit string, decrypt's loop and join add 3 mod 10 to each digit and rotate by two |
| CipherSpec.RotateTwoInvolution | challenge-one/index.js:12 | the effective placement `[x2, x3, x0, x1]` undoes itself |
| CipherSpec.ShiftCancels | challenge-one/index.js:40 | adding 7 and then 3 mod 10 to every digit, in either order, gives the digits back |
| CipherSpec.FourDigitsValue | challenge-one/index.js:31-35 | a four-digit string denotes a number at most 9999 whose four padded digits are the string again |
| CipherSpec.ValueFourDigits | challenge-one/index.js:34-35 | the four padded digits of a number 0..9999 denote that number |
| CipherSpec.SpecDecryptEncrypt | challenge-one/index.js:40 | reference decryption undoes reference encryption of any number 0..9999 |
| CipherSpec.SpecEncryptDecrypt | challenge-one/index.js:59 | reference encryption of the number a reference decryption denotes gives the code back |
| CipherProperties.EncryptRejects | challenge-one/index.js:30-33 | `encrypt` gives no result exactly for NaN, fractions, the empty string (NaN after `parseInt`) and integers above 9999; negative integers are not rejected |
| CipherProperties.EncryptAccepts | challenge-one/index.js:30-43 | for 0..9999, `encrypt` gives the four digits e2 e3 e0 e1, where e_i is padded digit i of the number plus 7 mod 10 |
| CipherProperties.EncryptText | challenge-one/index.js:31 | a non-empty digit string at most 9999 is encrypted as the number it parses to |
| CipherProperties.EncryptNegative | challenge-one/index.js:31-42 | a negative integer passes both guards, so `encrypt` gives a result; its minus sign falls within the first four padded characters and becomes "NaN", so the result is never a string of digits |
| CipherProperties.DecryptRejects | challenge-one/index.js:53 | `decrypt` gives no result for NaN and only for NaN |
| CipherProperties.DecryptFour | challenge-one/index.js:52-62 | for a code c0..c3 of four digits, `decrypt` gives f2 f3 f0 f1 with f_i = (c_i + 3) % 10 |
| CipherProperties.DecryptPadsShort | challenge-one/index.js:54-55 | a digit string shorter than four is decrypted exactly as its zero-padded form |
| CipherProperties.DecryptNumber | challenge-one/index.js:53-55 | a number 0..9999 is decrypted as its four padded digits |
| CipherProperties.DecryptIgnoresTail | challenge-one/index.js:57-59 | a digit string longer than four is decrypted as its first four characters |
| CipherProperties.RoundTrip | challenge-one/index.js:30-62 | for 0..9999, `encrypt` gives a digit string and `decrypt` of it is the number's four padded digits |
| CipherProperties.RoundTripCode | challenge-one/index.js:52-62 | for a four-digit code, `decrypt` gives a digit string and `encrypt` of it is the code |
| CipherProperties.ExampleEncrypt1234 | challenge-one/index.js:65 | `encrypt(1234)` is "0189" |
| CipherProperties.ExampleDecrypt189 | challenge-one/index.js:66 | `decrypt(189)` is "1234" |
| CipherProperties.ExampleEncrypt9562 | challenge-one/index.js:67 | `encrypt("9562")` is "3962" |
| CipherProperties.ExampleDecrypt3962 | challenge-one/index.js:68 | `decrypt("3962")` is "9562" |
| CipherProperties.ExampleEdges | challenge-one/index.js:31-33 | `decrypt("")` is "3333"; `encrypt("")` and `encrypt(10000)` give no result |
| CipherProperties.ExampleEncryptNegative | challenge-one/index.js:31-42 | `encrypt(-5)` is "NaN277" |

## Left out

- The command-line front end (lines 75-125): argument handling, file reads and writes, `exit` and the help text. It is I/O glue.
- JavaScript floating point. Numbers are exact integers rendered in plain decimal. Precision loss above 2^53, exponent notation from 10^21 up, and the infinities are not modelled. (`isInt(-Infinity)` is true, so `encrypt(-Infinity)` passes both guards and gives "NaNNaNNaNNaN"; `encrypt(Infinity)` is rejected by the upper bound.)
- A fraction is carried as the text its `toString` gives (`Fraction(text)`); that rendering itself is not derived.
- Strings are limited to strings of decimal digits (`DigitString`). These are not modelled: `parseInt` on leading whitespace, signs or partial prefixes such as "12abc", and `isNaN`'s conversion of strings such as " 12", "0x1f" or "1e3".
- Non-numeric values. Only `undefined` and plain objects are represented, by `NaN`: both guards reject them, like NaN. Arrays, booleans and `null` are not modelled. `isNaN` converts them to numbers (`[]` to 0, `[189]` to 189, `true` to 1, `null` to 0), so `decrypt` does not reject them: `decrypt([])` gives "3333", `decrypt(true)` gives "NaNNaNNaNNaN", and `decrypt(null)` throws at `toString`.
- Cipher.NegativeCompleteModulo: the contract speaks only of a positive base, the only base the transform uses; a negative base is modelled (JavaScript `%` semantics) but not characterised, and base 0 (NaN in JavaScript) is excluded by the precondition.
- Cipher.Scatter: its own contract only bounds the array's length; what it stores is stated by `CipherProofs.ScatterFour` and `CipherProofs.ScatterIgnoresTail`.
- CipherProperties.EncryptNegative: for a negative integer the contract states only that the result exists and is not a string of digits; the exact text is spelled out only for the worked case `-5`.
