# BlurHash encoder, integer side, in Dafny

This project models the Rust BlurHash encoder. A BlurHash is a short ASCII
string that summarises the colours of an image through a few cosine
components. The model covers:

- the base-83 codec of `src/base83.rs`;
- the `Component` descriptor and its error type from `src/lib.rs` and
  `src/error.rs`;
- the assembly of the hash in `src/encode.rs`.

That assembly has five steps:

1. Enumerate the component pairs, y outer and x inner.
2. Write the size flag.
3. Write the header digit for the largest AC channel and derive the divisor
   from it.
4. Pack the DC term into four base-83 digits.
5. Pack each AC term into two digits.

The floating-point work enters as function parameters, and the model says
nothing more about it:

- `projection(x, y)` stands for `multiply_basis_function(image, x, y)`, the
  averaged `(r, g, b)` factor of component `(x, y)`.
- `toSrgb8` stands for `f32_to_srgb8`. The model only uses the fact that it
  returns a byte.
- `signedSqrt(v)` stands for `v.abs().sqrt().copysign(v)`.

`f32` values are reals. Every later step is modelled as the code does it:

- the channel maximum;
- the clamps and floors of `quantize` and of the header digit;
- the integer packing;
- the base-83 digits;
- the layout of the string.

Files:

- `primitives.dfy` holds `u8` and a `StringBuffer` class, which models a
  `String` that the code pushes onto.
- `arithmetic.dfy` holds division facts.
- `error.dfy` holds `Error` and `Result`.
- `component.dfy` holds `Component`.
- `base83.dfy` holds the codec.
- `encode.dfy` holds the encoder.

The base-83 codec is specified by `Numeral(value, length)`: the `length`
lowest base-83 digits of `value`, most significant first. `Decode` reads such
a string back and is used to state the round trips. The symbols are given by
`Symbol(d)`, computed from the character ranges of the alphabet, and
`AlphabetAt` shows that `Symbol(d)` is the `ALPHABET` entry at index d.
`encode` and `encode_into` are loops that are proved to produce exactly
`Numeral(value, length)`.

`encode_char` computes `(value / 83) % 83`. That is the first character of
the two-digit numeral, not the one-digit numeral of `value`. Every value below
83, which includes every size flag and every header digit, is therefore
written `'0'`. A one-digit `encode(value, 1)` would write `value % 83`
instead; `EncodeCharNotSingleDigit` shows that the two differ for every value
in 1..82. The model follows the code.

## Model

| member | source | states |
|---|---|---|
| Base83.AlphabetAt | src/base83.rs:1-9 | `ALPHABET` has 83 entries. Entry d is digit d's symbol: '0'..'9', then 'A'..'Z', then 'a'..'z', then the 21 punctuation marks in order. |
| Base83.AlphabetDistinct | src/base83.rs:1-8 | Any two different indexes below 83 hold different characters. |
| Base83.SymbolInAlphabet | src/base83.rs:1-8 | A character is one of the 83 symbols exactly when it occurs in `ALPHABET`. |
| Base83.RankSymbol | src/base83.rs:1-8 | Each symbol's digit can be recovered from the character alone. |
| Base83.SymbolDistinct | src/base83.rs:1-8 | Distinct digits are written as distinct symbols. |
| Base83.SymbolRank | src/base83.rs:1-8 | Every symbol is written back from the digit it is read as. |
| Base83.Numeral | src/base83.rs:11-17 | The numeral has exactly `length` characters. |
| Base83.NumeralAt | src/base83.rs:12-16 | Character k holds the digit `(value / 83^(length - 1 - k)) % 83`. This is the index the fold computes at step i = k + 1. |
| Base83.NumeralInAlphabet | src/base83.rs:13-14 | Every character written is one of the 83 symbols. |
| Base83.DecodeNumeral | src/base83.rs:11-17 | Reading the numeral back gives `value % 83^length`. A value below 83^length is recovered exactly. |
| Base83.NumeralDecode | src/base83.rs:11-17 | Every string over the alphabet is the numeral of its own decoding, so the codec is a bijection on fixed-width strings. |
| Base83.NumeralInjective | src/base83.rs:11-17 | Two values below 83^length with the same numeral are equal. |
| Base83.Encode | src/base83.rs:11-17 | `encode` returns exactly the `length`-digit numeral of `value`. |
| Base83.EncodeInto | src/base83.rs:19-24 | `encode_into` keeps the buffer's old contents as a prefix and appends exactly the numeral, so the buffer grows by `length`. |
| Base83.EncodeChar | src/base83.rs:26-29 | `encode_char(value)` is a symbol and is the first character of the two-digit numeral of `value`. It is '0' for every value below 83. |
| Base83.EncodeCharNotSingleDigit | src/base83.rs:26-29 | For 1 <= value < 83, `encode_char(value)` differs from the one-digit numeral of `value`. |
| Components.TryNew | src/lib.rs:17-27 | Returns `Ok` exactly when x and y are both in 1..=9. An out-of-range x is reported whatever y is. Otherwise an out-of-range y is reported. On success the accessors return the arguments. |
| Components.X | src/lib.rs:29-32 | The x count of every component is in 1..=9. |
| Components.Y | src/lib.rs:34-37 | The y count of every component is in 1..=9. |
| Components.TryNewOfAccessors | src/lib.rs:10-37 | `try_new` is the only way to build a `Component`: every component is the one `try_new` returns for its own accessors. |
| Components.TryNewBoundaries | src/lib.rs:18-24 | These fail: `(0, 5)`, `(10, 0)`, `(1, 0)` and `(1, 10)`, each with the offending value. `(1, 1)` and `(9, 9)` succeed. |
| Encoder.Normalizer | src/encode.rs:35-39 | The normaliser is 1 exactly for the pair (0, 0), and 2 otherwise. |
| Encoder.Pairs | src/encode.rs:104-106 | The enumeration has width * height pairs. |
| Encoder.PairAt | src/encode.rs:104-106 | Pair k is `(k % width, k / width)`: row-major order, y outer. |
| Encoder.DcIsFirstPair | src/encode.rs:104-116 | The first pair is (0, 0). It is the only pair whose normaliser is 1, so `factors[0]` is the DC term and the rest are the AC terms. |
| Encoder.FactorsOf | src/encode.rs:104-113 | There are x * y factors, at least one. |
| Encoder.Factors | src/encode.rs:104-113 | The nested loop that fills `factors` produces exactly the factors of the enumeration, in order. |
| Encoder.FactorAt | src/encode.rs:104-113 | Factor k is the projection of pair `(k % x, k / x)`. |
| Encoder.SizeFlag | src/encode.rs:120 | The size flag is in 0..=80, and x - 1 and y - 1 are its remainder and quotient by 9. |
| Encoder.ClampFloor | src/encode.rs:88-94 | The clamped floor lies in 0..=hi. It is the floor of t whenever t is in range, 0 below the range and hi above it. |
| Encoder.ClampFloorMonotone | src/encode.rs:88-94 | The clamped floor is monotone in t. |
| Encoder.Quantize | src/encode.rs:86-95 | `quantize` is in 0..=18 for every input. It is the floor of `signedSqrt(value / max) * 9 + 9.5` where that floor is in range. |
| Encoder.QuantizeZero | src/encode.rs:86-95 | A zero channel is quantised to the middle digit 9. |
| Encoder.EncodeAc | src/encode.rs:84-98 | The packed AC value is at most 6858 < 83^2, so its two digits never wrap. The three quantised channels are its base-19 digits. |
| Encoder.EncodeDc | src/encode.rs:76-82 | The packed DC value is below 2^24 < 83^4, so its four digits never wrap. The three bytes are its base-256 digits. |
| Encoder.Max | src/encode.rs:131 | `f32::max` is an upper bound of both arguments and equals one of them. |
| Encoder.ChannelMax | src/encode.rs:130 | `r.max(g).max(b)` bounds all three channels and is one of them. |
| Encoder.MaxChannel | src/encode.rs:128-132 | The reduced maximum bounds every channel of every AC factor and occurs among them. |
| Encoder.QuantizeMax | src/encode.rs:134-137 | The quantised maximum is a digit in 0..=82. |
| Encoder.Dequantize | src/encode.rs:140 | The divisor `(q + 1) / 166` is in (0, 0.5]. |
| Encoder.DequantizeQuantizeMax | src/encode.rs:134-140 | Where the floor is in range, the divisor is within 1/332 of the true maximum. |
| Encoder.MaxHeader | src/encode.rs:123-141 | With no AC terms the header digit is 0 and the divisor is 1. Otherwise the digit is in 0..=82 and the divisor is `(digit + 1) / 166`. The divisor is always positive. |
| Encoder.AcChars | src/encode.rs:145-147 | The AC part has two characters per AC factor. |
| Encoder.AcCharsAt | src/encode.rs:145-147 | Characters 2j and 2j + 1 of the AC part are the two-digit numeral of AC factor j, so the terms appear in order. |
| Encoder.Hash | src/encode.rs:100-150 | The hash has 1 + 1 + 4 + 2 * (x * y - 1) characters. |
| Encoder.Encode | src/encode.rs:100-150 | `encode`, which pushes onto one buffer step by step, returns exactly `Hash`. |
| Encoder.HashInAlphabet | src/encode.rs:121-147 | Every character of the hash is one of the 83 symbols. |
| Encoder.HashHeader | src/encode.rs:120-138 | The two header characters are always "00". |
| Encoder.HashDc | src/encode.rs:143 | Characters 2..6 are the DC numeral. Decoding them gives back the three bytes of factor (0, 0). |
| Encoder.HashAc | src/encode.rs:145-147 | Characters 6 + 2j and 7 + 2j are the numeral of factor j + 1 against the header's divisor. Decoding them gives back the packed value. |
| Encoder.SingleComponentHash | src/encode.rs:163-165 | With one component per axis and DC bytes (167, 157, 145), the hash is "00JHjm". |

## Left out

- `basis_fn` is left out: the cosines, and the per-pixel `f32` accumulation and
  scaling of `multiply_basis_function`, which work in place on `r`, `g`, `b`.
  The factor of each pair is the parameter `projection`. Only the normaliser
  choice is modelled, by `Normalizer`.
- `f32_to_srgb8` and `srgb8_to_f32` come from the `fast_srgb8` crate. The first
  is the parameter `toSrgb8`, known only to return a byte. The second is used
  only inside `multiply_basis_function`. The commented-out formulas are not
  live code.
- `sqrt` and `copysign` inside `quantize` are the parameter `signedSqrt`.
- `f32` rounding, NaN and infinity are not modelled, because values are reals.
- Max: NaN handling of `f32::max` is not modelled.
- Quantize: requires a non-zero divisor. Division by zero in `f32` (an infinity
  or NaN) is not modelled. `encode` only ever divides by 1 or by
  `(q + 1) / 166 > 0`.
- Pow83: `usize::pow(83, n)` overflows `usize` for n >= 11 on 64-bit targets.
  The model's powers are unbounded. The encoder only uses n <= 3.
- Numeral: the value is an unbounded natural, while the code's is a `usize`.
  Every value the encoder passes is below 2^24.
- `ALPHABET` is a `[u8; 83]` array whose bytes are cast to `char`. The model
  holds the same 83 ASCII characters as a string.
- `image::RgbImage` is not modelled, and neither is the decoding of the test's
  embedded PNG. The model has no image and no float pipeline (the factors and
  `toSrgb8` are parameters), so `SingleComponentHash` takes as hypotheses the
  DC bytes that produce "JHjm".
- Capacity hints (`with_capacity`) and the unused pixel counter `i` have no
  observable effect and are not modelled.
- The `thiserror` derive and the error message text are display only. Only the
  variant and its payload are modelled.
