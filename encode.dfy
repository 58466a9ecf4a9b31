/**
 * The integer side of the BlurHash encoder (src/encode.rs).
 *
 * The floating-point steps stay outside the model and enter as parameters:
 *  - `projection(x, y)` is `multiply_basis_function(image, x, y)`, the averaged
 *    (r, g, b) factor of frequency component (x, y) of the fixed image;
 *  - `toSrgb8` is `fast_srgb8::f32_to_srgb8`, of which only "returns a byte" is used;
 *  - `signedSqrt(v)` is `v.abs().sqrt().copysign(v)` inside `quantize`.
 * f32 values are modelled as reals. Everything done to them afterwards (the
 * maximum, the clamps and floors, the packing and the layout of the string) is
 * modelled as the source does it.
 */
module Encoder {
  import opened Primitives
  import opened Arithmetic
  import opened Base83
  import opened Components

  /** One `(r, g, b)` result of `multiply_basis_function`. */
  datatype Factor = Factor(r: real, g: real, b: real)

  /** The normaliser of `basis_fn`: 1 for the DC pair (0, 0), 2 for every other pair. */
  function Normalizer(componentX: nat, componentY: nat): (n: real)
    ensures n == 1.0 <==> componentX == 0 && componentY == 0
    ensures n == 1.0 || n == 2.0
  {
    if componentX == 0 && componentY == 0 then 1.0 else 2.0
  }

  /** Row y of the enumeration: (0, y), (1, y), ..., (width - 1, y). */
  function Row(width: nat, y: nat): (row: seq<(nat, nat)>)
    ensures |row| == width
  {
    seq(width, x => (x, y))
  }

  /** The pairs of `encode`'s `flat_map`: y over the outer range, x over the inner one. */
  function Pairs(width: nat, height: nat): (ps: seq<(nat, nat)>)
    ensures |ps| == width * height
  {
    if height == 0 then [] else Pairs(width, height - 1) + Row(width, height - 1)
  }

  /** Entry k of the enumeration is the pair (k % width, k / width): row-major order. */
  lemma {:induction false} PairAt(width: nat, height: nat, k: nat)
    requires k < width * height
    ensures Pairs(width, height)[k] == (k % width, k / width)
  {
    var prev := Pairs(width, height - 1);
    if k < |prev| {
      PairAt(width, height - 1, k);
    } else {
      DivModUnique(k, width, height - 1, k - |prev|);
    }
  }

  /** Only the first pair of the enumeration, (0, 0), is normalised by 1: it alone is the DC term. */
  lemma DcIsFirstPair(width: nat, height: nat, k: nat)
    requires k < width * height
    ensures Pairs(width, height)[0] == (0, 0)
    ensures Normalizer(Pairs(width, height)[k].0, Pairs(width, height)[k].1) == 1.0 <==> k == 0
  {
    PairAt(width, height, 0);
    PairAt(width, height, k);
    if k != 0 && k < width {
      assert k % width == k;
    }
  }

  /** The factor of every pair, in enumeration order. */
  function Project(projection: (nat, nat) -> Factor, ps: seq<(nat, nat)>): (fs: seq<Factor>)
    ensures |fs| == |ps|
  {
    seq(|ps|, k requires 0 <= k < |ps| => projection(ps[k].0, ps[k].1))
  }

  /** Projecting one more pair appends its factor. */
  lemma ProjectSnoc(projection: (nat, nat) -> Factor, ps: seq<(nat, nat)>, p: (nat, nat))
    ensures Project(projection, ps + [p]) == Project(projection, ps) + [projection(p.0, p.1)]
  {
  }

  /** One more pair of row y appends its factor. */
  lemma RowStep(projection: (nat, nat) -> Factor, width: nat, y: nat, x: nat)
    requires x < width
    ensures Project(projection, Pairs(width, y) + Row(width, y)[..x + 1])
      == Project(projection, Pairs(width, y) + Row(width, y)[..x]) + [projection(x, y)]
  {
    var done := Pairs(width, y);
    assert done + Row(width, y)[..x + 1] == (done + Row(width, y)[..x]) + [(x, y)];
    ProjectSnoc(projection, done + Row(width, y)[..x], (x, y));
  }

  /** The factors `encode` computes for component `c`. */
  function FactorsOf(c: Component, projection: (nat, nat) -> Factor): (fs: seq<Factor>)
    ensures |fs| == X(c) * Y(c) >= 1
  {
    Project(projection, Pairs(X(c), Y(c)))
  }

  /**
   * The fold that fills `factors` in `encode`: one `multiply_basis_function`
   * result per pair, y outer, x inner. Factor k belongs to (k % x, k / x).
   */
  method Factors(c: Component, projection: (nat, nat) -> Factor) returns (factors: seq<Factor>)
    ensures factors == FactorsOf(c, projection)
  {
    var componentX, componentY := X(c) as nat, Y(c) as nat;
    factors := [];
    for y := 0 to componentY
      invariant factors == Project(projection, Pairs(componentX, y))
    {
      for x := 0 to componentX
        invariant factors == Project(projection, Pairs(componentX, y) + Row(componentX, y)[..x])
      {
        RowStep(projection, componentX, y, x);
        factors := factors + [projection(x, y)];
      }
      assert Row(componentX, y)[..componentX] == Row(componentX, y);
    }
  }

  /** Factor k is the one of pair (k % x, k / x). */
  lemma FactorAt(c: Component, projection: (nat, nat) -> Factor, k: nat)
    requires k < |FactorsOf(c, projection)|
    ensures FactorsOf(c, projection)[k] == projection(k % X(c), k / X(c))
  {
    var width, height := X(c) as nat, Y(c) as nat;
    var ps := Pairs(width, height);
    PairAt(width, height, k);
    assert FactorsOf(c, projection)[k] == projection(ps[k].0, ps[k].1);
  }

  /**
   * `size_flag`, `(x - 1) + (y - 1) * 9`: a number in 0..=80 from which both
   * component counts can be read back.
   */
  function SizeFlag(c: Component): (f: nat)
    ensures f <= 80
    ensures f % 9 == X(c) - 1 && f / 9 == Y(c) - 1
  {
    var f := X(c) - 1 + (Y(c) - 1) * 9;
    DivModUnique(f, 9, Y(c) - 1, X(c) - 1);
    f
  }

  /**
   * `f32::floor(f32::max(0., f32::min(hi, f32::floor(t)))) as usize`: the floor
   * of t, clamped into 0..=hi.
   */
  function ClampFloor(t: real, hi: nat): (q: nat)
    ensures q <= hi
    ensures q == 0 || q as real <= t
    ensures q == hi || t < q as real + 1.0
  {
    var m := if hi < t.Floor then hi else t.Floor;
    if m < 0 then 0 else m
  }

  /** A larger input never quantises lower. */
  lemma ClampFloorMonotone(t1: real, t2: real, hi: nat)
    requires t1 <= t2
    ensures ClampFloor(t1, hi) <= ClampFloor(t2, hi)
  {
    assert t1.Floor <= t2.Floor;
  }

  /**
   * `quantize`: the clamped floor of `signedSqrt(value / maxValue) * 9 + 9.5`,
   * a digit in 0..=18 whatever the inputs.
   */
  function Quantize(value: real, maxValue: real, signedSqrt: real -> real): (q: nat)
    requires maxValue != 0.0
    ensures q <= 18
    ensures var t := signedSqrt(value / maxValue) * 9.0 + 9.5;
      (q == 0 || q as real <= t) && (q == 18 || t < q as real + 1.0)
  {
    ClampFloor(signedSqrt(value / maxValue) * 9.0 + 9.5, 18)
  }

  /** A zero coefficient lands on the middle digit 9. */
  lemma QuantizeZero(maxValue: real, signedSqrt: real -> real)
    requires maxValue != 0.0 && signedSqrt(0.0) == 0.0
    ensures Quantize(0.0, maxValue, signedSqrt) == 9
  {
    assert 0.0 / maxValue == 0.0;
  }

  /**
   * `encode_ac`: the three channel digits packed as `qr * 19 * 19 + qg * 19 + qb`.
   * The value is below 83^2, so its two-digit numeral never wraps, and each
   * digit can be read back.
   */
  function EncodeAc(f: Factor, maxValue: real, signedSqrt: real -> real): (v: nat)
    requires maxValue != 0.0
    ensures v <= 6858 && v < Pow83(2)
    ensures v / 361 == Quantize(f.r, maxValue, signedSqrt)
    ensures v / 19 % 19 == Quantize(f.g, maxValue, signedSqrt)
    ensures v % 19 == Quantize(f.b, maxValue, signedSqrt)
  {
    var qr, qg, qb := Quantize(f.r, maxValue, signedSqrt), Quantize(f.g, maxValue, signedSqrt), Quantize(f.b, maxValue, signedSqrt);
    var v := qr * 19 * 19 + qg * 19 + qb;
    DivModUnique(v, 361, qr, qg * 19 + qb);
    DivModUnique(v, 19, qr * 19 + qg, qb);
    DivModUnique(qr * 19 + qg, 19, qr, qg);
    v
  }

  /**
   * `encode_dc`: the three bytes packed as `(r << 16) + (g << 8) + b` (the
   * shifts of values below 256 cannot overflow, so they are multiplications).
   * The value is below 2^24 < 83^4, so its four-digit numeral never wraps, and
   * each byte can be read back.
   */
  function EncodeDc(dc: Factor, toSrgb8: real -> u8): (v: nat)
    ensures v < 0x100_0000 && v < Pow83(4)
    ensures v / 0x1_0000 == toSrgb8(dc.r)
    ensures v / 0x100 % 0x100 == toSrgb8(dc.g)
    ensures v % 0x100 == toSrgb8(dc.b)
  {
    var r, g, b := toSrgb8(dc.r), toSrgb8(dc.g), toSrgb8(dc.b);
    var v := r * 0x1_0000 + g * 0x100 + b;
    DivModUnique(v, 0x1_0000, r, g * 0x100 + b);
    DivModUnique(v, 0x100, r * 0x100 + g, b);
    DivModUnique(r * 0x100 + g, 0x100, r, g);
    v
  }

  /** `f32::max`, over reals (no NaN). */
  function Max(a: real, b: real): (m: real)
    ensures a <= m && b <= m && (m == a || m == b)
  {
    if a < b then b else a
  }

  /** `r.max(g).max(b)`: the largest channel of a factor. */
  function ChannelMax(f: Factor): (m: real)
    ensures f.r <= m && f.g <= m && f.b <= m
    ensures m == f.r || m == f.g || m == f.b
  {
    Max(Max(f.r, f.g), f.b)
  }

  /**
   * `ac.iter().map(ChannelMax).reduce(f32::max)`: the largest channel value
   * over all AC factors, and one that occurs.
   */
  function MaxChannel(ac: seq<Factor>): (m: real)
    requires |ac| > 0
    ensures forall i | 0 <= i < |ac| :: ac[i].r <= m && ac[i].g <= m && ac[i].b <= m
    ensures exists i | 0 <= i < |ac| :: m == ac[i].r || m == ac[i].g || m == ac[i].b
  {
    if |ac| == 1 then ChannelMax(ac[0])
    else
      var m := Max(MaxChannel(ac[..|ac| - 1]), ChannelMax(ac[|ac| - 1]));
      assert forall i | 0 <= i < |ac| - 1 :: ac[..|ac| - 1][i] == ac[i];
      m
  }

  /** The quantised maximum: the clamped floor of `maxValue * 166 - 0.5`, a digit in 0..=82. */
  function QuantizeMax(maxValue: real): (q: nat)
    ensures q <= 82
  {
    ClampFloor(maxValue * 166.0 - 0.5, 82)
  }

  /** The dequantised maximum `(q + 1) / 166`, the divisor of every AC channel. */
  function Dequantize(q: nat): (m: real)
    requires q <= 82
    ensures 0.0 < m <= 0.5
  {
    (q as real + 1.0) / 166.0
  }

  /**
   * Where the maximum is within the header digit's range, dequantising its
   * quantisation moves it by at most 1/332.
   */
  lemma DequantizeQuantizeMax(maxValue: real)
    requires 0 <= (maxValue * 166.0 - 0.5).Floor <= 82
    ensures maxValue - 1.0 / 332.0 < Dequantize(QuantizeMax(maxValue)) <= maxValue + 1.0 / 332.0
  {
    var q := QuantizeMax(maxValue);
    assert q == (maxValue * 166.0 - 0.5).Floor;
  }

  /**
   * The AC-maximum header digit and the divisor of the AC channels: digit 0 and
   * divisor 1 without AC terms; otherwise the quantised largest channel value
   * and the divisor `(digit + 1) / 166`.
   */
  function MaxHeader(ac: seq<Factor>): (h: (nat, real))
    ensures h.0 <= 82 && h.1 > 0.0
    ensures |ac| == 0 ==> h == (0, 1.0)
    ensures |ac| > 0 ==> h.1 == (h.0 as real + 1.0) / 166.0
  {
    if |ac| == 0 then (0, 1.0)
    else
      var q := QuantizeMax(MaxChannel(ac));
      (q, Dequantize(q))
  }

  /** The AC part of the hash: two characters per AC factor, in order. */
  function AcChars(ac: seq<Factor>, maxValue: real, signedSqrt: real -> real): (s: string)
    requires maxValue != 0.0
    ensures |s| == 2 * |ac|
  {
    if ac == [] then []
    else AcChars(ac[..|ac| - 1], maxValue, signedSqrt) + Numeral(EncodeAc(ac[|ac| - 1], maxValue, signedSqrt), 2)
  }

  /** Characters 2j and 2j + 1 of the AC part encode AC factor j. */
  lemma {:induction false} AcCharsAt(ac: seq<Factor>, maxValue: real, signedSqrt: real -> real, j: nat)
    requires maxValue != 0.0 && j < |ac|
    ensures AcChars(ac, maxValue, signedSqrt)[2 * j .. 2 * j + 2] == Numeral(EncodeAc(ac[j], maxValue, signedSqrt), 2)
  {
    var init := ac[..|ac| - 1];
    if j < |ac| - 1 {
      AcCharsAt(init, maxValue, signedSqrt, j);
      assert init[j] == ac[j];
    }
  }

  /**
   * The hash `encode` returns: the size flag and the AC-maximum digit (both
   * through `encode_char`), four characters for the DC factor, then two
   * characters per AC factor in enumeration order.
   */
  function Hash(c: Component, projection: (nat, nat) -> Factor, toSrgb8: real -> u8, signedSqrt: real -> real): (h: string)
    ensures |h| == 6 + 2 * (X(c) * Y(c) - 1)
  {
    var factors := FactorsOf(c, projection);
    var ac := factors[1..];
    var header := MaxHeader(ac);
    [EncodeChar(SizeFlag(c)), EncodeChar(header.0)]
      + Numeral(EncodeDc(factors[0], toSrgb8), 4)
      + AcChars(ac, header.1, signedSqrt)
  }

  /** Appending one AC factor appends its two characters. */
  lemma AcCharsSnoc(ac: seq<Factor>, maxValue: real, signedSqrt: real -> real, j: nat)
    requires maxValue != 0.0 && j < |ac|
    ensures AcChars(ac[..j + 1], maxValue, signedSqrt)
      == AcChars(ac[..j], maxValue, signedSqrt) + Numeral(EncodeAc(ac[j], maxValue, signedSqrt), 2)
  {
    assert ac[..j + 1][..j] == ac[..j];
  }

  /** `encode`: builds the hash left to right in one buffer. */
  method Encode(c: Component, projection: (nat, nat) -> Factor, toSrgb8: real -> u8, signedSqrt: real -> real)
    returns (hash: string)
    ensures hash == Hash(c, projection, toSrgb8, signedSqrt)
  {
    var componentX, componentY := X(c) as nat, Y(c) as nat;
    var factors := Factors(c, projection);
    var dc := factors[0];
    var ac := factors[1..];
    ghost var header := MaxHeader(ac);

    var buffer := new StringBuffer();
    var sizeFlag := componentX - 1 + (componentY - 1) * 9;
    assert sizeFlag == SizeFlag(c);
    buffer.Push(EncodeChar(sizeFlag));

    var maxValue: real;
    if |ac| == 0 {
      buffer.Push(EncodeChar(0));
      maxValue := 1.0;
      assert header == (0, maxValue);
    } else {
      var quantizedMaxValue := QuantizeMax(MaxChannel(ac));
      buffer.Push(EncodeChar(quantizedMaxValue));
      maxValue := Dequantize(quantizedMaxValue);
      assert header == (quantizedMaxValue, maxValue);
    }
    assert buffer.chars == [EncodeChar(SizeFlag(c)), EncodeChar(header.0)];

    EncodeInto(buffer, EncodeDc(dc, toSrgb8), 4);

    ghost var head := buffer.chars;
    for j := 0 to |ac|
      invariant buffer.chars == head + AcChars(ac[..j], maxValue, signedSqrt)
    {
      var v := EncodeAc(ac[j], maxValue, signedSqrt);
      AcCharsSnoc(ac, maxValue, signedSqrt, j);
      AppendAssoc(head, AcChars(ac[..j], maxValue, signedSqrt), Numeral(v, 2));
      EncodeInto(buffer, v, 2);
    }
    hash := buffer.chars;
    assert hash == Hash(c, projection, toSrgb8, signedSqrt) by {
      assert ac[..|ac|] == ac;
      HashParts(c, projection, toSrgb8, signedSqrt);
    }
  }

  /** `Hash` spelled out in its four parts. */
  lemma HashParts(c: Component, projection: (nat, nat) -> Factor, toSrgb8: real -> u8, signedSqrt: real -> real)
    ensures var factors := FactorsOf(c, projection);
      var header := MaxHeader(factors[1..]);
      Hash(c, projection, toSrgb8, signedSqrt)
        == [EncodeChar(SizeFlag(c)), EncodeChar(header.0)]
        + Numeral(EncodeDc(factors[0], toSrgb8), 4)
        + AcChars(factors[1..], header.1, signedSqrt)
  {
  }

  /** Proof step for the loop of `Encode`: regrouping a concatenation. */
  lemma AppendAssoc<T>(a: seq<T>, b: seq<T>, c: seq<T>)
    ensures (a + b) + c == a + (b + c)
  {
  }

  /** A slice of the right operand of a concatenation, shifted by the left operand's length. */
  lemma SliceOfAppend<T>(a: seq<T>, b: seq<T>, i: nat, j: nat)
    requires i <= j <= |b|
    ensures (a + b)[|a| + i .. |a| + j] == b[i..j]
  {
  }

  /** Every character of the hash is one of the 83 symbols. */
  lemma HashInAlphabet(c: Component, projection: (nat, nat) -> Factor, toSrgb8: real -> u8, signedSqrt: real -> real)
    ensures OverAlphabet(Hash(c, projection, toSrgb8, signedSqrt))
  {
    var factors := FactorsOf(c, projection);
    var ac := factors[1..];
    var header := MaxHeader(ac);
    var dc := Numeral(EncodeDc(factors[0], toSrgb8), 4);
    var acs := AcChars(ac, header.1, signedSqrt);
    NumeralInAlphabet(EncodeDc(factors[0], toSrgb8), 4);
    forall i | 0 <= i < |acs| ensures IsSymbol(acs[i]) {
      var j := i / 2;
      AcCharsAt(ac, header.1, signedSqrt, j);
      NumeralInAlphabet(EncodeAc(ac[j], header.1, signedSqrt), 2);
      assert acs[i] == acs[2 * j .. 2 * j + 2][i - 2 * j];
    }
  }

  /**
   * Both header characters are always '0': the size flag (at most 80) and the
   * AC-maximum digit (at most 82) go through `encode_char`, which writes every
   * value below 83 as '0'.
   */
  lemma HashHeader(c: Component, projection: (nat, nat) -> Factor, toSrgb8: real -> u8, signedSqrt: real -> real)
    ensures Hash(c, projection, toSrgb8, signedSqrt)[..2] == "00"
  {
  }

  /**
   * Characters 2..6 are the four-digit numeral of the packed DC bytes; reading
   * them back gives the three bytes of the (0, 0) factor.
   */
  lemma HashDc(c: Component, projection: (nat, nat) -> Factor, toSrgb8: real -> u8, signedSqrt: real -> real)
    ensures var h := Hash(c, projection, toSrgb8, signedSqrt);
      var dc := projection(0, 0);
      var piece := h[2..6];
      && piece == Numeral(EncodeDc(dc, toSrgb8), 4)
      && OverAlphabet(piece)
      && Decode(piece) / 0x1_0000 == toSrgb8(dc.r)
      && Decode(piece) / 0x100 % 0x100 == toSrgb8(dc.g)
      && Decode(piece) % 0x100 == toSrgb8(dc.b)
  {
    var factors := FactorsOf(c, projection);
    PairAt(X(c), Y(c), 0);
    var v := EncodeDc(factors[0], toSrgb8);
    DecodeNumeral(v, 4);
    NumeralInAlphabet(v, 4);
  }

  /**
   * Characters 6 + 2j and 7 + 2j encode AC term j, factor j + 1 of the
   * enumeration (the one of pair ((j + 1) % x, (j + 1) / x), see FactorAt),
   * against the header's divisor; reading them back gives the packed value
   * unwrapped.
   */
  lemma HashAc(c: Component, projection: (nat, nat) -> Factor, toSrgb8: real -> u8, signedSqrt: real -> real, j: nat)
    requires j + 1 < |FactorsOf(c, projection)|
    ensures var h := Hash(c, projection, toSrgb8, signedSqrt);
      var factors := FactorsOf(c, projection);
      var v := EncodeAc(factors[j + 1], MaxHeader(factors[1..]).1, signedSqrt);
      var piece := h[6 + 2 * j .. 8 + 2 * j];
      && piece == Numeral(v, 2)
      && OverAlphabet(piece)
      && Decode(piece) == v
  {
    var factors := FactorsOf(c, projection);
    var ac := factors[1..];
    var header := MaxHeader(ac);
    var prefix := [EncodeChar(SizeFlag(c)), EncodeChar(header.0)] + Numeral(EncodeDc(factors[0], toSrgb8), 4);
    var v := EncodeAc(ac[j], header.1, signedSqrt);
    assert ac[j] == factors[j + 1];
    HashParts(c, projection, toSrgb8, signedSqrt);
    AcPiece(prefix, ac, header.1, signedSqrt, j);
    DecodeNumeral(v, 2);
    NumeralInAlphabet(v, 2);
  }

  /** Behind a six-character head, AC factor j is written at characters 6 + 2j and 7 + 2j. */
  lemma AcPiece(head: string, ac: seq<Factor>, maxValue: real, signedSqrt: real -> real, j: nat)
    requires |head| == 6 && maxValue != 0.0 && j < |ac|
    ensures (head + AcChars(ac, maxValue, signedSqrt))[6 + 2 * j .. 8 + 2 * j]
      == Numeral(EncodeAc(ac[j], maxValue, signedSqrt), 2)
  {
    SliceOfAppend(head, AcChars(ac, maxValue, signedSqrt), 2 * j, 2 * j + 2);
    AcCharsAt(ac, maxValue, signedSqrt, j);
  }

  /**
   * With one component per axis there are no AC terms: an image whose average
   * colour converts to the bytes (167, 157, 145) is hashed to "00JHjm".
   */
  lemma SingleComponentHash(c: Component, projection: (nat, nat) -> Factor, toSrgb8: real -> u8, signedSqrt: real -> real)
    requires X(c) == 1 && Y(c) == 1
    requires toSrgb8(projection(0, 0).r) == 167
    requires toSrgb8(projection(0, 0).g) == 157
    requires toSrgb8(projection(0, 0).b) == 145
    ensures Hash(c, projection, toSrgb8, signedSqrt) == "00JHjm"
  {
    var factors := FactorsOf(c, projection);
    assert factors[0] == projection(0, 0);
    assert EncodeDc(factors[0], toSrgb8) == 10984849;
    assert Numeral(19, 1) == [Symbol(19)] == "J";
    assert Numeral(1594, 2) == Numeral(19, 1) + [Symbol(17)] == "JH";
    assert Numeral(132347, 3) == Numeral(1594, 2) + [Symbol(45)] == "JHj";
    assert Numeral(10984849, 4) == Numeral(132347, 3) + [Symbol(48)] == "JHjm";
  }
}
