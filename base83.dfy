/**
 * Fixed-width base-83 numerals over the BlurHash alphabet (src/base83.rs).
 *
 * `Numeral` is the specification of the encoder: the `length` lowest base-83
 * digits of a value, most significant first. `Encode` and `EncodeInto` are the
 * source's loops, proved to produce exactly that numeral; `Decode` reads a
 * numeral back and is used to state the round trips.
 */
module Base83 {
  import opened Primitives
  import opened Arithmetic

  const Digits: string := "0123456789"
  const Upper: string := "ABCDEFGHIJKLMNOPQRSTUVWXYZ"
  const Lower: string := "abcdefghijklmnopqrstuvwxyz"
  const Punctuation: string := "#$%*+,-.:;=?@[]^_{|}~"

  /** `ALPHABET`: digit d is written `Alphabet[d]`, from '0' (0) to '~' (82). */
  const Alphabet: string := Digits + Upper + Lower + Punctuation

  /** `ALPHABET_SIZE`. */
  const AlphabetSize: nat := 83

  /** `usize::pow(ALPHABET_SIZE, n)`. */
  function Pow83(n: nat): (p: nat)
    ensures p >= 1
  {
    if n == 0 then 1 else AlphabetSize * Pow83(n - 1)
  }

  /**
   * Digit d's symbol, computed from the character ranges of the alphabet
   * instead of by indexing the literal; `AlphabetAt` shows the two agree.
   * Proofs about numerals use this form because reasoning about an index into
   * an 83-character literal at a symbolic position is very costly for the
   * verifier; `Rank` is its inverse, used to read symbols back.
   */
  function Symbol(d: nat): (c: char)
    requires d < AlphabetSize
  {
    if d < 10 then ('0' as int + d) as char
    else if d < 36 then ('A' as int + d - 10) as char
    else if d < 62 then ('a' as int + d - 36) as char
    else Punctuation[d - 62]
  }

  /** `c` is one of the 83 symbols. */
  predicate IsSymbol(c: char) {
    exists d | 0 <= d < AlphabetSize :: Symbol(d) == c
  }

  /** Every character of `s` is one of the 83 symbols. */
  predicate OverAlphabet(s: string) {
    forall i | 0 <= i < |s| :: IsSymbol(s[i])
  }

  /**
   * The digit a character stands for: its position in the alphabet. Characters
   * outside the alphabet get 82; they never occur in what the encoder writes.
   */
  function Rank(c: char): (d: nat)
    ensures d < AlphabetSize
  {
    if '0' <= c <= '9' then c as nat - '0' as nat
    else if 'A' <= c <= 'Z' then c as nat - 'A' as nat + 10
    else if 'a' <= c <= 'z' then c as nat - 'a' as nat + 36
    else match c
      case '#' => 62 case '$' => 63 case '%' => 64 case '*' => 65 case '+' => 66
      case ',' => 67 case '-' => 68 case '.' => 69 case ':' => 70 case ';' => 71
      case '=' => 72 case '?' => 73 case '@' => 74 case '[' => 75 case ']' => 76
      case '^' => 77 case '_' => 78 case '{' => 79 case '|' => 80 case '}' => 81
      case _ => 82
  }

  lemma RankPunctuation()
    ensures forall d | 0 <= d < |Punctuation| :: Rank(Punctuation[d]) == d + 62
  {
  }

  /** `Rank` reads every symbol back as its own digit. */
  lemma RankSymbol(d: nat)
    requires d < AlphabetSize
    ensures Rank(Symbol(d)) == d
  {
    if d >= 62 {
      RankPunctuation();
    }
  }

  /** The 83 symbols are pairwise distinct, so distinct digits are written differently. */
  lemma SymbolDistinct(i: nat, j: nat)
    requires i < AlphabetSize && j < AlphabetSize && i != j
    ensures Symbol(i) != Symbol(j)
  {
    RankSymbol(i);
    RankSymbol(j);
  }

  /** A symbol is written back from its own rank. */
  lemma SymbolRank(c: char)
    requires IsSymbol(c)
    ensures Symbol(Rank(c)) == c
  {
    var d :| 0 <= d < AlphabetSize && Symbol(d) == c;
    RankSymbol(d);
  }

  lemma DigitsTable()
    ensures forall d | 0 <= d < |Digits| :: Digits[d] == Symbol(d)
  {
  }

  lemma UpperTable()
    ensures forall d | 0 <= d < |Upper| :: Upper[d] == Symbol(d + 10)
  {
  }

  lemma LowerTable()
    ensures forall d | 0 <= d < |Lower| :: Lower[d] == Symbol(d + 36)
  {
  }

  /** The `ALPHABET` string holds digit d's symbol at index d. */
  lemma AlphabetAt(d: nat)
    requires d < AlphabetSize
    ensures |Alphabet| == AlphabetSize
    ensures Alphabet[d] == Symbol(d)
  {
    if d < 10 {
      DigitsTable();
    } else if d < 36 {
      UpperTable();
      assert Alphabet[d] == Upper[d - 10];
    } else if d < 62 {
      LowerTable();
      assert Alphabet[d] == Lower[d - 36];
    } else {
      assert Alphabet[d] == Punctuation[d - 62];
    }
  }

  /** The 83 entries of `ALPHABET` are pairwise distinct. */
  lemma AlphabetDistinct(i: nat, j: nat)
    requires i < AlphabetSize && j < AlphabetSize && i != j
    ensures |Alphabet| == AlphabetSize
    ensures Alphabet[i] != Alphabet[j]
  {
    AlphabetAt(i);
    AlphabetAt(j);
    SymbolDistinct(i, j);
  }

  /** The symbols are exactly the characters of `ALPHABET`. */
  lemma SymbolInAlphabet(c: char)
    ensures IsSymbol(c) <==> c in Alphabet
  {
    if IsSymbol(c) {
      var d :| 0 <= d < AlphabetSize && Symbol(d) == c;
      AlphabetAt(d);
    }
    if c in Alphabet {
      var d :| 0 <= d < |Alphabet| && Alphabet[d] == c;
      AlphabetAt(d);
    }
  }

  /**
   * The `length`-digit base-83 numeral of `value`, most significant digit
   * first; digits above position `length` are dropped (the encoding wraps
   * modulo 83^length).
   */
  function Numeral(value: nat, length: nat): (s: string)
    ensures |s| == length
  {
    if length == 0 then []
    else Numeral(value / AlphabetSize, length - 1) + [Symbol(value % AlphabetSize)]
  }

  /** Reads a string as a base-83 numeral, most significant digit first. */
  function Decode(s: string): (v: nat)
    ensures v < Pow83(|s|)
  {
    if s == [] then 0
    else Decode(s[..|s| - 1]) * AlphabetSize + Rank(s[|s| - 1])
  }

  /** Position k of the numeral holds the digit `(value / 83^(length - 1 - k)) % 83`. */
  lemma {:induction false} NumeralAt(value: nat, length: nat, k: nat)
    requires k < length
    ensures Numeral(value, length)[k] == Symbol((value / Pow83(length - 1 - k)) % AlphabetSize)
  {
    if k < length - 1 {
      NumeralAt(value / AlphabetSize, length - 1, k);
      assert value / AlphabetSize / Pow83(length - 2 - k) == value / Pow83(length - 1 - k) by {
        DivModNested(value, AlphabetSize, Pow83(length - 2 - k));
      }
    }
  }

  /** Every character of a numeral is one of the 83 symbols. */
  lemma NumeralInAlphabet(value: nat, length: nat)
    ensures OverAlphabet(Numeral(value, length))
  {
    forall i | 0 <= i < length ensures IsSymbol(Numeral(value, length)[i]) {
      NumeralAt(value, length, i);
    }
  }

  /**
   * Decoding a numeral gives back the value modulo 83^length, so a value below
   * 83^length is recovered exactly.
   */
  lemma {:induction false} DecodeNumeral(value: nat, length: nat)
    ensures Decode(Numeral(value, length)) == value % Pow83(length)
    ensures value < Pow83(length) ==> Decode(Numeral(value, length)) == value
  {
    var m := Pow83(length);
    if length > 0 {
      var s := Numeral(value, length);
      var q, r, p := value / AlphabetSize, value % AlphabetSize, Pow83(length - 1);
      assert s[..length - 1] == Numeral(q, length - 1);
      assert Rank(s[length - 1]) == r by { RankSymbol(r); }
      assert Decode(s) == Decode(Numeral(q, length - 1)) * AlphabetSize + r;
      assert Decode(Numeral(q, length - 1)) == q % p by { DecodeNumeral(q, length - 1); }
      assert value % m == (q % p) * AlphabetSize + r by {
        DivModNested(value, AlphabetSize, p);
      }
    }
    if value < m {
      DivModUnique(value, m, 0, value);
    }
  }

  /** Encoding a decoded string over the alphabet with its own length gives the string back. */
  lemma {:induction false} NumeralDecode(s: string)
    requires OverAlphabet(s)
    ensures Numeral(Decode(s), |s|) == s
  {
    if s != [] {
      var init, last := s[..|s| - 1], s[|s| - 1];
      var v, d := Decode(s), Rank(last);
      assert v / AlphabetSize == Decode(init) && v % AlphabetSize == d by {
        DivModUnique(v, AlphabetSize, Decode(init), d);
      }
      assert Symbol(d) == last by { SymbolRank(last); }
      assert Numeral(v / AlphabetSize, |s| - 1) == init by {
        assert OverAlphabet(init);
        NumeralDecode(init);
      }
      assert s == init + [last];
    }
  }

  /** Two values below 83^length have the same numeral only if they are equal. */
  lemma NumeralInjective(v1: nat, v2: nat, length: nat)
    requires v1 < Pow83(length) && v2 < Pow83(length)
    requires Numeral(v1, length) == Numeral(v2, length)
    ensures v1 == v2
  {
    DecodeNumeral(v1, length);
    DecodeNumeral(v2, length);
  }

  /** `encode`: folds over positions 1..=length, pushing one digit each. */
  method Encode(value: nat, length: nat) returns (s: string)
    ensures s == Numeral(value, length)
  {
    s := [];
    for i := 1 to length + 1
      invariant s == Numeral(value, length)[..i - 1]
    {
      var index := (value / Pow83(length - i)) % AlphabetSize;
      NumeralAt(value, length, i - 1);
      AlphabetAt(index);
      s := s + [Alphabet[index]];
    }
  }

  /** `encode_into`: pushes the same digits onto a caller's buffer. */
  method EncodeInto(dest: StringBuffer, value: nat, length: nat)
    modifies dest
    ensures dest.chars == old(dest.chars) + Numeral(value, length)
  {
    for i := 1 to length + 1
      invariant dest.chars == old(dest.chars) + Numeral(value, length)[..i - 1]
    {
      var index := (value / Pow83(length - i)) % AlphabetSize;
      NumeralAt(value, length, i - 1);
      AlphabetAt(index);
      dest.Push(Alphabet[index]);
    }
  }

  /**
   * `encode_char`: the digit `(value / 83) % 83`, which is the FIRST character
   * of the two-digit numeral of `value`, not the one-digit numeral. Every value
   * below 83 is therefore written '0'.
   */
  function EncodeChar(value: nat): (c: char)
    ensures IsSymbol(c)
    ensures c == Numeral(value, 2)[0]
    ensures value < AlphabetSize ==> c == '0'
  {
    var index := (value / AlphabetSize) % AlphabetSize;
    AlphabetAt(index);
    Alphabet[index]
  }

  /** For 1 <= value < 83 `encode_char` differs from the one-digit numeral of `value`. */
  lemma EncodeCharNotSingleDigit(value: nat)
    requires 1 <= value < AlphabetSize
    ensures EncodeChar(value) != Numeral(value, 1)[0]
  {
    assert Numeral(value, 1)[0] == Symbol(value) by {
      assert value % AlphabetSize == value;
    }
    assert Symbol(value) != '0' by {
      SymbolDistinct(value, 0);
    }
  }
}
