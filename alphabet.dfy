/**
 * The Base45 alphabet (section 4.2 of RFC 9285): the `_Encoding` table that
 * maps a digit 0..44 to its character, and the `_Decoding` dictionary that the
 * static constructor of `Base45Encoding` builds from it.
 */
module Base45Alphabet {
  import opened Wrappers

  /** `BaseSize`: the number of characters in the alphabet. */
  const BaseSize: nat := 45

  /** A base-45 digit, the index of a character in the alphabet. */
  type Digit = d: int | 0 <= d < 45

  /**
   * The character of digit `d`: the ten decimal digits, the 26 upper-case
   * letters, then nine symbols.
   */
  function DigitChar(d: Digit): char {
    if d < 10 then (d + 48) as char
    else if d < 36 then (d - 10 + 65) as char
    else if d == 36 then ' '
    else if d == 37 then '$'
    else if d == 38 then '%'
    else if d == 39 then '*'
    else if d == 40 then '+'
    else if d == 41 then '-'
    else if d == 42 then '.'
    else if d == 43 then '/'
    else ':'
  }

  /** The characters of the first `n` digits, in order. */
  function AlphabetPrefix(n: nat): (s: string)
    requires n <= 45
    ensures |s| == n
  {
    if n == 0 then [] else AlphabetPrefix(n - 1) + [DigitChar(n - 1)]
  }

  /**
   * `_Encoding`: digit `d` is written as `Alphabet[d]`. `AlphabetLiteral`
   * proves that this is the 45-character string literal of the class.
   */
  const Alphabet: string := AlphabetPrefix(BaseSize)

  lemma {:induction false} AlphabetPrefixAt(n: nat, d: nat)
    requires d < n <= 45
    ensures AlphabetPrefix(n)[d] == DigitChar(d)
  {
    if d < n - 1 {
      AlphabetPrefixAt(n - 1, d);
    }
  }

  /** Position `d` of the alphabet holds the character of digit `d`. */
  lemma AlphabetAt(d: Digit)
    ensures Alphabet[d] == DigitChar(d)
  {
    AlphabetPrefixAt(BaseSize, d);
  }

  lemma AlphabetDigits()
    ensures Alphabet[..10] == "0123456789"
  {
    forall d | 0 <= d < 10 {
      AlphabetAt(d);
    }
  }

  lemma AlphabetLettersAToM()
    ensures Alphabet[10..23] == "ABCDEFGHIJKLM"
  {
    forall d | 10 <= d < 23 {
      AlphabetAt(d);
    }
  }

  lemma AlphabetLettersNToZ()
    ensures Alphabet[23..36] == "NOPQRSTUVWXYZ"
  {
    forall d | 23 <= d < 36 {
      AlphabetAt(d);
    }
  }

  lemma AlphabetSymbols()
    ensures Alphabet[36..] == " $%*+-./:"
  {
    forall d | 36 <= d < 45 {
      AlphabetAt(d);
    }
  }

  /** The alphabet is the class's string literal, written here in four runs. */
  lemma AlphabetLiteral()
    ensures Alphabet == "0123456789" + "ABCDEFGHIJKLM" + "NOPQRSTUVWXYZ" + " $%*+-./:"
  {
    AlphabetDigits();
    AlphabetLettersAToM();
    AlphabetLettersNToZ();
    AlphabetSymbols();
    assert Alphabet == Alphabet[..10] + Alphabet[10..23] + Alphabet[23..36] + Alphabet[36..];
  }

  /**
   * An independent reference for the alphabet: the digit of a character by its
   * character class, as the table of RFC 9285 section 4.2 lists them.
   */
  function DigitOf(c: char): Option<Digit> {
    if '0' <= c <= '9' then Some(c as int - '0' as int)
    else if 'A' <= c <= 'Z' then Some(c as int - 'A' as int + 10)
    else if c == ' ' then Some(36)
    else if c == '$' then Some(37)
    else if c == '%' then Some(38)
    else if c == '*' then Some(39)
    else if c == '+' then Some(40)
    else if c == '-' then Some(41)
    else if c == '.' then Some(42)
    else if c == '/' then Some(43)
    else if c == ':' then Some(44)
    else None
  }

  /**
   * `_Decoding` once the static constructor has run: the reverse lookup from an
   * alphabet character to its digit. `BuildDecoding` proves that the
   * constructor's loop produces exactly this map.
   */
  const Decoding: map<char, Digit> := map c | DigitOf(c).Some? :: DigitOf(c).value

  /** The reference digit of every alphabet character is its position. */
  lemma DigitOfAlphabet(d: int)
    requires 0 <= d < |Alphabet|
    ensures DigitOf(Alphabet[d]) == Some(d)
  {
    AlphabetAt(d);
  }

  /** A character with a reference digit is the alphabet character at that digit. */
  lemma AlphabetAtDigitOf(c: char)
    requires DigitOf(c).Some?
    ensures Alphabet[DigitOf(c).value] == c
  {
    DigitOfAlphabet(DigitOf(c).value);
  }

  /** The 45 characters of the alphabet are pairwise distinct. */
  lemma AlphabetDistinct()
    ensures forall i, j :: 0 <= i < j < |Alphabet| ==> Alphabet[i] != Alphabet[j]
  {
    forall i, j | 0 <= i < j < |Alphabet|
      ensures Alphabet[i] != Alphabet[j]
    {
      DigitOfAlphabet(i);
      DigitOfAlphabet(j);
    }
  }

  /** `_Decoding` maps every alphabet character back to its position. */
  lemma DecodingOfAlphabet()
    ensures forall d :: 0 <= d < |Alphabet| ==> Alphabet[d] in Decoding && Decoding[Alphabet[d]] == d
  {
    forall d | 0 <= d < |Alphabet|
      ensures Alphabet[d] in Decoding && Decoding[Alphabet[d]] == d
    {
      DigitOfAlphabet(d);
    }
  }

  /** Every key of `_Decoding` is the alphabet character at its digit. */
  lemma AlphabetOfDecoding()
    ensures forall c :: c in Decoding ==> Alphabet[Decoding[c]] == c
  {
    forall c | c in Decoding
      ensures Alphabet[Decoding[c]] == c
    {
      AlphabetAtDigitOf(c);
    }
  }

  /** The keys of `_Decoding` are exactly the alphabet. */
  lemma DecodingKeys()
    ensures forall c :: c in Decoding <==> c in Alphabet
  {
    forall c | c in Alphabet
      ensures c in Decoding
    {
      var d :| 0 <= d < |Alphabet| && Alphabet[d] == c;
      DigitOfAlphabet(d);
    }
    forall c | c in Decoding
      ensures c in Alphabet
    {
      AlphabetAtDigitOf(c);
    }
  }

  /**
   * The static constructor of `Base45Encoding`: adds `_Encoding[i] -> i` to the
   * dictionary for every i in order. `Dictionary.Add` throws on a key that is
   * already present; the assertion in the loop proves that it never is.
   */
  method BuildDecoding() returns (decoding: map<char, Digit>)
    ensures decoding == Decoding
    ensures forall d :: 0 <= d < |Alphabet| ==> Alphabet[d] in decoding && decoding[Alphabet[d]] == d
  {
    DecodingOfAlphabet();
    AlphabetOfDecoding();
    decoding := map[];
    for i := 0 to |Alphabet|
      invariant forall c :: c in decoding <==> c in Decoding && Decoding[c] < i
      invariant forall c :: c in decoding ==> decoding[c] == Decoding[c]
    {
      var c := Alphabet[i];
      assert c in Decoding && Decoding[c] == i;
      assert c !in decoding;
      forall x | x in Decoding && Decoding[x] == i
        ensures x == c
      {
        assert Alphabet[Decoding[x]] == x;
      }
      decoding := decoding[c := i];
    }
  }
}
