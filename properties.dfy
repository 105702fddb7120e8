/**
 * What the codec promises, proved about the functions of module Base45Model
 * (and so, through the contracts of `Base45Encoding.Encode` and
 * `Base45Encoding.Decode`, about the methods): every encoding decodes back to
 * its bytes, decoding fails exactly on the inputs it rejects and at the
 * position it names, and the examples of section 4.3 of RFC 9285.
 */
module Base45Properties {
  import opened Wrappers
  import opened Base45Alphabet
  import opened Base45Model

  // ---------------------------------------------------------------------------
  // Encoded text reads back as its digits
  // ---------------------------------------------------------------------------

  /** Every character `Spell` writes is a key of `_Decoding` that maps back to its digit. */
  lemma SpellDecodes(ds: seq<Digit>)
    ensures forall i :: 0 <= i < |ds| ==> Spell(ds)[i] in Decoding && Decoding[Spell(ds)[i]] == ds[i]
  {
    DecodingOfAlphabet();
  }

  /** Every character of an encoding is in the alphabet. */
  lemma EncodedInAlphabet(bytes: seq<Byte>)
    ensures forall c :: c in Encoded(bytes) ==> c in Alphabet
  {
    var s := Encoded(bytes);
    SpellDecodes(EncodeDigits(bytes));
    DecodingKeys();
    assert forall i :: 0 <= i < |s| ==> s[i] in Decoding;
  }

  /**
   * The trailing byte `b` of an odd-length buffer is written as the last two
   * characters, those of digits `b % 45` and `b / 45`; the second is the pad
   * character '0' exactly when `b < 45`.
   */
  lemma TailPadding(bytes: seq<Byte>)
    requires |bytes| % 2 == 1
    ensures
      var s := Encoded(bytes);
      var b := bytes[|bytes| - 1];
      s[|s| - 2..] == [Alphabet[b % 45], Alphabet[b / 45]] && (s[|s| - 1] == '0' <==> b < 45)
  {
    var n := |bytes| / 2;
    var b := bytes[|bytes| - 1];
    var whole := WholeChunkDigits(bytes, n);
    assert EncodeDigits(bytes) == whole + TailDigits(b);
    SpellTail(whole, TailDigits(b));
    AlphabetAt(0);
    AlphabetDistinct();
  }

  /** The last two characters of a spelling end in those of its last two digits. */
  lemma SpellTail(whole: seq<Digit>, tail: seq<Digit>)
    requires |tail| == 2
    ensures var s := Spell(whole + tail); s[|s| - 2..] == [Alphabet[tail[0]], Alphabet[tail[1]]]
  {
  }

  /** Scanning spelled digits gives the digits back. */
  lemma ScanSpell(ds: seq<Digit>)
    ensures Scan(Spell(ds)) == ds
  {
    SpellDecodes(ds);
  }

  /** Spelled digits contain no character outside the alphabet. */
  lemma FirstInvalidSpell(ds: seq<Digit>)
    ensures FirstInvalid(Spell(ds)) == |ds|
  {
    SpellDecodes(ds);
  }

  // ---------------------------------------------------------------------------
  // Round trip
  // ---------------------------------------------------------------------------

  /** The triple of a chunk decodes to the chunk. */
  lemma ChunkRoundTrip(b0: Byte, b1: Byte)
    ensures var ds := ChunkDigits(b0, b1); TripleBytes(ds[0], ds[1], ds[2]) == [b0, b1]
  {
    var ds := ChunkDigits(b0, b1);
    var bs := TripleBytes(ds[0], ds[1], ds[2]);
    assert (b0 as int * 256 + b1 as int) % 65536 == b0 as int * 256 + b1 as int;
    assert bs[0] as int * 256 + bs[1] as int == b0 as int * 256 + b1 as int;
  }

  /** The pair of a trailing byte decodes to the byte. */
  lemma TailRoundTrip(b: Byte)
    ensures var ds := TailDigits(b); PairByte(ds[0], ds[1]) == b
  {
  }

  /** The whole-triple bytes of `ds` depend only on its first `3 * count` digits. */
  lemma {:induction false} WholeChunkBytesPrefix(ds: seq<Byte>, es: seq<Byte>, count: nat)
    requires 3 * count <= |ds| && 3 * count <= |es|
    requires ds[..3 * count] == es[..3 * count]
    ensures WholeChunkBytes(ds, count) == WholeChunkBytes(es, count)
  {
    if count > 0 {
      assert ds[..3 * count - 3] == es[..3 * count - 3] by {
        assert ds[..3 * count - 3] == ds[..3 * count][..3 * count - 3];
        assert es[..3 * count - 3] == es[..3 * count][..3 * count - 3];
      }
      assert ds[3 * count - 3] == ds[..3 * count][3 * count - 3];
      assert es[3 * count - 3] == es[..3 * count][3 * count - 3];
      assert ds[3 * count - 2] == ds[..3 * count][3 * count - 2];
      assert es[3 * count - 2] == es[..3 * count][3 * count - 2];
      WholeChunkBytesPrefix(ds, es, count - 1);
    }
  }

  /** Decoding the digits of the first `count` chunks gives those chunks back. */
  lemma {:induction false} ChunksRoundTrip(bytes: seq<Byte>, count: nat)
    requires 2 * count <= |bytes|
    ensures WholeChunkBytes(WholeChunkDigits(bytes, count), count) == bytes[..2 * count]
  {
    if count > 0 {
      var k := count - 1;
      var prev := WholeChunkDigits(bytes, k);
      var chunk := ChunkDigits(bytes[2 * k], bytes[2 * k + 1]);
      var ds := WholeChunkDigits(bytes, count);
      WholeChunkDigitsNext(bytes, k);
      assert ds[..3 * k] == prev[..3 * k];
      WholeChunkBytesPrefix(ds, prev, k);
      ChunksRoundTrip(bytes, k);
      WholeChunkBytesNext(ds, k);
      assert ds[3 * k] == chunk[0] && ds[3 * k + 1] == chunk[1] && ds[3 * k + 2] == chunk[2];
      ChunkRoundTrip(bytes[2 * k], bytes[2 * k + 1]);
      TakeTwoMore(bytes, 2 * k);
    }
  }

  lemma TakeTwoMore<T>(s: seq<T>, j: nat)
    requires j + 2 <= |s|
    ensures s[..j + 2] == s[..j] + [s[j], s[j + 1]]
  {
  }

  /** A buffer of odd length: its whole chunks round-trip, and so does its trailing byte. */
  lemma OddDigitsRoundTrip(bytes: seq<Byte>, n: nat)
    requires |bytes| == 2 * n + 1
    requires WholeChunkBytes(WholeChunkDigits(bytes, n), n) == bytes[..2 * n]
    ensures DigitsToBytes(EncodeDigits(bytes)) == Success(bytes)
  {
    var whole := WholeChunkDigits(bytes, n);
    var tail := TailDigits(bytes[2 * n]);
    var ds := whole + tail;
    assert |bytes| / 2 == n;
    assert EncodeDigits(bytes) == ds;
    assert |ds| / 3 == n && |ds| % 3 == 2;
    assert ds[..3 * n] == whole == whole[..3 * n];
    WholeChunkBytesPrefix(ds, whole, n);
    assert ds[3 * n] == tail[0] && ds[3 * n + 1] == tail[1];
    TailRoundTrip(bytes[2 * n]);
    assert DigitsToBytes(ds) == Success(bytes[..2 * n] + [PairByte(ds[3 * n], ds[3 * n + 1])]);
    assert bytes == bytes[..2 * n] + [bytes[2 * n]];
  }

  /** Turning the digits of any buffer back into bytes gives the buffer. */
  lemma DigitsRoundTrip(bytes: seq<Byte>)
    ensures DigitsToBytes(EncodeDigits(bytes)) == Success(bytes)
  {
    var n := |bytes| / 2;
    ChunksRoundTrip(bytes, n);
    if |bytes| % 2 == 0 {
      assert bytes[..2 * n] == bytes;
    } else {
      OddDigitsRoundTrip(bytes, n);
    }
  }

  /**
   * The round trip the codec exists for: strict decoding of an encoding
   * succeeds and gives back the encoded bytes.
   */
  lemma RoundTrip(bytes: seq<Byte>)
    ensures Decoded(Encoded(bytes), false) == Success(bytes)
  {
    var ds := EncodeDigits(bytes);
    FirstInvalidSpell(ds);
    ScanSpell(ds);
    DigitsRoundTrip(bytes);
  }

  /** Lenient decoding of an encoding gives the same bytes. */
  lemma RoundTripLenient(bytes: seq<Byte>)
    ensures Decoded(Encoded(bytes), true) == Success(bytes)
  {
    RoundTrip(bytes);
    LenientAgrees(Encoded(bytes));
  }

  /** Different buffers have different encodings. */
  lemma EncodedInjective(a: seq<Byte>, b: seq<Byte>)
    requires Encoded(a) == Encoded(b)
    ensures a == b
  {
    RoundTrip(a);
    RoundTrip(b);
  }

  // ---------------------------------------------------------------------------
  // Strict decoding: when it fails and why
  // ---------------------------------------------------------------------------

  /** Strict decoding succeeds exactly on strings of alphabet characters whose length is not 1 modulo 3. */
  lemma DecodedSucceeds(s: string)
    ensures Decoded(s, false).Success? <==> |s| % 3 != 1 && forall c :: c in s ==> c in Alphabet
  {
    DecodingKeys();
    var k := FirstInvalid(s);
    if k < |s| {
      assert s[k] in s;
    }
  }

  /** A non-empty string whose length is 1 modulo 3 is rejected for its length, whatever its characters. */
  lemma DecodedIncorrectLength(s: string)
    requires |s| % 3 == 1
    ensures Decoded(s, false) == Failure(IncorrectLength)
  {
  }

  /**
   * A string of acceptable length with a character outside the alphabet is
   * rejected at the first such character.
   */
  lemma DecodedInvalidChar(s: string, k: nat)
    requires |s| % 3 != 1
    requires k < |s| && s[k] !in Alphabet
    requires forall j :: 0 <= j < k ==> s[j] in Alphabet
    ensures Decoded(s, false) == Failure(InvalidChar(k))
  {
    DecodingKeys();
  }

  /** Strict decoding never fails with the index error of a lone final digit. */
  lemma DecodedStrictErrors(s: string)
    ensures Decoded(s, false).Failure? ==> Decoded(s, false).error != IndexOutOfRange
  {
  }

  // ---------------------------------------------------------------------------
  // Lenient decoding (`ignoreErrors`)
  // ---------------------------------------------------------------------------

  /** Where strict decoding succeeds, lenient decoding gives the same bytes. */
  lemma LenientAgrees(s: string)
    requires Decoded(s, false).Success?
    ensures Decoded(s, true) == Decoded(s, false)
  {
  }

  /** A character outside the alphabet is decoded as the digit 0, the character '0'. */
  lemma LenientReadsZero(s: string, i: nat)
    requires i < |s| && s[i] !in Alphabet
    ensures Decoded(s, true) == Decoded(s[i := '0'], true)
  {
    DecodingKeys();
    AlphabetAt(0);
    DecodingOfAlphabet();
    assert Scan(s) == Scan(s[i := '0']);
  }

  /** Lenient decoding fails only on a single character, and then with the index error. */
  lemma LenientFails(s: string)
    ensures Decoded(s, true).Failure? <==> |s| == 1
    ensures |s| == 1 ==> Decoded(s, true) == Failure(IndexOutOfRange)
  {
  }

  /**
   * With a length of 1 modulo 3 (at least 4), the pair byte of the last two
   * digits overwrites the low byte of the last whole triple: "BB80" gives
   * 65 (from "BB8") and then 8, from the pair "80".
   */
  lemma LenientOverwritesLastByte()
    ensures Decoded("BB80", true) == Success([65, 8])
  {
    ScanIs([11, 11, 8, 0], "BB80");
    var whole := WholeChunkBytes([11, 11, 8, 0], 1);
    assert whole == [65, 66];
    assert DigitsToBytes([11, 11, 8, 0]) == Success(whole[..1] + [PairByte(8, 0)]);
    assert whole[..1] + [PairByte(8, 0)] == [65, 8];
  }

  // ---------------------------------------------------------------------------
  // Out-of-range triples
  // ---------------------------------------------------------------------------

  /**
   * ":::" is the triple 44 + 45 * 44 + 2025 * 44 = 91124, above 65535.
   * The decoder does not reject it: the unchecked byte casts keep
   * 91124 mod 65536 = 25588, the bytes 99 and 244.
   */
  lemma OverflowTripleWraps()
    ensures Decoded(":::", false) == Success([99, 244])
  {
    ScanIs([44, 44, 44], ":::");
    assert WholeChunkBytes([44, 44, 44], 1) == [99, 244];
  }

  // ---------------------------------------------------------------------------
  // The examples of section 4.3 of RFC 9285
  // ---------------------------------------------------------------------------

  /** Digits whose characters are the characters of `s` spell `s`. */
  lemma SpellIs(ds: seq<Digit>, s: string)
    requires |ds| == |s|
    requires forall i :: 0 <= i < |ds| ==> DigitChar(ds[i]) == s[i]
    ensures Spell(ds) == s
  {
    forall i | 0 <= i < |ds|
      ensures Spell(ds)[i] == s[i]
    {
      AlphabetAt(ds[i]);
    }
  }

  /** A string of alphabet characters scans to their digits. */
  lemma ScanIs(ds: seq<Digit>, s: string)
    requires |ds| == |s|
    requires forall i :: 0 <= i < |ds| ==> DigitChar(ds[i]) == s[i]
    ensures Scan(s) == ds && FirstInvalid(s) == |s|
  {
    SpellIs(ds, s);
    ScanSpell(ds);
    FirstInvalidSpell(ds);
  }

  /** Bytes whose digits spell `s` are encoded as `s`, and `s` decodes back to them. */
  lemma EncodesAs(bytes: seq<Byte>, ds: seq<Digit>, s: string)
    requires EncodeDigits(bytes) == ds && |ds| == |s|
    requires forall i :: 0 <= i < |ds| ==> DigitChar(ds[i]) == s[i]
    ensures Encoded(bytes) == s
    ensures Decoded(s, false) == Success(bytes)
  {
    SpellIs(ds, s);
    RoundTrip(bytes);
  }

  /** "AB" is encoded as "BB8". */
  lemma ExampleAB()
    ensures Encoded([65, 66]) == "BB8"
    ensures Decoded("BB8", false) == Success([65, 66])
  {
    assert EncodeDigits([65, 66]) == [11, 11, 8];
    EncodesAs([65, 66], [11, 11, 8], "BB8");
  }

  lemma HelloDigits()
    ensures EncodeDigits([72, 101, 108, 108, 111, 33, 33]) == [38, 6, 9, 36, 31, 13, 9, 2, 14, 33, 0]
  {
    var bytes: seq<Byte> := [72, 101, 108, 108, 111, 33, 33];
    assert WholeChunkDigits(bytes, 1) == [38, 6, 9];
    assert WholeChunkDigits(bytes, 2) == [38, 6, 9, 36, 31, 13];
    assert WholeChunkDigits(bytes, 3) == [38, 6, 9, 36, 31, 13, 9, 2, 14];
  }

  /** "Hello!!" is encoded as "%69 VD92EX0". */
  lemma ExampleHello()
    ensures Encoded([72, 101, 108, 108, 111, 33, 33]) == "%69 VD92EX0"
    ensures Decoded("%69 VD92EX0", false) == Success([72, 101, 108, 108, 111, 33, 33])
  {
    HelloDigits();
    EncodesAs([72, 101, 108, 108, 111, 33, 33], [38, 6, 9, 36, 31, 13, 9, 2, 14, 33, 0], "%69 VD92EX0");
  }

  lemma Base45Digits()
    ensures EncodeDigits([98, 97, 115, 101, 45, 52, 53]) == [30, 19, 12, 21, 26, 14, 7, 32, 5, 8, 1]
  {
    var bytes: seq<Byte> := [98, 97, 115, 101, 45, 52, 53];
    assert WholeChunkDigits(bytes, 1) == [30, 19, 12];
    assert WholeChunkDigits(bytes, 2) == [30, 19, 12, 21, 26, 14];
    assert WholeChunkDigits(bytes, 3) == [30, 19, 12, 21, 26, 14, 7, 32, 5];
  }

  /** "base-45" is encoded as "UJCLQE7W581". */
  lemma ExampleBase45()
    ensures Encoded([98, 97, 115, 101, 45, 52, 53]) == "UJCLQE7W581"
    ensures Decoded("UJCLQE7W581", false) == Success([98, 97, 115, 101, 45, 52, 53])
  {
    Base45Digits();
    EncodesAs([98, 97, 115, 101, 45, 52, 53], [30, 19, 12, 21, 26, 14, 7, 32, 5, 8, 1], "UJCLQE7W581");
  }

  lemma IetfDigits()
    ensures EncodeDigits([105, 101, 116, 102, 33]) == [26, 14, 13, 8, 32, 14, 33, 0]
  {
    var bytes: seq<Byte> := [105, 101, 116, 102, 33];
    assert WholeChunkDigits(bytes, 1) == [26, 14, 13];
    assert WholeChunkDigits(bytes, 2) == [26, 14, 13, 8, 32, 14];
  }

  /** "QED8WEX0" decodes to "ietf!". */
  lemma ExampleIetf()
    ensures Encoded([105, 101, 116, 102, 33]) == "QED8WEX0"
    ensures Decoded("QED8WEX0", false) == Success([105, 101, 116, 102, 33])
  {
    IetfDigits();
    EncodesAs([105, 101, 116, 102, 33], [26, 14, 13, 8, 32, 14, 33, 0], "QED8WEX0");
  }
}
