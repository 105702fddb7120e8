/**
 * The static class `Base45Encoding`: `Encode` and `Decode` as the array-filling
 * loops they are, each proved to compute the corresponding function of
 * module Base45Model. The static constructor is `Base45Alphabet.BuildDecoding`.
 */
module Base45Encoding {
  import opened Wrappers
  import opened Base45Alphabet
  import opened Base45Model

  // The class's constants appear as literals in the arithmetic, which keeps
  // it linear for the verifier: BaseSize = 45, BaseSizeSquared = 2025,
  // ChunkSize = 2, EncodedChunkSize = 3, SmallEncodedChunkSize = 2,
  // ByteSize = 256.
  //
  // Each loop body is a method of its own (`EncodeChunk`, `DecodeChunk`) so
  // that the frame reasoning about one iteration stays small. The class
  // advances `i` and `resultIndex` by post-increments inside the loop body;
  // here the loops advance them by 3 and 2 (or 2 and 3) after each call,
  // which leaves them with the same values at the start of every iteration.

  /** Appending digits appends their characters. */
  lemma SpellAppend(a: seq<Digit>, b: seq<Digit>)
    ensures Spell(a + b) == Spell(a) + Spell(b)
  {
  }

  /** Writing `x` at positions `at`, `at + 1`, ... extends the prefix before `at` by `x`. */
  lemma WritePrefix<T>(before: seq<T>, at: nat, x: seq<T>, after: seq<T>)
    requires at + |x| <= |before| == |after|
    requires forall j :: 0 <= j < at ==> after[j] == before[j]
    requires forall j :: 0 <= j < |x| ==> after[at + j] == x[j]
    ensures after[..at + |x|] == before[..at] + x
  {
    assert forall j :: 0 <= j < at + |x| ==> after[..at + |x|][j] == (before[..at] + x)[j];
  }

  /** Replacing the last element keeps the others and ends with the new one. */
  lemma ReplaceLast<T>(s: seq<T>, x: T)
    requires |s| > 0
    ensures s[|s| - 1 := x] == s[..|s| - 1] + [x]
  {
  }

  /** Writing three values at `at` extends the prefix before `at` by them. */
  lemma WriteThree<T>(before: seq<T>, at: nat, x0: T, x1: T, x2: T, after: seq<T>)
    requires at + 3 <= |before|
    requires after == before[at := x0][at + 1 := x1][at + 2 := x2]
    ensures after[..at + 3] == before[..at] + [x0, x1, x2]
  {
    WritePrefix(before, at, [x0, x1, x2], after);
  }

  /** The characters of one chunk of value `value`, as the loop of `Encode` computes them. */
  lemma ChunkSpelling(b0: Byte, b1: Byte, value: int)
    requires value == b0 as int * 256 + b1 as int
    ensures Spell(ChunkDigits(b0, b1)) == [Alphabet[value % 45], Alphabet[value / 45 % 45], Alphabet[value / 2025 % 45]]
  {
    var ds := ChunkDigits(b0, b1);
    assert ds[0] == value % 45 && ds[1] == value / 45 % 45 && ds[2] == value / 2025 % 45;
  }

  /**
   * One step of the loop of `Encode`: after the three characters of chunk `k`
   * are written at `resultIndex`, the result spells the first `k + 1` chunks.
   */
  lemma EncodeStep(buffer: seq<Byte>, k: nat, i: nat, resultIndex: nat, value: int, before: seq<char>, after: seq<char>)
    requires i == 2 * k && resultIndex == 3 * k
    requires i + 2 <= |buffer| && resultIndex + 3 <= |before|
    requires value == buffer[i] as int * 256 + buffer[i + 1] as int
    requires before[..resultIndex] == Spell(WholeChunkDigits(buffer, k))
    requires after == before[resultIndex := Alphabet[value % 45]][resultIndex + 1 := Alphabet[value / 45 % 45]][resultIndex + 2 := Alphabet[value / 2025 % 45]]
    ensures after[..resultIndex + 3] == Spell(WholeChunkDigits(buffer, k + 1))
  {
    ChunkSpelling(buffer[i], buffer[i + 1], value);
    WriteThree(before, resultIndex, Alphabet[value % 45], Alphabet[value / 45 % 45], Alphabet[value / 2025 % 45], after);
    WholeChunkDigitsNext(buffer, k);
    SpellAppend(WholeChunkDigits(buffer, k), ChunkDigits(buffer[i], buffer[i + 1]));
  }

  /** The body of the loop of `Encode`: the three characters of chunk `k`. */
  method EncodeChunk(buffer: seq<Byte>, ghost k: nat, i: nat, result: array<char>, resultIndex: nat)
    requires i == 2 * k && resultIndex == 3 * k
    requires i + 2 <= |buffer| && resultIndex + 3 <= result.Length
    requires result[..resultIndex] == Spell(WholeChunkDigits(buffer, k))
    modifies result
    ensures result[..resultIndex + 3] == Spell(WholeChunkDigits(buffer, k + 1))
    ensures result[resultIndex + 3..] == old(result[resultIndex + 3..])
  {
    var value := buffer[i] as int * 256 + buffer[i + 1] as int;
    ghost var before := result[..];
    result[resultIndex] := Alphabet[value % 45];
    result[resultIndex + 1] := Alphabet[value / 45 % 45];
    result[resultIndex + 2] := Alphabet[value / 2025 % 45];
    EncodeStep(buffer, k, i, resultIndex, value, before, result[..]);
  }

  /**
   * The loop of `Encode`: writes the three characters of each of the first
   * `wholeChunkCount` chunks of `buffer` into `result`, in order.
   */
  method EncodeWholeChunks(buffer: seq<Byte>, wholeChunkCount: nat, result: array<char>)
    requires wholeChunkCount * 2 <= |buffer|
    requires wholeChunkCount * 3 <= result.Length
    modifies result
    ensures result[..wholeChunkCount * 3] == Spell(WholeChunkDigits(buffer, wholeChunkCount))
    ensures result[wholeChunkCount * 3..] == old(result[wholeChunkCount * 3..])
  {
    var wholeChunkLength := wholeChunkCount * 2;
    var resultIndex := 0;
    var i := 0;
    ghost var k := 0;
    while i < wholeChunkLength
      invariant 0 <= k <= wholeChunkCount && i == 2 * k && resultIndex == 3 * k
      invariant result[..resultIndex] == Spell(WholeChunkDigits(buffer, k))
      invariant forall j :: wholeChunkCount * 3 <= j < result.Length ==> result[j] == old(result[j])
    {
      EncodeChunk(buffer, k, i, result, resultIndex);
      i, resultIndex, k := i + 2, resultIndex + 3, k + 1;
    }
  }

  /** The characters of a trailing odd byte, as `Encode` computes them. */
  lemma TailSpelling(b: Byte)
    ensures Spell(TailDigits(b)) == [Alphabet[b % 45], if b < 45 then Alphabet[0] else Alphabet[b / 45 % 45]]
  {
  }

  /** Writing the characters of a trailing byte into the last two slots. */
  lemma TailWrite(before: seq<char>, length: nat, last: Byte, after: seq<char>)
    requires length == |before| >= 2
    requires after == before[length - 2 := Alphabet[last % 45]][length - 1 := if last < 45 then Alphabet[0] else Alphabet[last / 45 % 45]]
    ensures after == before[..length - 2] + Spell(TailDigits(last))
  {
    TailSpelling(last);
    WritePrefix(before, length - 2, Spell(TailDigits(last)), after);
    assert after == after[..length];
  }

  /**
   * The last step of `Encode` for an odd-length buffer: after the two
   * characters of the trailing byte `last` are written into the last two
   * slots, the result is the whole encoding.
   */
  lemma EncodeTail(buffer: seq<Byte>, wholeChunkCount: nat, last: Byte, length: nat, before: seq<char>, after: seq<char>)
    requires |buffer| % 2 == 1 && wholeChunkCount == |buffer| / 2
    requires length == |before| == wholeChunkCount * 3 + 2
    requires last == buffer[|buffer| - 1]
    requires before[..wholeChunkCount * 3] == Spell(WholeChunkDigits(buffer, wholeChunkCount))
    requires after == before[length - 2 := Alphabet[last % 45]][length - 1 := if last < 45 then Alphabet[0] else Alphabet[last / 45 % 45]]
    ensures after == Encoded(buffer)
  {
    TailWrite(before, length, last, after);
    assert EncodeDigits(buffer) == WholeChunkDigits(buffer, wholeChunkCount) + TailDigits(last);
    SpellAppend(WholeChunkDigits(buffer, wholeChunkCount), TailDigits(last));
  }

  /**
   * Encodes `buffer`: each whole 2-byte chunk as three characters, a trailing
   * odd byte as two. Never fails.
   */
  method Encode(buffer: seq<Byte>) returns (s: string)
    ensures s == Encoded(buffer)
  {
    var wholeChunkCount := |buffer| / 2;
    var result := new char[wholeChunkCount * 3 + (if |buffer| % 2 == 1 then 2 else 0)];

    if result.Length == 0 {
      return "";
    }

    EncodeWholeChunks(buffer, wholeChunkCount, result);

    if |buffer| % 2 == 0 {
      return result[..];
    }

    ghost var before := result[..];
    var last := buffer[|buffer| - 1];
    result[result.Length - 2] := Alphabet[last % 45];
    result[result.Length - 1] := if last < 45 then Alphabet[0] else Alphabet[last / 45 % 45];
    EncodeTail(buffer, wholeChunkCount, last, result.Length, before, result[..]);
    s := result[..];
  }

  /**
   * The first loop of `Decode`: stores the digit of each character of `value`
   * in `buffer`. At a character outside the alphabet it stops and returns the
   * position unless errors are ignored, in which case the slot keeps its zero.
   * Returns `|value|` when it completes.
   */
  method ScanDigits(value: string, ignoreErrors: bool, buffer: array<Byte>) returns (stop: int)
    requires buffer.Length == |value|
    requires forall k :: 0 <= k < buffer.Length ==> buffer[k] == 0
    modifies buffer
    ensures stop == if ignoreErrors then |value| else FirstInvalid(value)
    ensures stop == |value| ==> buffer[..] == Scan(value)
  {
    for i := 0 to |value|
      invariant buffer[..i] == Scan(value)[..i]
      invariant forall k :: i <= k < buffer.Length ==> buffer[k] == 0
      invariant !ignoreErrors ==> forall k :: 0 <= k < i ==> value[k] in Decoding
    {
      if value[i] in Decoding {
        buffer[i] := Decoding[value[i]];
        continue;
      }

      if !ignoreErrors {
        return i;
      }
    }
    assert buffer[..] == Scan(value)[..|value|];
    return |value|;
  }

  /** One step of the second loop of `Decode`: the two bytes written for triple `k`. */
  lemma DecodeStep(digits: seq<Byte>, k: nat, i: nat, resultIndex: nat, val: int, before: seq<Byte>, after: seq<Byte>)
    requires i == 3 * k && resultIndex == 2 * k
    requires i + 3 <= |digits| && resultIndex + 2 <= |before|
    requires val == digits[i] as int + 45 * digits[i + 1] as int + 2025 * digits[i + 2] as int
    requires before[..resultIndex] == WholeChunkBytes(digits, k)
    requires after == before[resultIndex := val / 256 % 256][resultIndex + 1 := val % 256]
    ensures after[..resultIndex + 2] == WholeChunkBytes(digits, k + 1)
  {
    var triple := TripleBytes(digits[i], digits[i + 1], digits[i + 2]);
    assert triple == [val / 256 % 256, val % 256];
    WholeChunkBytesNext(digits, k);
    WritePrefix(before, resultIndex, triple, after);
  }

  /** The body of the second loop of `Decode`: the two bytes of triple `k`. */
  method DecodeChunk(buffer: seq<Byte>, ghost k: nat, i: nat, result: array<Byte>, resultIndex: nat)
    requires i == 3 * k && resultIndex == 2 * k
    requires i + 3 <= |buffer| && resultIndex + 2 <= result.Length
    requires result[..resultIndex] == WholeChunkBytes(buffer, k)
    modifies result
    ensures result[..resultIndex + 2] == WholeChunkBytes(buffer, k + 1)
    ensures result[resultIndex + 2..] == old(result[resultIndex + 2..])
  {
    var val := buffer[i] as int + 45 * buffer[i + 1] as int + 2025 * buffer[i + 2] as int;
    ghost var before := result[..];
    result[resultIndex] := val / 256 % 256;
    result[resultIndex + 1] := val % 256;
    DecodeStep(buffer, k, i, resultIndex, val, before, result[..]);
  }

  /**
   * The second loop of `Decode`: turns each of the first `wholeChunkCount`
   * digit triples of the digit buffer into two bytes of `result`, in order.
   */
  method DecodeWholeChunks(buffer: seq<Byte>, wholeChunkCount: nat, result: array<Byte>)
    requires wholeChunkCount * 3 <= |buffer|
    requires wholeChunkCount * 2 <= result.Length
    modifies result
    ensures result[..wholeChunkCount * 2] == WholeChunkBytes(buffer, wholeChunkCount)
    ensures result[wholeChunkCount * 2..] == old(result[wholeChunkCount * 2..])
  {
    var wholeChunkLength := wholeChunkCount * 3;
    var resultIndex := 0;
    var i := 0;
    ghost var k := 0;
    while i < wholeChunkLength
      invariant 0 <= k <= wholeChunkCount && i == 3 * k && resultIndex == 2 * k
      invariant result[..resultIndex] == WholeChunkBytes(buffer, k)
      invariant forall j :: wholeChunkCount * 2 <= j < result.Length ==> result[j] == old(result[j])
    {
      DecodeChunk(buffer, k, i, result, resultIndex);
      i, resultIndex, k := i + 3, resultIndex + 2, k + 1;
    }
  }

  /**
   * The last step of `Decode` when the length is not a multiple of 3: the
   * pair byte written over the last slot of the whole-triple bytes (plus an
   * extra slot when the length is 2 modulo 3) gives `DigitsToBytes`.
   */
  lemma DecodeTail(ds: seq<Byte>, wholeChunkCount: nat, remainderSize: nat, length: nat, pair: int, before: seq<Byte>, after: seq<Byte>)
    requires |ds| == 3 * wholeChunkCount + remainderSize && 0 < remainderSize < 3
    requires length == |before| == wholeChunkCount * 2 + (if remainderSize == 2 then 1 else 0) && length != 0
    requires before[..wholeChunkCount * 2] == WholeChunkBytes(ds, wholeChunkCount)
    requires pair == ds[|ds| - 2] as int + 45 * ds[|ds| - 1] as int
    requires after == before[length - 1 := pair % 256]
    ensures DigitsToBytes(ds) == Success(after)
  {
    var whole := WholeChunkBytes(ds, wholeChunkCount);
    var last := PairByte(ds[|ds| - 2], ds[|ds| - 1]);
    DigitsToBytesLastSlot(ds, wholeChunkCount, remainderSize);
    assert pair % 256 == last;
    ReplaceLast(before, last);
    if remainderSize == 2 {
      assert before[..length - 1] == whole;
    } else {
      assert before[..length - 1] == whole[..|whole| - 1];
    }
  }

  /**
   * The part of `Decode` after the digit buffer is filled: the triple loop,
   * then the final pair written into the last slot of the result.
   */
  method DecodeDigits(buffer: array<Byte>) returns (r: Result<seq<Byte>, DecodeError>)
    ensures r == DigitsToBytes(buffer[..])
  {
    var remainderSize := buffer.Length % 3;
    var wholeChunkCount := buffer.Length / 3;
    var result := new Byte[wholeChunkCount * 2 + (if remainderSize == 2 then 1 else 0)](_ => 0);
    DecodeWholeChunks(buffer[..], wholeChunkCount, result);

    if remainderSize == 0 {
      assert result[..] == result[..wholeChunkCount * 2];
      return Success(result[..]);
    }

    if result.Length == 0 {
      // `result[result.Length - 1]` is `result[-1]`
      assert buffer.Length == 1;
      return Failure(IndexOutOfRange);
    }
    ghost var before := result[..];
    var pair := buffer[buffer.Length - 2] as int + 45 * buffer[buffer.Length - 1] as int;
    result[result.Length - 1] := pair % 256;
    DecodeTail(buffer[..], wholeChunkCount, remainderSize, result.Length, pair, before, result[..]);
    r := Success(result[..]);
  }

  /**
   * Decodes `value`. Without `ignoreErrors` a length of 1 modulo 3 and a
   * character outside the alphabet are errors; with it, unrecognised
   * characters count as the digit 0 and the length is not checked.
   */
  method Decode(value: string, ignoreErrors: bool := false) returns (r: Result<seq<Byte>, DecodeError>)
    ensures r == Decoded(value, ignoreErrors)
  {
    if |value| == 0 {
      return Success([]);
    }

    var remainderSize := |value| % 3;
    if remainderSize == 1 && !ignoreErrors {
      return Failure(IncorrectLength);
    }

    var buffer := new Byte[|value|](_ => 0);
    var stop := ScanDigits(value, ignoreErrors, buffer);
    if stop < |value| {
      return Failure(InvalidChar(stop));
    }
    r := DecodeDigits(buffer);
  }
}
