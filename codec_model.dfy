/**
 * The meaning of `Base45Encoding.Encode` and `Base45Encoding.Decode` as pure
 * functions on sequences. The methods in module Base45Encoding are proved to
 * compute exactly these; the properties of the codec are proved about these.
 *
 * Encoding works in two steps: bytes become base-45 digits (three per 2-byte
 * chunk, two for a trailing byte), and digits become characters through the
 * alphabet. Decoding runs the same two steps backwards.
 */
module Base45Model {
  import opened Wrappers
  import opened Base45Alphabet

  /** An element of a C# `byte[]`. */
  type Byte = b: int | 0 <= b < 256

  /** The exceptions `Decode` throws. */
  datatype DecodeError =
    | IncorrectLength              // FormatException "Incorrect length."
    | InvalidChar(position: nat)   // FormatException "Invalid character at position i."
    | IndexOutOfRange              // IndexOutOfRangeException from `result[-1]`

  // ---------------------------------------------------------------------------
  // Encoding
  // ---------------------------------------------------------------------------

  /** The digits of one 2-byte chunk: its value `b0 * 256 + b1` in base 45, least significant first. */
  function ChunkDigits(b0: Byte, b1: Byte): (ds: seq<Digit>)
    ensures |ds| == 3
    ensures ds[0] as int + 45 * ds[1] as int + 2025 * ds[2] as int == b0 as int * 256 + b1 as int
  {
    var value: int := b0 * 256 + b1;
    BaseFortyFiveDigits(value);
    [value % 45, value / 45 % 45, value / 2025 % 45]
  }

  /** A 16-bit value is the weighted sum of its three base-45 digits. */
  lemma BaseFortyFiveDigits(value: int)
    requires 0 <= value < 65536
    ensures value % 45 + 45 * (value / 45 % 45) + 2025 * (value / 2025 % 45) == value
  {
    var q := value / 45;
    var r := q / 45;
    assert value == 45 * q + value % 45;
    assert q == 45 * r + q % 45;
    assert value == 2025 * r + (45 * (q % 45) + value % 45);
    assert value / 2025 == r;
    assert r % 45 == r;
  }

  /**
   * The two digits of a trailing odd byte: `b % 45`, then `0` when `b < 45` and
   * `b / 45 % 45` otherwise. Both branches give `b / 45`: the second digit pads
   * with the digit 0 (the character '0') exactly when the byte is below 45.
   */
  function TailDigits(b: Byte): (ds: seq<Digit>)
    ensures |ds| == 2
    ensures ds[1] == b / 45
    ensures ds[0] as int + 45 * ds[1] as int == b
  {
    [b % 45, if b < 45 then 0 else b / 45 % 45]
  }

  /** The digits of the first `count` 2-byte chunks of `bytes`, chunk by chunk in order. */
  function WholeChunkDigits(bytes: seq<Byte>, count: nat): (ds: seq<Digit>)
    requires 2 * count <= |bytes|
    ensures |ds| == 3 * count
  {
    if count == 0 then []
    else WholeChunkDigits(bytes, count - 1) + ChunkDigits(bytes[2 * count - 2], bytes[2 * count - 1])
  }

  /** Chunk `k + 1` of the whole-chunk digits extends chunk `k` by one chunk. */
  lemma WholeChunkDigitsNext(bytes: seq<Byte>, k: nat)
    requires 2 * k + 2 <= |bytes|
    ensures WholeChunkDigits(bytes, k + 1) == WholeChunkDigits(bytes, k) + ChunkDigits(bytes[2 * k], bytes[2 * k + 1])
  {
  }

  /** The digits of any buffer: its whole chunks, then the digits of a trailing odd byte. */
  function EncodeDigits(bytes: seq<Byte>): (ds: seq<Digit>)
    ensures |ds| == |bytes| / 2 * 3 + (if |bytes| % 2 == 1 then 2 else 0)
  {
    var whole := WholeChunkDigits(bytes, |bytes| / 2);
    if |bytes| % 2 == 0 then whole else whole + TailDigits(bytes[|bytes| - 1])
  }

  /** Writes each digit as its alphabet character (`Base45Properties.SpellDecodes` reads them back). */
  function Spell(ds: seq<Digit>): (s: string)
    ensures |s| == |ds|
  {
    seq(|ds|, i requires 0 <= i < |ds| => Alphabet[ds[i]])
  }

  /**
   * What `Encode(buffer)` returns: three alphabet characters per whole chunk
   * and two for a trailing odd byte, never a length that is 1 modulo 3.
   */
  function Encoded(bytes: seq<Byte>): (s: string)
    ensures |s| == |bytes| / 2 * 3 + (if |bytes| % 2 == 1 then 2 else 0)
    ensures |s| % 3 != 1
  {
    Spell(EncodeDigits(bytes))
  }

  // ---------------------------------------------------------------------------
  // Decoding
  // ---------------------------------------------------------------------------

  /**
   * The digit buffer `Decode` fills: the digit of each recognised character,
   * and the zero the buffer was created with where a character is not in the
   * alphabet.
   */
  function Scan(s: string): (ds: seq<Byte>)
    ensures |ds| == |s|
  {
    seq(|s|, i requires 0 <= i < |s| => if s[i] in Decoding then Decoding[s[i]] else 0)
  }

  /** The position of the first character outside the alphabet, or `|s|` when there is none. */
  function FirstInvalid(s: string): (k: nat)
    ensures k <= |s|
    ensures forall j :: 0 <= j < k ==> s[j] in Decoding
    ensures k < |s| ==> s[k] !in Decoding
    decreases |s|
  {
    if s == [] then 0
    else if s[0] !in Decoding then 0
    else 1 + FirstInvalid(s[1..])
  }

  /**
   * The two bytes of one digit triple: `val / 256` then `val % 256` with
   * `val = d0 + 45 * d1 + 2025 * d2`, each narrowed by an unchecked `(byte)`
   * cast. The pair is `val` as a 16-bit big-endian number, wrapped modulo 65536
   * when a malformed triple exceeds 65535.
   */
  function TripleBytes(d0: Byte, d1: Byte, d2: Byte): (bs: seq<Byte>)
    ensures |bs| == 2
    ensures bs[0] as int * 256 + bs[1] as int == (d0 as int + 45 * d1 as int + 2025 * d2 as int) % 65536
  {
    var val: int := d0 + 45 * d1 + 2025 * d2;
    var high := val / 256;
    assert val == 256 * high + val % 256;
    assert high == 256 * (high / 256) + high % 256;
    assert val / 65536 == high / 256;
    assert val % 65536 == val - 65536 * (val / 65536);
    [val / 256 % 256, val % 256]
  }

  /**
   * The byte of a final digit pair, `d0 + 45 * d1` narrowed by an unchecked
   * `(byte)` cast: the value itself when it fits in a byte, otherwise the
   * value with its multiples of 256 dropped.
   */
  function PairByte(d0: Byte, d1: Byte): (b: Byte)
    ensures d0 as int + 45 * d1 as int < 256 ==> b == d0 as int + 45 * d1 as int
    ensures (d0 as int + 45 * d1 as int - b as int) % 256 == 0
  {
    var pair: int := d0 as int + 45 * d1 as int;
    ByteNarrowing(pair);
    pair % 256
  }

  /** Narrowing to a byte drops a multiple of 256, and nothing from a value that fits. */
  lemma ByteNarrowing(v: int)
    ensures (v - v % 256) % 256 == 0
    ensures 0 <= v < 256 ==> v % 256 == v
  {
    var q := v / 256;
    assert v - v % 256 == 256 * q;
  }

  /** The bytes of the first `count` digit triples of `ds`, triple by triple in order. */
  function WholeChunkBytes(ds: seq<Byte>, count: nat): (bs: seq<Byte>)
    requires 3 * count <= |ds|
    ensures |bs| == 2 * count
  {
    if count == 0 then []
    else WholeChunkBytes(ds, count - 1) + TripleBytes(ds[3 * count - 3], ds[3 * count - 2], ds[3 * count - 1])
  }

  /** Triple `k + 1` of the whole-triple bytes extends triple `k` by one triple. */
  lemma WholeChunkBytesNext(ds: seq<Byte>, k: nat)
    requires 3 * k + 3 <= |ds|
    ensures WholeChunkBytes(ds, k + 1) == WholeChunkBytes(ds, k) + TripleBytes(ds[3 * k], ds[3 * k + 1], ds[3 * k + 2])
  {
  }

  /**
   * The second half of `Decode`: the bytes of the whole triples, then the
   * pair byte written into the LAST slot of the result. With a final pair
   * (length 2 modulo 3) that slot is an extra one; with a lone final digit
   * (length 1 modulo 3, reachable only when errors are ignored) no slot is
   * added, so the pair byte overwrites the low byte of the last triple, and a
   * single digit leaves no slot at all.
   */
  function DigitsToBytes(ds: seq<Byte>): (r: Result<seq<Byte>, DecodeError>)
    ensures r.Success? <==> |ds| != 1
    ensures r.Success? ==> |r.value| == |ds| / 3 * 2 + (if |ds| % 3 == 2 then 1 else 0)
    ensures r.Failure? ==> r.error == IndexOutOfRange
  {
    var n := |ds|;
    var whole := WholeChunkBytes(ds, n / 3);
    if n % 3 == 0 then Success(whole)
    else if n == 1 then Failure(IndexOutOfRange)
    else if n % 3 == 2 then Success(whole + [PairByte(ds[n - 2], ds[n - 1])])
    else Success(whole[..|whole| - 1] + [PairByte(ds[n - 2], ds[n - 1])])
  }

  /**
   * `DigitsToBytes` when the length is not a multiple of 3: the pair byte of
   * the last two digits after the whole-triple bytes, with the last of those
   * dropped when the length is 1 modulo 3.
   */
  lemma DigitsToBytesLastSlot(ds: seq<Byte>, wholeChunkCount: nat, remainderSize: nat)
    requires |ds| == 3 * wholeChunkCount + remainderSize && 0 < remainderSize < 3 && |ds| != 1
    ensures
      var whole := WholeChunkBytes(ds, wholeChunkCount);
      var last := PairByte(ds[|ds| - 2], ds[|ds| - 1]);
      DigitsToBytes(ds) == Success(if remainderSize == 2 then whole + [last] else whole[..|whole| - 1] + [last])
  {
    assert |ds| / 3 == wholeChunkCount && |ds| % 3 == remainderSize;
  }

  /**
   * What `Decode(value, ignoreErrors)` returns or throws. The empty string
   * decodes to no bytes before any check; a length of 1 modulo 3 and then the
   * first character outside the alphabet are errors unless `ignoreErrors`.
   */
  function Decoded(s: string, ignoreErrors: bool): (r: Result<seq<Byte>, DecodeError>)
    ensures |s| == 0 ==> r == Success([])
    ensures r.Success? ==>
      |r.value| == |s| / 3 * 2 + (if |s| % 3 == 2 then 1 else 0)
  {
    if |s| == 0 then Success([])
    else if |s| % 3 == 1 && !ignoreErrors then Failure(IncorrectLength)
    else if !ignoreErrors && FirstInvalid(s) < |s| then Failure(InvalidChar(FirstInvalid(s)))
    else DigitsToBytes(Scan(s))
  }
}
