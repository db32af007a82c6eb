/** The two capture encodings at byte level: the magic-signature test and the
    10-bit length of the binary format, the 24-bit timestamp inside a frame,
    and the hex pairs of the text format. */
module Formats {
  import opened Wrappers

  /** C#'s `byte`. */
  type byte = x: int | 0 <= x < 0x100

  /** C#'s `uint`. */
  type uint32 = x: int | 0 <= x < 0x1_0000_0000

  /** Largest timestamp plus one: a timestamp is three bytes. */
  const TimestampLimit := 0x100_0000

  // ---------------------------------------------------------------------------
  // BitConverter, as the source uses it

  /** `Array.Reverse`, applied when `BitConverter.IsLittleEndian` holds. */
  function HostOrder(a: seq<byte>, littleEndian: bool): (r: seq<byte>)
    ensures |r| == |a|
    ensures forall k :: 0 <= k < |a| ==> r[k] == (if littleEndian then a[|a| - 1 - k] else a[k])
  {
    if !littleEndian then a else seq(|a|, k requires 0 <= k < |a| => a[|a| - 1 - k])
  }

  /** `BitConverter.ToUInt16(a, 0)` on a host of the given byte order: the
      low byte of the value is the array's first byte on a little-endian host
      and its last on a big-endian one. */
  function ToUInt16(a: seq<byte>, littleEndian: bool): (v: nat)
    requires |a| == 2
    ensures v < 0x1_0000
    ensures v % 0x100 == (if littleEndian then a[0] else a[1])
    ensures v / 0x100 == (if littleEndian then a[1] else a[0])
  {
    if littleEndian then a[0] + a[1] as int * 0x100
    else a[0] as int * 0x100 + a[1]
  }

  /** Splitting off the low byte of a number written as `lo + 256 * hi`. */
  lemma LowByte(lo: int, hi: int)
    requires 0 <= lo < 0x100 && 0 <= hi
    ensures (lo + 0x100 * hi) % 0x100 == lo && (lo + 0x100 * hi) / 0x100 == hi
  {
  }

  /** `BitConverter.ToUInt32(a, 0)` on a host of the given byte order: byte
      `k` of the value, counted from the least significant, is `a[k]` on a
      little-endian host and `a[3 - k]` on a big-endian one. */
  function ToUInt32(a: seq<byte>, littleEndian: bool): (v: uint32)
    requires |a| == 4
    ensures v % 0x100 == (if littleEndian then a[0] else a[3])
    ensures v / 0x100 % 0x100 == (if littleEndian then a[1] else a[2])
    ensures v / 0x1_0000 % 0x100 == (if littleEndian then a[2] else a[1])
    ensures v / 0x100_0000 == (if littleEndian then a[3] else a[0])
  {
    var b0: int, b1: int, b2: int, b3: int := if littleEndian then a[0] else a[3], if littleEndian then a[1] else a[2],
      if littleEndian then a[2] else a[1], if littleEndian then a[3] else a[0];
    LowByte(b0, b1 + 0x100 * (b2 + 0x100 * b3));
    LowByte(b1, b2 + 0x100 * b3);
    LowByte(b2, b3);
    assert (b1 + 0x100 * (b2 + 0x100 * b3)) / 0x100 == b2 + 0x100 * b3;
    b0 + 0x100 * (b1 + 0x100 * (b2 + 0x100 * b3))
  }

  // ---------------------------------------------------------------------------
  // Binary capture: signature and length

  /** `a & b` on bytes, computed bit by bit from the least significant. */
  function BitAnd(a: byte, b: byte): (r: byte)
    ensures r <= a && r <= b
    decreases a
  {
    if a == 0 || b == 0 then 0
    else 2 * BitAnd(a / 2, b / 2) + (if a % 2 == 1 && b % 2 == 1 then 1 else 0)
  }

  /** `m` is a mask of low bits, 2^k - 1 for some k. */
  predicate LowMask(m: byte)
    decreases m
  {
    m == 0 || (m % 2 == 1 && LowMask(m / 2))
  }

  /** Masking a byte with a low-bit mask at least as large keeps it whole. */
  lemma {:induction false} BitAndWithinMask(x: byte, m: byte)
    requires LowMask(m) && x <= m
    ensures BitAnd(x, m) == x
    decreases x
  {
    if x != 0 {
      BitAndWithinMask(x / 2, m / 2);
    }
  }

  /** `b & 0x03` keeps the two low bits; `b & 0xFC` clears them. */
  lemma MaskLowAndHigh(b: byte)
    ensures BitAnd(b, 0x03) == b % 4
    ensures BitAnd(b, 0xFC) == b - b % 4
  {
    var h, q := b / 2, b / 4;
    assert b == 2 * h + b % 2 && h == 2 * q + h % 2 && b == 4 * q + b % 4;
    assert LowMask(0x3F) by {
      assert LowMask(0x01);
    }
    BitAndWithinMask(q, 0x3F);
    if b != 0 {
      assert BitAnd(b, 0xFC) == 2 * BitAnd(h, 0x7E);
      if h != 0 {
        assert BitAnd(h, 0x7E) == 2 * BitAnd(q, 0x3F);
        assert BitAnd(h, 0x01) == h % 2 by {
          assert BitAnd(h, 0x01) == 2 * BitAnd(q, 0) + h % 2;
        }
      }
      assert BitAnd(b, 0x03) == 2 * BitAnd(h, 0x01) + b % 2;
    }
  }

  /** A 2-byte group opens a payload frame when its first byte is one of
      0xAC..0xAF. */
  predicate IsMagic(b0: byte)
  {
    0xAC <= b0 <= 0xAF
  }

  /** The source's signature test `(b0 & 0xFC) == 0xAC`, which looks at the
      top six bits only, holds exactly for the magic bytes. */
  lemma MagicByMask(b0: byte)
    ensures BitAnd(b0, 0xFC) == 0xAC <==> IsMagic(b0)
  {
    var q, r := b0 / 4, b0 % 4;
    assert b0 == 4 * q + r && 0 <= r < 4;
    assert BitAnd(b0, 0xFC) == 4 * q by {
      MaskLowAndHigh(b0);
    }
    assert IsMagic(b0) <==> q == 43;
  }

  /** `b & 0x03`: the two low bits of a byte. */
  function LowBits(b: byte): (r: byte)
    ensures r == b % 4
  {
    MaskLowAndHigh(b);
    BitAnd(b, 0x03)
  }

  /** The payload length a signature declares: the low two bits of the first
      byte, then all of the second, read big-endian: a 10-bit value. */
  function PayloadLength(b0: byte, b1: byte): (n: nat)
    ensures n < 0x400
  {
    (b0 % 4) * 0x100 + b1
  }

  /** The source's route to the length: the 2-byte array `[b0 & 0x03, b1]`,
      reversed on a little-endian host, read by `BitConverter.ToUInt16`.
      Whatever the host's byte order, it gives `PayloadLength`. */
  lemma LengthByBitConverter(b0: byte, b1: byte, littleEndian: bool)
    ensures ToUInt16(HostOrder([LowBits(b0), b1], littleEndian), littleEndian) == PayloadLength(b0, b1)
  {
  }

  // ---------------------------------------------------------------------------
  // Timestamp

  /** The frame's timestamp: bytes 5, 6 and 7 read big-endian, a 24-bit
      value. */
  function Timestamp(d: seq<byte>): (t: uint32)
    requires |d| >= 8
    ensures t < TimestampLimit
  {
    d[5] as int * 0x1_0000 + d[6] as int * 0x100 + d[7]
  }

  /** The source's route to the timestamp: bytes 5, 6 and 7 copied into
      bytes 1..3 of a zeroed 4-byte array, reversed on a little-endian host,
      read by `BitConverter.ToUInt32`. Whatever the host's byte order, it
      gives `Timestamp`. */
  lemma TimestampByBitConverter(d: seq<byte>, littleEndian: bool)
    requires |d| >= 8
    ensures ToUInt32(HostOrder([0, d[5], d[6], d[7]], littleEndian), littleEndian) == Timestamp(d)
  {
  }

  // ---------------------------------------------------------------------------
  // Text capture: hex pairs

  /** C#'s `char`: one UTF-16 code unit. A character outside the Basic
      Multilingual Plane takes two of them (a surrogate pair). */
  type char16 = x: int | 0 <= x < 0x1_0000

  /** C#'s `string`: its `Length` and `Substring` count code units. */
  type string16 = seq<char16>

  /** '0'..'9', 'a'..'f' or 'A'..'F'. */
  predicate IsHexDigit(c: char16)
  {
    '0' as int <= c <= '9' as int || 'a' as int <= c <= 'f' as int || 'A' as int <= c <= 'F' as int
  }

  function HexDigitValue(c: char16): (v: nat)
    requires IsHexDigit(c)
    ensures v < 16
  {
    if '0' as int <= c <= '9' as int then c - '0' as int
    else if 'a' as int <= c <= 'f' as int then c - 'a' as int + 10
    else c - 'A' as int + 10
  }

  /** `Convert.ToByte(pair, 16)` on a two-character pair: defined exactly when
      both characters are hex digits, of either case. */
  function ParseHexPair(hi: char16, lo: char16): (r: Option<byte>)
    ensures r.Some? <==> IsHexDigit(hi) && IsHexDigit(lo)
  {
    if IsHexDigit(hi) && IsHexDigit(lo) then
      Some((HexDigitValue(hi) * 16 + HexDigitValue(lo)) as byte)
    else
      None
  }

  /** The upper-case hex digit of a value below 16. */
  function HexDigitChar(v: nat): (c: char16)
    requires v < 16
    ensures IsHexDigit(c) && HexDigitValue(c) == v
    ensures c == Upper(c)
  {
    if v < 10 then '0' as int + v else 'A' as int + v - 10
  }

  /** Upper-case normalisation of a character (only 'a'..'f' matter here). */
  function Upper(c: char16): char16
  {
    if 'a' as int <= c <= 'f' as int then c - 'a' as int + 'A' as int else c
  }

  /** The two upper-case hex digits of a byte. */
  function EncodeByte(b: byte): (s: string16)
    ensures |s| == 2
  {
    [HexDigitChar(b / 16), HexDigitChar(b % 16)]
  }

  /** Encoding a byte and parsing the pair back gives the byte. */
  lemma ParseEncodedByte(b: byte)
    ensures ParseHexPair(EncodeByte(b)[0], EncodeByte(b)[1]) == Some(b)
  {
    var s := EncodeByte(b);
    assert HexDigitValue(s[0]) * 16 + HexDigitValue(s[1]) == b;
  }

  /** A pair that parses to a byte is that byte's encoding, up to case. */
  lemma EncodeParsedPair(hi: char16, lo: char16)
    requires ParseHexPair(hi, lo).Some?
    ensures EncodeByte(ParseHexPair(hi, lo).value) == [Upper(hi), Upper(lo)]
  {
    var b := ParseHexPair(hi, lo).value;
    var vh, vl := HexDigitValue(hi), HexDigitValue(lo);
    assert b == vh * 16 + vl;
    assert b / 16 == vh && b % 16 == vl;
  }

  /** The `k`th pair of a line, parsed. */
  function Pair(s: string16, k: nat): Option<byte>
    requires 2 * k + 1 < |s|
  {
    ParseHexPair(s[2 * k], s[2 * k + 1])
  }

  /** Dropping the first pair of a line shifts the pairs down by one. */
  lemma PairsShift(s: string16)
    requires |s| >= 2
    ensures forall k :: 1 <= k && 2 * k + 1 < |s| ==> Pair(s[2..], k - 1) == Pair(s, k)
  {
  }

  /** The hex decoding of an even-length line: the bytes of its pairs, or the
      even character index of its first pair that is not two hex digits
      (`DecodePairsMeaning` states this pair by pair). */
  function DecodePairs(s: string16): (r: Result<seq<byte>, nat>)
    requires |s| % 2 == 0
    ensures r.Ok? ==> |r.value| == |s| / 2
    ensures r.Err? ==> r.error % 2 == 0 && r.error + 1 < |s|
    decreases |s|
  {
    if s == [] then Ok([])
    else
      match Pair(s, 0)
      case None => Err(0)
      case Some(b) =>
        match DecodePairs(s[2..])
        case Ok(bytes) => Ok([b] + bytes)
        case Err(col) => Err(col + 2)
  }

  /** A line decodes to the bytes of its pairs when every pair is two hex
      digits; otherwise decoding reports the column of the first pair that is
      not, every pair before it being good. */
  lemma {:induction false} DecodePairsMeaning(s: string16)
    requires |s| % 2 == 0
    ensures var r := DecodePairs(s);
      && (r.Ok? ==> forall k :: 0 <= k < |s| / 2 ==> Pair(s, k) == Some(r.value[k]))
      && (r.Err? ==> Pair(s, r.error / 2).None? && forall k :: 0 <= k < r.error / 2 ==> Pair(s, k).Some?)
    decreases |s|
  {
    if s != [] && Pair(s, 0).Some? {
      PairsShift(s);
      DecodePairsMeaning(s[2..]);
    }
  }

  /** The upper-case hex text of a byte sequence, two digits per byte. */
  function EncodeHex(bytes: seq<byte>): (s: string16)
    ensures |s| == 2 * |bytes|
  {
    if bytes == [] then [] else EncodeByte(bytes[0]) + EncodeHex(bytes[1..])
  }

  /** Upper-case normalisation of a whole line. */
  function UpperLine(s: string16): (r: string16)
    ensures |r| == |s|
  {
    if s == [] then [] else [Upper(s[0])] + UpperLine(s[1..])
  }

  /** Encoding bytes as hex and decoding the text gives the bytes back. */
  lemma {:induction false} DecodeEncodedHex(bytes: seq<byte>)
    ensures DecodePairs(EncodeHex(bytes)) == Ok(bytes)
  {
    if bytes != [] {
      var s := EncodeHex(bytes);
      ParseEncodedByte(bytes[0]);
      assert s[2..] == EncodeHex(bytes[1..]);
      DecodeEncodedHex(bytes[1..]);
      assert bytes == [bytes[0]] + bytes[1..];
    }
  }

  /** A line that decodes re-encodes to itself, upper-cased. */
  lemma {:induction false} EncodeDecodedHex(s: string16)
    requires |s| % 2 == 0 && DecodePairs(s).Ok?
    ensures EncodeHex(DecodePairs(s).value) == UpperLine(s)
    decreases |s|
  {
    if s != [] {
      var b, tail := DecodeFirstPair(s);
      EncodeDecodedHex(s[2..]);
      EncodeHexCons(b, tail);
      EncodeParsedPair(s[0], s[1]);
      UpperLinePair(s);
    }
  }

  /** A line that decodes starts with a good pair, and the rest decodes too. */
  lemma DecodeFirstPair(s: string16) returns (b: byte, tail: seq<byte>)
    requires |s| % 2 == 0 && s != [] && DecodePairs(s).Ok?
    ensures ParseHexPair(s[0], s[1]) == Some(b) && DecodePairs(s[2..]) == Ok(tail)
    ensures DecodePairs(s).value == [b] + tail
  {
    b, tail := Pair(s, 0).value, DecodePairs(s[2..]).value;
  }

  lemma EncodeHexCons(b: byte, tail: seq<byte>)
    ensures EncodeHex([b] + tail) == EncodeByte(b) + EncodeHex(tail)
  {
    assert ([b] + tail)[1..] == tail;
  }

  lemma UpperLinePair(s: string16)
    requires |s| >= 2
    ensures UpperLine(s) == [Upper(s[0]), Upper(s[1])] + UpperLine(s[2..])
  {
    assert s[1..][1..] == s[2..];
  }
}
