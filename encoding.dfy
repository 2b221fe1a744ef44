/** Byte-level text encodings used by the offline unlock path
    (nodemcu/poot_lock/local_unlock.cpp): lower-case hex (`toHex`), the decimal form
    `String(uint32_t)` that is signed, and the constant-time comparison of two strings.
    Arduino `String`s are byte strings, so text here is `seq<byte>`. */
module Encoding {

  type byte = bv8

  // ---------------------------------------------------------------- hex

  predicate IsLowerHexDigit(c: byte) {
    (0x30 <= c <= 0x39) || (0x61 <= c <= 0x66)
  }

  predicate IsLowerHex(s: seq<byte>) {
    forall i :: 0 <= i < |s| ==> IsLowerHexDigit(s[i])
  }

  /** Entry `n` of the table "0123456789abcdef". */
  function HexDigit(n: byte): (c: byte)
    requires n < 16
    ensures IsLowerHexDigit(c)
  {
    if n < 10 then 0x30 + n else 0x57 + n
  }

  /** The nibble a lower-case hex digit stands for; the inverse of HexDigit. */
  function DigitValue(c: byte): (n: byte)
    requires IsLowerHexDigit(c)
    ensures n < 16 && HexDigit(n) == c
  {
    if c <= 0x39 then c - 0x30 else c - 0x57
  }

  /** The two characters `toHex` emits for one byte: high nibble first. */
  function HexPair(b: byte): seq<byte> {
    [HexDigit((b >> 4) & 0x0F), HexDigit(b & 0x0F)]
  }

  /** The lower-case hex encoding of `bytes`; exactly two digits per byte. */
  function Hex(bytes: seq<byte>): (s: seq<byte>)
    ensures |s| == 2 * |bytes|
    ensures IsLowerHex(s)
  {
    if bytes == [] then [] else Hex(bytes[..|bytes| - 1]) + HexPair(bytes[|bytes| - 1])
  }

  /** Decoding of an even-length lower-case hex string. */
  function Unhex(s: seq<byte>): (bytes: seq<byte>)
    requires |s| % 2 == 0 && IsLowerHex(s)
    ensures |bytes| == |s| / 2
  {
    if s == [] then []
    else
      var n := |s|;
      Unhex(s[..n - 2]) + [(DigitValue(s[n - 2]) << 4) | DigitValue(s[n - 1])]
  }

  lemma NibblesJoin(b: byte)
    ensures ((((b >> 4) & 0x0F) << 4) | (b & 0x0F)) == b
  {
  }

  lemma NibblesSplit(h: byte, l: byte)
    requires h < 16 && l < 16
    ensures (((h << 4) | l) >> 4) & 0x0F == h && ((h << 4) | l) & 0x0F == l
  {
  }

  /** Decoding undoes `toHex`. */
  lemma {:induction false} HexRoundTrip(bytes: seq<byte>)
    ensures Unhex(Hex(bytes)) == bytes
  {
    if bytes != [] {
      var n := |bytes|;
      var front, last := bytes[..n - 1], bytes[n - 1];
      var s := Hex(bytes);
      assert s == Hex(front) + HexPair(last);
      assert s[..|s| - 2] == Hex(front);
      HexRoundTrip(front);
      NibblesJoin(last);
      assert bytes == front + [last];
    }
  }

  /** Every even-length lower-case hex string is the `toHex` encoding of its decoding, so
      the encoding is a bijection onto such strings. */
  lemma {:induction false} UnhexRoundTrip(s: seq<byte>)
    requires |s| % 2 == 0 && IsLowerHex(s)
    ensures Hex(Unhex(s)) == s
  {
    if s != [] {
      var n := |s|;
      var front := s[..n - 2];
      UnhexRoundTrip(front);
      UnhexLast(s);
      assert s == front + [s[n - 2], s[n - 1]];
    }
  }

  lemma UnhexLast(s: seq<byte>)
    requires |s| % 2 == 0 && IsLowerHex(s) && s != []
    ensures Hex(Unhex(s)) == Hex(Unhex(s[..|s| - 2])) + [s[|s| - 2], s[|s| - 1]]
  {
    var n := |s|;
    var b := (DigitValue(s[n - 2]) << 4) | DigitValue(s[n - 1]);
    PairOfDigits(s[n - 2], s[n - 1]);
    HexSnoc(Unhex(s[..n - 2]), b);
  }

  lemma PairOfDigits(c: byte, d: byte)
    requires IsLowerHexDigit(c) && IsLowerHexDigit(d)
    ensures HexPair((DigitValue(c) << 4) | DigitValue(d)) == [c, d]
  {
    NibblesSplit(DigitValue(c), DigitValue(d));
  }

  lemma HexSnoc(front: seq<byte>, b: byte)
    ensures Hex(front + [b]) == Hex(front) + HexPair(b)
  {
    assert (front + [b])[..|front|] == front;
  }

  lemma HexStep(bytes: seq<byte>, i: nat)
    requires i < |bytes|
    ensures Hex(bytes[..i + 1]) == Hex(bytes[..i]) + HexPair(bytes[i])
  {
    assert bytes[..i + 1][..i] == bytes[..i];
  }

  /** `toHex`: the loop that appends two table digits per byte. */
  method ToHex(bytes: seq<byte>) returns (out: seq<byte>)
    ensures out == Hex(bytes)
  {
    out := [];
    var i := 0;
    while i < |bytes|
      invariant 0 <= i <= |bytes|
      invariant out == Hex(bytes[..i])
    {
      HexStep(bytes, i);
      var high := HexDigit((bytes[i] >> 4) & 0x0F);
      var low := HexDigit(bytes[i] & 0x0F);
      out := out + [high];
      out := out + [low];
      i := i + 1;
    }
    assert bytes[..i] == bytes;
  }

  // ---------------------------------------------------------------- constant-time comparison

  /** `constantTimeEquals`: unequal lengths are unequal; otherwise the XOR of every pair of
      bytes is OR-ed into one accumulator, which is zero exactly when the strings agree. */
  method ConstantTimeEquals(a: seq<byte>, b: seq<byte>) returns (equal: bool)
    ensures equal <==> a == b
  {
    if |a| != |b| {
      return false;
    }
    var diff: byte := 0;
    var i := 0;
    while i < |a|
      invariant 0 <= i <= |a|
      invariant diff == 0 <==> a[..i] == b[..i]
    {
      assert a[..i + 1] == a[..i] + [a[i]] && b[..i + 1] == b[..i] + [b[i]];
      diff := diff | (a[i] ^ b[i]);
      i := i + 1;
    }
    assert a[..i] == a && b[..i] == b;
    equal := diff == 0;
  }

  // ---------------------------------------------------------------- decimal

  predicate IsDecimalDigit(c: byte) {
    0x30 <= c <= 0x39
  }

  /** The ASCII digit for 0 <= d < 10. */
  function DecimalDigit(d: nat): (c: byte)
    requires d < 10
    ensures IsDecimalDigit(c) && (c - 0x30) as int == d
  {
    [0x30, 0x31, 0x32, 0x33, 0x34, 0x35, 0x36, 0x37, 0x38, 0x39][d]
  }

  /** `String(n)` for an unsigned integer: its decimal digits, most significant first,
      without leading zeros. */
  function Decimal(n: nat): (s: seq<byte>)
    ensures 1 <= |s|
    ensures forall i :: 0 <= i < |s| ==> IsDecimalDigit(s[i])
    ensures s[0] == 0x30 ==> n == 0
  {
    if n < 10 then [DecimalDigit(n)] else Decimal(n / 10) + [DecimalDigit(n % 10)]
  }

  /** The value of a string of decimal digits. */
  function DecimalValue(s: seq<byte>): nat
    requires forall i :: 0 <= i < |s| ==> IsDecimalDigit(s[i])
  {
    if s == [] then 0 else DecimalValue(s[..|s| - 1]) * 10 + (s[|s| - 1] - 0x30) as int
  }

  /** Reading back the decimal form gives the number: distinct timestamps are signed as
      distinct messages. */
  lemma {:induction false} DecimalRoundTrip(n: nat)
    ensures DecimalValue(Decimal(n)) == n
  {
    if n >= 10 {
      var s := Decimal(n);
      DecimalRoundTrip(n / 10);
      assert s[..|s| - 1] == Decimal(n / 10);
    }
  }

  lemma DecimalInjective(m: nat, n: nat)
    requires Decimal(m) == Decimal(n)
    ensures m == n
  {
    DecimalRoundTrip(m);
    DecimalRoundTrip(n);
  }
}
