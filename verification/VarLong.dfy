/** Hadoop variable-length longs: the decoder of hfile/block.rs against the encoder that writes them. */
module VarLong {
  const WORD: int := 0x1_0000_0000_0000_0000
  const HALF: int := 0x8000_0000_0000_0000

  type Byte = b: int | 0 <= b < 256
  type Word = w: int | 0 <= w < WORD
  type Long = v: int | -HALF <= v < HALF

  // ---------------------------------------------------------------- the encoder, WritableUtils.writeVLong

  /** How many eight-bit shifts bring `m` to zero. */
  function ByteLen(m: nat): nat {
    if m == 0 then 0 else 1 + ByteLen(m / 256)
  }

  function BigEndian(m: nat, n: nat): (s: seq<Byte>)
    ensures |s| == n
  {
    if n == 0 then [] else BigEndian(m / 256, n - 1) + [m % 256]
  }

  /** One byte for small values; else a marker of sign and length, then the magnitude. */
  function Encode(v: Long): seq<Byte> {
    if -112 <= v <= 127 then [v % 256]
    else
      var m := if v < 0 then -1 - v else v;
      var marker := (if v < 0 then -120 else -112) - ByteLen(m);
      [marker % 256] + BigEndian(m, ByteLen(m))
  }

  // ---------------------------------------------------------------- the decoder

  function Signed(b: Byte): int {
    if b < 128 then b else b - 256
  }

  function SizeOnDiskSingle(b: Byte): (n: nat)
    ensures 1 <= n <= 17
  {
    if Signed(b) >= -112 then 1 else -111 - Signed(b)
  }

  function SizeOnDisk(bytes: seq<Byte>, offset: nat): nat
    requires offset < |bytes|
  {
    SizeOnDiskSingle(bytes[offset])
  }

  function ValueOf(s: seq<Byte>): nat {
    if s == [] then 0 else ValueOf(s[..|s| - 1]) * 256 + s[|s| - 1]
  }

  /** The value and length of the long whose bytes are exactly `s`. */
  function Decode(s: seq<Byte>): (Word, nat)
    requires s != []
  {
    if |s| == 1 then (Signed(s[0]) % WORD, 1)
    else
      var w := ValueOf(s[1..]) % WORD;
      (if Signed(s[0]) < -120 then WORD - 1 - w else w, |s|)
  }

  method ReadVarLong(bytes: seq<Byte>, offset: nat) returns (value: Word, size: nat)
    requires offset < |bytes| && offset + SizeOnDisk(bytes, offset) <= |bytes|
    ensures size == SizeOnDisk(bytes, offset)
    ensures (value, size) == Decode(bytes[offset..offset + size])
  {
    var first := bytes[offset];
    size := SizeOnDiskSingle(first);
    if size == 1 {
      value := Signed(first) % WORD;
      return;
    }
    ghost var data := bytes[offset..offset + size][1..];
    value := 0;
    for i := 0 to size - 1
      invariant value == ValueOf(data[..i]) % WORD
    {
      assert bytes[offset + 1 + i] == data[i];
      assert data[..i + 1][..i] == data[..i];
      ShiftIn(ValueOf(data[..i]), data[i]);
      value := value * 256 % WORD + bytes[offset + 1 + i];
    }
    assert data[..size - 1] == data;
    if Signed(first) < -120 {
      value := WORD - 1 - value;
    }
  }

  lemma WrapsTo(n: int, q: int, r: int)
    requires n == WORD * q + r && 0 <= r < WORD
    ensures n % WORD == r
  {
  }

  /** Shifting a wrapped value left by a byte leaves room for one. */
  lemma ShiftLeavesRoom(r: Word, q: int, r2: Word)
    requires r * 256 == WORD * q + r2
    ensures r2 + 255 < WORD
  {
    assert r2 == 256 * (r - 0x100_0000_0000_0000 * q);
  }

  /** Shifting a wrapped value left by a byte and adding one is the wrapped wider value. */
  lemma ShiftIn(n: nat, b: Byte)
    ensures n % WORD * 256 % WORD + b == (n * 256 + b) % WORD
  {
    var q, r := n / WORD, n % WORD;
    var q2, r2 := r * 256 / WORD, r * 256 % WORD;
    ShiftLeavesRoom(r, q2, r2);
    WrapsTo(n * 256 + b, q * 256 + q2, r2 + b);
  }

  // ---------------------------------------------------------------- round trip

  lemma {:induction false} ValueOfBigEndian(m: nat)
    ensures ValueOf(BigEndian(m, ByteLen(m))) == m
  {
    if m > 0 {
      ValueOfBigEndian(m / 256);
      var s := BigEndian(m, ByteLen(m));
      assert s[..|s| - 1] == BigEndian(m / 256, ByteLen(m) - 1);
    }
  }

  lemma ByteLenOfLong(m: nat)
    requires 0 < m < HALF
    ensures 1 <= ByteLen(m) <= 8
  {
    ByteLenMonotone(m, HALF - 1);
    assert ByteLen(HALF - 1) == 8 by {
      ByteLenOfMax();
    }
  }

  lemma {:induction false} ByteLenMonotone(a: nat, b: nat)
    requires a <= b
    ensures ByteLen(a) <= ByteLen(b)
  {
    if a > 0 {
      ByteLenMonotone(a / 256, b / 256);
    }
  }

  lemma ByteLenOfMax()
    ensures ByteLen(0x7fff_ffff_ffff_ffff) == 8
  {
  }

  /** The length told from the first byte is the encoded length exactly for values of at least -112. */
  lemma SizeAgreesIff(v: Long)
    ensures 1 <= |Encode(v)| <= 9
    ensures SizeOnDiskSingle(Encode(v)[0]) == |Encode(v)| <==> v >= -112
  {
    if !(-112 <= v <= 127) {
      ByteLenOfLong(if v < 0 then -1 - v else v);
    }
  }

  /** What marker and magnitude are decoded to. */
  lemma DecodeMarked(marker: Byte, m: nat)
    requires 0 < m < HALF
    ensures var s := [marker] + BigEndian(m, ByteLen(m));
      Decode(s) == (if Signed(marker) < -120 then WORD - 1 - m else m, |s|)
  {
    var s := [marker] + BigEndian(m, ByteLen(m));
    ByteLenOfLong(m);
    ValueOfBigEndian(m);
    assert s[1..] == BigEndian(m, ByteLen(m)) && s[0] == marker;
    WrapsTo(m, 0, m);
  }

  lemma SignedOf(x: int)
    requires -128 <= x < 128
    ensures Signed(x % 256) == x
  {
  }

  /** Given exactly the bytes of an encoded long, the decoder's arithmetic is right for every value. */
  lemma DecodeEncode(v: Long)
    ensures Decode(Encode(v)) == (v % WORD, |Encode(v)|)
  {
    if -112 <= v <= 127 {
      SignedOf(v);
    } else {
      var m := if v < 0 then -1 - v else v;
      ByteLenOfLong(m);
      var marker := (if v < 0 then -120 else -112) - ByteLen(m);
      SignedOf(marker);
      DecodeMarked(marker % 256, m);
      WrapsTo(v, if v < 0 then -1 else 0, if v < 0 then WORD + v else v);
    }
  }

  lemma Distribute(x: nat, p: nat, y: nat)
    ensures (x * p + y) * 256 == x * (p * 256) + y * 256
  {
  }

  lemma {:induction false} LowBytes(a: seq<Byte>, b: seq<Byte>, unit: nat)
    requires unit == Power(|b|)
    ensures ValueOf(a + b) == ValueOf(a) * unit + ValueOf(b)
    ensures ValueOf(b) < unit
    decreases |b|
  {
    if b == [] {
      assert a + b == a;
    } else {
      var front := b[..|b| - 1];
      assert (a + b)[..|a + b| - 1] == a + front;
      LowBytes(a, front, Power(|front|));
      Distribute(ValueOf(a), Power(|front|), ValueOf(front));
    }
  }

  function Power(n: nat): nat {
    if n == 0 then 1 else Power(n - 1) * 256
  }

  lemma EightBytesAreAWord()
    ensures Power(8) == WORD
  {
    assert Power(4) == 0x1_0000_0000;
  }

  lemma LastEightOf(a: seq<Byte>, b: seq<Byte>)
    requires |b| == 8
    ensures ValueOf(b) < WORD && ValueOf(a + b) % WORD == ValueOf(b)
  {
    EightBytesAreAWord();
    LowBytes(a, b, WORD);
    WrapsTo(ValueOf(a + b), ValueOf(a), ValueOf(b));
  }

  /** Where too many bytes are taken the last eight decide, complemented after a negative marker. */
  lemma LastEightDecide(marker: Byte, a: seq<Byte>, b: seq<Byte>)
    requires |b| == 8
    ensures Decode([marker] + (a + b)).0 == if Signed(marker) < -120 then WORD - 1 - ValueOf(b) else ValueOf(b)
  {
    var s := [marker] + (a + b);
    assert s[1..] == a + b && s[0] == marker && |s| > 1;
    LastEightOf(a, b);
  }

  /** A longer negative number is read as the complement of the eight bytes that follow it, whatever it was. */
  lemma NegativeIsLost(v: Long, after: seq<Byte>)
    requires v < -112 && |after| == 8
    ensures 0 < |Encode(v)|
    ensures Decode(Encode(v) + after).0 == WORD - 1 - ValueOf(after)
  {
    var m := -1 - v;
    ByteLenOfLong(m);
    var marker := -120 - ByteLen(m);
    SignedOf(marker);
    var body := BigEndian(m, ByteLen(m));
    assert Encode(v) + after == [marker % 256] + (body + after);
    LastEightDecide(marker % 256, body, after);
  }

  /**
   * At any offset in any bytes, an encoded long is read back, with its length, if and only if it is
   * at least -112: the decoder takes every longer negative to be eight bytes longer than it is, and gives
   * the complement of the eight bytes that follow.
   */
  lemma RoundTripIff(before: seq<Byte>, v: Long, after: seq<Byte>)
    ensures var bytes, at, n := before + Encode(v) + after, |before|, |Encode(v)|;
      && 0 < n
      && (v >= -112 ==> SizeOnDisk(bytes, at) == n && Decode(bytes[at..at + n]) == (v % WORD, n))
      && (v < -112 ==> SizeOnDisk(bytes, at) == n + 8)
      && (v < -112 && |after| >= 8 ==> Decode(bytes[at..at + n + 8]).0 == WORD - 1 - ValueOf(after[..8]))
  {
    var bytes, at, n := before + Encode(v) + after, |before|, |Encode(v)|;
    SizeAgreesIff(v);
    assert bytes[at] == Encode(v)[0];
    assert bytes[at..at + n] == Encode(v);
    if v >= -112 {
      DecodeEncode(v);
    } else {
      ByteLenOfLong(-1 - v);
      if |after| >= 8 {
        assert bytes[at..at + n + 8] == Encode(v) + after[..8];
        NegativeIsLost(v, after[..8]);
      }
    }
  }
}
