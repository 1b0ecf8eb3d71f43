/** DER coding of integrity labels: SEQUENCE { level INTEGER, categories BIT STRING },
    after sections 8.3, 8.6 and 8.9 of X.690. */
module Label {
  import opened Wrappers

  type Level = x: int | -128 <= x < 128
  type Mask = x: nat | x < 0x1_0000_0000_0000_0000

  datatype IntegrityLabel = IntegrityLabel(level: Level, categories: Mask)

  datatype LabelError = LevelOutOfRange | Malformed(reason: string)

  // ---------------------------------------------------------------- the code

  function CastUnsigned(x: Level): Byte {
    if x >= 0 then x else x + 256
  }

  function CastSigned(b: Byte): Level {
    if b < 128 then b else b - 256
  }

  /** The `k` low bytes of `n`, most significant first. */
  function BigEndian(n: nat, k: nat): (r: Bytes)
    ensures |r| == k
    decreases k
  {
    if k == 0 then [] else BigEndian(n / 256, k - 1) + [n % 256]
  }

  function FromBigEndian(bytes: Bytes): nat {
    if bytes == [] then 0 else FromBigEndian(bytes[..|bytes| - 1]) * 256 + bytes[|bytes| - 1]
  }

  function StripZeros(bytes: Bytes): Bytes {
    if bytes != [] && bytes[0] == 0 then StripZeros(bytes[1..]) else bytes
  }

  function BitString(categories: Mask): Result<Bytes, LabelError> {
    if categories == 0 then Ok([0x03, 0x01, 0x00])
    else
      var payload := StripZeros(BigEndian(categories, 8));
      if |payload| + 1 > 255 then Err(Malformed("len"))
      else Ok([0x03, |payload| + 1, 0x00] + payload)
  }

  function ToDer(l: IntegrityLabel): Result<Bytes, LabelError> {
    var bits := BitString(l.categories);
    if bits.Err? then bits
    else
      var inner := [0x02, 0x01, CastUnsigned(l.level)] + bits.value;
      if |inner| > 255 then Err(Malformed("seq len")) else Ok([0x30, |inner|] + inner)
  }

  /** The optional BIT STRING after the INTEGER. */
  function CategoriesFrom(bs: Bytes): Result<Mask, LabelError> {
    if |bs| < 2 || bs[0] != 0x03 then Err(Malformed("missing BIT STRING tag"))
    else if bs[1] == 0 || 2 + bs[1] as int > |bs| then Err(Malformed("bad BIT STRING length"))
    else if 2 + bs[1] as int != |bs| then Err(Malformed("trailing bytes after BIT STRING"))
    else if bs[2] > 7 then Err(Malformed("BIT STRING unused-bits > 7"))
    else if |bs[3..]| > 8 then Err(Malformed("categories > 64 bits"))
    else
      FromBigEndianBound(bs[3..]);
      Ok(FromBigEndian(bs[3..]))
  }

  function FromDer(der: Bytes): Result<IntegrityLabel, LabelError> {
    if |der| < 2 || der[0] != 0x30 then Err(Malformed("not a SEQUENCE"))
    else if 2 + der[1] as int > |der| || der[1] >= 0x80 then Err(Malformed("bad seq length"))
    else if 2 + der[1] as int != |der| then Err(Malformed("trailing bytes after SEQUENCE"))
    else
      var body := der[2..];
      if |body| < 3 || body[0] != 0x02 then Err(Malformed("missing INTEGER tag"))
      else if body[1] == 0 || 2 + body[1] as int > |body| then Err(Malformed("bad INTEGER length"))
      else if body[1] != 1 then Err(LevelOutOfRange)
      else if |body| == 3 then Ok(IntegrityLabel(CastSigned(body[2]), 0))
      else
        var categories := CategoriesFrom(body[3..]);
        if categories.Err? then Err(categories.error)
        else Ok(IntegrityLabel(CastSigned(body[2]), categories.value))
  }

  // -------------------------------------------------------------- big endian

  function Power256(k: nat): nat {
    if k == 0 then 1 else Power256(k - 1) * 256
  }

  lemma Power256Of8()
    ensures Power256(8) == 0x1_0000_0000_0000_0000
  {
    assert Power256(4) == 0x1_0000_0000 by { assert Power256(2) == 0x1_0000; }
    assert Power256(6) == 0x1_0000_0000_0000;
  }

  lemma {:induction false} FromBigEndianSmall(bytes: Bytes)
    ensures FromBigEndian(bytes) < Power256(|bytes|)
  {
    if bytes != [] {
      FromBigEndianSmall(bytes[..|bytes| - 1]);
    }
  }

  lemma FromBigEndianBound(bytes: Bytes)
    requires |bytes| <= 8
    ensures FromBigEndian(bytes) < 0x1_0000_0000_0000_0000
  {
    FromBigEndianSmall(bytes);
    Power256Grows(|bytes|, 8);
    Power256Of8();
  }

  lemma {:induction false} Power256Grows(j: nat, k: nat)
    requires j <= k
    ensures 1 <= Power256(j) <= Power256(k)
    decreases k
  {
    if j < k {
      Power256Grows(j, k - 1);
    } else if k > 0 {
      Power256Grows(k - 1, k - 1);
    }
  }

  lemma {:induction false} BigEndianInverts(n: nat, k: nat)
    requires n < Power256(k)
    ensures FromBigEndian(BigEndian(n, k)) == n
    decreases k
  {
    if k > 0 {
      BigEndianInverts(n / 256, k - 1);
      var r := BigEndian(n, k);
      assert r[..|r| - 1] == BigEndian(n / 256, k - 1);
    }
  }

  lemma {:induction false} LeadingZero(bytes: Bytes)
    requires bytes != [] && bytes[0] == 0
    ensures FromBigEndian(bytes) == FromBigEndian(bytes[1..])
  {
    if |bytes| > 1 {
      var init := bytes[..|bytes| - 1];
      LeadingZero(init);
      assert init[1..] == bytes[1..][..|bytes| - 2];
    }
  }

  lemma {:induction false} StripZerosValue(bytes: Bytes)
    ensures var s := StripZeros(bytes);
            FromBigEndian(s) == FromBigEndian(bytes) && |s| <= |bytes| && (s != [] ==> s[0] != 0)
  {
    if bytes != [] && bytes[0] == 0 {
      LeadingZero(bytes);
      StripZerosValue(bytes[1..]);
    }
  }

  lemma {:induction false} LeadingDigit(bytes: Bytes)
    requires bytes != [] && bytes[0] != 0
    ensures FromBigEndian(bytes) >= Power256(|bytes| - 1)
  {
    if |bytes| > 1 {
      LeadingDigit(bytes[..|bytes| - 1]);
    } else {
      assert bytes[..0] == [];
    }
  }

  lemma {:induction false} SameLengthSameValue(a: Bytes, b: Bytes)
    requires |a| == |b| && FromBigEndian(a) == FromBigEndian(b)
    ensures a == b
  {
    if a != [] {
      var n := |a| - 1;
      assert a[n] == b[n] && FromBigEndian(a[..n]) == FromBigEndian(b[..n]);
      SameLengthSameValue(a[..n], b[..n]);
      assert a == a[..n] + [a[n]] && b == b[..n] + [b[n]];
    }
  }

  /** The minimal-length spelling of a mask. */
  lemma Payload(c: Mask)
    requires c != 0
    ensures var p := StripZeros(BigEndian(c, 8));
            1 <= |p| <= 8 && p[0] != 0 && FromBigEndian(p) == c
  {
    Power256Of8();
    BigEndianInverts(c, 8);
    StripZerosValue(BigEndian(c, 8));
  }

  /** No spelling of the same value is shorter. */
  lemma ShortestSpelling(p: Bytes, other: Bytes)
    requires p != [] && p[0] != 0 && FromBigEndian(other) == FromBigEndian(p)
    ensures |p| <= |other|
  {
    LeadingDigit(p);
    FromBigEndianSmall(other);
    if |other| < |p| {
      Power256Grows(|other|, |p| - 1);
    }
  }

  // ------------------------------------------------------------ the theorems

  /** The byte is the two's complement of the level. */
  predicate TwosComplement(b: Byte, level: Level) {
    (b - level) % 256 == 0
  }

  /** `der` leaves the BIT STRING out. */
  predicate Omits(der: Bytes, l: IntegrityLabel) {
    |der| == 5 && der[..4] == [0x30, 3, 0x02, 1] && TwosComplement(der[4], l.level) && l.categories == 0
  }

  /** `der` spells out the BIT STRING, with any number of unused bits up to 7 and any
      number of leading zero bytes that keeps it within 64 bits. */
  predicate Spells(der: Bytes, l: IntegrityLabel) {
    && 8 <= |der| <= 16
    && der[..4] == [0x30, |der| - 2, 0x02, 1] && TwosComplement(der[4], l.level)
    && der[5] == 0x03 && der[6] == |der| - 7 && der[7] <= 7
    && FromBigEndian(der[8..]) == l.categories
  }

  /** The casts between bytes and levels are the two's complement, and nothing else is. */
  lemma CastsAreTwosComplement(b: Byte, level: Level)
    ensures TwosComplement(b, level) <==> b == CastUnsigned(level)
    ensures TwosComplement(b, level) <==> level == CastSigned(b)
  {
  }

  lemma HeaderBytes(der: Bytes, a: Byte)
    requires |der| >= 4
    ensures der[..4] == [0x30, a, 0x02, 1] <==> der[0] == 0x30 && der[1] == a && der[2] == 0x02 && der[3] == 1
  {
    assert forall i :: 0 <= i < 4 ==> der[i] == der[..4][i];
  }

  /** The decoder is total, and accepts exactly these byte strings, with exactly this meaning. */
  lemma AcceptsExactly(der: Bytes, l: IntegrityLabel)
    ensures FromDer(der) == Ok(l) <==> Omits(der, l) || Spells(der, l)
  {
    if |der| >= 5 {
      HeaderBytes(der, 3);
      CastsAreTwosComplement(der[4], l.level);
      if |der| <= 16 {
        HeaderBytes(der, |der| - 2);
      }
      assert der[2..][3..] == der[5..];
      if |der| >= 8 {
        assert der[5..][3..] == der[8..];
      }
    }
  }

  /** It calls the level out of range exactly when a well-framed SEQUENCE starts with an INTEGER of
      more than one byte; every other refusal is for its form. */
  lemma OutOfRangeExactly(der: Bytes)
    ensures FromDer(der) == Err(LevelOutOfRange) <==>
            && 6 <= |der| < 130 && der[0] == 0x30 && der[1] == |der| - 2
            && der[2] == 0x02 && 2 <= der[3] && 4 + der[3] as int <= |der|
  {
  }

  /** Byte `k` of a number, from the least significant. */
  function ByteAt(n: nat, k: nat): nat
    decreases k
  {
    if k == 0 then n % 256 else ByteAt(n / 256, k - 1)
  }

  /** The categories are the payload bytes, most significant first. */
  lemma {:induction false} PayloadBytes(bytes: Bytes, k: nat)
    ensures ByteAt(FromBigEndian(bytes), k) == if k < |bytes| then bytes[|bytes| - 1 - k] else 0
    decreases k
  {
    if bytes != [] {
      var init := bytes[..|bytes| - 1];
      assert FromBigEndian(bytes) / 256 == FromBigEndian(init) && FromBigEndian(bytes) % 256 == bytes[|bytes| - 1];
      if k > 0 {
        PayloadBytes(init, k - 1);
      }
    } else if k > 0 {
      PayloadBytes(bytes, k - 1);
    }
  }

  /** Every accepted byte string says its level and categories byte for byte. */
  lemma DecodedBytes(der: Bytes, l: IntegrityLabel, k: nat)
    requires FromDer(der) == Ok(l)
    ensures |der| >= 5 && (der[4] - l.level) % 256 == 0
    ensures ByteAt(l.categories, k) == if 8 + k < |der| then der[|der| - 1 - k] as int else 0
  {
    AcceptsExactly(der, l);
    if Spells(der, l) {
      PayloadBytes(der[8..], k);
    } else {
      PayloadBytes([], k);
    }
  }

  lemma EncoderNeverFails(l: IntegrityLabel)
    ensures ToDer(l).Ok?
  {
    if l.categories != 0 {
      Payload(l.categories);
    }
  }

  function Encoded(l: IntegrityLabel): (der: Bytes)
    ensures ToDer(l) == Ok(der)
  {
    EncoderNeverFails(l);
    ToDer(l).value
  }

  /** The payload after the unused-bits byte. */
  lemma EncodedShape(l: IntegrityLabel)
    ensures var payload := if l.categories == 0 then [] else StripZeros(BigEndian(l.categories, 8));
            && |payload| <= 8
            && Encoded(l) == [0x30, |payload| + 6, 0x02, 1, CastUnsigned(l.level), 0x03, |payload| + 1, 0] + payload
  {
    if l.categories == 0 {
      assert Encoded(l) == [0x30, 6] + ([0x02, 0x01, CastUnsigned(l.level)] + [0x03, 0x01, 0x00]);
    } else {
      Payload(l.categories);
    }
  }

  /** The encoder's result, in the terms of the grammar. */
  lemma EncodesAs(l: IntegrityLabel)
    ensures var der := Encoded(l);
            && Spells(der, l) && der[7] == 0
            && (l.categories == 0 ==> |der| == 8)
            && (l.categories != 0 ==> |der| > 8 && der[8] != 0)
  {
    EncodedShape(l);
    var der := Encoded(l);
    HeaderBytes(der, |der| - 2);
    CastsAreTwosComplement(der[4], l.level);
    if l.categories == 0 {
      assert der[8..] == [];
    } else {
      Payload(l.categories);
      assert der[8..] == StripZeros(BigEndian(l.categories, 8));
    }
  }

  /** Every label survives encoding and decoding. */
  lemma DecodeInvertsEncode(l: IntegrityLabel)
    ensures FromDer(Encoded(l)) == Ok(l)
  {
    EncodesAs(l);
    AcceptsExactly(Encoded(l), l);
  }

  /** Every accepted byte string re-encodes to one that decodes to the same label. Among the
      accepted encodings that spell out the BIT STRING, the encoder's is the shortest, and the
      only one of its length that declares no unused bits. */
  lemma EncodingIsCanonical(l: IntegrityLabel, der: Bytes)
    requires FromDer(der) == Ok(l)
    ensures FromDer(Encoded(l)) == FromDer(der)
    ensures |der| != 5 ==> |Encoded(l)| <= |der|
    ensures |Encoded(l)| == |der| && der[7] == 0 ==> Encoded(l) == der
  {
    DecodeInvertsEncode(l);
    AcceptsExactly(der, l);
    if Spells(der, l) {
      SpellingIsShortest(l, der);
    } else {
      EncodesAs(l);
    }
  }

  lemma SpellingIsShortest(l: IntegrityLabel, der: Bytes)
    requires Spells(der, l)
    ensures |Encoded(l)| <= |der|
    ensures |Encoded(l)| == |der| && der[7] == 0 ==> Encoded(l) == der
  {
    EncodesAs(l);
    var mine := Encoded(l);
    if l.categories != 0 {
      ShortestSpelling(mine[8..], der[8..]);
    }
    if |mine| == |der| && der[7] == 0 {
      SameSpelling(mine, der, l);
    }
  }

  lemma SameSpelling(a: Bytes, b: Bytes, l: IntegrityLabel)
    requires Spells(a, l) && Spells(b, l) && |a| == |b| && a[7] == b[7]
    ensures a == b
  {
    SameLengthSameValue(a[8..], b[8..]);
    CastsAreTwosComplement(a[4], l.level);
    CastsAreTwosComplement(b[4], l.level);
    assert a[..8] == a[..4] + [a[4], a[5], a[6], a[7]] && b[..8] == b[..4] + [b[4], b[5], b[6], b[7]];
    assert a == a[..8] + a[8..] && b == b[..8] + b[8..];
  }

  /** The declared number of unused bits never changes the result, so the accepted
      encodings are not unique even at the shortest length. */
  lemma UnusedBitsAreIgnored(l: IntegrityLabel, der: Bytes, unused: Byte)
    requires FromDer(der) == Ok(l) && |der| > 5 && unused <= 7
    ensures FromDer(der[7 := unused]) == Ok(l)
  {
    AcceptsExactly(der, l);
    var other := der[7 := unused];
    assert other[..7] == der[..7] && other[8..] == der[8..];
    AcceptsExactly(other, l);
  }
}
