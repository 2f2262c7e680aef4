/** What the Internet checksum is for: laws relating checksums of related buffers. */
module ChecksumLaws {
  import opened Bytes
  import opened Checksum

  // ----- the two implementations agree

  /** Two values in 1..65535 are equal when they are congruent. */
  lemma EqualIfCongruent(x: int, y: int)
    requires 1 <= x <= 0xffff && 1 <= y <= 0xffff && (x - y) % 0xffff == 0
    ensures x == y
  {
  }

  lemma LostCarryBound(v: nat)
    requires v < 0x4000_0000_0000
    ensures LostCarry(v) <= 1
    ensures v < 0x1_0000_0000 ==> LostCarry(v) == 0
  {
  }

  /** 256 is its own inverse modulo 65535. */
  lemma CarriesMatch(q: nat, c: nat)
    requires q <= 0x4000 && c <= 1
    ensures (0x100 * q - c) % 0xffff == 0 <==> q == 0x100 * c
  {
    if (0x100 * q - c) % 0xffff == 0 {
      var m := (0x100 * q - c) / 0xffff;
      assert q - 0x100 * c == 0xffff * (0x100 * m - q);
    }
  }

  lemma DifferenceResidue(w: int, wrapped: int, native: int, x: int, y: int, q: int, c: int)
    requires w == 0x1_0000_0000 * q + wrapped
    requires (x + 0x100 * wrapped) % 0xffff == 0
    requires (0xffff - y - (native - c)) % 0xffff == 0
    requires native % 0xffff == 0x100 * w % 0xffff
    ensures (x - y) % 0xffff == (0x100 * q - c) % 0xffff
  {
    ResidueDifference(native, 0x100 * w);
    var k1 := (x + 0x100 * wrapped) / 0xffff;
    var k2 := (0xffff - y - (native - c)) / 0xffff;
    var k3 := (native - 0x100 * w) / 0xffff;
    SameResidue(x - y, 0x100 * q - c, k1 + k2 + k3 - 1 + 0x100 * 0x1_0001 * q);
  }

  lemma WrapQuotient(w: int)
    ensures w == 0x1_0000_0000 * (w / 0x1_0000_0000) + Wrap32(w)
  {
  }

  lemma CalculateResidue(b: seq<byte>)
    ensures (0xffff - CalculateOf(b) - (NativeSum(b) - LostCarry(NativeSum(b)))) % 0xffff == 0
  {
    hide TwoFolds, LostCarry, NativeSum;
    TwoFoldsResidue(NativeSum(b));
  }

  /** `cksum` and `calculate_checksum` on any buffer an `int` length can describe: they agree, up to
      0xffff for 0, exactly when the carries the one drops by wrapping match the carry the other
      drops by folding twice. */
  lemma AgreementExactly(b: seq<byte>)
    requires |b| < 0x8000_0000
    ensures CksumOf(b) == (if CalculateOf(b) == 0 then 0xffff else CalculateOf(b))
            <==> WordSum(b) / 0x1_0000_0000 == 0x100 * LostCarry(NativeSum(b))
  {
    hide CksumOf, CalculateOf, Wrap32, LostCarry, TwoFolds;
    var x, y := CksumOf(b), if CalculateOf(b) == 0 then 0xffff else CalculateOf(b);
    var q, c := WordSum(b) / 0x1_0000_0000, LostCarry(NativeSum(b));
    WordSumBound(b);
    NativeSumBound(b);
    LostCarryBound(NativeSum(b));
    CksumResidue(b);
    CalculateResidue(b);
    NativeSumIsTimes256(b);
    WrapQuotient(WordSum(b));
    DifferenceResidue(WordSum(b), Wrap32(WordSum(b)), NativeSum(b), x, CalculateOf(b), q, c);
    CarriesMatch(q, c);
    SameResidue(x - y, x - CalculateOf(b), if CalculateOf(b) == 0 then -1 else 0);
    if (x - y) % 0xffff == 0 {
      EqualIfCongruent(x, y);
    }
  }

  /** Section 2(B) of RFC 1071 at work: within the bound the two always agree. */
  lemma AgreementWithinBound(b: seq<byte>)
    requires |b| <= MAX_EXACT
    ensures CksumOf(b) == if CalculateOf(b) == 0 then 0xffff else CalculateOf(b)
  {
    hide CksumOf, CalculateOf, LostCarry;
    WordSumBound(b);
    NativeSumBound(b);
    LostCarryBound(NativeSum(b));
    AgreementExactly(b);
  }

  /** One byte past the bound they can differ. */
  lemma AgreementFailsBeyond()
    ensures var b: seq<byte> := seq(MAX_EXACT + 1, _ => 0xff);
            CksumOf(b) != if CalculateOf(b) == 0 then 0xffff else CalculateOf(b)
  {
    hide CksumOf, CalculateOf, WordSum, NativeSum, LostCarry;
    var b: seq<byte> := seq(MAX_EXACT + 1, _ => 0xff);
    WordSumOfOnes(MAX_EXACT + 1);
    assert WordSum(b) == 0x1_0000_feff;
    AgreementExactly(b);
  }

  /** `calculate_checksum` keeps the two representations of zero apart: for every buffer an `int`
      length can describe it is 0 exactly for a non-zero sum that is a multiple of 65535 and loses no
      carry; up to 131074 bytes none is lost. */
  lemma CalculateIsZeroIff(b: seq<byte>)
    requires |b| < 0x8000_0000
    ensures CalculateOf(b) == 0
            <==> WordSum(b) > 0 && WordSum(b) % 0xffff == 0 && LostCarry(NativeSum(b)) == 0
    ensures |b| <= MAX_EXACT ==> LostCarry(NativeSum(b)) == 0
  {
    hide TwoFolds, LostCarry;
    var v := NativeSum(b);
    NativeSumBound(b);
    LostCarryBound(v);
    SumsVanishTogether(b);
    NativeSumIsTimes256(b);
    ZeroTimes256(WordSum(b));
    TwoFoldsResidue(v);
    TwoFoldsExtremes(v);
    var r := TwoFolds(v) % 0x1_0000;
    if LostCarry(v) == 0 {
      ResidueDifference(r, v);
      AllOnesIff(r);
    }
  }

  lemma AllOnesIff(r: nat)
    requires r <= 0xffff
    ensures r == 0xffff <==> r % 0xffff == 0 && r != 0
  {
  }

  /** When two folds give all ones, or nothing. */
  lemma TwoFoldsExtremes(v: nat)
    requires v < 0x4000_0000_0000
    ensures LostCarry(v) != 0 ==> TwoFolds(v) % 0x1_0000 != 0xffff
    ensures LostCarry(v) == 0 ==> (TwoFolds(v) % 0x1_0000 == 0 <==> v == 0)
  {
    var s := v / 0x1_0000 + v % 0x1_0000;
    var h, l := s / 0x1_0000, s % 0x1_0000;
    assert TwoFolds(v) == 0x1_0000 * h + (h + l);
    assert TwoFolds(v) % 0x1_0000 == h + l - 0x1_0000 * LostCarry(v);
  }

  lemma ZeroTimes256(w: nat)
    ensures 0x100 * w % 0xffff == 0 <==> w % 0xffff == 0
  {
    if 0x100 * w % 0xffff == 0 {
      var k := 0x100 * w / 0xffff;
      assert 0x100 * w == 0xffff * k;
      SameResidue(w, 0, 0x100 * k - w);
    }
    if w % 0xffff == 0 {
      SameResidue(0x100 * w, 0, 0x100 * (w / 0xffff));
    }
  }

  /** An odd last byte is summed as if a zero byte followed, by both implementations. */
  lemma OddTailIsPadded(b: seq<byte>)
    requires |b| % 2 == 1
    ensures CksumOf(b) == CksumOf(b + [0]) && CalculateOf(b) == CalculateOf(b + [0])
  {
    hide Rfc1071, Wrap32, TwoFolds, CksumOf;
    SumsOfPadded(b);
    CksumClosedForm(b);
    CksumClosedForm(b + [0]);
  }

  lemma {:induction false} SumsOfPadded(b: seq<byte>)
    requires |b| % 2 == 1
    ensures WordSum(b + [0]) == WordSum(b) && NativeSum(b + [0]) == NativeSum(b)
    decreases |b|
  {
    if |b| >= 2 {
      assert (b + [0])[2..] == b[2..] + [0];
      SumsOfPadded(b[2..]);
    }
  }

  /** The example of section 3 of RFC 1071: words that add up to 0x2ddf0. */
  lemma ExampleOfTheRfc()
    ensures CksumOf([0x00, 0x01, 0xf2, 0x03, 0xf4, 0xf5, 0xf6, 0xf7]) == 0x0d22
    ensures CalculateOf([0x00, 0x01, 0xf2, 0x03, 0xf4, 0xf5, 0xf6, 0xf7]) == 0x0d22
  {
    hide CksumOf, CalculateOf, WordSum, Swap16;
    var b: seq<byte> := [0x00, 0x01, 0xf2, 0x03, 0xf4, 0xf5, 0xf6, 0xf7];
    ExampleSum(b);
    AccumulatorNeverWraps(b);
    AgreementWithinBound(b);
    SwapOfDigits(0x0d, 0x22);
  }

  lemma ExampleSum(b: seq<byte>)
    requires b == [0x00, 0x01, 0xf2, 0x03, 0xf4, 0xf5, 0xf6, 0xf7]
    ensures WordSum(b) == 0x2_ddf0
  {
    hide WordSum;
    WordSumStep(b);
    WordSumStep(b[2..]);
    WordSumStep(b[2..][2..]);
    WordSumStep(b[2..][2..][2..]);
    WordSumOfNothing(b[2..][2..][2..][2..]);
  }

  lemma WordSumStep(h: seq<byte>)
    requires |h| >= 2
    ensures WordSum(h) == Join16(h[1], h[0]) + WordSum(h[2..])
  {
  }

  lemma WordSumOfNothing(h: seq<byte>)
    requires |h| == 0
    ensures WordSum(h) == 0
  {
  }

  // ----- a checksum field

  lemma {:induction false} WordSumPut16(b: seq<byte>, at: nat, v: uint16)
    requires at % 2 == 0 && at + 2 <= |b|
    ensures WordSum(Put16(b, at, v)) == WordSum(b) - Swap16(Get16(b, at)) + Swap16(v)
    decreases |b|
  {
    hide Swap16;
    if at == 0 {
      assert Put16(b, 0, v)[2..] == b[2..];
      SwapOfDigits(b[0], b[1]);
      SwapOfDigits(v % 0x100, v / 0x100);
    } else {
      assert Put16(b, at, v)[2..] == Put16(b[2..], at - 2, v);
      WordSumPut16(b[2..], at - 2, v);
    }
  }

  lemma VerifiesIffZeroResidue(b: seq<byte>)
    requires |b| <= MAX_EXACT
    ensures CksumOf(b) == 0xffff <==> WordSum(b) % 0xffff == 0
  {
    AccumulatorNeverWraps(b);
    SameRfc1071(WordSum(b), 0);
  }

  lemma FieldResidue(w: nat, c: int, v: uint16)
    requires (c + 0x100 * w) % 0xffff == 0
    ensures (w + Swap16(v)) % 0xffff == 0 <==> (v - c) % 0xffff == 0
  {
    var k := (c + 0x100 * w) / 0xffff;
    Swap16IsTimes256(v);
    var s := w + Swap16(v);
    assert 0x100 * s == v - c + 0xffff * (k + v - 0x100 * (v / 0x100));
    if s % 0xffff == 0 {
      SameResidue(v - c, 0, 0x100 * (s / 0xffff) - (k + v - 0x100 * (v / 0x100)));
    }
    if (v - c) % 0xffff == 0 {
      SameResidue(s, 0, 0x100 * ((v - c) / 0xffff + k + v - 0x100 * (v / 0x100)) - s);
    }
  }

  /** Storing a value `v` into the zeroed field makes the buffer verify exactly for the value
      `cksum` returned, and for 0 where that value is 0xffff. */
  lemma SelfVerification(b: seq<byte>, at: nat, v: uint16)
    requires |b| <= MAX_EXACT && at % 2 == 0 && at + 2 <= |b| && Get16(b, at) == 0
    ensures CksumOf(Put16(b, at, v)) == 0xffff <==> v == CksumOf(b) || (v == 0 && CksumOf(b) == 0xffff)
  {
    hide CksumOf, Rfc1071, Wrap32, Swap16, WordSum, Put16, Get16;
    SwapOfExtremes();
    AccumulatorNeverWraps(b);
    NoWrap(WordSum(b));
    CksumResidue(b);
    WordSumPut16(b, at, v);
    VerifiesIffZeroResidue(Put16(b, at, v));
    FieldResidue(WordSum(b), CksumOf(b), v);
    if (v - CksumOf(b)) % 0xffff == 0 && v != 0 {
      EqualIfCongruent(v, CksumOf(b));
    }
  }

  lemma UnswappedResidue(w: int, c: int)
    requires (c + 0x100 * w) % 0xffff == 0
    ensures (w + c) % 0xffff == 0 <==> w % 257 == 0
  {
    var k := (c + 0x100 * w) / 0xffff;
    if (w + c) % 0xffff == 0 {
      assert w == 257 * (k - (w + c) / 0xffff);
    }
    if w % 257 == 0 {
      SameResidue(w + c, 0, k - w / 257);
    }
  }

  /** The callers store `htons` of the returned value instead. Such a header verifies exactly when
      its word sum is a multiple of 257. */
  lemma DoubleSwapVerifies(b: seq<byte>, at: nat)
    requires |b| <= MAX_EXACT && at % 2 == 0 && at + 2 <= |b| && Get16(b, at) == 0
    ensures CksumOf(Put16(b, at, Swap16(CksumOf(b)))) == 0xffff <==> WordSum(b) % 257 == 0
  {
    hide CksumOf, Rfc1071, Wrap32, Swap16, WordSum, Put16, Get16;
    SwapOfExtremes();
    AccumulatorNeverWraps(b);
    NoWrap(WordSum(b));
    CksumResidue(b);
    Swap16Involution(CksumOf(b));
    WordSumPut16(b, at, Swap16(CksumOf(b)));
    VerifiesIffZeroResidue(Put16(b, at, Swap16(CksumOf(b))));
    UnswappedResidue(WordSum(b), CksumOf(b));
  }

  // ----- verification and detection

  /** `verify_checksum(b, |b|, cksum(a, |a|))` accepts exactly the buffers with a congruent word sum. */
  lemma VerifyAcceptsExactly(a: seq<byte>, b: seq<byte>)
    requires |a| <= MAX_EXACT && |b| <= MAX_EXACT
    ensures CksumOf(b) == CksumOf(a) <==> WordSum(a) % 0xffff == WordSum(b) % 0xffff
  {
    hide CksumOf, Rfc1071;
    AccumulatorNeverWraps(a);
    AccumulatorNeverWraps(b);
    SameRfc1071(WordSum(a), WordSum(b));
  }

  lemma CongruentWords(x: uint16, y: uint16)
    ensures (x - y) % 0xffff == 0 <==> x == y || (x == 0 && y == 0xffff) || (x == 0xffff && y == 0)
  {
  }

  /** Every change of one aligned word is detected, except 0x0000 exchanged with 0xffff. */
  lemma SingleWordChangeDetected(a: seq<byte>, at: nat, v: uint16)
    requires |a| <= MAX_EXACT && at % 2 == 0 && at + 2 <= |a|
    ensures CksumOf(Put16(a, at, v)) == CksumOf(a)
            <==> v == Get16(a, at) || (v == 0 && Get16(a, at) == 0xffff) || (v == 0xffff && Get16(a, at) == 0)
  {
    hide CksumOf, WordSum, Swap16;
    var u := Get16(a, at);
    WordSumPut16(a, at, v);
    VerifyAcceptsExactly(a, Put16(a, at, v));
    ResidueDifference(WordSum(a), WordSum(Put16(a, at, v)));
    CongruentWords(Swap16(u), Swap16(v));
    SwapOfExtremes();
    Swap16Involution(u);
    Swap16Involution(v);
  }

  // ----- word-order independence, section 2(A) of RFC 1071

  lemma {:induction false} SumOfConcat(xs: seq<int>, ys: seq<int>)
    ensures Sum(xs + ys) == Sum(xs) + Sum(ys)
  {
    if xs == [] {
      assert xs + ys == ys;
    } else {
      assert (xs + ys)[1..] == xs[1..] + ys;
      SumOfConcat(xs[1..], ys);
    }
  }

  lemma RemoveAt(ys: seq<int>, k: nat)
    requires k < |ys|
    ensures multiset(ys) == multiset{ys[k]} + multiset(ys[..k] + ys[k + 1..])
    ensures Sum(ys) == ys[k] + Sum(ys[..k] + ys[k + 1..])
  {
    hide Sum;
    var front, back := ys[..k], ys[k + 1..];
    assert ys == front + ([ys[k]] + back);
    SumOfCons(ys[k], back);
    SumOfConcat(front, [ys[k]] + back);
    SumOfConcat(front, back);
  }

  lemma SumOfCons(x: int, xs: seq<int>)
    ensures Sum([x] + xs) == x + Sum(xs)
  {
    assert ([x] + xs)[1..] == xs;
  }

  lemma {:induction false} SumOfPermutation(xs: seq<int>, ys: seq<int>)
    requires multiset(xs) == multiset(ys)
    ensures Sum(xs) == Sum(ys)
  {
    if xs == [] {
      assert |multiset(ys)| == 0;
    } else {
      assert xs == [xs[0]] + xs[1..];
      assert xs[0] in multiset(ys);
      var k :| 0 <= k < |ys| && ys[k] == xs[0];
      RemoveAt(ys, k);
      calc {
        multiset(xs[1..]);
        multiset(xs) - multiset{xs[0]};
        multiset(ys) - multiset{ys[k]};
        multiset(ys[..k] + ys[k + 1..]);
      }
      SumOfPermutation(xs[1..], ys[..k] + ys[k + 1..]);
    }
  }

  /** Reordering the aligned words of a buffer does not change its checksum, whatever its length. */
  lemma WordOrderIndependence(a: seq<byte>, b: seq<byte>)
    requires multiset(Words(a)) == multiset(Words(b))
    ensures CksumOf(a) == CksumOf(b)
  {
    hide Accumulate, Wrap32, Finish, Fold, Words, WordSum, Sum;
    WordSumIsSum(a);
    WordSumIsSum(b);
    SumOfPermutation(Words(a), Words(b));
    AccumulateIsWrappedSum(0, a);
    AccumulateIsWrappedSum(0, b);
  }
}
